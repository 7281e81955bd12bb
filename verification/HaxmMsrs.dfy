/** Bulk access to model specific registers in batches of at most 32 entries. */
module HaxmMsrs {
  import opened Bits

  datatype Status = OK | Failed | InvalidArguments
    /** The loop reads or writes past the end of the caller's arrays. */
    | Overrun

  function Lookup(store: map<u64, u64>, msr: u64): u64 {
    if msr in store then store[msr] else 0
  }

  /** Setting registers one at a time, from left to right. */
  function SetEach(store: map<u64, u64>, msrs: seq<u64>, values: seq<u64>): map<u64, u64>
    requires |msrs| == |values|
    decreases |msrs|
  {
    if msrs == [] then store
    else SetEach(store, msrs[..|msrs| - 1], values[..|msrs| - 1])[msrs[|msrs| - 1] := values[|msrs| - 1]]
  }

  /** Both inner loops bound the batch by the whole count, so every batch has this size. */
  function BatchSize(numRegs: nat): nat {
    if numRegs < 32 then numRegs else 32
  }

  /** The batches that fit in the arrays. */
  function FullBatches(numRegs: nat): nat {
    if numRegs == 0 then 0 else numRegs / BatchSize(numRegs)
  }

  /** The batches leave nothing over exactly for a count of at most 32 or a multiple of 32. */
  lemma FitsIff(numRegs: nat)
    ensures FullBatches(numRegs) * BatchSize(numRegs) == numRegs <==> numRegs <= 32 || numRegs % 32 == 0
  {
    if 0 < numRegs < 32 {
      assert numRegs / numRegs == 1;
    }
  }

  /** How many of the first n hypervisor calls succeed before one fails. */
  function Successes(answers: nat -> bool, n: nat): (k: nat)
    ensures k <= n && (forall i: nat | i < k :: answers(i)) && (k < n ==> !answers(k))
  {
    if n == 0 then 0
    else
      var k := Successes(answers, n - 1);
      if k == n - 1 && answers(n - 1) then n else k
  }

  lemma SuccessesAre(answers: nat -> bool, n: nat, k: nat)
    requires k <= n && (forall i: nat | i < k :: answers(i)) && (k < n ==> !answers(k))
    ensures Successes(answers, n) == k
  {
  }

  /** The outcome of a bulk call on existing arrays. */
  function BulkStatus(numRegs: nat, answers: nat -> bool): Status {
    if Successes(answers, FullBatches(numRegs)) < FullBatches(numRegs) then Failed
    else if FullBatches(numRegs) * BatchSize(numRegs) == numRegs then OK
    else Overrun
  }

  /** The entries that went through. */
  function Accessed(numRegs: nat, answers: nat -> bool): nat {
    Successes(answers, FullBatches(numRegs)) * BatchSize(numRegs)
  }

  lemma BatchArithmetic(numRegs: nat, batch: nat)
    ensures batch < FullBatches(numRegs) ==> (batch + 1) * BatchSize(numRegs) <= numRegs
    ensures batch == FullBatches(numRegs) ==> numRegs < (batch + 1) * BatchSize(numRegs) || numRegs == 0
    ensures batch <= FullBatches(numRegs) ==> batch * BatchSize(numRegs) <= numRegs
    ensures numRegs == 0 ==> FullBatches(numRegs) == 0
  {
    var size := BatchSize(numRegs);
    if numRegs > 0 {
      DivModOf(numRegs, size);
      var full := numRegs / size;
      if batch < full {
        Scale(batch + 1, full, size);
      }
      if batch <= full {
        Scale(batch, full, size);
      }
    } else {
      assert size == 0;
    }
  }

  /** With successful calls, a bulk access is the loop of single accesses exactly when the count fits. */
  lemma BulkIsEachIff(numRegs: nat, answers: nat -> bool)
    requires forall i: nat :: answers(i)
    ensures BulkStatus(numRegs, answers) == (if numRegs <= 32 || numRegs % 32 == 0 then OK else Overrun)
    ensures BulkStatus(numRegs, answers).OK? ==> Accessed(numRegs, answers) == numRegs
  {
    FitsIff(numRegs);
    SuccessesAre(answers, FullBatches(numRegs), FullBatches(numRegs));
  }

  /**
   * The status, whatever the hypervisor answers: Failed exactly when one of the
   * calls for the batches that fit fails, and then the batches before the first
   * failing one went through; otherwise OK exactly when the count fits.
   */
  lemma BulkStatusIs(numRegs: nat, answers: nat -> bool)
    ensures var size := if numRegs < 32 then numRegs else 32;
            var batches := if numRegs == 0 then 0 else numRegs / size;
            var failed := exists i: nat :: i < batches && !answers(i);
            && BulkStatus(numRegs, answers) ==
               (if failed then Failed else if numRegs <= 32 || numRegs % 32 == 0 then OK else Overrun)
            && (!failed ==> Accessed(numRegs, answers) == batches * size)
            && forall i: nat | i < batches && !answers(i) && (forall j: nat | j < i :: answers(j)) ::
                 Accessed(numRegs, answers) == i * size
  {
    FitsIff(numRegs);
    var batches := FullBatches(numRegs);
    var k := Successes(answers, batches);
    hide Successes;
    forall i: nat | i < batches && !answers(i) && (forall j: nat | j < i :: answers(j))
      ensures k == i
    {
      SuccessesAre(answers, batches, i);
    }
  }

  /** Departure: 33 registers overrun the arrays after the first batch. */
  lemma ThirtyThreeOverrun()
    ensures BulkStatus(33, i => true) == Overrun && Accessed(33, i => true) == 32
  {
    BulkIsEachIff(33, i => true);
    SuccessesAre(i => true, 1, 1);
  }

  lemma SetNone(store: map<u64, u64>, msrs: seq<u64>, values: seq<u64>)
    ensures SetEach(store, msrs[..0], values[..0]) == store
  {
  }

  lemma SetEachMore(store: map<u64, u64>, msrs: seq<u64>, values: seq<u64>, n: nat)
    requires |msrs| == |values| && n < |msrs|
    ensures SetEach(store, msrs[..n + 1], values[..n + 1]) ==
            SetEach(store, msrs[..n], values[..n])[msrs[n] := values[n]]
  {
    assert msrs[..n + 1][..n] == msrs[..n] && values[..n + 1][..n] == values[..n];
  }

  /** A batch that copies the next entries extends the registers set so far. */
  lemma BatchStored(store: map<u64, u64>, msrs: seq<u64>, values: seq<u64>, start: nat,
                    entries: seq<u64>, data: seq<u64>)
    requires |msrs| == |values| && |entries| == |data| && start + |entries| <= |msrs|
    requires forall j | 0 <= j < |entries| :: entries[j] == msrs[start + j] && data[j] == values[start + j]
    ensures var end := start + |entries|;
            SetEach(SetEach(store, msrs[..start], values[..start]), entries, data) ==
            SetEach(store, msrs[..end], values[..end])
  {
    hide SetEach;
    var end := start + |entries|;
    assert msrs[..start] + entries == msrs[..end] && values[..start] + data == values[..end];
    SetEachAppend(store, msrs[..start], values[..start], entries, data);
  }

  /** After a loop of single writes each register holds the value written to it last, and the others are as before. */
  lemma {:induction false} SetEachLookup(store: map<u64, u64>, msrs: seq<u64>, values: seq<u64>, m: u64, k: int)
    requires |msrs| == |values| && -1 <= k < |msrs|
    requires k >= 0 ==> msrs[k] == m
    requires forall j | k < j < |msrs| :: msrs[j] != m
    ensures Lookup(SetEach(store, msrs, values), m) == if k >= 0 then values[k] else Lookup(store, m)
    decreases |msrs|
  {
    if msrs != [] && k < |msrs| - 1 {
      var n := |msrs| - 1;
      SetEachLookup(store, msrs[..n], values[..n], m, k);
    }
  }

  class MsrAccess {
    var store: map<u64, u64>

    /** The hypervisor stores the first count entries in order. */
    method SetMSRData(entries: array<u64>, data: array<u64>, count: nat)
      requires count <= entries.Length && count <= data.Length
      modifies this
      ensures store == SetEach(old(store), entries[..count], data[..count])
    {
      for i := 0 to count
        invariant store == SetEach(old(store), entries[..i], data[..i])
      {
        SetEachMore(old(store), entries[..count], data[..count], i);
        assert entries[..count][..i] == entries[..i] && data[..count][..i] == data[..i];
        assert entries[..count][..i + 1] == entries[..i + 1] && data[..count][..i + 1] == data[..i + 1];
        store := store[entries[i] := data[i]];
      }
    }

    /** Answers says for each hypervisor call, in order, whether it succeeds. */
    method GetMSRs(msrs: array?<u64>, values: array?<u64>, answers: nat -> bool) returns (status: Status)
      requires msrs != null && values != null ==> msrs != values && msrs.Length == values.Length
      modifies values
      ensures msrs == null || values == null ==> status == InvalidArguments
      ensures msrs != null && values != null ==>
                var n := Accessed(msrs.Length, answers);
                && status == BulkStatus(msrs.Length, answers)
                && (forall i | 0 <= i < n && i < msrs.Length :: values[i] == Lookup(store, msrs[i]))
                && (forall i | n <= i < msrs.Length :: values[i] == old(values[i]))
    {
      hide FullBatches, Successes, Lookup;
      if msrs == null || values == null {
        return InvalidArguments;
      }
      var numRegs := msrs.Length;
      var index := 0;
      var batch := 0;
      ghost var size := BatchSize(numRegs);
      BatchArithmetic(numRegs, 0);
      while index < numRegs
        invariant batch <= FullBatches(numRegs) && index == batch * size <= numRegs
        invariant forall i: nat | i < batch :: answers(i)
        invariant forall i | 0 <= i < index :: values[i] == Lookup(store, msrs[i])
        invariant forall i | index <= i < numRegs :: values[i] == old(values[i])
        decreases numRegs - index
      {
        BatchArithmetic(numRegs, batch);
        var entries := new u64[32];
        var prevIndex := index;
        var i := 0;
        while i < numRegs && i < 32
          invariant 0 <= i <= size && index == prevIndex + i <= numRegs
          invariant forall j | 0 <= j < i :: entries[j] == msrs[prevIndex + j]
          modifies entries
        {
          if index >= numRegs {
            SuccessesAre(answers, FullBatches(numRegs), batch);
            return Overrun;
          }
          entries[i] := msrs[index];
          index := index + 1;
          i := i + 1;
        }
        if !answers(batch) {
          SuccessesAre(answers, FullBatches(numRegs), batch);
          return Failed;
        }
        index := prevIndex;
        i := 0;
        while i < numRegs && i < 32
          invariant 0 <= i <= size && index == prevIndex + i && prevIndex + size <= numRegs
          invariant forall j | 0 <= j < index :: values[j] == Lookup(store, msrs[j])
          invariant forall j | index <= j < numRegs :: values[j] == old(values[j])
          invariant forall j | 0 <= j < size :: entries[j] == msrs[prevIndex + j]
        {
          values[index] := Lookup(store, entries[i]);
          index := index + 1;
          i := i + 1;
        }
        batch := batch + 1;
      }
      BatchArithmetic(numRegs, batch);
      SuccessesAre(answers, FullBatches(numRegs), batch);
      return OK;
    }

    method SetMSRs(msrs: array?<u64>, values: array?<u64>, answers: nat -> bool) returns (status: Status)
      requires msrs != null && values != null ==> msrs.Length == values.Length
      modifies this
      ensures msrs == null || values == null ==> status == InvalidArguments && store == old(store)
      ensures msrs != null && values != null ==>
                var n := Accessed(msrs.Length, answers);
                && status == BulkStatus(msrs.Length, answers)
                && n <= msrs.Length && store == SetEach(old(store), msrs[..][..n], values[..][..n])
    {
      hide SetEach, FullBatches, Successes;
      if msrs == null || values == null {
        return InvalidArguments;
      }
      var numRegs := msrs.Length;
      var index := 0;
      var batch := 0;
      ghost var size := BatchSize(numRegs);
      BatchArithmetic(numRegs, 0);
      SetNone(store, msrs[..], values[..]);
      while index < numRegs
        invariant batch <= FullBatches(numRegs) && index == batch * size <= numRegs
        invariant forall i: nat | i < batch :: answers(i)
        invariant store == SetEach(old(store), msrs[..][..index], values[..][..index])
        decreases numRegs - index
      {
        BatchArithmetic(numRegs, batch);
        var entries, data := new u64[32], new u64[32];
        ghost var start := index;
        var i := 0;
        while i < numRegs && i < 32
          invariant 0 <= i <= size && index == start + i <= numRegs
          invariant forall j | 0 <= j < i :: entries[j] == msrs[start + j] && data[j] == values[start + j]
          modifies entries, data
        {
          if index >= numRegs {
            SuccessesAre(answers, FullBatches(numRegs), batch);
            return Overrun;
          }
          entries[i], data[i] := msrs[index], values[index];
          index := index + 1;
          i := i + 1;
        }
        if !answers(batch) {
          SuccessesAre(answers, FullBatches(numRegs), batch);
          return Failed;
        }
        BatchStored(old(store), msrs[..], values[..], start, entries[..i], data[..i]);
        SetMSRData(entries, data, i);
        batch := batch + 1;
      }
      BatchArithmetic(numRegs, batch);
      SuccessesAre(answers, FullBatches(numRegs), batch);
      return OK;
    }
  }

  lemma {:induction false} SetEachAppend(store: map<u64, u64>, ms: seq<u64>, vs: seq<u64>, ns: seq<u64>, ws: seq<u64>)
    requires |ms| == |vs| && |ns| == |ws|
    ensures SetEach(SetEach(store, ms, vs), ns, ws) == SetEach(store, ms + ns, vs + ws)
    decreases |ns|
  {
    if ns == [] {
      assert ms + ns == ms && vs + ws == vs;
    } else {
      var n := |ns| - 1;
      SetEachAppend(store, ms, vs, ns[..n], ws[..n]);
      assert (ms + ns)[..|ms + ns| - 1] == ms + ns[..n] && (vs + ws)[..|ms + ns| - 1] == vs + ws[..n];
    }
  }
}
