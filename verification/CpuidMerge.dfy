/** Merging custom CPUID results into the supported defaults when a KVM virtual processor is created. */
module CpuidMerge {
  import opened Bits
  import opened Wrappers

  datatype CPUIDResult = CPUIDResult(function_: u32, eax: u32, ebx: u32, ecx: u32, edx: u32)

  datatype CpuidEntry = CpuidEntry(function_: u32, index: u32, flags: u32, eax: u32, ebx: u32, ecx: u32, edx: u32)

  /** What the loops take the function before the first entry to be. */
  const SENTINEL: u32 := 0xFFFF_FFFF

  /** The counter the loops keep. */
  function LeafIndex(list: seq<CPUIDResult>, i: nat): (leaf: nat)
    requires i < |list|
    ensures leaf <= i + 1
  {
    var last := if i == 0 then SENTINEL else list[i - 1].function_;
    if list[i].function_ != last then 0
    else if i == 0 then 1
    else LeafIndex(list, i - 1) + 1
  }

  /** The position of an entry within its run of consecutive entries with the same function. */
  function RunPosition(list: seq<CPUIDResult>, i: nat): nat
    requires i < |list|
  {
    if i > 0 && list[i].function_ == list[i - 1].function_ then RunPosition(list, i - 1) + 1 else 0
  }

  /** The entry lies in a first run of the sentinel function. */
  predicate InSentinelRun(list: seq<CPUIDResult>, i: nat)
    requires i < |list|
  {
    forall j | 0 <= j <= i :: list[j].function_ == SENTINEL
  }

  /**
   * Departure: the counter is the position in the run exactly when the entry is
   * not in a first run whose function happens to be the sentinel; there it is one
   * more.
   */
  lemma {:induction false} LeafIsPositionIff(list: seq<CPUIDResult>, i: nat)
    requires i < |list|
    ensures LeafIndex(list, i) == RunPosition(list, i) + if InSentinelRun(list, i) then 1 else 0
    ensures InSentinelRun(list, i) ==> RunPosition(list, i) == i
  {
    if i > 0 {
      LeafIsPositionIff(list, i - 1);
      assert InSentinelRun(list, i) <==> InSentinelRun(list, i - 1) && list[i].function_ == SENTINEL;
    }
  }

  /** Departure: the first of two entries with function 0xFFFFFFFF gets leaf index 1. */
  lemma SentinelGetsLeafOne(r: CPUIDResult)
    requires r.function_ == SENTINEL
    ensures LeafIndex([r, r], 0) == 1 && RunPosition([r, r], 0) == 0
  {
  }

  /** The map key: the function in the lower half, the leaf index in the upper. */
  function Key(function_: u32, leaf: nat): nat {
    Or(function_, Shl(leaf, 32))
  }

  lemma KeyValue(function_: u32, leaf: nat)
    requires leaf < 0x1_0000_0000
    ensures Key(function_, leaf) == leaf * 0x1_0000_0000 + function_
  {
    Powers();
    OrCommutes(function_, leaf * 0x1_0000_0000);
    OrDisjoint(leaf, function_, 32);
  }

  lemma KeyInjective(f: u32, i: nat, g: u32, j: nat)
    requires i < 0x1_0000_0000 && j < 0x1_0000_0000
    ensures Key(f, i) == Key(g, j) <==> f == g && i == j
  {
    hide Key;
    KeyValue(f, i);
    KeyValue(g, j);
  }

  /** The last of the first n custom results with a function and leaf index, or -1. */
  function LastMatch(customs: seq<CPUIDResult>, n: nat, function_: u32, leaf: nat): (k: int)
    requires n <= |customs|
    ensures -1 <= k < n
    ensures k >= 0 ==> customs[k].function_ == function_ && LeafIndex(customs, k) == leaf
    ensures forall j: nat | k < j < n :: !(customs[j].function_ == function_ && LeafIndex(customs, j) == leaf)
  {
    if n == 0 then -1
    else if customs[n - 1].function_ == function_ && LeafIndex(customs, n - 1) == leaf then n - 1
    else LastMatch(customs, n - 1, function_, leaf)
  }

  /** The map after the first n custom results. */
  function Table(customs: seq<CPUIDResult>, n: nat): map<nat, CPUIDResult>
    requires n <= |customs|
  {
    if n == 0 then map[]
    else Table(customs, n - 1)[Key(customs[n - 1].function_, LeafIndex(customs, n - 1)) := customs[n - 1]]
  }

  /** Looking a key up in the map finds the last match, because keys do not collide. */
  lemma {:induction false} TableFindsLastMatch(customs: seq<CPUIDResult>, n: nat, function_: u32, leaf: nat)
    requires n <= |customs| && |customs| < 0xFFFF_FFFF && leaf < 0x1_0000_0000
    ensures var key, k := Key(function_, leaf), LastMatch(customs, n, function_, leaf);
            && (key in Table(customs, n) <==> k >= 0)
            && (k >= 0 ==> Table(customs, n)[key] == customs[k])
  {
    hide Key, LeafIndex;
    if n > 0 {
      TableFindsLastMatch(customs, n - 1, function_, leaf);
      LeafBound(customs, n - 1);
      KeyInjective(customs[n - 1].function_, LeafIndex(customs, n - 1), function_, leaf);
    }
  }

  lemma LeafBound(list: seq<CPUIDResult>, i: nat)
    requires i < |list|
    ensures LeafIndex(list, i) <= i + 1
  {
  }

  /** Only these functions have a significant index. */
  function Flags(function_: u32): u32 {
    if function_ == 0x4 || function_ == 0x7 || function_ == 0xb || function_ == 0xd then 1 else 0
  }

  /** Entry i of the merge: the last custom result for its function and leaf index, or else the default. */
  function MergedEntry(customs: seq<CPUIDResult>, defaults: seq<CPUIDResult>, i: nat): CpuidEntry
    requires i < |defaults| && |defaults| < 0xFFFF_FFFF
  {
    var f, leaf := defaults[i].function_, LeafIndex(defaults, i);
    var k := LastMatch(customs, |customs|, f, leaf);
    var source := if k >= 0 then customs[k] else defaults[i];
    CpuidEntry(f, leaf, Flags(f), source.eax, source.ebx, source.ecx, source.edx)
  }

  /** The merged entry, looked up in the map. */
  lemma MergedFromTable(customs: seq<CPUIDResult>, defaults: seq<CPUIDResult>, i: nat)
    requires i < |defaults| && |customs| < 0xFFFF_FFFF && |defaults| < 0xFFFF_FFFF
    ensures var entry, leaf, table := defaults[i], LeafIndex(defaults, i), Table(customs, |customs|);
            var key := Key(entry.function_, leaf);
            var source := if key in table then table[key] else entry;
            MergedEntry(customs, defaults, i) ==
            CpuidEntry(entry.function_, leaf, Flags(entry.function_), source.eax, source.ebx, source.ecx, source.edx)
  {
    hide Key, LastMatch, LeafIndex, Table;
    LeafBound(defaults, i);
    TableFindsLastMatch(customs, |customs|, defaults[i].function_, LeafIndex(defaults, i));
  }

  /**
   * The entry has its position within its run of equal functions as index, and
   * the registers of the last custom result with its function and position, or
   * its own when there is none.
   */
  predicate IsByPosition(customs: seq<CPUIDResult>, defaults: seq<CPUIDResult>, i: nat, e: CpuidEntry)
    requires i < |defaults|
  {
    var k := LastPlace(customs, |customs|, defaults, i);
    var source := if k >= 0 then customs[k] else defaults[i];
    && e.function_ == defaults[i].function_ && e.index == RunPosition(defaults, i)
    && (e.eax, e.ebx, e.ecx, e.edx) == (source.eax, source.ebx, source.ecx, source.edx)
  }

  /** Without the function 0xFFFFFFFF every entry is by position. */
  lemma OrdinaryByPosition(customs: seq<CPUIDResult>, defaults: seq<CPUIDResult>, i: nat)
    requires i < |defaults| && |defaults| < 0xFFFF_FFFF
    requires defaults[i].function_ != 0xFFFF_FFFF
    ensures IsByPosition(customs, defaults, i, MergedEntry(customs, defaults, i))
  {
    PicksByPositionIff(customs, defaults, i);
    PickedEntry(customs, defaults, i);
  }

  lemma MergedFlags(customs: seq<CPUIDResult>, defaults: seq<CPUIDResult>, i: nat)
    requires i < |defaults| && |defaults| < 0xFFFF_FFFF
    ensures var e, f := MergedEntry(customs, defaults, i), defaults[i].function_;
            e.function_ == f && e.flags == if f in {4, 7, 0xB, 0xD} then 1 else 0
  {
  }

  /** The counts fit the 32-bit fields they are stored in. */
  method Merge(customs: seq<CPUIDResult>, defaults: seq<CPUIDResult>) returns (entries: seq<CpuidEntry>)
    requires |customs| < 0xFFFF_FFFF && |defaults| < 0xFFFF_FFFF
    ensures |entries| == |defaults|
    ensures forall i: nat | i < |defaults| :: entries[i] == MergedEntry(customs, defaults, i)
    ensures forall i: nat | i < |defaults| ::
              && entries[i].function_ == defaults[i].function_
              && entries[i].flags == if defaults[i].function_ in {4, 7, 0xB, 0xD} then 1 else 0
    ensures forall i: nat | i < |defaults| && defaults[i].function_ != 0xFFFF_FFFF ::
              IsByPosition(customs, defaults, i, entries[i])
  {
    hide Key, LastMatch, MergedEntry;
    var custom_cpuids: map<nat, CPUIDResult> := map[];
    var leaf_index := 0;
    var last_func := SENTINEL;
    for i := 0 to |customs|
      invariant custom_cpuids == Table(customs, i)
      invariant last_func == if i == 0 then SENTINEL else customs[i - 1].function_
      invariant leaf_index == if i == 0 then 0 else LeafIndex(customs, i - 1)
    {
      if customs[i].function_ == last_func {
        leaf_index := leaf_index + 1;
      } else {
        leaf_index := 0;
        last_func := customs[i].function_;
      }
      custom_cpuids := custom_cpuids[Key(customs[i].function_, leaf_index) := customs[i]];
    }

    entries := [];
    leaf_index := 0;
    last_func := SENTINEL;
    for i := 0 to |defaults|
      invariant |entries| == i
      invariant last_func == if i == 0 then SENTINEL else defaults[i - 1].function_
      invariant leaf_index == if i == 0 then 0 else LeafIndex(defaults, i - 1)
      invariant forall j: nat | j < i :: entries[j] == MergedEntry(customs, defaults, j)
    {
      var entry := defaults[i];
      if entry.function_ == last_func {
        leaf_index := leaf_index + 1;
      } else {
        leaf_index := 0;
        last_func := entry.function_;
      }
      assert leaf_index == LeafIndex(defaults, i);
      var flags := 0;
      if entry.function_ == 0x4 || entry.function_ == 0x7 || entry.function_ == 0xb || entry.function_ == 0xd {
        flags := 1;
      }
      MergedFromTable(customs, defaults, i);
      var custom_key := Key(entry.function_, leaf_index);
      var source := if custom_key in custom_cpuids then custom_cpuids[custom_key] else entry;
      entries := entries + [CpuidEntry(entry.function_, leaf_index, flags,
                                       source.eax, source.ebx, source.ecx, source.edx)];
    }
    forall i: nat | i < |defaults|
      ensures entries[i].function_ == defaults[i].function_
      ensures entries[i].flags == if defaults[i].function_ in {4, 7, 0xB, 0xD} then 1 else 0
      ensures defaults[i].function_ != 0xFFFF_FFFF ==> IsByPosition(customs, defaults, i, entries[i])
    {
      MergedFlags(customs, defaults, i);
      if defaults[i].function_ != 0xFFFF_FFFF {
        OrdinaryByPosition(customs, defaults, i);
      }
    }
  }

  // ----- The merge by position -------------------------------------------------------------

  /** The custom result has the entry's function and its position within a run of that function. */
  predicate SamePlace(customs: seq<CPUIDResult>, k: nat, defaults: seq<CPUIDResult>, i: nat)
    requires k < |customs| && i < |defaults|
  {
    customs[k].function_ == defaults[i].function_ && RunPosition(customs, k) == RunPosition(defaults, i)
  }

  /** The last of the first n custom results in the entry's place, or -1. */
  function LastPlace(customs: seq<CPUIDResult>, n: nat, defaults: seq<CPUIDResult>, i: nat): (k: int)
    requires n <= |customs| && i < |defaults|
    ensures -1 <= k < n && (k >= 0 ==> SamePlace(customs, k, defaults, i))
    ensures forall j: nat | k < j < n :: !SamePlace(customs, j, defaults, i)
  {
    if n == 0 then -1
    else if SamePlace(customs, n - 1, defaults, i) then n - 1
    else LastPlace(customs, n - 1, defaults, i)
  }

  /** The merge gives the entry its position as index, and picks the last custom result in its place or none. */
  predicate PicksByPosition(customs: seq<CPUIDResult>, defaults: seq<CPUIDResult>, i: nat)
    requires i < |defaults|
  {
    && LeafIndex(defaults, i) == RunPosition(defaults, i)
    && Picked(customs, defaults, i) == LastPlace(customs, |customs|, defaults, i)
  }

  /** A custom result in the entry's place that lies outside a first run of the sentinel. */
  predicate PlainMatch(customs: seq<CPUIDResult>, k: nat, defaults: seq<CPUIDResult>, i: nat)
    requires k < |customs| && i < |defaults|
  {
    SamePlace(customs, k, defaults, i) && !InSentinelRun(customs, k)
  }

  /** Outside the first runs of the sentinel, the code and the positions match alike. */
  lemma MatchesAlike(customs: seq<CPUIDResult>, k: nat, defaults: seq<CPUIDResult>, i: nat)
    requires k < |customs| && i < |defaults| && !InSentinelRun(defaults, i)
    ensures var f, p := defaults[i].function_, RunPosition(defaults, i);
            var matched := customs[k].function_ == f && LeafIndex(customs, k) == LeafIndex(defaults, i);
            && LeafIndex(defaults, i) == p
            && if InSentinelRun(customs, k)
               then (matched <==> f == SENTINEL && k + 1 == p)
                    && (SamePlace(customs, k, defaults, i) <==> f == SENTINEL && k == p)
               else matched <==> SamePlace(customs, k, defaults, i)
  {
    hide LeafIndex, RunPosition;
    LeafIsPositionIff(defaults, i);
    LeafIsPositionIff(customs, k);
    assert InSentinelRun(customs, k) ==> customs[k].function_ == SENTINEL;
  }

  /** The custom result the code takes for the entry, or -1. */
  function Picked(customs: seq<CPUIDResult>, defaults: seq<CPUIDResult>, i: nat): (k: int)
    requires i < |defaults|
    ensures -1 <= k < |customs|
  {
    LastMatch(customs, |customs|, defaults[i].function_, LeafIndex(defaults, i))
  }

  lemma PickedIsLast(customs: seq<CPUIDResult>, defaults: seq<CPUIDResult>, i: nat, k: nat)
    requires i < |defaults| && k < |customs| && !InSentinelRun(defaults, i)
    ensures var f, p, c, l := defaults[i].function_, RunPosition(defaults, i), Picked(customs, defaults, i),
                              LastPlace(customs, |customs|, defaults, i);
            if InSentinelRun(customs, k)
            then (c == k ==> f == SENTINEL && k + 1 == p) && (f == SENTINEL && k + 1 == p ==> c >= k)
                 && (l == k ==> f == SENTINEL && k == p) && (f == SENTINEL && k == p ==> l >= k)
            else (c == k || l == k ==> PlainMatch(customs, k, defaults, i))
                 && (PlainMatch(customs, k, defaults, i) ==> c >= k && l >= k)
  {
    hide LeafIndex, RunPosition, SamePlace, InSentinelRun;
    MatchesAlike(customs, k, defaults, i);
  }

  /** With a plain match, or for an ordinary function, the code's pick is the one by position. */
  lemma PicksAlike(customs: seq<CPUIDResult>, defaults: seq<CPUIDResult>, i: nat)
    requires i < |defaults| && !InSentinelRun(defaults, i)
    requires || defaults[i].function_ != SENTINEL
             || exists k: nat :: k < |customs| && PlainMatch(customs, k, defaults, i)
    ensures Picked(customs, defaults, i) == LastPlace(customs, |customs|, defaults, i)
  {
    hide LeafIndex, RunPosition, SamePlace, InSentinelRun, Picked, LastPlace, PlainMatch;
    var c, l := Picked(customs, defaults, i), LastPlace(customs, |customs|, defaults, i);
    if defaults[i].function_ == SENTINEL {
      var k: nat :| k < |customs| && PlainMatch(customs, k, defaults, i);
      PlainIsOutside(customs, k, defaults, i);
      PickedIsLast(customs, defaults, i, k);
      if InSentinelRun(customs, c) {
        SentinelRunStarts(customs, k, c);
      }
      if InSentinelRun(customs, l) {
        SentinelRunStarts(customs, k, l);
      }
    }
    if c >= 0 {
      PickedIsLast(customs, defaults, i, c);
    }
    if l >= 0 {
      PickedIsLast(customs, defaults, i, l);
    }
  }

  lemma PlainIsOutside(customs: seq<CPUIDResult>, k: nat, defaults: seq<CPUIDResult>, i: nat)
    requires k < |customs| && i < |defaults| && PlainMatch(customs, k, defaults, i)
    ensures !InSentinelRun(customs, k)
  {
  }

  /** Otherwise it is so exactly when the first run of the sentinel offers neither of them anything. */
  lemma PicksNeitherIff(customs: seq<CPUIDResult>, defaults: seq<CPUIDResult>, i: nat)
    requires i < |defaults| && !InSentinelRun(defaults, i) && defaults[i].function_ == SENTINEL
    requires forall k: nat | k < |customs| :: !PlainMatch(customs, k, defaults, i)
    ensures var p := RunPosition(defaults, i);
            Picked(customs, defaults, i) == LastPlace(customs, |customs|, defaults, i) <==>
            forall k: nat | k < |customs| && InSentinelRun(customs, k) :: k != p && k + 1 != p
  {
    hide LeafIndex, RunPosition, SamePlace, InSentinelRun, Picked, LastPlace, PlainMatch;
    var p, c, l := RunPosition(defaults, i), Picked(customs, defaults, i), LastPlace(customs, |customs|, defaults, i);
    if c >= 0 {
      PickedIsLast(customs, defaults, i, c);
    }
    if l >= 0 {
      PickedIsLast(customs, defaults, i, l);
    }
    forall k: nat | k < |customs| && InSentinelRun(customs, k)
      ensures k == p || k + 1 == p ==> c >= 0 || l >= 0
    {
      PickedIsLast(customs, defaults, i, k);
    }
  }

  /**
   * The merge picks by position exactly when the entry is not in a first run of
   * the sentinel, and, if its function is the sentinel all the same, some plain
   * custom result is in its place or the first run among the custom results
   * reaches neither its position nor the one before.
   */
  lemma PicksByPositionIff(customs: seq<CPUIDResult>, defaults: seq<CPUIDResult>, i: nat)
    requires i < |defaults|
    ensures var p := RunPosition(defaults, i);
            PicksByPosition(customs, defaults, i) <==>
            && !InSentinelRun(defaults, i)
            && (|| defaults[i].function_ != SENTINEL
                || (exists k: nat :: k < |customs| && PlainMatch(customs, k, defaults, i))
                || forall k: nat | k < |customs| && InSentinelRun(customs, k) :: k != p && k + 1 != p)
  {
    hide LeafIndex, RunPosition, SamePlace, InSentinelRun, Picked, LastPlace, PlainMatch;
    LeafIsPositionIff(defaults, i);
    if !InSentinelRun(defaults, i) {
      if defaults[i].function_ != SENTINEL || exists k: nat :: k < |customs| && PlainMatch(customs, k, defaults, i) {
        PicksAlike(customs, defaults, i);
      } else {
        PicksNeitherIff(customs, defaults, i);
      }
    }
  }

  lemma SentinelRunStarts(list: seq<CPUIDResult>, j: nat, k: nat)
    requires j <= k < |list| && InSentinelRun(list, k)
    ensures InSentinelRun(list, j)
  {
  }

  /** Then the entry is the one by position. */
  lemma PickedEntry(customs: seq<CPUIDResult>, defaults: seq<CPUIDResult>, i: nat)
    requires i < |defaults| && |defaults| < 0xFFFF_FFFF && PicksByPosition(customs, defaults, i)
    ensures IsByPosition(customs, defaults, i, MergedEntry(customs, defaults, i))
  {
  }
}
