/**
  * The warm addresses, warm slots and touched accounts of a message run, with a diff for every
  * checkpoint and every commit, tagged with the height it belongs to.
  */
module JournalModel {
  import CopyStack

  type AddressString = string
  type SlotString = string
  type Warm = map<AddressString, set<SlotString>>

  /** Touching this account survives a revert. */
  const RIPEMD160_ADDRESS_STRING: AddressString := "0000000000000000000000000000000000000003"

  /** The third precompile, in 40 hexadecimal digits. */
  lemma {:induction false} RipemdIsThird()
    ensures |RIPEMD160_ADDRESS_STRING| == 40 && RIPEMD160_ADDRESS_STRING[39] == '3'
    ensures forall i :: 0 <= i < 39 ==> RIPEMD160_ADDRESS_STRING[i] == '0'
  {
  }

  /** What one stretch of the run added. */
  datatype Diff = Diff(addresses: set<AddressString>, slots: Warm, touched: set<AddressString>)

  datatype Entry = Entry(height: int, diff: Diff)

  datatype Journaled = Journaled(warm: Warm, touched: set<AddressString>, diffs: seq<Entry>, height: int)

  function NoDiff(): Diff {
    Diff({}, map[], {})
  }

  function Clean(): Journaled {
    Journaled(map[], {}, [Entry(0, NoDiff())], 0)
  }

  function SlotsOf(w: Warm, a: AddressString): set<SlotString> {
    if a in w then w[a] else {}
  }

  function Note(diffs: seq<Entry>, d: Diff): seq<Entry>
    requires diffs != []
  {
    diffs[|diffs| - 1 := diffs[|diffs| - 1].(diff := d)]
  }

  function LastDiff(diffs: seq<Entry>): Diff
    requires diffs != []
  {
    diffs[|diffs| - 1].diff
  }

  function Touch(j: Journaled, a: AddressString): Journaled
    requires j.diffs != []
  {
    var d := LastDiff(j.diffs);
    if a in j.touched then j
    else j.(touched := j.touched + {a}, diffs := Note(j.diffs, d.(touched := d.touched + {a})))
  }

  function WarmAddress(j: Journaled, a: AddressString): Journaled
    requires j.diffs != []
  {
    var d := LastDiff(j.diffs);
    if a in j.warm then j
    else j.(warm := j.warm[a := {}], diffs := Note(j.diffs, d.(addresses := d.addresses + {a})))
  }

  function WarmSlot(j: Journaled, a: AddressString, s: SlotString): Journaled
    requires j.diffs != []
  {
    var k := WarmAddress(j, a);
    var d := LastDiff(k.diffs);
    if s in k.warm[a] then k
    else k.(warm := k.warm[a := k.warm[a] + {s}],
            diffs := Note(k.diffs, d.(slots := d.slots[a := SlotsOf(d.slots, a) + {s}])))
  }

  function Open(j: Journaled): Journaled {
    j.(height := j.height + 1, diffs := j.diffs + [Entry(j.height + 1, NoDiff())])
  }

  function Commit(j: Journaled): Journaled {
    j.(height := j.height - 1, diffs := j.diffs + [Entry(j.height - 1, NoDiff())])
  }

  // ------------------------------------------------------------------------------------- undoing

  function Cooled(w: Warm, d: Diff): Warm {
    map a | a in w && a !in d.addresses :: w[a] - SlotsOf(d.slots, a)
  }

  function Untouched(t: set<AddressString>, d: Diff): set<AddressString> {
    t - (d.touched - {RIPEMD160_ADDRESS_STRING})
  }

  /** Undo every entry from the end down to the first one that lies below the given height. */
  function CooledTo(w: Warm, diffs: seq<Entry>, height: int): Warm {
    if diffs == [] || diffs[|diffs| - 1].height < height then w
    else CooledTo(Cooled(w, LastDiff(diffs)), diffs[..|diffs| - 1], height)
  }

  function UntouchedTo(t: set<AddressString>, diffs: seq<Entry>, height: int): set<AddressString> {
    if diffs == [] || diffs[|diffs| - 1].height < height then t
    else UntouchedTo(Untouched(t, LastDiff(diffs)), diffs[..|diffs| - 1], height)
  }

  /** The entries left standing, the one that stopped the undoing included. */
  function KeptBelow(diffs: seq<Entry>, height: int): (kept: seq<Entry>)
    ensures kept <= diffs
  {
    if diffs == [] || diffs[|diffs| - 1].height < height then diffs else KeptBelow(diffs[..|diffs| - 1], height)
  }

  /** With nothing below the current height, the first entry stays in the list although it was undone. */
  function Revert(j: Journaled): Journaled
    requires j.diffs != []
  {
    var kept := KeptBelow(j.diffs, j.height);
    Journaled(CooledTo(j.warm, j.diffs, j.height), UntouchedTo(j.touched, j.diffs, j.height),
              if kept == [] then j.diffs[..1] else kept, j.height - 1)
  }

  // --------------------------------------------------------------------- the stack of snapshots

  datatype Snapshot = Snapshot(warm: Warm, touched: set<AddressString>)

  /** The current state and its copy at every open checkpoint. */
  datatype Snapshots = Snapshots(now: Snapshot, saved: seq<Snapshot>)

  datatype Op =
    | TouchOp(address: AddressString)
    | WarmAddressOp(address: AddressString)
    | WarmSlotOp(address: AddressString, slot: SlotString)
    | OpenOp
    | CommitOp
    | RevertOp

  function SetTouched(s: Snapshot, a: AddressString): Snapshot {
    s.(touched := s.touched + {a})
  }

  function SetWarm(s: Snapshot, a: AddressString): Snapshot {
    if a in s.warm then s else s.(warm := s.warm[a := {}])
  }

  function SetWarmSlot(s: Snapshot, a: AddressString, slot: SlotString): Snapshot {
    s.(warm := s.warm[a := SlotsOf(s.warm, a) + {slot}])
  }

  /** A revert brings back the saved copy, but the RIPEMD-160 account stays touched. */
  function Restored(now: Snapshot, saved: Snapshot): Snapshot {
    saved.(touched := saved.touched + (now.touched * {RIPEMD160_ADDRESS_STRING}))
  }

  function ApplySnapshots(m: Snapshots, op: Op): Snapshots
    requires op.CommitOp? || op.RevertOp? ==> m.saved != []
  {
    match op
    case TouchOp(a) => m.(now := SetTouched(m.now, a))
    case WarmAddressOp(a) => m.(now := SetWarm(m.now, a))
    case WarmSlotOp(a, s) => m.(now := SetWarmSlot(m.now, a, s))
    case OpenOp => m.(saved := m.saved + [m.now])
    case CommitOp => m.(saved := m.saved[..|m.saved| - 1])
    case RevertOp => Snapshots(Restored(m.now, m.saved[|m.saved| - 1]), m.saved[..|m.saved| - 1])
  }

  function Apply(j: Journaled, op: Op): Journaled
    requires j.diffs != []
  {
    match op
    case TouchOp(a) => Touch(j, a)
    case WarmAddressOp(a) => WarmAddress(j, a)
    case WarmSlotOp(a, s) => WarmSlot(j, a, s)
    case OpenOp => Open(j)
    case CommitOp => Commit(j)
    case RevertOp => Revert(j)
  }

  // ------------------------------------------------------------------------------ what always holds

  /** Heights start at 0, change by one from entry to entry, never go below 0, and end at the current one. */
  ghost predicate Heights(diffs: seq<Entry>, height: int) {
    && diffs != [] && diffs[0].height == 0 && diffs[|diffs| - 1].height == height
    && (forall i :: 0 <= i < |diffs| ==> diffs[i].height >= 0)
    && (forall i :: 0 < i < |diffs| ==>
          diffs[i].height == diffs[i - 1].height + 1 || diffs[i].height == diffs[i - 1].height - 1)
  }

  /** Undoing to a height gives the copy saved when the checkpoint of that height was opened. */
  ghost predicate Means(j: Journaled, m: Snapshots) {
    && Heights(j.diffs, j.height) && |m.saved| == j.height
    && m.now == Snapshot(j.warm, j.touched)
    && forall h :: 1 <= h <= j.height ==> MeansAt(j, m, h)
  }

  ghost predicate MeansAt(j: Journaled, m: Snapshots, h: int)
    requires 1 <= h <= |m.saved|
  {
    && CooledTo(j.warm, j.diffs, h) == m.saved[h - 1].warm
    && UntouchedTo(j.touched, j.diffs, h) == Restored(m.now, m.saved[h - 1]).touched
  }

  /** A change of the last diff that undoing the diff absorbs, absorbs into every height up to the current. */
  lemma {:induction false} Noted(j: Journaled, k: Journaled, h: int)
    requires Heights(j.diffs, j.height) && k.height == j.height && 1 <= h <= j.height
    requires k.diffs != [] && k.diffs == Note(j.diffs, LastDiff(k.diffs))
    ensures Heights(k.diffs, k.height)
    ensures Cooled(k.warm, LastDiff(k.diffs)) == Cooled(j.warm, LastDiff(j.diffs)) ==>
              CooledTo(k.warm, k.diffs, h) == CooledTo(j.warm, j.diffs, h)
    ensures Untouched(k.touched, LastDiff(k.diffs)) == Untouched(j.touched, LastDiff(j.diffs)) ==>
              UntouchedTo(k.touched, k.diffs, h) == UntouchedTo(j.touched, j.diffs, h)
  {
    assert k.diffs[..|k.diffs| - 1] == j.diffs[..|j.diffs| - 1];
  }

  lemma {:induction false} TouchMeans(j: Journaled, m: Snapshots, a: AddressString)
    requires Means(j, m)
    ensures Means(Touch(j, a), ApplySnapshots(m, TouchOp(a)))
  {
    var k, n := Touch(j, a), ApplySnapshots(m, TouchOp(a));
    if a !in j.touched {
      forall h | 1 <= h <= j.height ensures MeansAt(k, n, h) {
        assert MeansAt(j, m, h);
        Noted(j, k, h);
        if a == RIPEMD160_ADDRESS_STRING {
          Sticky(j, k, h);
        }
      }
    } else {
      assert n.now == m.now;
      forall h | 1 <= h <= j.height ensures MeansAt(k, n, h) {
        assert MeansAt(j, m, h);
      }
    }
  }

  /** Touching RIPEMD-160 shows through every later undo. */
  lemma {:induction false} Sticky(j: Journaled, k: Journaled, h: int)
    requires Heights(j.diffs, j.height) && 1 <= h <= j.height && k.height == j.height
    requires k == Touch(j, RIPEMD160_ADDRESS_STRING) && RIPEMD160_ADDRESS_STRING !in j.touched
    ensures UntouchedTo(k.touched, k.diffs, h) == UntouchedTo(j.touched, j.diffs, h) + {RIPEMD160_ADDRESS_STRING}
  {
    var front := j.diffs[..|j.diffs| - 1];
    assert k.diffs[..|k.diffs| - 1] == front;
    assert Untouched(k.touched, LastDiff(k.diffs)) ==
           Untouched(j.touched, LastDiff(j.diffs)) + {RIPEMD160_ADDRESS_STRING};
    UntouchedPlus(Untouched(j.touched, LastDiff(j.diffs)), front, h);
  }

  lemma {:induction false} UntouchedPlus(t: set<AddressString>, diffs: seq<Entry>, h: int)
    ensures UntouchedTo(t + {RIPEMD160_ADDRESS_STRING}, diffs, h) ==
            UntouchedTo(t, diffs, h) + {RIPEMD160_ADDRESS_STRING}
  {
    if diffs != [] && diffs[|diffs| - 1].height >= h {
      var d := LastDiff(diffs);
      assert Untouched(t + {RIPEMD160_ADDRESS_STRING}, d) == Untouched(t, d) + {RIPEMD160_ADDRESS_STRING};
      UntouchedPlus(Untouched(t, d), diffs[..|diffs| - 1], h);
    }
  }

  lemma {:induction false} WarmAddressMeans(j: Journaled, m: Snapshots, a: AddressString)
    requires Means(j, m)
    ensures Means(WarmAddress(j, a), ApplySnapshots(m, WarmAddressOp(a)))
  {
    var k, n := WarmAddress(j, a), ApplySnapshots(m, WarmAddressOp(a));
    if a !in j.warm {
      assert Cooled(k.warm, LastDiff(k.diffs)) == Cooled(j.warm, LastDiff(j.diffs));
    }
    forall h | 1 <= h <= j.height ensures MeansAt(k, n, h) {
      assert MeansAt(j, m, h);
      Noted(j, k, h);
    }
  }

  lemma {:induction false} SlotCooled(w: Warm, d: Diff, a: AddressString, s: SlotString)
    requires a in w && s !in w[a]
    ensures Cooled(w[a := w[a] + {s}], d.(slots := d.slots[a := SlotsOf(d.slots, a) + {s}])) == Cooled(w, d)
  {
    var d' := d.(slots := d.slots[a := SlotsOf(d.slots, a) + {s}]);
    assert w[a] + {s} - SlotsOf(d'.slots, a) == w[a] - SlotsOf(d.slots, a);
  }

  lemma {:induction false} WarmSlotMeans(j: Journaled, m: Snapshots, a: AddressString, s: SlotString)
    requires Means(j, m)
    ensures Means(WarmSlot(j, a, s), ApplySnapshots(m, WarmSlotOp(a, s)))
  {
    WarmAddressMeans(j, m, a);
    var k, n := WarmAddress(j, a), ApplySnapshots(m, WarmAddressOp(a));
    var k', n' := WarmSlot(j, a, s), ApplySnapshots(m, WarmSlotOp(a, s));
    if s in k.warm[a] {
      assert k.warm[a := k.warm[a] + {s}] == k.warm by {
        assert k.warm[a] + {s} == k.warm[a];
      }
    } else {
      SlotCooled(k.warm, LastDiff(k.diffs), a, s);
    }
    assert n'.now.warm == k'.warm;
    forall h | 1 <= h <= j.height ensures MeansAt(k', n', h) {
      assert MeansAt(k, n, h);
      Noted(k, k', h);
    }
  }

  lemma {:induction false} NothingCooled(w: Warm, t: set<AddressString>)
    ensures Cooled(w, NoDiff()) == w && Untouched(t, NoDiff()) == t
  {
    assert forall a :: a in w ==> w[a] - {} == w[a];
  }

  lemma {:induction false} UntouchedShrinks(t: set<AddressString>, diffs: seq<Entry>, h: int)
    ensures UntouchedTo(t, diffs, h) <= t
  {
    if diffs != [] && diffs[|diffs| - 1].height >= h {
      UntouchedShrinks(Untouched(t, LastDiff(diffs)), diffs[..|diffs| - 1], h);
    }
  }

  lemma {:induction false} OpenMeans(j: Journaled, m: Snapshots)
    requires Means(j, m)
    ensures Means(Open(j), ApplySnapshots(m, OpenOp))
  {
    var k, n := Open(j), ApplySnapshots(m, OpenOp);
    NothingCooled(j.warm, j.touched);
    assert k.diffs[..|k.diffs| - 1] == j.diffs;
    forall h | 1 <= h <= k.height ensures MeansAt(k, n, h) {
      assert h <= j.height ==> MeansAt(j, m, h);
    }
  }

  lemma {:induction false} CommitMeans(j: Journaled, m: Snapshots)
    requires Means(j, m) && m.saved != []
    ensures Means(Commit(j), ApplySnapshots(m, CommitOp))
  {
    var k, n := Commit(j), ApplySnapshots(m, CommitOp);
    NothingCooled(j.warm, j.touched);
    assert k.diffs[..|k.diffs| - 1] == j.diffs;
    forall h | 1 <= h <= k.height ensures MeansAt(k, n, h) {
      assert MeansAt(j, m, h);
    }
  }

  /** What is left after undoing to a height ends one below it, and undoing further is undoing all at once. */
  lemma {:induction false} UndoneInSteps(w: Warm, t: set<AddressString>, diffs: seq<Entry>, top: int, height: int,
                                         h: int)
    requires Heights(diffs, top) && 1 <= h <= height <= top + 1
    ensures var kept := KeptBelow(diffs, height);
            && Heights(kept, height - 1) && kept < diffs + [Entry(0, NoDiff())]
            && CooledTo(CooledTo(w, diffs, height), kept, h) == CooledTo(w, diffs, h)
            && UntouchedTo(UntouchedTo(t, diffs, height), kept, h) == UntouchedTo(t, diffs, h)
  {
    if top >= height {
      var front, d := diffs[..|diffs| - 1], LastDiff(diffs);
      assert |diffs| > 1;
      UndoneInSteps(Cooled(w, d), Untouched(t, d), front, front[|front| - 1].height, height, h);
    }
  }

  lemma {:induction false} RevertMeans(j: Journaled, m: Snapshots)
    requires Means(j, m) && m.saved != []
    ensures Means(Revert(j), ApplySnapshots(m, RevertOp))
  {
    var k, n := Revert(j), ApplySnapshots(m, RevertOp);
    assert MeansAt(j, m, j.height);
    UndoneInSteps(j.warm, j.touched, j.diffs, j.height, j.height, j.height);
    UntouchedShrinks(j.touched, j.diffs, j.height);
    assert n.now.touched * {RIPEMD160_ADDRESS_STRING} == m.now.touched * {RIPEMD160_ADDRESS_STRING};
    forall h | 1 <= h <= k.height ensures MeansAt(k, n, h) {
      assert MeansAt(j, m, h);
      UndoneInSteps(j.warm, j.touched, j.diffs, j.height, j.height, h);
    }
  }

  // ---------------------------------------------------------------------------------------- runs

  function Step(depth: int, op: Op): int {
    match op
    case OpenOp => depth + 1
    case CommitOp => depth - 1
    case RevertOp => depth - 1
    case _ => depth
  }

  function Depth(ops: seq<Op>, depth: int): int {
    if ops == [] then depth
    else Step(Depth(ops[..|ops| - 1], depth), ops[|ops| - 1])
  }

  predicate Nested(ops: seq<Op>, depth: int, floor: int) {
    depth >= floor && (ops != [] ==> Nested(ops[..|ops| - 1], depth, floor) && Depth(ops, depth) >= floor)
  }

  function RunSnapshots(m: Snapshots, ops: seq<Op>): (r: Snapshots)
    requires Nested(ops, |m.saved|, 0)
    ensures |r.saved| == Depth(ops, |m.saved|)
  {
    if ops == [] then m else ApplySnapshots(RunSnapshots(m, ops[..|ops| - 1]), ops[|ops| - 1])
  }

  function Run(ops: seq<Op>): (j: Journaled)
    ensures j.diffs != []
  {
    if ops == [] then Clean() else Apply(Run(ops[..|ops| - 1]), ops[|ops| - 1])
  }

  /** On every well-nested run the height-tagged diffs mean what a stack of snapshots means. */
  lemma {:induction false} RunMeans(ops: seq<Op>)
    requires Nested(ops, 0, 0)
    ensures Means(Run(ops), RunSnapshots(Start(), ops))
  {
    if ops != [] {
      var front := ops[..|ops| - 1];
      RunMeans(front);
      var j, m := Run(front), RunSnapshots(Start(), front);
      match ops[|ops| - 1] {
        case TouchOp(a) => TouchMeans(j, m, a);
        case WarmAddressOp(a) => WarmAddressMeans(j, m, a);
        case WarmSlotOp(a, s) => WarmSlotMeans(j, m, a, s);
        case OpenOp => OpenMeans(j, m);
        case CommitOp => CommitMeans(j, m);
        case RevertOp => RevertMeans(j, m);
      }
    }
  }

  // -------------------------------------------------------- the entries that one revert takes back

  /** base is untouched at the front, and everything after it was pushed at height h or above. */
  ghost predicate Above(base: seq<Entry>, h: int, j: Journaled) {
    && base != [] && base < j.diffs && base[|base| - 1].height == h - 1 && j.diffs[|base|].height == h
    && (forall i :: |base| <= i < |j.diffs| ==> j.diffs[i].height >= h)
  }

  lemma {:induction false} AboveKept(base: seq<Entry>, h: int, j: Journaled, op: Op)
    requires Above(base, h, j) && Heights(j.diffs, j.height)
    requires j.height >= h && (op.CommitOp? || op.RevertOp? ==> j.height > h)
    ensures Above(base, h, Apply(j, op))
  {
    match op
    case RevertOp =>
      AllAbove(j.diffs, |base|, j.height);
    case WarmSlotOp(a, s) =>
      var k := WarmAddress(j, a);
      assert Above(base, h, k);
    case _ =>
  }

  lemma {:induction false} AllAbove(diffs: seq<Entry>, n: nat, height: int)
    requires n < |diffs| && diffs[n].height < height
    ensures n < |KeptBelow(diffs, height)|
  {
    if diffs[|diffs| - 1].height >= height {
      AllAbove(diffs[..|diffs| - 1], n, height);
    }
  }

  lemma {:induction false} KeptIsBase(base: seq<Entry>, h: int, diffs: seq<Entry>)
    requires base != [] && base <= diffs && base[|base| - 1].height == h - 1
    requires forall i :: |base| <= i < |diffs| ==> diffs[i].height >= h
    ensures KeptBelow(diffs, h) == base
  {
    if |diffs| > |base| {
      KeptIsBase(base, h, diffs[..|diffs| - 1]);
    }
  }

  function Start(): Snapshots {
    Snapshots(Snapshot(map[], {}), [])
  }

  lemma {:induction false} NextOp(ops: seq<Op>, op: Op, depth: int, floor: int)
    ensures Run(ops + [op]) == Apply(Run(ops), op)
    ensures Depth(ops + [op], depth) == Step(Depth(ops, depth), op)
    ensures Nested(ops + [op], depth, floor) <==> Nested(ops, depth, floor) && Depth(ops + [op], depth) >= floor
  {
    assert (ops + [op])[..|ops|] == ops;
    if Nested(ops + [op], depth, floor) {
      assert depth >= floor;
    }
  }

  lemma {:induction false} DepthInside(before: seq<Op>, inside: seq<Op>)
    requires Nested(before, 0, 0) && Nested(inside, Depth(before, 0) + 1, Depth(before, 0) + 1)
    ensures Nested(before + [OpenOp] + inside, 0, 0) && Depth(before, 0) >= 0
    ensures Depth(before + [OpenOp] + inside, 0) == Depth(inside, Depth(before, 0) + 1) >= Depth(before, 0) + 1
  {
    NextOp(before, OpenOp, 0, 0);
    if inside == [] {
      assert before + [OpenOp] + inside == before + [OpenOp];
    } else {
      var front, last := inside[..|inside| - 1], inside[|inside| - 1];
      DepthInside(before, front);
      NextOp(before + [OpenOp] + front, last, 0, 0);
      assert before + [OpenOp] + inside == before + [OpenOp] + front + [last];
    }
  }

  /** While the checkpoint is open, the entries before it stay as they are. */
  lemma {:induction false} EntriesKept(before: seq<Op>, inside: seq<Op>)
    requires Nested(before, 0, 0) && Nested(inside, Depth(before, 0) + 1, Depth(before, 0) + 1)
    ensures Above(Run(before).diffs, Depth(before, 0) + 1, Run(before + [OpenOp] + inside))
  {
    hide Run, Means, Apply, Above;
    NextOp(before, OpenOp, 0, 0);
    RunMeans(before);
    var base, h := Run(before).diffs, Depth(before, 0) + 1;
    MeansHeights(Run(before), RunSnapshots(Start(), before));
    if inside == [] {
      assert before + [OpenOp] + inside == before + [OpenOp];
      OpenAbove(Run(before));
    } else {
      var front, last := inside[..|inside| - 1], inside[|inside| - 1];
      var ops := before + [OpenOp] + front;
      EntriesKept(before, front);
      DepthInside(before, front);
      RunMeans(ops);
      MeansHeights(Run(ops), RunSnapshots(Start(), ops));
      AboveKept(base, h, Run(ops), last);
      NextOp(ops, last, 0, 0);
      assert before + [OpenOp] + inside == ops + [last];
    }
  }

  lemma {:induction false} MeansHeights(j: Journaled, m: Snapshots)
    requires Means(j, m)
    ensures Heights(j.diffs, j.height) && j.height == |m.saved|
  {
  }

  lemma {:induction false} OpenAbove(j: Journaled)
    requires Heights(j.diffs, j.height)
    ensures Above(j.diffs, j.height + 1, Apply(j, OpenOp))
  {
  }

  /** While the checkpoint is open, the copy saved at it stays as it is. */
  lemma {:induction false} SavedKept(before: seq<Op>, inside: seq<Op>)
    requires Nested(before, 0, 0) && Nested(inside, Depth(before, 0) + 1, Depth(before, 0) + 1)
    requires Nested(before + [OpenOp] + inside, 0, 0)
    ensures var m, n := RunSnapshots(Start(), before), RunSnapshots(Start(), before + [OpenOp] + inside);
            |n.saved| >= |m.saved| + 1 && n.saved[..|m.saved| + 1] == m.saved + [m.now]
  {
    NextOp(before, OpenOp, 0, 0);
    DepthInside(before, inside);
    if inside == [] {
      assert before + [OpenOp] + inside == before + [OpenOp];
      assert (before + [OpenOp])[..|before|] == before;
    } else {
      var front, last := inside[..|inside| - 1], inside[|inside| - 1];
      var ops := before + [OpenOp] + front;
      DepthInside(before, front);
      SavedKept(before, front);
      assert before + [OpenOp] + inside == ops + [last] && (ops + [last])[..|ops|] == ops;
    }
  }

  /**
    * A checkpoint, any nested run, and the revert: the warm addresses and slots, the entries and the
    * height are exactly those at the checkpoint, and touched is too but for the RIPEMD-160 account.
    */
  lemma {:induction false} RevertRestores(before: seq<Op>, inside: seq<Op>)
    requires Nested(before, 0, 0) && Nested(inside, Depth(before, 0) + 1, Depth(before, 0) + 1)
    requires Depth(inside, Depth(before, 0) + 1) == Depth(before, 0) + 1
    ensures var was, last := Run(before), Run(before + [OpenOp] + inside);
            var sticky := last.touched * {RIPEMD160_ADDRESS_STRING};
            Run(before + [OpenOp] + inside + [RevertOp]) == was.(touched := was.touched + sticky)
  {
    hide Means, Apply, Above, Run, RunSnapshots;
    var ops := before + [OpenOp] + inside;
    DepthInside(before, inside);
    EntriesKept(before, inside);
    SavedKept(before, inside);
    RunMeans(before);
    RunMeans(ops);
    NextOp(ops, RevertOp, 0, 0);
    RevertsTo(Run(before), RunSnapshots(Start(), before), Run(ops), RunSnapshots(Start(), ops));
  }

  lemma {:induction false} RevertsTo(was: Journaled, m: Snapshots, j: Journaled, n: Snapshots)
    requires Means(was, m) && Means(j, n) && j.height == was.height + 1
    requires Above(was.diffs, j.height, j) && n.saved == m.saved + [m.now]
    ensures Apply(j, RevertOp) == was.(touched := was.touched + (j.touched * {RIPEMD160_ADDRESS_STRING}))
  {
    RevertMeans(j, n);
    KeptIsBase(was.diffs, j.height, j.diffs);
  }

  // ------------------------------------------------------------------ the warm part as full copies

  /** The warm sets at every open checkpoint, and now. */
  function WarmCopies(m: Snapshots): (c: seq<Warm>)
    ensures |c| == |m.saved| + 1
  {
    seq(|m.saved|, i requires 0 <= i < |m.saved| => m.saved[i].warm) + [m.now.warm]
  }

  /** What an operation does to a stack of copies of the warm sets; touching does nothing to it. */
  function CopyOp(w: Warm, op: Op): seq<CopyStack.Op<AddressString, set<SlotString>>> {
    match op
    case TouchOp(_) => []
    case WarmAddressOp(a) => [CopyStack.Put(a, SlotsOf(w, a))]
    case WarmSlotOp(a, slot) => [CopyStack.Put(a, SlotsOf(w, a) + {slot})]
    case OpenOp => [CopyStack.CheckpointOp]
    case CommitOp => [CopyStack.CommitOp]
    case RevertOp => [CopyStack.RevertOp]
  }

  function CopyOps(ops: seq<Op>): seq<CopyStack.Op<AddressString, set<SlotString>>> {
    if ops == [] then [] else CopyOps(ops[..|ops| - 1]) + CopyOp(Run(ops[..|ops| - 1]).warm, ops[|ops| - 1])
  }

  lemma {:induction false} CopyStep(m: Snapshots, op: Op)
    requires (op.CommitOp? || op.RevertOp?) ==> m.saved != []
    ensures var c, c' := WarmCopies(m), WarmCopies(ApplySnapshots(m, op));
            var copyOps := CopyOp(m.now.warm, op);
            if copyOps == [] then c' == c else c' == CopyStack.Apply(c, copyOps[0])
  {
    var c, c' := WarmCopies(m), WarmCopies(ApplySnapshots(m, op));
    assert op.WarmAddressOp? && op.address in m.now.warm ==>
           m.now.warm[op.address := m.now.warm[op.address]] == m.now.warm;
    if op.CommitOp? {
      assert c' == c[..|c| - 2] + [CopyStack.Top(c)];
    }
  }

  lemma {:induction false} StartCopies()
    ensures WarmCopies(Start()) == [map[]]
  {
  }

  lemma {:induction false} NowIs(ops: seq<Op>)
    requires Nested(ops, 0, 0)
    ensures Run(ops).warm == RunSnapshots(Start(), ops).now.warm
    ensures CopyStack.Top(WarmCopies(RunSnapshots(Start(), ops))) == Run(ops).warm
  {
    hide Run, RunSnapshots;
    RunMeans(ops);
  }

  /** On every nested run the warm sets of the journal are those of a stack of full copies. */
  lemma {:induction false} WarmMeansCopies(ops: seq<Op>)
    requires Nested(ops, 0, 0)
    ensures CopyStack.Bracketed(CopyOps(ops), 1, 1)
    ensures CopyStack.Run([map[]], CopyOps(ops)) == WarmCopies(RunSnapshots(Start(), ops))
    ensures Run(ops).warm == CopyStack.Top(CopyStack.Run([map[]], CopyOps(ops)))
  {
    hide Means, Apply, ApplySnapshots, WarmCopies, CopyStack.Apply;
    NowIs(ops);
    if ops == [] {
      assert WarmCopies(Start()) == [map[]] by {
        StartCopies();
      }
    } else {
      var front, op := ops[..|ops| - 1], ops[|ops| - 1];
      WarmMeansCopies(front);
      NowIs(front);
      CopyStep(RunSnapshots(Start(), front), op);
      var before, more := CopyOps(front), CopyOp(Run(front).warm, op);
      if more != [] {
        assert (before + more)[..|before + more| - 1] == before;
      } else {
        assert before + more == before;
      }
    }
  }
}
