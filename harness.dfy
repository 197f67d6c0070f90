/**
 The unit-test fixture feeds every assignment to both the interval map and
 the reference model; on tear-down it requires that the two agree on every key
 and that the map's store is canonical. Here that comparison is a theorem over
 every sequence of assignments, and the fixture is a class whose check always
 passes.
 */
module Harness {
  import opened IntervalMaps
  import opened ReferenceModel

  /** The tests' key type is char, taken here as signed 8-bit. */
  const KeyMin: int := -128
  const KeyMax: int := 127

  /** One call of the fixture's assign(begin, end, val). */
  datatype Op<V> = Op(begin: int, end: int, val: V)

  /** The map's store after a fresh map with background `init` has received `ops`. */
  function MapAfter<V(==)>(ops: seq<Op<V>>, init: V): (s: seq<Breakpoint<V>>)
    ensures Canonical(s, init)
  {
    if ops == [] then []
    else
      var op := ops[|ops| - 1];
      var before := MapAfter(ops[..|ops| - 1], init);
      AssignedCanonical(before, init, op.begin, op.end, op.val);
      Assigned(before, init, op.begin, op.end, op.val)
  }

  /** The model's recorded ranges after a fresh model has received `ops`. */
  function ModelAfter<V>(ops: seq<Op<V>>): (ranges: seq<Range<V>>)
    ensures |ranges| <= |ops|
    ensures forall j :: 0 <= j < |ranges| ==> ranges[j].begin < ranges[j].end
    ensures forall r :: r in ranges ==> Op(r.begin, r.end, r.val) in ops
  {
    if ops == [] then []
    else
      var op := ops[|ops| - 1];
      var before := ModelAfter(ops[..|ops| - 1]);
      if op.begin < op.end then before + [Range(op.begin, op.end, op.val)] else before
  }

  lemma AfterAppend<V>(ops: seq<Op<V>>, op: Op<V>, init: V)
    ensures MapAfter(ops + [op], init) == Assigned(MapAfter(ops, init), init, op.begin, op.end, op.val)
    ensures ModelAfter(ops + [op]) == if op.begin < op.end then ModelAfter(ops) + [Range(op.begin, op.end, op.val)] else ModelAfter(ops)
  {
    assert (ops + [op])[..|ops|] == ops;
  }

  /** One more step of a run: the first i + 1 assignments of `ops` are the
      first i followed by ops[i]. */
  lemma AfterPrefix<V>(ops: seq<Op<V>>, i: nat, init: V)
    requires i < |ops|
    ensures MapAfter(ops[..i + 1], init) == Assigned(MapAfter(ops[..i], init), init, ops[i].begin, ops[i].end, ops[i].val)
    ensures ModelAfter(ops[..i + 1]) ==
      if ops[i].begin < ops[i].end then ModelAfter(ops[..i]) + [Range(ops[i].begin, ops[i].end, ops[i].val)] else ModelAfter(ops[..i])
  {
    assert ops[..i + 1][..i] == ops[..i];
  }

  /** After the same assignments, the map and the model look up the same
      value at every key. */
  lemma {:induction false} MapRefinesModel<V>(ops: seq<Op<V>>, init: V, k: int)
    ensures Lookup(MapAfter(ops, init), init, k) == ModelLookup(ModelAfter(ops), init, k)
  {
    if ops != [] {
      var op := ops[|ops| - 1];
      var earlier := ops[..|ops| - 1];
      MapRefinesModel(earlier, init, k);
      if op.begin < op.end {
        AssignedLookup(MapAfter(earlier, init), init, op.begin, op.end, op.val, k);
        AgreeAfterAssign(MapAfter(earlier, init), MapAfter(ops, init), ModelAfter(earlier), ModelAfter(ops),
                         init, op.begin, op.end, op.val, k);
      }
    }
  }

  /** The map's store `s` over background `init` and the model's ranges over
      background `modelInit` give the same value at `k`. */
  ghost predicate AgreeAt<V>(s: seq<Breakpoint<V>>, init: V, ranges: seq<Range<V>>, modelInit: V, k: int)
  {
    Lookup(s, init, k) == ModelLookup(ranges, modelInit, k)
  }

  /** If the map and the model agree at k, they still agree there after both
      receive the same non-empty assignment. */
  lemma AgreeAfterAssign<V>(s0: seq<Breakpoint<V>>, s1: seq<Breakpoint<V>>, r0: seq<Range<V>>, r1: seq<Range<V>>,
                            init: V, b: int, e: int, v: V, k: int)
    requires AgreeAt(s0, init, r0, init, k)
    requires Lookup(s1, init, k) == if b <= k < e then v else Lookup(s0, init, k)
    requires b < e && r1 == r0 + [Range(b, e, v)]
    ensures AgreeAt(s1, init, r1, init, k)
  {
    ModelAppendLookup(r0, init, b, e, v, k);
  }

  /** The test fixture: an interval map and a model with the same background
      value, fed the same assignments. */
  class Fixture<V(==)> {
    const intervalMap: IntervalMap<V>
    const model: Model<V>

    /** The coupling the tests check: the map and the model agree on every
        key, and the map's store is canonical. */
    ghost predicate Valid()
      reads this, intervalMap, model
    {
      && intervalMap.Valid() && model.init == intervalMap.init
      && Canonical(intervalMap.entries, intervalMap.init)
      && forall k :: AgreeAt(intervalMap.entries, intervalMap.init, model.ranges, model.init, k)
    }

    /** SetUp: a fresh map and a fresh model with background `init`. */
    constructor (init: V)
      ensures Valid() && fresh(intervalMap) && fresh(model)
      ensures intervalMap.init == init && intervalMap.entries == [] && model.ranges == []
    {
      intervalMap := new IntervalMap(init);
      model := new Model(init);
    }

    /** assign: forwards the same assignment to the map and to the model. */
    method Assign(b: int, e: int, v: V)
      requires Valid()
      modifies intervalMap, model
      ensures Valid()
      ensures intervalMap.entries == Assigned(old(intervalMap.entries), intervalMap.init, b, e, v)
      ensures model.ranges == if b < e then old(model.ranges) + [Range(b, e, v)] else old(model.ranges)
    {
      ghost var entries0 := intervalMap.entries;
      ghost var ranges0 := model.ranges;
      intervalMap.Assign(b, e, v);
      model.Assign(b, e, v);
      if b < e {
        forall k ensures AgreeAt(intervalMap.entries, intervalMap.init, model.ranges, model.init, k) {
          assert intervalMap.Get(k) == Lookup(intervalMap.entries, intervalMap.init, k);
          AgreeAfterAssign(entries0, intervalMap.entries, ranges0, model.ranges, intervalMap.init, b, e, v, k);
        }
      }
    }

    /** check_ranges: compares map[i] with model[i] for every key of the key
        type, in increasing order; the first mismatch ends the check. */
    method CheckRanges() returns (ok: bool)
      requires intervalMap.Valid()
      ensures ok <==> forall i :: KeyMin <= i <= KeyMax ==> AgreeAt(intervalMap.entries, intervalMap.init, model.ranges, model.init, i)
    {
      var i := KeyMin;
      while i < KeyMax
        invariant KeyMin <= i <= KeyMax
        invariant forall j :: KeyMin <= j < i ==> AgreeAt(intervalMap.entries, intervalMap.init, model.ranges, model.init, j)
      {
        var expected := model.Get(i);
        var actual := intervalMap.Get(i);
        assert actual == Lookup(intervalMap.entries, intervalMap.init, i);
        if actual != expected {
          assert !AgreeAt(intervalMap.entries, intervalMap.init, model.ranges, model.init, i);
          return false;
        }
        assert AgreeAt(intervalMap.entries, intervalMap.init, model.ranges, model.init, i);
        i := i + 1;
      }
      var expected := model.Get(i);
      var actual := intervalMap.Get(i);
      assert actual == Lookup(intervalMap.entries, intervalMap.init, i);
      ok := actual == expected;
      assert ok <==> AgreeAt(intervalMap.entries, intervalMap.init, model.ranges, model.init, i);
    }

    /** check_canonicity: no two consecutive breakpoints hold the same value,
        and the first one does not hold the background value. Every
        expectation is checked; any failure makes the result false. */
    method CheckCanonicity() returns (ok: bool)
      requires intervalMap.Valid()
      ensures ok <==> Canonical(intervalMap.entries, intervalMap.init)
    {
      var s := intervalMap.entries;
      ok := true;
      var j := 0;
      while j < |s|
        invariant 0 <= j <= |s|
        invariant ok <==> forall i :: 0 < i <= j && i < |s| ==> s[i - 1].val != s[i].val
      {
        if j + 1 == |s| {
          break;
        }
        if s[j].val == s[j + 1].val {
          ok := false;
        }
        j := j + 1;
      }
      if |s| > 0 && s[0].val == intervalMap.init {
        ok := false;
      }
    }

    /** check, run on tear-down: both checks pass. */
    method Check() returns (ok: bool)
      requires Valid()
      ensures ok
    {
      var ranges := CheckRanges();
      var canonical := CheckCanonicity();
      ok := ranges && canonical;
    }
  }

  /** One test: set up the fixture, assign `ops` in order, and check; the
      fixture then holds MapAfter(ops) and ModelAfter(ops), and the check
      passes. */
  method RunTest<V(==)>(init: V, ops: seq<Op<V>>) returns (f: Fixture<V>, ok: bool)
    ensures f.Valid() && f.intervalMap.init == init
    ensures f.intervalMap.entries == MapAfter(ops, init) && f.model.ranges == ModelAfter(ops)
    ensures ok
  {
    f := new Fixture(init);
    var i := 0;
    while i < |ops|
      invariant 0 <= i <= |ops|
      invariant fresh(f.intervalMap) && fresh(f.model)
      invariant f.Valid() && f.intervalMap.init == init
      invariant f.intervalMap.entries == MapAfter(ops[..i], init) && f.model.ranges == ModelAfter(ops[..i])
    {
      AfterPrefix(ops, i, init);
      f.Assign(ops[i].begin, ops[i].end, ops[i].val);
      i := i + 1;
    }
    assert ops[..i] == ops;
    ok := f.Check();
  }

  // ---------------------------------------------------------------------------
  // The tests' scenarios, with background 0

  /** minimal_interface: a fresh map with background 0 reads 0 at key 0, and
      reads 1 there after [0, 1) := 1. */
  method MinimalInterface() returns (before: int, after: int)
    ensures before == 0 && after == 1
  {
    var m := new IntervalMap(0);
    before := m.Get(0);
    m.Assign(0, 1, 1);
    after := m.Get(0);
  }

  /** no_insertion, insert_begin_equal_end and insert_begin_bigger_than_end:
      nothing is stored. */
  lemma EmptyRangesStoreNothing()
    ensures MapAfter([], 0) == []
    ensures MapAfter([Op(0, 0, 1)], 0) == []
    ensures MapAfter([Op(1, 0, 1)], 0) == []
  {
  }

  /** The last assignment decides the keys it covers; the others look up what
      they did before it. */
  lemma StepLookup<V>(ops: seq<Op<V>>, init: V, k: int)
    requires ops != []
    ensures Lookup(MapAfter(ops, init), init, k)
         == if ops[|ops| - 1].begin <= k < ops[|ops| - 1].end then ops[|ops| - 1].val
            else Lookup(MapAfter(ops[..|ops| - 1], init), init, k)
  {
    var op := ops[|ops| - 1];
    if op.begin < op.end {
      AssignedLookup(MapAfter(ops[..|ops| - 1], init), init, op.begin, op.end, op.val, k);
    }
  }

  /** After two assignments to a fresh map, the later one decides the keys it
      covers, the earlier one the keys only it covers, and the background
      value the rest. */
  lemma TwoOpsLookup<V>(ops: seq<Op<V>>, init: V, k: int)
    requires |ops| == 2
    ensures Lookup(MapAfter(ops, init), init, k)
         == if ops[1].begin <= k < ops[1].end then ops[1].val
            else if ops[0].begin <= k < ops[0].end then ops[0].val
            else init
  {
    var one := ops[..1];
    StepLookup(ops, init, k);
    assert ops[..|ops| - 1] == one && one[0] == ops[0];
    StepLookup(one, init, k);
    assert one[..|one| - 1] == [];
  }

  /** The same for three assignments. */
  lemma ThreeOpsLookup<V>(ops: seq<Op<V>>, init: V, k: int)
    requires |ops| == 3
    ensures Lookup(MapAfter(ops, init), init, k)
         == if ops[2].begin <= k < ops[2].end then ops[2].val
            else if ops[1].begin <= k < ops[1].end then ops[1].val
            else if ops[0].begin <= k < ops[0].end then ops[0].val
            else init
  {
    var two := ops[..2];
    StepLookup(ops, init, k);
    assert ops[..|ops| - 1] == two && two[0] == ops[0] && two[1] == ops[1];
    TwoOpsLookup(two, init, k);
  }

  /** A canonical store that looks up, at every key, what two assignments to a
      fresh map decide is the store those two assignments leave. */
  lemma TwoOpsStore<V>(ops: seq<Op<V>>, init: V, expected: seq<Breakpoint<V>>)
    requires |ops| == 2 && Canonical(expected, init)
    requires forall k :: Lookup(expected, init, k)
                      == if ops[1].begin <= k < ops[1].end then ops[1].val
                         else if ops[0].begin <= k < ops[0].end then ops[0].val
                         else init
    ensures MapAfter(ops, init) == expected
  {
    forall k ensures Lookup(MapAfter(ops, init), init, k) == Lookup(expected, init, k) {
      TwoOpsLookup(ops, init, k);
    }
    CanonicalUnique(MapAfter(ops, init), expected, init);
  }

  /** The same for three assignments. */
  lemma ThreeOpsStore<V>(ops: seq<Op<V>>, init: V, expected: seq<Breakpoint<V>>)
    requires |ops| == 3 && Canonical(expected, init)
    requires forall k :: Lookup(expected, init, k)
                      == if ops[2].begin <= k < ops[2].end then ops[2].val
                         else if ops[1].begin <= k < ops[1].end then ops[1].val
                         else if ops[0].begin <= k < ops[0].end then ops[0].val
                         else init
    ensures MapAfter(ops, init) == expected
  {
    forall k ensures Lookup(MapAfter(ops, init), init, k) == Lookup(expected, init, k) {
      ThreeOpsLookup(ops, init, k);
    }
    CanonicalUnique(MapAfter(ops, init), expected, init);
  }

  /** insert_non_overlapping_ranges: [min, 0) := 1 and [10, max) := 2 stay
      apart, each closed by the background value. */
  lemma NonOverlappingStaysApart(ops: seq<Op<int>>)
    requires ops == [Op(KeyMin, 0, 1), Op(10, KeyMax, 2)]
    ensures MapAfter(ops, 0)
         == [Breakpoint(KeyMin, 1), Breakpoint(0, 0), Breakpoint(10, 2), Breakpoint(KeyMax, 0)]
  {
    var expected := [Breakpoint(KeyMin, 1), Breakpoint(0, 0), Breakpoint(10, 2), Breakpoint(KeyMax, 0)];
    forall k ensures Lookup(expected, 0, k) == if 10 <= k < KeyMax then 2 else if KeyMin <= k < 0 then 1 else 0 {
      if k < KeyMin {
        LookupNone(expected, 0, k);
      } else if k < 0 {
        LookupAt(expected, 0, k, 0);
      } else if k < 10 {
        LookupAt(expected, 0, k, 1);
      } else if k < KeyMax {
        LookupAt(expected, 0, k, 2);
      } else {
        LookupAt(expected, 0, k, 3);
      }
    }
    TwoOpsStore(ops, 0, expected);
  }

  /** insert_range_right_after: [0, 10) and [10, 20) with the same value merge
      into one breakpoint at 0; nothing is stored at 10. */
  lemma RightAfterMerges(ops: seq<Op<int>>)
    requires ops == [Op(0, 10, 1), Op(10, 20, 1)]
    ensures MapAfter(ops, 0) == [Breakpoint(0, 1), Breakpoint(20, 0)]
  {
    var expected := [Breakpoint(0, 1), Breakpoint(20, 0)];
    forall k ensures Lookup(expected, 0, k) == if 10 <= k < 20 then 1 else if 0 <= k < 10 then 1 else 0 {
      if k < 0 {
        LookupNone(expected, 0, k);
      } else if k < 20 {
        LookupAt(expected, 0, k, 0);
      } else {
        LookupAt(expected, 0, k, 1);
      }
    }
    TwoOpsStore(ops, 0, expected);
  }

  /** insert_range_right_before: [10, 20) and then [0, 10) with the same value
      merge as well; the breakpoint at 10 is erased. */
  lemma RightBeforeMerges(ops: seq<Op<int>>)
    requires ops == [Op(10, 20, 1), Op(0, 10, 1)]
    ensures MapAfter(ops, 0) == [Breakpoint(0, 1), Breakpoint(20, 0)]
  {
    var expected := [Breakpoint(0, 1), Breakpoint(20, 0)];
    forall k ensures Lookup(expected, 0, k) == if 0 <= k < 10 then 1 else if 10 <= k < 20 then 1 else 0 {
      if k < 0 {
        LookupNone(expected, 0, k);
      } else if k < 20 {
        LookupAt(expected, 0, k, 0);
      } else {
        LookupAt(expected, 0, k, 1);
      }
    }
    TwoOpsStore(ops, 0, expected);
  }

  /** insert_range_middle: filling the gap between [0, 10) and [20, 30) with
      the same value leaves one range. */
  lemma MiddleMerges(ops: seq<Op<int>>)
    requires ops == [Op(0, 10, 1), Op(20, 30, 1), Op(10, 20, 1)]
    ensures MapAfter(ops, 0) == [Breakpoint(0, 1), Breakpoint(30, 0)]
  {
    var expected := [Breakpoint(0, 1), Breakpoint(30, 0)];
    forall k ensures Lookup(expected, 0, k)
                  == if 10 <= k < 20 then 1 else if 20 <= k < 30 then 1 else if 0 <= k < 10 then 1 else 0 {
      if k < 0 {
        LookupNone(expected, 0, k);
      } else if k < 30 {
        LookupAt(expected, 0, k, 0);
      } else {
        LookupAt(expected, 0, k, 1);
      }
    }
    ThreeOpsStore(ops, 0, expected);
  }

  /** The store {0, 1}, {5, 2}, {15, 1}, {20, 0} reads 2 on [5, 15), 1 on the
      rest of [0, 20) and 0 elsewhere. */
  lemma InsideAnotherLookup(s: seq<Breakpoint<int>>, k: int)
    requires s == [Breakpoint(0, 1), Breakpoint(5, 2), Breakpoint(15, 1), Breakpoint(20, 0)]
    ensures Lookup(s, 0, k) == if 5 <= k < 15 then 2 else if 0 <= k < 20 then 1 else 0
  {
    if k < 0 {
      LookupNone(s, 0, k);
    } else if k < 5 {
      LookupAt(s, 0, k, 0);
    } else if k < 15 {
      LookupAt(s, 0, k, 1);
    } else if k < 20 {
      LookupAt(s, 0, k, 2);
    } else {
      LookupAt(s, 0, k, 3);
    }
  }

  /** insert_range_inside_another: [5, 15) := 2 inside [0, 20) := 1 splits it
      into three pieces. */
  lemma InsideAnotherSplits(ops: seq<Op<int>>)
    requires ops == [Op(0, 20, 1), Op(5, 15, 2)]
    ensures MapAfter(ops, 0) == [Breakpoint(0, 1), Breakpoint(5, 2), Breakpoint(15, 1), Breakpoint(20, 0)]
  {
    var expected := [Breakpoint(0, 1), Breakpoint(5, 2), Breakpoint(15, 1), Breakpoint(20, 0)];
    forall k ensures Lookup(expected, 0, k) == if 5 <= k < 15 then 2 else if 0 <= k < 20 then 1 else 0 {
      InsideAnotherLookup(expected, k);
    }
    TwoOpsStore(ops, 0, expected);
  }

  /** insert_range_around_another: [0, 20) := 1 over [5, 15) := 2 leaves a
      single range; nothing is stored at 5, 15 or 20 except the closing 0. */
  lemma AroundAnotherMerges(ops: seq<Op<int>>)
    requires ops == [Op(5, 15, 2), Op(0, 20, 1)]
    ensures MapAfter(ops, 0) == [Breakpoint(0, 1), Breakpoint(20, 0)]
  {
    var expected := [Breakpoint(0, 1), Breakpoint(20, 0)];
    forall k ensures Lookup(expected, 0, k) == if 0 <= k < 20 then 1 else if 5 <= k < 15 then 2 else 0 {
      if k < 0 {
        LookupNone(expected, 0, k);
      } else if k < 20 {
        LookupAt(expected, 0, k, 0);
      } else {
        LookupAt(expected, 0, k, 1);
      }
    }
    TwoOpsStore(ops, 0, expected);
  }

  /** A key no assignment covered keeps the background value. */
  lemma UncoveredKeyIsInit<V>(ops: seq<Op<V>>, init: V, k: int)
    requires forall op :: op in ops ==> !(op.begin <= k < op.end)
    ensures Lookup(MapAfter(ops, init), init, k) == init
  {
    MapRefinesModel(ops, init, k);
    var ranges := ModelAfter(ops);
    forall j | 0 <= j < |ranges| ensures !Contains(ranges[j], k) {
      assert ranges[j] in ranges;
    }
    ModelLookupNewest(ranges, init, k);
  }

  /** Two breakpoints {b, v} and {e, init}, v not the background value: the
      keys in [b, e) look up v, all others the background value. */
  lemma OneRangeLookup<V>(init: V, b: int, e: int, v: V, k: int)
    requires b < e && v != init
    ensures Lookup([Breakpoint(b, v), Breakpoint(e, init)], init, k) == if b <= k < e then v else init
  {
    var s := [Breakpoint(b, v), Breakpoint(e, init)];
    if k < b {
      LookupNone(s, init, k);
    } else if k < e {
      LookupAt(s, init, k, 0);
    } else {
      LookupAt(s, init, k, 1);
    }
  }

  /** After an assignment that covers every earlier non-empty one, the keys it
      covers look up its value and all others the background value. */
  lemma CoveringLookup<V>(ops: seq<Op<V>>, init: V, b: int, e: int, v: V, k: int)
    requires b < e
    requires forall op :: op in ops && op.begin < op.end ==> b <= op.begin && op.end <= e
    ensures Lookup(MapAfter(ops + [Op(b, e, v)], init), init, k) == if b <= k < e then v else init
  {
    var before := MapAfter(ops, init);
    AfterAppend(ops, Op(b, e, v), init);
    AssignedLookup(before, init, b, e, v, k);
    if !(b <= k < e) {
      forall op | op in ops ensures !(op.begin <= k < op.end) {
        if op.begin < op.end {
          assert b <= op.begin && op.end <= e;
        }
      }
      UncoveredKeyIsInit(ops, init, k);
      assert Lookup(before, init, k) == init;
    }
  }

  /** A canonical store that looks up v exactly on [b, e), and the background
      value elsewhere, is the two breakpoints {b, v} and {e, init}, or empty
      when v is the background value. */
  lemma OneRangeCanonical<V>(s: seq<Breakpoint<V>>, init: V, b: int, e: int, v: V)
    requires b < e && Canonical(s, init)
    requires forall k :: Lookup(s, init, k) == if b <= k < e then v else init
    ensures s == if v == init then [] else [Breakpoint(b, v), Breakpoint(e, init)]
  {
    var expected: seq<Breakpoint<V>> := if v == init then [] else [Breakpoint(b, v), Breakpoint(e, init)];
    forall k ensures Lookup(s, init, k) == Lookup(expected, init, k) {
      if v != init {
        OneRangeLookup(init, b, e, v, k);
      }
    }
    CanonicalUnique(s, expected, init);
  }

  /** An assignment that covers every earlier non-empty one leaves only its
      own two breakpoints, or nothing at all when it assigns the background
      value. */
  lemma CoveringAssign<V>(ops: seq<Op<V>>, init: V, b: int, e: int, v: V)
    requires b < e
    requires forall op :: op in ops && op.begin < op.end ==> b <= op.begin && op.end <= e
    ensures MapAfter(ops + [Op(b, e, v)], init) == if v == init then [] else [Breakpoint(b, v), Breakpoint(e, init)]
  {
    forall k ensures Lookup(MapAfter(ops + [Op(b, e, v)], init), init, k) == if b <= k < e then v else init {
      CoveringLookup(ops, init, b, e, v, k);
    }
    OneRangeCanonical(MapAfter(ops + [Op(b, e, v)], init), init, b, e, v);
  }

  /** The first non-empty assignment to a fresh map stores its two
      breakpoints, or nothing when it assigns the background value. */
  lemma FirstAssign<V>(ops: seq<Op<V>>, init: V, b: int, e: int, v: V)
    requires b < e && ops == [Op(b, e, v)]
    ensures MapAfter(ops, init) == if v == init then [] else [Breakpoint(b, v), Breakpoint(e, init)]
  {
    assert ops == [] + [Op(b, e, v)];
    CoveringAssign([], init, b, e, v);
  }

  /** insert_one_range: [min, 0) := 1 on a fresh map. */
  lemma OneRangeStore(ops: seq<Op<int>>)
    requires ops == [Op(KeyMin, 0, 1)]
    ensures MapAfter(ops, 0) == [Breakpoint(KeyMin, 1), Breakpoint(0, 0)]
  {
    FirstAssign(ops, 0, KeyMin, 0, 1);
  }

  /** insert_up_to_max: [min, max) := 1 on a fresh map. */
  lemma UpToMaxStore(ops: seq<Op<int>>)
    requires ops == [Op(KeyMin, KeyMax, 1)]
    ensures MapAfter(ops, 0) == [Breakpoint(KeyMin, 1), Breakpoint(KeyMax, 0)]
  {
    FirstAssign(ops, 0, KeyMin, KeyMax, 1);
  }

  /** The five adjacent ranges the overlaps_many tests start from. */
  ghost predicate FiveAdjacent(earlier: seq<Op<int>>)
  {
    earlier == [Op(0, 10, 1), Op(10, 20, 2), Op(20, 30, 3), Op(30, 40, 4), Op(40, 50, 5)]
  }

  /** insert_range_overlaps_many: [0, 50) := -1 over the five ranges. */
  lemma OverlapsManyMerges(earlier: seq<Op<int>>)
    requires FiveAdjacent(earlier)
    ensures MapAfter(earlier + [Op(0, 50, -1)], 0) == [Breakpoint(0, -1), Breakpoint(50, 0)]
  {
    CoveringAssign(earlier, 0, 0, 50, -1);
  }

  /** insert_range_overlaps_many_init_value: [0, 50) := 0 over the five
      ranges empties the store. */
  lemma OverlapsManyInitValueEmpties(earlier: seq<Op<int>>)
    requires FiveAdjacent(earlier)
    ensures MapAfter(earlier + [Op(0, 50, 0)], 0) == []
  {
    CoveringAssign(earlier, 0, 0, 50, 0);
  }

  /** insert_range_overlaps_many_oversize: [-10, 60) := -1 over the five
      ranges. */
  lemma OverlapsManyOversizeMerges(earlier: seq<Op<int>>)
    requires FiveAdjacent(earlier)
    ensures MapAfter(earlier + [Op(-10, 60, -1)], 0) == [Breakpoint(-10, -1), Breakpoint(60, 0)]
  {
    CoveringAssign(earlier, 0, -10, 60, -1);
  }
}
