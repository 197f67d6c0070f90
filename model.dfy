/**
 The reference model the tests compare the interval map against: every
 non-empty assigned range is kept, in arrival order, and a lookup scans from
 the newest range to the oldest, so the latest write wins.
 */
module ReferenceModel {

  /** One recorded assignment: `val` over the half-open range [begin, end). */
  datatype Range<V> = Range(begin: int, end: int, val: V)

  predicate Contains<V>(r: Range<V>, key: int)
  {
    r.begin <= key < r.end
  }

  /** No range recorded after position `j` contains `key`. */
  ghost predicate NoneLaterContains<V>(ranges: seq<Range<V>>, j: nat, key: int)
  {
    forall i :: j < i < |ranges| ==> !Contains(ranges[i], key)
  }

  /** The value of the most recently appended range containing `key`, or
      `init` when no recorded range contains it. */
  function ModelLookup<V>(ranges: seq<Range<V>>, init: V, key: int): (r: V)
    ensures r == init || exists j :: 0 <= j < |ranges| && Contains(ranges[j], key) && r == ranges[j].val
  {
    if ranges == [] then init
    else if Contains(ranges[|ranges| - 1], key) then ranges[|ranges| - 1].val
    else ModelLookup(ranges[..|ranges| - 1], init, key)
  }

  /** ModelLookup returns the value of the newest range containing the key;
      with no such range it returns `init`. */
  lemma {:induction false} ModelLookupNewest<V>(ranges: seq<Range<V>>, init: V, key: int)
    ensures (forall j :: 0 <= j < |ranges| ==> !Contains(ranges[j], key)) ==> ModelLookup(ranges, init, key) == init
    ensures forall j :: 0 <= j < |ranges| && Contains(ranges[j], key) && NoneLaterContains(ranges, j, key) ==>
      ModelLookup(ranges, init, key) == ranges[j].val
  {
    if ranges != [] {
      var n := |ranges| - 1;
      var older := ranges[..n];
      ModelLookupNewest(older, init, key);
      forall j | 0 <= j < |ranges| && Contains(ranges[j], key) && NoneLaterContains(ranges, j, key)
        ensures ModelLookup(ranges, init, key) == ranges[j].val
      {
        if j < n {
          assert !Contains(ranges[n], key);
          assert older[j] == ranges[j];
          assert NoneLaterContains(older, j, key) by {
            forall i | j < i < n ensures !Contains(older[i], key) {
              assert older[i] == ranges[i];
            }
          }
        }
      }
      if forall j :: 0 <= j < |ranges| ==> !Contains(ranges[j], key) {
        assert !Contains(ranges[n], key);
        forall j | 0 <= j < n ensures !Contains(older[j], key) {
          assert older[j] == ranges[j];
        }
      }
    }
  }

  /** Appending the range [b, e) with value v, b < e, makes every key in it
      look up v and leaves every other key's lookup as it was. */
  lemma ModelAppendLookup<V>(ranges: seq<Range<V>>, init: V, b: int, e: int, v: V, key: int)
    requires b < e
    ensures ModelLookup(ranges + [Range(b, e, v)], init, key) == if b <= key < e then v else ModelLookup(ranges, init, key)
  {
    assert (ranges + [Range(b, e, v)])[..|ranges|] == ranges;
  }

  class Model<V> {
    /** The background value; set by the constructor and never changed. */
    const init: V
    /** The recorded assignments, oldest first. */
    var ranges: seq<Range<V>>

    constructor (init: V)
      ensures this.init == init && ranges == []
      ensures forall key :: ModelLookup(ranges, this.init, key) == init
    {
      this.init := init;
      ranges := [];
    }

    /** Records the assignment of v to [b, e), unless the range is empty. */
    method Assign(b: int, e: int, v: V)
      modifies this
      ensures !(b < e) ==> ranges == old(ranges)
      ensures b < e ==> ranges == old(ranges) + [Range(b, e, v)]
      ensures b < e ==> forall key :: ModelLookup(ranges, init, key) == if b <= key < e then v else ModelLookup(old(ranges), init, key)
    {
      if !(b < e) {
        return;
      }
      ghost var before := ranges;
      ranges := ranges + [Range(b, e, v)];
      forall key ensures ModelLookup(ranges, init, key) == if b <= key < e then v else ModelLookup(before, init, key) {
        ModelAppendLookup(before, init, b, e, v, key);
      }
    }

    /** operator[]: scans the recorded ranges from the newest to the oldest and
        returns the value of the first one containing `key`, else `init`. */
    method Get(key: int) returns (r: V)
      ensures r == ModelLookup(ranges, init, key)
    {
      var i := |ranges|;
      assert ranges[..i] == ranges;
      while i > 0
        invariant 0 <= i <= |ranges|
        invariant ModelLookup(ranges, init, key) == ModelLookup(ranges[..i], init, key)
      {
        i := i - 1;
        var range := ranges[i];
        assert ranges[..i + 1][..i] == ranges[..i];
        if key < range.begin {
          continue;
        }
        if range.end <= key {
          continue;
        }
        return range.val;
      }
      return init;
    }
  }
}
