/**
 A canonical interval map: a background value `init` and an ordered store of
 breakpoints. A breakpoint {key, val} means "from `key`, inclusive, up to the
 next breakpoint's key, exclusive, the value is `val`"; keys before the first
 breakpoint take `init`. The ordered store (a std::map in interval-map.hh) is a
 sequence of breakpoints with strictly increasing keys.
 */
module IntervalMaps {

  datatype Breakpoint<V> = Breakpoint(key: int, val: V)

  /** The ordering the store keeps: keys strictly increasing, hence unique. */
  ghost predicate Increasing<V>(s: seq<Breakpoint<V>>)
  {
    forall i, j :: 0 <= i < j < |s| ==> s[i].key < s[j].key
  }

  ghost predicate HasKey<V>(s: seq<Breakpoint<V>>, k: int)
  {
    exists j :: 0 <= j < |s| && s[j].key == k
  }

  /** Canonical form: no two consecutive breakpoints hold equal values, and
      the first breakpoint, if any, does not hold the background value. */
  ghost predicate Canonical<V>(s: seq<Breakpoint<V>>, init: V)
  {
    && Increasing(s)
    && (forall i :: 0 < i < |s| ==> s[i - 1].val != s[i].val)
    && (|s| > 0 ==> s[0].val != init)
  }

  /** std::map::upper_bound: index of the first breakpoint whose key exceeds `k`. */
  function UpperBound<V>(s: seq<Breakpoint<V>>, k: int): (i: nat)
    ensures i <= |s|
    ensures forall j :: 0 <= j < i ==> s[j].key <= k
    ensures i < |s| ==> k < s[i].key
  {
    if s == [] || k < s[0].key then 0 else 1 + UpperBound(s[1..], k)
  }

  /** std::map::lower_bound: index of the first breakpoint whose key is not below `k`. */
  function LowerBound<V>(s: seq<Breakpoint<V>>, k: int): (i: nat)
    ensures i <= |s|
    ensures forall j :: 0 <= j < i ==> s[j].key < k
    ensures i < |s| ==> k <= s[i].key
  {
    if s == [] || k <= s[0].key then 0 else 1 + LowerBound(s[1..], k)
  }

  /** The value in effect at `k`: the breakpoint just before upper_bound(k),
      or `init` when upper_bound(k) is the first position. */
  function Lookup<V>(s: seq<Breakpoint<V>>, init: V, k: int): (r: V)
    ensures s == [] || k < s[0].key ==> r == init
  {
    var i := UpperBound(s, k);
    if i == 0 then init else s[i - 1].val
  }

  /** The value in effect after every breakpoint of `s`. */
  function Final<V>(s: seq<Breakpoint<V>>, init: V): V
  {
    if s == [] then init else s[|s| - 1].val
  }

  /** The breakpoints whose key is below `b`: those before lower_bound(b). */
  function Below<V>(s: seq<Breakpoint<V>>, b: int): seq<Breakpoint<V>>
  {
    s[..LowerBound(s, b)]
  }

  /** The breakpoints whose key is above `e`: those from upper_bound(e) on. */
  function Above<V>(s: seq<Breakpoint<V>>, e: int): seq<Breakpoint<V>>
  {
    s[UpperBound(s, e)..]
  }

  /** std::map::erase(lower_bound(b), upper_bound(e)): drops every breakpoint
      whose key lies in the closed range [b, e]. */
  function Erase<V>(s: seq<Breakpoint<V>>, b: int, e: int): (r: seq<Breakpoint<V>>)
    requires Increasing(s) && b <= e
    ensures Increasing(r)
    ensures forall x :: x in r ==> x in s && (x.key < b || e < x.key)
    ensures forall x :: x in s && (x.key < b || e < x.key) ==> x in r
  {
    Split(s, b, e);
    IncreasingAppend(Below(s, b), Above(s, e));
    Below(s, b) + Above(s, e)
  }

  /** std::map::insert: adds {k, v} at its ordered place, unless `k` is
      already a key, in which case the store is left as it is. */
  function Insert<V>(s: seq<Breakpoint<V>>, k: int, v: V): (r: seq<Breakpoint<V>>)
    requires Increasing(s)
    ensures Increasing(r)
    ensures HasKey(s, k) ==> r == s
    ensures forall x :: x in s ==> x in r
    ensures forall x :: x in r ==> x in s || x == Breakpoint(k, v)
    ensures !HasKey(s, k) ==> Breakpoint(k, v) in r
  {
    var i := LowerBound(s, k);
    if i < |s| && s[i].key == k then s
    else
      assert !HasKey(s, k) by {
        forall j | 0 <= j < |s| ensures s[j].key != k {
          if i < j { assert s[i].key < s[j].key; }
        }
      }
      s[..i] + [Breakpoint(k, v)] + s[i..]
  }

  /** One conditional insert of assign: add {k, v} unless the value now in
      effect at `k` already is v. */
  function InsertUnlessInEffect<V(==)>(t: seq<Breakpoint<V>>, init: V, k: int, v: V): (r: seq<Breakpoint<V>>)
    requires Increasing(t)
    ensures Increasing(r)
    ensures Lookup(t, init, k) == v ==> r == t
    ensures !HasKey(t, k) ==> Lookup(r, init, k) == v
  {
    if Lookup(t, init, k) != v then
      InsertLookup(t, init, k, v);
      Insert(t, k, v)
    else t
  }

  /** Inserting a new key makes the key look up the inserted value. */
  lemma InsertLookup<V>(t: seq<Breakpoint<V>>, init: V, k: int, v: V)
    requires Increasing(t)
    ensures !HasKey(t, k) ==> Lookup(Insert(t, k, v), init, k) == v
  {
    if HasKey(t, k) {
      return;
    }
    var i := LowerBound(t, k);
    var r := Insert(t, k, v);
    assert r == t[..i] + [Breakpoint(k, v)] + t[i..];
    assert r[i] == Breakpoint(k, v);
    forall j | 0 <= j < i + 1 ensures r[j].key <= k {
      if j < i { assert r[j] == t[j]; }
    }
    if i + 1 < |r| {
      assert r[i + 1] == t[i];
      assert t[i].key != k;
    }
    UpperBoundIs(r, k, i + 1);
  }

  /** interval_map::assign as a function of the old store: when b < e, capture
      the value in effect at e, erase the keys in [b, e], then conditionally
      insert {b, v} and {e, end_val}. */
  function Assigned<V(==)>(s: seq<Breakpoint<V>>, init: V, b: int, e: int, v: V): (r: seq<Breakpoint<V>>)
    requires Increasing(s)
    ensures Increasing(r)
  {
    if !(b < e) then s
    else
      var endVal := Lookup(s, init, e);
      InsertUnlessInEffect(InsertUnlessInEffect(Erase(s, b, e), init, b, v), init, e, endVal)
  }

  // ---------------------------------------------------------------------------
  // Sequences of breakpoints

  ghost predicate KeysBelow<V>(t: seq<Breakpoint<V>>, k: int)
  {
    forall x :: x in t ==> x.key < k
  }

  ghost predicate KeysAtMost<V>(t: seq<Breakpoint<V>>, k: int)
  {
    forall x :: x in t ==> x.key <= k
  }

  ghost predicate KeysAbove<V>(t: seq<Breakpoint<V>>, k: int)
  {
    forall x :: x in t ==> k < x.key
  }

  ghost predicate KeysWithin<V>(t: seq<Breakpoint<V>>, b: int, e: int)
  {
    forall x :: x in t ==> b <= x.key <= e
  }

  /** Every key of `t1` is below every key of `t2`. */
  ghost predicate Precedes<V>(t1: seq<Breakpoint<V>>, t2: seq<Breakpoint<V>>)
  {
    forall x, y :: x in t1 && y in t2 ==> x.key < y.key
  }

  lemma IncreasingAppend<V>(t1: seq<Breakpoint<V>>, t2: seq<Breakpoint<V>>)
    ensures Increasing(t1 + t2) <==> Increasing(t1) && Increasing(t2) && Precedes(t1, t2)
  {
    var t := t1 + t2;
    if Increasing(t) {
      forall i, j | 0 <= i < j < |t1| ensures t1[i].key < t1[j].key {
        assert t1[i] == t[i] && t1[j] == t[j];
      }
      forall i, j | 0 <= i < j < |t2| ensures t2[i].key < t2[j].key {
        assert t2[i] == t[|t1| + i] && t2[j] == t[|t1| + j];
      }
      forall x, y | x in t1 && y in t2 ensures x.key < y.key {
        var i :| 0 <= i < |t1| && t1[i] == x;
        var j :| 0 <= j < |t2| && t2[j] == y;
        assert t[i] == x && t[|t1| + j] == y;
      }
    }
    if Increasing(t1) && Increasing(t2) && Precedes(t1, t2) {
      forall i, j | 0 <= i < j < |t| ensures t[i].key < t[j].key {
        if j < |t1| {
          assert t[i] == t1[i] && t[j] == t1[j];
        } else if |t1| <= i {
          assert t[i] == t2[i - |t1|] && t[j] == t2[j - |t1|];
        } else {
          assert t[i] == t1[i] && t[j] == t2[j - |t1|];
          assert t1[i] in t1 && t2[j - |t1|] in t2;
        }
      }
    }
  }

  lemma IncreasingSlice<V>(s: seq<Breakpoint<V>>, a: nat, c: nat)
    requires Increasing(s) && a <= c <= |s|
    ensures Increasing(s[a..c])
  {
    forall i, j | 0 <= i < j < c - a ensures s[a..c][i].key < s[a..c][j].key {
      assert s[a..c][i] == s[a + i] && s[a..c][j] == s[a + j];
    }
  }

  /** An increasing sequence whose first key is above `k` has every key above `k`. */
  lemma AboveFirst<V>(t: seq<Breakpoint<V>>, k: int)
    requires Increasing(t) && t != [] && k < t[0].key
    ensures KeysAbove(t, k)
  {
    forall x | x in t ensures k < x.key {
      var j :| 0 <= j < |t| && t[j] == x;
      if j > 0 { assert t[0].key < t[j].key; }
    }
  }

  lemma SliceParts<T>(s: seq<T>, lo: nat, hi: nat)
    requires lo <= hi <= |s|
    ensures s == s[..lo] + s[lo..hi] + s[hi..]
    ensures s[0..lo] == s[..lo] && s[hi..|s|] == s[hi..]
  {
  }

  lemma ConcatParts<T>(a: seq<T>, c: seq<T>)
    ensures (a + c)[..|a|] == a && (a + c)[|a|..] == c
    ensures a + [] + c == a + c
  {
  }

  lemma ConcatThreeParts<T>(a: seq<T>, b: seq<T>, c: seq<T>)
    ensures (a + b + c)[..|a|] == a && (a + b + c)[|a| + |b|..] == c
  {
  }

  lemma BoundsOrdered<V>(s: seq<Breakpoint<V>>, b: int, e: int)
    requires b <= e
    ensures LowerBound(s, b) <= UpperBound(s, e)
  {
    var lo, hi := LowerBound(s, b), UpperBound(s, e);
    assert hi < |s| ==> e < s[hi].key;
  }

  lemma BelowKeys<V>(s: seq<Breakpoint<V>>, b: int)
    ensures KeysBelow(Below(s, b), b)
  {
    var lo := LowerBound(s, b);
    forall x | x in s[..lo] ensures x.key < b {
      var j :| 0 <= j < lo && s[..lo][j] == x;
      assert s[j] == x;
    }
  }

  lemma AboveKeys<V>(s: seq<Breakpoint<V>>, e: int)
    requires Increasing(s)
    ensures KeysAbove(Above(s, e), e)
  {
    var hi := UpperBound(s, e);
    if hi < |s| {
      assert s[hi..][0] == s[hi];
      IncreasingSlice(s, hi, |s|);
      assert s[hi..|s|] == s[hi..];
      AboveFirst(s[hi..], e);
    }
  }

  lemma WithinKeys<V>(s: seq<Breakpoint<V>>, b: int, e: int)
    requires Increasing(s) && b <= e
    ensures LowerBound(s, b) <= UpperBound(s, e)
    ensures KeysWithin(s[LowerBound(s, b)..UpperBound(s, e)], b, e)
  {
    BoundsOrdered(s, b, e);
    var lo, hi := LowerBound(s, b), UpperBound(s, e);
    var mid := s[lo..hi];
    forall x | x in mid ensures b <= x.key <= e {
      var j :| 0 <= j < hi - lo && mid[j] == x;
      assert s[lo + j] == x;
      if j > 0 { assert s[lo].key < s[lo + j].key; }
    }
  }

  /** The breakpoints below `b`, those in [b, e], and those above `e`. */
  lemma Split<V>(s: seq<Breakpoint<V>>, b: int, e: int)
    requires Increasing(s) && b <= e
    ensures LowerBound(s, b) <= UpperBound(s, e)
    ensures s == Below(s, b) + s[LowerBound(s, b)..UpperBound(s, e)] + Above(s, e)
    ensures Increasing(Below(s, b)) && KeysBelow(Below(s, b), b)
    ensures Increasing(s[LowerBound(s, b)..UpperBound(s, e)])
    ensures KeysWithin(s[LowerBound(s, b)..UpperBound(s, e)], b, e)
    ensures Increasing(Above(s, e)) && KeysAbove(Above(s, e), e)
  {
    BoundsOrdered(s, b, e);
    var lo, hi := LowerBound(s, b), UpperBound(s, e);
    SliceParts(s, lo, hi);
    IncreasingSlice(s, 0, lo);
    IncreasingSlice(s, lo, hi);
    IncreasingSlice(s, hi, |s|);
    BelowKeys(s, b);
    WithinKeys(s, b, e);
    AboveKeys(s, e);
  }

  // ---------------------------------------------------------------------------
  // Lookup: what operator[] returns

  lemma UpperBoundIs<V>(s: seq<Breakpoint<V>>, k: int, i: nat)
    requires i <= |s|
    requires forall j :: 0 <= j < i ==> s[j].key <= k
    requires i < |s| ==> k < s[i].key
    ensures UpperBound(s, k) == i
  {
    var u := UpperBound(s, k);
    assert u < |s| ==> k < s[u].key;
  }

  lemma LowerBoundIs<V>(s: seq<Breakpoint<V>>, k: int, i: nat)
    requires i <= |s|
    requires forall j :: 0 <= j < i ==> s[j].key < k
    requires i < |s| ==> k <= s[i].key
    ensures LowerBound(s, k) == i
  {
    var u := LowerBound(s, k);
    assert u < |s| ==> k <= s[u].key;
  }

  /** Position `j` holds the breakpoint with the greatest key not above `k`. */
  ghost predicate GreatestAtMost<V>(s: seq<Breakpoint<V>>, k: int, j: int)
  {
    0 <= j < |s| && s[j].key <= k && (j + 1 == |s| || k < s[j + 1].key)
  }

  /** Lookup is the value of the breakpoint with the greatest key not above
      `k`, and `init` when every key is above `k`. */
  lemma LookupGreatest<V>(s: seq<Breakpoint<V>>, init: V, k: int)
    requires Increasing(s)
    ensures (forall j :: 0 <= j < |s| ==> k < s[j].key) ==> Lookup(s, init, k) == init
    ensures forall j :: GreatestAtMost(s, k, j) ==> Lookup(s, init, k) == s[j].val
  {
    if forall j :: 0 <= j < |s| ==> k < s[j].key {
      LookupNone(s, init, k);
    }
    forall j | GreatestAtMost(s, k, j)
      ensures Lookup(s, init, k) == s[j].val
    {
      LookupAt(s, init, k, j);
    }
  }

  lemma LookupNone<V>(s: seq<Breakpoint<V>>, init: V, k: int)
    requires s == [] || k < s[0].key
    ensures Lookup(s, init, k) == init
  {
  }

  lemma LookupAt<V>(s: seq<Breakpoint<V>>, init: V, k: int, j: int)
    requires Increasing(s) && GreatestAtMost(s, k, j)
    ensures Lookup(s, init, k) == s[j].val
  {
    forall i | 0 <= i < j + 1 ensures s[i].key <= k {
      if i < j { assert s[i].key < s[j].key; }
    }
    UpperBoundIs(s, k, j + 1);
  }

  /** Breakpoints above `k` do not matter to the lookup of `k`. */
  lemma LookupDropRight<V>(t1: seq<Breakpoint<V>>, t2: seq<Breakpoint<V>>, init: V, k: int)
    requires KeysAbove(t2, k)
    ensures Lookup(t1 + t2, init, k) == Lookup(t1, init, k)
  {
    var t := t1 + t2;
    var i := UpperBound(t1, k);
    forall j | 0 <= j < i ensures t[j].key <= k {
      assert t[j] == t1[j];
    }
    if i < |t1| {
      assert t[i] == t1[i];
    } else if t2 != [] {
      assert t[i] == t2[0] && t2[0] in t2;
    }
    UpperBoundIs(t, k, i);
  }

  /** Once a breakpoint of `t2` is not above `k`, breakpoints before `t2`
      do not matter to the lookup of `k`. */
  lemma LookupDropLeft<V>(t1: seq<Breakpoint<V>>, t2: seq<Breakpoint<V>>, init: V, k: int)
    requires Increasing(t1 + t2)
    requires t2 != [] && t2[0].key <= k
    ensures Lookup(t1 + t2, init, k) == Lookup(t2, init, k)
  {
    var t := t1 + t2;
    var i := UpperBound(t2, k);
    forall j | 0 <= j < |t1| + i ensures t[j].key <= k {
      if j < |t1| {
        assert t[j].key < t[|t1|].key;
        assert t[|t1|] == t2[0];
      } else {
        assert t[j] == t2[j - |t1|];
      }
    }
    if i < |t2| { assert t[|t1| + i] == t2[i]; }
    UpperBoundIs(t, k, |t1| + i);
  }

  /** When no breakpoint is above `k`, the lookup of `k` is the final value. */
  lemma LookupFinal<V>(t: seq<Breakpoint<V>>, init: V, k: int)
    requires KeysAtMost(t, k)
    ensures Lookup(t, init, k) == Final(t, init)
  {
    forall j | 0 <= j < |t| ensures t[j].key <= k {
      assert t[j] in t;
    }
    UpperBoundIs(t, k, |t|);
  }

  // ---------------------------------------------------------------------------
  // The shape of the store after assign

  /** The breakpoint assign places at `b`, after the breakpoints `pre` below
      it: {b, v}, unless the value in effect after `pre` already is v. */
  ghost function BeginPart<V>(pre: seq<Breakpoint<V>>, init: V, b: int, v: V): seq<Breakpoint<V>>
  {
    if Final(pre, init) != v then [Breakpoint(b, v)] else []
  }

  /** The breakpoint assign places at `e`: {e, endVal}, where endVal is the
      value that was in effect at `e`, unless endVal is v. */
  ghost function EndPart<V>(e: int, endVal: V, v: V): seq<Breakpoint<V>>
  {
    if v != endVal then [Breakpoint(e, endVal)] else []
  }

  lemma FinalBegin<V>(pre: seq<Breakpoint<V>>, init: V, b: int, v: V)
    ensures Final(pre + BeginPart(pre, init, b, v), init) == v
  {
    if BeginPart(pre, init, b, v) == [] { assert pre + [] == pre; }
  }

  lemma FinalEnd<V>(t: seq<Breakpoint<V>>, init: V, e: int, endVal: V, v: V)
    requires Final(t, init) == v
    ensures Final(t + EndPart(e, endVal, v), init) == endVal
  {
    if EndPart(e, endVal, v) == [] { assert t + [] == t; }
  }

  lemma IncreasingPrefix<V>(t1: seq<Breakpoint<V>>, t2: seq<Breakpoint<V>>)
    requires Increasing(t1 + t2)
    ensures Increasing(t1)
  {
    forall i, j | 0 <= i < j < |t1| ensures t1[i].key < t1[j].key {
      assert t1[i] == (t1 + t2)[i] && t1[j] == (t1 + t2)[j];
    }
  }

  lemma InsertBetween<V>(pre: seq<Breakpoint<V>>, post: seq<Breakpoint<V>>, k: int, v: V)
    requires Increasing(pre + post) && KeysBelow(pre, k) && KeysAbove(post, k)
    ensures Insert(pre + post, k, v) == pre + [Breakpoint(k, v)] + post
  {
    var t := pre + post;
    forall j | 0 <= j < |pre| ensures t[j].key < k {
      assert t[j] == pre[j];
    }
    if post != [] { assert t[|pre|] == post[0] && post[0] in post; }
    LowerBoundIs(t, k, |pre|);
    ConcatParts(pre, post);
  }

  /** Between breakpoints below `k` and breakpoints above `k`, the conditional
      insert adds {k, v} exactly when the value after `pre` is not v. */
  lemma InsertUnlessBetween<V>(pre: seq<Breakpoint<V>>, post: seq<Breakpoint<V>>, init: V, k: int, v: V)
    requires Increasing(pre + post) && KeysBelow(pre, k) && KeysAbove(post, k)
    ensures InsertUnlessInEffect(pre + post, init, k, v)
      == pre + (if Final(pre, init) != v then [Breakpoint(k, v)] else []) + post
  {
    LookupDropRight(pre, post, init, k);
    assert KeysAtMost(pre, k);
    LookupFinal(pre, init, k);
    if Final(pre, init) != v {
      InsertBetween(pre, post, k, v);
    } else {
      ConcatParts(pre, post);
    }
  }

  /** The two conditional inserts of assign, made between the breakpoints
      below `b` and those above `e`. */
  lemma InsertBoth<V>(pre: seq<Breakpoint<V>>, post: seq<Breakpoint<V>>, init: V, b: int, e: int, v: V, endVal: V)
    requires b < e && Increasing(pre + post) && KeysBelow(pre, b) && KeysAbove(post, e)
    ensures InsertUnlessInEffect(InsertUnlessInEffect(pre + post, init, b, v), init, e, endVal)
      == pre + BeginPart(pre, init, b, v) + EndPart(e, endVal, v) + post
  {
    assert KeysAbove(post, b);
    InsertUnlessBetween(pre, post, init, b, v);
    var mid := pre + BeginPart(pre, init, b, v);
    FinalBegin(pre, init, b, v);
    assert KeysBelow(mid, e) by {
      forall x | x in mid ensures x.key < e {
        assert x in pre || x in BeginPart(pre, init, b, v);
      }
    }
    InsertUnlessBetween(mid, post, init, e, endVal);
  }

  /** After assign with b < e the store is: the old breakpoints below b, then
      BeginPart, then EndPart, then the old breakpoints above e. */
  lemma AssignedShape<V>(s: seq<Breakpoint<V>>, init: V, b: int, e: int, v: V)
    requires Increasing(s) && b < e
    ensures Assigned(s, init, b, e, v)
      == Below(s, b) + BeginPart(Below(s, b), init, b, v) + EndPart(e, Lookup(s, init, e), v) + Above(s, e)
  {
    Split(s, b, e);
    assert Erase(s, b, e) == Below(s, b) + Above(s, e);
    InsertBoth(Below(s, b), Above(s, e), init, b, e, v, Lookup(s, init, e));
  }

  // ---------------------------------------------------------------------------
  // What assign promises

  /** The value that was in effect at `e` is the one after the breakpoints
      not above `e`. */
  lemma LookupAtEnd<V>(s: seq<Breakpoint<V>>, init: V, b: int, e: int)
    requires Increasing(s) && b <= e
    ensures Lookup(s, init, e) == Final(Below(s, b) + s[LowerBound(s, b)..UpperBound(s, e)], init)
  {
    Split(s, b, e);
    var head := Below(s, b) + s[LowerBound(s, b)..UpperBound(s, e)];
    assert s == head + Above(s, e);
    LookupDropRight(head, Above(s, e), init, e);
    LookupFinal(head, init, e);
  }

  /** Below b, the lookup ignores everything assign removed or added. */
  lemma LookupBeforeBegin<V>(pre: seq<Breakpoint<V>>, del: seq<Breakpoint<V>>, post: seq<Breakpoint<V>>,
                             atBegin: seq<Breakpoint<V>>, atEnd: seq<Breakpoint<V>>, init: V, k: int)
    requires KeysAbove(del, k) && KeysAbove(atBegin, k) && KeysAbove(atEnd, k) && KeysAbove(post, k)
    ensures Lookup(pre + atBegin + atEnd + post, init, k) == Lookup(pre + del + post, init, k)
  {
    LookupDropRight(pre + atBegin + atEnd, post, init, k);
    LookupDropRight(pre + atBegin, atEnd, init, k);
    LookupDropRight(pre, atBegin, init, k);
    LookupDropRight(pre + del, post, init, k);
    LookupDropRight(pre, del, init, k);
  }

  /** From b up to, not including, e, the lookup finds v. */
  lemma LookupInside<V>(pre: seq<Breakpoint<V>>, atEnd: seq<Breakpoint<V>>, post: seq<Breakpoint<V>>,
                        init: V, b: int, v: V, k: int)
    requires KeysBelow(pre, b) && b <= k && KeysAbove(atEnd, k) && KeysAbove(post, k)
    ensures Lookup(pre + BeginPart(pre, init, b, v) + atEnd + post, init, k) == v
  {
    var mid := pre + BeginPart(pre, init, b, v);
    LookupDropRight(mid + atEnd, post, init, k);
    LookupDropRight(mid, atEnd, init, k);
    assert KeysAtMost(mid, k) by {
      forall x | x in mid ensures x.key <= k {
        assert x in pre || x in BeginPart(pre, init, b, v);
      }
    }
    LookupFinal(mid, init, k);
    FinalBegin(pre, init, b, v);
  }

  /** From e on, the lookup finds what it found before assign. */
  lemma LookupAfterEnd<V>(pre: seq<Breakpoint<V>>, del: seq<Breakpoint<V>>, post: seq<Breakpoint<V>>,
                          init: V, b: int, e: int, v: V, k: int)
    requires KeysBelow(pre, b) && KeysWithin(del, b, e) && b < e <= k && Increasing(post)
    requires Increasing(pre + del + post)
    requires Increasing(pre + BeginPart(pre, init, b, v) + EndPart(e, Final(pre + del, init), v) + post)
    ensures Lookup(pre + BeginPart(pre, init, b, v) + EndPart(e, Final(pre + del, init), v) + post, init, k)
         == Lookup(pre + del + post, init, k)
  {
    var mid := pre + BeginPart(pre, init, b, v);
    var head, oldHead := mid + EndPart(e, Final(pre + del, init), v), pre + del;
    if post != [] && post[0].key <= k {
      LookupDropLeft(head, post, init, k);
      LookupDropLeft(oldHead, post, init, k);
    } else {
      if post != [] { AboveFirst(post, k); }
      assert KeysAtMost(head, k) by {
        forall x | x in head ensures x.key <= k {
          assert x in pre || x in BeginPart(pre, init, b, v) || x in EndPart(e, Final(pre + del, init), v);
        }
      }
      assert KeysAtMost(oldHead, k) by {
        forall x | x in oldHead ensures x.key <= k {
          assert x in pre || x in del;
        }
      }
      LookupDropRight(head, post, init, k);
      LookupFinal(head, init, k);
      LookupDropRight(oldHead, post, init, k);
      LookupFinal(oldHead, init, k);
      FinalBegin(pre, init, b, v);
      FinalEnd(mid, init, e, Final(pre + del, init), v);
    }
  }

  /** The old store split around [b, e], and the new store assembled from the
      same pieces around what assign inserts. */
  lemma AssignedParts<V>(s: seq<Breakpoint<V>>, init: V, b: int, e: int, v: V)
    returns (pre: seq<Breakpoint<V>>, del: seq<Breakpoint<V>>, post: seq<Breakpoint<V>>)
    requires Increasing(s) && b < e
    ensures s == pre + del + post
    ensures KeysBelow(pre, b) && KeysWithin(del, b, e) && KeysAbove(post, e) && Increasing(post)
    ensures Lookup(s, init, e) == Final(pre + del, init)
    ensures Assigned(s, init, b, e, v) == pre + BeginPart(pre, init, b, v) + EndPart(e, Final(pre + del, init), v) + post
  {
    Split(s, b, e);
    pre, del, post := Below(s, b), s[LowerBound(s, b)..UpperBound(s, e)], Above(s, e);
    AssignedShape(s, init, b, e, v);
    LookupAtEnd(s, init, b, e);
  }

  lemma PartsLookup<V>(s: seq<Breakpoint<V>>, r: seq<Breakpoint<V>>,
                       pre: seq<Breakpoint<V>>, del: seq<Breakpoint<V>>, post: seq<Breakpoint<V>>,
                       init: V, b: int, e: int, v: V, k: int)
    requires s == pre + del + post && Increasing(s)
    requires r == pre + BeginPart(pre, init, b, v) + EndPart(e, Final(pre + del, init), v) + post && Increasing(r)
    requires KeysBelow(pre, b) && KeysWithin(del, b, e) && KeysAbove(post, e) && Increasing(post) && b < e
    ensures Lookup(r, init, k) == if b <= k < e then v else Lookup(s, init, k)
  {
    var atBegin, atEnd := BeginPart(pre, init, b, v), EndPart(e, Final(pre + del, init), v);
    if k < b {
      LookupBeforeBegin(pre, del, post, atBegin, atEnd, init, k);
    } else if k < e {
      LookupInside(pre, atEnd, post, init, b, v, k);
    } else {
      LookupAfterEnd(pre, del, post, init, b, e, v, k);
    }
  }

  /** After assign(b, e, v) with b < e, every key in [b, e) looks up v and every
      other key, e included, keeps the value it had before. */
  lemma AssignedLookup<V>(s: seq<Breakpoint<V>>, init: V, b: int, e: int, v: V, k: int)
    requires Increasing(s) && b < e
    ensures Lookup(Assigned(s, init, b, e, v), init, k) == if b <= k < e then v else Lookup(s, init, k)
  {
    var pre, del, post := AssignedParts(s, init, b, e, v);
    PartsLookup(s, Assigned(s, init, b, e, v), pre, del, post, init, b, e, v, k);
  }

  lemma PartsFrame<V>(s: seq<Breakpoint<V>>, r: seq<Breakpoint<V>>,
                      pre: seq<Breakpoint<V>>, del: seq<Breakpoint<V>>, post: seq<Breakpoint<V>>,
                      init: V, b: int, e: int, v: V)
    requires s == pre + del + post
    requires r == pre + BeginPart(pre, init, b, v) + EndPart(e, Final(pre + del, init), v) + post
    requires KeysBelow(pre, b) && KeysWithin(del, b, e) && KeysAbove(post, e) && b < e
    ensures forall x: Breakpoint<V> :: x.key < b || e < x.key ==> (x in r <==> x in s)
    ensures forall x :: x in r && b <= x.key <= e ==> x == Breakpoint(b, v) || x == Breakpoint(e, Final(pre + del, init))
  {
    var atBegin, atEnd := BeginPart(pre, init, b, v), EndPart(e, Final(pre + del, init), v);
    forall x: Breakpoint<V> | x.key < b || e < x.key ensures x in r <==> x in s {
      assert x !in atBegin && x !in atEnd && x !in del;
      assert x in r <==> x in pre || x in post;
      assert x in s <==> x in pre || x in post;
    }
    forall x | x in r && b <= x.key <= e ensures x == Breakpoint(b, v) || x == Breakpoint(e, Final(pre + del, init)) {
      assert x !in pre && x !in post;
      assert x in atBegin || x in atEnd;
    }
  }

  /** assign only adds or removes breakpoints whose key lies in [b, e]; a key
      in [b, e] survives only as {b, v} or {e, old value at e}. */
  lemma AssignedFrame<V>(s: seq<Breakpoint<V>>, init: V, b: int, e: int, v: V)
    requires Increasing(s)
    ensures forall x: Breakpoint<V> :: x.key < b || e < x.key ==> (x in Assigned(s, init, b, e, v) <==> x in s)
    ensures b < e ==> forall x :: x in Assigned(s, init, b, e, v) && b <= x.key <= e ==>
      x == Breakpoint(b, v) || x == Breakpoint(e, Lookup(s, init, e))
  {
    if b < e {
      var pre, del, post := AssignedParts(s, init, b, e, v);
      PartsFrame(s, Assigned(s, init, b, e, v), pre, del, post, init, b, e, v);
    }
  }

  lemma CanonicalSplit<V>(t1: seq<Breakpoint<V>>, t2: seq<Breakpoint<V>>, init: V)
    requires Canonical(t1 + t2, init)
    ensures Canonical(t1, init) && Canonical(t2, Final(t1, init))
  {
    IncreasingAppend(t1, t2);
    var t := t1 + t2;
    forall i | 0 < i < |t1| ensures t1[i - 1].val != t1[i].val {
      assert t[i - 1] == t1[i - 1] && t[i] == t1[i];
    }
    forall i | 0 < i < |t2| ensures t2[i - 1].val != t2[i].val {
      assert t[|t1| + i - 1] == t2[i - 1] && t[|t1| + i] == t2[i];
    }
    if t2 != [] && t1 != [] {
      assert t[|t1| - 1] == t1[|t1| - 1] && t[|t1|] == t2[0];
    }
    if t1 == [] { assert t == t2; }
  }

  lemma CanonicalJoin<V>(t1: seq<Breakpoint<V>>, t2: seq<Breakpoint<V>>, init: V)
    requires Increasing(t1 + t2)
    requires Canonical(t1, init) && Canonical(t2, Final(t1, init))
    ensures Canonical(t1 + t2, init)
  {
    var t := t1 + t2;
    forall i | 0 < i < |t| ensures t[i - 1].val != t[i].val {
      if i < |t1| {
        assert t[i - 1] == t1[i - 1] && t[i] == t1[i];
      } else if i == |t1| {
        assert t[i - 1] == t1[|t1| - 1] && t[i] == t2[0];
      } else {
        assert t[i - 1] == t2[i - 1 - |t1|] && t[i] == t2[i - |t1|];
      }
    }
    if t1 == [] { assert t == t2; }
  }

  /** Rebuilding the part between b and e keeps a canonical store canonical. */
  lemma CanonicalParts<V>(pre: seq<Breakpoint<V>>, del: seq<Breakpoint<V>>, post: seq<Breakpoint<V>>,
                          init: V, b: int, e: int, v: V)
    requires Canonical(pre + del + post, init)
    requires Increasing(pre + BeginPart(pre, init, b, v) + EndPart(e, Final(pre + del, init), v) + post)
    ensures Canonical(pre + BeginPart(pre, init, b, v) + EndPart(e, Final(pre + del, init), v) + post, init)
  {
    var atBegin, atEnd := BeginPart(pre, init, b, v), EndPart(e, Final(pre + del, init), v);
    var mid := pre + atBegin;
    var head := mid + atEnd;
    CanonicalSplit(pre + del, post, init);
    CanonicalSplit(pre, del, init);
    IncreasingPrefix(head, post);
    IncreasingPrefix(mid, atEnd);
    CanonicalJoin(pre, atBegin, init);
    FinalBegin(pre, init, b, v);
    CanonicalJoin(mid, atEnd, init);
    FinalEnd(mid, init, e, Final(pre + del, init), v);
    CanonicalJoin(head, post, init);
  }

  /** assign keeps the store canonical. */
  lemma AssignedCanonical<V>(s: seq<Breakpoint<V>>, init: V, b: int, e: int, v: V)
    requires Canonical(s, init)
    ensures Canonical(Assigned(s, init, b, e, v), init)
  {
    if b < e {
      Split(s, b, e);
      AssignedShape(s, init, b, e, v);
      LookupAtEnd(s, init, b, e);
      CanonicalParts(Below(s, b), s[LowerBound(s, b)..UpperBound(s, e)], Above(s, e), init, b, e, v);
    }
  }

  /** Around a middle part with keys in [b, e], lower_bound(b) and
      upper_bound(e) find the middle part's ends. */
  lemma BoundsAround<V>(pre: seq<Breakpoint<V>>, mid: seq<Breakpoint<V>>, post: seq<Breakpoint<V>>, b: int, e: int)
    requires b <= e && KeysBelow(pre, b) && KeysWithin(mid, b, e) && KeysAbove(post, e)
    ensures Below(pre + mid + post, b) == pre
    ensures Above(pre + mid + post, e) == post
  {
    var r := pre + mid + post;
    forall j | 0 <= j < |pre| ensures r[j].key < b {
      assert r[j] == pre[j] && pre[j] in pre;
    }
    if |pre| < |r| {
      assert r[|pre|] in mid || r[|pre|] in post;
    }
    LowerBoundIs(r, b, |pre|);
    ConcatThreeParts(pre, mid, post);
    forall j | 0 <= j < |pre| + |mid| ensures r[j].key <= e {
      if j < |pre| {
        assert r[j] == pre[j] && pre[j] in pre;
      } else {
        assert r[j] == mid[j - |pre|] && mid[j - |pre|] in mid;
      }
    }
    if |pre| + |mid| < |r| {
      assert r[|pre| + |mid|] == post[0] && post[0] in post;
    }
    UpperBoundIs(r, e, |pre| + |mid|);
  }

  /** assign depends on the old store only through the breakpoints below b,
      those above e, and the value in effect at e. */
  lemma AssignedDependsOn<V>(s: seq<Breakpoint<V>>, t: seq<Breakpoint<V>>, init: V, b: int, e: int, v: V)
    requires Increasing(s) && Increasing(t) && b < e
    requires Below(s, b) == Below(t, b) && Above(s, e) == Above(t, e)
    requires Lookup(s, init, e) == Lookup(t, init, e)
    ensures Assigned(s, init, b, e, v) == Assigned(t, init, b, e, v)
  {
    AssignedShape(s, init, b, e, v);
    AssignedShape(t, init, b, e, v);
  }

  /** assign keeps the breakpoints below b and those above e, in order. */
  lemma AssignedKeepsOutside<V>(s: seq<Breakpoint<V>>, init: V, b: int, e: int, v: V)
    requires Increasing(s) && b < e
    ensures Below(Assigned(s, init, b, e, v), b) == Below(s, b)
    ensures Above(Assigned(s, init, b, e, v), e) == Above(s, e)
  {
    var pre, post := Below(s, b), Above(s, e);
    var atBegin, atEnd := BeginPart(pre, init, b, v), EndPart(e, Lookup(s, init, e), v);
    var mid := atBegin + atEnd;
    assert pre + atBegin + atEnd + post == pre + mid + post;
    AssignedShape(s, init, b, e, v);
    BelowKeys(s, b);
    AboveKeys(s, e);
    forall x: Breakpoint<V> | x in mid ensures b <= x.key <= e {
      assert x in atBegin || x in atEnd;
    }
    BoundsAround(pre, mid, post, b, e);
  }

  /** Assigning the same range and value twice leaves the store as one call does. */
  lemma AssignedIdempotent<V>(s: seq<Breakpoint<V>>, init: V, b: int, e: int, v: V)
    requires Increasing(s)
    ensures Assigned(Assigned(s, init, b, e, v), init, b, e, v) == Assigned(s, init, b, e, v)
  {
    if b < e {
      AssignedKeepsOutside(s, init, b, e, v);
      AssignedLookup(s, init, b, e, v, e);
      AssignedDependsOn(Assigned(s, init, b, e, v), s, init, b, e, v);
    }
  }

  /** What assign promises, gathered for one call. */
  lemma AssignedSummary<V>(s: seq<Breakpoint<V>>, init: V, b: int, e: int, v: V)
    requires Increasing(s) && b < e
    ensures forall k :: Lookup(Assigned(s, init, b, e, v), init, k) == if b <= k < e then v else Lookup(s, init, k)
    ensures Canonical(s, init) ==> Canonical(Assigned(s, init, b, e, v), init)
    ensures forall x: Breakpoint<V> :: x.key < b || e < x.key ==> (x in Assigned(s, init, b, e, v) <==> x in s)
  {
    forall k ensures Lookup(Assigned(s, init, b, e, v), init, k) == if b <= k < e then v else Lookup(s, init, k) {
      AssignedLookup(s, init, b, e, v, k);
    }
    if Canonical(s, init) {
      AssignedCanonical(s, init, b, e, v);
    }
    AssignedFrame(s, init, b, e, v);
  }

  /** A canonical store is determined by its background value and its lookups:
      two canonical stores that agree on every key are equal. */
  lemma {:induction false} CanonicalUnique<V>(s: seq<Breakpoint<V>>, t: seq<Breakpoint<V>>, init: V)
    requires Canonical(s, init) && Canonical(t, init)
    requires forall k :: Lookup(s, init, k) == Lookup(t, init, k)
    ensures s == t
  {
    if s != [] && t != [] {
      var m := if s[0].key <= t[0].key then s[0].key else t[0].key;
      LookupFirst(s, init, m);
      LookupFirst(t, init, m);
      LookupFirst(s, init, s[0].key);
      LookupFirst(t, init, s[0].key);
      var first := s[0];
      CanonicalTail(s, init);
      CanonicalTail(t, init);
      forall k ensures Lookup(s[1..], first.val, k) == Lookup(t[1..], first.val, k) {
        LookupTail(s, init, k);
        LookupTail(t, init, k);
      }
      CanonicalUnique(s[1..], t[1..], first.val);
      assert s == [first] + s[1..] && t == [first] + t[1..];
    } else if s != [] {
      LookupFirst(s, init, s[0].key);
    } else if t != [] {
      LookupFirst(t, init, t[0].key);
    }
  }

  lemma LookupFirst<V>(s: seq<Breakpoint<V>>, init: V, k: int)
    requires Increasing(s) && s != [] && k <= s[0].key
    ensures Lookup(s, init, k) == if k == s[0].key then s[0].val else init
  {
    if k == s[0].key {
      if |s| > 1 { assert s[0].key < s[1].key; }
      UpperBoundIs(s, k, 1);
    } else {
      UpperBoundIs(s, k, 0);
    }
  }

  lemma CanonicalTail<V>(s: seq<Breakpoint<V>>, init: V)
    requires Canonical(s, init) && s != []
    ensures Canonical(s[1..], s[0].val)
  {
    assert s == [s[0]] + s[1..];
    CanonicalSplit([s[0]], s[1..], init);
  }

  lemma LookupTail<V>(s: seq<Breakpoint<V>>, init: V, k: int)
    requires Increasing(s) && s != []
    ensures Lookup(s[1..], s[0].val, k) == if k < s[0].key then s[0].val else Lookup(s, init, k)
  {
    assert s == [s[0]] + s[1..];
    IncreasingAppend([s[0]], s[1..]);
    if k < s[0].key {
      if |s| > 1 { assert s[1].key > s[0].key; }
      UpperBoundIs(s[1..], k, 0);
    } else if s[1..] != [] && s[1..][0].key <= k {
      LookupDropLeft([s[0]], s[1..], init, k);
      LookupDropLeft([s[0]], s[1..], s[0].val, k);
    } else {
      if s[1..] != [] { AboveFirst(s[1..], k); }
      LookupDropRight([s[0]], s[1..], init, k);
      LookupFinal([s[0]], init, k);
      UpperBoundIs(s[1..], k, 0);
    }
  }

  // ---------------------------------------------------------------------------
  // The object

  class IntervalMap<V(==)> {
    /** The background value; set by the constructor and never changed. */
    const init: V
    /** The ordered breakpoint store. */
    var entries: seq<Breakpoint<V>>

    ghost predicate Valid()
      reads this
    {
      Increasing(entries)
    }

    constructor (init: V)
      ensures this.init == init && entries == []
      ensures Valid() && Canonical(entries, init)
      ensures forall k :: Get(k) == init
    {
      this.init := init;
      entries := [];
    }

    /** operator[]: the value of the breakpoint with the greatest key not
        above `key`, or `init` when there is none. */
    function Get(key: int): (r: V)
      reads this
      requires Valid()
      ensures entries == [] || key < entries[0].key ==> r == init
      ensures forall j :: GreatestAtMost(entries, key, j) ==>
        r == entries[j].val
    {
      LookupGreatest(entries, init, key);
      Lookup(entries, init, key)
    }

    /** Overwrites the half-open range [b, e) with v, in place. */
    method Assign(b: int, e: int, v: V)
      requires Valid()
      modifies this
      ensures Valid()
      ensures entries == Assigned(old(entries), init, b, e, v)
      ensures !(b < e) ==> entries == old(entries)
      ensures b < e ==> forall k :: Get(k) == if b <= k < e then v else Lookup(old(entries), init, k)
      ensures Canonical(old(entries), init) ==> Canonical(entries, init)
      ensures forall x: Breakpoint<V> :: x.key < b || e < x.key ==> (x in entries <==> x in old(entries))
    {
      if !(b < e) {
        return;
      }
      ghost var before := entries;
      var endVal := Get(e);
      entries := Erase(entries, b, e);
      if Get(b) != v {
        entries := Insert(entries, b, v);
      }
      if Get(e) != endVal {
        entries := Insert(entries, e, endVal);
      }
      assert entries == Assigned(before, init, b, e, v);
      AssignedSummary(before, init, b, e, v);
    }
  }
}
