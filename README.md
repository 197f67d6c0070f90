# interval-map in Dafny

A model of `amby::interval_map`, a map from every key of an ordered key type
to a value. The map holds a background value `init` and an ordered store of
breakpoints. A breakpoint `{k, v}` means "from `k` on, up to the next
breakpoint, the value is `v`"; keys before the first breakpoint take `init`.
`assign(begin, end, val)` overwrites the half-open range `[begin, end)`, and
`operator[]` reads the value in effect at a key. The store is kept canonical:
no two consecutive breakpoints hold the same value, and the first one does not
hold `init`.

The project also models the unit tests' reference `Model`, which records every
non-empty assignment and answers a lookup by scanning from the newest range to
the oldest, and the test fixture that feeds both the same assignments and then
compares them.

Three modules, one per source file:

- `IntervalMaps` (`interval_map.dfy`), for `interval-map.hh`. The `std::map`
  store is a sequence of `Breakpoint`s with strictly increasing keys. The
  map operations it uses (`lower_bound`, `upper_bound`, range `erase` and
  `insert`) are functions on that sequence. `Assigned` is `assign` as a
  function of the old store. The class `IntervalMap` holds the store in a
  field that `Assign` updates in place, and `Get` is `operator[]`.
- `ReferenceModel` (`model.dfy`), for `tests/unit/model.hh`. The class
  `Model` holds the vector of ranges as a `seq` field. `Get` is the
  reverse-scan loop, proved against the recursive definition
  `ModelLookup`.
- `Harness` (`harness.dfy`), for the fixture and test cases of
  `tests/unit/unit_test.cc`. `Fixture` pairs a map with a model.
  `MapRefinesModel` proves that the two agree after every sequence of
  assignments. Each test case's resulting store is proved outright.

`assign` erases from `lower_bound(begin)` up to `upper_bound(end)`, so the
breakpoint at `end`, if any, goes too. It comes back as `{end, end_val}` when
needed. `Erase` therefore models the closed range `[begin, end]`, and
`AssignedLookup` shows that the value at `end` and beyond is unchanged.

The two conditional inserts test `(*this)[begin] == val` and
`(*this)[end] == end_val` on the partly updated store. `AssignedShape` proves
that the new store is made of four parts, in this order:

- the breakpoints below `begin`;
- `{begin, val}`, unless the value in effect just before `begin` is `val`;
- `{end, end_val}`, unless `end_val` is `val`;
- the breakpoints above `end`.

## Model

| member | source | states |
|---|---|---|
| IntervalMaps.UpperBound | src/include/interval-map/interval-map.hh:20 | upper_bound: every breakpoint before the result has a key at most k, and the one at the result, if any, has a key above k |
| IntervalMaps.LowerBound | src/include/interval-map/interval-map.hh:19 | lower_bound: every breakpoint before the result has a key below k, and the one at the result, if any, has a key at least k |
| IntervalMaps.Erase | src/include/interval-map/interval-map.hh:19-20 | erase(lower_bound(b), upper_bound(e)) keeps the keys increasing and keeps exactly the breakpoints whose key is below b or above e |
| IntervalMaps.Insert | src/include/interval-map/interval-map.hh:22 | std::map::insert: keeps the keys increasing; leaves the store unchanged when the key is present; otherwise adds exactly {k, v} and loses nothing |
| IntervalMaps.Assigned | src/include/interval-map/interval-map.hh:14-25 | assign as a function of the old store keeps the keys strictly increasing |
| IntervalMaps.Lookup | src/include/interval-map/interval-map.hh:27-32 | operator[] on a store: when upper_bound(k) is the first position (empty store, or k below the first key) the result is init; LookupGreatest states the other branch |
| IntervalMaps.InsertUnlessInEffect | src/include/interval-map/interval-map.hh:21-24 | one conditional insert: keeps the keys increasing; leaves the store as it is when the value in effect at k already is v; otherwise, when k is not a key, k reads v afterwards |
| IntervalMaps.InsertLookup | src/include/interval-map/interval-map.hh:22 | inserting a key not yet present makes that key read the inserted value |
| IntervalMaps.LookupGreatest | src/include/interval-map/interval-map.hh:27-32 | operator[] yields the value of the breakpoint with the greatest key not above k, and init when every key is above k |
| IntervalMaps.AssignedShape | src/include/interval-map/interval-map.hh:18-24 | the new store is the breakpoints below b, then {b, v} unless the value in effect before b is v, then {e, old value at e} unless that value is v, then the breakpoints above e |
| IntervalMaps.AssignedLookup | src/include/interval-map/interval-map.hh:14-25 | after assign(b, e, v) with b < e, every key in [b, e) reads v and every other key, e included, reads what it read before |
| IntervalMaps.AssignedFrame | src/include/interval-map/interval-map.hh:19-24 | breakpoints with keys outside [b, e] are neither added nor removed; inside [b, e] only {b, v} and {e, old value at e} can remain |
| IntervalMaps.AssignedKeepsOutside | src/include/interval-map/interval-map.hh:19-24 | the breakpoints below b and those above e are kept as they were, in order |
| IntervalMaps.AssignedCanonical | src/include/interval-map/interval-map.hh:21-24 | assign keeps a canonical store canonical |
| IntervalMaps.AssignedDependsOn | src/include/interval-map/interval-map.hh:18-24 | the new store depends on the old one only through its breakpoints below b, its breakpoints above e and the value at e |
| IntervalMaps.AssignedIdempotent | src/include/interval-map/interval-map.hh:14-25 | assigning the same range and value twice gives the same store as once |
| IntervalMaps.CanonicalUnique | src/include/interval-map/interval-map.hh:21-24 | two canonical stores with the same background value that read the same at every key are equal |
| IntervalMaps.IntervalMap.constructor | src/include/interval-map/interval-map.hh:12 | a fresh map has an empty, canonical store and reads init at every key |
| IntervalMaps.IntervalMap.Get | src/include/interval-map/interval-map.hh:27-32 | with an empty store or a key below the first breakpoint the result is init; otherwise it is the value of the breakpoint with the greatest key not above the key |
| IntervalMaps.IntervalMap.Assign | src/include/interval-map/interval-map.hh:14-25 | in-place assign: no-op unless b < e; afterwards [b, e) reads v and every other key reads as before; keys stay increasing; canonicity is preserved; breakpoints outside [b, e] are untouched |
| ReferenceModel.ModelLookup | tests/unit/model.hh:22-31 | the model's lookup is init or the value of a recorded range that contains the key |
| ReferenceModel.ModelLookupNewest | tests/unit/model.hh:22-31 | the model's lookup is the value of the newest recorded range containing the key, and init when none does |
| ReferenceModel.ModelAppendLookup | tests/unit/model.hh:16-31 | recording a non-empty range makes its keys read its value and leaves every other key as it was |
| ReferenceModel.Model.constructor | tests/unit/model.hh:14 | a fresh model records nothing and reads init at every key |
| ReferenceModel.Model.Assign | tests/unit/model.hh:16-20 | an empty range is ignored; a non-empty range is appended, so latest-write-wins holds for the keys it covers |
| ReferenceModel.Model.Get | tests/unit/model.hh:22-31 | the reverse scan returns the newest range containing the key, or init |
| Harness.MapAfter | tests/unit/unit_test.cc:83-87 | the store after any sequence of assignments to a fresh map is canonical |
| Harness.ModelAfter | tests/unit/unit_test.cc:83-87 | the model records at most one range per assignment, only non-empty ones, each one of the assignments |
| Harness.AfterPrefix | tests/unit/unit_test.cc:83-87 | one more assignment updates the map's store by assign and appends to the model's ranges only when the range is non-empty |
| Harness.MapRefinesModel | tests/unit/unit_test.cc:113-119 | after the same assignments, the map and the model read the same value at every key |
| Harness.AgreeAfterAssign | tests/unit/unit_test.cc:83-87 | a key on which the map and the model agree still agrees after both receive the same non-empty assignment |
| Harness.Fixture.constructor | tests/unit/unit_test.cc:71-77 | SetUp: a fresh map and a fresh model with the same background value, empty |
| Harness.Fixture.Assign | tests/unit/unit_test.cc:83-87 | assign feeds both; the map and the model keep agreeing at every key and the store stays canonical |
| Harness.Fixture.CheckRanges | tests/unit/unit_test.cc:113-119 | true exactly when map[i] and model[i] agree for every key from the minimum to the maximum char |
| Harness.Fixture.CheckCanonicity | tests/unit/unit_test.cc:121-136 | true exactly when the store is canonical |
| Harness.Fixture.Check | tests/unit/unit_test.cc:79-94 | TearDown's check passes on any fixture that was fed through assign |
| Harness.RunTest | tests/unit/unit_test.cc:74-94 | a test (SetUp, any assignments, TearDown) ends with the map holding MapAfter, the model holding ModelAfter, and the check passing |
| Harness.MinimalInterface | tests/unit/unit_test.cc:139-146 | a fresh map reads 0 at key 0, and reads 1 there after [0, 1) := 1 |
| Harness.EmptyRangesStoreNothing | tests/unit/unit_test.cc:148-156 | no_insertion, insert_begin_equal_end and insert_begin_bigger_than_end leave the store empty |
| Harness.StepLookup | tests/unit/unit_test.cc:83-87 | the last assignment decides the keys it covers; every other key reads what it read before |
| Harness.TwoOpsLookup | tests/unit/unit_test.cc:172-196 | after two assignments, the later decides its keys, the earlier the keys only it covers, init the rest |
| Harness.ThreeOpsLookup | tests/unit/unit_test.cc:182-186 | the same for three assignments |
| Harness.TwoOpsStore | tests/unit/unit_test.cc:162-196 | a canonical store reading what two assignments decide is the store they leave |
| Harness.ThreeOpsStore | tests/unit/unit_test.cc:182-186 | the same for three assignments |
| Harness.OneRangeStore | tests/unit/unit_test.cc:158-160 | insert_one_range stores {min, 1}, {0, 0} |
| Harness.NonOverlappingStaysApart | tests/unit/unit_test.cc:162-165 | insert_non_overlapping_ranges stores {min, 1}, {0, 0}, {10, 2}, {max, 0} |
| Harness.UpToMaxStore | tests/unit/unit_test.cc:167-170 | insert_up_to_max stores {min, 1}, {max, 0} |
| Harness.RightAfterMerges | tests/unit/unit_test.cc:172-175 | insert_range_right_after merges into {0, 1}, {20, 0} |
| Harness.RightBeforeMerges | tests/unit/unit_test.cc:177-180 | insert_range_right_before merges into {0, 1}, {20, 0} |
| Harness.MiddleMerges | tests/unit/unit_test.cc:182-186 | insert_range_middle merges into {0, 1}, {30, 0} |
| Harness.InsideAnotherSplits | tests/unit/unit_test.cc:188-191 | insert_range_inside_another stores {0, 1}, {5, 2}, {15, 1}, {20, 0} |
| Harness.InsideAnotherLookup | tests/unit/unit_test.cc:188-191 | the store insert_range_inside_another leaves reads 2 on [5, 15), 1 on the rest of [0, 20) and 0 elsewhere |
| Harness.AroundAnotherMerges | tests/unit/unit_test.cc:193-196 | insert_range_around_another stores {0, 1}, {20, 0} |
| Harness.UncoveredKeyIsInit | tests/unit/unit_test.cc:113-119 | a key no assignment covered reads the background value |
| Harness.OneRangeLookup | tests/unit/unit_test.cc:158-170 | the store {b, v}, {e, init} with v not init reads v on [b, e) and init elsewhere |
| Harness.CoveringLookup | tests/unit/unit_test.cc:198-223 | after an assignment covering every earlier non-empty one, its keys read its value and the others init |
| Harness.OneRangeCanonical | tests/unit/unit_test.cc:198-223 | the only canonical store reading v on [b, e) and init elsewhere is {b, v}, {e, init}, or empty when v is init |
| Harness.CoveringAssign | tests/unit/unit_test.cc:198-223 | an assignment covering every earlier non-empty one leaves only its own two breakpoints, or nothing when it assigns init |
| Harness.FirstAssign | tests/unit/unit_test.cc:158-170 | the first non-empty assignment to a fresh map leaves its two breakpoints, or nothing when it assigns init |
| Harness.OverlapsManyMerges | tests/unit/unit_test.cc:198-205 | insert_range_overlaps_many leaves {0, -1}, {50, 0} |
| Harness.OverlapsManyInitValueEmpties | tests/unit/unit_test.cc:207-214 | insert_range_overlaps_many_init_value leaves the store empty |
| Harness.OverlapsManyOversizeMerges | tests/unit/unit_test.cc:216-223 | insert_range_overlaps_many_oversize leaves {-10, -1}, {60, 0} |

## Left out

- Key and value types: keys are mathematical integers and values any type with equality. The `KeyInterface`/`ValueInterface` wrappers exist only to show that `<`, `==` and copying are all the map needs; that need is the `V(==)` in the signatures of IntervalMaps and Harness. The reference model never compares values, so `ReferenceModel.Model<V>` needs no equality.
- The tests' `char` key type is taken as signed 8-bit (`KeyMin` = -128, `KeyMax` = 127); a platform with unsigned `char` would sweep 0 to 255 in `check_ranges`.
- The red-black tree behind `std::map` and its logarithmic costs: the store is a sorted sequence, and `LowerBound`/`UpperBound` are linear recursive searches.
- References: `operator[]` returns a `const&` into the map; `Get` returns the value. Lifetimes and aliasing of those references are not modelled.
- IntervalMaps.IntervalMap.Assign takes `v` by value, so it does not model a call such as `m.assign(b, e, m[k])`. There `val` is a `const&` into a breakpoint of the same map. If that breakpoint's key lies in `[b, e]`, the erase at interval-map.hh:19-20 destroys it, and lines 21-22 then read and copy through a dangling reference. Only `end_val` is copied beforehand (line 18).
- The friend declaration that lets the fixture read the private store and `init_`: in the model, `entries` and `init` are plain fields.
- GoogleTest plumbing: `TEST_F` registration, `SCOPED_TRACE`, and the `stringify_map`/`stringify_operations` trace strings.
- Harness.Fixture.CheckRanges: a failing `ASSERT_EQ` reports the mismatch and returns from `check_ranges`, after which `check` still runs `check_canonicity`. Here the method returns false at the first mismatch, and `Check` still runs both checks.
- Harness.Fixture.CheckCanonicity: each `EXPECT_NE` records a failure and goes on; here every failure clears the result, which is then returned.
- Harness.OverlapsManyMerges, Harness.OverlapsManyInitValueEmpties and Harness.OverlapsManyOversizeMerges are stated for the five earlier assignments followed by the covering one, not as one literal list of six.
