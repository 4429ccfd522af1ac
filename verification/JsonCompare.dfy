/**
 What cJSON_Compare decides about two values: equality of meanings, where an object means a map,
 exactly for values whose repeated keys do not contradict each other.
 */
module JsonCompare {
  import opened Options
  import opened JsonTree

  const CIRCULAR_LIMIT: nat := 10000

  /** 2^-52, the distance from 1.0 to the next double. */
  const DBL_EPSILON: real := 1.0 / 4503599627370496.0

  function Abs(v: real): real {
    if v < 0.0 then -v else v
  }

  /** compare_double. */
  predicate CloseTo(a: real, b: real) {
    var maxVal := if Abs(a) > Abs(b) then Abs(a) else Abs(b);
    Abs(a - b) <= maxVal * DBL_EPSILON
  }

  /** Two numbers are close if they differ by at most 2^-52 of one of them. */
  lemma CloseToExactly(a: real, b: real)
    ensures var unit := 4503599627370496.0;
            var apart := if a < b then b - a else a - b;
            CloseTo(a, b) <==> apart * unit <= (if a < 0.0 then -a else a) || apart * unit <= (if b < 0.0 then -b else b)
  {
  }

  /** get_object_item: the first member whose key matches. */
  function Lookup(members: seq<Member>, key: seq<byte>, caseSensitive: bool): (item: Option<Json>)
    ensures item.Some? ==> Weight(item.value) < MembersWeight(members)
  {
    if members == [] then None
    else if Fold(members[0].key, caseSensitive) == Fold(key, caseSensitive) then Some(members[0].item)
    else Lookup(members[1..], key, caseSensitive)
  }

  function Weight(j: Json): (w: nat)
    ensures w > 0
    decreases j, 1
  {
    match j
    case Array(items) => 1 + ItemsWeight(items)
    case Object(members) => 1 + MembersWeight(members)
    case _ => 1
  }

  function ItemsWeight(items: seq<Json>): nat
    decreases items, 0
  {
    if items == [] then 0 else 1 + Weight(items[0]) + ItemsWeight(items[1..])
  }

  function MembersWeight(members: seq<Member>): nat
    decreases members, 0
  {
    if members == [] then 0 else 1 + Weight(members[0].item) + MembersWeight(members[1..])
  }

  // ----- the comparison -----

  predicate Same(a: Json, b: Json, caseSensitive: bool)
    decreases Weight(a) + Weight(b)
  {
    match (a, b)
    case (Null, Null) => true
    case (Bool(x), Bool(y)) => x == y
    case (Number(x), Number(y)) => CloseTo(x, y)
    case (String(x), String(y)) => x == y
    case (Array(xs), Array(ys)) => SameItems(xs, ys, caseSensitive)
    case (Object(ms), Object(ns)) => Covered(ms, ns, caseSensitive) && Covered(ns, ms, caseSensitive)
    case _ => false
  }

  predicate SameItems(xs: seq<Json>, ys: seq<Json>, caseSensitive: bool)
    decreases ItemsWeight(xs) + ItemsWeight(ys)
  {
    if xs == [] || ys == [] then xs == ys
    else Same(xs[0], ys[0], caseSensitive) && SameItems(xs[1..], ys[1..], caseSensitive)
  }

  /** Every member of `ms` is the same as what `ns` holds under its key. */
  predicate Covered(ms: seq<Member>, ns: seq<Member>, caseSensitive: bool)
    decreases MembersWeight(ms) + MembersWeight(ns)
  {
    ms == [] ||
    (match Lookup(ns, ms[0].key, caseSensitive)
     case None => false
     case Some(item) => Same(ms[0].item, item, caseSensitive) && Covered(ms[1..], ns, caseSensitive))
  }

  // ----- what a tree means -----

  datatype Meaning =
    | NullMeaning
    | BoolMeaning(value: bool)
    | NumberMeaning(number: real)
    | StringMeaning(text: seq<byte>)
    | ArrayMeaning(items: seq<Meaning>)
    | ObjectMeaning(members: map<seq<byte>, Meaning>)

  /** An object means the map from each key to its first value. */
  function MeaningOf(j: Json, caseSensitive: bool): Meaning
    decreases j, 1
  {
    match j
    case Null => NullMeaning
    case Bool(b) => BoolMeaning(b)
    case Number(v) => NumberMeaning(v)
    case String(t) => StringMeaning(t)
    case Array(items) => ArrayMeaning(ItemsMeaning(items, caseSensitive))
    case Object(members) => ObjectMeaning(MapMeaning(members, caseSensitive))
  }

  function ItemsMeaning(items: seq<Json>, caseSensitive: bool): (ms: seq<Meaning>)
    ensures |ms| == |items|
    decreases items, 0
  {
    if items == [] then [] else [MeaningOf(items[0], caseSensitive)] + ItemsMeaning(items[1..], caseSensitive)
  }

  function MapMeaning(members: seq<Member>, caseSensitive: bool): map<seq<byte>, Meaning>
    decreases members, 0
  {
    if members == [] then map[]
    else MapMeaning(members[1..], caseSensitive)
         [Fold(members[0].key, caseSensitive) := MeaningOf(members[0].item, caseSensitive)]
  }

  /** No object repeats a key with a value of another meaning than the first one has. */
  predicate Coherent(j: Json, caseSensitive: bool)
    decreases j, 1
  {
    match j
    case Array(items) => CoherentItems(items, caseSensitive)
    case Object(members) =>
      CoherentMembers(members, caseSensitive) && Agrees(members, MapMeaning(members, caseSensitive), caseSensitive)
    case _ => true
  }

  predicate CoherentItems(items: seq<Json>, caseSensitive: bool)
    decreases items, 0
  {
    items == [] || (Coherent(items[0], caseSensitive) && CoherentItems(items[1..], caseSensitive))
  }

  predicate CoherentMembers(members: seq<Member>, caseSensitive: bool)
    decreases members, 0
  {
    members == [] || (Coherent(members[0].item, caseSensitive) && CoherentMembers(members[1..], caseSensitive))
  }

  /** Every member means what the map says under its key. */
  predicate Agrees(members: seq<Member>, m: map<seq<byte>, Meaning>, caseSensitive: bool) {
    forall i :: 0 <= i < |members| ==>
      var key := Fold(members[i].key, caseSensitive);
      key in m && m[key] == MeaningOf(members[i].item, caseSensitive)
  }

  /** The tolerance of compare_double never blurs two ints. */
  lemma IntsCloseOnlyIfEqual(a: real, b: real)
    requires IntValued(a) && IntValued(b)
    ensures CloseTo(a, b) <==> a == b
  {
    var x, y := ValueInt(a), ValueInt(b);
    if x != y {
      assert Abs(a - b) >= 1.0;
    }
  }

  lemma {:induction false} LookupMeans(members: seq<Member>, key: seq<byte>, caseSensitive: bool)
    requires IntMembers(members)
    ensures var m, k, item := MapMeaning(members, caseSensitive), Fold(key, caseSensitive), Lookup(members, key, caseSensitive);
            (item.Some? <==> k in m) && (item.Some? ==> MeaningOf(item.value, caseSensitive) == m[k] && IntNumbers(item.value))
    ensures CoherentMembers(members, caseSensitive) && Lookup(members, key, caseSensitive).Some?
            ==> Coherent(Lookup(members, key, caseSensitive).value, caseSensitive)
  {
    if members != [] { LookupMeans(members[1..], key, caseSensitive); }
  }

  /** Comparison is equality of meanings on coherent trees, and fails on all others. */
  lemma {:induction false} SameIsEqualMeaning(a: Json, b: Json, caseSensitive: bool)
    requires IntNumbers(a) && IntNumbers(b)
    ensures Same(a, b, caseSensitive)
       <==> Coherent(a, caseSensitive) && Coherent(b, caseSensitive)
            && MeaningOf(a, caseSensitive) == MeaningOf(b, caseSensitive)
    decreases Weight(a) + Weight(b)
  {
    match (a, b)
    case (Number(x), Number(y)) => IntsCloseOnlyIfEqual(x, y);
    case (Array(xs), Array(ys)) => SameItemsMean(xs, ys, caseSensitive);
    case (Object(ms), Object(ns)) => SameMembersMean(ms, ns, caseSensitive);
    case _ =>
  }

  lemma {:induction false} SameItemsMean(xs: seq<Json>, ys: seq<Json>, caseSensitive: bool)
    requires IntItems(xs) && IntItems(ys)
    ensures SameItems(xs, ys, caseSensitive)
       <==> CoherentItems(xs, caseSensitive) && CoherentItems(ys, caseSensitive)
            && ItemsMeaning(xs, caseSensitive) == ItemsMeaning(ys, caseSensitive)
    decreases ItemsWeight(xs) + ItemsWeight(ys)
  {
    if xs != [] && ys != [] {
      SameIsEqualMeaning(xs[0], ys[0], caseSensitive);
      SameItemsMean(xs[1..], ys[1..], caseSensitive);
      var ms, ns := ItemsMeaning(xs, caseSensitive), ItemsMeaning(ys, caseSensitive);
      assert ms[0] == MeaningOf(xs[0], caseSensitive) && ms[1..] == ItemsMeaning(xs[1..], caseSensitive);
      assert ns[0] == MeaningOf(ys[0], caseSensitive) && ns[1..] == ItemsMeaning(ys[1..], caseSensitive);
    }
  }

  /** `ms` is covered by `ns` exactly when it is coherent item by item and agrees with the map of `ns`. */
  lemma {:induction false} CoveredMeans(ms: seq<Member>, ns: seq<Member>, caseSensitive: bool)
    requires IntMembers(ms) && IntMembers(ns)
    ensures Covered(ms, ns, caseSensitive) ==>
              CoherentMembers(ms, caseSensitive) && Agrees(ms, MapMeaning(ns, caseSensitive), caseSensitive)
    ensures CoherentMembers(ms, caseSensitive) && CoherentMembers(ns, caseSensitive) ==>
              (Agrees(ms, MapMeaning(ns, caseSensitive), caseSensitive) ==> Covered(ms, ns, caseSensitive))
    decreases MembersWeight(ms) + MembersWeight(ns)
  {
    if ms != [] {
      var m := MapMeaning(ns, caseSensitive);
      LookupMeans(ns, ms[0].key, caseSensitive);
      AgreesSplit(ms, m, caseSensitive);
      match Lookup(ns, ms[0].key, caseSensitive)
      case None =>
      case Some(item) =>
        SameIsEqualMeaning(ms[0].item, item, caseSensitive);
        CoveredMeans(ms[1..], ns, caseSensitive);
    }
  }

  lemma AgreesSplit(ms: seq<Member>, m: map<seq<byte>, Meaning>, caseSensitive: bool)
    requires ms != []
    ensures var key := Fold(ms[0].key, caseSensitive);
            Agrees(ms, m, caseSensitive) <==>
            (key in m && m[key] == MeaningOf(ms[0].item, caseSensitive) && Agrees(ms[1..], m, caseSensitive))
  {
  }

  lemma {:induction false} MapKeys(ms: seq<Member>, caseSensitive: bool)
    ensures forall k :: k in MapMeaning(ms, caseSensitive) <==>
              exists i :: 0 <= i < |ms| && Fold(ms[i].key, caseSensitive) == k
    ensures forall k :: k in MapMeaning(ms, caseSensitive) ==>
              exists i :: 0 <= i < |ms| && Fold(ms[i].key, caseSensitive) == k
                          && MeaningOf(ms[i].item, caseSensitive) == MapMeaning(ms, caseSensitive)[k]
  {
    hide MeaningOf, Fold;
    if ms != [] {
      MapKeys(ms[1..], caseSensitive);
      assert forall i :: 0 <= i < |ms| - 1 ==> ms[1..][i] == ms[i + 1];
      assert forall i :: 1 <= i < |ms| ==> ms[i] == ms[1..][i - 1];
    }
  }

  /** Two objects that agree with each other's maps have the same map. */
  lemma AgreementIsEquality(ms: seq<Member>, ns: seq<Member>, caseSensitive: bool)
    ensures var m, n := MapMeaning(ms, caseSensitive), MapMeaning(ns, caseSensitive);
            (Agrees(ms, n, caseSensitive) && Agrees(ns, m, caseSensitive)) <==>
            (m == n && Agrees(ms, m, caseSensitive) && Agrees(ns, n, caseSensitive))
  {
    hide MeaningOf, Fold, MapMeaning;
    MapKeys(ms, caseSensitive);
    MapKeys(ns, caseSensitive);
  }

  lemma {:induction false} SameMembersMean(ms: seq<Member>, ns: seq<Member>, caseSensitive: bool)
    requires IntMembers(ms) && IntMembers(ns)
    ensures Same(Object(ms), Object(ns), caseSensitive)
       <==> Coherent(Object(ms), caseSensitive) && Coherent(Object(ns), caseSensitive)
            && MapMeaning(ms, caseSensitive) == MapMeaning(ns, caseSensitive)
    decreases MembersWeight(ms) + MembersWeight(ns) + 1
  {
    hide Agrees, MapMeaning, Covered;
    CoveredMeans(ms, ns, caseSensitive);
    CoveredMeans(ns, ms, caseSensitive);
    AgreementIsEquality(ms, ns, caseSensitive);
  }

  /** Comparison is symmetric, on all trees. */
  lemma {:induction false} SameIsSymmetric(a: Json, b: Json, caseSensitive: bool)
    ensures Same(a, b, caseSensitive) <==> Same(b, a, caseSensitive)
    decreases Weight(a) + Weight(b)
  {
    match (a, b)
    case (Array(xs), Array(ys)) => SameItemsSymmetric(xs, ys, caseSensitive);
    case _ =>
  }

  lemma {:induction false} SameItemsSymmetric(xs: seq<Json>, ys: seq<Json>, caseSensitive: bool)
    ensures SameItems(xs, ys, caseSensitive) <==> SameItems(ys, xs, caseSensitive)
    decreases ItemsWeight(xs) + ItemsWeight(ys)
  {
    if xs != [] && ys != [] {
      SameIsSymmetric(xs[0], ys[0], caseSensitive);
      SameItemsSymmetric(xs[1..], ys[1..], caseSensitive);
    }
  }

  /** On int-numbered trees it is transitive; the tolerance for other numbers is not. */
  lemma SameIsTransitive(a: Json, b: Json, c: Json, caseSensitive: bool)
    requires IntNumbers(a) && IntNumbers(b) && IntNumbers(c)
    requires Same(a, b, caseSensitive) && Same(b, c, caseSensitive)
    ensures Same(a, c, caseSensitive)
  {
    SameIsEqualMeaning(a, b, caseSensitive);
    SameIsEqualMeaning(b, c, caseSensitive);
    SameIsEqualMeaning(a, c, caseSensitive);
  }

  /** Numbers that are close to a third one need not be close to each other. */
  lemma ToleranceIsNotTransitive()
    ensures var e := DBL_EPSILON;
            Same(Number(1.0), Number(1.0 + e), true) && Same(Number(1.0 + e), Number(1.0 + e + e), true)
            && !Same(Number(1.0), Number(1.0 + e + e), true)
  {
  }

  // ----- on which numbers comparison is transitive -----

  ghost predicate NumbersIn(j: Json, numbers: iset<real>)
    decreases j, 1
  {
    match j
    case Number(v) => v in numbers
    case Array(items) => ItemsIn(items, numbers)
    case Object(members) => MembersIn(members, numbers)
    case _ => true
  }

  ghost predicate ItemsIn(items: seq<Json>, numbers: iset<real>)
    decreases items, 0
  {
    items == [] || (NumbersIn(items[0], numbers) && ItemsIn(items[1..], numbers))
  }

  ghost predicate MembersIn(members: seq<Member>, numbers: iset<real>)
    decreases members, 0
  {
    members == [] || (NumbersIn(members[0].item, numbers) && MembersIn(members[1..], numbers))
  }

  ghost predicate ToleranceTransits(numbers: iset<real>) {
    forall x, y, z :: x in numbers && y in numbers && z in numbers && CloseTo(x, y) && CloseTo(y, z) ==> CloseTo(x, z)
  }

  ghost predicate ComparisonTransits(numbers: iset<real>, caseSensitive: bool) {
    forall a, b, c ::
      (NumbersIn(a, numbers) && NumbersIn(b, numbers) && NumbersIn(c, numbers)
       && Same(a, b, caseSensitive) && Same(b, c, caseSensitive)) ==>
        Same(a, c, caseSensitive)
  }

  lemma {:induction false} SameTransits(a: Json, b: Json, c: Json, numbers: iset<real>, caseSensitive: bool)
    requires ToleranceTransits(numbers) && NumbersIn(a, numbers) && NumbersIn(b, numbers) && NumbersIn(c, numbers)
    requires Same(a, b, caseSensitive) && Same(b, c, caseSensitive)
    ensures Same(a, c, caseSensitive)
    decreases Weight(a) + Weight(b) + Weight(c)
  {
    hide Covered, SameItems, CloseTo;
    match a
    case Array(xs) => ItemsTransit(xs, b.items, c.items, numbers, caseSensitive);
    case Object(ms) =>
      CoveredTransits(ms, b.members, c.members, numbers, caseSensitive);
      CoveredTransits(c.members, b.members, ms, numbers, caseSensitive);
    case _ =>
  }

  lemma {:induction false} ItemsTransit(xs: seq<Json>, ys: seq<Json>, zs: seq<Json>,
                                        numbers: iset<real>, caseSensitive: bool)
    requires ToleranceTransits(numbers) && ItemsIn(xs, numbers) && ItemsIn(ys, numbers) && ItemsIn(zs, numbers)
    requires SameItems(xs, ys, caseSensitive) && SameItems(ys, zs, caseSensitive)
    ensures SameItems(xs, zs, caseSensitive)
    decreases ItemsWeight(xs) + ItemsWeight(ys) + ItemsWeight(zs)
  {
    hide Same, NumbersIn, Weight, ToleranceTransits;
    if xs != [] && ys != [] && zs != [] {
      SameTransits(xs[0], ys[0], zs[0], numbers, caseSensitive);
      ItemsTransit(xs[1..], ys[1..], zs[1..], numbers, caseSensitive);
    }
  }

  lemma {:induction false} CoveredTransits(ms: seq<Member>, ns: seq<Member>, os: seq<Member>,
                                           numbers: iset<real>, caseSensitive: bool)
    requires ToleranceTransits(numbers) && MembersIn(ms, numbers) && MembersIn(ns, numbers) && MembersIn(os, numbers)
    requires Covered(ms, ns, caseSensitive) && Covered(ns, os, caseSensitive)
    ensures Covered(ms, os, caseSensitive)
    decreases MembersWeight(ms) + MembersWeight(ns) + MembersWeight(os)
  {
    hide Same, NumbersIn, Weight, Lookup, ToleranceTransits;
    if ms != [] {
      var m := ms[0];
      var n := Lookup(ns, m.key, caseSensitive).value;
      CoversLookup(ns, os, m.key, caseSensitive);
      var o := Lookup(os, m.key, caseSensitive).value;
      LookedUpIn(ns, m.key, numbers, caseSensitive);
      LookedUpIn(os, m.key, numbers, caseSensitive);
      SameTransits(m.item, n, o, numbers, caseSensitive);
      CoveredTransits(ms[1..], ns, os, numbers, caseSensitive);
    }
  }

  /** What is found in a covered list is the same as what is found in the covering one. */
  lemma {:induction false} CoversLookup(ns: seq<Member>, os: seq<Member>, key: seq<byte>, caseSensitive: bool)
    requires Covered(ns, os, caseSensitive) && Lookup(ns, key, caseSensitive).Some?
    ensures Lookup(os, key, caseSensitive).Some?
    ensures Same(Lookup(ns, key, caseSensitive).value, Lookup(os, key, caseSensitive).value, caseSensitive)
  {
    hide Same, Fold;
    if Fold(ns[0].key, caseSensitive) == Fold(key, caseSensitive) {
      LookupByFold(os, ns[0].key, key, caseSensitive);
    } else {
      CoversLookup(ns[1..], os, key, caseSensitive);
    }
  }

  lemma {:induction false} LookupByFold(members: seq<Member>, a: seq<byte>, b: seq<byte>, caseSensitive: bool)
    requires Fold(a, caseSensitive) == Fold(b, caseSensitive)
    ensures Lookup(members, a, caseSensitive) == Lookup(members, b, caseSensitive)
  {
    hide Fold;
    if members != [] { LookupByFold(members[1..], a, b, caseSensitive); }
  }

  lemma {:induction false} LookedUpIn(members: seq<Member>, key: seq<byte>, numbers: iset<real>, caseSensitive: bool)
    requires MembersIn(members, numbers) && Lookup(members, key, caseSensitive).Some?
    ensures var item := Lookup(members, key, caseSensitive).value;
            NumbersIn(item, numbers) && Weight(item) < MembersWeight(members)
  {
    hide NumbersIn, Weight, Fold;
    if Fold(members[0].key, caseSensitive) != Fold(key, caseSensitive) {
      LookedUpIn(members[1..], key, numbers, caseSensitive);
    }
  }

  /** Comparing trees with numbers from a set is transitive exactly if the tolerance is, on that set. */
  lemma TransitiveExactly(numbers: iset<real>, caseSensitive: bool)
    ensures ComparisonTransits(numbers, caseSensitive) <==> ToleranceTransits(numbers)
  {
    if ToleranceTransits(numbers) {
      hide Same, NumbersIn, ToleranceTransits;
      forall a, b, c | NumbersIn(a, numbers) && NumbersIn(b, numbers) && NumbersIn(c, numbers)
                       && Same(a, b, caseSensitive) && Same(b, c, caseSensitive)
        ensures Same(a, c, caseSensitive)
      {
        SameTransits(a, b, c, numbers, caseSensitive);
      }
    } else {
      NumbersShow(numbers, caseSensitive);
    }
  }

  lemma NumbersShow(numbers: iset<real>, caseSensitive: bool)
    requires !ToleranceTransits(numbers)
    ensures !ComparisonTransits(numbers, caseSensitive)
  {
    var x, y, z :|
      x in numbers && y in numbers && z in numbers && CloseTo(x, y) && CloseTo(y, z) && !CloseTo(x, z);
    var a, b, c := Number(x), Number(y), Number(z);
    assert NumbersIn(a, numbers) && NumbersIn(b, numbers) && NumbersIn(c, numbers);
    assert Same(a, b, caseSensitive) && Same(b, c, caseSensitive) && !Same(a, c, caseSensitive);
  }

  // ----- trees without repeated keys -----

  predicate DistinctKeys(j: Json, caseSensitive: bool)
    decreases j, 1
  {
    match j
    case Array(items) => DistinctItems(items, caseSensitive)
    case Object(members) => DistinctMembers(members, caseSensitive)
    case _ => true
  }

  predicate DistinctItems(items: seq<Json>, caseSensitive: bool)
    decreases items, 0
  {
    items == [] || (DistinctKeys(items[0], caseSensitive) && DistinctItems(items[1..], caseSensitive))
  }

  predicate DistinctMembers(members: seq<Member>, caseSensitive: bool)
    decreases members, 0
  {
    members == [] ||
    (Lookup(members[1..], members[0].key, caseSensitive).None?
     && DistinctKeys(members[0].item, caseSensitive) && DistinctMembers(members[1..], caseSensitive))
  }

  lemma {:induction false} DistinctIsCoherent(j: Json, caseSensitive: bool)
    requires IntNumbers(j) && DistinctKeys(j, caseSensitive)
    ensures Coherent(j, caseSensitive)
    decreases j, 1
  {
    match j
    case Array(items) => DistinctItemsCohere(items, caseSensitive);
    case Object(members) => DistinctMembersCohere(members, caseSensitive);
    case _ =>
  }

  lemma {:induction false} DistinctItemsCohere(items: seq<Json>, caseSensitive: bool)
    requires IntItems(items) && DistinctItems(items, caseSensitive)
    ensures CoherentItems(items, caseSensitive)
    decreases items, 0
  {
    if items != [] {
      DistinctIsCoherent(items[0], caseSensitive);
      DistinctItemsCohere(items[1..], caseSensitive);
    }
  }

  lemma {:induction false} DistinctMembersCohere(members: seq<Member>, caseSensitive: bool)
    requires IntMembers(members) && DistinctMembers(members, caseSensitive)
    ensures CoherentMembers(members, caseSensitive)
    ensures Agrees(members, MapMeaning(members, caseSensitive), caseSensitive)
    decreases members, 0
  {
    if members != [] {
      var rest, m := MapMeaning(members[1..], caseSensitive), MapMeaning(members, caseSensitive);
      DistinctIsCoherent(members[0].item, caseSensitive);
      DistinctMembersCohere(members[1..], caseSensitive);
      LookupMeans(members[1..], members[0].key, caseSensitive);
      AgreesSplit(members, m, caseSensitive);
      assert Agrees(members[1..], m, caseSensitive);
    }
  }

  /** On int-numbered trees with distinct keys, comparison is equality up to the order of members. */
  lemma CompareIsUnorderedEquality(a: Json, b: Json)
    requires IntNumbers(a) && IntNumbers(b) && DistinctKeys(a, true) && DistinctKeys(b, true)
    ensures Same(a, b, true) <==> MeaningOf(a, true) == MeaningOf(b, true)
  {
    SameIsEqualMeaning(a, b, true);
    DistinctIsCoherent(a, true);
    DistinctIsCoherent(b, true);
  }

  // ----- how deep a value is -----

  /** The longest chain of child links; empty containers add nothing. */
  function Height(j: Json): nat
    decreases j, 1
  {
    match j
    case Array(items) => ItemsHeight(items)
    case Object(members) => MembersHeight(members)
    case _ => 0
  }

  function ItemsHeight(items: seq<Json>): nat
    decreases items, 0
  {
    if items == [] then 0 else Max(1 + Height(items[0]), ItemsHeight(items[1..]))
  }

  function MembersHeight(members: seq<Member>): nat
    decreases members, 0
  {
    if members == [] then 0 else Max(1 + Height(members[0].item), MembersHeight(members[1..]))
  }

  lemma {:induction false} DeepArrayHeight(n: nat)
    requires n > 0
    ensures Height(DeepArray(n)) == n - 1
  {
    if n > 1 {
      DeepArrayHeight(n - 1);
      var items := [DeepArray(n - 1)];
      assert items[1..] == [] && ItemsHeight(items) == n - 1;
    }
  }

  /** A tree with a contradictory key has a value that is not even the same as itself. */
  lemma ContradictoryKeyIsNotReflexive()
    ensures var j := Object([Member([], Null), Member([], Bool(true))]);
            Height(j) <= CIRCULAR_LIMIT && !Same(j, j, true)
  {
  }
}
