/**
 cJSON trees on the heap: items whose child lists are well-formed at every level. Duplicating one
 gives a new tree of the same value, and comparing two of them is the comparison of their values.
 */
module JsonItems {
  import opened Options
  import opened JsonTree
  import opened JsonCompare
  import opened SiblingList

  // ----- trees of items -----

  /** The item and all below it: its own `next` and `prev` belong to the list it stands in. */
  ghost predicate IsTree(item: Item)
    reads item`child, item`children, item`repr, item.repr - {item}
    decreases item.repr
  {
    item in item.repr
    && (forall c :: c in item.children ==> c in item.repr && c != item)
    && item.IsList()
    && (item.children != [] ==> item.payload.ArrayItem? || item.payload.ObjectItem?)
    && (forall i, j :: 0 <= i < j < |item.children| ==> item.children[i].repr !! item.children[j].repr)
    && forall c :: c in item.children ==>
         c.repr <= item.repr - {item} && IsTree(c) && (item.payload.ObjectItem? ==> c.key.Some?)
  }

  /** The value the tree stands for. */
  ghost function TreeOf(item: Item): Json
    requires IsTree(item)
    reads item`child, item`children, item`repr, item.repr - {item}
    decreases item.repr, 2, 0
  {
    match item.payload
    case NullItem => Null
    case BoolItem(b) => Bool(b)
    case NumberItem(v) => Number(v)
    case StringItem(text) => String(text)
    case ArrayItem => Array(Items(item, 0))
    case ObjectItem => Object(Members(item, 0))
  }

  /** The values of the children from `i` on. */
  ghost function Items(item: Item, i: nat): (js: seq<Json>)
    requires IsTree(item) && i <= |item.children|
    reads item`child, item`children, item`repr, item.repr - {item}
    ensures |js| == |item.children| - i
    decreases item.repr, 1, |item.children| - i
  {
    if i == |item.children| then [] else [TreeOf(item.children[i])] + Items(item, i + 1)
  }

  ghost function Members(item: Item, i: nat): (ms: seq<Member>)
    requires IsTree(item) && i <= |item.children| && item.payload.ObjectItem?
    reads item`child, item`children, item`repr, item.repr - {item}
    ensures |ms| == |item.children| - i
    decreases item.repr, 1, |item.children| - i
  {
    if i == |item.children| then []
    else [Member(item.children[i].key.value, TreeOf(item.children[i]))] + Members(item, i + 1)
  }

  /** The child list as the loops walk it. */
  lemma ChildAt(item: Item, k: nat)
    requires IsTree(item) && k < |item.children|
    ensures var c := item.children[k];
            && IsTree(c) && c in item.repr && c != item && c.repr < item.repr
            && c.next == (if k + 1 < |item.children| then item.children[k + 1] else null)
            && (item.payload.ObjectItem? ==> c.key.Some?)
    ensures Items(item, k) == [TreeOf(item.children[k])] + Items(item, k + 1)
  {
  }

  lemma FirstChild(item: Item)
    requires IsTree(item)
    ensures item in item.repr && item.child == if item.children == [] then null else item.children[0]
    ensures item.children != [] ==> item.payload.ArrayItem? || item.payload.ObjectItem?
    ensures item.payload.ObjectItem? ==> forall c :: c in item.children ==> c.key.Some?
  {
  }

  /** What makes an item a tree, over its children. */
  lemma TreeParts(item: Item)
    requires IsTree(item)
    ensures item in item.repr && item.IsList()
    ensures forall c :: c in item.children ==>
              c in item.repr && c in c.repr && c != item && c.repr <= item.repr - {item} && IsTree(c)
    ensures forall i, j :: 0 <= i < j < |item.children| ==> item.children[i].repr !! item.children[j].repr
  {
  }

  lemma {:induction false} ItemsAt(item: Item, i: nat, k: nat)
    requires IsTree(item) && i <= k < |item.children|
    ensures Items(item, i)[k - i] == TreeOf(item.children[k])
    decreases k - i
  {
    hide TreeOf;
    if i < k { ItemsAt(item, i + 1, k); }
  }

  lemma AllItemsAt(item: Item)
    requires IsTree(item)
    ensures forall c :: c in item.children ==> IsTree(c)
    ensures forall k :: 0 <= k < |item.children| ==> Items(item, 0)[k] == TreeOf(item.children[k])
  {
    hide TreeOf, IsTree, Items;
    TreeParts(item);
    forall k | 0 <= k < |item.children| ensures Items(item, 0)[k] == TreeOf(item.children[k]) {
      ItemsAt(item, 0, k);
    }
  }

  // ----- rows of trees -----

  /** Trees with these values, all inside `below` and none with an item in common. */
  ghost predicate Row(cs: seq<Item>, values: seq<Json>, below: set<Item>)
    reads below
  {
    |cs| == |values|
    && (forall c :: c in cs ==> c in below && c in c.repr && c.repr <= below && IsTree(c))
    && (forall k :: 0 <= k < |cs| ==> TreeOf(cs[k]) == values[k])
    && forall i, j :: 0 <= i < j < |cs| ==> cs[i].repr !! cs[j].repr
  }

  lemma RowOfTree(item: Item)
    requires IsTree(item)
    ensures item in item.repr && item.IsList() && Row(item.children, Items(item, 0), item.repr - {item})
  {
    hide TreeOf, Items;
    TreeParts(item);
    AllItemsAt(item);
  }

  lemma TreeOfRow(item: Item, values: seq<Json>)
    requires item in item.repr && item.IsList() && Row(item.children, values, item.repr - {item})
    requires item.children != [] ==> item.payload.ArrayItem? || item.payload.ObjectItem?
    requires item.payload.ObjectItem? ==> forall c :: c in item.children ==> c.key.Some?
    ensures IsTree(item) && Items(item, 0) == values
  {
    hide TreeOf, Items;
    AllItemsAt(item);
    ghost var items := Items(item, 0);
    assert forall k :: 0 <= k < |items| ==> items[k] == values[k];
  }

  lemma RowOfOne(c: Item)
    requires IsTree(c)
    ensures c in c.repr && Row([c], [TreeOf(c)], c.repr)
  {
    hide TreeOf;
    TreeParts(c);
  }

  lemma RowInside(cs: seq<Item>, values: seq<Json>, below: set<Item>, more: set<Item>)
    requires Row(cs, values, below) && below <= more
    ensures Row(cs, values, more)
  {
    hide IsTree, TreeOf;
  }

  /** Two rows with nothing in common make one. */
  lemma RowConcat(a: seq<Item>, u: seq<Json>, b: seq<Item>, v: seq<Json>, below: set<Item>)
    requires Row(a, u, below) && Row(b, v, below)
    requires forall c, d :: c in a && d in b ==> c.repr !! d.repr
    ensures Row(a + b, u + v, below)
  {
    hide IsTree, TreeOf;
  }

  /** Both ends of a row. */
  lemma RowSplit(cs: seq<Item>, values: seq<Json>, below: set<Item>, at: nat)
    requires Row(cs, values, below) && at <= |cs|
    ensures Row(cs[..at], values[..at], below) && Row(cs[at..], values[at..], below)
    ensures forall c, d :: c in cs[..at] && d in cs[at..] ==> c.repr !! d.repr
  {
    hide IsTree, TreeOf;
  }

  /** A row inside one set has nothing in common with a row inside another. */
  lemma RowsApart(a: seq<Item>, u: seq<Json>, below: set<Item>, b: seq<Item>, v: seq<Json>, other: set<Item>)
    requires Row(a, u, below) && Row(b, v, other) && below !! other
    ensures forall c, d :: c in a && d in b ==> c.repr !! d.repr
  {
    hide IsTree, TreeOf;
  }

  /** The members of an object pair its children's keys with their values. */
  lemma {:induction false} MembersAt(item: Item, i: nat, k: nat)
    requires IsTree(item) && item.payload.ObjectItem? && i <= k < |item.children|
    ensures item.children[k].key.Some?
    ensures Members(item, i)[k - i] == Member(item.children[k].key.value, Items(item, i)[k - i])
    decreases k - i
  {
    hide TreeOf;
    if i < k {
      MembersAt(item, i + 1, k);
    }
  }

  // ----- duplicating -----

  lemma {:induction false} ItemsHeightWithin(values: seq<Json>, h: nat)
    ensures ItemsHeight(values) <= h <==> Fit(values, h)
  {
    hide Height;
    if values != [] {
      ItemsHeightWithin(values[1..], h);
      assert forall k :: 0 < k < |values| ==> values[k] == values[1..][k - 1];
    }
  }

  lemma {:induction false} MembersAreItems(item: Item, i: nat)
    requires IsTree(item) && item.payload.ObjectItem? && i <= |item.children|
    ensures MembersHeight(Members(item, i)) == ItemsHeight(Items(item, i))
    decreases |item.children| - i
  {
    hide TreeOf, Height;
    if i < |item.children| {
      MembersAreItems(item, i + 1);
      assert Members(item, i)[1..] == Members(item, i + 1) && Items(item, i)[1..] == Items(item, i + 1);
    }
  }

  /** Values that may stand one level below a tree of height `h`. */
  ghost predicate Fit(values: seq<Json>, h: int) {
    forall k :: 0 <= k < |values| ==> 1 + Height(values[k]) <= h
  }

  lemma FitStep(values: seq<Json>, k: nat, h: int)
    requires k < |values|
    ensures values[..k + 1] == values[..k] + [values[k]]
    ensures Fit(values[..k + 1], h) <==> Fit(values[..k], h) && 1 + Height(values[k]) <= h
    ensures Fit(values, h) ==> 1 + Height(values[k]) <= h
  {
    hide Height;
    var more := values[..k + 1];
    assert forall i :: 0 <= i < k ==> more[i] == values[..k][i];
    assert more[k] == values[k];
  }

  /** A tree is one level higher than its highest child. */
  lemma HeightWithin(item: Item, h: nat)
    requires IsTree(item)
    ensures Height(TreeOf(item)) <= h <==> Fit(Items(item, 0), h)
  {
    hide IsTree, Items;
    ItemsHeightWithin(Items(item, 0), h);
    if item.payload.ObjectItem? { MembersAreItems(item, 0); }
    if !item.payload.ArrayItem? && !item.payload.ObjectItem? { FirstChild(item); }
  }

  /** Trees of the same kind with the same keys and values below them have the same value. */
  lemma SameParts(a: Item, b: Item)
    requires IsTree(a) && IsTree(b) && a.payload == b.payload && Items(a, 0) == Items(b, 0)
    requires SameKeys(a.children, b.children)
    ensures TreeOf(a) == TreeOf(b)
  {
    hide IsTree, Items, Members;
    if a.payload.ObjectItem? { SameMembers(a, b, 0); }
  }

  lemma {:induction false} SameMembers(a: Item, b: Item, i: nat)
    requires IsTree(a) && IsTree(b) && a.payload.ObjectItem? && b.payload.ObjectItem?
    requires i <= |a.children| == |b.children| && Items(a, i) == Items(b, i)
    requires forall k :: 0 <= k < |a.children| ==> a.children[k].key == b.children[k].key
    ensures Members(a, i) == Members(b, i)
    decreases |a.children| - i
  {
    hide TreeOf, IsTree, Items;
    FirstChild(a);
    FirstChild(b);
    if i < |a.children| {
      ChildAt(a, i);
      ChildAt(b, i);
      assert Items(a, i)[1..] == Items(a, i + 1) && Items(b, i)[1..] == Items(b, i + 1);
      assert Items(a, i)[0] == Items(b, i)[0];
      SameMembers(a, b, i + 1);
    }
  }

  /** The list under `copy`, linked up to `last`; the first one's `prev` is open. */
  ghost predicate Chained(copy: Item, copies: seq<Item>, last: Item?)
    reads copy, copies
  {
    copy.IsDetached() && copy !in copies
    && (forall i, j :: 0 <= i < j < |copies| ==> copies[i] != copies[j])
    && copy.child == (if copies == [] then null else copies[0])
    && last == (if copies == [] then null else copies[|copies| - 1])
    && (last != null ==> last.next == null)
    && (forall i {:trigger copies[i].next} :: 0 <= i < |copies| - 1 ==> copies[i].next == copies[i + 1])
    && (forall i {:trigger copies[i].prev} :: 0 < i < |copies| ==> copies[i].prev == copies[i - 1])
  }

  /** The copies made so far, with their values. */
  ghost predicate Growing(copy: Item, copies: seq<Item>, values: seq<Json>, below: set<Item>, last: Item?)
    reads copy, copies, below
  {
    copy !in below && Row(copies, values, below) && Chained(copy, copies, last)
  }

  lemma NothingCopied(copy: Item)
    requires copy.IsDetached() && copy.child == null
    ensures Growing(copy, [], [], {}, null)
  {
  }

  /** The copies carry the keys of the first originals. */
  ghost predicate SameKeys(copies: seq<Item>, originals: seq<Item>) {
    |copies| <= |originals| && forall i :: 0 <= i < |copies| ==> copies[i].key == originals[i].key
  }

  lemma NothingFits(originals: seq<Item>, values: seq<Json>)
    ensures SameKeys([], originals) && forall h: int :: Fit(values[..0], h)
  {
  }

  lemma SameKeysMore(copies: seq<Item>, originals: seq<Item>, c: Item)
    requires SameKeys(copies, originals) && |copies| < |originals| && c.key == originals[|copies|].key
    ensures SameKeys(copies + [c], originals)
  {
  }

  lemma SameKeysKeyed(copies: seq<Item>, originals: seq<Item>)
    requires SameKeys(copies, originals) && forall c :: c in originals ==> c.key.Some?
    ensures forall c :: c in copies ==> c.key.Some?
  {
  }

  /** The two links of a new last child. */
  method Link(copy: Item, ghost copies: seq<Item>, last: Item?, newChild: Item)
    requires Chained(copy, copies, last) && newChild !in copies && newChild != copy && newChild.next == null
    modifies copy`child, Given(last)`next, newChild`prev
    ensures Chained(copy, copies + [newChild], newChild)
  {
    if last != null {
      last.next := newChild;
      newChild.prev := last;
    } else {
      copy.child := newChild;
    }
  }

  /** Links one more child; what its siblings stand for does not change. */
  method Append(copy: Item, ghost copies: seq<Item>, ghost values: seq<Json>, ghost below: set<Item>,
                last: Item?, newChild: Item)
    requires Growing(copy, copies, values, below, last)
    requires IsTree(newChild) && newChild.IsDetached() && newChild.repr !! below && copy !in newChild.repr
    modifies copy`child, Given(last)`next, newChild`prev
    ensures Growing(copy, copies + [newChild], values + [old(TreeOf(newChild))], below + newChild.repr, newChild)
  {
    hide TreeOf, IsTree, Item.IsList, Row, Chained;
    RowMembers(copies, values, below);
    ChainEnd(copy, copies, last);
    TreeParts(newChild);
    Link(copy, copies, last, newChild);
    assert forall c :: c in copies ==> IsTree(c) && TreeOf(c) == old(TreeOf(c));
    assert IsTree(newChild) && TreeOf(newChild) == old(TreeOf(newChild));
    RowFacts(copies, values, below);
    AppendToRow(copies, values, below, newChild);
  }

  lemma ChainEnd(copy: Item, copies: seq<Item>, last: Item?)
    requires Chained(copy, copies, last)
    ensures last != null ==> last in copies
  {
  }

  /** What a row is, for use before and after an edit. */
  lemma RowMembers(cs: seq<Item>, values: seq<Json>, below: set<Item>)
    requires Row(cs, values, below)
    ensures |cs| == |values| && forall c :: c in cs ==> c in below && c in c.repr && c.repr <= below && IsTree(c)
    ensures forall k :: 0 <= k < |cs| ==> TreeOf(cs[k]) == values[k]
    ensures forall i, j :: 0 <= i < j < |cs| ==> cs[i].repr !! cs[j].repr
    ensures forall c, d :: c in cs && d in cs ==> d !in c.repr - {c}
  {
    hide IsTree, TreeOf;
    forall c, d | c in cs && d in cs ensures d !in c.repr - {c} {
      var i :| 0 <= i < |cs| && cs[i] == c;
      var j :| 0 <= j < |cs| && cs[j] == d;
      assert d in d.repr;
    }
  }

  lemma RowFacts(cs: seq<Item>, values: seq<Json>, below: set<Item>)
    requires |cs| == |values| && forall c :: c in cs ==> c in below && c in c.repr && c.repr <= below && IsTree(c)
    requires forall k :: 0 <= k < |cs| ==> TreeOf(cs[k]) == values[k]
    requires forall i, j :: 0 <= i < j < |cs| ==> cs[i].repr !! cs[j].repr
    ensures Row(cs, values, below)
  {
    hide IsTree, TreeOf;
  }

  lemma AppendToRow(cs: seq<Item>, values: seq<Json>, below: set<Item>, c: Item)
    requires Row(cs, values, below) && IsTree(c) && c.repr !! below
    ensures Row(cs + [c], values + [TreeOf(c)], below + c.repr)
  {
    hide Row;
    RowOfOne(c);
    RowsApart(cs, values, below, [c], [TreeOf(c)], c.repr);
    RowInside(cs, values, below, below + c.repr);
    RowInside([c], [TreeOf(c)], c.repr, below + c.repr);
    RowConcat(cs, values, [c], [TreeOf(c)], below + c.repr);
  }

  /** Closes the list at its first item and hands it to `copy`. */
  method Close(copy: Item, ghost copies: seq<Item>, ghost values: seq<Json>, ghost below: set<Item>, last: Item?)
    requires Growing(copy, copies, values, below, last)
    requires copies != [] ==> copy.payload.ArrayItem? || copy.payload.ObjectItem?
    requires copy.payload.ObjectItem? ==> forall c :: c in copies ==> c.key.Some?
    modifies copy`children, copy`repr, below`prev
    ensures IsTree(copy) && copy.children == copies && copy.repr == {copy} + below && copy.IsDetached()
    ensures Items(copy, 0) == values
  {
    hide TreeOf, IsTree, Items, Row;
    RowMembers(copies, values, below);
    if copy.child != null {
      copy.child.prev := last;
    }
    copy.children := copies;
    copy.repr := {copy} + below;
    forall c | c in copies ensures IsTree(c) && TreeOf(c) == old(TreeOf(c)) {
      assert c.repr - {c} !! {copy};
    }
    RowFacts(copies, values, below);
    assert copy.repr - {copy} == below;
    TreeOfRow(copy, values);
  }

  /** cJSON_Duplicate_rec of a tree at `depth`: all of it, as new items, or nothing. */
  method Duplicate(item: Item?, depth: nat) returns (copy: Item?)
    requires item != null ==> IsTree(item)
    requires depth <= CIRCULAR_LIMIT
    ensures copy != null <==> item != null && depth + Height(TreeOf(item)) <= 10000
    ensures copy != null ==> fresh(copy.repr) && IsTree(copy) && copy.IsDetached()
    ensures copy != null ==> TreeOf(copy) == TreeOf(item) && copy.key == item.key
    decreases (if item == null then {} else item.repr), 1
  {
    hide Height, TreeOf, IsTree, Items, Growing, Item.IsList, Fit, SameKeys;
    if item == null {
      return null;
    }
    FirstChild(item);
    HeightWithin(item, CIRCULAR_LIMIT - depth);
    ghost var values := Items(item, 0);
    copy := new Item(item.payload, item.key);
    var ok, last, copies, below := DuplicateChildren(copy, item, depth);
    if !ok {
      return null;
    }
    if item.payload.ObjectItem? { SameKeysKeyed(copies, item.children); }
    Close(copy, copies, values, below, last);
    SameParts(copy, item);
  }

  /** The loop over the children: each copy is linked behind the last. */
  method DuplicateChildren(copy: Item, item: Item, depth: nat)
    returns (ok: bool, last: Item?, ghost copies: seq<Item>, ghost below: set<Item>)
    requires IsTree(item) && depth <= CIRCULAR_LIMIT && copy !in item.repr && copy.IsDetached() && copy.child == null
    modifies copy`child
    ensures ok <==> Fit(Items(item, 0), CIRCULAR_LIMIT - depth)
    ensures fresh(below)
    ensures ok ==> Growing(copy, copies, Items(item, 0), below, last)
    ensures ok ==> |copies| == |item.children| && SameKeys(copies, item.children)
    decreases item.repr, 0
  {
    hide Height, TreeOf, IsTree, Items, Growing, Item.IsList, Fit, SameKeys;
    ghost var values := Items(item, 0);
    FirstChild(item);
    NothingCopied(copy);
    NothingFits(item.children, values);
    var current := item.child;
    last, copies, below := null, [], {};
    while current != null
      invariant |copies| <= |item.children|
      invariant current == if |copies| < |item.children| then item.children[|copies|] else null
      invariant last == null || last in below
      invariant fresh(below) && Growing(copy, copies, values[..|copies|], below, last)
      invariant SameKeys(copies, item.children) && Fit(values[..|copies|], CIRCULAR_LIMIT - depth)
      decreases |item.children| - |copies|
    {
      ChildAt(item, |copies|);
      ItemsAt(item, 0, |copies|);
      FitStep(values, |copies|, CIRCULAR_LIMIT - depth);
      if depth >= CIRCULAR_LIMIT {
        return false, last, copies, below;
      }
      var newChild := Duplicate(current, depth + 1);
      if newChild == null {
        return false, last, copies, below;
      }
      FirstChild(newChild);
      Append(copy, copies, values[..|copies|], below, last, newChild);
      SameKeysMore(copies, item.children, newChild);
      last := newChild;
      copies := copies + [newChild];
      below := below + newChild.repr;
      current := current.next;
    }
    assert values[..|copies|] == values;
    ok := true;
  }

  // ----- comparing -----

  /** Two trees that are given as the same item, or have nothing in common. */
  ghost predicate Apart(a: Item, b: Item)
    reads a, b
  {
    a == b || a.repr !! b.repr
  }

  /**
   The values decide unless identity does: not if the trees are apart, and without harm where a shared
   item could be reached if both trees are coherent and int-numbered, so that each equals itself.
   */
  ghost predicate ValuesDecide(a: Item, b: Item, caseSensitive: bool)
    requires IsTree(a) && IsTree(b)
    reads a, a.repr, b, b.repr
  {
    Apart(a, b)
    || (IntNumbers(TreeOf(a)) && IntNumbers(TreeOf(b))
        && Coherent(TreeOf(a), caseSensitive) && Coherent(TreeOf(b), caseSensitive))
  }

  /** get_object_item finds the item of the value that a lookup in the members finds. */
  lemma {:induction false} NamedIsLookup(item: Item, i: nat, name: seq<byte>, caseSensitive: bool)
    requires IsTree(item) && item.payload.ObjectItem? && i <= |item.children|
    ensures var found := Named(item.children[i..], name, caseSensitive);
            var value := Lookup(Members(item, i), name, caseSensitive);
            if found == null then value == None
            else found in item.children && IsTree(found) && value == Some(TreeOf(found))
    decreases |item.children| - i
  {
    hide TreeOf, IsTree, Fold;
    FirstChild(item);
    if i < |item.children| {
      MemberAt(item, i);
      ChildAt(item, i);
      NamedIsLookup(item, i + 1, name, caseSensitive);
      assert item.children[i..][1..] == item.children[i + 1..] && item.children[i..][0] == item.children[i];
      assert Members(item, i)[1..] == Members(item, i + 1);
    }
  }

  lemma MemberAt(item: Item, k: nat)
    requires IsTree(item) && item.payload.ObjectItem? && k < |item.children|
    ensures IsTree(item.children[k]) && item.children[k].key.Some?
    ensures Members(item, k)
         == [Member(item.children[k].key.value, TreeOf(item.children[k]))] + Members(item, k + 1)
  {
  }

  lemma ItemIsSmaller(item: Item, k: nat)
    requires IsTree(item) && k < |item.children|
    ensures IsTree(item.children[k]) && Weight(TreeOf(item.children[k])) < Weight(TreeOf(item))
  {
    hide IsTree, Items, Members, Weight;
    FirstChild(item);
    ChildAt(item, k);
    ItemsAt(item, 0, k);
    TreeWeight(item);
    ItemWeight(Items(item, 0), k);
  }

  lemma TreeWeight(item: Item)
    requires IsTree(item) && (item.payload.ArrayItem? || item.payload.ObjectItem?)
    ensures Weight(TreeOf(item)) == 1 + ItemsWeight(Items(item, 0))
  {
    hide IsTree, Items, Members;
    if item.payload.ObjectItem? { MembersWeighAsItems(item, 0); }
  }

  lemma {:induction false} MembersWeighAsItems(item: Item, i: nat)
    requires IsTree(item) && item.payload.ObjectItem? && i <= |item.children|
    ensures MembersWeight(Members(item, i)) == ItemsWeight(Items(item, i))
    decreases |item.children| - i
  {
    hide TreeOf, Weight, IsTree, Items, Members;
    if i < |item.children| {
      MembersWeighAsItems(item, i + 1);
      MemberAt(item, i);
      ChildAt(item, i);
      assert Members(item, i)[1..] == Members(item, i + 1) && Items(item, i)[1..] == Items(item, i + 1);
    } else {
      NoneLeft(item);
    }
  }

  lemma NoneLeft(item: Item)
    requires IsTree(item)
    ensures Items(item, |item.children|) == []
    ensures item.payload.ObjectItem? ==> Members(item, |item.children|) == []
  {
  }

  lemma {:induction false} ItemWeight(values: seq<Json>, k: nat)
    requires k < |values|
    ensures Weight(values[k]) < ItemsWeight(values)
  {
    hide Weight;
    if k > 0 { ItemWeight(values[1..], k - 1); }
  }

  /** Among the children the values decide as well, and an item they share is the same as itself. */
  lemma ChildrenDecide(a: Item, b: Item, i: nat, j: nat, caseSensitive: bool)
    requires IsTree(a) && IsTree(b) && a != b && ValuesDecide(a, b, caseSensitive)
    requires i < |a.children| && j < |b.children|
    ensures var c, d := a.children[i], b.children[j];
            && IsTree(c) && IsTree(d) && ValuesDecide(c, d, caseSensitive)
            && (c == d ==> Same(TreeOf(c), TreeOf(d), caseSensitive))
  {
    hide IsTree, TreeOf, Items, Members, Coherent, IntNumbers, Same;
    var c, d := a.children[i], b.children[j];
    TreeParts(a);
    TreeParts(b);
    if a.repr !! b.repr {
      assert c in c.repr && c in a.repr && d in d.repr && d in b.repr;
    } else {
      PartsCohere(a, i, caseSensitive);
      PartsCohere(b, j, caseSensitive);
      SameIsEqualMeaning(TreeOf(c), TreeOf(c), caseSensitive);
    }
  }

  lemma PartsCohere(item: Item, k: nat, caseSensitive: bool)
    requires IsTree(item) && k < |item.children|
    requires IntNumbers(TreeOf(item)) && Coherent(TreeOf(item), caseSensitive)
    ensures IsTree(item.children[k])
    ensures IntNumbers(TreeOf(item.children[k])) && Coherent(TreeOf(item.children[k]), caseSensitive)
  {
    hide IsTree, Items, Members, Agrees;
    FirstChild(item);
    ChildAt(item, k);
    ItemsAt(item, 0, k);
    if item.payload.ArrayItem? {
      ItemCoheres(Items(item, 0), k, caseSensitive);
    } else {
      MembersAt(item, 0, k);
      MemberCoheres(Members(item, 0), k, caseSensitive);
    }
  }

  lemma {:induction false} ItemCoheres(values: seq<Json>, k: nat, caseSensitive: bool)
    requires k < |values| && IntItems(values) && CoherentItems(values, caseSensitive)
    ensures IntNumbers(values[k]) && Coherent(values[k], caseSensitive)
  {
    hide IntNumbers, Coherent;
    if k > 0 { ItemCoheres(values[1..], k - 1, caseSensitive); }
  }

  lemma {:induction false} MemberCoheres(ms: seq<Member>, k: nat, caseSensitive: bool)
    requires k < |ms| && IntMembers(ms) && CoherentMembers(ms, caseSensitive)
    ensures IntNumbers(ms[k].item) && Coherent(ms[k].item, caseSensitive)
  {
    hide IntNumbers, Coherent;
    if k > 0 { MemberCoheres(ms[1..], k - 1, caseSensitive); }
  }

  /**
   cJSON_Compare: an item equals itself, trees of equal values are equal, and where the values decide
   there are no other equals.
   */
  method Compare(a: Item?, b: Item?, caseSensitive: bool) returns (same: bool)
    requires (a != null ==> IsTree(a)) && (b != null ==> IsTree(b))
    ensures same ==> a != null && b != null
    ensures a != null && b != null && (a == b || Same(TreeOf(a), TreeOf(b), caseSensitive)) ==> same
    ensures same && ValuesDecide(a, b, caseSensitive) ==> a == b || Same(TreeOf(a), TreeOf(b), caseSensitive)
    decreases (if a == null then 0 else Weight(TreeOf(a))) + (if b == null then 0 else Weight(TreeOf(b))), 1
  {
    hide IsTree, Items, Members, ValuesDecide;
    if a == null || b == null {
      return false;
    }
    if a == b {
      return true;
    }
    match (a.payload, b.payload) {
      case (NullItem, NullItem) => same := true;
      case (BoolItem(x), BoolItem(y)) => same := x == y;
      case (NumberItem(x), NumberItem(y)) => same := CloseTo(x, y);
      case (StringItem(x), StringItem(y)) => same := x == y;
      case (ArrayItem, ArrayItem) => same := CompareArrays(a, b, caseSensitive);
      case (ObjectItem, ObjectItem) =>
        DecideBothWays(a, b, caseSensitive);
        same := CompareMembers(a, b, caseSensitive);
        if same {
          same := CompareMembers(b, a, caseSensitive);
        }
      case _ => same := false;
    }
  }

  lemma DecideBothWays(a: Item, b: Item, caseSensitive: bool)
    requires IsTree(a) && IsTree(b)
    ensures ValuesDecide(a, b, caseSensitive) <==> ValuesDecide(b, a, caseSensitive)
  {
    hide IsTree, TreeOf;
  }

  method CompareArrays(a: Item, b: Item, caseSensitive: bool) returns (same: bool)
    requires IsTree(a) && IsTree(b) && a != b && a.payload.ArrayItem? && b.payload.ArrayItem?
    ensures SameItems(Items(a, 0), Items(b, 0), caseSensitive) ==> same
    ensures same && ValuesDecide(a, b, caseSensitive) ==> SameItems(Items(a, 0), Items(b, 0), caseSensitive)
    decreases Weight(TreeOf(a)) + Weight(TreeOf(b)), 0, 1
  {
    hide IsTree, TreeOf, Items, Same, SameItems, ValuesDecide, Weight;
    FirstChild(a);
    FirstChild(b);
    ghost var decides := ValuesDecide(a, b, caseSensitive);
    var x, y := a.child, b.child;
    ghost var k := 0;
    while x != null && y != null
      invariant 0 <= k <= |a.children| && k <= |b.children|
      invariant x == if k < |a.children| then a.children[k] else null
      invariant y == if k < |b.children| then b.children[k] else null
      invariant SameItems(Items(a, 0), Items(b, 0), caseSensitive) ==> SameItems(Items(a, k), Items(b, k), caseSensitive)
      invariant decides && SameItems(Items(a, k), Items(b, k), caseSensitive) ==>
                  SameItems(Items(a, 0), Items(b, 0), caseSensitive)
      decreases |a.children| - k
    {
      ChildAt(a, k);
      ChildAt(b, k);
      ItemIsSmaller(a, k);
      ItemIsSmaller(b, k);
      if decides { ChildrenDecide(a, b, k, k, caseSensitive); }
      SameItemsStep(Items(a, k), Items(b, k), caseSensitive);
      assert Items(a, k)[1..] == Items(a, k + 1) && Items(b, k)[1..] == Items(b, k + 1);
      var equal := Compare(x, y, caseSensitive);
      if !equal {
        return false;
      }
      x := x.next;
      y := y.next;
      k := k + 1;
    }
    // both ends reached, or one of the arrays is longer
    same := x == y;
    SameItemsStep(Items(a, k), Items(b, k), caseSensitive);
  }

  lemma SameItemsStep(xs: seq<Json>, ys: seq<Json>, caseSensitive: bool)
    ensures SameItems(xs, ys, caseSensitive)
         == if xs == [] || ys == [] then xs == ys
            else Same(xs[0], ys[0], caseSensitive) && SameItems(xs[1..], ys[1..], caseSensitive)
  {
  }

  /** Looks every member of `a` up in `b`. */
  method CompareMembers(a: Item, b: Item, caseSensitive: bool) returns (covered: bool)
    requires IsTree(a) && IsTree(b) && a != b && a.payload.ObjectItem? && b.payload.ObjectItem?
    ensures Covered(Members(a, 0), Members(b, 0), caseSensitive) ==> covered
    ensures covered && ValuesDecide(a, b, caseSensitive) ==> Covered(Members(a, 0), Members(b, 0), caseSensitive)
    decreases Weight(TreeOf(a)) + Weight(TreeOf(b)), 0, 1
  {
    hide IsTree, TreeOf, Members, Items, Same, Covered, Lookup, Weight, MembersWeight, ValuesDecide;
    FirstChild(a);
    NoneLeft(a);
    CoveredStep(Members(a, |a.children|), Members(b, 0), caseSensitive);
    ghost var decides := ValuesDecide(a, b, caseSensitive);
    var x := a.child;
    ghost var k := 0;
    while x != null
      invariant 0 <= k <= |a.children|
      invariant x == if k < |a.children| then a.children[k] else null
      invariant Covered(Members(a, 0), Members(b, 0), caseSensitive) ==> Covered(Members(a, k), Members(b, 0), caseSensitive)
      invariant decides && Covered(Members(a, k), Members(b, 0), caseSensitive) ==>
                  Covered(Members(a, 0), Members(b, 0), caseSensitive)
      decreases |a.children| - k
    {
      ChildAt(a, k);
      MemberAt(a, k);
      assert Members(a, k)[1..] == Members(a, k + 1);
      CoveredStep(Members(a, k), Members(b, 0), caseSensitive);
      var found := CompareMember(a, k, x, b, caseSensitive);
      if !found {
        return false;
      }
      x := x.next;
      k := k + 1;
    }
    return true;
  }

  /** The value under the key of `x` in a list of members is the same as `x`. */
  ghost predicate FoundIn(x: Item, ns: seq<Member>, caseSensitive: bool)
    requires IsTree(x) && x.key.Some?
    reads x`child, x`children, x`repr, x.repr - {x}
  {
    match Lookup(ns, x.key.value, caseSensitive)
    case None => false
    case Some(value) => Same(TreeOf(x), value, caseSensitive)
  }

  /** One turn of the loop: the member `x` of `a` is looked up in `b`. */
  method CompareMember(ghost a: Item, ghost k: nat, x: Item, b: Item, caseSensitive: bool) returns (found: bool)
    requires IsTree(a) && IsTree(b) && a != b && a.payload.ObjectItem? && b.payload.ObjectItem?
    requires k < |a.children| && x == a.children[k] && IsTree(x) && x.key.Some?
    ensures FoundIn(x, Members(b, 0), caseSensitive) ==> found
    ensures found && ValuesDecide(a, b, caseSensitive) ==> FoundIn(x, Members(b, 0), caseSensitive)
    decreases Weight(TreeOf(a)) + Weight(TreeOf(b)), 0, 0
  {
    hide IsTree, TreeOf, Members, Items, Same, Lookup, Named, Weight, MembersWeight, ValuesDecide;
    TreeIsList(b);
    var other := b.GetObjectItem(x.key.value, caseSensitive);
    assert b.children[0..] == b.children;
    NamedIsLookup(b, 0, x.key.value, caseSensitive);
    if other == null {
      return false;
    }
    ghost var j :| 0 <= j < |b.children| && b.children[j] == other;
    ItemIsSmaller(a, k);
    ItemIsSmaller(b, j);
    if ValuesDecide(a, b, caseSensitive) { ChildrenDecide(a, b, k, j, caseSensitive); }
    found := Compare(x, other, caseSensitive);
  }

  /** One turn of the loop, on values. */
  lemma CoveredStep(ms: seq<Member>, ns: seq<Member>, caseSensitive: bool)
    ensures Covered(ms, ns, caseSensitive)
         == (ms == [] ||
             match Lookup(ns, ms[0].key, caseSensitive)
             case None => false
             case Some(item) => Same(ms[0].item, item, caseSensitive) && Covered(ms[1..], ns, caseSensitive))
  {
  }

  lemma TreeIsList(item: Item)
    requires IsTree(item)
    ensures item.IsList()
  {
  }

  /** A duplicate compares equal to its original exactly when the tree is shallow enough and coherent. */
  method CompareWithDuplicate(item: Item, caseSensitive: bool) returns (same: bool)
    requires IsTree(item) && IntNumbers(TreeOf(item))
    ensures same <==> Height(TreeOf(item)) <= CIRCULAR_LIMIT && Coherent(TreeOf(item), caseSensitive)
  {
    hide IsTree, TreeOf, Height, Same, Coherent;
    var copy := Duplicate(item, 0);
    if copy != null {
      FirstChild(copy);
      assert Apart(item, copy);
    }
    same := Compare(item, copy, caseSensitive);
    SameIsEqualMeaning(TreeOf(item), TreeOf(item), caseSensitive);
  }
}
