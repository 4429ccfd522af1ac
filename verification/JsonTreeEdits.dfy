/**
 Editing the child list of a tree: append, insert, detach and replace keep every level well-formed,
 and act on the values of the children as the sequence operations they are named after.
 */
module JsonTreeEdits {
  import opened Options
  import opened JsonTree
  import opened SiblingList
  import opened JsonItems

  /** A tree that can become a child of `parent`: in no list, and with nothing in common. */
  ghost predicate CanJoin(parent: Item, item: Item)
    reads parent`repr, item`child, item`children, item`repr, item.repr - {item}, item`next
  {
    IsTree(item) && item.next == null && item.repr !! parent.repr
    && (parent.payload.ArrayItem? || (parent.payload.ObjectItem? && item.key.Some?))
  }

  /** What is known of a tree before its links change. */
  lemma BeforeEdit(parent: Item)
    requires IsTree(parent)
    ensures parent in parent.repr && parent.IsList()
    ensures Row(parent.children, Items(parent, 0), parent.repr - {parent})
    ensures parent.children != [] ==> parent.payload.ArrayItem? || parent.payload.ObjectItem?
    ensures parent.payload.ObjectItem? ==> forall c :: c in parent.children ==> c.key.Some?
  {
    hide TreeOf, IsTree, Items, Row;
    RowOfTree(parent);
    FirstChild(parent);
  }

  /** A parent of a row is a tree. */
  lemma Adopt(parent: Item, values: seq<Json>, below: set<Item>)
    requires parent !in below && parent.repr == {parent} + below && parent.IsList()
    requires Row(parent.children, values, below)
    requires parent.children != [] ==> parent.payload.ArrayItem? || parent.payload.ObjectItem?
    requires parent.payload.ObjectItem? ==> forall c :: c in parent.children ==> c.key.Some?
    ensures IsTree(parent) && Items(parent, 0) == values
  {
    hide Row, IsTree, Items, Item.IsList;
    assert parent.repr - {parent} == below;
    TreeOfRow(parent, values);
  }

  /** The links of AddItem, which leave the children's own trees alone. */
  method AddLinks(parent: Item, item: Item, ghost cs: seq<Item>, ghost values: seq<Json>, ghost below: set<Item>)
    returns (ok: bool)
    requires parent.IsList() && parent.children == cs && Row(cs, values, below) && parent !in below
    requires IsTree(item) && item.next == null && item.repr !! below && parent !in item.repr
    modifies parent`child, parent`children, parent.children`next, parent.children`prev
    modifies item`next, item`prev
    ensures parent.IsList() && Row(cs, values, below)
    ensures ok && parent.children == cs + [item]
    ensures IsTree(item) && TreeOf(item) == old(TreeOf(item))
  {
    hide TreeOf, IsTree, Row, Item.IsList;
    RowMembers(cs, values, below);
    TreeParts(item);
    ok := parent.AddItemToArray(item);
    assert IsTree(item) && TreeOf(item) == old(TreeOf(item));
    forall c | c in cs ensures IsTree(c) && TreeOf(c) == old(TreeOf(c)) {
      assert c.repr - {c} !! {parent, item};
    }
    RowFacts(cs, values, below);
  }

  /** cJSON_AddItemToArray, and the end of add_item_to_object. */
  method AddItem(parent: Item, item: Item) returns (ok: bool)
    requires IsTree(parent) && CanJoin(parent, item)
    modifies parent`child, parent`children, parent`repr, parent.children`next, parent.children`prev
    modifies item`next, item`prev
    ensures ok && IsTree(parent) && parent.repr == old(parent.repr) + item.repr
    ensures parent.children == old(parent.children) + [item]
    ensures Items(parent, 0) == old(Items(parent, 0)) + [old(TreeOf(item))]
  {
    hide TreeOf, IsTree, Items, Row, Item.IsList;
    ghost var cs, values, below := parent.children, Items(parent, 0), parent.repr - {parent};
    BeforeEdit(parent);
    ghost var value := TreeOf(item);
    ok := AddLinks(parent, item, cs, values, below);
    RowMembers(cs, values, below);
    TreeParts(item);
    assert parent !in parent.children;
    AppendToRow(cs, values, below, item);
    parent.repr := {parent} + (below + item.repr);
    Adopt(parent, values + [value], below + item.repr);
  }

  /** A row with one more tree in the middle. */
  lemma InsertIntoRow(cs: seq<Item>, values: seq<Json>, below: set<Item>, at: nat, c: Item)
    requires Row(cs, values, below) && at <= |cs| && IsTree(c) && c.repr !! below
    ensures |cs| == |values|
    ensures Row(cs[..at] + [c] + cs[at..], values[..at] + [TreeOf(c)] + values[at..], below + c.repr)
  {
    hide Row, IsTree, TreeOf;
    RowLength(cs, values, below);
    var more := below + c.repr;
    RowOfOne(c);
    RowSplit(cs, values, below, at);
    RowsApart(cs[..at], values[..at], below, [c], [TreeOf(c)], c.repr);
    RowsApart(cs[at..], values[at..], below, [c], [TreeOf(c)], c.repr);
    RowInside(cs[..at], values[..at], below, more);
    RowInside(cs[at..], values[at..], below, more);
    RowInside([c], [TreeOf(c)], c.repr, more);
    RowConcat(cs[..at], values[..at], [c], [TreeOf(c)], more);
    assert forall x, d :: x in cs[..at] + [c] && d in cs[at..] ==> x.repr !! d.repr;
    RowConcat(cs[..at] + [c], values[..at] + [TreeOf(c)], cs[at..], values[at..], more);
  }

  /** The links of InsertItem, which leave the children's own trees alone. */
  method InsertLinks(parent: Item, which: int, item: Item,
                     ghost cs: seq<Item>, ghost values: seq<Json>, ghost below: set<Item>)
    returns (ok: bool)
    requires parent.IsList() && parent.children == cs && Row(cs, values, below) && parent !in below
    requires IsTree(item) && item.next == null && item.repr !! below && parent !in item.repr
    modifies parent`child, parent`children, parent.children`next, parent.children`prev
    modifies item`next, item`prev
    ensures parent.IsList() && Row(cs, values, below)
    ensures ok <==> which >= 0
    ensures parent.children == if !ok then cs
                               else if which < |cs| then cs[..which] + [item] + cs[which..]
                               else cs + [item]
    ensures IsTree(item) && TreeOf(item) == old(TreeOf(item))
  {
    hide TreeOf, IsTree, Row, Item.IsList;
    RowMembers(cs, values, below);
    TreeParts(item);
    ok := parent.InsertItemInArray(which, item);
    assert IsTree(item) && TreeOf(item) == old(TreeOf(item));
    forall c | c in cs ensures IsTree(c) && TreeOf(c) == old(TreeOf(c)) {
      assert c.repr - {c} !! {parent, item};
    }
    RowFacts(cs, values, below);
  }

  /** cJSON_InsertItemInArray; behind the end it appends. */
  method InsertItem(parent: Item, which: int, item: Item) returns (ok: bool)
    requires IsTree(parent) && CanJoin(parent, item)
    modifies parent`child, parent`children, parent`repr, parent.children`next, parent.children`prev
    modifies item`next, item`prev
    ensures ok <==> which >= 0
    ensures IsTree(parent) && parent.repr == old(parent.repr) + if ok then item.repr else {}
    ensures ok ==> var at := if which < old(|parent.children|) then which else old(|parent.children|);
                   && parent.children == old(parent.children)[..at] + [item] + old(parent.children)[at..]
                   && Items(parent, 0) == old(Items(parent, 0))[..at] + [old(TreeOf(item))] + old(Items(parent, 0))[at..]
    ensures !ok ==> parent.children == old(parent.children) && Items(parent, 0) == old(Items(parent, 0))
  {
    hide TreeOf, IsTree, Items, Row, Item.IsList;
    ghost var cs, values, below := parent.children, Items(parent, 0), parent.repr - {parent};
    BeforeEdit(parent);
    ghost var value := TreeOf(item);
    ok := InsertLinks(parent, which, item, cs, values, below);
    RowMembers(cs, values, below);
    TreeParts(item);
    assert parent !in parent.children;
    if !ok {
      TreeOfRow(parent, values);
    } else {
      ghost var at := if which < |cs| then which else |cs|;
      InsertIntoRow(cs, values, below, at, item);
      assert parent.children == cs[..at] + [item] + cs[at..];
      parent.repr := {parent} + (below + item.repr);
      Adopt(parent, values[..at] + [value] + values[at..], below + item.repr);
    }
  }

  /** A row without one of its trees. */
  lemma RemoveFromRow(cs: seq<Item>, values: seq<Json>, below: set<Item>, at: nat)
    requires Row(cs, values, below) && at < |cs|
    ensures |cs| == |values|
    ensures Row(cs[..at] + cs[at + 1..], values[..at] + values[at + 1..], below - cs[at].repr)
  {
    hide IsTree, TreeOf;
    var rest, left := cs[..at] + cs[at + 1..], values[..at] + values[at + 1..];
    forall c | c in rest ensures c in below - cs[at].repr && c.repr <= below - cs[at].repr {
      var i :| 0 <= i < |rest| && rest[i] == c;
      assert c == cs[if i < at then i else i + 1];
    }
  }

  /** The links of DetachItem, which leave the children's own trees alone. */
  method DetachLinks(parent: Item, which: int, ghost cs: seq<Item>, ghost values: seq<Json>, ghost below: set<Item>)
    returns (item: Item?)
    requires parent.IsList() && parent.children == cs && Row(cs, values, below) && parent !in below
    modifies parent`child, parent`children, parent.children`next, parent.children`prev
    ensures parent.IsList() && Row(cs, values, below)
    ensures item != null <==> 0 <= which < |cs|
    ensures item != null ==> item == cs[which] && item.IsDetached() && parent.children == cs[..which] + cs[which + 1..]
    ensures item == null ==> parent.children == cs
  {
    hide TreeOf, IsTree, Row, Item.IsList;
    RowMembers(cs, values, below);
    item := parent.DetachItemFromArray(which);
    forall c | c in cs ensures IsTree(c) && TreeOf(c) == old(TreeOf(c)) {
      assert parent !in c.repr - {c};
    }
    RowFacts(cs, values, below);
  }

  /** cJSON_DetachItemFromArray: the rest stays a tree, and so is what comes off. */
  method DetachItem(parent: Item, which: int) returns (item: Item?)
    requires IsTree(parent)
    modifies parent`child, parent`children, parent`repr, parent.children`next, parent.children`prev
    ensures IsTree(parent)
    ensures item != null <==> 0 <= which < old(|parent.children|)
    ensures item == null ==> parent.children == old(parent.children) && Items(parent, 0) == old(Items(parent, 0))
    ensures item != null ==>
              && parent.children == old(parent.children)[..which] + old(parent.children)[which + 1..]
              && Items(parent, 0) == old(Items(parent, 0))[..which] + old(Items(parent, 0))[which + 1..]
              && IsTree(item) && item.IsDetached() && item.repr !! parent.repr
              && TreeOf(item) == old(Items(parent, 0))[which]
  {
    hide TreeOf, IsTree, Items, Row, Item.IsList;
    ghost var cs, values, below := parent.children, Items(parent, 0), parent.repr - {parent};
    BeforeEdit(parent);
    item := DetachLinks(parent, which, cs, values, below);
    RowMembers(cs, values, below);
    assert parent !in parent.children;
    if item == null {
      TreeOfRow(parent, values);
    } else {
      RemoveFromRow(cs, values, below, which);
      parent.repr := {parent} + (below - item.repr);
      Adopt(parent, values[..which] + values[which + 1..], below - item.repr);
    }
  }

  /** A row with one tree in the place of another. */
  lemma ReplaceInRow(cs: seq<Item>, values: seq<Json>, below: set<Item>, at: nat, c: Item)
    requires Row(cs, values, below) && at < |cs| && IsTree(c) && c.repr !! below
    ensures |cs| == |values|
    ensures Row(cs[at := c], values[at := TreeOf(c)], below - cs[at].repr + c.repr)
  {
    hide Row, IsTree, TreeOf;
    RowLength(cs, values, below);
    var rest, left := cs[..at] + cs[at + 1..], values[..at] + values[at + 1..];
    RemoveFromRow(cs, values, below, at);
    InsertIntoRow(rest, left, below - cs[at].repr, at, c);
    assert rest[..at] + [c] + rest[at..] == cs[at := c];
    assert left[..at] + [TreeOf(c)] + left[at..] == values[at := TreeOf(c)];
  }

  lemma RowLength(cs: seq<Item>, values: seq<Json>, below: set<Item>)
    requires Row(cs, values, below)
    ensures |cs| == |values|
  {
  }

  /** The links of ReplaceItem, which leave the children's own trees alone. */
  method ReplaceLinks(parent: Item, which: int, item: Item,
                      ghost cs: seq<Item>, ghost values: seq<Json>, ghost below: set<Item>)
    returns (ok: bool)
    requires parent.IsList() && parent.children == cs && Row(cs, values, below) && parent !in below
    requires IsTree(item) && item.next == null && item.repr !! below && parent !in item.repr
    modifies parent`child, parent`children, parent.children`next, parent.children`prev
    modifies item`next, item`prev
    ensures parent.IsList() && Row(cs, values, below)
    ensures ok <==> 0 <= which < |cs|
    ensures parent.children == if ok then cs[which := item] else cs
    ensures IsTree(item) && TreeOf(item) == old(TreeOf(item))
  {
    hide TreeOf, IsTree, Row, Item.IsList;
    RowMembers(cs, values, below);
    TreeParts(item);
    ok := parent.ReplaceItemInArray(which, item);
    assert IsTree(item) && TreeOf(item) == old(TreeOf(item));
    forall c | c in cs ensures IsTree(c) && TreeOf(c) == old(TreeOf(c)) {
      assert c.repr - {c} !! {parent, item};
    }
    RowFacts(cs, values, below);
  }

  /** cJSON_ReplaceItemInArray with an item that is in no list. */
  method ReplaceItem(parent: Item, which: int, item: Item) returns (ok: bool)
    requires IsTree(parent) && CanJoin(parent, item)
    modifies parent`child, parent`children, parent`repr, parent.children`next, parent.children`prev
    modifies item`next, item`prev
    ensures ok <==> 0 <= which < old(|parent.children|)
    ensures IsTree(parent)
    ensures ok ==> parent.children == old(parent.children)[which := item]
                   && Items(parent, 0) == old(Items(parent, 0))[which := old(TreeOf(item))]
    ensures !ok ==> parent.children == old(parent.children) && Items(parent, 0) == old(Items(parent, 0))
  {
    hide TreeOf, IsTree, Items, Row, Item.IsList;
    ghost var cs, values, below := parent.children, Items(parent, 0), parent.repr - {parent};
    BeforeEdit(parent);
    ghost var value := TreeOf(item);
    ok := ReplaceLinks(parent, which, item, cs, values, below);
    RowMembers(cs, values, below);
    TreeParts(item);
    assert parent !in parent.children;
    if !ok {
      TreeOfRow(parent, values);
    } else {
      ReplaceInRow(cs, values, below, which, item);
      parent.repr := {parent} + (below - cs[which].repr + item.repr);
      Adopt(parent, values[which := value], below - cs[which].repr + item.repr);
    }
  }
}
