/**
 cJSON's child lists on the heap: linked through `next` to null, linked back through `prev`,
 with the last item kept in the first one's `prev`. Append, insert, detach and replace keep that
 shape and act as the sequence operations they are named after.
 */
module SiblingList {
  import opened Options
  import opened JsonTree

  /** An item's type with its value; the elements of arrays and objects are its children. */
  datatype Payload =
    | NullItem
    | BoolItem(value: bool)
    | NumberItem(number: real)
    | StringItem(text: seq<byte>)
    | ArrayItem
    | ObjectItem

  /** `children` is the list behind `child`; `repr` is all that hangs below the item, and itself. */
  class Item {
    const payload: Payload
    const key: Option<seq<byte>>
    var next: Item?
    var prev: Item?
    var child: Item?
    ghost var children: seq<Item>
    ghost var repr: set<Item>

    constructor (payload: Payload, key: Option<seq<byte>>)
      ensures IsDetached() && IsList() && child == null && children == []
      ensures this.payload == payload && this.key == key && repr == {this}
    {
      this.payload, this.key := payload, key;
      next, prev, child := null, null, null;
      children := [];
      repr := {this};
    }

    ghost predicate IsDetached()
      reads this
    {
      next == null && prev == null
    }

    /** The links of `children` and the `child` field form a well-formed sibling list. */
    ghost predicate IsList()
      reads this`child, this`children, children
    {
      this !in children
      && (forall i, j :: 0 <= i < j < |children| ==> children[i] != children[j])
      && (if children == [] then child == null else
            child == children[0]
            && children[0].prev == children[|children| - 1]
            && children[|children| - 1].next == null
            && (forall i {:trigger children[i].next} :: 0 <= i < |children| - 1 ==> children[i].next == children[i + 1])
            && (forall i {:trigger children[i].prev} :: 0 < i < |children| ==> children[i].prev == children[i - 1]))
    }

    /** add_item_to_array. */
    method AddItemToArray(item: Item?) returns (ok: bool)
      requires IsList()
      requires item != null && item != this ==> item !in children && item.next == null
      modifies this`child, this`children, children`next, children`prev, Given(item)`next, Given(item)`prev
      ensures ok <==> item != null && item != this
      ensures IsList() && children == if ok then old(children) + [item] else old(children)
    {
      if item == null || item == this {
        return false;
      }
      if child == null {
        child := item;
        item.prev := item;
        item.next := null;
      } else if child.prev != null {
        var last := child.prev;
        last.next := item;
        item.prev := last;
        child.prev := item;
      }
      children := children + [item];
      return true;
    }

    /** get_array_item. */
    method GetArrayItem(index: nat) returns (item: Item?)
      requires IsList()
      ensures item == if index < |children| then children[index] else null
    {
      item := child;
      var left := index;
      ghost var at := 0;
      while item != null && left > 0
        invariant 0 <= at <= |children| && at + left == index
        invariant item == if at < |children| then children[at] else null
        decreases |children| - at
      {
        left := left - 1;
        item := item.next;
        at := at + 1;
      }
    }

    /** cJSON_GetArraySize without its conversion to int. */
    method GetArraySize() returns (size: nat)
      requires IsList()
      ensures size == |children|
    {
      var item := child;
      size := 0;
      while item != null
        invariant size <= |children|
        invariant item == if size < |children| then children[size] else null
        decreases |children| - size
      {
        size := size + 1;
        item := item.next;
      }
    }

    /** get_object_item; the case-sensitive search gives up at a child without a key. */
    method GetObjectItem(name: seq<byte>, caseSensitive: bool) returns (item: Item?)
      requires IsList()
      ensures item == Named(children, name, caseSensitive)
    {
      item := child;
      ghost var at := 0;
      assert children[0..] == children;
      if caseSensitive {
        while item != null && item.key.Some? && name != item.key.value
          invariant 0 <= at <= |children|
          invariant item == if at < |children| then children[at] else null
          invariant Named(children[at..], name, true) == Named(children, name, true)
          decreases |children| - at
        {
          assert children[at..][1..] == children[at + 1..];
          item := item.next;
          at := at + 1;
        }
      } else {
        while item != null && (item.key.None? || Lower(name) != Lower(item.key.value))
          invariant 0 <= at <= |children|
          invariant item == if at < |children| then children[at] else null
          invariant Named(children[at..], name, false) == Named(children, name, false)
          decreases |children| - at
        {
          assert children[at..][1..] == children[at + 1..];
          item := item.next;
          at := at + 1;
        }
      }
      if item == null || item.key.None? {
        return null;
      }
    }

    /** cJSON_InsertItemInArray: behind the end it appends. */
    method InsertItemInArray(which: int, newItem: Item?) returns (ok: bool)
      requires IsList()
      requires newItem != null ==> newItem !in children && newItem != this && newItem.next == null
      modifies this`child, this`children, children`next, children`prev, Given(newItem)`next, Given(newItem)`prev
      ensures ok <==> which >= 0 && newItem != null
      ensures IsList()
      ensures children == if !ok then old(children)
                          else if which < old(|children|) then old(children)[..which] + [newItem] + old(children)[which..]
                          else old(children) + [newItem]
    {
      if which < 0 || newItem == null {
        return false;
      }
      var after := GetArrayItem(which);
      if after == null {
        ok := AddItemToArray(newItem);
        return;
      }
      assert which > 0 ==> after.prev == children[which - 1] && children[which - 1].next == after;
      newItem.next := after;
      newItem.prev := after.prev;
      after.prev := newItem;
      if after == child {
        child := newItem;
      } else {
        newItem.prev.next := newItem;
      }
      children := children[..which] + [newItem] + children[which..];
      return true;
    }

    /** cJSON_DetachItemViaPointer on a child, on null, or on an item that is in no list. */
    method DetachItemViaPointer(item: Item?, ghost which: int) returns (detached: Item?)
      requires IsList()
      requires item == null || (item !in children && item.prev == null)
               || (0 <= which < |children| && children[which] == item)
      modifies this`child, this`children, children`next, children`prev
      ensures IsList()
      ensures detached != null <==> item != null && item in old(children)
      ensures detached != null ==> detached == item && detached.IsDetached()
                                   && children == old(children)[..which] + old(children)[which + 1..]
      ensures detached == null ==> children == old(children)
    {
      if item != null && item in children {
        assert which > 0 ==> item.prev == children[which - 1];
        assert which + 1 < |children| ==> item.next == children[which + 1];
      }
      if item == null || (item != child && item.prev == null) {
        return null;
      }
      if item != child {
        item.prev.next := item.next;
      }
      if item.next != null {
        item.next.prev := item.prev;
      }
      if item == child {
        child := item.next;
      } else if item.next == null {
        child.prev := item.prev;
      }
      item.prev := null;
      item.next := null;
      children := children[..which] + children[which + 1..];
      return item;
    }

    /** cJSON_DetachItemFromArray. */
    method DetachItemFromArray(which: int) returns (detached: Item?)
      requires IsList()
      modifies this`child, this`children, children`next, children`prev
      ensures IsList()
      ensures detached != null <==> 0 <= which < old(|children|)
      ensures detached != null ==> detached == old(children)[which] && detached.IsDetached()
                                   && children == old(children)[..which] + old(children)[which + 1..]
      ensures detached == null ==> children == old(children)
    {
      if which < 0 {
        return null;
      }
      var item := GetArrayItem(which);
      detached := DetachItemViaPointer(item, which);
    }

    /** cJSON_ReplaceItemViaPointer of the child at `which`; the replaced item ends up detached. */
    method ReplaceItemViaPointer(item: Item?, replacement: Item?, ghost which: int) returns (ok: bool)
      requires IsList()
      requires item == null || (0 <= which < |children| && children[which] == item)
      requires replacement != null && replacement != item ==> replacement !in children && replacement != this
      modifies this`child, this`children, children`next, children`prev, Given(replacement)`next, Given(replacement)`prev
      ensures ok <==> item != null && replacement != null
      ensures IsList() && children == if ok then old(children)[which := replacement] else old(children)
      ensures ok && replacement != item ==> item.IsDetached()
    {
      if child == null || replacement == null || item == null {
        return false;
      }
      if replacement == item {
        return true;
      }
      assert which > 0 ==> item.prev == children[which - 1];
      assert which + 1 < |children| ==> item.next == children[which + 1];
      replacement.next := item.next;
      replacement.prev := item.prev;
      if replacement.next != null {
        replacement.next.prev := replacement;
      }
      if child == item {
        if child.prev == child {
          replacement.prev := replacement;
        }
        child := replacement;
      } else {
        if replacement.prev != null {
          replacement.prev.next := replacement;
        }
        if replacement.next == null {
          child.prev := replacement;
        }
      }
      item.next := null;
      item.prev := null;
      children := children[which := replacement];
      return true;
    }

    /** cJSON_ReplaceItemInArray. */
    method ReplaceItemInArray(which: int, newItem: Item?) returns (ok: bool)
      requires IsList()
      requires newItem != null ==> newItem !in children && newItem != this
      modifies this`child, this`children, children`next, children`prev, Given(newItem)`next, Given(newItem)`prev
      ensures ok <==> 0 <= which < old(|children|) && newItem != null
      ensures IsList() && children == if ok then old(children)[which := newItem] else old(children)
    {
      if which < 0 {
        return false;
      }
      var item := GetArrayItem(which);
      ok := ReplaceItemViaPointer(item, newItem, which);
    }
  }

  /** The item, unless it is null. */
  ghost function Given(item: Item?): set<Item> {
    if item == null then {} else {item}
  }

  /** What a search by key finds. */
  ghost function Named(items: seq<Item>, name: seq<byte>, caseSensitive: bool): Item? {
    if items == [] then null
    else if items[0].key.None? then if caseSensitive then null else Named(items[1..], name, false)
    else if Fold(items[0].key.value, caseSensitive) == Fold(name, caseSensitive) then items[0]
    else Named(items[1..], name, caseSensitive)
  }

  /** The search can go past the child: it has another key, or none and the case is ignored. */
  predicate Passes(item: Item, name: seq<byte>, caseSensitive: bool) {
    if item.key.None? then !caseSensitive else !KeysMatch(item.key.value, name, caseSensitive)
  }

  /** The search finds the first child with a matching key if it can pass all before it, and null if not. */
  lemma NamedIsFirst(items: seq<Item>, name: seq<byte>, caseSensitive: bool)
    ensures var item := Named(items, name, caseSensitive);
            if item == null then
              forall i :: 0 <= i < |items| && items[i].key.Some? && KeysMatch(items[i].key.value, name, caseSensitive) ==>
                exists k :: 0 <= k < i && !Passes(items[k], name, caseSensitive)
            else
              exists i :: 0 <= i < |items| && items[i] == item
                && item.key.Some? && KeysMatch(item.key.value, name, caseSensitive)
                && forall k :: 0 <= k < i ==> Passes(items[k], name, caseSensitive)
  {
    hide KeysMatch, Fold;
    var i := FirstNamed(items, name, caseSensitive);
    assert i < |items| && Named(items, name, caseSensitive) != null ==> items[i] == Named(items, name, caseSensitive);
  }

  /** Where the search ends: at a child it cannot pass, or at the end. */
  lemma {:induction false} FirstNamed(items: seq<Item>, name: seq<byte>, caseSensitive: bool) returns (i: nat)
    ensures i <= |items| && forall k :: 0 <= k < i ==> Passes(items[k], name, caseSensitive)
    ensures i < |items| ==> !Passes(items[i], name, caseSensitive)
    ensures Named(items, name, caseSensitive) == if i < |items| && items[i].key.Some? then items[i] else null
  {
    hide Fold, KeysMatch;
    i := 0;
    if items != [] {
      if items[0].key.Some? { FoldsAlike(items[0].key.value, name, caseSensitive); }
      if Passes(items[0], name, caseSensitive) {
        var rest := FirstNamed(items[1..], name, caseSensitive);
        i := rest + 1;
        forall k | 0 <= k < i ensures Passes(items[k], name, caseSensitive) {
          assert k > 0 ==> items[k] == items[1..][k - 1];
        }
      }
    }
  }
}
