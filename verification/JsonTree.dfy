/**
 The nodes of a cJSON tree. Children form a doubly linked list in which the first child's `prev` points
 at the last one; edits rewire a few pointers and keep that shape.
 */
module JsonTree {
  import opened Bytes
  import opened JsonValue

  datatype Kind = KInvalid | KNull | KFalse | KTrue | KNumber | KString | KArray | KObject

  /** `a` without its element at `i`. */
  function Without<T>(a: seq<T>, i: nat): seq<T>
    requires i < |a|
  {
    a[..i] + a[i + 1..]
  }

  lemma WithoutAt<T>(a: seq<T>, i: nat)
    requires i < |a|
    ensures var b := Without(a, i);
            && |b| == |a| - 1
            && (forall j :: 0 <= j < i ==> b[j] == a[j])
            && (forall j :: i <= j < |b| ==> b[j] == a[j + 1])
  {
  }

  /** `a` with `x` before its element at `i`, or at the end when there is none. */
  function Inserted<T>(a: seq<T>, i: nat, x: T): seq<T> {
    if i < |a| then a[..i] + [x] + a[i..] else a + [x]
  }

  lemma InsertedAt<T>(a: seq<T>, i: nat, x: T)
    requires i < |a|
    ensures var b := Inserted(a, i, x);
            && |b| == |a| + 1 && b[i] == x
            && (forall j :: 0 <= j < i ==> b[j] == a[j])
            && (forall j :: i < j < |b| ==> b[j] == a[j - 1])
  {
  }

  /** A double as an int: cut off towards zero, and kept in range. */
  function Saturate(d: real): (r: int)
    ensures INT_MIN <= r <= INT_MAX
    ensures IsInt(d) ==> r == d.Floor
  {
    if d >= INT_MAX as real then INT_MAX
    else if d <= INT_MIN as real then INT_MIN
    else if d >= 0.0 then d.Floor
    else -(-d).Floor
  }

  /** Towards zero between the ends of the range, and at an end beyond it. */
  lemma SaturateMeans(d: real)
    ensures d >= 2147483647.0 ==> Saturate(d) == 2147483647
    ensures d <= -2147483648.0 ==> Saturate(d) == -2147483648
    ensures 0.0 <= d < 2147483647.0 ==> Saturate(d) as real <= d < Saturate(d) as real + 1.0
    ensures -2147483648.0 < d < 0.0 ==> Saturate(d) as real - 1.0 < d <= Saturate(d) as real
  {
  }

  /**
   Every node of `s` is well-formed with all its children in `s`, and no node is a child of two.
   The values are inductive, so the nodes form finite trees.
   */
  ghost predicate Forest(s: set<Item>)
    reads s
  {
    forall n :: n in s ==>
      && (forall i :: 0 <= i < |n.kids| ==> n.kids[i] in s && n.kids[i].owner == n)
      && n.Linked() && n.Holds()
  }

  lemma NodeHolds(item: Item, s: set<Item>)
    requires Forest(s) && item in s
    ensures item.Linked() && item.Holds()
    ensures forall i :: 0 <= i < |item.kids| ==> item.kids[i] in s && item.kids[i].owner == item
  {
  }

  class Item {
    var kind: Kind
    var valueint: int
    var valuedouble: real
    var valuestring: Option<bytes>
    var key: Option<bytes>
    var next: Item?
    var prev: Item?
    var child: Item?

    /** The children in order, the item they belong to, and the value the subtree stands for. */
    ghost var kids: seq<Item>
    ghost var owner: Item?
    ghost var val: Json

    /** cJSON_New_Item: all fields cleared. */
    constructor ()
      ensures Blank() && owner == null && next == null && prev == null && key == None
    {
      kind, valueint, valuedouble := KInvalid, 0, 0.0;
      valuestring, key := None, None;
      next, prev, child := null, null, null;
      kids, owner, val := [], null, Null;
    }

    ghost predicate Blank()
      reads this
    {
      kind == KInvalid && valuestring == None && child == null && kids == []
    }

    /** The fields agree with the value this node stands for, given the values of its children. */
    ghost predicate Holds()
      reads this`kind, this`valueint, this`valuedouble, this`valuestring, this`kids, this`val, kids`val, kids`key
    {
      match kind
      case KInvalid => false
      case KNull => val == Null && kids == []
      case KFalse => val == False && kids == []
      case KTrue => val == True && kids == []
      case KNumber => val == Number(valuedouble) && valueint == Saturate(valuedouble) && kids == []
      case KString => valuestring.Some? && NulFree(valuestring.value) && val == String(valuestring.value) && kids == []
      case KArray => val.Array? && |val.elems| == |kids| && forall i :: 0 <= i < |kids| ==> kids[i].val == val.elems[i]
      case KObject => val.Object? && |val.members| == |kids| && forall i :: 0 <= i < |kids| ==>
        kids[i].key == Some(val.members[i].key) && NulFree(val.members[i].key) && kids[i].val == val.members[i].value
    }

    /** The shape of the child list. */
    ghost predicate Linked()
      reads this`child, this`kids, kids`next, kids`prev
    {
      LinkedTo(null)
    }

    /** The same with `end` behind the last child. */
    ghost predicate LinkedTo(end: Item?)
      reads this`child, this`kids, kids`next, kids`prev
    {
      && (child == if kids == [] then null else kids[0])
      && (forall i, j :: 0 <= i < j < |kids| ==> kids[i] != kids[j])
      && (forall i {:trigger kids[i].next} :: 0 <= i < |kids| ==>
            kids[i].next == if i + 1 < |kids| then kids[i + 1] else end)
      && (forall i {:trigger kids[i].prev} :: 0 <= i < |kids| ==>
            kids[i].prev == if i == 0 then kids[|kids| - 1] else kids[i - 1])
    }

    /** cJSON_GetArraySize. */
    method Size() returns (size: nat)
      requires Linked()
      ensures size == |kids|
    {
      size := 0;
      var c := child;
      while c != null
        invariant size <= |kids|
        invariant c == if size < |kids| then kids[size] else null
        decreases |kids| - size
      {
        size := size + 1;
        c := c.next;
      }
    }

    method GetArrayItem(index: nat) returns (c: Item?)
      requires Linked()
      ensures c == if index < |kids| then kids[index] else null
    {
      c := child;
      var left := index;
      while c != null && left > 0
        invariant 0 <= left <= index
        invariant c == if index - left < |kids| then kids[index - left] else null
        decreases left
      {
        left := left - 1;
        c := c.next;
      }
    }

    /**
     add_item_to_array. The item must not be in the list. Behind another one the append leaves its `next` as
     it is, so the list ends there only if the item has been taken out of any other.
     */
    method AddItem(item: Item?) returns (ok: bool)
      requires Linked()
      requires item != null && item != this ==> item !in kids
      modifies this`child, this`kids, kids`next, kids`prev
      modifies (if item != null then {item} else {})`next, (if item != null then {item} else {})`prev
      ensures ok == (item != null && item != this)
      ensures LinkedTo(if ok && old(kids) != [] then old(item.next) else null)
      ensures ok ==> kids == old(kids) + [item]
      ensures !ok ==> kids == old(kids)
    {
      if item == null || item == this {
        return false;
      }
      var c := child;
      if c == null {
        child := item;
        item.prev := item;
        item.next := null;
      } else {
        var tail := c.prev;
        if tail != null {
          tail.next := item;
          item.prev := tail;
          child.prev := item;
        }
      }
      kids := kids + [item];
      ok := true;
    }

    /** cJSON_DetachItemViaPointer, for an item of the list. */
    method Detach(item: Item, ghost i: nat)
      requires Linked() && i < |kids| && kids[i] == item
      modifies this`child, this`kids, kids`next, kids`prev
      ensures Linked()
      ensures kids == Without(old(kids), i)
      ensures item.next == null && item.prev == null
    {
      if item == child {
        DetachFirst(item);
      } else {
        DetachInner(item, i);
      }
      item.prev := null;
      item.next := null;
    }

    /** The rewiring when the first child is taken out. */
    method DetachFirst(item: Item)
      requires Linked() && kids != [] && kids[0] == item
      modifies this`child, this`kids, kids`prev
      ensures Linked() && kids == Without(old(kids), 0) && item !in kids
    {
      WithoutAt(kids, 0);
      hide Without;
      if item.next != null {
        item.next.prev := item.prev;
      }
      child := item.next;
      kids := Without(kids, 0);
    }

    /** The rewiring when another child is taken out; it may be the last. */
    method DetachInner(item: Item, ghost i: nat)
      requires Linked() && 0 < i < |kids| && kids[i] == item
      modifies this`kids, kids`next, kids`prev
      ensures Linked() && kids == Without(old(kids), i) && item !in kids
    {
      WithoutAt(kids, i);
      hide Without;
      ghost var left := Without(kids, i);
      assert left[i - 1] == item.prev && left[0] == child
             && if i < |left| then left[i] == item.next else item.next == null;
      item.prev.next := item.next;
      if item.next != null {
        item.next.prev := item.prev;
      } else {
        child.prev := item.prev;
      }
      kids := Without(kids, i);
    }

    /** cJSON_DetachItemFromArray. */
    method DetachAt(which: int) returns (item: Item?)
      requires Linked()
      modifies this`child, this`kids, kids`next, kids`prev
      ensures Linked()
      ensures 0 <= which < |old(kids)| ==>
                item == old(kids)[which] && kids == Without(old(kids), which) && item.next == null && item.prev == null
      ensures !(0 <= which < |old(kids)|) ==> item == null && kids == old(kids)
    {
      if which < 0 {
        return null;
      }
      item := GetArrayItem(which);
      if item != null {
        Detach(item, which);
      }
    }

    /** cJSON_InsertItemInArray. */
    method InsertAt(which: int, newitem: Item) returns (ok: bool)
      requires Linked()
      requires newitem != this && newitem !in kids
      modifies this`child, this`kids, kids`next, kids`prev, newitem`next, newitem`prev
      ensures ok == (which >= 0)
      ensures LinkedTo(if old(kids) != [] && which >= |old(kids)| then old(newitem.next) else null)
      ensures ok ==> kids == Inserted(old(kids), which, newitem)
      ensures !ok ==> kids == old(kids)
    {
      if which < 0 {
        return false;
      }
      var after := GetArrayItem(which);
      if after == null {
        ok := AddItem(newitem);
        return;
      }
      if after == child {
        InsertFirst(newitem, after);
      } else {
        InsertInner(newitem, after, which);
      }
      ok := true;
    }

    /** The rewiring of an insertion in front of the first item. */
    method InsertFirst(newitem: Item, after: Item)
      requires Linked() && kids != [] && after == kids[0]
      requires newitem != this && newitem !in kids
      modifies this`child, this`kids, kids`prev, newitem`next, newitem`prev
      ensures Linked()
      ensures kids == Inserted(old(kids), 0, newitem)
    {
      InsertedAt(kids, 0, newitem);
      hide Inserted;
      newitem.next := after;
      newitem.prev := after.prev;
      after.prev := newitem;
      child := newitem;
      kids := Inserted(kids, 0, newitem);
    }

    /** The rewiring of an insertion between two items. */
    method InsertInner(newitem: Item, after: Item, ghost i: nat)
      requires Linked() && 0 < i < |kids| && kids[i] == after
      requires newitem != this && newitem !in kids
      modifies this`kids, kids`next, kids`prev, newitem`next, newitem`prev
      ensures Linked()
      ensures kids == Inserted(old(kids), i, newitem)
    {
      InsertedAt(kids, i, newitem);
      hide Inserted;
      ghost var nodes, all := kids, Inserted(kids, i, newitem);
      assert all[i - 1] == after.prev && all[i + 1] == after && all[0] == child && all[|all| - 1] == nodes[|nodes| - 1];
      newitem.next := after;
      newitem.prev := after.prev;
      after.prev := newitem;
      newitem.prev.next := newitem;
      kids := all;
      assert forall j, k :: 0 <= j < k < |all| ==> all[j] != all[k];
    }

    /** cJSON_ReplaceItemViaPointer, for an item of the list. */
    method Replace(item: Item, replacement: Item, ghost i: nat) returns (ok: bool)
      requires Linked() && i < |kids| && kids[i] == item
      requires replacement == item || (replacement != this && replacement !in kids)
      modifies this`child, this`kids, kids`next, kids`prev, replacement`next, replacement`prev
      ensures ok && Linked()
      ensures kids == old(kids)[i := replacement]
      ensures replacement != item ==> item.next == null && item.prev == null
    {
      if replacement == item {
        return true;
      }
      if child == item {
        ReplaceFirst(item, replacement);
      } else {
        ReplaceInner(item, replacement, i);
      }
      item.next := null;
      item.prev := null;
      ok := true;
    }

    /** The rewiring when the first child is replaced; it may also be the last. */
    method ReplaceFirst(item: Item, replacement: Item)
      requires Linked() && kids != [] && kids[0] == item
      requires replacement != this && replacement !in kids
      modifies this`child, this`kids, kids`prev, replacement`next, replacement`prev
      ensures Linked() && kids == old(kids)[0 := replacement]
    {
      replacement.next := item.next;
      replacement.prev := item.prev;
      if replacement.next != null {
        replacement.next.prev := replacement;
      }
      if child.prev == child {
        replacement.prev := replacement;
      }
      child := replacement;
      kids := kids[0 := replacement];
    }

    /** The rewiring when another child is replaced; it may be the last. */
    method ReplaceInner(item: Item, replacement: Item, ghost i: nat)
      requires Linked() && 0 < i < |kids| && kids[i] == item
      requires replacement != this && replacement !in kids
      modifies this`kids, kids`next, kids`prev, replacement`next, replacement`prev
      ensures Linked() && kids == old(kids)[i := replacement]
    {
      ghost var after := kids[i := replacement];
      assert forall j, k :: 0 <= j < k < |after| ==> after[j] != after[k];
      assert item.prev == kids[i - 1] && if i + 1 < |kids| then item.next == kids[i + 1] else item.next == null;
      replacement.next := item.next;
      replacement.prev := item.prev;
      if replacement.next != null {
        replacement.next.prev := replacement;
      }
      if replacement.prev != null {
        replacement.prev.next := replacement;
      }
      if replacement.next == null {
        child.prev := replacement;
      }
      kids := after;
    }
  }
}
