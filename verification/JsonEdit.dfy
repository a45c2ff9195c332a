/**
 Editing the list of a top-level array. The edits of JsonTree keep the list; here they keep the whole
 tree as well, so that an edited array prints, compares and duplicates as the edited value.
 */
module JsonEdit {
  import opened JsonValue
  import opened JsonTree

  /** Every node but `root` is as in a forest, and `root` belongs to no other node. */
  ghost predicate Around(root: Item, s: set<Item>)
    reads s
  {
    && root in s && root.owner == null
    && forall n :: n in s && n != root ==>
         && (forall i :: 0 <= i < |n.kids| ==> n.kids[i] in s && n.kids[i].owner == n)
         && n.Linked() && n.Holds()
  }

  /** Nodes that may be children of `root`: its own, or nobody's. */
  ghost predicate Gathered(nodes: seq<Item>, root: Item, s: set<Item>)
    reads nodes`owner
  {
    forall i :: 0 <= i < |nodes| ==> nodes[i] in s && nodes[i] != root && nodes[i].owner in {null, root}
  }

  ghost predicate Owned(root: Item)
    reads root`kids, root.kids`owner
  {
    forall i :: 0 <= i < |root.kids| ==> root.kids[i].owner == root
  }

  ghost predicate Carry(nodes: seq<Item>, vals: seq<Json>)
    reads nodes`val
  {
    |vals| == |nodes| && forall i :: 0 <= i < |nodes| ==> nodes[i].val == vals[i]
  }

  /** A top-level array of a forest, with its elements. */
  ghost predicate TopArray(root: Item, s: set<Item>, vals: seq<Json>)
    reads s
  {
    && Forest(s) && root in s && root.owner == null && root.kind == KArray && root.val == Array(vals)
  }

  ghost method Own(root: Item, s: set<Item>)
    requires Around(root, s) && Gathered(root.kids, root, s)
    modifies root.kids`owner
    ensures Around(root, s) && forall i :: 0 <= i < |root.kids| ==> root.kids[i] in s && root.kids[i].owner == root
  {
    forall i | 0 <= i < |root.kids| {
      root.kids[i].owner := root;
    }
  }

  ghost method Revalue(root: Item, s: set<Item>, v: Json)
    requires Around(root, s)
    modifies root`val
    ensures Around(root, s) && root.val == v
  {
    root.val := v;
  }

  lemma Closed(root: Item, s: set<Item>, vals: seq<Json>)
    requires Around(root, s) && root.Linked() && Carry(root.kids, vals)
    requires root.kind == KArray && root.val == Array(vals)
    requires forall i :: 0 <= i < |root.kids| ==> root.kids[i] in s && root.kids[i].owner == root
    ensures TopArray(root, s, vals)
  {
  }

  /** The children of an edited array become its own, and it stands for their values. */
  ghost method Renew(root: Item, s: set<Item>, vals: seq<Json>)
    requires Around(root, s) && root.Linked() && Gathered(root.kids, root, s) && Carry(root.kids, vals)
    requires root.kind == KArray
    modifies root`val, root.kids`owner
    ensures TopArray(root, s, vals)
  {
    hide Around;
    hide Carry;
    hide TopArray;
    assert root !in root.kids;
    Own(root, s);
    Revalue(root, s, Array(vals));
    Closed(root, s, vals);
  }

  lemma Entered(root: Item, s: set<Item>, vals: seq<Json>)
    requires TopArray(root, s, vals)
    ensures root in s && root.owner == null && root.kind == KArray
    ensures Around(root, s) && root.Linked() && Gathered(root.kids, root, s) && Carry(root.kids, vals)
    ensures root !in root.kids && |vals| == |root.kids| && Owned(root)
  {
    NodeHolds(root, s);
  }

  lemma KidOwned(root: Item, item: Item)
    requires item.owner == null && Owned(root)
    ensures item !in root.kids
  {
  }

  lemma InsertedNodes(nodes: seq<Item>, vals: seq<Json>, root: Item, s: set<Item>, which: nat, item: Item)
    requires Gathered(nodes, root, s) && Carry(nodes, vals) && item in s && item != root && item.owner == null
    ensures Gathered(Inserted(nodes, which, item), root, s)
    ensures Carry(Inserted(nodes, which, item), Inserted(vals, which, item.val))
  {
  }

  lemma ReplacedNodes(nodes: seq<Item>, vals: seq<Json>, root: Item, s: set<Item>, i: nat, item: Item)
    requires Gathered(nodes, root, s) && Carry(nodes, vals) && item in s && item != root && item.owner == null
             && i < |nodes|
    ensures Gathered(nodes[i := item], root, s) && Carry(nodes[i := item], vals[i := item.val])
  {
  }

  // The edits of the list leave the other nodes alone.

  /** All of a node but its links is as it was. */
  twostate predicate SameNode(n: Item)
    reads n
  {
    && n.child == old(n.child) && n.kids == old(n.kids) && n.kind == old(n.kind) && n.valueint == old(n.valueint)
    && n.valuedouble == old(n.valuedouble) && n.valuestring == old(n.valuestring)
  }

  twostate predicate SameLinks(n: Item)
    reads n
  {
    n.next == old(n.next) && n.prev == old(n.prev)
  }

  twostate predicate SameChild(n: Item)
    reads n
  {
    n.owner == old(n.owner) && n.val == old(n.val) && n.key == old(n.key)
  }

  twostate lemma NodeKept(n: Item)
    requires SameNode(n) && n.val == old(n.val) && old(n.Linked()) && old(n.Holds())
    requires forall i :: 0 <= i < |n.kids| ==> SameLinks(n.kids[i]) && SameChild(n.kids[i])
    ensures n.Linked() && n.Holds()
  {
    assert forall i :: 0 <= i < |n.kids| ==> n.kids[i].next == old(n.kids[i].next);
    assert forall i :: 0 <= i < |n.kids| ==> n.kids[i].prev == old(n.kids[i].prev);
  }

  /** Nobody but `root` notices when, besides its own list, links change of nodes that nobody or `root` owns. */
  twostate lemma AroundKept(new root: Item, s: set<Item>, new nodes: seq<Item>, new item: Item)
    requires root in s && item in s && old(Around(root, s))
    requires Gathered(nodes, root, s) && item.owner in {null, root}
    requires forall n :: n in s ==> SameChild(n) && (n != root ==> SameNode(n))
    requires forall n :: n in s && n !in nodes && n != item ==> SameLinks(n)
    ensures Around(root, s)
  {
    forall n | n in s && n != root
      ensures (forall i :: 0 <= i < |n.kids| ==> n.kids[i] in s && n.kids[i].owner == n) && n.Linked() && n.Holds()
    {
      hide Item.Linked;
      hide Item.Holds;
      NodeKept(n);
    }
  }

  method Take(root: Item, which: int, ghost s: set<Item>) returns (item: Item?)
    requires root in s && Around(root, s) && root.Linked() && Gathered(root.kids, root, s)
    modifies root`child, root`kids, root.kids`next, root.kids`prev
    ensures Around(root, s) && root.Linked()
    ensures if 0 <= which < |old(root.kids)| then
              item == old(root.kids)[which] && root.kids == Without(old(root.kids), which) && item.next == null
            else item == null && root.kids == old(root.kids)
  {
    assert root.owner == null;
    hide Around;
    hide Gathered;
    hide Without;
    hide Item.Linked;
    hide Item.Holds;
    item := root.DetachAt(which);
    AroundKept(root, s, old(root.kids), root);
  }

  method Insert(root: Item, which: nat, item: Item, ghost s: set<Item>)
    requires root in s && Around(root, s) && root.Linked() && Gathered(root.kids, root, s)
    requires item in s && item.owner == null && item != root && item !in root.kids
    requires root.kids != [] && which >= |root.kids| ==> item.next == null
    modifies root`child, root`kids, root.kids`next, root.kids`prev, item`next, item`prev
    ensures Around(root, s) && root.Linked()
    ensures root.kids == Inserted(old(root.kids), which, item)
  {
    hide Around;
    hide Gathered;
    hide Inserted;
    hide Item.LinkedTo;
    hide Item.Holds;
    var _ := root.InsertAt(which, item);
    AroundKept(root, s, old(root.kids), item);
  }

  method Exchange(root: Item, item: Item, replacement: Item, ghost i: nat, ghost s: set<Item>) returns (ok: bool)
    requires root in s && Around(root, s) && root.Linked() && Gathered(root.kids, root, s)
    requires i < |root.kids| && root.kids[i] == item
    requires replacement in s && replacement.owner == null && replacement != root && replacement !in root.kids
    modifies root`child, root`kids, root.kids`next, root.kids`prev, replacement`next, replacement`prev
    ensures ok && Around(root, s) && root.Linked() && root.kids == old(root.kids)[i := replacement]
  {
    hide Around;
    hide Gathered;
    hide Item.Linked;
    hide Item.Holds;
    ok := root.Replace(item, replacement, i);
    AroundKept(root, s, old(root.kids), replacement);
  }

  method Append(root: Item, item: Item, ghost s: set<Item>) returns (ok: bool)
    requires root in s && Around(root, s) && root.Linked() && Gathered(root.kids, root, s)
    requires item in s && item.owner == null && item != root && item !in root.kids
             && (root.kids != [] ==> item.next == null)
    modifies root`child, root`kids, root.kids`next, root.kids`prev, item`next, item`prev
    ensures ok && Around(root, s) && root.Linked() && root.kids == old(root.kids) + [item]
  {
    hide Around;
    hide Gathered;
    hide Item.LinkedTo;
    hide Item.Holds;
    ok := root.AddItem(item);
    AroundKept(root, s, old(root.kids), item);
  }

  // ----- the edits of a top-level array -----

  ghost method FinishInsert(root: Item, which: nat, item: Item, s: set<Item>, nodes: seq<Item>, vals: seq<Json>)
    requires Around(root, s) && root.Linked() && root.kids == Inserted(nodes, which, item)
    requires Gathered(nodes, root, s) && Carry(nodes, vals) && item in s && item != root && item.owner == null
    requires root.kind == KArray
    modifies root`val, root.kids`owner
    ensures TopArray(root, s, Inserted(vals, which, item.val))
  {
    hide Around;
    hide Carry;
    hide Gathered;
    hide Inserted;
    InsertedNodes(nodes, vals, root, s, which, item);
    Renew(root, s, Inserted(vals, which, item.val));
  }

  lemma InsertedFrom(a: seq<Item>, i: nat, x: Item)
    ensures forall j :: 0 <= j < |Inserted(a, i, x)| ==> Inserted(a, i, x)[j] == x || Inserted(a, i, x)[j] in a
  {
  }

  method InsertOne(root: Item, which: nat, item: Item, ghost s: set<Item>, ghost vals: seq<Json>)
    requires TopArray(root, s, vals) && item in s && item.owner == null && item != root
    requires root.kids != [] && which >= |root.kids| ==> item.next == null
    modifies root`child, root`kids, root`val, root.kids`next, root.kids`prev, root.kids`owner
    modifies item`next, item`prev, item`owner
    ensures TopArray(root, s, Inserted(vals, which, item.val))
  {
    hide TopArray;
    hide Owned;
    hide Item.Linked;
    hide Forest;
    hide Around;
    hide Gathered;
    hide Carry;
    hide Inserted;
    Entered(root, s, vals);
    KidOwned(root, item);
    ghost var nodes := root.kids;
    InsertedFrom(nodes, which, item);
    Insert(root, which, item, s);
    FinishInsert(root, which, item, s, nodes, vals);
  }

  /** cJSON_InsertItemInArray. */
  method InsertInArray(root: Item, which: int, item: Item, ghost s: set<Item>, ghost vals: seq<Json>) returns (ok: bool)
    requires TopArray(root, s, vals) && item in s && item.owner == null && item != root
    requires root.kids != [] && which >= |root.kids| ==> item.next == null
    modifies root`child, root`kids, root`val, root.kids`next, root.kids`prev, root.kids`owner
    modifies item`next, item`prev, item`owner
    ensures ok == (which >= 0) && TopArray(root, s, if ok then Inserted(vals, which, item.val) else vals)
  {
    if which < 0 {
      return false;
    }
    InsertOne(root, which, item, s, vals);
    ok := true;
  }

  lemma Appended<T>(a: seq<T>, x: T)
    ensures Inserted(a, |a|, x) == a + [x]
  {
  }

  /** cJSON_AddItemToArray. */
  method AddToArray(root: Item, item: Item, ghost s: set<Item>, ghost vals: seq<Json>) returns (ok: bool)
    requires TopArray(root, s, vals) && item in s && item.owner == null && item != root
    requires root.kids != [] ==> item.next == null
    modifies root`child, root`kids, root`val, root.kids`next, root.kids`prev, root.kids`owner
    modifies item`next, item`prev, item`owner
    ensures ok && TopArray(root, s, vals + [item.val])
  {
    hide TopArray;
    hide Owned;
    hide Item.Linked;
    hide Forest;
    hide Around;
    hide Gathered;
    hide Carry;
    hide Inserted;
    Entered(root, s, vals);
    KidOwned(root, item);
    ghost var nodes, n := root.kids, |vals|;
    Appended(nodes, item);
    Appended(vals, item.val);
    ok := Append(root, item, s);
    InsertedNodes(nodes, vals, root, s, n, item);
    Renew(root, s, vals + [item.val]);
  }

  ghost method Release(root: Item, item: Item, s: set<Item>, nodes: seq<Item>, which: nat)
    requires Around(root, s) && root.Linked() && Gathered(root.kids, root, s) && item.owner == root
    requires which < |nodes| && item == nodes[which] && root.kids == Without(nodes, which)
    requires forall i, j :: 0 <= i < j < |nodes| ==> nodes[i] != nodes[j]
    modifies item`owner
    ensures Around(root, s) && root.Linked() && Gathered(root.kids, root, s) && item.owner == null && item !in root.kids
  {
    WithoutAt(nodes, which);
    item.owner := null;
  }

  lemma StillGathered(nodes: seq<Item>, root: Item, s: set<Item>, which: nat)
    requires Gathered(nodes, root, s) && which < |nodes|
    ensures Gathered(Without(nodes, which), root, s) && nodes[which] in s
  {
  }

  lemma LeftOver(a: seq<Item>, i: nat)
    requires i < |a|
    ensures forall j :: 0 <= j < |Without(a, i)| ==> Without(a, i)[j] in a
  {
  }

  /** Takes a child out of the list; nobody owns it any more. */
  method TakeOut(root: Item, which: int, ghost s: set<Item>) returns (item: Item?)
    requires root in s && Around(root, s) && root.Linked() && Gathered(root.kids, root, s)
    requires Owned(root)
    modifies root`child, root`kids, root.kids`next, root.kids`prev, root.kids`owner
    ensures Around(root, s) && root.Linked() && Gathered(root.kids, root, s)
    ensures if 0 <= which < |old(root.kids)| then
              && item == old(root.kids)[which] && item in s && item.owner == null && item.next == null
              && root.kids == Without(old(root.kids), which) && item !in root.kids
            else item == null && root.kids == old(root.kids)
  {
    hide Around;
    hide Without;
    ghost var nodes := root.kids;
    item := Take(root, which, s);
    if item != null {
      StillGathered(nodes, root, s, which);
      hide Gathered;
      Release(root, item, s, nodes, which);
    }
  }

  lemma RemainingValues(nodes: seq<Item>, vals: seq<Json>, which: nat)
    requires Carry(nodes, vals) && which < |nodes|
    ensures Carry(Without(nodes, which), Without(vals, which)) && nodes[which].val == vals[which]
  {
  }

  /** The children left after a node was taken out, or none was. */
  ghost method FinishDetach(root: Item, which: int, s: set<Item>, nodes: seq<Item>, vals: seq<Json>)
    requires root.kind == KArray
    requires Around(root, s) && root.Linked() && Gathered(root.kids, root, s) && Carry(nodes, vals)
    requires root.kids == if 0 <= which < |nodes| then Without(nodes, which) else nodes
    modifies root`val, root.kids`owner
    ensures TopArray(root, s, if 0 <= which < |vals| then Without(vals, which) else vals)
    ensures |nodes| == |vals| && (0 <= which < |vals| && nodes[which] != root ==> nodes[which].val == vals[which])
  {
    assert |nodes| == |vals|;
    if 0 <= which < |nodes| {
      RemainingValues(nodes, vals, which);
    }
    hide Around;
    hide Gathered;
    hide Without;
    hide Carry;
    Renew(root, s, if 0 <= which < |vals| then Without(vals, which) else vals);
  }

  /** cJSON_DetachItemFromArray: the item becomes a tree of its own. */
  method DetachFromArray(root: Item, which: int, ghost s: set<Item>, ghost vals: seq<Json>) returns (item: Item?)
    requires TopArray(root, s, vals)
    modifies root`child, root`kids, root`val, root.kids`next, root.kids`prev, root.kids`owner
    ensures if 0 <= which < |vals| then
              && item == old(root.kids[which]) && item in s && item.owner == null && item.next == null
              && item.val == vals[which] && TopArray(root, s, Without(vals, which))
            else item == null && TopArray(root, s, vals)
  {
    hide TopArray;
    hide Item.Linked;
    hide Forest;
    hide Around;
    hide Without;
    hide Gathered;
    hide Carry;
    hide Owned;
    Entered(root, s, vals);
    ghost var nodes := root.kids;
    item := TakeOut(root, which, s);
    if item != null {
      LeftOver(nodes, which);
    }
    FinishDetach(root, which, s, nodes, vals);
  }

  method ReplaceOne(root: Item, ghost which: nat, replaced: Item, item: Item, ghost s: set<Item>, ghost vals: seq<Json>)
    requires TopArray(root, s, vals) && item in s && item.owner == null && item != root
    requires which < |vals| && which < |root.kids| && root.kids[which] == replaced
    modifies root`child, root`kids, root`val, root.kids`next, root.kids`prev, root.kids`owner
    modifies item`next, item`prev, item`owner
    ensures TopArray(root, s, vals[which := item.val])
  {
    hide TopArray;
    hide Owned;
    hide Item.Linked;
    hide Forest;
    hide Around;
    hide Gathered;
    hide Carry;
    Entered(root, s, vals);
    ghost var nodes := root.kids;
    KidOwned(root, item);
    var _ := Exchange(root, replaced, item, which, s);
    ReplacedNodes(nodes, vals, root, s, which, item);
    Renew(root, s, vals[which := item.val]);
  }

  /** cJSON_ReplaceItemInArray. The item replaced is deleted, so nothing is said of it. */
  method ReplaceInArray(root: Item, which: int, item: Item, ghost s: set<Item>, ghost vals: seq<Json>)
    returns (ok: bool)
    requires TopArray(root, s, vals) && item in s && item.owner == null && item != root
    modifies root`child, root`kids, root`val, root.kids`next, root.kids`prev, root.kids`owner
    modifies item`next, item`prev, item`owner
    ensures ok == (0 <= which < |vals|) && TopArray(root, s, if ok then vals[which := item.val] else vals)
  {
    Entered(root, s, vals);
    ok := false;
    if which >= 0 {
      var replaced := root.GetArrayItem(which);
      if replaced != null {
        ReplaceOne(root, which, replaced, item, s, vals);
        ok := true;
      }
    }
  }
}
