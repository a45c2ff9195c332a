/** Editing the members of a top-level object, with case-sensitive keys; compare JsonEdit. */
module JsonEditObject {
  import opened Bytes
  import opened JsonValue
  import opened JsonTree
  import opened JsonEdit
  import JsonCompare
  import JsonNodes

  ghost predicate CarryMembers(nodes: seq<Item>, ms: seq<Member>)
    reads nodes`val, nodes`key
  {
    && |ms| == |nodes|
    && forall i :: 0 <= i < |nodes| ==>
         nodes[i].val == ms[i].value && nodes[i].key == Some(ms[i].key) && NulFree(ms[i].key)
  }

  /** A top-level object of a forest, with its members. */
  ghost predicate TopObject(root: Item, s: set<Item>, ms: seq<Member>)
    reads s
  {
    && Forest(s) && root in s && root.owner == null && root.kind == KObject && root.val == Object(ms)
  }

  lemma Parts(root: Item, s: set<Item>, ms: seq<Member>)
    ensures TopObject(root, s, ms) <==>
              Forest(s) && root in s && root.owner == null && root.kind == KObject && root.val == Object(ms)
  {
  }

  lemma Entered(root: Item, s: set<Item>, ms: seq<Member>)
    requires TopObject(root, s, ms)
    ensures root in s && root.owner == null && root.kind == KObject && Forest(s) && root.val == Object(ms)
    ensures Around(root, s) && root.Linked() && Gathered(root.kids, root, s) && CarryMembers(root.kids, ms)
    ensures root !in root.kids && |ms| == |root.kids| && Owned(root)
  {
    NodeHolds(root, s);
  }

  lemma Closed(root: Item, s: set<Item>, ms: seq<Member>)
    requires Around(root, s) && root.Linked() && CarryMembers(root.kids, ms)
    requires root.kind == KObject && root.val == Object(ms)
    requires forall i :: 0 <= i < |root.kids| ==> root.kids[i] in s && root.kids[i].owner == root
    ensures TopObject(root, s, ms)
  {
  }

  /** The children of an edited object become its own, and it stands for them. */
  ghost method Renew(root: Item, s: set<Item>, ms: seq<Member>)
    requires Around(root, s) && root.Linked() && Gathered(root.kids, root, s) && CarryMembers(root.kids, ms)
    requires root.kind == KObject
    modifies root`val, root.kids`owner
    ensures TopObject(root, s, ms)
  {
    hide Around;
    hide CarryMembers;
    hide TopObject;
    assert root !in root.kids;
    Own(root, s);
    Revalue(root, s, Object(ms));
    Closed(root, s, ms);
  }

  /** strdup of a key into an item that nobody owns: no object notices. */
  method SetKey(item: Item, name: bytes, ghost s: set<Item>)
    requires Forest(s) && item.owner == null
    modifies item`key
    ensures Forest(s) && item.key == Some(name)
  {
    hide Item.Linked;
    item.key := Some(name);
  }

  lemma AppendedNodes(nodes: seq<Item>, ms: seq<Member>, root: Item, s: set<Item>, item: Item, name: bytes)
    requires Gathered(nodes, root, s) && CarryMembers(nodes, ms) && item in s && item != root && item.owner == null
    requires item.key == Some(name) && NulFree(name)
    ensures Gathered(nodes + [item], root, s) && CarryMembers(nodes + [item], ms + [Member(name, item.val)])
  {
  }

  /** cJSON_AddItemToObject. */
  method AddToObject(root: Item, name: bytes, item: Item, ghost s: set<Item>, ghost ms: seq<Member>) returns (ok: bool)
    requires TopObject(root, s, ms) && item in s && item.owner == null && item != root && NulFree(name)
    requires root.kids != [] ==> item.next == null
    modifies root`child, root`kids, root`val, root.kids`next, root.kids`prev, root.kids`owner
    modifies item`next, item`prev, item`owner, item`key
    ensures ok && TopObject(root, s, ms + [Member(name, item.val)])
  {
    hide TopObject;
    hide Owned;
    hide Item.Linked;
    hide Forest;
    hide Around;
    hide Gathered;
    hide CarryMembers;
    Parts(root, s, ms);
    SetKey(item, name, s);
    Parts(root, s, ms);
    Entered(root, s, ms);
    KidOwned(root, item);
    ghost var nodes := root.kids;
    ok := Append(root, item, s);
    AppendedNodes(nodes, ms, root, s, item, name);
    Renew(root, s, ms + [Member(name, item.val)]);
  }

  lemma RemainingMembers(nodes: seq<Item>, ms: seq<Member>, which: nat)
    requires CarryMembers(nodes, ms) && which < |nodes|
    ensures CarryMembers(Without(nodes, which), Without(ms, which)) && nodes[which].val == ms[which].value
  {
  }

  method TakeKeeps(root: Item, item: Item, ghost which: nat, ghost s: set<Item>)
    requires root in s && Around(root, s) && root.Linked() && Gathered(root.kids, root, s)
    requires which < |root.kids| && root.kids[which] == item
    modifies root`child, root`kids, root.kids`next, root.kids`prev
    ensures Around(root, s) && root.Linked() && root.kids == Without(old(root.kids), which) && item.next == null
  {
    assert root.owner == null;
    hide Around;
    hide Gathered;
    hide Without;
    hide Item.Linked;
    hide Item.Holds;
    root.Detach(item, which);
    AroundKept(root, s, old(root.kids), root);
  }

  /** A child of a node, taken out; nobody owns it any more. */
  method TakeChild(root: Item, item: Item, ghost which: nat, ghost s: set<Item>)
    requires root in s && Around(root, s) && root.Linked() && Gathered(root.kids, root, s) && Owned(root)
    requires which < |root.kids| && root.kids[which] == item
    modifies root`child, root`kids, root.kids`next, root.kids`prev, root.kids`owner
    ensures Around(root, s) && root.Linked() && Gathered(root.kids, root, s)
    ensures item in s && item.owner == null && item.next == null && item !in root.kids
    ensures root.kids == Without(old(root.kids), which)
  {
    hide Around;
    hide Without;
    hide Item.Holds;
    ghost var nodes := root.kids;
    TakeKeeps(root, item, which, s);
    StillGathered(nodes, root, s, which);
    hide Gathered;
    Release(root, item, s, nodes, which);
  }

  /** cJSON_DetachItemFromObjectCaseSensitive: the first member of that name becomes a tree of its own. */
  method DetachFromObject(root: Item, name: bytes, ghost s: set<Item>, ghost ms: seq<Member>) returns (item: Item?)
    requires TopObject(root, s, ms)
    modifies root`child, root`kids, root`val, root.kids`next, root.kids`prev, root.kids`owner
    ensures var i := JsonCompare.Find(ms, name);
            if i < |ms| then
              && i < |old(root.kids)| && item == old(root.kids)[i] && item in s && item.owner == null
              && item.next == null && item.val == ms[i].value && TopObject(root, s, Without(ms, i))
            else item == null && TopObject(root, s, ms)
  {
    hide TopObject;
    hide Owned;
    hide Item.Linked;
    hide Forest;
    hide Around;
    hide Gathered;
    hide CarryMembers;
    hide Without;
    Entered(root, s, ms);
    ghost var nodes, i := root.kids, JsonCompare.Find(ms, name);
    item := JsonNodes.GetObjectItem(root, name, s);
    if item != null {
      TakeChild(root, item, i, s);
      LeftOver(nodes, i);
      RemainingMembers(nodes, ms, i);
      Renew(root, s, Without(ms, i));
    }
  }

  lemma ExchangedNodes(nodes: seq<Item>, ms: seq<Member>, root: Item, s: set<Item>, i: nat, item: Item, name: bytes)
    requires Gathered(nodes, root, s) && CarryMembers(nodes, ms) && item in s && item != root && item.owner == null
    requires item.key == Some(name) && NulFree(name) && i < |nodes|
    ensures Gathered(nodes[i := item], root, s) && CarryMembers(nodes[i := item], ms[i := Member(name, item.val)])
  {
  }

  /**
   cJSON_ReplaceItemInObjectCaseSensitive: the first member of that name. The replacement gets the key even
   when there is none. The item replaced is deleted, so nothing is said of it.
   */
  method ReplaceInObject(root: Item, name: bytes, item: Item, ghost s: set<Item>, ghost ms: seq<Member>)
    returns (ok: bool)
    requires TopObject(root, s, ms) && item in s && item.owner == null && item != root && NulFree(name)
    modifies root`child, root`kids, root`val, root.kids`next, root.kids`prev, root.kids`owner
    modifies item`next, item`prev, item`owner, item`key
    ensures var i := JsonCompare.Find(ms, name);
            && ok == (i < |ms|) && item.key == Some(name)
            && TopObject(root, s, if ok then ms[i := Member(name, item.val)] else ms)
  {
    hide TopObject;
    hide Owned;
    hide Item.Linked;
    hide Forest;
    hide Around;
    hide Gathered;
    hide CarryMembers;
    Parts(root, s, ms);
    SetKey(item, name, s);
    Parts(root, s, ms);
    Entered(root, s, ms);
    KidOwned(root, item);
    ghost var nodes, i := root.kids, JsonCompare.Find(ms, name);
    var replaced := JsonNodes.GetObjectItem(root, name, s);
    ok := replaced != null;
    if ok {
      ok := Exchange(root, replaced, item, i, s);
      ExchangedNodes(nodes, ms, root, s, i, item, name);
    }
    Renew(root, s, if ok then ms[i := Member(name, item.val)] else ms);
  }
}
