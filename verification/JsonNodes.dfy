/** cJSON_Compare and cJSON_Duplicate on linked nodes. */
module JsonNodes {
  import opened Bytes
  import opened JsonValue
  import opened JsonTree
  import opened JsonBuild
  import opened JsonCompare

  // ----- depth, which every step into a tree reduces -----

  lemma {:induction false} ElemDepth(es: seq<Json>, i: nat)
    requires i < |es|
    ensures Depth(es[i]) <= DepthElems(es)
  {
    if i > 0 {
      ElemDepth(es[1..], i - 1);
    }
  }

  lemma {:induction false} MemberDepth(ms: seq<Member>, i: nat)
    requires i < |ms|
    ensures Depth(ms[i].value) <= DepthMembers(ms)
  {
    if i > 0 {
      MemberDepth(ms[1..], i - 1);
    }
  }

  // ----- looking up and comparing -----

  lemma FoundAt(ms: seq<Member>, name: bytes, i: nat)
    requires i <= |ms| && (i < |ms| ==> ms[i].key == name)
    requires forall j :: 0 <= j < i ==> ms[j].key != name
    ensures Find(ms, name) == i
  {
  }

  /** A child of an object node, and the depth it loses. */
  lemma ObjectKid(a: Item, s: set<Item>, i: nat)
    requires Forest(s) && a in s && a.kind == KObject && i < |a.kids|
    ensures a.val.Object? && |a.val.members| == |a.kids|
    ensures var c, m := a.kids[i], a.val.members[i];
            && c in s && c.owner == a && c.key == Some(m.key) && c.val == m.value && Depth(c.val) < Depth(a.val)
            && c.next == if i + 1 < |a.kids| then a.kids[i + 1] else null
  {
    NodeHolds(a, s);
    hide Forest;
    MemberDepth(a.val.members, i);
  }

  lemma Kids(a: Item, s: set<Item>)
    requires Forest(s) && a in s
    ensures a.child == if a.kids == [] then null else a.kids[0]
    ensures a.kind == KArray ==> a.val.Array? && |a.val.elems| == |a.kids|
    ensures a.kind == KObject ==> a.val.Object? && |a.val.members| == |a.kids|
  {
    NodeHolds(a, s);
    hide Forest;
  }

  lemma MemberNodes(parent: Item, s: set<Item>)
    requires Forest(s) && parent in s && parent.kind == KObject
    ensures parent.val.Object? && |parent.val.members| == |parent.kids|
    ensures parent.child == if parent.kids == [] then null else parent.kids[0]
    ensures forall i :: 0 <= i < |parent.kids| ==> parent.kids[i].key == Some(parent.val.members[i].key)
    ensures forall i {:trigger parent.kids[i]} :: 0 <= i < |parent.kids| ==>
              parent.kids[i].next == if i + 1 < |parent.kids| then parent.kids[i + 1] else null
  {
    Kids(parent, s);
    forall i | 0 <= i < |parent.kids|
      ensures parent.kids[i].key == Some(parent.val.members[i].key)
      ensures parent.kids[i].next == if i + 1 < |parent.kids| then parent.kids[i + 1] else null
    {
      ObjectKid(parent, s, i);
    }
  }

  /** get_object_item with case-sensitive keys, on an object. */
  method GetObjectItem(parent: Item, name: bytes, ghost s: set<Item>) returns (c: Item?)
    requires Forest(s) && parent in s && parent.kind == KObject
    ensures var i := Find(parent.val.members, name);
            c == if i < |parent.kids| then parent.kids[i] else null
  {
    hide Find;
    MemberNodes(parent, s);
    hide Forest;
    ghost var ms := parent.val.members;
    ghost var i := 0;
    c := parent.child;
    while c != null && c.key.Some? && c.key.value != name
      invariant 0 <= i <= |ms| && c == if i < |ms| then parent.kids[i] else null
      invariant forall j :: 0 <= j < i ==> ms[j].key != name
      decreases |ms| - i
    {
      c := c.next;
      i := i + 1;
    }
    FoundAt(ms, name, i);
    if c == null || c.key == None {
      return null;
    }
  }

  lemma ArrayKid(a: Item, s: set<Item>, i: nat)
    requires Forest(s) && a in s && a.kind == KArray && i < |a.kids|
    ensures a.val.Array? && |a.val.elems| == |a.kids|
    ensures var c := a.kids[i];
            && c in s && c.owner == a && c.val == a.val.elems[i] && Depth(c.val) < Depth(a.val)
            && c.next == if i + 1 < |a.kids| then a.kids[i + 1] else null
  {
    NodeHolds(a, s);
    hide Forest;
    ElemDepth(a.val.elems, i);
  }

  ghost function DepthOf(a: Item?): nat
    reads a
  {
    if a == null then 0 else Depth(a.val)
  }

  /** The comparison of two different arrays. */
  method CompareElements(a: Item, b: Item, ghost s: set<Item>) returns (r: bool)
    requires Forest(s) && a in s && b in s && a != b && a.kind == KArray && b.kind == KArray
    ensures r == Equal(a.val, b.val)
    decreases DepthOf(a) + DepthOf(b), 1
  {
    hide Forest;
    hide Depth;
    Kids(a, s);
    Kids(b, s);
    EqualArrays(a.val, b.val);
    hide Equal;
    ghost var xs, ys := a.val.elems, b.val.elems;
    var aElement, bElement := a.child, b.child;
    ghost var i := 0;
    while aElement != null && bElement != null
      invariant 0 <= i <= |xs| && i <= |ys|
      invariant aElement == if i < |xs| then a.kids[i] else null
      invariant bElement == if i < |ys| then b.kids[i] else null
      invariant forall j :: 0 <= j < i ==> Equal(xs[j], ys[j])
      decreases |xs| - i
    {
      ArrayKid(a, s, i);
      ArrayKid(b, s, i);
      r := Compare(aElement, bElement, s);
      if !r {
        return;
      }
      aElement := aElement.next;
      bElement := bElement.next;
      i := i + 1;
    }
    r := aElement == bElement;
  }

  lemma CoverBoth(ms: seq<Member>, ns: seq<Member>)
    ensures Equal(Object(ms), Object(ns)) == (Covers(ms, ns) && Covers(ns, ms))
  {
    forall i, j | 0 <= i < |ms| && 0 <= j < |ns|
      ensures Equal(ms[i].value, ns[j].value) == Equal(ns[j].value, ms[i].value)
    {
      Symmetric(ms[i].value, ns[j].value);
    }
  }

  /** One round of that loop. */
  method MatchMember(ghost a: Item, aElement: Item, ghost i: nat, b: Item, ghost s: set<Item>) returns (r: bool)
    requires Forest(s) && a in s && b in s && a != b && a.kind == KObject && b.kind == KObject
    requires i < |a.kids| && aElement == a.kids[i]
    ensures a.val.Object? && b.val.Object? && i < |a.val.members| && r == Matches(a.val.members[i], b.val.members)
    decreases DepthOf(a) + DepthOf(b), 0
  {
    hide Forest;
    hide Depth;
    hide Equal;
    Kids(b, s);
    ObjectKid(a, s, i);
    var bElement := GetObjectItem(b, aElement.key.value, s);
    if bElement == null {
      return false;
    }
    ObjectKid(b, s, Find(b.val.members, a.val.members[i].key));
    r := Compare(aElement, bElement, s);
  }

  /** One of the two loops over the members of different objects. */
  method CompareMembers(a: Item, b: Item, ghost s: set<Item>) returns (r: bool)
    requires Forest(s) && a in s && b in s && a != b && a.kind == KObject && b.kind == KObject
    ensures a.val.Object? && b.val.Object? && r == Covers(a.val.members, b.val.members)
    decreases DepthOf(a) + DepthOf(b), 1
  {
    hide Forest;
    hide Depth;
    hide Matches;
    Kids(a, s);
    Kids(b, s);
    ghost var ms, ns := a.val.members, b.val.members;
    var aElement := a.child;
    ghost var i := 0;
    while aElement != null
      invariant 0 <= i <= |ms|
      invariant aElement == if i < |ms| then a.kids[i] else null
      invariant forall j :: 0 <= j < i ==> Matches(ms[j], ns)
      decreases |ms| - i
    {
      ObjectKid(a, s, i);
      r := MatchMember(a, aElement, i, b, s);
      if !r {
        return;
      }
      aElement := aElement.next;
      i := i + 1;
    }
    r := true;
  }

  /** cJSON_Compare. Below two different nodes only different nodes meet, because a node has one owner. */
  method Compare(a: Item?, b: Item?, ghost s: set<Item>) returns (r: bool)
    requires Forest(s) && (a != null ==> a in s) && (b != null ==> b in s)
    ensures r == (a != null && b != null && (a == b || Equal(a.val, b.val)))
    decreases DepthOf(a) + DepthOf(b), 2
  {
    hide CloseEnough;
    if a == null || b == null {
      return false;
    }
    NodeHolds(a, s);
    NodeHolds(b, s);
    hide Forest;
    if a.kind != b.kind {
      return false;
    }
    if a == b {
      return true;
    }
    match a.kind
    case KInvalid =>
      r := false;
    case KNull =>
      r := true;
    case KFalse =>
      r := true;
    case KTrue =>
      r := true;
    case KNumber =>
      r := CloseEnough(a.valuedouble, b.valuedouble);
    case KString =>
      r := a.valuestring.Some? && b.valuestring.Some? && a.valuestring.value == b.valuestring.value;
    case KArray =>
      r := CompareElements(a, b, s);
    case KObject =>
      r := CompareMembers(a, b, s);
      if r {
        r := CompareMembers(b, a, s);
      }
      CoverBoth(a.val.members, b.val.members);
  }

  lemma EqualArrays(a: Json, b: Json)
    requires a.Array? && b.Array?
    ensures Equal(a, b) <==> |a.elems| == |b.elems| && forall i :: 0 <= i < |a.elems| ==> Equal(a.elems[i], b.elems[i])
  {
  }

  /** `m` is equal to the first member of `ns` with its key. */
  predicate Matches(m: Member, ns: seq<Member>) {
    var j := Find(ns, m.key);
    j < |ns| && Equal(m.value, ns[j].value)
  }

  predicate Covers(ms: seq<Member>, ns: seq<Member>) {
    forall i :: 0 <= i < |ms| ==> Matches(ms[i], ns)
  }

  // ----- copying -----

  /** What a copy without the children stands for. */
  function Shallow(v: Json): Json {
    match v
    case Array(_) => Array([])
    case Object(_) => Object([])
    case _ => v
  }

  /** The copies of the first children so far have their values and keys. */
  ghost predicate Copied(nodes: seq<Item>, kids: seq<Item>)
    reads nodes`val, nodes`key, kids`val, kids`key
  {
    |nodes| <= |kids| && forall i :: 0 <= i < |nodes| ==> nodes[i].val == kids[i].val && nodes[i].key == kids[i].key
  }

  lemma CopiedMore(nodes: seq<Item>, kids: seq<Item>, copy: Item)
    requires Copied(nodes, kids) && |nodes| < |kids|
    requires copy.val == kids[|nodes|].val && copy.key == kids[|nodes|].key
    ensures Copied(nodes + [copy], kids)
  {
  }

  /** Everything but the links. */
  method CopyFields(item: Item, ghost s: set<Item>) returns (newitem: Item)
    requires Forest(s) && item in s
    ensures fresh(newitem) && newitem.owner == null && newitem.next == null && newitem.key == item.key
    ensures newitem.kind == item.kind && newitem.valueint == item.valueint
    ensures newitem.valuedouble == item.valuedouble && newitem.valuestring == item.valuestring
    ensures newitem.val == Shallow(item.val) && newitem.kids == [] && newitem.child == null && Forest({newitem})
  {
    NodeHolds(item, s);
    hide Forest;
    newitem := new Item();
    newitem.kind := item.kind;
    newitem.valueint := item.valueint;
    newitem.valuedouble := item.valuedouble;
    newitem.valuestring := item.valuestring;
    newitem.key := item.key;
    newitem.val := Shallow(item.val);
    SingleForest(newitem);
  }

  lemma Kid(a: Item, s: set<Item>, i: nat)
    requires Forest(s) && a in s && i < |a.kids|
    ensures a.kids[i] in s && Depth(a.kids[i].val) < Depth(a.val)
    ensures a.kids[i].next == if i + 1 < |a.kids| then a.kids[i + 1] else null
  {
    NodeHolds(a, s);
    hide Forest;
    if a.kind == KArray {
      ArrayKid(a, s, i);
    } else {
      ObjectKid(a, s, i);
    }
  }

  /** The loop over the children. */
  method DuplicateKids(item: Item, ghost s: set<Item>)
    returns (head: Item?, current: Item?, ghost nodes: seq<Item>, ghost made: set<Item>)
    requires Forest(s) && item in s
    ensures Building(head, current, nodes, made) && fresh(made) && fresh(nodes)
    ensures |nodes| == |item.kids| && Copied(nodes, item.kids)
    decreases DepthOf(item), 0
  {
    hide Forest;
    hide Building;
    hide Depth;
    hide Item.Holds;
    hide Item.Linked;
    NothingBuilt();
    Kids(item, s);
    assert Copied([], item.kids);
    hide Copied;
    head, current, nodes, made := null, null, [], {};
    var child := item.child;
    while child != null
      invariant |nodes| <= |item.kids| && child == if |nodes| < |item.kids| then item.kids[|nodes|] else null
      invariant Building(head, current, nodes, made) && fresh(made) && fresh(nodes)
      invariant Copied(nodes, item.kids)
      decreases |item.kids| - |nodes|
    {
      Kid(item, s, |nodes|);
      var copy;
      ghost var sub;
      copy, sub := Duplicate(child, true, s);
      var newchild: Item := copy;
      CopiedMore(nodes, item.kids, newchild);
      head := Attach(head, current, newchild, nodes, made, sub);
      current := newchild;
      nodes, made := nodes + [newchild], made + (sub + {newchild});
      child := child.next;
    }
  }

  /** The end of the copy: the list is closed under the new item. */
  method CloseCopy(ghost item: Item, ghost s: set<Item>, newitem: Item, head: Item?, current: Item?,
                   ghost nodes: seq<Item>, ghost made: set<Item>)
    requires Forest(s) && item in s && newitem !in s && newitem !in made
    requires (forall n :: n in nodes ==> n !in s) && Building(head, current, nodes, made)
    requires |nodes| == |item.kids| && Copied(nodes, item.kids)
    requires newitem.kind == item.kind && newitem.valueint == item.valueint
    requires newitem.valuedouble == item.valuedouble && newitem.valuestring == item.valuestring
    modifies nodes`prev, nodes`owner, newitem`child, newitem`kids, newitem`val
    ensures newitem.val == item.val && Forest(made + {newitem})
  {
    hide Item.Holds;
    hide Item.Linked;
    hide Forest;
    hide Building;
    hide Copied;
    NodeHolds(item, s);
    Close(newitem, head, current, nodes, made);
    newitem.val := item.val;
    SameHolds(item, newitem);
    Rooted(newitem, made);
  }

  /** cJSON_Duplicate: a tree of new nodes with the same value, or the item alone. */
  method Duplicate(item: Item?, recurse: bool, ghost s: set<Item>) returns (newitem: Item?, ghost made: set<Item>)
    requires Forest(s) && (item != null ==> item in s)
    ensures newitem == null <==> item == null
    ensures item != null ==> fresh(newitem) && newitem.owner == null && newitem.next == null && newitem.key == item.key
    ensures item != null ==> newitem.val == if recurse then item.val else Shallow(item.val)
    ensures item != null ==> fresh(made) && newitem !in made && Forest(made + {newitem})
    decreases DepthOf(item), 1
  {
    made := {};
    if item == null {
      return null, {};
    }
    newitem := CopyFields(item, s);
    hide Forest;
    if !recurse {
      assert made + {newitem} == {newitem};
      return;
    }
    var head, current;
    ghost var nodes;
    head, current, nodes, made := DuplicateKids(item, s);
    CloseCopy(item, s, newitem, head, current, nodes, made);
  }

  lemma SameHolds(item: Item, copy: Item)
    requires item.Holds() && |copy.kids| == |item.kids| && Copied(copy.kids, item.kids)
    requires copy.kind == item.kind && copy.valueint == item.valueint && copy.val == item.val
    requires copy.valuedouble == item.valuedouble && copy.valuestring == item.valuestring
    ensures copy.Holds()
  {
  }
}
