/** How the parser and cJSON_Duplicate build child lists: append node after node, then close the list. */
module JsonBuild {
  import opened Bytes
  import opened JsonValue
  import opened JsonTree

  /** A list under construction: linked in order, its items not yet owned. */
  ghost predicate Chain(nodes: seq<Item>)
    reads nodes`next, nodes`prev, nodes`owner
  {
    && (forall i, j :: 0 <= i < j < |nodes| ==> nodes[i] != nodes[j])
    && (forall i {:trigger nodes[i].owner} :: 0 <= i < |nodes| ==> nodes[i].owner == null)
    && (forall i {:trigger nodes[i].next} :: 0 <= i < |nodes| ==>
          nodes[i].next == if i + 1 < |nodes| then nodes[i + 1] else null)
    && (forall i {:trigger nodes[i].prev} :: 0 < i < |nodes| ==> nodes[i].prev == nodes[i - 1])
  }

  function First(nodes: seq<Item>): Item? {
    if nodes == [] then null else nodes[0]
  }

  function Last(nodes: seq<Item>): Item? {
    if nodes == [] then null else nodes[|nodes| - 1]
  }

  lemma ForestUnion(a: set<Item>, b: set<Item>)
    requires Forest(a) && Forest(b)
    ensures Forest(a + b)
  {
  }

  lemma SingleForest(item: Item)
    requires item.kids == [] && item.child == null && item.Holds()
    ensures Forest({item})
  {
  }

  /** The values of array elements under construction. */
  ghost predicate Elements(nodes: seq<Item>, vals: seq<Json>)
    reads nodes`val
  {
    |vals| == |nodes| && forall i :: 0 <= i < |nodes| ==> nodes[i].val == vals[i]
  }

  ghost predicate Members(nodes: seq<Item>, vals: seq<Member>)
    reads nodes`val, nodes`key
  {
    |vals| == |nodes| && forall i :: 0 <= i < |nodes| ==>
      nodes[i].val == vals[i].value && nodes[i].key == Some(vals[i].key) && NulFree(vals[i].key)
  }

  // A node nobody owns can be linked without disturbing the finished trees around it.

  method SetNext(node: Item, next: Item, ghost made: set<Item>)
    requires Forest(made) && node.owner == null
    modifies node`next
    ensures Forest(made) && node.next == next
  {
    node.next := next;
  }

  method SetPrev(node: Item, prev: Item, ghost made: set<Item>)
    requires Forest(made) && node.owner == null
    modifies node`prev
    ensures Forest(made) && node.prev == prev
  {
    node.prev := prev;
  }

  ghost method Adopt(item: Item, nodes: seq<Item>, made: set<Item>)
    requires Forest(made) && forall i :: 0 <= i < |nodes| ==> nodes[i].owner == null
    modifies nodes`owner
    ensures Forest(made) && forall i :: 0 <= i < |nodes| ==> nodes[i].owner == item
  {
    forall i | 0 <= i < |nodes| {
      nodes[i].owner := item;
    }
  }

  /** A list with one more node: only two pointers are new. */
  twostate lemma ChainMore(nodes: seq<Item>, new item: Item)
    requires old(Chain(nodes)) && nodes != [] && item !in nodes
    requires item.owner == null && item.next == null && item.prev == nodes[|nodes| - 1]
    requires nodes[|nodes| - 1].next == item
    requires forall i {:trigger nodes[i]} :: 0 <= i < |nodes| - 1 ==> nodes[i].next == old(nodes[i].next)
    requires forall i {:trigger nodes[i]} :: 0 <= i < |nodes| ==>
      nodes[i].prev == old(nodes[i].prev) && nodes[i].owner == old(nodes[i].owner)
    ensures Chain(nodes + [item])
  {
    var all := nodes + [item];
    assert |all| == |nodes| + 1 && all[|nodes|] == item;
    assert forall i :: 0 <= i < |nodes| ==> all[i] == nodes[i];
  }

  lemma ChainOne(item: Item)
    requires item.owner == null && item.next == null
    ensures Chain([item])
  {
  }

  /** Links `item` behind the last node of a list. */
  method Join(current: Item, item: Item, ghost nodes: seq<Item>, ghost made: set<Item>)
    requires Chain(nodes) && nodes != [] && current == nodes[|nodes| - 1] && Forest(made)
    requires item.owner == null && item.next == null && item !in nodes
    modifies current`next, item`prev
    ensures Chain(nodes + [item]) && Forest(made)
  {
    hide Forest;
    assert current.owner == null;
    SetNext(current, item, made);
    SetPrev(item, current, made);
    ChainMore(nodes, item);
  }

  /** A list under construction, from `head` to `current`, among the nodes of finished trees. */
  ghost predicate Building(head: Item?, current: Item?, nodes: seq<Item>, made: set<Item>)
    reads made, nodes`next, nodes`prev, nodes`owner
  {
    && Chain(nodes) && Forest(made) && (forall n :: n in nodes ==> n in made)
    && head == First(nodes) && current == Last(nodes)
  }

  /** The same with a node `item` at the end that has no value yet. */
  ghost predicate Pending(head: Item?, item: Item, nodes: seq<Item>, made: set<Item>)
    reads made, (nodes + [item])`next, (nodes + [item])`prev, (nodes + [item])`owner
  {
    && Chain(nodes + [item]) && Forest(made) && (forall n :: n in nodes ==> n in made)
    && head == First(nodes + [item])
  }

  lemma Finished(head: Item?, item: Item, nodes: seq<Item>, made: set<Item>, sub: set<Item>)
    requires Pending(head, item, nodes, made) && Forest(sub + {item})
    ensures Building(head, item, nodes + [item], made + (sub + {item}))
  {
    ForestUnion(made, sub + {item});
    hide Chain;
    hide Forest;
  }

  lemma NothingBuilt()
    ensures Building(null, null, [], {}) && Elements([], []) && Members([], [])
  {
  }

  /** A new node at the end of the list. */
  method Append(head: Item?, current: Item?, ghost nodes: seq<Item>, ghost made: set<Item>)
    returns (head': Item?, item: Item)
    requires Building(head, current, nodes, made)
    modifies nodes`next
    ensures fresh(item) && item.Blank() && item.key == None
    ensures Pending(head', item, nodes, made)
  {
    hide Forest;
    hide Chain;
    item := new Item();
    if current == null {
      head' := item;
      ChainOne(item);
      assert nodes + [item] == [item];
    } else {
      head' := head;
      Join(current, item, nodes, made);
    }
  }

  lemma BuildingIs(head: Item?, current: Item?, nodes: seq<Item>, made: set<Item>)
    ensures Building(head, current, nodes, made) <==>
              && Chain(nodes) && Forest(made) && (forall n :: n in nodes ==> n in made)
              && head == First(nodes) && current == Last(nodes)
  {
  }

  lemma BuildingMore(head: Item, item: Item, nodes: seq<Item>, all: set<Item>)
    requires Chain(nodes + [item]) && Forest(all) && (forall n :: n in nodes ==> n in all) && item in all
    requires head == First(nodes + [item])
    ensures Building(head, item, nodes + [item], all)
  {
    hide Chain;
    hide Forest;
  }

  /** A finished tree at the end of the list. */
  method Attach(head: Item?, current: Item?, item: Item, ghost nodes: seq<Item>, ghost made: set<Item>,
                ghost sub: set<Item>)
    returns (head': Item?)
    requires Building(head, current, nodes, made) && Forest(sub + {item})
    requires item.owner == null && item.next == null && item !in nodes
    modifies nodes`next, item`prev
    ensures Building(head', item, nodes + [item], made + (sub + {item}))
  {
    hide Building;
    hide Forest;
    hide Chain;
    BuildingIs(head, current, nodes, made);
    ghost var all := made + (sub + {item});
    ForestUnion(made, sub + {item});
    if current == null {
      head' := item;
      ChainOne(item);
      assert nodes == [] && nodes + [item] == [item];
    } else {
      head' := head;
      Join(current, item, nodes, all);
    }
    BuildingMore(head', item, nodes, all);
  }

  /** The head's `prev` becomes the last node, and the nodes become the children of `item`. */
  method Close(item: Item, head: Item?, current: Item?, ghost nodes: seq<Item>, ghost made: set<Item>)
    requires Building(head, current, nodes, made) && item !in made
    modifies nodes`prev, nodes`owner, item`child, item`kids
    ensures item.kids == nodes && item.Linked() && Forest(made)
    ensures forall i :: 0 <= i < |nodes| ==> nodes[i].owner == item && nodes[i] in made
  {
    hide Forest;
    if head != null && current != null {
      SetPrev(head, current, made);
    }
    item.child := head;
    Adopt(item, nodes, made);
    item.kids := nodes;
  }

  lemma Rooted(item: Item, made: set<Item>)
    requires Forest(made) && item.Linked() && item.Holds()
    requires forall i :: 0 <= i < |item.kids| ==> item.kids[i] in made && item.kids[i].owner == item
    ensures Forest(made + {item})
  {
  }

  method CloseArray(item: Item, head: Item?, current: Item?,
                    ghost nodes: seq<Item>, ghost vals: seq<Json>, ghost made: set<Item>)
    requires Building(head, current, nodes, made) && item !in made && Elements(nodes, vals)
    modifies nodes`prev, nodes`owner, item`kind, item`child, item`kids, item`val
    ensures item.val == Array(vals) && Forest(made + {item})
  {
    hide Forest;
    Close(item, head, current, nodes, made);
    item.kind := KArray;
    item.val := Array(vals);
    Rooted(item, made);
  }

  method CloseObject(item: Item, head: Item?, current: Item?,
                     ghost nodes: seq<Item>, ghost vals: seq<Member>, ghost made: set<Item>)
    requires Building(head, current, nodes, made) && item !in made && Members(nodes, vals)
    modifies nodes`prev, nodes`owner, item`kind, item`child, item`kids, item`val
    ensures item.val == Object(vals) && Forest(made + {item})
  {
    hide Forest;
    Close(item, head, current, nodes, made);
    item.kind := KObject;
    item.val := Object(vals);
    Rooted(item, made);
  }
}
