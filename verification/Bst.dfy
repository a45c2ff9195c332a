/**
 The counting binary search tree of `bst.c`. As a ghost, the tree keeps for each key the open interval of
 the keys that can stand below its node; the invariant is stated on these intervals, without recursion.
 */
module Bst {
  import opened Bytes

  const KEYS := 0x1_0000_0000
  type uint32 = x: int | 0 <= x < KEYS

  // ----- the shape of the tree -----

  /** The keys of the children of a node, and the interval the subtree fills. */
  datatype Spot = Spot(left: Option<uint32>, right: Option<uint32>, lo: int, hi: int)

  type Shape = map<uint32, Spot>

  /** The child for an interval: there is none only if the interval has no key. */
  predicate Covers(s: Shape, child: Option<uint32>, lo: int, hi: int) {
    match child
    case None => forall j :: j in s ==> !(lo < j < hi)
    case Some(c) => c in s && s[c].lo == lo && s[c].hi == hi
  }

  predicate Splits(s: Shape, k: uint32)
    requires k in s
  {
    && -1 <= s[k].lo < k < s[k].hi <= KEYS
    && Covers(s, s[k].left, s[k].lo, k) && Covers(s, s[k].right, k, s[k].hi)
  }

  /** The interval of `k` lies on one side of any key `j` above it. */
  predicate Beside(s: Shape, j: uint32, k: uint32)
    requires j in s && k in s
  {
    && (s[j].lo < k < j ==> s[j].lo <= s[k].lo && s[k].hi <= j)
    && (j < k < s[j].hi ==> j <= s[k].lo && s[k].hi <= s[j].hi)
  }

  predicate Ordered(s: Shape) {
    && (forall k :: k in s ==> Splits(s, k))
    && (forall j, k :: j in s && k in s ==> Beside(s, j, k))
  }

  /** `j` is above the interval of `n`, on whose path to `key` it has a child. */
  predicate PassedBy(s: Shape, j: uint32, n: uint32, key: uint32)
    requires j in s && n in s
  {
    && j != key
    && (key < j ==> s[j].left.Some? && s[j].lo <= s[n].lo && s[n].hi <= j)
    && (key > j ==> s[j].right.Some? && j <= s[n].lo && s[n].hi <= s[j].hi)
  }

  /** The search for `key` has come to `n`. */
  predicate OnPath(s: Shape, n: uint32, key: uint32) {
    && n in s && s[n].lo < key < s[n].hi
    && forall j :: j in s && s[j].lo < key < s[j].hi && !(s[n].lo < j < s[n].hi) ==> PassedBy(s, j, n, key)
  }

  lemma PathStarts(s: Shape, root: uint32, key: uint32)
    requires Ordered(s) && root in s && s[root].lo == -1 && s[root].hi == KEYS
    ensures OnPath(s, root, key)
  {
    assert forall j :: j in s ==> Splits(s, j);
  }

  function Child(s: Shape, n: uint32, key: uint32): Option<uint32>
    requires n in s
  {
    if key < n then s[n].left else s[n].right
  }

  lemma PathStep(s: Shape, n: uint32, key: uint32)
    requires Ordered(s) && OnPath(s, n, key) && key != n && Child(s, n, key).Some?
    ensures var c := Child(s, n, key).value;
            OnPath(s, c, key) && s[c].hi - s[c].lo < s[n].hi - s[n].lo
  {
    assert Splits(s, n);
    var c := Child(s, n, key).value;
    forall j | j in s && s[j].lo < key < s[j].hi && !(s[c].lo < j < s[c].hi)
      ensures PassedBy(s, j, c, key)
    {
      assert Splits(s, j);
      if s[n].lo < j < s[n].hi {
        assert Beside(s, n, j);
      } else {
        assert PassedBy(s, j, n, key);
      }
    }
  }

  /** Where the search ends without a child, the key is not in the tree. */
  lemma PathEnds(s: Shape, n: uint32, key: uint32)
    requires Ordered(s) && OnPath(s, n, key) && key != n && Child(s, n, key).None?
    ensures key !in s
    ensures forall j :: j in s && s[n].lo < j < s[n].hi && (j < n <==> key < n) ==> j == n
    ensures forall j :: j in s && j != n && s[j].lo < key < s[j].hi ==> PassedBy(s, j, n, key)
  {
    assert Splits(s, n);
    forall j | j in s && j != n && s[j].lo < key < s[j].hi
      ensures PassedBy(s, j, n, key)
    {
      assert Splits(s, j);
      assert Beside(s, n, j);
    }
  }

  /** The shape with a leaf for `key` below `n`. */
  function Grown(s: Shape, n: uint32, key: uint32): Shape
    requires n in s
  {
    var p := s[n];
    if key < n then s[n := p.(left := Some(key))][key := Spot(None, None, p.lo, n)]
    else s[n := p.(right := Some(key))][key := Spot(None, None, n, p.hi)]
  }

  lemma GrownSplits(s: Shape, n: uint32, key: uint32, k: uint32)
    requires Ordered(s) && OnPath(s, n, key) && key != n && Child(s, n, key).None? && k in Grown(s, n, key)
    ensures Splits(Grown(s, n, key), k)
  {
    hide Ordered;
    SplitAt(s, n);
    PathEnds(s, n, key);
    hide OnPath;
    if k == n {
    } else if k != key {
      SplitAt(s, k);
    }
  }

  lemma SplitAt(s: Shape, k: uint32)
    requires Ordered(s) && k in s
    ensures Splits(s, k)
  {
  }

  lemma GrownBeside(s: Shape, n: uint32, key: uint32, j: uint32, k: uint32)
    requires Ordered(s) && OnPath(s, n, key) && key != n && Child(s, n, key).None?
    requires j in Grown(s, n, key) && k in Grown(s, n, key)
    ensures Beside(Grown(s, n, key), j, k)
  {
    PathEnds(s, n, key);
    assert Splits(s, n);
    if j == key {
      assert k != key ==> Splits(s, k);
    } else if k == key {
      assert Splits(s, j);
    } else {
      assert Beside(s, j, k);
    }
  }

  lemma GrownOrdered(s: Shape, n: uint32, key: uint32)
    requires Ordered(s) && OnPath(s, n, key) && key != n && Child(s, n, key).None?
    ensures Ordered(Grown(s, n, key))
  {
    var t := Grown(s, n, key);
    forall k | k in t
      ensures Splits(t, k)
    {
      GrownSplits(s, n, key, k);
    }
    forall j, k | j in t && k in t
      ensures Beside(t, j, k)
    {
      GrownBeside(s, n, key, j, k);
    }
  }

  /** A pointer to the data of a node, 0 for none. */
  type Data = nat

  datatype Entry = Entry(count: int, data: Data)

  function Increased(m: map<uint32, Entry>, key: uint32): map<uint32, Entry> {
    if key in m then m[key := Entry(m[key].count + 1, m[key].data)] else m
  }

  function Added(m: map<uint32, Entry>, key: uint32, value: Data): map<uint32, Entry> {
    if key in m then Increased(m, key) else m[key := Entry(1, value)]
  }

  // ----- the nodes -----

  class Node {
    const key: uint32
    const data: Data
    var count: int
    var left: Node?
    var right: Node?

    /** calloc, and the assignments that follow each time. */
    constructor (key: uint32, data: Data)
      ensures this.key == key && this.count == 1 && this.data == data && left == null && right == null
    {
      this.key, this.count, this.data, this.left, this.right := key, 1, data, null, null;
    }
  }

  /** What a node holds besides its key. */
  datatype Cell = Cell(left: Node?, right: Node?, count: int, data: Data)

  /** The node of each key, what is in it, and its place in the shape. */
  datatype View = View(nodes: map<uint32, Node>, cells: map<uint32, Cell>, shape: Shape, top: Option<uint32>)

  /** What is recorded for each key. */
  function Contents(v: View): (m: map<uint32, Entry>)
    ensures m.Keys == v.cells.Keys
  {
    map k | k in v.cells :: Entry(v.cells[k].count, v.cells[k].data)
  }

  /** A pointer to the node of a key. */
  predicate Points(nodes: map<uint32, Node>, c: Node?, key: Option<uint32>) {
    match key
    case None => c == null
    case Some(k) => k in nodes && c == nodes[k]
  }

  predicate Linked(v: View, k: uint32)
    requires k in v.cells && k in v.shape
  {
    Points(v.nodes, v.cells[k].left, v.shape[k].left) && Points(v.nodes, v.cells[k].right, v.shape[k].right)
  }

  /** The pointers follow the shape. */
  predicate Well(v: View, root: Node?) {
    && v.nodes.Keys == v.cells.Keys == v.shape.Keys && Ordered(v.shape)
    && (forall k :: k in v.nodes ==> v.nodes[k].key == k)
    && Points(v.nodes, root, v.top) && (v.top == None ==> v.nodes.Keys == {})
    && (v.top.Some? ==> v.top.value in v.shape && v.shape[v.top.value].lo == -1 && v.shape[v.top.value].hi == KEYS)
    && forall k :: k in v.nodes ==> Linked(v, k)
  }

  predicate Known(v: View, n: Node) {
    n.key in v.nodes && n.key in v.cells && v.nodes[n.key] == n
  }

  /** A tree of one node. */
  function Single(n: Node): View {
    View(map[n.key := n], map[n.key := Cell(null, null, 1, n.data)], map[n.key := Spot(None, None, -1, KEYS)],
        Some(n.key))
  }

  lemma SingleWell(n: Node)
    ensures Well(Single(n), n) && Contents(Single(n)) == map[n.key := Entry(1, n.data)]
  {
  }

  /** The view with a leaf for `key` below the node of `k`. */
  function Hung(v: View, k: uint32, key: uint32, c: Node, value: Data): View
    requires k in v.cells && k in v.shape
  {
    var cell := v.cells[k];
    var cell' := if key < k then cell.(left := c) else cell.(right := c);
    View(v.nodes[key := c], v.cells[k := cell'][key := Cell(null, null, 1, value)], Grown(v.shape, k, key), v.top)
  }

  lemma PointsMore(nodes: map<uint32, Node>, key: uint32, n: Node, c: Node?, k: Option<uint32>)
    requires key !in nodes && Points(nodes, c, k)
    ensures Points(nodes[key := n], c, k)
  {
  }

  lemma GrownIs(s: Shape, n: uint32, key: uint32)
    requires n in s && key !in s
    ensures var t := Grown(s, n, key);
            && t.Keys == s.Keys + {key} && t[key].left == None && t[key].right == None
            && t[n].left == (if key < n then Some(key) else s[n].left)
            && t[n].right == (if key < n then s[n].right else Some(key))
            && t[n].lo == s[n].lo && t[n].hi == s[n].hi
            && forall k :: k in s && k != n ==> t[k] == s[k]
  {
  }

  lemma HungIs(v: View, k: uint32, key: uint32, c: Node, value: Data)
    requires k in v.cells && k in v.shape && key !in v.cells && key != k
    ensures var w := Hung(v, k, key, c, value);
            && w.nodes == v.nodes[key := c] && w.cells.Keys == v.cells.Keys + {key}
            && w.cells[key] == Cell(null, null, 1, value)
            && w.cells[k] == (if key < k then v.cells[k].(left := c) else v.cells[k].(right := c))
            && forall j :: j in v.cells && j != k ==> w.cells[j] == v.cells[j]
  {
    hide Grown;
  }

  lemma HungRecords(v: View, k: uint32, key: uint32, c: Node, value: Data)
    requires k in v.cells && k in v.shape && key !in v.cells && key != k
    ensures Contents(Hung(v, k, key, c, value)) == Added(Contents(v), key, value)
  {
    hide Grown;
  }

  lemma HungWell(v: View, root: Node?, k: uint32, key: uint32, c: Node, value: Data)
    requires Well(v, root) && OnPath(v.shape, k, key) && key != k && Child(v.shape, k, key) == None && c.key == key
    ensures key !in v.nodes && Well(Hung(v, k, key, c, value), root)
  {
    hide Ordered;
    hide Points;
    hide Linked;
    hide PassedBy;
    hide Grown;
    assert key !in v.shape by {
      PathEnds(v.shape, k, key);
    }
    GrownOrdered(v.shape, k, key);
    GrownIs(v.shape, k, key);
    assert k in v.nodes;
    hide OnPath;
    hide Child;
    PointsMore(v.nodes, key, c, root, v.top);
    forall j | j in v.nodes
      ensures Linked(Hung(v, k, key, c, value), j)
    {
      LinkedMore(v, k, key, c, value, j);
    }
    LinkedNew(v, k, key, c, value);
  }

  lemma LinkedNew(v: View, k: uint32, key: uint32, c: Node, value: Data)
    requires k in v.cells && k in v.shape && key !in v.cells && key !in v.shape && key != k
    ensures Linked(Hung(v, k, key, c, value), key)
  {
  }

  lemma LinkedMore(v: View, k: uint32, key: uint32, c: Node, value: Data, j: uint32)
    requires v.nodes.Keys == v.cells.Keys == v.shape.Keys && key !in v.nodes && k in v.nodes && j in v.nodes
             && Linked(v, j)
    ensures Linked(Hung(v, k, key, c, value), j)
  {
    hide Points;
    PointsMore(v.nodes, key, c, v.cells[j].left, v.shape[j].left);
    PointsMore(v.nodes, key, c, v.cells[j].right, v.shape[j].right);
    PointsNew(v.nodes, key, c);
  }

  lemma PointsNew(nodes: map<uint32, Node>, key: uint32, n: Node)
    ensures Points(nodes[key := n], n, Some(key)) && Points(nodes, null, None)
    ensures Points(nodes[key := n], null, None)
  {
  }

  /** The view with one more for a key. */
  function Counted(v: View, key: uint32): View
    requires key in v.cells
  {
    v.(cells := v.cells[key := v.cells[key].(count := v.cells[key].count + 1)])
  }

  lemma CountedWell(v: View, root: Node?, key: uint32)
    requires Well(v, root) && key in v.cells
    ensures Well(Counted(v, key), root) && Contents(Counted(v, key)) == Increased(Contents(v), key)
  {
    hide Ordered;
    hide Points;
    forall k | k in v.nodes
      ensures Linked(Counted(v, key), k)
    {
      assert Linked(v, k);
    }
  }

  class Tree {
    var root: Node?
    ghost var view: View
    ghost var repr: set<Node>

    ghost predicate Valid()
      reads this, repr
    {
      && Well(view, root)
      && (forall k :: k in view.nodes ==> view.nodes[k] in repr)
      && forall n :: n in repr ==> Known(view, n) && view.cells[n.key] == Cell(n.left, n.right, n.count, n.data)
    }

    constructor ()
      ensures Valid() && Contents(view) == map[]
    {
      root, repr, view := null, {}, View(map[], map[], map[], None);
    }

    /** Where a search stands: at the node of a key on the path. */
    ghost predicate At(n: Node, key: uint32)
      reads this, n
    {
      n.key in view.nodes && n == view.nodes[n.key] && OnPath(view.shape, n.key, key)
    }

    lemma StartAt(key: uint32)
      requires Valid() && root != null
      ensures At(root, key)
    {
      hide Ordered;
      PathStarts(view.shape, view.top.value, key);
    }

    /** From a node the search goes to a child, or ends. */
    lemma StepAt(n: Node, key: uint32)
      requires Valid() && At(n, key) && key != n.key
      ensures var c := if key < n.key then n.left else n.right;
              if c == null then key !in view.nodes && Child(view.shape, n.key, key) == None
              else At(c, key) && Room(c) < Room(n)
    {
      hide Ordered;
      hide OnPath;
      var k := n.key;
      assert Linked(view, k);
      if Child(view.shape, k, key).Some? {
        PathStep(view.shape, k, key);
      } else {
        PathEnds(view.shape, k, key);
      }
    }

    /** How many keys can stand below a node. */
    ghost function Room(n: Node): int
      reads this, n
    {
      if n.key in view.shape then view.shape[n.key].hi - view.shape[n.key].lo else 0
    }

    lemma RoomIsPositive(n: Node, key: uint32)
      requires At(n, key)
      ensures Room(n) > 0
    {
    }

    /** findBstNode. */
    method Find(key: uint32) returns (n: Node?)
      requires Valid()
      ensures n == null <==> key !in Contents(view)
      ensures n != null ==> n.key == key && Contents(view)[key] == Entry(n.count, n.data)
    {
      hide Ordered;
      hide OnPath;
      if root == null {
        return null;
      }
      var temp := root;
      StartAt(key);
      while true
        invariant temp != null && At(temp, key)
        decreases Room(temp)
      {
        RoomIsPositive(temp, key);
        if temp.key == key {
          return temp;
        }
        StepAt(temp, key);
        if key < temp.key {
          if temp.left != null {
            temp := temp.left;
          } else {
            return null;
          }
        } else {
          if temp.right != null {
            temp := temp.right;
          } else {
            return null;
          }
        }
      }
    }

    /** incBstNode. */
    method Inc(key: uint32) returns (r: int)
      requires Valid()
      modifies this`view, repr`count
      ensures Valid() && repr == old(repr)
      ensures r == if key in old(Contents(view)) then 0 else -1
      ensures Contents(view) == Increased(old(Contents(view)), key)
    {
      hide Valid;
      var temp := Seek(key);
      if temp == null {
        return -1;
      }
      Count(temp);
      r := 0;
    }

    /** The search of incBstNode. */
    method Seek(key: uint32) returns (temp: Node?)
      requires Valid()
      ensures temp == null <==> key !in Contents(view)
      ensures temp != null ==> temp.key == key && key in view.nodes && view.nodes[key] == temp && temp in repr
    {
      hide Ordered;
      hide OnPath;
      if root == null {
        return null;
      }
      temp := root;
      StartAt(key);
      while true
        invariant temp != null && At(temp, key)
        decreases Room(temp)
      {
        RoomIsPositive(temp, key);
        if temp.key == key {
          return;
        }
        StepAt(temp, key);
        if key > temp.key {
          temp := temp.right;
        } else {
          temp := temp.left;
        }
        if temp == null {
          return;
        }
      }
    }

    /** One more for a node. */
    method Count(n: Node)
      requires Valid() && n.key in view.nodes && view.nodes[n.key] == n
      modifies this`view, n`count
      ensures Valid() && Contents(view) == Increased(old(Contents(view)), n.key)
    {
      hide Well;
      CountedWell(view, root, n.key);
      n.count := n.count + 1;
      view := Counted(view, n.key);
    }

    /** addBstNode. */
    method Add(key: uint32, value: Data) returns (r: int)
      requires Valid()
      modifies this, repr`count, repr`left, repr`right
      ensures Valid() && Contents(view) == Added(old(Contents(view)), key, value)
      ensures fresh(repr - old(repr)) && r == 0
    {
      if root == null {
        AddRoot(key, value);
        return 0;
      }
      AddBelow(key, value);
      r := 0;
    }

    method AddBelow(key: uint32, value: Data)
      requires Valid() && root != null
      modifies this`view, this`repr, repr`count, repr`left, repr`right
      ensures Valid() && Contents(view) == Added(old(Contents(view)), key, value)
      ensures fresh(repr - old(repr))
    {
      hide Valid;
      hide At;
      hide Contents;
      hide Increased;
      var temp := SeekPlace(key);
      Recorded(temp, key);
      if key == temp.key {
        Count(temp);
      } else {
        var c := new Node(key, value);
        Hang(temp, c);
      }
    }

    lemma Recorded(n: Node, key: uint32)
      requires Valid() && At(n, key)
      ensures n.key in view.nodes && view.nodes[n.key] == n && n.key in Contents(view)
    {
    }

    /** The search of addBstNode: the node of the key, or the one it belongs below. */
    method SeekPlace(key: uint32) returns (temp: Node)
      requires Valid() && root != null
      ensures At(temp, key) && temp in repr
      ensures key != temp.key ==> Child(view.shape, temp.key, key) == None
    {
      hide Ordered;
      hide OnPath;
      temp := root;
      StartAt(key);
      while true
        invariant At(temp, key)
        decreases Room(temp)
      {
        RoomIsPositive(temp, key);
        if key == temp.key {
          return;
        }
        StepAt(temp, key);
        if key > temp.key {
          if temp.right == null {
            return;
          }
          temp := temp.right;
        } else {
          if temp.left == null {
            return;
          }
          temp := temp.left;
        }
      }
    }

    method AddRoot(key: uint32, value: Data)
      requires Valid() && root == null
      modifies this
      ensures Valid() && Contents(view) == Added(old(Contents(view)), key, value) && fresh(repr)
    {
      hide Contents;
      RootNull();
      hide Well;
      root := new Node(key, value);
      repr := {root};
      view := Single(root);
      SingleWell(root);
    }

    lemma RootNull()
      requires Valid() && root == null
      ensures Contents(view) == map[]
    {
    }

    /** The link to a new leaf `c` below `n`. */
    method Hang(n: Node, c: Node)
      requires Valid() && At(n, c.key) && c.key != n.key && Child(view.shape, n.key, c.key) == None
      requires c !in repr && c.count == 1 && c.left == null && c.right == null
      modifies this`view, this`repr, n`left, n`right
      ensures Valid() && Contents(view) == Added(old(Contents(view)), c.key, c.data) && repr == old(repr) + {c}
    {
      hide Well;
      hide OnPath;
      hide Contents;
      hide Child;
      hide Added;
      ghost var v, k := view, n.key;
      HungReady(n, c);
      HungRecords(v, k, c.key, c, c.data);
      ghost var w := Hung(v, k, c.key, c, c.data);
      HungIs(v, k, c.key, c, c.data);
      hide Hung;
      if c.key < n.key {
        HangLeft(n, c, w);
      } else {
        HangRight(n, c, w);
      }
    }

    method HangLeft(n: Node, c: Node, ghost w: View)
      requires Valid() && n in repr && c !in repr && c != n && Well(w, root)
      requires w.nodes == view.nodes[c.key := c] && c.key !in view.nodes && c.key in w.cells && n.key in w.cells
      requires forall j :: j in view.cells ==>
                 j in w.cells && w.cells[j] == if j == n.key then view.cells[j].(left := c) else view.cells[j]
      requires w.cells[c.key] == Cell(c.left, c.right, c.count, c.data)
      modifies this`view, this`repr, n`left
      ensures Valid() && view == w && repr == old(repr) + {c}
    {
      hide Well;
      n.left := c;
      repr := repr + {c};
      view := w;
    }

    method HangRight(n: Node, c: Node, ghost w: View)
      requires Valid() && n in repr && c !in repr && c != n && Well(w, root)
      requires w.nodes == view.nodes[c.key := c] && c.key !in view.nodes && c.key in w.cells && n.key in w.cells
      requires forall j :: j in view.cells ==>
                 j in w.cells && w.cells[j] == if j == n.key then view.cells[j].(right := c) else view.cells[j]
      requires w.cells[c.key] == Cell(c.left, c.right, c.count, c.data)
      modifies this`view, this`repr, n`right
      ensures Valid() && view == w && repr == old(repr) + {c}
    {
      hide Well;
      n.right := c;
      repr := repr + {c};
      view := w;
    }

    lemma HungReady(n: Node, c: Node)
      requires Valid() && At(n, c.key) && c.key != n.key && Child(view.shape, n.key, c.key) == None
      ensures n.key in view.cells && c.key !in view.cells && c.key !in view.nodes
      ensures view.nodes.Keys == view.cells.Keys == view.shape.Keys
      ensures Well(Hung(view, n.key, c.key, c, c.data), root)
    {
      HungWell(view, root, n.key, c.key, c, c.data);
    }

    /** printBst, with the nodes it visits in order. */
    method Print(n: Node?) returns (r: int, visited: seq<Node>)
      requires Valid() && (n != null ==> Known(view, n))
      ensures r == if n == null then -1 else 0
      ensures n == null ==> visited == []
      ensures n != null ==> n.key in view.shape && Lists(view, visited, view.shape[n.key].lo, view.shape[n.key].hi)
      ensures n != null && n == root ==> Lists(view, visited, -1, KEYS)
      decreases if n == null then 0 else Room(n)
    {
      if n == null {
        return -1, [];
      }
      hide Ordered;
      hide Lists;
      RootSpans();
      ghost var v, k := view, n.key;
      ghost var lo, hi := v.shape[k].lo, v.shape[k].hi;
      Kids(n);
      visited := [];
      if n.left != null {
        r, visited := Print(n.left);
      } else {
        ListsNothing(v, lo, k);
      }
      ghost var before := visited;
      visited := visited + [n];
      if n.right != null {
        var after;
        r, after := Print(n.right);
        ListsAll(v, before, n, after, lo, hi);
        visited := visited + after;
      } else {
        ListsNothing(v, k, hi);
        ListsAll(v, before, n, [], lo, hi);
        assert visited + [] == visited;
      }
      r := 0;
    }

    lemma RootSpans()
      requires Valid()
      ensures root != null ==>
                root.key in view.shape && view.shape[root.key].lo == -1 && view.shape[root.key].hi == KEYS
    {
      hide Ordered;
    }

    lemma Kids(n: Node)
      requires Valid() && Known(view, n)
      ensures n.key in view.shape && -1 <= view.shape[n.key].lo < n.key < view.shape[n.key].hi <= KEYS
      ensures if n.left != null then
                && Known(view, n.left) && n.left.key in view.shape && view.shape[n.left.key].lo == view.shape[n.key].lo
                && view.shape[n.left.key].hi == n.key
              else forall j :: j in view.shape ==> !(view.shape[n.key].lo < j < n.key)
      ensures if n.right != null then
                && Known(view, n.right) && n.right.key in view.shape
                && view.shape[n.right.key].hi == view.shape[n.key].hi
                && view.shape[n.right.key].lo == n.key
              else forall j :: j in view.shape ==> !(n.key < j < view.shape[n.key].hi)
    {
      SplitAt(view.shape, n.key);
      hide Ordered;
      assert Linked(view, n.key);
    }
  }

  /** The nodes of the keys between two bounds, each once and in ascending order. */
  predicate Lists(v: View, ns: seq<Node>, lo: int, hi: int) {
    && (forall i :: 0 <= i < |ns| ==> Known(v, ns[i]) && lo < ns[i].key < hi)
    && (forall i, j :: 0 <= i < j < |ns| ==> ns[i].key < ns[j].key)
    && (forall k :: k in v.nodes && lo < k < hi ==> v.nodes[k] in ns)
  }

  lemma ListsNothing(v: View, lo: int, hi: int)
    requires v.nodes.Keys == v.shape.Keys && forall j :: j in v.shape ==> !(lo < j < hi)
    ensures Lists(v, [], lo, hi)
  {
  }

  lemma ListsAll(v: View, before: seq<Node>, n: Node, after: seq<Node>, lo: int, hi: int)
    requires Known(v, n) && lo < n.key < hi && Lists(v, before, lo, n.key) && Lists(v, after, n.key, hi)
    ensures Lists(v, before + [n] + after, lo, hi)
  {
    var all := before + [n] + after;
    forall k | k in v.nodes && lo < k < hi
      ensures v.nodes[k] in all
    {
      if k == n.key {
        assert all[|before|] == n;
      } else if k < n.key {
        assert v.nodes[k] in before;
      } else {
        assert v.nodes[k] in after;
      }
    }
  }

  // ----- what a history of calls leaves -----

  datatype Op = Adding(key: uint32, value: Data) | Incrementing(key: uint32)

  function Apply(m: map<uint32, Entry>, op: Op): map<uint32, Entry> {
    match op
    case Adding(k, v) => Added(m, k, v)
    case Incrementing(k) => Increased(m, k)
  }

  function Run(ops: seq<Op>): map<uint32, Entry> {
    if ops == [] then map[] else Apply(Run(ops[..|ops| - 1]), ops[|ops| - 1])
  }

  predicate IsAdd(op: Op, k: uint32) {
    op.Adding? && op.key == k
  }

  /** The first add of a key, or the number of calls when there is none. */
  function FirstAdd(ops: seq<Op>, k: uint32): (i: nat)
    ensures i <= |ops| && (i < |ops| ==> IsAdd(ops[i], k)) && forall j :: 0 <= j < i ==> !IsAdd(ops[j], k)
  {
    if ops == [] then 0
    else
      var i := FirstAdd(ops[..|ops| - 1], k);
      if i < |ops| - 1 || IsAdd(ops[|ops| - 1], k) then i else |ops|
  }

  /** The calls that count for a key: its adds, and its increments after the first add. */
  function Counting(ops: seq<Op>, k: uint32): set<nat> {
    set i: nat | i < |ops| && ops[i].key == k && FirstAdd(ops, k) <= i
  }

  /**
   After any history a key is there when it has been added; its count is the number of its adds and of
   its increments since the first add, and its data are from the first add.
   */
  lemma {:induction false} RunRecords(ops: seq<Op>, k: uint32)
    ensures k in Run(ops) <==> FirstAdd(ops, k) < |ops|
    ensures k in Run(ops) ==> Run(ops)[k] == Entry(|Counting(ops, k)|, ops[FirstAdd(ops, k)].value)
  {
    if ops != [] {
      var n := |ops| - 1;
      var before := ops[..n];
      RunRecords(before, k);
      var i, j := FirstAdd(before, k), FirstAdd(ops, k);
      FirstIs(ops, k);
      if j <= n {
        assert Counting(ops, k) == Counting(before, k) + if ops[n].key == k then {n} else {};
      }
    }
  }

  lemma FirstIs(ops: seq<Op>, k: uint32)
    requires ops != []
    ensures var n := |ops| - 1;
            FirstAdd(ops, k) == if FirstAdd(ops[..n], k) < n || IsAdd(ops[n], k) then FirstAdd(ops[..n], k) else |ops|
  {
  }
}
