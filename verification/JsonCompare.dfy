/** cJSON_Compare with case-sensitive keys, and what it means. */
module JsonCompare {
  import opened Bytes
  import opened JsonValue
  import RoundTrip = JsonRoundTrip

  // ----- the relation the code decides -----

  const DBL_EPSILON: real := 1.0 / 4503599627370496.0

  function Fabs(x: real): real {
    if x < 0.0 then -x else x
  }

  /** compare_double, without rounding. */
  predicate CloseEnough(a: real, b: real) {
    var maxVal := if Fabs(a) > Fabs(b) then Fabs(a) else Fabs(b);
    Fabs(a - b) <= maxVal * DBL_EPSILON
  }

  /** The first member with key `k`, or the number of members when there is none. */
  function Find(ms: seq<Member>, k: bytes): (i: nat)
    ensures i <= |ms|
    ensures i < |ms| ==> ms[i].key == k
    ensures forall j :: 0 <= j < i ==> ms[j].key != k
  {
    if ms == [] || ms[0].key == k then 0 else 1 + Find(ms[1..], k)
  }

  /**
   What cJSON_Compare decides for two different nodes. Objects are compared member by member in both
   directions, each time with the first member of the other that has the key.
   */
  predicate Equal(a: Json, b: Json)
    decreases a
  {
    match (a, b)
    case (Null, Null) => true
    case (False, False) => true
    case (True, True) => true
    case (Number(x), Number(y)) => CloseEnough(x, y)
    case (String(s), String(t)) => s == t
    case (Array(xs), Array(ys)) => |xs| == |ys| && forall i :: 0 <= i < |xs| ==> Equal(xs[i], ys[i])
    case (Object(ms), Object(ns)) =>
      && (forall i :: 0 <= i < |ms| ==>
            var j := Find(ns, ms[i].key); j < |ns| && Equal(ms[i].value, ns[j].value))
      && (forall j :: 0 <= j < |ns| ==>
            var i := Find(ms, ns[j].key); i < |ms| && Equal(ms[i].value, ns[j].value))
    case _ => false
  }

  lemma SymmetricObjects(ms: seq<Member>, ns: seq<Member>)
    requires forall i, j :: 0 <= i < |ms| && 0 <= j < |ns| ==>
               Equal(ms[i].value, ns[j].value) == Equal(ns[j].value, ms[i].value)
    ensures Equal(Object(ms), Object(ns)) == Equal(Object(ns), Object(ms))
  {
    hide Find;
    hide CloseEnough;
  }

  /** Comparing is symmetric on all trees, whatever their keys and numbers. */
  lemma {:induction false} Symmetric(a: Json, b: Json)
    ensures Equal(a, b) == Equal(b, a)
    decreases a
  {
    match (a, b)
    case (Array(xs), Array(ys)) =>
      forall i | 0 <= i < |xs| && i < |ys|
        ensures Equal(xs[i], ys[i]) == Equal(ys[i], xs[i])
      {
        Symmetric(xs[i], ys[i]);
      }
    case (Object(ms), Object(ns)) =>
      forall i, j | 0 <= i < |ms| && 0 <= j < |ns|
        ensures Equal(ms[i].value, ns[j].value) == Equal(ns[j].value, ms[i].value)
      {
        Symmetric(ms[i].value, ns[j].value);
      }
      SymmetricObjects(ms, ns);
    case _ =>
  }

  // ----- equality up to the order of members -----

  /** A value in which an object is a map from its keys to the first value of each. */
  datatype Canon =
    | CNull
    | CFalse
    | CTrue
    | CNumber(d: real)
    | CString(s: bytes)
    | CArray(elems: seq<Canon>)
    | CObject(members: map<bytes, Canon>)

  function Keys(ms: seq<Member>): (s: set<bytes>)
    ensures forall k :: k in s <==> Find(ms, k) < |ms|
  {
    if ms == [] then {} else {ms[0].key} + Keys(ms[1..])
  }

  function Canonical(v: Json): Canon {
    match v
    case Null => CNull
    case False => CFalse
    case True => CTrue
    case Number(d) => CNumber(d)
    case String(s) => CString(s)
    case Array(es) => CArray(seq(|es|, i requires 0 <= i < |es| => Canonical(es[i])))
    case Object(ms) => CObject(map k | k in Keys(ms) :: Canonical(ms[Find(ms, k)].value))
  }

  predicate DistinctKeys(v: Json) {
    match v
    case Array(es) => forall i :: 0 <= i < |es| ==> DistinctKeys(es[i])
    case Object(ms) =>
      && (forall i, j :: 0 <= i < j < |ms| ==> ms[i].key != ms[j].key)
      && (forall i :: 0 <= i < |ms| ==> DistinctKeys(ms[i].value))
    case _ => true
  }

  /** Members with the same key have the same value, up to the order of members in it. */
  predicate Coherent(v: Json) {
    match v
    case Array(es) => forall i :: 0 <= i < |es| ==> Coherent(es[i])
    case Object(ms) => forall i :: 0 <= i < |ms| ==>
      && Coherent(ms[i].value)
      && Canonical(ms[i].value) == Canonical(ms[Find(ms, ms[i].key)].value)
    case _ => true
  }

  lemma CloseInts(x: real, y: real)
    requires IsInt(x) && IsInt(y)
    ensures CloseEnough(x, y) <==> x == y
  {
    var m := if Fabs(x) > Fabs(y) then Fabs(x) else Fabs(y);
    assert m <= 2147483648.0;
    assert m * DBL_EPSILON <= 2147483648.0 * DBL_EPSILON < 1.0;
    if x != y {
      assert x.Floor != y.Floor;
      assert Fabs(x - y) >= 1.0;
    }
  }

  /** Positive numbers are equal when they differ by at most 2^-52 of the larger. */
  lemma CloseMeans(a: real, b: real)
    requires 0.0 < a <= b
    ensures Equal(Number(a), Number(b)) <==> (b - a) * 4503599627370496.0 <= b
    ensures Equal(Number(-a), Number(-b)) <==> (b - a) * 4503599627370496.0 <= b
  {
    var e := 1.0 / 4503599627370496.0;
    assert b * e * 4503599627370496.0 == b;
  }

  /** No number is equal to one of the other sign, or to 0 unless it is 0. */
  lemma SignsDiffer(a: real, b: real)
    requires a <= 0.0 <= b
    ensures Equal(Number(a), Number(b)) <==> a == b
  {
    var m := if Fabs(a) > Fabs(b) then Fabs(a) else Fabs(b);
    assert m * DBL_EPSILON <= m && (m > 0.0 ==> m * DBL_EPSILON < m);
  }

  /** The last bit of a double near 1 makes no difference, the one before it does. */
  lemma CloseExamples()
    ensures Equal(Number(1.0), Number(1.0 + 1.0 / 4503599627370496.0))
    ensures !Equal(Number(1.0), Number(1.0 + 2.0 / 4503599627370496.0))
    ensures !Equal(Number(1.2), Number(1.9))
  {
    CloseMeans(1.0, 1.0 + 1.0 / 4503599627370496.0);
    CloseMeans(1.0, 1.0 + 2.0 / 4503599627370496.0);
    CloseMeans(1.2, 1.9);
  }

  lemma FoundSelf(ms: seq<Member>, i: nat)
    requires i < |ms|
    ensures Find(ms, ms[i].key) <= i
  {
  }

  predicate Means(a: Json, b: Json) {
    Equal(a, b) <==> Coherent(a) && Coherent(b) && Canonical(a) == Canonical(b)
  }

  lemma {:induction false} IntMemberAt(ms: seq<Member>, i: nat)
    requires RoundTrip.AllIntMembers(ms) && i < |ms|
    ensures RoundTrip.AllInts(ms[i].value)
  {
    if i > 0 {
      IntMemberAt(ms[1..], i - 1);
    }
  }

  lemma {:induction false} ArraysMean(xs: seq<Json>, ys: seq<Json>)
    requires RoundTrip.AllIntElems(xs) && RoundTrip.AllIntElems(ys)
    ensures Means(Array(xs), Array(ys))
    decreases xs
  {
    var cx, cy := Canonical(Array(xs)).elems, Canonical(Array(ys)).elems;
    assert |cx| == |xs| && |cy| == |ys|;
    if |xs| == |ys| {
      forall i | 0 <= i < |xs|
        ensures Equal(xs[i], ys[i]) <==> Coherent(xs[i]) && Coherent(ys[i]) && cx[i] == cy[i]
      {
        IntElemAt(xs, i);
        IntElemAt(ys, i);
        EqualMeans(xs[i], ys[i]);
      }
    }
  }

  lemma ObjectsMean(ms: seq<Member>, ns: seq<Member>)
    requires forall i, j :: 0 <= i < |ms| && 0 <= j < |ns| ==> Means(ms[i].value, ns[j].value)
    ensures Means(Object(ms), Object(ns))
  {
    EqualIsCovered(ms, ns);
    if Covered(ms, ns) && Covered(ns, ms) {
      CoveredIsCoherent(ms, ns);
      CoveredIsCoherent(ns, ms);
      CoveredIsSame(ms, ns);
    } else if Coherent(Object(ms)) && Coherent(Object(ns)) && Canonical(Object(ms)) == Canonical(Object(ns)) {
      SameIsCovered(ms, ns);
      SameIsCovered(ns, ms);
    }
  }

  /**
   On trees of int-range numbers cJSON_Compare is equality up to the order of members, restricted to trees
   in which repeated keys repeat their values.
   */
  lemma {:induction false} EqualMeans(a: Json, b: Json)
    requires RoundTrip.AllInts(a) && RoundTrip.AllInts(b)
    ensures Equal(a, b) <==> Coherent(a) && Coherent(b) && Canonical(a) == Canonical(b)
    decreases a
  {
    match (a, b)
    case (Number(x), Number(y)) =>
      CloseInts(x, y);
    case (Array(xs), Array(ys)) =>
      ArraysMean(xs, ys);
    case (Object(ms), Object(ns)) =>
      forall i, j | 0 <= i < |ms| && 0 <= j < |ns|
        ensures Means(ms[i].value, ns[j].value)
      {
        IntMemberAt(ms, i);
        IntMemberAt(ns, j);
        EqualMeans(ms[i].value, ns[j].value);
      }
      ObjectsMean(ms, ns);
    case _ =>
  }

  lemma {:induction false} IntElemAt(es: seq<Json>, i: nat)
    requires RoundTrip.AllIntElems(es) && i < |es|
    ensures RoundTrip.AllInts(es[i])
  {
    if i > 0 {
      IntElemAt(es[1..], i - 1);
    }
  }

  predicate HasPartner(m: Member, ns: seq<Member>) {
    var j := Find(ns, m.key);
    && j < |ns| && Coherent(m.value) && Coherent(ns[j].value) && Canonical(m.value) == Canonical(ns[j].value)
  }

  /** Every member of `ms` has a partner in `ns`. */
  predicate Covered(ms: seq<Member>, ns: seq<Member>) {
    forall i :: 0 <= i < |ms| ==> HasPartner(ms[i], ns)
  }

  lemma EqualIsCovered(ms: seq<Member>, ns: seq<Member>)
    requires forall i, j :: 0 <= i < |ms| && 0 <= j < |ns| ==> Means(ms[i].value, ns[j].value)
    ensures Equal(Object(ms), Object(ns)) <==> Covered(ms, ns) && Covered(ns, ms)
  {
    hide Canonical;
    hide Coherent;
    hide Find;
  }

  /** In two objects that cover each other, a repeated key repeats its value. */
  lemma CoveredIsCoherent(ms: seq<Member>, ns: seq<Member>)
    requires Covered(ms, ns) && Covered(ns, ms)
    ensures Coherent(Object(ms))
  {
    forall i | 0 <= i < |ms|
      ensures Coherent(ms[i].value) && Canonical(ms[i].value) == Canonical(ms[Find(ms, ms[i].key)].value)
    {
      hide Canonical;
      hide Coherent;
      FoundSelf(ms, i);
      assert HasPartner(ms[i], ns);
      assert HasPartner(ns[Find(ns, ms[i].key)], ms);
    }
  }

  lemma CoveredIsSame(ms: seq<Member>, ns: seq<Member>)
    requires Covered(ms, ns) && Covered(ns, ms)
    ensures Canonical(Object(ms)) == Canonical(Object(ns))
  {
    var x, y := Canonical(Object(ms)).members, Canonical(Object(ns)).members;
    forall k
      ensures k in x <==> k in y
      ensures k in x ==> x[k] == y[k]
    {
      if k in Keys(ms) {
        assert HasPartner(ms[Find(ms, k)], ns);
      }
      if k in Keys(ns) {
        assert HasPartner(ns[Find(ns, k)], ms);
      }
    }
  }

  lemma SameIsCovered(ms: seq<Member>, ns: seq<Member>)
    requires Coherent(Object(ms)) && Coherent(Object(ns)) && Canonical(Object(ms)) == Canonical(Object(ns))
    ensures Covered(ms, ns)
  {
    var x, y := Canonical(Object(ms)).members, Canonical(Object(ns)).members;
    forall i | 0 <= i < |ms|
      ensures HasPartner(ms[i], ns)
    {
      FoundSelf(ms, i);
      assert ms[i].key in x;
      assert ms[i].key in y;
    }
  }

  lemma {:induction false} DistinctIsCoherent(v: Json)
    requires DistinctKeys(v)
    ensures Coherent(v)
  {
    match v
    case Array(es) =>
      forall i | 0 <= i < |es|
        ensures Coherent(es[i])
      {
        DistinctIsCoherent(es[i]);
      }
    case Object(ms) =>
      forall i | 0 <= i < |ms|
        ensures Coherent(ms[i].value) && Find(ms, ms[i].key) == i
      {
        DistinctIsCoherent(ms[i].value);
        FoundSelf(ms, i);
      }
    case _ =>
  }

  /** With distinct keys comparing is exactly equality up to the order of members. */
  lemma DistinctEqual(a: Json, b: Json)
    requires RoundTrip.AllInts(a) && RoundTrip.AllInts(b) && DistinctKeys(a) && DistinctKeys(b)
    ensures Equal(a, b) <==> Canonical(a) == Canonical(b)
  {
    EqualMeans(a, b);
    DistinctIsCoherent(a);
    DistinctIsCoherent(b);
  }

  /** The same value but for the order of members: the same number of them, and each has its like in the other. */
  predicate Same(a: Json, b: Json)
    decreases a
  {
    match a
    case Array(xs) => b.Array? && |xs| == |b.elems| && forall i :: 0 <= i < |xs| ==> Same(xs[i], b.elems[i])
    case Object(ms) => b.Object? && |ms| == |b.members| && forall i :: 0 <= i < |ms| ==> HasSame(ms[i], b.members)
    case _ => a == b
  }

  predicate HasSame(m: Member, ns: seq<Member>)
    decreases m
  {
    exists j :: 0 <= j < |ns| && ns[j].key == m.key && Same(m.value, ns[j].value)
  }

  predicate Distinct(ms: seq<Member>) {
    forall i, j :: 0 <= i < j < |ms| ==> ms[i].key != ms[j].key
  }

  lemma {:induction false} KeyCount(ms: seq<Member>)
    requires Distinct(ms)
    ensures |Keys(ms)| == |ms|
  {
    if ms != [] {
      KeyCount(ms[1..]);
      assert ms[0].key !in Keys(ms[1..]);
    }
  }

  lemma FoundOnly(ms: seq<Member>, j: nat)
    requires j < |ms| && Distinct(ms)
    ensures Find(ms, ms[j].key) == j
  {
    FoundSelf(ms, j);
  }

  lemma SubsetSize(a: set<bytes>, b: set<bytes>)
    requires a <= b
    ensures |a| <= |b| && (|a| == |b| ==> a == b)
  {
    assert b == a + (b - a);
  }

  lemma SameSize(ms: seq<Member>, ns: seq<Member>)
    requires Distinct(ms) && Distinct(ns) && Keys(ms) <= Keys(ns)
    ensures |ms| <= |ns| && (|ms| == |ns| ==> Keys(ns) <= Keys(ms))
  {
    KeyCount(ms);
    KeyCount(ns);
    SubsetSize(Keys(ms), Keys(ns));
  }

  lemma FoundIs(ms: seq<Member>, i: nat)
    requires i < |ms|
    ensures ms[i].key in Keys(ms)
  {
    FoundSelf(ms, i);
  }

  predicate Alike(ms: seq<Member>, ns: seq<Member>) {
    forall i, j :: 0 <= i < |ms| && 0 <= j < |ns| ==>
      (Equal(ms[i].value, ns[j].value) <==> Same(ms[i].value, ns[j].value))
  }

  /** Each member has an equal one of its key in the other. */
  predicate Within(ms: seq<Member>, ns: seq<Member>) {
    forall i :: 0 <= i < |ms| ==>
      var j := Find(ns, ms[i].key); j < |ns| && Equal(ms[i].value, ns[j].value)
  }

  lemma WithinKeys(ms: seq<Member>, ns: seq<Member>)
    requires Within(ms, ns)
    ensures Keys(ms) <= Keys(ns)
  {
    forall k | k in Keys(ms)
      ensures k in Keys(ns)
    {
      assert ms[Find(ms, k)].key == k;
    }
  }

  /** When there are as many, one direction is enough. */
  lemma WithinBack(ms: seq<Member>, ns: seq<Member>, j: nat)
    requires Distinct(ms) && Distinct(ns) && Within(ms, ns) && |ms| == |ns| && j < |ns|
    ensures var i := Find(ms, ns[j].key); i < |ms| && Equal(ms[i].value, ns[j].value)
  {
    WithinKeys(ms, ns);
    SameSize(ms, ns);
    FoundIs(ns, j);
    FoundOnly(ns, j);
    hide Equal;
    var i := Find(ms, ns[j].key);
    assert ms[i].key == ns[j].key;
  }

  lemma SameIsWithin(ms: seq<Member>, ns: seq<Member>)
    requires Distinct(ns) && Alike(ms, ns)
    ensures Same(Object(ms), Object(ns)) <==> |ms| == |ns| && Within(ms, ns)
  {
    hide Equal;
    if Same(Object(ms), Object(ns)) {
      forall i | 0 <= i < |ms|
        ensures Find(ns, ms[i].key) < |ns| && Equal(ms[i].value, ns[Find(ns, ms[i].key)].value)
      {
        assert HasSame(ms[i], ns);
        var j :| 0 <= j < |ns| && ns[j].key == ms[i].key && Same(ms[i].value, ns[j].value);
        FoundOnly(ns, j);
      }
    }
    if |ms| == |ns| && Within(ms, ns) {
      forall i | 0 <= i < |ms|
        ensures HasSame(ms[i], ns)
      {
        var j := Find(ns, ms[i].key);
        assert ns[j].key == ms[i].key && Same(ms[i].value, ns[j].value);
      }
    }
  }

  lemma EqualIsWithin(ms: seq<Member>, ns: seq<Member>)
    ensures Equal(Object(ms), Object(ns)) ==> Within(ms, ns) && Keys(ns) <= Keys(ms)
    ensures Within(ms, ns) && (forall j: nat :: j < |ns| ==>
              var i := Find(ms, ns[j].key); i < |ms| && Equal(ms[i].value, ns[j].value))
         ==> Equal(Object(ms), Object(ns))
  {
    if Equal(Object(ms), Object(ns)) {
      forall k | k in Keys(ns)
        ensures k in Keys(ms)
      {
        assert ns[Find(ns, k)].key == k;
      }
    }
  }

  lemma ObjectsSame(ms: seq<Member>, ns: seq<Member>)
    requires Distinct(ms) && Distinct(ns) && Alike(ms, ns)
    ensures Equal(Object(ms), Object(ns)) <==> Same(Object(ms), Object(ns))
  {
    SameIsWithin(ms, ns);
    EqualIsWithin(ms, ns);
    hide Equal;
    hide Same;
    hide Find;
    hide Distinct;
    hide Alike;
    if Within(ms, ns) {
      WithinKeys(ms, ns);
      SameSize(ms, ns);
      if Keys(ns) <= Keys(ms) {
        SameSize(ns, ms);
      }
      if |ms| == |ns| {
        forall j: nat | j < |ns|
          ensures var i := Find(ms, ns[j].key); i < |ms| && Equal(ms[i].value, ns[j].value)
        {
          WithinBack(ms, ns, j);
        }
      }
    }
  }

  /** With distinct keys comparing is exactly that. */
  lemma {:induction false} DistinctSame(a: Json, b: Json)
    requires RoundTrip.AllInts(a) && RoundTrip.AllInts(b) && DistinctKeys(a) && DistinctKeys(b)
    ensures Equal(a, b) <==> Same(a, b)
    decreases a
  {
    match (a, b)
    case (Number(x), Number(y)) =>
      CloseInts(x, y);
    case (Array(xs), Array(ys)) =>
      forall i | 0 <= i < |xs| && i < |ys|
        ensures Equal(xs[i], ys[i]) <==> Same(xs[i], ys[i])
      {
        IntElemAt(xs, i);
        IntElemAt(ys, i);
        DistinctSame(xs[i], ys[i]);
      }
    case (Object(ms), Object(ns)) =>
      forall i, j | 0 <= i < |ms| && 0 <= j < |ns|
        ensures Equal(ms[i].value, ns[j].value) <==> Same(ms[i].value, ns[j].value)
      {
        IntMemberAt(ms, i);
        IntMemberAt(ns, j);
        DistinctSame(ms[i].value, ns[j].value);
      }
      ObjectsSame(ms, ns);
    case _ =>
  }

  /** A value compares equal to a copy of it exactly when repeated keys repeat their values. */
  lemma EqualToCopy(v: Json)
    requires RoundTrip.AllInts(v)
    ensures Equal(v, v) <==> Coherent(v)
    ensures DistinctKeys(v) ==> Equal(v, v)
  {
    EqualMeans(v, v);
    if DistinctKeys(v) {
      DistinctIsCoherent(v);
    }
  }

  /** {"a":1,"a":2} does not compare equal to its copy. */
  lemma RepeatedKeyDiffers()
    ensures var v := Object([Member([0x61], Number(1.0)), Member([0x61], Number(2.0))]);
            RoundTrip.AllInts(v) && !Equal(v, v)
  {
    var ms := [Member([0x61], Number(1.0)), Member([0x61], Number(2.0))];
    var v := Object(ms);
    assert RoundTrip.AllIntMembers(ms[2..]);
    assert RoundTrip.AllIntMembers(ms[1..]) by {
      assert ms[1..][1..] == ms[2..];
    }
    EqualMeans(v, v);
    assert Find(ms, ms[1].key) == 0;
    assert Canonical(ms[1].value) != Canonical(ms[0].value);
  }

  lemma Transitive(a: Json, b: Json, c: Json)
    requires RoundTrip.AllInts(a) && RoundTrip.AllInts(b) && RoundTrip.AllInts(c)
    requires Equal(a, b) && Equal(b, c)
    ensures Equal(a, c)
  {
    EqualMeans(a, b);
    EqualMeans(b, c);
    EqualMeans(a, c);
  }
}
