/**
 The circular buffer of `circular.hpp`: a bounded FIFO kept in a fixed array, with bulk transfers
 done as one or two block copies and a search for a byte pattern across the wrap.
 */
module Circular {
  // ----- what the buffer does, on its logical contents -----

  /** `pat` stands in `s` at offset `k`. */
  predicate OccursAt<T(==)>(s: seq<T>, pat: seq<T>, k: nat) {
    k + |pat| <= |s| && s[k..k + |pat|] == pat
  }

  /** How many offsets the search looks at: the last possible one is left out. */
  function Stop<T>(s: seq<T>, pat: seq<T>): nat {
    if |pat| > |s| then 0 else |s| - |pat|
  }

  /** The offset the search reports: the least match below Stop, or on failure the one before Stop. */
  ghost predicate Finds<T>(s: seq<T>, pat: seq<T>, found: bool, out: nat) {
    if found then
      out < Stop(s, pat) && OccursAt(s, pat, out) && forall k :: 0 <= k < out ==> !OccursAt(s, pat, k)
    else
      out == (if Stop(s, pat) > 1 then Stop(s, pat) - 1 else 0)
      && forall k :: 0 <= k < Stop(s, pat) ==> !OccursAt(s, pat, k)
  }

  lemma FindsUnique<T>(s: seq<T>, pat: seq<T>, found: bool, out: nat, found': bool, out': nat)
    requires Finds(s, pat, found, out) && Finds(s, pat, found', out')
    ensures found == found' && out == out'
  {
  }

  // ----- positions in the array -----

  /** `(front + k) % n` for the offsets that occur. */
  function Slot(front: nat, k: nat, n: nat): (r: nat)
    requires front < n && k <= n
    ensures r < n
  {
    if front + k < n then front + k else front + k - n
  }

  lemma SlotIsModulo(front: nat, k: nat, n: nat)
    requires front < n && k <= n
    ensures (front + k) % n == Slot(front, k, n)
  {
    if front + k >= n {
      ModuloOnce(front + k - n, n);
    }
  }

  lemma ModuloOnce(x: nat, n: nat)
    requires x < n
    ensures (x + n) % n == x
  {
    var q, r := (x + n) / n, (x + n) % n;
    assert x + n == q * n + r;
    assert q > 1 ==> q * n >= 2 * n;
    assert q < 1 ==> q * n <= 0;
  }

  /** The distance from `at` forward to `p`. */
  function Ahead(at: nat, p: nat, n: nat): nat
    requires at < n && p < n
  {
    if p >= at then p - at else p - at + n
  }

  /** `cells'` is `cells` with `xs` written cyclically from `at` on and nothing else changed. */
  ghost predicate Stored<T>(cells: seq<T>, cells': seq<T>, at: nat, xs: seq<T>)
    requires at < |cells|
  {
    && |cells'| == |cells|
    && forall p :: 0 <= p < |cells| ==>
         cells'[p] == if Ahead(at, p, |cells|) < |xs| then xs[Ahead(at, p, |cells|)] else cells[p]
  }

  /** The `k` elements from `front` on. */
  function Window<T>(cells: seq<T>, front: nat, k: nat): (s: seq<T>)
    requires front < |cells| && k <= |cells|
    ensures |s| == k
    ensures forall i :: 0 <= i < k ==> s[i] == cells[Slot(front, i, |cells|)]
  {
    if front + k <= |cells| then cells[front..front + k] else cells[front..] + cells[..front + k - |cells|]
  }

  lemma StoredWindow<T>(cells: seq<T>, cells': seq<T>, front: nat, k: nat, xs: seq<T>)
    requires front < |cells| && k + |xs| <= |cells|
    requires Stored(cells, cells', Slot(front, k, |cells|), xs)
    ensures Window(cells', front, k + |xs|) == Window(cells, front, k) + xs
  {
    hide Window;
    forall i | 0 <= i < k + |xs|
      ensures Window(cells', front, k + |xs|)[i] == (Window(cells, front, k) + xs)[i]
    {
      StoredAt(cells, cells', front, k, xs, i);
    }
  }

  lemma StoredAt<T>(cells: seq<T>, cells': seq<T>, front: nat, k: nat, xs: seq<T>, i: nat)
    requires front < |cells| && k + |xs| <= |cells| && i < k + |xs|
    requires Stored(cells, cells', Slot(front, k, |cells|), xs)
    ensures cells'[Slot(front, i, |cells|)] == if i < k then cells[Slot(front, i, |cells|)] else xs[i - k]
  {
    var n := |cells|;
    assert Ahead(Slot(front, k, n), Slot(front, i, n), n) == if i < k then n - k + i else i - k;
  }

  lemma NothingStored<T>(cells: seq<T>, at: nat)
    requires at < |cells|
    ensures forall xs: seq<T> :: Stored(cells, cells, at, xs[..0])
  {
  }

  /** Writing `xs` and then `x` after it is writing `xs + [x]`. */
  lemma StoredOneMore<T>(a: seq<T>, b: seq<T>, c: seq<T>, at: nat, xs: seq<T>, x: T)
    requires at < |a| && |xs| < |a|
    requires Stored(a, b, at, xs) && Stored(b, c, Slot(at, |xs|, |a|), [x])
    ensures Stored(a, c, at, xs + [x])
  {
    var n := |a|;
    forall p | 0 <= p < n
      ensures c[p] == if Ahead(at, p, n) < |xs| + 1 then (xs + [x])[Ahead(at, p, n)] else a[p]
    {
      if Ahead(at, p, n) == |xs| {
        assert Ahead(Slot(at, |xs|, n), p, n) == 0;
      } else {
        assert Ahead(Slot(at, |xs|, n), p, n) != 0;
      }
    }
  }

  lemma WindowDrop<T>(cells: seq<T>, front: nat, k: nat, c: nat)
    requires front < |cells| && c <= k <= |cells|
    ensures Window(cells, Slot(front, c, |cells|), k - c) == Window(cells, front, k)[c..]
  {
  }

  lemma SliceGrows<T>(s: seq<T>, t: seq<T>, k: nat, z: nat)
    requires k + z < |s| && z < |t|
    ensures (s[k..k + z + 1] == t[..z + 1]) == (s[k..k + z] == t[..z] && t[z] == s[k + z])
  {
    assert s[k..k + z + 1] == s[k..k + z] + [s[k + z]];
    assert t[..z + 1] == t[..z] + [t[z]];
    if s[k..k + z + 1] == t[..z + 1] {
      assert s[k..k + z + 1][..z] == s[k..k + z] && t[..z + 1][..z] == t[..z];
      assert s[k..k + z + 1][z] == s[k + z] && t[..z + 1][z] == t[z];
    }
  }

  /** A destination filled up to `i`, and the next element. */
  lemma OneMore<T>(d: seq<T>, s: seq<T>, at: nat, i: nat, before: seq<T>)
    requires i < |s| && at + i < |d| && before == d[..at] + s[..i] + d[at + i..]
    ensures before[..at + i] + s[i..][..1] + before[at + i + 1..] == d[..at] + s[..i + 1] + d[at + i + 1..]
  {
    assert s[..i + 1] == s[..i] + s[i..][..1];
    assert before[..at + i] == d[..at] + s[..i];
  }

  class Circular<T(0,==)> {
    const n: nat
    const buffer: array<T>
    var front: nat
    var back: nat
    var available: nat
    var fullness: nat

    ghost predicate Valid()
      reads this
    {
      && 0 < n == buffer.Length
      && front < n
      && fullness <= n
      && available == n - fullness
      && back == Slot(front, fullness, n)
    }

    /** The stored elements, oldest first. */
    ghost function Contents(): seq<T>
      reads this, buffer
      requires Valid()
    {
      Window(buffer[..], front, fullness)
    }

    constructor (capacity: nat)
      requires 0 < capacity
      ensures Valid() && fresh(buffer) && n == capacity && Contents() == []
    {
      n := capacity;
      buffer := new T[capacity];
      front, back, available, fullness := 0, 0, capacity, 0;
    }

    method Clear(zero: T)
      requires Valid()
      modifies this, buffer
      ensures Valid() && Contents() == []
      ensures forall p :: 0 <= p < n ==> buffer[p] == zero
    {
      forall p | 0 <= p < n {
        buffer[p] := zero;
      }
      front, back, available, fullness := 0, 0, n, 0;
    }

    function Size(): nat
      reads this
    {
      fullness
    }

    /** Bulk push: one block copy, or two when the free space wraps; refused when there is no room. */
    method PushBack(xs: seq<T>) returns (ok: bool)
      requires Valid()
      modifies this, buffer
      ensures Valid()
      ensures ok == (old(fullness) + |xs| <= n)
      ensures !ok ==> unchanged(this) && unchanged(buffer)
      ensures ok ==> Contents() == old(Contents()) + xs
      ensures ok ==> Stored(old(buffer[..]), buffer[..], old(back), xs)
      ensures ok ==> front == old(front) && fullness == old(fullness) + |xs|
    {
      var count := |xs|;
      if available < count {
        return false;
      }
      CopyIn(xs);
      hide Stored;
      hide Window;
      StoredWindow(old(buffer[..]), buffer[..], front, fullness, xs);
      SlotIsModulo(back, count, n);
      available := available - count;
      fullness := fullness + count;
      back := back + count;
      back := back % n;
      ok := true;
    }

    /** The block copies of push_back. */
    method CopyIn(xs: seq<T>)
      requires Valid() && |xs| <= n
      modifies buffer
      ensures Stored(old(buffer[..]), buffer[..], back, xs)
    {
      var count := |xs|;
      if back + count > n {
        var sz1 := n - back;
        var sz2 := count - sz1;
        forall i | 0 <= i < sz1 {
          buffer[back + i] := xs[i];
        }
        forall i | 0 <= i < sz2 {
          buffer[i] := xs[sz1 + i];
        }
      } else {
        forall i | 0 <= i < count {
          buffer[back + i] := xs[i];
        }
      }
    }

    /** Pushing the elements one at a time ends in the very state of one bulk push. */
    method PushEach(xs: seq<T>) returns (ok: bool)
      requires Valid() && fullness + |xs| <= n
      modifies this, buffer
      ensures Valid() && ok
      ensures Contents() == old(Contents()) + xs
      ensures Stored(old(buffer[..]), buffer[..], old(back), xs)
      ensures front == old(front) && fullness == old(fullness) + |xs|
    {
      hide Stored;
      hide Window;
      ok := true;
      NothingStored(buffer[..], back);
      var i := 0;
      while i < |xs|
        invariant 0 <= i <= |xs| && Valid() && ok
        invariant front == old(front) && fullness == old(fullness) + i
        invariant Contents() == old(Contents()) + xs[..i]
        invariant Stored(old(buffer[..]), buffer[..], old(back), xs[..i])
      {
        ghost var cells := buffer[..];
        ok := PushBack([xs[i]]);
        assert back == Slot(old(back), i + 1, n);
        StoredOneMore(old(buffer[..]), cells, buffer[..], old(back), xs[..i], xs[i]);
        assert xs[..i + 1] == xs[..i] + [xs[i]];
        i := i + 1;
      }
      assert xs[..i] == xs;
    }

    /** Removes up to `count` elements from the front. */
    method Remove(count: nat)
      requires Valid()
      modifies this
      ensures Valid()
      ensures Contents() == old(Contents())[if count < old(fullness) then count else old(fullness)..]
      ensures fullness == if count < old(fullness) then old(fullness) - count else 0
    {
      hide Window;
      var c := if count < fullness then count else fullness;
      SlotIsModulo(front, c, n);
      WindowDrop(buffer[..], front, fullness, c);
      front := front + c;
      front := front % n;
      fullness := fullness - c;
      available := available + c;
    }

    /** Bulk pop into `dest` at `at`; refused when fewer than `count` elements are stored. */
    method PopFront(dest: array<T>, at: nat, count: nat) returns (ok: bool)
      requires Valid() && dest != buffer && at + count <= dest.Length
      modifies this, dest
      ensures Valid()
      ensures ok == (count <= old(fullness))
      ensures !ok ==> unchanged(this) && unchanged(dest)
      ensures ok ==> fullness == old(fullness) - count
      ensures ok ==> Contents() == old(Contents())[count..]
      ensures ok ==> dest[..] == old(dest[..at]) + old(Contents())[..count] + old(dest[at + count..])
    {
      if fullness < count {
        return false;
      }
      CopyOut(dest, at, count);
      hide Window;
      Remove(count);
      ok := true;
    }

    lemma ThreeParts(d: seq<T>, i: nat, j: nat)
      requires i <= j <= |d|
      ensures d == d[..i] + d[i..j] + d[j..]
    {
    }

    /** The block copies of pop_front. */
    method CopyOut(dest: array<T>, at: nat, count: nat)
      requires Valid() && dest != buffer && at + count <= dest.Length && count <= fullness
      modifies dest
      ensures dest[..] == old(dest[..at]) + Contents()[..count] + old(dest[at + count..])
    {
      hide Window;
      if count > n - front {
        var sz1 := n - front;
        var sz2 := count - sz1;
        forall i | 0 <= i < sz1 {
          dest[at + i] := buffer[front + i];
        }
        forall i | 0 <= i < sz2 {
          dest[at + sz1 + i] := buffer[i];
        }
      } else {
        forall i | 0 <= i < count {
          dest[at + i] := buffer[front + i];
        }
      }
      ghost var s := Contents();
      assert forall p :: at <= p < at + count ==> dest[p] == buffer[Slot(front, p - at, n)];
      assert dest[at..at + count] == s[..count];
      assert dest[..at] == old(dest[..at]) && dest[at + count..] == old(dest[at + count..]);
      ThreeParts(dest[..], at, at + count);
    }

    /** Popping the elements one at a time has the result of one bulk pop. */
    method PopEach(dest: array<T>, at: nat, count: nat) returns (ok: bool)
      requires Valid() && dest != buffer && at + count <= dest.Length && count <= fullness
      modifies this, dest
      ensures Valid() && ok
      ensures fullness == old(fullness) - count
      ensures Contents() == old(Contents())[count..]
      ensures dest[..] == old(dest[..at]) + old(Contents())[..count] + old(dest[at + count..])
    {
      hide Window;
      ghost var s, d := Contents(), dest[..];
      ok := true;
      var i := 0;
      while i < count
        invariant 0 <= i <= count && Valid() && ok
        invariant fullness == old(fullness) - i
        invariant Contents() == s[i..]
        invariant dest[..] == d[..at] + s[..i] + d[at + i..]
      {
        ghost var before := dest[..];
        ok := PopFront(dest, at + i, 1);
        OneMore(d, s, at, i, before);
        i := i + 1;
      }
      assert d[..at] == old(dest[..at]) && d[at + count..] == old(dest[at + count..]);
    }

    /** The inner loop of the search: every cell is compared, none is skipped. */
    method Matches(pattern: seq<T>, k: nat) returns (match_: bool)
      requires Valid() && k + |pattern| <= fullness
      ensures match_ == OccursAt(Contents(), pattern, k)
    {
      ghost var s := Contents();
      match_ := true;
      var z := 0;
      while z < |pattern|
        invariant 0 <= z <= |pattern|
        invariant match_ == (s[k..k + z] == pattern[..z])
      {
        SlotIsModulo(front, k + z, n);
        var loc := (front + k + z) % n;
        match_ := match_ && pattern[z] == buffer[loc];
        SliceGrows(s, pattern, k, z);
        z := z + 1;
      }
      assert pattern[..z] == pattern;
    }

    method FindPattern(pattern: seq<T>) returns (found: bool, out: nat)
      requires Valid()
      ensures Finds(Contents(), pattern, found, out)
    {
      var m := |pattern|;
      if m > fullness {
        return false, 0;
      }
      var stop := fullness - m;
      var k := 0;
      while k < stop
        invariant 0 <= k <= stop
        invariant forall j :: 0 <= j < k ==> !OccursAt(Contents(), pattern, j)
      {
        var match_ := Matches(pattern, k);
        if match_ {
          return true, k;
        }
        k := k + 1;
      }
      out := if stop > 1 then stop - 1 else 0;
      found := false;
    }
  }
}
