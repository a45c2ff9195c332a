/**
 The format of the password database, byte by byte: what is written, which buffers are accepted, and what is read
 from them.
 */
module UserDbFormat {
  import opened Bytes
  import opened UserDb
  import Utf8

  /** Name and password of each entry, each with a terminator. */
  function Fields(es: seq<Entry>): bytes {
    if es == [] then [] else es[0].name + ([0] + (es[0].password + ([0] + Fields(es[1..]))))
  }

  /** The entries whose name and password are not empty, in order. */
  function Filled(es: seq<Entry>): seq<Entry> {
    if es == [] then []
    else if es[0].name == [] || es[0].password == [] then Filled(es[1..])
    else [es[0]] + Filled(es[1..])
  }

  /** ASCII letters and digits. */
  predicate Alnum(s: bytes) {
    forall i :: 0 <= i < |s| ==>
      0x30 <= s[i] <= 0x39 || 0x41 <= s[i] <= 0x5a || 0x61 <= s[i] <= 0x7a
  }

  predicate NoNuls(es: seq<Entry>) {
    forall i :: 0 <= i < |es| ==> 0 !in es[i].name && 0 !in es[i].password
  }

  /** The length of the whole in two bytes, low byte first, the user name, a NUL, the digest, the entries. */
  function Layout(username: bytes, hash: bytes, es: seq<Entry>): bytes
    requires |username| + |hash| + |Fields(es)| + 3 < 0x1_0000
  {
    var n := |username| + |hash| + |Fields(es)| + 3;
    [n % 256, n / 256] + (username + ([0] + (hash + Fields(es))))
  }

  lemma {:induction false} FieldsAre(es: seq<Entry>)
    ensures EntriesBytes(es) == Fields(es)
  {
    if es != [] {
      FieldsAre(es[1..]);
      Right5(es[0].name, [0], es[0].password, [0], Fields(es[1..]));
    }
  }

  lemma {:induction false} FilledAre(es: seq<Entry>)
    ensures Kept(es) == Filled(es)
  {
    if es != [] {
      FilledAre(es[1..]);
      assert [] + Kept(es[1..]) == Kept(es[1..]);
    }
  }

  /** No entry with an empty field is among them, and no other one is missing. */
  lemma {:induction false} FilledIs(es: seq<Entry>, e: Entry)
    ensures e in Filled(es) <==> e in es && e.name != [] && e.password != []
  {
    if es != [] {
      FilledIs(es[1..], e);
      assert es == [es[0]] + es[1..];
    }
  }

  /** What is written, when the length fits. */
  lemma WrittenIs(r: Record)
    ensures var n := |r.username| + |r.hash| + |Fields(r.entries)| + 3;
            Serialized(r) == if n < 0x1_0000 then Some(Layout(r.username, r.hash, r.entries)) else None
  {
    FieldsAre(r.entries);
    Right4(r.username, [0], r.hash, Fields(r.entries));
  }

  /** A buffer of the format with a user name of letters and digits is accepted, and this is what is read. */
  lemma LayoutRead(username: bytes, hash: bytes, es: seq<Entry>)
    requires username != [] && Alnum(username) && |hash| == 32 && NoNuls(es)
    requires |username| + |hash| + |Fields(es)| + 3 < 0x1_0000
    ensures Parsed(Layout(username, hash, es)) == Some(Record(username, hash, Filled(es)))
  {
    var b, e, n := Layout(username, hash, es), Fields(es), |username|;
    var s := username + ([0] + (hash + e));
    assert b[2..] == s && |b| == |s| + 2;
    Right3(username, [0], hash + e);
    NulAfter(username, hash + e);
    assert s[..n] == username && s[n + 1..n + 33] == hash && s[n + 33..] == e;
    assert Packed(b[0], b[1]) == |b|;
    FieldsAre(es);
    FilledAre(es);
    assert Terminable(es);
    PairsRead(es);
    hide Pairs;
    hide Kept;
    hide NulAt;
    hide Layout;
  }

  lemma PartsOf(b: bytes) returns (n: nat)
    requires Parsed(b).Some?
    ensures 0 < n && n + 35 <= |b| && Packed(b[0], b[1]) == |b| && b[n + 2] == 0
    ensures AllAlnum(b[2..n + 2]) && Pairs(b[n + 35..]).Some?
    ensures Parsed(b) == Some(Record(b[2..n + 2], b[n + 3..n + 35], Kept(Pairs(b[n + 35..]).value)))
  {
    hide NulAt;
    hide Kept;
    hide Pairs;
    hide AllAlnum;
    n := NulAt(b[2..]);
    ParsedByPosition(b);
    assert b[2..][n] == b[n + 2];
  }

  lemma FourParts(b: bytes, n: nat)
    requires n + 35 <= |b| && b[n + 2] == 0
    ensures b == [b[0], b[1]] + (b[2..n + 2] + ([0] + (b[n + 3..n + 35] + b[n + 35..])))
  {
    assert b[n + 3..] == b[n + 3..n + 35] + b[n + 35..];
    assert b[n + 2..] == [0] + b[n + 3..];
    assert b[2..] == b[2..n + 2] + b[n + 2..];
  }

  /** Every accepted buffer is one of them. */
  lemma LayoutOf(b: bytes) returns (es: seq<Entry>)
    requires Parsed(b).Some?
    ensures var r := Parsed(b).value;
            && r.username != [] && Alnum(r.username) && |r.hash| == 32 && NoNuls(es) && r.entries == Filled(es)
            && |r.username| + |r.hash| + |Fields(es)| + 3 < 0x1_0000 && b == Layout(r.username, r.hash, es)
  {
    hide Parsed;
    hide Pairs;
    hide Kept;
    var n := PartsOf(b);
    FourParts(b, n);
    es := Pairs(b[n + 35..]).value;
    PairsWrite(b[n + 35..]);
    FieldsAre(es);
    FilledAre(es);
  }

  // ----- strings with letters beyond ASCII -----

  /** No letter is a surrogate. */
  predicate Encodable(t: text) {
    forall i :: 0 <= i < |t| ==> !(0xd800 <= t[i] <= 0xdfff)
  }

  lemma {:induction false} EncodedWhen(t: text)
    ensures Encoded(t).Some? <==> Encodable(t)
  {
    if t != [] {
      EncodedWhen(t[1..]);
      assert t == [t[0]] + t[1..];
    }
  }

  /** A string is encoded letter by letter, each in its UTF-8 form. */
  lemma LetterEncoded(t: text, i: nat) returns (b: bytes)
    requires Encodable(t) && i < |t|
    ensures Utf8.IsCharacter(b) && Utf8.CodePoint(b) == t[i]
    ensures Encoded(t).Some? && Encoded(t[..i]).Some? && Encoded(t[i + 1..]).Some?
    ensures Encoded(t).value == Encoded(t[..i]).value + b + Encoded(t[i + 1..]).value
  {
    b := Utf8.Encode(t[i]);
    Utf8.EncodeIsUtf8(t[i]);
    assert Encoded([t[i]]) == Some(b) by {
      assert [t[i]][1..] == [] && b + [] == b;
    }
    hide Encoded;
    EncodedWhen(t);
    EncodedWhen(t[..i]);
    EncodedWhen(t[i + 1..]);
    assert t == t[..i] + [t[i]] + t[i + 1..];
    EncodedMore(t[..i], [t[i]]);
    EncodedMore(t[..i] + [t[i]], t[i + 1..]);
  }

  predicate EncodedFrom(e: Entry, p: Password) {
    Encoded(p.name) == Some(e.name) && Encoded(p.password) == Some(e.password)
  }

  lemma {:induction false} EntriesAre(ps: seq<Password>)
    ensures EncodedEntries(ps).Some? <==>
              forall i :: 0 <= i < |ps| ==> Encodable(ps[i].name) && Encodable(ps[i].password)
    ensures EncodedEntries(ps).Some? ==>
              var es := EncodedEntries(ps).value;
              |es| == |ps| && forall i :: 0 <= i < |ps| ==> EncodedFrom(es[i], ps[i])
  {
    hide Encoded;
    hide Encodable;
    if ps != [] {
      EntriesAre(ps[1..]);
      EncodedWhen(ps[0].name);
      EncodedWhen(ps[0].password);
      assert forall i :: 1 <= i < |ps| ==> ps[i] == ps[1..][i - 1];
    }
  }

  /** The record of a database has its strings encoded, in order, unless one of them has a surrogate. */
  lemma RecordIs(username: text, hash: bytes, ps: seq<Password>)
    ensures EncodedRecord(username, hash, ps).Some? <==>
              Encodable(username) && forall i :: 0 <= i < |ps| ==> Encodable(ps[i].name) && Encodable(ps[i].password)
    ensures EncodedRecord(username, hash, ps).Some? ==>
              var r := EncodedRecord(username, hash, ps).value;
              && Encoded(username) == Some(r.username) && r.hash == hash && |r.entries| == |ps|
              && forall i :: 0 <= i < |ps| ==> EncodedFrom(r.entries[i], ps[i])
  {
    hide Encoded;
    hide Encodable;
    EntriesAre(ps);
    EncodedWhen(username);
  }
}
