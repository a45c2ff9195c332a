/** The password database: written by `DB.py`, read by `Manager::ParseUserDB` of `manager.cpp`. */
module UserDb {
  import opened Bytes
  import Utf8

  const SHA256_DIGEST_LENGTH := 32

  datatype Entry = Entry(name: bytes, password: bytes)

  datatype Record = Record(username: bytes, hash: bytes, entries: seq<Entry>)

  // ----- writing -----

  function EntryBytes(e: Entry): bytes {
    e.name + [0] + e.password + [0]
  }

  function EntriesBytes(es: seq<Entry>): bytes {
    if es == [] then [] else EntryBytes(es[0]) + EntriesBytes(es[1..])
  }

  function Body(r: Record): bytes {
    r.username + [0] + r.hash + EntriesBytes(r.entries)
  }

  /** struct.pack("<H", n), which fails when the length does not fit. */
  function PackedLength(n: nat): Option<bytes> {
    if n < 0x1_0000 then Some([n % 256, n / 256]) else None
  }

  function Serialized(r: Record): Option<bytes> {
    match PackedLength(|Body(r)| + 2)
    case None => None
    case Some(l) => Some(l + Body(r))
  }

  // ----- reading -----

  /** std::find for NUL, as the distance from the front. */
  function NulAt(s: bytes): (n: nat)
    ensures n <= |s| && (n < |s| ==> s[n] == 0) && NulFree(s[..n])
  {
    if s == [] || s[0] == 0 then 0 else 1 + NulAt(s[1..])
  }

  predicate IsAlnum(b: byte) {
    0x30 <= b <= 0x39 || 0x41 <= b <= 0x5a || 0x61 <= b <= 0x7a
  }

  predicate AllAlnum(s: bytes) {
    forall i :: 0 <= i < |s| ==> IsAlnum(s[i])
  }

  predicate HasNul(s: bytes) {
    NulAt(s) < |s|
  }

  /** The first string of `s`, and what is behind its terminator. */
  function Name(s: bytes): (r: bytes)
    ensures NulFree(r)
  {
    s[..NulAt(s)]
  }

  function Behind(s: bytes): (r: bytes)
    requires HasNul(s)
    ensures |r| < |s|
  {
    s[NulAt(s) + 1..]
  }

  function Cons(e: Entry, es: Option<seq<Entry>>): Option<seq<Entry>> {
    if es.None? then None else Some([e] + es.value)
  }

  /** Pairs of NUL-terminated strings up to the end. */
  function Pairs(s: bytes): Option<seq<Entry>>
    decreases |s|
  {
    if s == [] then Some([])
    else if !HasNul(s) || !HasNul(Behind(s)) then None
    else Cons(Entry(Name(s), Name(Behind(s))), Pairs(Behind(Behind(s))))
  }

  predicate IsKept(e: Entry) {
    e.name != [] && e.password != []
  }

  /** AddPasswordEntry rejects a pair with an empty field, and the parser goes on. */
  function Kept(es: seq<Entry>): seq<Entry> {
    if es == [] then [] else (if IsKept(es[0]) then [es[0]] else []) + Kept(es[1..])
  }

  /** A little-endian 16-bit number. */
  function Packed(lo: int, hi: int): int {
    lo + 256 * hi
  }

  function Parsed(b: bytes): Option<Record> {
    if |b| < 2 || Packed(b[0], b[1]) != |b| || |b| <= 2 then None
    else
      var s := b[2..];
      var n := NulAt(s);
      if n == |s| || n == 0 || 2 + n + SHA256_DIGEST_LENGTH >= |b| || !AllAlnum(s[..n]) then None
      else
        match Pairs(s[n + 33..])
        case None => None
        case Some(es) => Some(Record(s[..n], s[n + 1..n + 33], Kept(es)))
  }

  // ----- round trips -----

  predicate WellFormed(r: Record) {
    && r.username != [] && AllAlnum(r.username) && |r.hash| == SHA256_DIGEST_LENGTH
    && forall i :: 0 <= i < |r.entries| ==>
         IsKept(r.entries[i]) && NulFree(r.entries[i].name) && NulFree(r.entries[i].password)
  }

  lemma {:induction false} NulAfter(s: bytes, rest: bytes)
    requires NulFree(s)
    ensures NulAt(s + [0] + rest) == |s|
  {
    if s == [] {
      assert (s + [0] + rest)[0] == 0;
    } else {
      NulAfter(s[1..], rest);
      assert (s + [0] + rest)[1..] == s[1..] + [0] + rest;
    }
  }

  predicate Terminable(es: seq<Entry>) {
    forall i :: 0 <= i < |es| ==> NulFree(es[i].name) && NulFree(es[i].password)
  }

  lemma NamedBack(s: bytes, rest: bytes)
    requires NulFree(s)
    ensures var t := s + [0] + rest; HasNul(t) && Name(t) == s && Behind(t) == rest
  {
    NulAfter(s, rest);
  }

  lemma PairRead(e: Entry, more: bytes)
    requires NulFree(e.name) && NulFree(e.password)
    ensures Pairs(EntryBytes(e) + more) == Cons(e, Pairs(more))
  {
    var t := e.password + [0] + more;
    Right4(e.name + [0], e.password, [0], more);
    Right3(e.password, [0], more);
    hide HasNul;
    hide Name;
    hide Behind;
    NamedBack(e.name, t);
    NamedBack(e.password, more);
  }

  lemma {:induction false} PairsRead(es: seq<Entry>)
    requires Terminable(es)
    ensures Pairs(EntriesBytes(es)) == Some(es)
  {
    if es != [] {
      var e, more := es[0], EntriesBytes(es[1..]);
      PairsRead(es[1..]);
      PairRead(e, more);
      assert [e] + es[1..] == es;
    }
  }

  lemma NameAndRest(s: bytes)
    requires HasNul(s)
    ensures s == Name(s) + [0] + Behind(s)
  {
  }

  lemma Front(e: Entry, es: seq<Entry>)
    ensures EntriesBytes([e] + es) == EntryBytes(e) + EntriesBytes(es)
    ensures NulFree(e.name) && NulFree(e.password) && Terminable(es) ==> Terminable([e] + es)
  {
    assert ([e] + es)[1..] == es;
  }

  lemma {:induction false} PairsWrite(s: bytes)
    requires Pairs(s).Some?
    ensures Terminable(Pairs(s).value) && EntriesBytes(Pairs(s).value) == s
    decreases |s|
  {
    hide HasNul;
    hide Name;
    hide Behind;
    if s != [] {
      var t := Behind(s);
      var e, rest := Entry(Name(s), Name(t)), Behind(t);
      PairsWrite(rest);
      NameAndRest(s);
      NameAndRest(t);
      Right4(e.name + [0], e.password, [0], rest);
      Right3(e.password, [0], rest);
      Front(e, Pairs(rest).value);
    }
  }

  lemma EntryTakesRoom(e: Entry)
    ensures |EntryBytes(e)| >= 2
  {
  }

  lemma {:induction false} KeptAreKept(es: seq<Entry>)
    ensures forall i :: 0 <= i < |Kept(es)| ==> IsKept(Kept(es)[i]) && Kept(es)[i] in es
  {
    if es != [] {
      KeptAreKept(es[1..]);
    }
  }

  predicate AllKept(es: seq<Entry>) {
    forall i :: 0 <= i < |es| ==> IsKept(es[i])
  }

  /** Dropping entries makes the text shorter. */
  lemma {:induction false} KeptShrinks(es: seq<Entry>)
    ensures AllKept(es) ==> Kept(es) == es
    ensures !AllKept(es) ==> |EntriesBytes(Kept(es))| < |EntriesBytes(es)|
  {
    if es != [] {
      hide EntryBytes;
      KeptShrinks(es[1..]);
      EntryTakesRoom(es[0]);
      Front(es[0], Kept(es[1..]));
      assert AllKept(es) <==> IsKept(es[0]) && AllKept(es[1..]) by {
        assert forall i :: 0 <= i < |es[1..]| ==> es[1..][i] == es[i + 1];
        assert es == [es[0]] + es[1..];
      }
      assert [] + Kept(es[1..]) == Kept(es[1..]);
    }
  }

  /** What is read is well-formed. */
  lemma ParsedWellFormed(b: bytes)
    requires Parsed(b).Some?
    ensures WellFormed(Parsed(b).value)
  {
    var s := b[2..];
    var es := Pairs(s[NulAt(s) + 33..]).value;
    PairsWrite(s[NulAt(s) + 33..]);
    KeptAreKept(es);
  }

  lemma WellFormedIsRead(r: Record)
    requires Serialized(r).Some? && WellFormed(r)
    ensures Parsed(Serialized(r).value) == Some(r)
  {
    var b := Serialized(r).value;
    var s, e, n := b[2..], EntriesBytes(r.entries), |r.username|;
    assert s == Body(r);
    hide Serialized;
    assert NulFree(r.username);
    assert s == r.username + [0] + (r.hash + e);
    NulAfter(r.username, r.hash + e);
    assert s[..n] == r.username && s[n + 1..n + 33] == r.hash && s[n + 33..] == e;
    PairsRead(r.entries);
    KeptShrinks(r.entries);
  }

  /** A record whose text is short enough is read back exactly when it is well-formed. */
  lemma WrittenIsRead(r: Record)
    requires Serialized(r).Some?
    ensures Parsed(Serialized(r).value) == Some(r) <==> WellFormed(r)
  {
    var b := Serialized(r).value;
    if Parsed(b) == Some(r) {
      ParsedWellFormed(b);
    }
    if WellFormed(r) {
      WellFormedIsRead(r);
    }
  }

  /** The pairs of an accepted buffer, with the ones the parser drops. */
  function AllPairs(b: bytes): seq<Entry>
    requires Parsed(b).Some?
  {
    var s := b[2..];
    Pairs(s[NulAt(s) + 33..]).value
  }

  lemma Rewritten(b: bytes, n: nat, es: seq<Entry>)
    requires n + 35 <= |b| && b[n + 2] == 0 && Packed(b[0], b[1]) == |b|
    ensures var s := b[2..];
            var w := Serialized(Record(s[..n], s[n + 1..n + 33], es));
            && (EntriesBytes(es) == s[n + 33..] ==> w == Some(b))
            && (|EntriesBytes(es)| < |s| - n - 33 ==> w != Some(b))
  {
    hide EntriesBytes;
    var s := b[2..];
    assert b == [b[0], b[1]] + s;
    assert s == s[..n] + [0] + s[n + 1..n + 33] + s[n + 33..];
  }

  /** An accepted buffer is written again as it was exactly when none of its pairs has an empty field. */
  lemma ReadIsWritten(b: bytes)
    requires Parsed(b).Some?
    ensures Serialized(Parsed(b).value) == Some(b) <==> AllKept(AllPairs(b))
  {
    var s := b[2..];
    var n := NulAt(s);
    var es := AllPairs(b);
    assert Parsed(b).value == Record(s[..n], s[n + 1..n + 33], Kept(es)) && es == Pairs(s[n + 33..]).value;
    hide Pairs;
    hide Kept;
    hide AllPairs;
    PairsWrite(s[n + 33..]);
    KeptShrinks(es);
    Rewritten(b, n, Kept(es));
    hide Parsed;
    hide Serialized;
  }

  lemma KeptOne(e: Entry)
    ensures Kept([e]) == if IsKept(e) then [e] else []
  {
    assert [e][1..] == [];
  }

  function Prefixed(done: seq<Entry>, es: Option<seq<Entry>>): Option<seq<Entry>> {
    if es.None? then None else Some(done + es.value)
  }

  lemma PrefixedNothing(es: Option<seq<Entry>>)
    ensures Prefixed([], es) == es
  {
    if es.Some? {
      assert [] + es.value == es.value;
    }
  }

  lemma PrefixedMore(done: seq<Entry>, e: Entry, es: Option<seq<Entry>>)
    ensures Prefixed(done, Cons(e, es)) == Prefixed(done + [e], es)
  {
    if es.Some? {
      assert done + ([e] + es.value) == done + [e] + es.value;
    }
  }

  // ----- the writer -----

  /** The letters of a str: code points, surrogates included. */
  type letter = c: int | 0 <= c <= 0x10ffff

  type text = seq<letter>

  /** str.encode, which fails at a surrogate. */
  function Encoded(t: text): Option<bytes> {
    if t == [] then Some([])
    else if !Utf8.IsScalar(t[0]) then None
    else
      match Encoded(t[1..])
      case None => None
      case Some(b) => Some(Utf8.Encode(t[0]) + b)
  }

  predicate TenOf(t: text, c: int) {
    |t| == 10 && forall i :: 0 <= i < 10 ==> t[i] == c
  }

  datatype Password = Password(name: text, password: text)

  function EncodedEntry(p: Password): Option<Entry> {
    match Encoded(p.name)
    case None => None
    case Some(n) =>
      match Encoded(p.password)
      case None => None
      case Some(q) => Some(Entry(n, q))
  }

  function EncodedEntries(ps: seq<Password>): Option<seq<Entry>> {
    if ps == [] then Some([])
    else if EncodedEntry(ps[0]).None? then None
    else Cons(EncodedEntry(ps[0]).value, EncodedEntries(ps[1..]))
  }

  /** The record a database stands for, when all its strings can be encoded. */
  function EncodedRecord(username: text, hash: bytes, ps: seq<Password>): Option<Record> {
    match Encoded(username)
    case None => None
    case Some(u) =>
      match EncodedEntries(ps)
      case None => None
      case Some(es) => Some(Record(u, hash, es))
  }

  lemma {:induction false} EncodedMore(a: text, b: text)
    ensures Encoded(a + b)
         == if Encoded(a).None? || Encoded(b).None? then None else Some(Encoded(a).value + Encoded(b).value)
    decreases |a|
  {
    if a == [] {
      assert a + b == b;
      if Encoded(b).Some? {
        assert [] + Encoded(b).value == Encoded(b).value;
      }
    } else {
      assert (a + b)[1..] == a[1..] + b;
      EncodedMore(a[1..], b);
      if Encoded(a).Some? && Encoded(b).Some? {
        Right3(Utf8.Encode(a[0]), Encoded(a[1..]).value, Encoded(b).value);
      }
    }
  }

  /** A terminator behind a string is one NUL byte behind its bytes. */
  lemma EncodedTerminated(t: text)
    ensures Encoded(t + [0]) == if Encoded(t).None? then None else Some(Encoded(t).value + [0])
  {
    EncodedMore(t, [0]);
    assert [0][1..] == [] && Encoded([0]) == Some(Utf8.Encode(0) + []);
    assert Utf8.Encode(0) + [] == [0];
  }

  lemma {:induction false} EncodedEntriesMore(ps: seq<Password>, qs: seq<Password>)
    ensures EncodedEntries(ps + qs)
         == if EncodedEntries(ps).None? || EncodedEntries(qs).None? then None
            else Some(EncodedEntries(ps).value + EncodedEntries(qs).value)
    decreases |ps|
  {
    if ps == [] {
      assert ps + qs == qs;
      PrefixedNothing(EncodedEntries(qs));
    } else {
      assert (ps + qs)[1..] == ps[1..] + qs;
      EncodedEntriesMore(ps[1..], qs);
      if EncodedEntries(ps).Some? && EncodedEntries(qs).Some? {
        Right3([EncodedEntry(ps[0]).value], EncodedEntries(ps[1..]).value, EncodedEntries(qs).value);
      }
    }
  }

  lemma {:induction false} EntriesBytesMore(es: seq<Entry>, e: Entry)
    ensures EntriesBytes(es + [e]) == EntriesBytes(es) + EntryBytes(e)
  {
    if es == [] {
      assert [] + [e] == [e];
    } else {
      assert (es + [e])[1..] == es[1..] + [e];
      EntriesBytesMore(es[1..], e);
      Right3(EntryBytes(es[0]), EntriesBytes(es[1..]), EntryBytes(e));
    }
  }

  predicate NoNulLetter(t: text) {
    forall i :: 0 <= i < |t| ==> t[i] != 0
  }

  predicate AlnumLetters(t: text) {
    forall i :: 0 <= i < |t| ==> t[i] < 0x80 && IsAlnum(t[i])
  }

  lemma Joins(a: bytes, b: bytes)
    ensures NulFree(a + b) <==> NulFree(a) && NulFree(b)
    ensures AllAlnum(a + b) <==> AllAlnum(a) && AllAlnum(b)
  {
    var c := a + b;
    assert forall i :: 0 <= i < |a| ==> a[i] == c[i];
    assert forall i :: 0 <= i < |b| ==> b[i] == c[|a| + i];
  }

  lemma JoinsLetter(t: text)
    requires t != []
    ensures NoNulLetter(t) <==> t[0] != 0 && NoNulLetter(t[1..])
    ensures AlnumLetters(t) <==> t[0] < 0x80 && IsAlnum(t[0]) && AlnumLetters(t[1..])
  {
    var r := t[1..];
    assert forall i :: 0 <= i < |r| ==> r[i] == t[i + 1];
    assert forall i :: 0 < i < |t| ==> t[i] == r[i - 1];
  }

  lemma EncodedLetter(c: letter)
    ensures var b := Utf8.Encode(c);
            b != [] && (NulFree(b) <==> c != 0) && (AllAlnum(b) <==> c < 0x80 && IsAlnum(c))
  {
    var b := Utf8.Encode(c);
    assert c >= 0x80 ==> b[0] >= 0x80;
  }

  lemma {:induction false} EncodedLetters(t: text)
    requires Encoded(t).Some?
    ensures var b := Encoded(t).value;
            && (b == [] <==> t == []) && (NulFree(b) <==> NoNulLetter(t)) && (AllAlnum(b) <==> AlnumLetters(t))
    decreases |t|
  {
    if t != [] {
      hide NulFree;
      hide AllAlnum;
      hide NoNulLetter;
      hide AlnumLetters;
      EncodedLetters(t[1..]);
      EncodedLetter(t[0]);
      Joins(Utf8.Encode(t[0]), Encoded(t[1..]).value);
      JoinsLetter(t);
    }
  }

  predicate Filled(p: Password) {
    p.name != [] && p.password != []
  }

  predicate NoNul(p: Password) {
    NoNulLetter(p.name) && NoNulLetter(p.password)
  }

  lemma {:induction false} EntryAt(ps: seq<Password>, i: nat)
    requires EncodedEntries(ps).Some? && i < |ps|
    ensures var es := EncodedEntries(ps).value; |es| == |ps| && EncodedEntry(ps[i]) == Some(es[i])
    decreases |ps|
  {
    hide EncodedEntry;
    if |ps| > 1 {
      EntryAt(ps[1..], if i > 0 then i - 1 else 0);
    }
  }

  lemma EncodedFields(p: Password)
    requires Filled(p) && EncodedEntry(p).Some?
    ensures var e := EncodedEntry(p).value; IsKept(e) && (NoNul(p) <==> NulFree(e.name) && NulFree(e.password))
  {
    EncodedLetters(p.name);
    EncodedLetters(p.password);
  }

  /**
   A database that was written is read back exactly when its user name is of ASCII letters and digits, at
   least one, and no NUL stands in a name or password.
   */
  lemma DatabaseIsRead(username: text, hash: bytes, ps: seq<Password>)
    requires |hash| == SHA256_DIGEST_LENGTH && forall i :: 0 <= i < |ps| ==> Filled(ps[i])
    requires var r := EncodedRecord(username, hash, ps); r.Some? && Serialized(r.value).Some?
    ensures var r := EncodedRecord(username, hash, ps).value;
            (Parsed(Serialized(r).value) == Some(r)
             <==> username != [] && AlnumLetters(username) && forall i :: 0 <= i < |ps| ==> NoNul(ps[i]))
  {
    hide Serialized;
    hide Parsed;
    hide Encoded;
    var r := EncodedRecord(username, hash, ps).value;
    WrittenIsRead(r);
    EncodedLetters(username);
    forall i | 0 <= i < |ps|
      ensures |r.entries| == |ps| && IsKept(r.entries[i])
              && (NoNul(ps[i]) <==> NulFree(r.entries[i].name) && NulFree(r.entries[i].password))
    {
      EntryAt(ps, i);
      EncodedFields(ps[i]);
    }
    if ps != [] {
      EntryAt(ps, 0);
    }
  }

  lemma EmptyNameBytes(hash: bytes)
    requires |hash| == SHA256_DIGEST_LENGTH
    ensures var s := ([39, 0, 0x41, 0] + hash + [0, 0x42, 0])[2..];
            && NulAt(s) == 1 && s[..1] == [0x41] && s[2..34] == hash && s[34..] == [0, 0x42, 0]
  {
    var t: bytes := [0, 0x42, 0];
    var s := ([39, 0, 0x41, 0] + hash + t)[2..];
    assert s == [0x41] + [0] + (hash + t);
    NulAfter([0x41], hash + t);
  }

  lemma EmptyNamePairs()
    ensures Pairs([0, 0x42, 0]) == Some([Entry([], [0x42])])
  {
    var e := Entry([], [0x42]);
    assert EntriesBytes([e]) == [0, 0x42, 0] && Terminable([e]) by {
      assert [e][1..] == [];
    }
    PairsRead([e]);
  }

  lemma EmptyNameRead(hash: bytes)
    requires |hash| == SHA256_DIGEST_LENGTH
    ensures var b := [39, 0, 0x41, 0] + hash + [0, 0x42, 0];
            Parsed(b) == Some(Record([0x41], hash, [])) && AllPairs(b) == [Entry([], [0x42])]
  {
    EmptyNameBytes(hash);
    EmptyNamePairs();
    KeptOne(Entry([], [0x42]));
    hide Pairs;
    hide Kept;
    hide NulAt;
  }

  /** An accepted buffer with an empty name: the entry is lost, and the buffer is not written again. */
  lemma EmptyNameIsLost(hash: bytes)
    requires |hash| == SHA256_DIGEST_LENGTH
    ensures var b := [39, 0, 0x41, 0] + hash + [0, 0x42, 0];
            && Parsed(b) == Some(Record([0x41], hash, [])) && !AllKept(AllPairs(b))
            && Serialized(Record([0x41], hash, [])) != Some(b)
  {
    hide Parsed;
    hide Serialized;
    hide AllPairs;
    var b: bytes := [39, 0, 0x41, 0] + hash + [0, 0x42, 0];
    EmptyNameRead(hash);
    ReadIsWritten(b);
    assert !IsKept(AllPairs(b)[0]);
  }

  /** The DB class of `DB.py`. */
  class Db {
    var numPasses: nat
    var username: text
    var pwHash: bytes
    var passwords: seq<Password>
    ghost var added: seq<Password>

    /** The names and passwords are stored with their terminators; none of them is empty. */
    ghost predicate Valid()
      reads this
    {
      && |passwords| == |added| == numPasses
      && forall i :: 0 <= i < |added| ==>
           && added[i].name != [] && added[i].password != []
           && passwords[i] == Password(added[i].name + [0], added[i].password + [0])
    }

    ghost function Recorded(): Option<Record>
      reads this
    {
      EncodedRecord(username, pwHash, added)
    }

    /** `hash` is the SHA-256 digest of the password. */
    constructor (username: text, hash: bytes)
      requires |hash| == SHA256_DIGEST_LENGTH
      ensures Valid() && this.username == username && pwHash == hash && added == []
    {
      this.numPasses, this.username, this.pwHash, this.passwords, this.added := 0, username, hash, [], [];
    }

    /** add_pw: an empty name or password is replaced. It fails where there is no further letter. */
    method AddPw(name: text, password: text) returns (ok: bool)
      requires Valid()
      modifies this`numPasses, this`passwords, this`added
      ensures Valid() && username == old(username) && pwHash == old(pwHash)
      ensures ok <==> 0x41 + |old(added)| <= 0x10ffff
      ensures !ok ==> added == old(added)
      ensures ok ==> |added| == |old(added)| + 1 && added[..|added| - 1] == old(added)
      ensures ok && name != [] ==> added[|added| - 1].name == name
      ensures ok && name == [] ==> TenOf(added[|added| - 1].name, 0x41 + |old(added)|)
      ensures ok && password != [] ==> added[|added| - 1].password == password
      ensures ok && password == [] ==> TenOf(added[|added| - 1].password, 0x46)
    {
      var code := 0x41 + numPasses;
      if code > 0x10ffff {
        return false;
      }
      var curLetter: letter := code;
      var n := if name == [] then seq(10, _ => curLetter) else name;
      var p := if password == [] then seq(10, _ => 0x46) else password;
      numPasses := numPasses + 1;
      passwords := passwords + [Password(n + [0], p + [0])];
      added := added + [Password(n, p)];
      ok := true;
    }

    /** get_userdb_buf, which fails at a string that cannot be encoded and at a length that does not fit. */
    method GetUserdbBuf() returns (buf: Option<bytes>)
      requires Valid()
      ensures buf == match Recorded() case None => None case Some(r) => Serialized(r)
    {
      var u := Encoded(username + [0]);
      EncodedTerminated(username);
      if u.None? {
        return None;
      }
      var body := u.value + pwHash;
      ghost var front, es: seq<Entry> := body, [];
      assert front + [] == front && added[..0] == [];
      for i := 0 to |passwords|
        invariant EncodedEntries(added[..i]) == Some(es) && body == front + EntriesBytes(es)
      {
        ghost var e := added[i];
        assert added == added[..i] + [e] + added[i + 1..];
        EncodedEntriesMore(added[..i], [e]);
        EncodedEntriesMore(added[..i] + [e], added[i + 1..]);
        assert [e][1..] == [] && added[..i + 1] == added[..i] + [e];
        EncodedTerminated(e.name);
        EncodedTerminated(e.password);
        var n := Encoded(passwords[i].name);
        if n.None? {
          return None;
        }
        body := body + n.value;
        var q := Encoded(passwords[i].password);
        if q.None? {
          return None;
        }
        body := body + q.value;
        ghost var entry := EncodedEntry(e).value;
        EntriesBytesMore(es, entry);
        Right3(entry.name + [0], entry.password, [0]);
        Right4(front, EntriesBytes(es), entry.name + [0], entry.password + [0]);
        Right3(front, EntriesBytes(es), EntryBytes(entry));
        assert Cons(entry, Some([])).value == [entry];
        es := es + [entry];
      }
      assert added[..|passwords|] == added;
      match PackedLength(|body| + 2)
      case None =>
        buf := None;
      case Some(l) =>
        buf := Some(l + body);
    }
  }

  // ----- the reader -----

  /** The User class of `user.cpp`. */
  class User {
    var username: bytes
    var passwordHash: bytes
    var entries: seq<Entry>

    function Recorded(): Record
      reads this
    {
      Record(username, passwordHash, entries)
    }

    constructor (username: bytes, passwordHash: bytes)
      ensures Recorded() == Record(username, passwordHash, [])
    {
      this.username, this.passwordHash, this.entries := username, passwordHash, [];
    }

    method AddPasswordEntry(name: bytes, password: bytes) returns (ok: bool)
      modifies this`entries
      ensures ok == (name != [] && password != [])
      ensures entries == old(entries) + if ok then [Entry(name, password)] else []
    {
      if |name| == 0 || |password| == 0 {
        return false;
      }
      entries := entries + [Entry(name, password)];
      ok := true;
    }
  }

  /** std::find for NUL. */
  method FindNul(buffer: bytes, it: nat) returns (at: nat)
    requires it <= |buffer|
    ensures at == it + NulAt(buffer[it..])
  {
    at := it;
    while at < |buffer| && buffer[at] != 0
      invariant it <= at <= |buffer| && at + NulAt(buffer[at..]) == it + NulAt(buffer[it..])
    {
      assert buffer[at..][1..] == buffer[at + 1..];
      at := at + 1;
    }
  }

  /** std::find_if_not with isalnum. */
  method OnlyAlnum(s: bytes) returns (r: bool)
    ensures r == AllAlnum(s)
  {
    var i := 0;
    while i < |s| && IsAlnum(s[i])
      invariant 0 <= i <= |s| && forall j :: 0 <= j < i ==> IsAlnum(s[j])
    {
      i := i + 1;
    }
    r := i == |s|;
  }

  lemma NothingKept(before: seq<Entry>)
    ensures before + Kept([]) == before
  {
  }

  lemma PairsEnd(s: bytes)
    requires s == []
    ensures Pairs(s) == Some([])
  {
  }

  lemma {:induction false} KeptMore(es: seq<Entry>, e: Entry)
    ensures Kept(es + [e]) == Kept(es) + Kept([e])
  {
    if es == [] {
      assert [] + [e] == [e];
    } else {
      KeptMore(es[1..], e);
      assert (es + [e])[1..] == es[1..] + [e];
    }
  }

  /** What std::find finds, on the rest of the buffer. */
  lemma NextName(b: bytes, it: nat)
    requires it <= |b|
    ensures var s := b[it..];
            var n := it + NulAt(s);
            && (HasNul(s) <==> n < |b|) && Name(s) == b[it..n] && (HasNul(s) ==> Behind(s) == b[n + 1..])
  {
    hide NulAt;
  }

  /** One pair of the loop below. */
  method ParsePair(buffer: bytes, start: nat, newUser: User) returns (ok: bool, it: nat, ghost e: Entry)
    requires start < |buffer|
    modifies newUser`entries
    ensures ok ==> start < it <= |buffer| && Pairs(buffer[start..]) == Cons(e, Pairs(buffer[it..]))
    ensures ok ==> newUser.entries == old(newUser.entries) + Kept([e])
    ensures !ok ==> Pairs(buffer[start..]) == None
  {
    hide NulAt;
    hide Kept;
    hide HasNul;
    hide Name;
    hide Behind;
    it, e := start, Entry([], []);
    NextName(buffer, it);
    var nullIt := FindNul(buffer, it);
    if nullIt == |buffer| {
      return false, it, e;
    }
    var entryName := buffer[it..nullIt];
    it := nullIt + 1;
    NextName(buffer, it);
    nullIt := FindNul(buffer, it);
    if nullIt == |buffer| {
      return false, it, e;
    }
    var password := buffer[it..nullIt];
    it := nullIt + 1;
    var _ := newUser.AddPasswordEntry(entryName, password);
    ok, e := true, Entry(entryName, password);
    KeptOne(e);
  }

  /** Its loop over the pairs. */
  method ParseEntries(buffer: bytes, start: nat, newUser: User) returns (ok: bool)
    requires start <= |buffer|
    modifies newUser`entries
    ensures match Pairs(buffer[start..])
            case None => !ok
            case Some(es) => ok && newUser.entries == old(newUser.entries) + Kept(es)
  {
    hide Kept;
    hide Pairs;
    var it := start;
    ghost var all := Pairs(buffer[start..]);
    ghost var before := newUser.entries;
    ghost var done: seq<Entry> := [];
    NothingKept(before);
    PrefixedNothing(all);
    while it < |buffer|
      invariant start <= it <= |buffer|
      invariant all == Prefixed(done, Pairs(buffer[it..]))
      invariant newUser.entries == before + Kept(done)
      decreases |buffer| - it
    {
      ghost var e;
      ok, it, e := ParsePair(buffer, it, newUser);
      if !ok {
        return;
      }
      KeptMore(done, e);
      PrefixedMore(done, e, Pairs(buffer[it..]));
      Right3(before, Kept(done), Kept([e]));
      done := done + [e];
    }
    PairsEnd(buffer[it..]);
    assert done + [] == done;
    ok := true;
  }

  /** Parsed by positions in the buffer; `it` is the end of the user name. */
  function ParsedAt(b: bytes, it: nat): Option<Record>
    requires 2 <= it <= |b|
  {
    if it == |b| || it == 2 || it + SHA256_DIGEST_LENGTH >= |b| || !AllAlnum(b[2..it]) then None
    else
      match Pairs(b[it + 33..])
      case None => None
      case Some(es) => Some(Record(b[2..it], b[it + 1..it + 33], Kept(es)))
  }

  lemma ParsedByPosition(b: bytes)
    requires 2 < |b| && Packed(b[0], b[1]) == |b|
    ensures Parsed(b) == ParsedAt(b, 2 + NulAt(b[2..]))
  {
    hide Pairs;
    hide Kept;
    hide AllAlnum;
    hide NulAt;
    var (s, n) := (b[2..], NulAt(b[2..]));
    assert s[..n] == b[2..n + 2];
    if n + 33 <= |s| {
      assert s[n + 1..n + 33] == b[n + 3..n + 35] && s[n + 33..] == b[n + 35..];
    }
  }

  /** Manager::ParseUserDB. */
  method ParseUserDB(buffer: bytes) returns (user: User?)
    ensures match Parsed(buffer)
            case None => user == null
            case Some(r) => user != null && fresh(user) && user.Recorded() == r
  {
    hide Pairs;
    hide Kept;
    hide NulAt;
    hide AllAlnum;
    var length := |buffer|;
    if length < 2 || Packed(buffer[0], buffer[1]) != length {
      return null;
    }
    if 2 >= length {
      return null;
    }
    ParsedByPosition(buffer);
    hide Parsed;
    var it := FindNul(buffer, 2);
    if it == length || it == 2 {
      return null;
    }
    var username := buffer[2..it];
    if it + SHA256_DIGEST_LENGTH >= length {
      return null;
    }
    it := it + 1;
    var alnum := OnlyAlnum(username);
    if !alnum {
      return null;
    }
    var passHash := buffer[it..it + SHA256_DIGEST_LENGTH];
    it := it + SHA256_DIGEST_LENGTH;
    var newUser := new User(username, passHash);
    var ok := ParseEntries(buffer, it, newUser);
    if ok {
      user := newUser;
    } else {
      user := null;
    }
  }
}
