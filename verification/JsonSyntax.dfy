/**
 The language of the parser as trees: each text with its gaps, words, numerals and literals, written with the
 bytes themselves. The parser accepts exactly the texts of such trees, each with the value of its tree.
 */
module JsonSyntax {
  import opened Bytes
  import opened JsonValue
  import opened JsonGrammar
  import L = JsonLiterals
  import N = JsonNumerals
  import RoundTrip = JsonRoundTrip

  datatype Tree =
    | Word(word: bytes)
    | Numeral(n: N.Numeral)
    | Literal(us: seq<L.Unit>)
    | List(gap: bytes, items: seq<Item>)
    | Table(gap: bytes, entries: seq<Entry>)

  /** An element with the gaps around it. */
  datatype Item = Item(before: bytes, tree: Tree, after: bytes)

  /** A name, a colon and a value, with four gaps. */
  datatype Entry = Entry(before: bytes, name: seq<L.Unit>, colon: bytes, gap: bytes, tree: Tree, after: bytes)

  // ----- the text of a tree -----

  predicate Gap(s: bytes) {
    forall i :: 0 <= i < |s| ==> s[i] <= 0x20
  }

  function Quote(us: seq<L.Unit>): bytes {
    [0x22] + L.TextOf(us) + [0x22]
  }

  function Spell(t: Tree): bytes {
    match t
    case Word(w) => w
    case Numeral(n) => N.Spelled(n)
    case Literal(us) => Quote(us)
    case List(gap, items) => [0x5b] + (if items == [] then gap else SpellItems(items)) + [0x5d]
    case Table(gap, entries) => [0x7b] + (if entries == [] then gap else SpellEntries(entries)) + [0x7d]
  }

  /** Elements with a comma between any two. */
  function SpellItems(items: seq<Item>): bytes {
    if items == [] then []
    else
      items[0].before + (Spell(items[0].tree) + (items[0].after
      + if |items| == 1 then [] else [0x2c] + SpellItems(items[1..])))
  }

  function SpellEntries(entries: seq<Entry>): bytes {
    if entries == [] then []
    else
      entries[0].before + (Quote(entries[0].name) + (entries[0].colon + ([0x3a] + (entries[0].gap
      + (Spell(entries[0].tree) + (entries[0].after
      + if |entries| == 1 then [] else [0x2c] + SpellEntries(entries[1..])))))))
  }

  // ----- which trees there are -----

  ghost predicate ProperLiteral(us: seq<L.Unit>) {
    L.AllProper(us) && L.Balanced(L.TextOf(us))
  }

  /** The words are null, false and true. A numeral begins with a minus sign or a digit. */
  ghost predicate Proper(t: Tree) {
    match t
    case Word(w) =>
      w in {[0x6e, 0x75, 0x6c, 0x6c], [0x66, 0x61, 0x6c, 0x73, 0x65], [0x74, 0x72, 0x75, 0x65]}
    case Numeral(n) =>
      N.Proper(n) && |N.Spelled(n)| <= 63 && (N.Spelled(n)[0] == 0x2d || 0x30 <= N.Spelled(n)[0] <= 0x39)
    case Literal(us) => ProperLiteral(us)
    case List(gap, items) => Gap(gap) && ProperItems(items)
    case Table(gap, entries) => Gap(gap) && ProperEntries(entries)
  }

  ghost predicate ProperItems(items: seq<Item>) {
    items == [] || (Gap(items[0].before) && Gap(items[0].after) && Proper(items[0].tree) && ProperItems(items[1..]))
  }

  ghost predicate ProperEntries(entries: seq<Entry>) {
    || entries == []
    || (var e := entries[0];
        && Gap(e.before) && Gap(e.colon) && Gap(e.gap) && Gap(e.after)
        && ProperLiteral(e.name) && Proper(e.tree) && ProperEntries(entries[1..]))
  }

  /** How deeply lists and tables are nested. */
  function Nesting(t: Tree): nat {
    match t
    case List(_, items) => 1 + ItemsNesting(items)
    case Table(_, entries) => 1 + EntriesNesting(entries)
    case _ => 0
  }

  function ItemsNesting(items: seq<Item>): nat {
    if items == [] then 0
    else
      var a, b := Nesting(items[0].tree), ItemsNesting(items[1..]);
      if a > b then a else b
  }

  function EntriesNesting(entries: seq<Entry>): nat {
    if entries == [] then 0
    else
      var a, b := Nesting(entries[0].tree), EntriesNesting(entries[1..]);
      if a > b then a else b
  }

  // ----- what a tree stands for -----

  ghost function NameOf(us: seq<L.Unit>): bytes
    requires ProperLiteral(us)
  {
    L.BeforeNul(L.BytesOf(us))
  }

  ghost function Meaning(t: Tree): Json
    requires Proper(t)
  {
    match t
    case Word(w) => if w[0] == 0x6e then Null else if w[0] == 0x66 then False else True
    case Numeral(n) => Number(N.ValueOf(n))
    case Literal(us) => String(NameOf(us))
    case List(_, items) => Array(Elements(items))
    case Table(_, entries) => Object(Members(entries))
  }

  ghost function Elements(items: seq<Item>): seq<Json>
    requires ProperItems(items)
  {
    if items == [] then [] else [Meaning(items[0].tree)] + Elements(items[1..])
  }

  ghost function Members(entries: seq<Entry>): seq<Member>
    requires ProperEntries(entries)
  {
    if entries == [] then []
    else [Member(NameOf(entries[0].name), Meaning(entries[0].tree))] + Members(entries[1..])
  }

  // ----- gaps -----

  lemma GapSkipped(gap: bytes, s: bytes)
    requires Gap(gap) && (s == [] || s[0] > 0x20)
    ensures SkipWs(gap + s) == s
  {
    RoundTrip.SkipBlanks(gap, s);
  }

  lemma {:induction false} GapOf(s: bytes) returns (gap: bytes)
    ensures Gap(gap) && s == gap + SkipWs(s) && (SkipWs(s) == [] || SkipWs(s)[0] > 0x20)
  {
    gap := [];
    if s != [] && s[0] <= 0x20 {
      var more := GapOf(s[1..]);
      gap := [s[0]] + more;
    }
  }

  /** What stands behind a value ends a number. */
  lemma GapEnds(gap: bytes, b: byte, s: bytes)
    requires Gap(gap) && b in {0x2c, 0x5d, 0x7d}
    ensures RoundTrip.Ends(gap + ([b] + s))
  {
    var t := gap + ([b] + s);
    assert t[0] == if gap == [] then b else gap[0];
  }

  // ----- every tree is accepted -----

  /** The first byte of a value. */
  lemma SpellBegins(t: Tree)
    requires Proper(t)
    ensures Spell(t) != [] && Spell(t)[0] > 0x20 && Spell(t)[0] != 0x5d && Spell(t)[0] != 0x7d && Spell(t)[0] < 0x80
  {
    if t.Numeral? {
      N.SpelledChars(t.n);
    }
  }

  lemma WordReads(w: bytes, rest: bytes, d: nat)
    requires Proper(Word(w))
    ensures ParseValue(w + rest, d) == Done(Meaning(Word(w)), rest)
  {
    hide ParseValue;
    LiteralReads(w, rest, d);
  }

  lemma NumeralReads(n: N.Numeral, rest: bytes, d: nat)
    requires Proper(Numeral(n)) && RoundTrip.Ends(rest)
    ensures ParseValue(N.Spelled(n) + rest, d) == Done(Number(N.ValueOf(n)), rest)
  {
    hide ParseValue;
    hide N.Spelled;
    N.SpelledChars(n);
    N.NumeralReads(n, rest);
    OtherValue(N.Spelled(n) + rest, d);
  }

  lemma QuoteReads(us: seq<L.Unit>, rest: bytes)
    requires ProperLiteral(us)
    ensures ParseString(Quote(us) + rest) == Done(NameOf(us), rest)
    ensures (Quote(us) + rest)[0] == 0x22
  {
    hide ParseString;
    L.LiteralReads(us, rest);
  }

  lemma LiteralIs(us: seq<L.Unit>, rest: bytes, d: nat)
    requires ProperLiteral(us)
    ensures ParseValue(Quote(us) + rest, d) == Done(String(NameOf(us)), rest)
  {
    hide ParseValue;
    hide ParseString;
    QuoteReads(us, rest);
    hide Quote;
    OtherValue(Quote(us) + rest, d);
  }

  lemma ItemsCut(items: seq<Item>, close: bytes)
    requires items != []
    ensures var more := if |items| == 1 then close else [0x2c] + (SpellItems(items[1..]) + close);
            SpellItems(items) + close == items[0].before + (Spell(items[0].tree) + (items[0].after + more))
  {
    hide Spell;
    var x, y, z := items[0].before, Spell(items[0].tree), items[0].after;
    var m := if |items| == 1 then [] else [0x2c] + SpellItems(items[1..]);
    Right3(x, y + (z + m), close);
    Right3(y, z + m, close);
    Right3(z, m, close);
    if |items| == 1 {
      assert [] + close == close;
    } else {
      Right3([0x2c], SpellItems(items[1..]), close);
    }
  }

  lemma ItemsBegin(items: seq<Item>, close: bytes) returns (t: bytes)
    requires items != [] && ProperItems(items)
    ensures SpellItems(items) + close == items[0].before + t
    ensures t != [] && t[0] > 0x20 && t[0] != 0x5d
  {
    ItemsCut(items, close);
    SpellBegins(items[0].tree);
    hide Spell;
    var more := if |items| == 1 then close else [0x2c] + (SpellItems(items[1..]) + close);
    t := Spell(items[0].tree) + (items[0].after + more);
  }

  lemma ListText(gap: bytes, items: seq<Item>, rest: bytes)
    ensures Spell(List(gap, items)) + rest
         == [0x5b] + ((if items == [] then gap else SpellItems(items)) + ([0x5d] + rest))
  {
    hide SpellItems;
    Right4([0x5b], if items == [] then gap else SpellItems(items), [0x5d], rest);
  }

  lemma {:induction false} ItemsRead(items: seq<Item>, rest: bytes, d: nat)
    requires items != [] && ProperItems(items) && d + ItemsNesting(items) <= 1000
    ensures ParseElems(SpellItems(items) + ([0x5d] + rest), d) == Done(Elements(items), rest)
    decreases items, 1
  {
    hide ParseElems;
    hide ParseValue;
    hide SkipWs;
    hide Gap;
    var item, close := items[0], [0x5d] + rest;
    var v := Meaning(item.tree);
    ItemsCut(items, close);
    SpellBegins(item.tree);
    var more := if |items| == 1 then close else [0x2c] + (SpellItems(items[1..]) + close);
    var r := item.after + more;
    var s := item.before + (Spell(item.tree) + r);
    if |items| == 1 {
      GapEnds(item.after, 0x5d, rest);
    } else {
      GapEnds(item.after, 0x2c, SpellItems(items[1..]) + close);
    }
    TreeReads(item.tree, r, d);
    hide Spell;
    assert (Spell(item.tree) + r)[0] == Spell(item.tree)[0];
    GapSkipped(item.before, Spell(item.tree) + r);
    RoundTrip.ElemsStep(s, v, r, d);
    GapSkipped(item.after, more);
    if |items| == 1 {
      RoundTrip.Front(0x5d, rest);
      assert Elements(items[1..]) == [] && [v] + [] == [v];
    } else {
      RoundTrip.Front(0x2c, SpellItems(items[1..]) + close);
      ItemsRead(items[1..], rest, d);
    }
  }

  lemma {:induction false} ListReads(gap: bytes, items: seq<Item>, rest: bytes, d: nat)
    requires Gap(gap) && ProperItems(items) && d + 1 + ItemsNesting(items) <= 1000
    ensures ParseValue(Spell(List(gap, items)) + rest, d) == Done(Array(Elements(items)), rest)
    decreases items, 2
  {
    hide ParseElems;
    hide ParseValue;
    hide SkipWs;
    hide Spell;
    hide SpellItems;
    hide Gap;
    var close, inner := [0x5d] + rest, if items == [] then gap else SpellItems(items);
    var b := inner + close;
    ListText(gap, items, rest);
    if items == [] {
      GapSkipped(gap, close);
      RoundTrip.Front(0x5d, rest);
      RoundTrip.ArrayOpens(b, close, d);
    } else {
      var t := ItemsBegin(items, close);
      GapSkipped(items[0].before, t);
      ItemsRead(items, rest, d + 1);
      RoundTrip.ArrayOpens(b, t, d);
      GapSkipped([], t);
      assert [] + t == t;
      RoundTrip.ElemsSkip(b, t, d + 1);
    }
  }

  // ----- tables -----

  lemma EntriesCut(entries: seq<Entry>, close: bytes)
    requires entries != []
    ensures var more := if |entries| == 1 then close else [0x2c] + (SpellEntries(entries[1..]) + close);
            var e := entries[0];
            SpellEntries(entries) + close
            == e.before + (Quote(e.name) + (e.colon + ([0x3a] + (e.gap + (Spell(e.tree) + (e.after + more))))))
  {
    hide Spell;
    hide Quote;
    var e := entries[0];
    var m := if |entries| == 1 then [] else [0x2c] + SpellEntries(entries[1..]);
    var t1 := e.after + m;
    var t2 := Spell(e.tree) + t1;
    var t3 := e.gap + t2;
    var t4 := [0x3a] + t3;
    var t5 := e.colon + t4;
    var t6 := Quote(e.name) + t5;
    Right3(e.before, t6, close);
    Right3(Quote(e.name), t5, close);
    Right3(e.colon, t4, close);
    Right3([0x3a], t3, close);
    Right3(e.gap, t2, close);
    Right3(Spell(e.tree), t1, close);
    Right3(e.after, m, close);
    if |entries| == 1 {
      assert [] + close == close;
    } else {
      Right3([0x2c], SpellEntries(entries[1..]), close);
    }
  }

  lemma EntriesBegin(entries: seq<Entry>, close: bytes) returns (t: bytes)
    requires entries != [] && ProperEntries(entries)
    ensures SpellEntries(entries) + close == entries[0].before + t
    ensures t != [] && t[0] == 0x22
  {
    EntriesCut(entries, close);
    hide Spell;
    var e := entries[0];
    var more := if |entries| == 1 then close else [0x2c] + (SpellEntries(entries[1..]) + close);
    t := Quote(e.name) + (e.colon + ([0x3a] + (e.gap + (Spell(e.tree) + (e.after + more)))));
  }

  lemma TableText(gap: bytes, entries: seq<Entry>, rest: bytes)
    ensures Spell(Table(gap, entries)) + rest
         == [0x7b] + ((if entries == [] then gap else SpellEntries(entries)) + ([0x7d] + rest))
  {
    hide SpellEntries;
    Right4([0x7b], if entries == [] then gap else SpellEntries(entries), [0x7d], rest);
  }

  /** One entry, with what stands behind its value. */
  lemma {:induction false} EntryReads(e: Entry, r: bytes, d: nat)
    requires Gap(e.before) && Gap(e.colon) && Gap(e.gap) && ProperLiteral(e.name) && Proper(e.tree)
    requires d + Nesting(e.tree) <= 1000 && RoundTrip.Ends(r)
    ensures ParseMember(e.before + (Quote(e.name) + (e.colon + ([0x3a] + (e.gap + (Spell(e.tree) + r))))), d)
         == Done(Member(NameOf(e.name), Meaning(e.tree)), r)
    decreases e, 0
  {
    hide ParseMember;
    hide ParseString;
    hide ParseValue;
    hide SkipWs;
    hide Gap;
    SpellBegins(e.tree);
    TreeReads(e.tree, r, d);
    hide Spell;
    var y := Spell(e.tree) + r;
    var b := e.gap + y;
    var k := [0x3a] + b;
    var q := e.colon + k;
    QuoteReads(e.name, q);
    hide Quote;
    assert y[0] == Spell(e.tree)[0];
    GapSkipped(e.gap, y);
    GapSkipped(e.colon, k);
    GapSkipped(e.before, Quote(e.name) + q);
    RoundTrip.MemberStep(e.before + (Quote(e.name) + q), NameOf(e.name), q, b, Meaning(e.tree), r, d);
  }

  lemma {:induction false} EntriesRead(entries: seq<Entry>, rest: bytes, d: nat)
    requires entries != [] && ProperEntries(entries) && d + EntriesNesting(entries) <= 1000
    ensures ParseMembers(SpellEntries(entries) + ([0x7d] + rest), d) == Done(Members(entries), rest)
    decreases entries, 1
  {
    hide ParseMembers;
    hide ParseMember;
    hide SkipWs;
    hide Gap;
    hide Spell;
    hide Quote;
    var e, close := entries[0], [0x7d] + rest;
    var m := Member(NameOf(e.name), Meaning(e.tree));
    EntriesCut(entries, close);
    var more := if |entries| == 1 then close else [0x2c] + (SpellEntries(entries[1..]) + close);
    var r := e.after + more;
    if |entries| == 1 {
      GapEnds(e.after, 0x7d, rest);
    } else {
      GapEnds(e.after, 0x2c, SpellEntries(entries[1..]) + close);
    }
    EntryReads(e, r, d);
    RoundTrip.MembersStep(SpellEntries(entries) + close, m, r, d);
    GapSkipped(e.after, more);
    if |entries| == 1 {
      RoundTrip.Front(0x7d, rest);
      assert Members(entries[1..]) == [] && [m] + [] == [m];
    } else {
      RoundTrip.Front(0x2c, SpellEntries(entries[1..]) + close);
      EntriesRead(entries[1..], rest, d);
    }
  }

  lemma {:induction false} TableReads(gap: bytes, entries: seq<Entry>, rest: bytes, d: nat)
    requires Gap(gap) && ProperEntries(entries) && d + 1 + EntriesNesting(entries) <= 1000
    ensures ParseValue(Spell(Table(gap, entries)) + rest, d) == Done(Object(Members(entries)), rest)
    decreases entries, 2
  {
    hide ParseMembers;
    hide ParseValue;
    hide SkipWs;
    hide Spell;
    hide SpellEntries;
    hide Gap;
    var close, inner := [0x7d] + rest, if entries == [] then gap else SpellEntries(entries);
    var b := inner + close;
    TableText(gap, entries, rest);
    if entries == [] {
      GapSkipped(gap, close);
      RoundTrip.Front(0x7d, rest);
      RoundTrip.ObjectOpens(b, close, d);
    } else {
      var t := EntriesBegin(entries, close);
      GapSkipped(entries[0].before, t);
      EntriesRead(entries, rest, d + 1);
      RoundTrip.ObjectOpens(b, t, d);
      GapSkipped([], t);
      assert [] + t == t;
      RoundTrip.MembersSkip(b, t, d + 1);
    }
  }

  /** The text of every tree that is not nested too deeply is read as what the tree stands for. */
  lemma {:induction false} TreeReads(t: Tree, rest: bytes, d: nat)
    requires Proper(t) && d + Nesting(t) <= 1000 && (t.Numeral? ==> RoundTrip.Ends(rest))
    ensures ParseValue(Spell(t) + rest, d) == Done(Meaning(t), rest)
    decreases t, 0
  {
    match t
    case Word(w) =>
      WordReads(w, rest, d);
    case Numeral(n) =>
      NumeralReads(n, rest, d);
    case Literal(us) =>
      LiteralIs(us, rest, d);
    case List(gap, items) =>
      ListReads(gap, items, rest, d);
    case Table(gap, entries) =>
      TableReads(gap, entries, rest, d);
  }

  // ----- whatever is accepted is such a tree -----

  lemma WordOf(s: bytes, w: bytes, d: nat) returns (t: Tree)
    requires w in {NULL_TEXT, FALSE_TEXT, TRUE_TEXT} && StartsWith(s, w)
    ensures Proper(t) && Nesting(t) == 0 && ParseValue(s, d).Done?
    ensures s == Spell(t) + ParseValue(s, d).rest && ParseValue(s, d).value == Meaning(t)
  {
    hide ParseValue;
    t := Word(w);
    assert s == w + s[|w|..];
    LiteralReads(w, s[|w|..], d);
  }

  /** Which bytes a value can begin with. */
  lemma ScalarBegins(s: bytes, d: nat)
    requires ParseValue(s, d).Done?
    requires !StartsWith(s, NULL_TEXT) && !StartsWith(s, FALSE_TEXT) && !StartsWith(s, TRUE_TEXT)
    ensures s != [] && (s[0] in {0x22, 0x5b, 0x7b, 0x2d} || 0x30 <= s[0] <= 0x39)
  {
    hide ParseString;
    hide ParseNumber;
    hide ParseArray;
    hide ParseObject;
  }

  lemma ScalarOf(s: bytes, d: nat) returns (t: Tree)
    requires s != [] && (s[0] in {0x22, 0x2d} || 0x30 <= s[0] <= 0x39) && ParseValue(s, d).Done?
    ensures Proper(t) && Nesting(t) == 0
    ensures s == Spell(t) + ParseValue(s, d).rest && ParseValue(s, d).value == Meaning(t)
  {
    hide ParseValue;
    hide ParseString;
    hide ParseNumber;
    OtherValue(s, d);
    if s[0] == 0x22 {
      var us := L.LiteralOf(s);
      t := Literal(us);
    } else {
      var n := N.NumberOf(s);
      N.SpelledChars(n);
      t := Numeral(n);
      hide N.Spelled;
      assert s[0] == N.Spelled(n)[0];
    }
  }

  lemma NoItems()
    ensures Gap([]) && SpellItems([]) == [] && SpellEntries([]) == []
  {
  }

  /** A gap in front of the first element is part of its own. */
  lemma GapsJoined(items: seq<Item>, gap: bytes)
    requires items != [] && ProperItems(items) && Gap(gap)
    ensures var all := [items[0].(before := gap + items[0].before)] + items[1..];
            && ProperItems(all) && SpellItems(all) == gap + SpellItems(items)
            && Elements(all) == Elements(items) && ItemsNesting(all) == ItemsNesting(items)
  {
    hide Spell;
    var all := [items[0].(before := gap + items[0].before)] + items[1..];
    assert all[1..] == items[1..];
    var rest := Spell(items[0].tree) + (items[0].after + if |items| == 1 then [] else [0x2c] + SpellItems(items[1..]));
    Right3(gap, items[0].before, rest);
  }

  lemma EntryGapsJoined(entries: seq<Entry>, gap: bytes)
    requires entries != [] && ProperEntries(entries) && Gap(gap)
    ensures var all := [entries[0].(before := gap + entries[0].before)] + entries[1..];
            && ProperEntries(all) && SpellEntries(all) == gap + SpellEntries(entries)
            && Members(all) == Members(entries) && EntriesNesting(all) == EntriesNesting(entries)
  {
    hide Spell;
    hide Quote;
    var e, all := entries[0], [entries[0].(before := gap + entries[0].before)] + entries[1..];
    assert all[1..] == entries[1..];
    EntriesCut(entries, []);
    EntriesCut(all, []);
    assert SpellEntries(entries) + [] == SpellEntries(entries) && SpellEntries(all) + [] == SpellEntries(all);
    var more := if |entries| == 1 then [] else [0x2c] + (SpellEntries(entries[1..]) + []);
    hide SpellEntries;
    Right3(gap, e.before,
           Quote(e.name) + (e.colon + ([0x3a] + (e.gap + (Spell(e.tree) + (e.after + more))))));
  }

  lemma {:induction false} ItemsOf(s: bytes, d: nat) returns (items: seq<Item>)
    requires ParseElems(s, d).Done? && d <= 1000
    ensures items != [] && ProperItems(items) && d + ItemsNesting(items) <= 1000
    ensures s == SpellItems(items) + ([0x5d] + ParseElems(s, d).rest) && ParseElems(s, d).value == Elements(items)
    decreases |s|, 2
  {
    hide ParseValue;
    hide SkipWs;
    hide Gap;
    var x := SkipWs(s);
    var before := GapOf(s);
    var tree := TreeOf(x, d);
    var r := ParseValue(x, d).rest;
    var u := SkipWs(r);
    var after := GapOf(r);
    ElementIs(s, d);
    var item := Item(before, tree, after);
    var rest := ParseElems(s, d).rest;
    var close := [0x5d] + rest;
    var more := [];
    if u[0] == COMMA {
      more := ItemsOf(u[1..], d);
    }
    hide ParseElems;
    hide Spell;
    items := [item] + more;
    assert items[1..] == more && items[0] == item;
    ItemsCut(items, close);
    if u[0] == COMMA {
      assert u == [0x2c] + u[1..];
    } else {
      assert u == [0x5d] + u[1..];
    }
  }

  lemma {:induction false} EntriesOf(s: bytes, d: nat) returns (entries: seq<Entry>)
    requires ParseMembers(s, d).Done? && d <= 1000
    ensures entries != [] && ProperEntries(entries) && d + EntriesNesting(entries) <= 1000
    ensures s == SpellEntries(entries) + ([0x7d] + ParseMembers(s, d).rest)
    ensures ParseMembers(s, d).value == Members(entries)
    decreases |s|, 3
  {
    hide ParseMember;
    hide SkipWs;
    hide Gap;
    hide NameOf;
    hide ProperLiteral;
    hide Quote;
    hide Spell;
    var e, r := EntryOf(s, d);
    var u := SkipWs(r);
    var after := GapOf(r);
    MemberIs(s, d);
    var entry := e.(after := after);
    var close := [0x7d] + ParseMembers(s, d).rest;
    var more := [];
    if u[0] == COMMA {
      more := EntriesOf(u[1..], d);
    }
    hide ParseMembers;
    entries := [entry] + more;
    assert entries[1..] == more && entries[0] == entry;
    EntriesCut(entries, close);
    if u[0] == COMMA {
      assert u == [0x2c] + u[1..];
    } else {
      assert u == [0x7d] + u[1..];
    }
  }

  /** One entry, without the gap behind it. */
  lemma {:induction false} EntryOf(s: bytes, d: nat) returns (e: Entry, r: bytes)
    requires ParseMember(s, d).Done? && d <= 1000
    ensures Gap(e.before) && Gap(e.colon) && Gap(e.gap) && e.after == [] && ProperLiteral(e.name) && Proper(e.tree)
    ensures d + Nesting(e.tree) <= 1000
    ensures s == e.before + (Quote(e.name) + (e.colon + ([0x3a] + (e.gap + (Spell(e.tree) + r)))))
    ensures ParseMember(s, d) == Done(Member(NameOf(e.name), Meaning(e.tree)), r) && |r| < |s|
    decreases |s|, 2
  {
    hide ParseValue;
    hide ParseString;
    hide SkipWs;
    hide Gap;
    MemberText(s, d);
    hide ParseMember;
    var x := SkipWs(s);
    var before := GapOf(s);
    var name := L.LiteralOf(x);
    var q := ParseString(x).rest;
    var u := SkipWs(q);
    var colon := GapOf(q);
    var y := SkipWs(u[1..]);
    var gap := GapOf(u[1..]);
    var tree := TreeOf(y, d);
    e, r := Entry(before, name, colon, gap, tree, []), ParseValue(y, d).rest;
    assert u == [0x3a] + u[1..];
  }

  lemma {:induction false} ListOf(s: bytes, d: nat) returns (t: Tree)
    requires s != [] && s[0] == 0x5b && ParseArray(s, d).Done? && d <= 1000
    ensures Proper(t) && d + Nesting(t) <= 1000
    ensures s == Spell(t) + ParseArray(s, d).rest && ParseArray(s, d).value == Meaning(t)
    decreases |s|, 0
  {
    hide ParseElems;
    hide SkipWs;
    hide Spell;
    hide SpellItems;
    hide Gap;
    var b := s[1..];
    var x := SkipWs(b);
    var gap := GapOf(b);
    NoItems();
    var rest := ParseArray(s, d).rest;
    assert s == [0x5b] + b;
    if x != [] && x[0] == 0x5d {
      t := List(gap, []);
      ListText(gap, [], rest);
      assert x == [0x5d] + x[1..];
    } else {
      var items := ItemsOf(x, d + 1);
      var first := items[0].(before := gap + items[0].before);
      var all := [first] + items[1..];
      GapsJoined(items, gap);
      t := List([], all);
      Right3(gap, SpellItems(items), [0x5d] + rest);
      ListText([], all, rest);
    }
  }

  lemma {:induction false} TableOf(s: bytes, d: nat) returns (t: Tree)
    requires s != [] && s[0] == 0x7b && ParseObject(s, d).Done? && d <= 1000
    ensures Proper(t) && d + Nesting(t) <= 1000
    ensures s == Spell(t) + ParseObject(s, d).rest && ParseObject(s, d).value == Meaning(t)
    decreases |s|, 0
  {
    hide ParseMembers;
    hide SkipWs;
    hide Spell;
    hide SpellEntries;
    hide Gap;
    var b := s[1..];
    var x := SkipWs(b);
    var gap := GapOf(b);
    NoItems();
    var rest := ParseObject(s, d).rest;
    assert s == [0x7b] + b;
    if x != [] && x[0] == 0x7d {
      t := Table(gap, []);
      TableText(gap, [], rest);
      assert x == [0x7d] + x[1..];
    } else {
      var entries := EntriesOf(x, d + 1);
      EntryGapsJoined(entries, gap);
      var all := [entries[0].(before := gap + entries[0].before)] + entries[1..];
      t := Table([], all);
      Right3(gap, SpellEntries(entries), [0x7d] + rest);
      TableText([], all, rest);
    }
  }

  /** Every value that is read is the text of such a tree, and what the tree stands for. */
  lemma {:induction false} TreeOf(s: bytes, d: nat) returns (t: Tree)
    requires ParseValue(s, d).Done? && d <= 1000
    ensures Proper(t) && d + Nesting(t) <= 1000
    ensures s == Spell(t) + ParseValue(s, d).rest && ParseValue(s, d).value == Meaning(t)
    decreases |s|, 1
  {
    if StartsWith(s, NULL_TEXT) {
      t := WordOf(s, NULL_TEXT, d);
    } else if StartsWith(s, FALSE_TEXT) {
      t := WordOf(s, FALSE_TEXT, d);
    } else if StartsWith(s, TRUE_TEXT) {
      t := WordOf(s, TRUE_TEXT, d);
    } else {
      ScalarBegins(s, d);
      hide ParseValue;
      hide ParseArray;
      hide ParseObject;
      hide ParseNumber;
      hide ParseString;
      OtherValue(s, d);
      if s[0] == 0x5b {
        t := ListOf(s, d);
      } else if s[0] == 0x7b {
        t := TableOf(s, d);
      } else {
        t := ScalarOf(s, d);
      }
    }
  }

  // ----- whole texts -----

  /** The mark that may stand in front of a text. */
  predicate Mark(m: bytes) {
    m == [] || m == [0xef, 0xbb, 0xbf]
  }

  /** A text: a mark, a gap, a value, and what stands behind it. */
  ghost predicate IsText(s: bytes, mark: bytes, gap: bytes, t: Tree, rest: bytes) {
    && Mark(mark) && Gap(gap) && Proper(t) && Nesting(t) <= 1000
    && s == mark + (gap + (Spell(t) + rest))
  }

  lemma MarkSkipped(mark: bytes, gap: bytes, x: bytes)
    requires Mark(mark) && Gap(gap) && x != [] && x[0] < 0x80
    ensures SkipBom(mark + (gap + x)) == gap + x
  {
    var y := gap + x;
    assert y[0] < 0x80;
    assert mark == [] ==> mark + y == y;
    assert mark != [] ==> (mark + y)[..3] == mark && (mark + y)[3..] == y;
  }

  /**
   Every such text is accepted with the value of its tree. Where the end is required, only a gap may follow
   the value.
   */
  lemma TextReads(s: bytes, mark: bytes, gap: bytes, t: Tree, rest: bytes, whole: bool)
    requires IsText(s, mark, gap, t, rest) && (t.Numeral? ==> RoundTrip.Ends(rest)) && (whole ==> Gap(rest))
    ensures ParseText(s, whole) == Done(Meaning(t), if whole then [] else rest)
  {
    hide ParseValue;
    hide SkipWs;
    hide Gap;
    SpellBegins(t);
    TreeReads(t, rest, 0);
    hide Spell;
    var x := Spell(t) + rest;
    var y := gap + x;
    assert x[0] == Spell(t)[0];
    MarkSkipped(mark, gap, x);
    GapSkipped(gap, x);
    if whole {
      GapSkipped(rest, []);
      assert rest + [] == rest;
    }
  }

  /** And every accepted text is one of them. */
  lemma TextOf(s: bytes, whole: bool) returns (mark: bytes, gap: bytes, t: Tree, rest: bytes)
    requires ParseText(s, whole).Done?
    ensures IsText(s, mark, gap, t, rest) && (whole ==> Gap(rest))
    ensures ParseText(s, whole) == Done(Meaning(t), if whole then [] else rest)
  {
    hide ParseValue;
    hide SkipWs;
    hide Gap;
    var y := SkipBom(s);
    mark := s[..|s| - |y|];
    assert s == mark + y && Mark(mark);
    gap := GapOf(y);
    var x := SkipWs(y);
    t := TreeOf(x, 0);
    rest := ParseValue(x, 0).rest;
    if whole {
      var g := GapOf(rest);
      assert rest == g + [] == g;
    }
  }
}
