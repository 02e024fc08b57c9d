/** Texts of JSON values in all the forms the standard allows, but for real numbers, and what they mean. */
module JsonLayout {
  import opened JsonGrammar
  import opened JsonText
  import opened JsonValue

  // ---------------------------------------------------------------- strings

  // The letters that stand for one character each behind a backslash.
  const Shorts: seq<(Char, int)> :=
    [('t', 9), ('b', 8), ('f', 12), ('n', 10), ('r', 13), ('\\', 92), ('/', 47), ('"', 34)]

  const LowerDigits: Text := "0123456789abcdef"
  const UpperDigits: Text := "0123456789ABCDEF"

  // A hexadecimal digit of this value, in either case.
  datatype Hex = Hex(value: nat, upper: bool)

  predicate HexOk(h: Hex) {
    h.value < 16
  }

  function HexText(h: Hex): Char
    requires HexOk(h)
  {
    if h.upper then UpperDigits[h.value] else LowerDigits[h.value]
  }

  // A part of a string: a character as it is, or an escape: a letter from the table, a number in
  // hexadecimal of two or four digits, or any other character.
  datatype Piece =
    | Plain(ch: Char)
    | Short(k: nat)
    | Byte(a: Hex, b: Hex)
    | Unicode(a: Hex, b: Hex, c: Hex, d: Hex)
    | Other(ch: Char)

  predicate PieceOk(p: Piece) {
    match p
    case Plain(c) => c != '"' && c != '\\'
    case Short(k) => k < |Shorts|
    case Byte(a, b) => HexOk(a) && HexOk(b)
    case Unicode(a, b, c, d) => HexOk(a) && HexOk(b) && HexOk(c) && HexOk(d)
    case Other(c) => c != 'x' && c != 'u' && forall k :: 0 <= k < |Shorts| ==> c != Shorts[k].0
  }

  function PieceText(p: Piece): Text
    requires PieceOk(p)
  {
    match p
    case Plain(c) => [c]
    case Short(k) => ['\\', Shorts[k].0]
    case Byte(a, b) => ['\\', 'x', HexText(a), HexText(b)]
    case Unicode(a, b, c, d) => ['\\', 'u', HexText(a), HexText(b), HexText(c), HexText(d)]
    case Other(c) => ['\\', c]
  }

  // A number beyond the characters is cut to one, and an escape that means nothing is left out.
  function PieceMeans(p: Piece): Text
    requires PieceOk(p)
  {
    match p
    case Plain(c) => [c]
    case Short(k) => [Shorts[k].1 as char]
    case Byte(a, b) => [(16 * a.value + b.value) as char]
    case Unicode(a, b, c, d) => [((4096 * a.value + 256 * b.value + 16 * c.value + d.value) % 256) as char]
    case Other(_) => []
  }

  predicate PiecesOk(ps: seq<Piece>) {
    forall i :: 0 <= i < |ps| ==> PieceOk(ps[i])
  }

  function PiecesText(ps: seq<Piece>): Text
    requires PiecesOk(ps)
  {
    if ps == [] then [] else PieceText(ps[0]) + PiecesText(ps[1..])
  }

  function PiecesMean(ps: seq<Piece>): Text
    requires PiecesOk(ps)
  {
    if ps == [] then [] else PieceMeans(ps[0]) + PiecesMean(ps[1..])
  }

  lemma HexValue(h: Hex)
    requires HexOk(h)
    ensures HexToNum(HexText(h)) == h.value && HexText(h) != '"' && HexText(h) != '\\'
  {
  }

  lemma ShortDecoded(k: nat, s: Text)
    requires k < |Shorts|
    ensures Decoded([Shorts[k].0] + s) == ([Shorts[k].1 as char], 1)
  {
  }

  lemma ByteDecoded(a: Hex, b: Hex, s: Text)
    requires HexOk(a) && HexOk(b)
    ensures Decoded(['x', HexText(a), HexText(b)] + s) == (PieceMeans(Byte(a, b)), 3)
  {
    hide HexToNum, HexText;
    HexValue(a);
    HexValue(b);
  }

  lemma UnicodeDecoded(a: Hex, b: Hex, c: Hex, d: Hex, s: Text)
    requires HexOk(a) && HexOk(b) && HexOk(c) && HexOk(d)
    ensures Decoded(['u', HexText(a), HexText(b), HexText(c), HexText(d)] + s) == (PieceMeans(Unicode(a, b, c, d)), 5)
  {
    hide HexToNum, HexText;
    HexValue(a);
    HexValue(b);
    HexValue(c);
    HexValue(d);
  }

  lemma OtherDecoded(c: Char, s: Text)
    requires PieceOk(Other(c))
    ensures Decoded([c] + s) == ([], 1)
  {
    assert c != Shorts[0].0 && c != Shorts[1].0 && c != Shorts[2].0 && c != Shorts[3].0;
    assert c != Shorts[4].0 && c != Shorts[5].0 && c != Shorts[6].0 && c != Shorts[7].0;
  }

  // An escape that takes these characters.
  lemma EscapeTaken(e: Text, out: Text, s: Text)
    requires e != [] && Decoded(e + s) == (out, |e|)
    ensures Unescaped(['\\'] + e + s) == out + Unescaped(s)
  {
    hide Decoded;
    var t := ['\\'] + e + s;
    assert t[1..] == e + s && t[1 + |e|..] == s;
  }

  lemma PieceDecoded(p: Piece, s: Text)
    requires PieceOk(p)
    ensures Unescaped(PieceText(p) + s) == PieceMeans(p) + Unescaped(s)
  {
    hide Decoded, Unescaped, HexText;
    var t := PieceText(p) + s;
    match p
    case Plain(c) =>
      PlainTaken(c, s);
    case Short(k) =>
      var e := [Shorts[k].0];
      ShortDecoded(k, s);
      EscapeTaken(e, PieceMeans(p), s);
      assert t == ['\\'] + e + s;
    case Byte(a, b) =>
      var e := ['x', HexText(a), HexText(b)];
      ByteDecoded(a, b, s);
      EscapeTaken(e, PieceMeans(p), s);
      assert t == ['\\'] + e + s;
    case Unicode(a, b, c, d) =>
      var e := ['u', HexText(a), HexText(b), HexText(c), HexText(d)];
      UnicodeDecoded(a, b, c, d, s);
      EscapeTaken(e, PieceMeans(p), s);
      assert t == ['\\'] + e + s;
    case Other(c) =>
      OtherDecoded(c, s);
      EscapeTaken([c], PieceMeans(p), s);
      assert t == ['\\'] + [c] + s;
  }

  lemma PlainTaken(c: Char, s: Text)
    requires c != '"' && c != '\\'
    ensures Unescaped([c] + s) == [c] + Unescaped(s)
  {
    assert ([c] + s)[1..] == s;
  }

  lemma {:induction false} PiecesDecoded(ps: seq<Piece>)
    requires PiecesOk(ps)
    ensures Unescaped(PiecesText(ps)) == PiecesMean(ps)
  {
    if ps != [] {
      PieceDecoded(ps[0], PiecesText(ps[1..]));
      PiecesDecoded(ps[1..]);
    }
  }

  lemma OnePlain(c: Char, s: Text)
    requires c != '"' && c != '\\'
    ensures BodyLength([c] + s) == 1 + BodyLength(s)
  {
    assert ([c] + s)[1..] == s;
  }

  lemma OneEscape(c: Char, s: Text)
    ensures BodyLength(['\\', c] + s) == 2 + BodyLength(s)
  {
    assert (['\\', c] + s)[2..] == s;
  }

  lemma TwoPlain(a: Char, b: Char, s: Text)
    requires a != '"' && a != '\\' && b != '"' && b != '\\'
    ensures BodyLength([a, b] + s) == 2 + BodyLength(s)
  {
    hide BodyLength;
    OnePlain(b, s);
    OnePlain(a, [b] + s);
    assert [a, b] + s == [a] + ([b] + s);
  }

  lemma PieceInBody(p: Piece, s: Text)
    requires PieceOk(p)
    ensures BodyLength(PieceText(p) + s) == |PieceText(p)| + BodyLength(s)
  {
    hide BodyLength, HexText;
    match p
    case Plain(c) => OnePlain(c, s);
    case Short(k) => OneEscape(Shorts[k].0, s);
    case Other(c) => OneEscape(c, s);
    case Byte(a, b) =>
      HexValue(a);
      HexValue(b);
      TwoPlain(HexText(a), HexText(b), s);
      OneEscape('x', [HexText(a), HexText(b)] + s);
      assert PieceText(p) + s == ['\\', 'x'] + ([HexText(a), HexText(b)] + s);
    case Unicode(a, b, c, d) =>
      HexValue(a);
      HexValue(b);
      HexValue(c);
      HexValue(d);
      var more := [HexText(c), HexText(d)] + s;
      TwoPlain(HexText(c), HexText(d), s);
      TwoPlain(HexText(a), HexText(b), more);
      OneEscape('u', [HexText(a), HexText(b)] + more);
      assert PieceText(p) + s == ['\\', 'u'] + ([HexText(a), HexText(b)] + more);
  }

  lemma {:induction false} PiecesInBody(ps: seq<Piece>, s: Text)
    requires PiecesOk(ps) && Starts(s, '"')
    ensures BodyLength(PiecesText(ps) + s) == |PiecesText(ps)|
  {
    hide PieceText;
    if ps == [] {
      assert PiecesText(ps) + s == s;
    } else {
      var more := PiecesText(ps[1..]);
      PieceInBody(ps[0], more + s);
      PiecesInBody(ps[1..], s);
      assert PiecesText(ps) + s == PieceText(ps[0]) + (more + s);
    }
  }

  // What stands between the quotation marks: pieces, or any text in which each quotation mark is escaped.
  datatype Body = Pieces(ps: seq<Piece>) | Raw(t: Text)

  predicate BodyOk(b: Body) {
    match b
    case Pieces(ps) => PiecesOk(ps)
    case Raw(t) => BodyLength(t + ['"']) == |t|
  }

  function BodyText(b: Body): Text
    requires BodyOk(b)
  {
    match b
    case Pieces(ps) => PiecesText(ps)
    case Raw(t) => t
  }

  function BodyMeans(b: Body): Text
    requires BodyOk(b)
  {
    match b
    case Pieces(ps) => PiecesMean(ps)
    case Raw(t) => Unescaped(t)
  }

  function StringText(b: Body): Text
    requires BodyOk(b)
  {
    ['"'] + BodyText(b) + ['"']
  }

  // Where the first quotation mark is that is not escaped does not depend on what follows it.
  lemma {:induction false} BodyPrefix(t: Text, rest: Text)
    requires BodyLength(t + ['"']) == |t|
    ensures BodyLength(t + (['"'] + rest)) == |t|
  {
    if t == [] {
      assert t + (['"'] + rest) == ['"'] + rest;
    } else if t[0] != '\\' {
      assert (t + ['"'])[1..] == t[1..] + ['"'] && (t + (['"'] + rest))[1..] == t[1..] + (['"'] + rest);
      BodyPrefix(t[1..], rest);
    } else {
      assert |t| >= 2;
      assert (t + ['"'])[2..] == t[2..] + ['"'] && (t + (['"'] + rest))[2..] == t[2..] + (['"'] + rest);
      BodyPrefix(t[2..], rest);
    }
  }

  lemma BodyRead(b: Body, rest: Text)
    requires BodyOk(b)
    ensures BodyLength(BodyText(b) + (['"'] + rest)) == |BodyText(b)| && Unescaped(BodyText(b)) == BodyMeans(b)
  {
    hide BodyLength, Unescaped, PiecesText, PiecesMean;
    match b
    case Pieces(ps) =>
      PiecesInBody(ps, ['"'] + rest);
      PiecesDecoded(ps);
    case Raw(t) =>
      BodyPrefix(t, rest);
  }

  /** Any string of characters and escapes is read as what these mean. */
  lemma StringRead(b: Body, rest: Text)
    requires BodyOk(b)
    ensures StringRule(StringText(b) + rest) == Match(BodyMeans(b), rest)
  {
    hide BodyLength, Unescaped, BodyText, BodyMeans;
    var e := BodyText(b);
    var t := StringText(b) + rest;
    BodyRead(b, rest);
    assert t[1..] == e + (['"'] + rest);
    assert t[1 + |e|..] == ['"'] + rest && t[|e| + 2..] == rest && t[1..1 + |e|] == e;
  }

  // ---------------------------------------------------------------- numbers

  function Pow10(n: nat): nat {
    if n == 0 then 1 else 10 * Pow10(n - 1)
  }

  predicate DigitsOk(ds: seq<nat>) {
    ds != [] && forall i :: 0 <= i < |ds| ==> ds[i] < 10
  }

  function DigitsText(ds: seq<nat>): (t: Text)
    requires forall i :: 0 <= i < |ds| ==> ds[i] < 10
    ensures |t| == |ds|
  {
    seq(|ds|, i requires 0 <= i < |ds| => UpperDigits[ds[i]])
  }

  // Each digit counts as much as its place says.
  function DigitsMean(ds: seq<nat>): nat {
    if ds == [] then 0 else ds[0] * Pow10(|ds| - 1) + DigitsMean(ds[1..])
  }

  lemma {:induction false} DigitsLast(ds: seq<nat>)
    requires ds != []
    ensures DigitsMean(ds) == 10 * DigitsMean(ds[..|ds| - 1]) + ds[|ds| - 1]
  {
    if |ds| > 1 {
      var front := ds[..|ds| - 1];
      DigitsLast(ds[1..]);
      assert ds[1..][..|ds| - 2] == front[1..] && front[0] == ds[0];
      var p := Pow10(|ds| - 2);
      assert Pow10(|ds| - 1) == 10 * p;
      assert ds[0] * (10 * p) == 10 * (ds[0] * p);
    }
  }

  lemma {:induction false} DigitsRead(ds: seq<nat>)
    requires forall i :: 0 <= i < |ds| ==> ds[i] < 10
    ensures forall k :: 0 <= k < |ds| ==> IsDigit(DigitsText(ds)[k])
    ensures ValueOfDigits(DigitsText(ds)) == DigitsMean(ds)
  {
    if ds != [] {
      var n := |ds| - 1;
      DigitsRead(ds[..n]);
      DigitsLast(ds);
      assert DigitsText(ds)[..n] == DigitsText(ds[..n]);
    }
  }

  lemma {:induction false} DigitsCounted(d: Text, rest: Text)
    requires forall k :: 0 <= k < |d| ==> IsDigit(d[k])
    requires rest == [] || !IsDigit(rest[0])
    ensures DigitCount(d + rest) == |d|
  {
    if d == [] {
      assert d + rest == rest;
    } else {
      assert (d + rest)[1..] == d[1..] + rest;
      DigitsCounted(d[1..], rest);
    }
  }

  datatype Sign = None | Plus | Minus

  function SignText(s: Sign): Text {
    match s
    case None => []
    case Plus => ['+']
    case Minus => ['-']
  }

  function Signed10(s: Sign, n: nat): int {
    if s.Minus? then 0 - n else n
  }

  // What can be kept in 64 bits: with a sign, or without one and unsigned.
  predicate Fits64(s: Sign, n: nat) {
    if s.None? then n < TWO_TO_THE_64 else if s.Plus? then n < TWO_TO_THE_63 else n <= TWO_TO_THE_63
  }

  // Nothing in front that would go on with a number.
  predicate Ended(rest: Text) {
    rest == [] || !(IsDigit(rest[0]) || RealMark(rest[0]))
  }

  lemma SignSplit(sign: Text, d: Text, rest: Text)
    ensures var s, w := sign + d + rest, |sign|;
      s[..w] == sign && s[w..] == d + rest && s[w + |d|..] == rest && s[w..w + |d|] == d
  {
  }

  // The rule on a sign and digits d that count n.
  lemma NumberOfDigits(sign: Sign, d: Text, n: nat, rest: Text)
    requires d != [] && (forall k :: 0 <= k < |d| ==> IsDigit(d[k])) && ValueOfDigits(d) == n
    requires DigitCount(d + rest) == |d| && Ended(rest) && Fits64(sign, n)
    ensures NumberRule(SignText(sign) + d + rest) == Match(Number64(Signed10(sign, n)), rest)
  {
    hide ValueOfDigits, DigitCount;
    SignSplit(SignText(sign), d, rest);
  }

  /** Digits with or without a sign are read as the number they mean, if that can be kept. */
  lemma NumberRead(sign: Sign, ds: seq<nat>, rest: Text)
    requires DigitsOk(ds) && Fits64(sign, DigitsMean(ds)) && Ended(rest)
    ensures NumberRule(SignText(sign) + DigitsText(ds) + rest) == Match(NumberMeans(sign, ds), rest)
  {
    hide ValueOfDigits, DigitCount, DigitsMean, DigitsText, NumberRule, Number64, SignText;
    DigitsRead(ds);
    DigitsCounted(DigitsText(ds), rest);
    NumberOfDigits(sign, DigitsText(ds), DigitsMean(ds), rest);
  }

  // From 2^63 on, the bits are those of a negative number, with a note that it is not meant.
  function NumberMeans(sign: Sign, ds: seq<nat>): Value
    requires DigitsOk(ds) && Fits64(sign, DigitsMean(ds))
  {
    Number64(Signed10(sign, DigitsMean(ds)))
  }

  function Number64(n: int): Value
    requires -TWO_TO_THE_63 <= n < TWO_TO_THE_64
  {
    if n < TWO_TO_THE_63 then Int(n, false) else Int(n - TWO_TO_THE_64, true)
  }

  // ---------------------------------------------------------------- nested values

  // Spaces, tabs, ends of lines, vertical tabs and form feeds.
  predicate Blank(s: Text) {
    forall k :: 0 <= k < |s| ==> s[k] == ' ' || s[k] == '\t' || s[k] == '\n' || s[k] == '\r' || 11 <= s[k] as int <= 12
  }

  // The text of a value. There may be white space around every token inside brackets.
  datatype Layout =
    | Characters(b: Body)
    | Numeral(sign: Sign, ds: seq<nat>)
    | True | False | Nothing
    | Brackets(items: seq<Entry>, empty: Text)
    | Braces(fields: seq<Field>, empty: Text)

  datatype Entry = Entry(before: Text, l: Layout, after: Text)

  datatype Field = Field(before: Text, name: Body, colon: Text, item: Entry)

  predicate LayoutOk(l: Layout) {
    match l
    case Characters(b) => BodyOk(b)
    case Numeral(sign, ds) => DigitsOk(ds) && Fits64(sign, DigitsMean(ds))
    case Brackets(es, empty) => Blank(empty) && EntriesOk(es)
    case Braces(fs, empty) => Blank(empty) && FieldsOk(fs)
    case _ => true
  }

  predicate EntriesOk(es: seq<Entry>) {
    es == [] || (EntryOk(es[0]) && EntriesOk(es[1..]))
  }

  predicate FieldsOk(fs: seq<Field>) {
    fs == [] || (FieldOk(fs[0]) && FieldsOk(fs[1..]))
  }

  predicate EntryOk(e: Entry) {
    Blank(e.before) && LayoutOk(e.l) && Blank(e.after)
  }

  predicate FieldOk(f: Field) {
    Blank(f.before) && BodyOk(f.name) && Blank(f.colon) && EntryOk(f.item)
  }

  function LayoutText(l: Layout): Text
    requires LayoutOk(l)
  {
    match l
    case Characters(b) => StringText(b)
    case Numeral(sign, ds) => SignText(sign) + DigitsText(ds)
    case True => "true"
    case False => "false"
    case Nothing => "null"
    case Brackets(es, empty) => ['['] + (if es == [] then empty else EntriesText(es)) + [']']
    case Braces(fs, empty) => ['{'] + (if fs == [] then empty else FieldsText(fs)) + ['}']
  }

  function EntryText(e: Entry): Text
    requires EntryOk(e)
  {
    e.before + LayoutText(e.l) + e.after
  }

  function FieldText(f: Field): Text
    requires FieldOk(f)
  {
    f.before + StringText(f.name) + f.colon + [':'] + EntryText(f.item)
  }

  // Entries with commas between them.
  function EntriesText(es: seq<Entry>): Text
    requires EntriesOk(es)
  {
    if es == [] then []
    else if |es| == 1 then EntryText(es[0])
    else EntryText(es[0]) + [','] + EntriesText(es[1..])
  }

  function FieldsText(fs: seq<Field>): Text
    requires FieldsOk(fs)
  {
    if fs == [] then []
    else if |fs| == 1 then FieldText(fs[0])
    else FieldText(fs[0]) + [','] + FieldsText(fs[1..])
  }

  function LayoutMeans(l: Layout): Value
    requires LayoutOk(l)
  {
    match l
    case Characters(b) => Str(BodyMeans(b))
    case Numeral(sign, ds) => NumberMeans(sign, ds)
    case True => Bool(true)
    case False => Bool(false)
    case Nothing => Null
    case Brackets(es, _) => Array(EntriesMean(es))
    case Braces(fs, _) => Object(FieldsMean(fs))
  }

  function EntryMeans(e: Entry): Value
    requires EntryOk(e)
  {
    LayoutMeans(e.l)
  }

  function FieldMeans(f: Field): Member
    requires FieldOk(f)
  {
    Member(BodyMeans(f.name), EntryMeans(f.item))
  }

  function EntriesMean(es: seq<Entry>): (vs: seq<Value>)
    requires EntriesOk(es)
    ensures |vs| == |es|
  {
    if es == [] then [] else [EntryMeans(es[0])] + EntriesMean(es[1..])
  }

  function FieldsMean(fs: seq<Field>): (ms: seq<Member>)
    requires FieldsOk(fs)
    ensures |ms| == |fs|
  {
    if fs == [] then [] else [FieldMeans(fs[0])] + FieldsMean(fs[1..])
  }

  lemma {:induction false} SkipsBlank(blank: Text, s: Text)
    requires Blank(blank)
    ensures Skip(blank + s) == Skip(s)
  {
    if blank == [] {
      assert blank + s == s;
    } else {
      assert (blank + s)[1..] == blank[1..] + s;
      SkipsBlank(blank[1..], s);
    }
  }

  lemma BehindBlank(blank: Text, s: Text)
    requires Blank(blank)
    ensures ValueRule(blank + s) == ValueRule(s) && PairRule(blank + s) == PairRule(s)
  {
    hide StringRule, NumberRule, ObjectRule, ArrayRule, WordRule;
    SkipsBlank(blank, s);
  }

  lemma SkipsNone(s: Text)
    requires s != [] && !IsSpace(s[0])
    ensures Skip(s) == s
  {
  }

  lemma NoEntry(s: Text)
    requires Starts(s, ']') || Starts(s, '}')
    ensures ValueRule(s) == NoMatch && PairRule(s) == NoMatch
  {
    assert Skip(s) == s && DigitCount(s) == 0 && s[0..] == s;
  }

  lemma BlankEnds(blank: Text, c: Char, rest: Text)
    requires Blank(blank) && (c == ']' || c == '}' || c == ',' || c == ':')
    ensures Ended(blank + ([c] + rest))
  {
    if blank != [] {
      assert IsSpace(blank[0]);
    }
  }

  // What follows the text of an entry: the other entries, each behind a comma.
  function MoreEntriesText(es: seq<Entry>): Text
    requires EntriesOk(es)
  {
    if es == [] then [] else [','] + EntriesText(es)
  }

  function MoreFieldsText(fs: seq<Field>): Text
    requires FieldsOk(fs)
  {
    if fs == [] then [] else [','] + FieldsText(fs)
  }

  lemma EntryRead(es: seq<Entry>, rest: Text)
    requires es != [] && EntriesOk(es) && Starts(rest, ']')
    ensures ValueRule(EntriesText(es) + rest)
         == Match(EntryMeans(es[0]), es[0].after + (MoreEntriesText(es[1..]) + rest))
    decreases es, 0
  {
    hide ValueRule, EntryText, EntryMeans, EntriesText;
    EntriesSplit(es);
    var more := MoreEntriesText(es[1..]) + rest;
    assert EntriesText(es) + rest == EntryText(es[0]) + more;
    ValueRead(es[0], more);
  }

  lemma EntriesSplit(es: seq<Entry>)
    requires es != [] && EntriesOk(es)
    ensures EntriesText(es) == EntryText(es[0]) + MoreEntriesText(es[1..])
  {
    hide EntryText;
  }

  lemma FieldsSplit(fs: seq<Field>)
    requires fs != [] && FieldsOk(fs)
    ensures FieldsText(fs) == FieldText(fs[0]) + MoreFieldsText(fs[1..])
  {
    hide FieldText;
  }

  // The value of an entry, and what stands behind it.
  lemma ValueRead(e: Entry, more: Text)
    requires EntryOk(e) && more != [] && (more[0] == ',' || more[0] == ']' || more[0] == '}')
    ensures ValueRule(EntryText(e) + more) == Match(EntryMeans(e), e.after + more)
    decreases e, 1
  {
    hide ValueRule, LayoutText, LayoutMeans, Ended, Blank;
    assert EntryText(e) + more == e.before + (LayoutText(e.l) + (e.after + more));
    BehindBlank(e.before, LayoutText(e.l) + (e.after + more));
    assert more == [more[0]] + more[1..];
    BlankEnds(e.after, more[0], more[1..]);
    LayoutRead(e.l, e.after + more);
  }

  lemma EntriesRead(es: seq<Entry>, after: Text, rest: Text)
    requires EntriesOk(es) && Blank(after) && Starts(rest, ']')
    ensures var r := MoreElements(after + (MoreEntriesText(es) + rest));
      r.Match? && r.value == EntriesMean(es) && Skip(r.rest) == rest
    decreases es, 1
  {
    hide ValueRule, EntriesText, Blank, EntryMeans, EntryText, Skip;
    var s := MoreEntriesText(es) + rest;
    SkipsBlank(after, s);
    SkipsNone(s);
    SkipsNone(rest);
    if es != [] {
      assert s[1..] == EntriesText(es) + rest;
      EntryRead(es, rest);
      EntriesRead(es[1..], es[0].after, rest);
    } else {
      assert s == rest;
    }
  }

  lemma ArrayRead(es: seq<Entry>, empty: Text, rest: Text)
    requires LayoutOk(Brackets(es, empty))
    ensures ArrayRule(LayoutText(Brackets(es, empty)) + rest) == Match(Array(EntriesMean(es)), rest)
    decreases es, 2
  {
    hide ValueRule, MoreElements, EntriesText, Blank;
    var text, tail := LayoutText(Brackets(es, empty)) + rest, [']'] + rest;
    SkipsNone(tail);
    if es == [] {
      assert text[1..] == empty + tail;
      BehindBlank(empty, tail);
      NoEntry(tail);
      SkipsBlank(empty, tail);
    } else {
      assert text[1..] == EntriesText(es) + tail;
      EntryRead(es, tail);
      EntriesRead(es[1..], es[0].after, tail);
    }
  }

  lemma FieldRead(fs: seq<Field>, rest: Text)
    requires fs != [] && FieldsOk(fs) && Starts(rest, '}')
    ensures PairRule(FieldsText(fs) + rest)
         == Match(FieldMeans(fs[0]), fs[0].item.after + (MoreFieldsText(fs[1..]) + rest))
    decreases fs, 0
  {
    hide PairRule, FieldText, FieldMeans, FieldsText;
    FieldsSplit(fs);
    var more := MoreFieldsText(fs[1..]) + rest;
    assert FieldsText(fs) + rest == FieldText(fs[0]) + more;
    PairRead(fs[0], more);
  }

  lemma PairRead(f: Field, more: Text)
    requires FieldOk(f) && more != [] && (more[0] == ',' || more[0] == '}')
    ensures PairRule(FieldText(f) + more) == Match(FieldMeans(f), f.item.after + more)
    decreases f, 2
  {
    hide ValueRule, EntryText, EntryMeans, StringRule, StringText, BodyMeans, Blank, EntryOk;
    var value := EntryText(f.item) + more;
    var named := StringText(f.name) + (f.colon + ([':'] + value));
    assert FieldText(f) + more == f.before + named;
    BehindBlank(f.before, named);
    QuoteFirst(f.name);
    SkipsNone(named);
    StringRead(f.name, f.colon + ([':'] + value));
    SkipsBlank(f.colon, [':'] + value);
    SkipsNone([':'] + value);
    assert ([':'] + value)[1..] == value;
    ValueRead(f.item, more);
  }

  lemma QuoteFirst(b: Body)
    requires BodyOk(b)
    ensures Starts(StringText(b), '"')
  {
  }

  lemma FieldsRead(fs: seq<Field>, after: Text, rest: Text)
    requires FieldsOk(fs) && Blank(after) && Starts(rest, '}')
    ensures var r := MoreMembers(after + (MoreFieldsText(fs) + rest));
      r.Match? && r.value == FieldsMean(fs) && Skip(r.rest) == rest
    decreases fs, 1
  {
    hide PairRule, FieldsText, Blank, FieldMeans, FieldText, Skip;
    var s := MoreFieldsText(fs) + rest;
    SkipsBlank(after, s);
    SkipsNone(s);
    SkipsNone(rest);
    if fs != [] {
      assert s[1..] == FieldsText(fs) + rest;
      FieldRead(fs, rest);
      assert EntryOk(fs[0].item);
      FieldsRead(fs[1..], fs[0].item.after, rest);
    } else {
      assert s == rest;
    }
  }

  lemma ObjectRead(fs: seq<Field>, empty: Text, rest: Text)
    requires LayoutOk(Braces(fs, empty))
    ensures ObjectRule(LayoutText(Braces(fs, empty)) + rest) == Match(Object(FieldsMean(fs)), rest)
    decreases fs, 2
  {
    hide PairRule, MoreMembers, FieldsText, Blank;
    var text, tail := LayoutText(Braces(fs, empty)) + rest, ['}'] + rest;
    SkipsNone(tail);
    if fs == [] {
      assert text[1..] == empty + tail;
      BehindBlank(empty, tail);
      NoEntry(tail);
      SkipsBlank(empty, tail);
    } else {
      assert text[1..] == FieldsText(fs) + tail;
      FieldRead(fs, tail);
      assert EntryOk(fs[0].item);
      FieldsRead(fs[1..], fs[0].item.after, tail);
    }
  }

  lemma WordRead(l: Layout, rest: Text)
    requires l.True? || l.False? || l.Nothing?
    ensures ValueRule(LayoutText(l) + rest) == Match(LayoutMeans(l), rest)
  {
    var word := LayoutText(l);
    var s := word + rest;
    assert Skip(s) == s && s[0..] == s && s[..|word|] == word && s[|word|..] == rest;
    assert s[0] == word[0] && NumberRule(s) == NoMatch;
  }

  lemma NumberFirst(sign: Sign, ds: seq<nat>)
    requires DigitsOk(ds)
    ensures var t := SignText(sign) + DigitsText(ds); t[0] == '+' || t[0] == '-' || IsDigit(t[0])
  {
    DigitsRead(ds);
  }

  /** Every text of a value is read as what it means, and what follows is left alone. */
  lemma {:induction false} LayoutRead(l: Layout, rest: Text)
    requires LayoutOk(l) && (l.Numeral? ==> Ended(rest))
    ensures ValueRule(LayoutText(l) + rest) == Match(LayoutMeans(l), rest)
    decreases l, 0
  {
    hide StringText, DigitsText, SignText, EntriesText, FieldsText, StringRule, NumberRule, ObjectRule, ArrayRule;
    hide WordRule, BodyMeans, NumberMeans, Blank, Ended;
    var s := LayoutText(l) + rest;
    match l
    case Characters(b) =>
      QuoteFirst(b);
      SkipsNone(s);
      StringRead(b, rest);
    case Numeral(sign, ds) =>
      NumberFirst(sign, ds);
      SkipsNone(s);
      NotQuoted(s);
      NumberRead(sign, ds, rest);
    case Braces(fs, empty) =>
      SkipsNone(s);
      NotQuoted(s);
      NotNumber(s);
      ObjectRead(fs, empty, rest);
    case Brackets(es, empty) =>
      SkipsNone(s);
      NotQuoted(s);
      NotNumber(s);
      ArrayRead(es, empty, rest);
    case _ =>
      WordRead(l, rest);
  }

  lemma NotQuoted(s: Text)
    requires !Starts(s, '"')
    ensures StringRule(s) == NoMatch
  {
  }

  lemma NotNumber(s: Text)
    requires Starts(s, '{') || Starts(s, '[')
    ensures NumberRule(s) == NoMatch
  {
    assert s[0..] == s && DigitCount(s) == 0;
  }

  // The text starts with this one, behind white space; a number ends where it cannot go on.
  ghost predicate Spells(t: Text, l: Layout) {
    LayoutOk(l) && exists blank, rest ::
      Blank(blank) && (l.Numeral? ==> Ended(rest)) && t == blank + (LayoutText(l) + rest)
  }

  lemma SpeltRead(t: Text, l: Layout)
    requires Spells(t, l)
    ensures JsonRule(t).Match? && JsonRule(t).value == LayoutMeans(l)
  {
    hide ValueRule, LayoutText, LayoutMeans, Blank, Ended;
    var blank, rest :| Blank(blank) && (l.Numeral? ==> Ended(rest)) && t == blank + (LayoutText(l) + rest);
    BehindBlank(blank, LayoutText(l) + rest);
    LayoutRead(l, rest);
  }
}
