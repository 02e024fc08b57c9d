/** The writer's texts are among those the reader understands, so that reading back gives an equal value. */
module JsonRoundTrip {
  import opened JsonGrammar
  import opened JsonLayout
  import opened JsonText
  import opened JsonValue
  import opened JsonWriter

  // ---------------------------------------------------------------- strings

  // How the writer puts a character: with a short escape, as it is, or with four digits.
  function PieceOf(c: Char, printable: Char -> bool): Piece {
    if c == '"' then Short(7)
    else if c == '\\' then Short(5)
    else if c == BACKSPACE then Short(1)
    else if c == FORMFEED then Short(2)
    else if c == '\n' then Short(3)
    else if c == '\r' then Short(4)
    else if c == '\t' then Short(0)
    else if printable(c) then Plain(c)
    else Unicode(Hex(0, true), Hex(0, true), Hex(c as int / 16, true), Hex(c as int % 16, true))
  }

  lemma PieceWritten(c: Char, printable: Char -> bool)
    ensures PieceOk(PieceOf(c, printable)) && PieceMeans(PieceOf(c, printable)) == [c]
    ensures PieceText(PieceOf(c, printable)) == Coded(c, printable)
  {
    hide NonPrintable, HexText;
    if ShortEscape(c) == [] && !printable(c) {
      CodeWritten(c);
    }
  }

  lemma CodeWritten(c: Char)
    ensures var p := Unicode(Hex(0, true), Hex(0, true), Hex(c as int / 16, true), Hex(c as int % 16, true));
      PieceOk(p) && PieceMeans(p) == [c] && PieceText(p) == NonPrintable(c as int)
  {
    hide HexText, HexChar;
    var n := c as int;
    assert n / 4096 == 0 && n / 256 == 0 && n / 16 < 16;
    HexWritten(0);
    HexWritten(n / 16);
    HexWritten(n % 16);
  }

  lemma HexWritten(n: nat)
    requires n < 16
    ensures HexText(Hex(n, true)) == HexChar(n)
  {
  }

  function PiecesOf(s: Text, printable: Char -> bool): seq<Piece> {
    if s == [] then [] else [PieceOf(s[0], printable)] + PiecesOf(s[1..], printable)
  }

  lemma {:induction false} StringWritten(s: Text, printable: Char -> bool)
    ensures PiecesOk(PiecesOf(s, printable)) && PiecesMean(PiecesOf(s, printable)) == s
    ensures PiecesText(PiecesOf(s, printable)) == Escaped(s, printable)
  {
    hide PieceOk, PieceMeans, PieceText, PieceOf, Coded;
    if s != [] {
      PieceWritten(s[0], printable);
      StringWritten(s[1..], printable);
      assert PiecesOf(s, printable)[1..] == PiecesOf(s[1..], printable);
    }
  }

  /** A written string is read back as far as its closing quotation mark, whatever follows. */
  lemma StringBack(s: Text, style: Style, rest: Text)
    ensures StringRule(Quoted(s, style) + rest) == Match(s, rest)
  {
    hide StringRule, BodyMeans, BodyOk, PiecesOf, StringText, Quoted;
    QuotedWritten(s, style);
    StringRead(Pieces(PiecesOf(s, style.printable)), rest);
  }

  // ---------------------------------------------------------------- numbers

  function DigitsOf(n: nat): (ds: seq<nat>)
    ensures DigitsOk(ds)
  {
    if n < 10 then [n] else DigitsOf(n / 10) + [n % 10]
  }

  lemma DigitAdded(ds: seq<nat>, d: nat)
    requires DigitsOk(ds) && d < 10
    ensures DigitsOk(ds + [d]) && DigitsText(ds + [d]) == DigitsText(ds) + [Digit(d)]
    ensures DigitsMean(ds + [d]) == 10 * DigitsMean(ds) + d
  {
    hide DigitsMean;
    DigitsLast(ds + [d]);
    assert (ds + [d])[..|ds|] == ds;
    assert UpperDigits[d] == Digit(d);
  }

  lemma {:induction false} DigitsWritten(n: nat)
    ensures DigitsText(DigitsOf(n)) == Decimal(n) && DigitsMean(DigitsOf(n)) == n
  {
    hide DigitsText, DigitsMean, Digit;
    if n >= 10 {
      DigitsWritten(n / 10);
      DigitAdded(DigitsOf(n / 10), n % 10);
    } else {
      OneDigit(n);
    }
  }

  lemma OneDigit(n: nat)
    requires n < 10
    ensures DigitsText([n]) == [Digit(n)] && DigitsMean([n]) == n
  {
    assert UpperDigits[n] == Digit(n);
  }

  function NumberOf(n: int): Layout {
    if n < 0 then Numeral(Minus, DigitsOf(-n)) else Numeral(Sign.None, DigitsOf(n))
  }

  lemma NumberWritten(bits: Int64, unsigned: bool)
    ensures var n := Number(bits, unsigned);
      && LayoutOk(NumberOf(n)) && LayoutText(NumberOf(n)) == NumberText(n)
      && LayoutMeans(NumberOf(n)) == Int(bits, unsigned && bits < 0)
  {
    hide DigitsText, DigitsMean, Decimal, DigitsOf;
    var n := Number(bits, unsigned);
    DigitsWritten(if n < 0 then -n else n);
  }

  /** A written number comes back with its bits, and with the note that it was unsigned just where it needs one. */
  lemma NumberBack(bits: Int64, unsigned: bool, rest: Text)
    requires Ended(rest)
    ensures var n := Number(bits, unsigned);
      NumberRule(NumberText(n) + rest) == Match(Int(bits, unsigned && bits < 0), rest)
  {
    hide NumberRule, Fits64;
    var l := NumberOf(Number(bits, unsigned));
    NumberWritten(bits, unsigned);
    NumberRead(l.sign, l.ds, rest);
  }

  // ---------------------------------------------------------------- nested values

  // A new line, and four spaces for each level; nothing in compact form.
  function NextLine(style: Style, level: nat): Text {
    if style.pretty then ['\n'] + seq(4 * level, _ => ' ') else []
  }

  lemma {:induction false} IndentsSpaces(level: nat)
    ensures Indents(level) == seq(4 * level, _ => ' ')
  {
    if level > 0 {
      IndentsSpaces(level - 1);
    }
  }

  lemma NextLineText(style: Style, level: nat)
    ensures NextLine(style, level) == NewLine(style) + Indent(style, level) && Blank(NextLine(style, level))
  {
    IndentsSpaces(level);
  }

  // What the writer makes of a value: each entry of an array or object is on a line of its own, one level deeper
  // than the brackets; the closing one is on a line of its own as well.
  function Written(v: Value, style: Style, level: nat): Layout
    decreases v, 0
  {
    match v
    case Object(ms) => Braces(FieldsOf(ms, style, level), NextLine(style, level))
    case Array(vs) => Brackets(EntriesOf(vs, style, level), NextLine(style, level))
    case Str(s) => Characters(Pieces(PiecesOf(s, style.printable)))
    case Bool(b) => if b then True else False
    case Int(n, unsigned) => NumberOf(Number(n, unsigned))
    case Null => Nothing
  }

  function EntryOf(v: Value, last: bool, before: Text, style: Style, level: nat): Entry
    decreases v, 1
  {
    Entry(before, Written(v, style, level + 1), if last then NextLine(style, level) else [])
  }

  function FieldOf(m: Member, last: bool, style: Style, level: nat): Field
    decreases m, 2
  {
    Field(NextLine(style, level + 1), Pieces(PiecesOf(m.name, style.printable)), Space(style),
      EntryOf(m.value, last, Space(style), style, level))
  }

  function EntriesOf(vs: seq<Value>, style: Style, level: nat): (es: seq<Entry>)
    ensures |es| == |vs|
    decreases vs, 2
  {
    if vs == [] then []
    else [EntryOf(vs[0], |vs| == 1, NextLine(style, level + 1), style, level)] + EntriesOf(vs[1..], style, level)
  }

  function FieldsOf(ms: seq<Member>, style: Style, level: nat): (fs: seq<Field>)
    ensures |fs| == |ms|
    decreases ms, 3
  {
    if ms == [] then [] else [FieldOf(ms[0], |ms| == 1, style, level)] + FieldsOf(ms[1..], style, level)
  }

  lemma EntryWritten(v: Value, last: bool, before: Text, style: Style, level: nat)
    requires Blank(before)
    ensures var e := EntryOf(v, last, before, style, level);
      && EntryOk(e) && EntryMeans(e) == Canon(v)
      && EntryText(e) == before + TextOf(v, style, level + 1) + if last then NextLine(style, level) else []
    decreases v, 1
  {
    hide Blank, NextLine, LayoutText, LayoutMeans, TextOf, Canon;
    NextLineText(style, level);
    assert Blank([]) by { NoBlank(); }
    WrittenText(v, style, level + 1);
  }

  lemma NoBlank()
    ensures Blank([])
  {
  }

  lemma SpaceBlank(style: Style)
    ensures Blank(Space(style))
  {
  }

  lemma QuotedWritten(s: Text, style: Style)
    ensures var b := Pieces(PiecesOf(s, style.printable));
      BodyOk(b) && BodyMeans(b) == s && StringText(b) == Quoted(s, style)
  {
    hide PiecesOk, PiecesMean, PiecesText, Escaped, PiecesOf;
    StringWritten(s, style.printable);
  }

  lemma Regroup(nl: Text, name: Text, space: Text, text: Text, end: Text)
    ensures nl + name + space + [':'] + (space + text + end) == nl + (name + space + [':'] + space + text) + end
  {
  }

  lemma FieldWritten(m: Member, last: bool, style: Style, level: nat)
    ensures var f := FieldOf(m, last, style, level);
      && FieldOk(f) && FieldMeans(f) == Member(m.name, Canon(m.value))
      && FieldText(f) ==
           NextLine(style, level + 1) + MemberText(m, style, level + 1) + if last then NextLine(style, level) else []
    decreases m, 2
  {
    hide Blank, NextLine, EntryText, EntryMeans, EntryOk, EntryOf, TextOf, Canon, BodyOk, BodyMeans, PiecesOf;
    hide Quoted, StringText, Space;
    NextLineText(style, level + 1);
    SpaceBlank(style);
    QuotedWritten(m.name, style);
    EntryWritten(m.value, last, Space(style), style, level);
    Regroup(NextLine(style, level + 1), Quoted(m.name, style), Space(style), TextOf(m.value, style, level + 1),
      if last then NextLine(style, level) else []);
  }

  // The lines of entries in a row, and the start of the line of the closing bracket.
  lemma {:induction false} EntriesWritten(vs: seq<Value>, style: Style, level: nat)
    ensures EntriesOk(EntriesOf(vs, style, level)) && EntriesMean(EntriesOf(vs, style, level)) == CanonItems(vs)
    ensures vs != [] ==>
      (var text := EntriesText(EntriesOf(vs, style, level));
       text == NewLine(style) + ItemsText(vs, style, level + 1) + Indent(style, level))
    decreases vs, 2
  {
    hide NextLine, NewLine, Indent, EntryText, EntryMeans, EntryOk, EntryOf, TextOf, Canon, Blank;
    if vs != [] {
      NextLineText(style, level);
      NextLineText(style, level + 1);
      EntryWritten(vs[0], |vs| == 1, NextLine(style, level + 1), style, level);
      EntriesWritten(vs[1..], style, level);
      var es := EntriesOf(vs, style, level);
      assert es[1..] == EntriesOf(vs[1..], style, level);
      if |vs| == 1 {
        assert ItemsText(vs[1..], style, level + 1) == [];
      }
    }
  }

  lemma {:induction false} FieldsWritten(ms: seq<Member>, style: Style, level: nat)
    ensures FieldsOk(FieldsOf(ms, style, level)) && FieldsMean(FieldsOf(ms, style, level)) == CanonMembers(ms)
    ensures ms != [] ==>
      (var text := FieldsText(FieldsOf(ms, style, level));
       text == NewLine(style) + MembersText(ms, style, level + 1) + Indent(style, level))
    decreases ms, 3
  {
    hide NextLine, NewLine, Indent, FieldText, FieldMeans, FieldOk, FieldOf, MemberText, Canon;
    if ms != [] {
      NextLineText(style, level);
      NextLineText(style, level + 1);
      FieldWritten(ms[0], |ms| == 1, style, level);
      FieldsWritten(ms[1..], style, level);
      var fs := FieldsOf(ms, style, level);
      assert fs[1..] == FieldsOf(ms[1..], style, level);
      if |ms| == 1 {
        assert MembersText(ms[1..], style, level + 1) == [];
      }
    }
  }

  /** What is written is the text of this layout, and means the value. */
  lemma {:induction false} WrittenText(v: Value, style: Style, level: nat)
    ensures LayoutOk(Written(v, style, level)) && LayoutMeans(Written(v, style, level)) == Canon(v)
    ensures LayoutText(Written(v, style, level)) == TextOf(v, style, level)
    decreases v, 0
  {
    hide NextLine, NewLine, Indent, EntriesText, FieldsText, ItemsText, MembersText, PiecesText, PiecesMean, Blank;
    hide NumberOf, NumberText, EntriesOf, FieldsOf, EntriesOk, FieldsOk;
    NextLineText(style, level);
    match v
    case Object(ms) =>
      FieldsWritten(ms, style, level);
      NoLines(style, level + 1);
    case Array(vs) =>
      EntriesWritten(vs, style, level);
      NoLines(style, level + 1);
    case Str(s) => QuotedWritten(s, style);
    case Int(n, unsigned) => NumberWritten(n, unsigned);
    case _ =>
  }

  lemma NoLines(style: Style, level: nat)
    ensures ItemsText([], style, level) == [] && MembersText([], style, level) == []
  {
  }

  /** The value rule takes back exactly the text of a value, at any depth and in either style,
    and leaves what follows. */
  lemma ValueBack(v: Value, style: Style, level: nat, rest: Text)
    requires Ended(rest)
    ensures ValueRule(TextOf(v, style, level) + rest) == Match(Canon(v), rest)
  {
    hide ValueRule, LayoutText, LayoutMeans, TextOf, Canon, Ended;
    WrittenText(v, style, level);
    LayoutRead(Written(v, style, level), rest);
  }

  /**
   * Reading back what was written gives an equal value, in compact and in pretty form: for every nesting of
   * objects, arrays, byte strings, booleans, nulls and 64-bit integers, and every choice of printable characters.
   */
  lemma ReadBack(v: Value, style: Style)
    ensures JsonRule(TextOf(v, style, 0)) == Match(Canon(v), []) && Same(Canon(v), v)
  {
    hide TextOf, ValueRule;
    ValueBack(v, style, 0, []);
    assert TextOf(v, style, 0) + [] == TextOf(v, style, 0);
  }

  // ---------------------------------------------------------------- and again

  lemma NumberCanon(s: Text)
    ensures NumberRule(s).Match? ==> Canon(NumberRule(s).value) == NumberRule(s).value
  {
    hide DigitCount, ValueOfDigits;
  }

  // The note on a number that was read is set only where the number needs it.
  lemma {:induction false} ValueCanon(text: Text)
    ensures ValueRule(text).Match? ==> Canon(ValueRule(text).value) == ValueRule(text).value
    decreases |text|, 1
  {
    hide StringRule, NumberRule, ElementsRule, MembersRule;
    var s := Skip(text);
    NumberCanon(s);
    if Starts(s, '[') {
      ElementsCanon(s[1..]);
    } else if Starts(s, '{') {
      MembersCanon(s[1..]);
    }
  }

  lemma {:induction false} ElementsCanon(s: Text)
    ensures ElementsRule(s).Match? ==> CanonItems(ElementsRule(s).value) == ElementsRule(s).value
    decreases |s|, 2
  {
    hide ValueRule, MoreElements;
    ValueCanon(s);
    if ValueRule(s).Match? {
      MoreElementsCanon(ValueRule(s).rest);
    }
  }

  lemma {:induction false} MoreElementsCanon(text: Text)
    ensures MoreElements(text).Match? ==> CanonItems(MoreElements(text).value) == MoreElements(text).value
    decreases |text|, 0
  {
    hide ValueRule, Skip;
    var s := Skip(text);
    if Starts(s, ',') {
      ValueCanon(s[1..]);
      if ValueRule(s[1..]).Match? {
        MoreElementsCanon(ValueRule(s[1..]).rest);
      }
    }
  }

  lemma {:induction false} PairCanon(text: Text)
    ensures PairRule(text).Match? ==> Canon(PairRule(text).value.value) == PairRule(text).value.value
    decreases |text|, 2
  {
    hide ValueRule, Skip, StringRule;
    var quoted := StringRule(Skip(text));
    if quoted.Match? {
      var s := Skip(quoted.rest);
      if Starts(s, ':') {
        ValueCanon(s[1..]);
      }
    }
  }

  lemma {:induction false} MembersCanon(s: Text)
    ensures MembersRule(s).Match? ==> CanonMembers(MembersRule(s).value) == MembersRule(s).value
    decreases |s|, 3
  {
    hide PairRule, MoreMembers;
    PairCanon(s);
    if PairRule(s).Match? {
      MoreMembersCanon(PairRule(s).rest);
    }
  }

  lemma {:induction false} MoreMembersCanon(text: Text)
    ensures MoreMembers(text).Match? ==> CanonMembers(MoreMembers(text).value) == MoreMembers(text).value
    decreases |text|, 0
  {
    hide PairRule, Skip;
    var s := Skip(text);
    if Starts(s, ',') {
      PairCanon(s[1..]);
      if PairRule(s[1..]).Match? {
        MoreMembersCanon(PairRule(s[1..]).rest);
      }
    }
  }

  /** A value read from any text is not merely equal but the same after it was written and read again. */
  lemma ReadWriteRead(text: Text, style: Style)
    requires JsonRule(text).Match?
    ensures JsonRule(TextOf(JsonRule(text).value, style, 0)) == Match(JsonRule(text).value, [])
  {
    ValueCanon(text);
    ReadBack(JsonRule(text).value, style);
  }
}
