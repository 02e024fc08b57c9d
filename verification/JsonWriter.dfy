/** json_spirit's Generator, which appends the text of a value to a stream. */
module JsonWriter {
  import opened JsonText
  import opened JsonValue

  datatype Style = Style(printable: Char -> bool, pretty: bool)

  // ---------------------------------------------------------------- the text of a value

  function Digit(d: nat): Char
    requires d < 10
  {
    ('0' as int + d) as char
  }

  function Decimal(n: nat): (t: Text)
    ensures t != []
  {
    if n < 10 then [Digit(n)] else Decimal(n / 10) + [Digit(n % 10)]
  }

  function NumberText(n: int): (t: Text)
    ensures t != []
  {
    if n < 0 then "-" + Decimal(-n) else Decimal(n)
  }

  function Quoted(s: Text, style: Style): Text {
    "\"" + Escaped(s, style.printable) + "\""
  }

  function Indents(level: nat): Text {
    if level == 0 then [] else "    " + Indents(level - 1)
  }

  function Indent(style: Style, level: nat): Text {
    if style.pretty then Indents(level) else []
  }

  function Space(style: Style): Text {
    if style.pretty then " " else []
  }

  function NewLine(style: Style): Text {
    if style.pretty then "\n" else []
  }

  function Comma(more: bool): Text {
    if more then "," else []
  }

  // One entry of an array or object, on a line of its own.
  function Line(entry: Text, more: bool, style: Style, level: nat): Text {
    Indent(style, level) + entry + Comma(more) + NewLine(style)
  }

  // An array or object from its entries.
  function Wrapped(first: Text, lines: Text, last: Text, style: Style, level: nat): Text {
    first + NewLine(style) + lines + Indent(style, level) + last
  }

  // The text of v, nested so deep.
  function TextOf(v: Value, style: Style, level: nat): Text {
    match v
    case Object(ms) => Wrapped("{", MembersText(ms, style, level + 1), "}", style, level)
    case Array(vs) => Wrapped("[", ItemsText(vs, style, level + 1), "]", style, level)
    case Str(s) => Quoted(s, style)
    case Bool(b) => if b then "true" else "false"
    case Int(n, unsigned) => NumberText(Number(n, unsigned))
    case Null => "null"
  }

  function ItemsText(vs: seq<Value>, style: Style, level: nat): Text {
    if vs == [] then []
    else Line(TextOf(vs[0], style, level), |vs| > 1, style, level) + ItemsText(vs[1..], style, level)
  }

  function MemberText(m: Member, style: Style, level: nat): Text {
    Quoted(m.name, style) + Space(style) + ":" + Space(style) + TextOf(m.value, style, level)
  }

  function MembersText(ms: seq<Member>, style: Style, level: nat): Text {
    if ms == [] then []
    else Line(MemberText(ms[0], style, level), |ms| > 1, style, level) + MembersText(ms[1..], style, level)
  }

  // ---------------------------------------------------------------- the generator

  class Generator {
    const style: Style
    var os: Text
    var level: nat

    constructor (value: Value, before: Text, style: Style)
      ensures this.style == style && os == before + TextOf(value, style, 0)
    {
      this.style, os, level := style, before, 0;
      new;
      Output(value);
    }

    method Put(t: Text)
      modifies this`os
      ensures os == old(os) + t
    {
      os := os + t;
    }

    method PutNewLine()
      modifies this`os
      ensures os == old(os) + NewLine(style)
    {
      if style.pretty {
        Put("\n");
      }
    }

    method PutSpace()
      modifies this`os
      ensures os == old(os) + Space(style)
    {
      if style.pretty {
        Put(" ");
      }
    }

    method PutIndent()
      modifies this`os
      ensures os == old(os) + Indent(style, level)
    {
      if !style.pretty {
        return;
      }
      for i := 0 to level
        modifies this`os
        invariant os + Indents(level - i) == old(os) + Indents(level)
      {
        Put("    ");
      }
    }

    method OutputString(s: Text)
      modifies this`os
      ensures os == old(os) + Quoted(s, style)
    {
      hide Escaped;
      var escaped := AddEscChars(s, style.printable);
      Put("\"");
      Put(escaped);
      Put("\"");
    }

    // How a stream shows a number.
    method OutputNumber(n: int)
      modifies this`os
      ensures os == old(os) + NumberText(n)
    {
      Put(NumberText(n));
    }

    // output_array_or_obj before its loop, at the end of each round, and behind it.
    method Begin(first: Text)
      modifies this
      ensures os == old(os) + first + NewLine(style) && level == old(level) + 1
    {
      Put(first);
      PutNewLine();
      level := level + 1;
    }

    method EndEntry(more: bool)
      modifies this`os
      ensures os == old(os) + Comma(more) + NewLine(style)
    {
      if more {
        Put(",");
      }
      PutNewLine();
    }

    method End(last: Text)
      requires level > 0
      modifies this
      ensures level == old(level) - 1 && os == old(os) + Indent(style, level) + last
    {
      level := level - 1;
      PutIndent();
      Put(last);
    }

    method Output(value: Value)
      modifies this
      ensures os == old(os) + TextOf(value, style, level) && level == old(level)
      decreases value, 0
    {
      hide Indent, NewLine, ItemsText, MembersText;
      match value
      case Object(ms) =>
        Begin("{");
        OutputMembers(ms);
        End("}");
      case Array(vs) =>
        Begin("[");
        OutputItems(vs);
        End("]");
      case Str(s) => OutputString(s);
      case Bool(b) => Put(if b then "true" else "false");
      case Int(bits, unsigned) =>
        if unsigned {
          OutputNumber(if bits < 0 then bits + TWO_TO_THE_64 else bits);
        } else {
          OutputNumber(bits);
        }
      case Null => Put("null");
    }

    method OutputMember(m: Member)
      modifies this
      ensures os == old(os) + MemberText(m, style, level) && level == old(level)
      decreases m, 0
    {
      OutputString(m.name);
      PutSpace();
      Put(":");
      PutSpace();
      Output(m.value);
    }

    method OutputItem(v: Value, more: bool)
      modifies this
      ensures os == old(os) + Line(TextOf(v, style, level), more, style, level) && level == old(level)
      decreases v, 1
    {
      hide Indent, NewLine, Comma, TextOf;
      PutIndent();
      Output(v);
      EndEntry(more);
    }

    method OutputItems(vs: seq<Value>)
      modifies this
      ensures os == old(os) + ItemsText(vs, style, level) && level == old(level)
      decreases vs
    {
      hide Line, ItemsText;
      for i := 0 to |vs|
        modifies this
        invariant level == old(level)
        invariant os + ItemsText(vs[i..], style, level) == old(os) + ItemsText(vs, style, level)
      {
        ItemsStep(os, vs, i, style, level);
        OutputItem(vs[i], i + 1 != |vs|);
      }
      ItemsNone(vs, style, level);
    }

    method OutputEntry(m: Member, more: bool)
      modifies this
      ensures os == old(os) + Line(MemberText(m, style, level), more, style, level) && level == old(level)
      decreases m, 1
    {
      hide Indent, NewLine, Comma, TextOf;
      PutIndent();
      OutputMember(m);
      EndEntry(more);
    }

    method OutputMembers(ms: seq<Member>)
      modifies this
      ensures os == old(os) + MembersText(ms, style, level) && level == old(level)
      decreases ms
    {
      hide Line, MembersText;
      for i := 0 to |ms|
        modifies this
        invariant level == old(level)
        invariant os + MembersText(ms[i..], style, level) == old(os) + MembersText(ms, style, level)
      {
        MembersStep(os, ms, i, style, level);
        OutputEntry(ms[i], i + 1 != |ms|);
      }
      MembersNone(ms, style, level);
    }

  }

  lemma ItemsStep(done: Text, vs: seq<Value>, i: nat, style: Style, level: nat)
    requires i < |vs|
    ensures (done + Line(TextOf(vs[i], style, level), i + 1 != |vs|, style, level)) +
      ItemsText(vs[i + 1..], style, level)
         == done + ItemsText(vs[i..], style, level)
  {
    hide Line, TextOf;
    assert vs[i..][1..] == vs[i + 1..];
  }

  lemma ItemsNone(vs: seq<Value>, style: Style, level: nat)
    ensures ItemsText(vs[|vs|..], style, level) == []
  {
  }

  lemma MembersStep(done: Text, ms: seq<Member>, i: nat, style: Style, level: nat)
    requires i < |ms|
    ensures (done + Line(MemberText(ms[i], style, level), i + 1 != |ms|, style, level))
            + MembersText(ms[i + 1..], style, level)
         == done + MembersText(ms[i..], style, level)
  {
    hide Line, MemberText;
    assert ms[i..][1..] == ms[i + 1..];
  }

  lemma MembersNone(ms: seq<Member>, style: Style, level: nat)
    ensures MembersText(ms[|ms|..], style, level) == []
  {
  }

  method WriteString(value: Value, style: Style) returns (t: Text)
    ensures t == TextOf(value, style, 0)
  {
    var g := new Generator(value, [], style);
    t := g.os;
  }
}
