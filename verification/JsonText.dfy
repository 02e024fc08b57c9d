/** json_spirit's strings: the escape codes the writer puts in and the reader takes out. */
module JsonText {

  // A char of a std::string, under its unsigned value.
  type Char = c: char | c as int < 256
  type Text = seq<Char>

  const BACKSPACE: Char := 8 as char
  const FORMFEED: Char := 12 as char

  // ---------------------------------------------------------------- the writer's half

  function HexChar(n: nat): Char
    requires n <= 15
  {
    if n < 10 then ('0' as int + n) as char else ('A' as int - 10 + n) as char
  }

  function NonPrintable(c: nat): Text {
    ['\\', 'u', HexChar(c / 4096 % 16), HexChar(c / 256 % 16), HexChar(c / 16 % 16), HexChar(c % 16)]
  }

  // The two characters for those with an escape of their own.
  function ShortEscape(c: Char): Text {
    if c == '"' then "\\\""
    else if c == '\\' then "\\\\"
    else if c == BACKSPACE then "\\b"
    else if c == FORMFEED then "\\f"
    else if c == '\n' then "\\n"
    else if c == '\r' then "\\r"
    else if c == '\t' then "\\t"
    else []
  }

  function Coded(c: Char, printable: Char -> bool): Text {
    if ShortEscape(c) != [] then ShortEscape(c)
    else if printable(c) then [c]
    else NonPrintable(c as int)
  }

  function Escaped(s: Text, printable: Char -> bool): Text {
    if s == [] then [] else Coded(s[0], printable) + Escaped(s[1..], printable)
  }

  method AddEscChars(s: Text, printable: Char -> bool) returns (result: Text)
    ensures result == Escaped(s, printable)
  {
    hide Escaped, ShortEscape, NonPrintable;
    result := [];
    EscapedNone(printable);
    for i := 0 to |s|
      invariant result + Escaped(s[i..], printable) == Escaped(s, printable)
    {
      var c := s[i];
      EscapedStep(result, s, i, printable);
      if ShortEscape(c) != [] {
        result := result + ShortEscape(c);
      } else if printable(c) {
        result := result + [c];
      } else {
        result := result + NonPrintable(c as int);
      }
    }
    assert s[|s|..] == [];
  }

  lemma EscapedNone(printable: Char -> bool)
    ensures Escaped([], printable) == []
  {
  }

  lemma EscapedStep(done: Text, s: Text, i: nat, printable: Char -> bool)
    requires i < |s|
    ensures (done + Coded(s[i], printable)) + Escaped(s[i + 1..], printable) == done + Escaped(s[i..], printable)
  {
    hide Coded;
    assert s[i..][1..] == s[i + 1..];
  }

  // ---------------------------------------------------------------- the reader's half

  function HexToNum(c: Char): (n: nat)
    ensures n <= 15
  {
    if '0' <= c <= '9' then c as int - '0' as int
    else if 'a' <= c <= 'f' then c as int - 'a' as int + 10
    else if 'A' <= c <= 'F' then c as int - 'A' as int + 10
    else 0
  }

  // What stands behind a backslash: the characters it means, and how many it takes.
  function Decoded(s: Text): (r: (Text, nat))
    requires s != []
    ensures 0 < r.1 <= |s|
  {
    match s[0]
    case 't' => ("\t", 1)
    case 'b' => ([BACKSPACE], 1)
    case 'f' => ([FORMFEED], 1)
    case 'n' => ("\n", 1)
    case 'r' => ("\r", 1)
    case '\\' => ("\\", 1)
    case '/' => ("/", 1)
    case '"' => ("\"", 1)
    case 'x' =>
      if |s| >= 3 then ([(HexToNum(s[1]) * 16 + HexToNum(s[2])) as char], 3) else ([], 1)
    case 'u' =>
      if |s| >= 5 then
        // the sum is cut to a char
        ([((HexToNum(s[1]) * 4096 + HexToNum(s[2]) * 256 + HexToNum(s[3]) * 16 + HexToNum(s[4])) % 256) as char], 5)
      else
        ([], 1)
    case _ => ([], 1)
  }

  function Unescaped(s: Text): Text {
    if |s| < 2 then s
    else if s[0] != '\\' then [s[0]] + Unescaped(s[1..])
    else Decoded(s[1..]).0 + Unescaped(s[1 + Decoded(s[1..]).1..])
  }

  // Appends what the escape at i means, and moves i to its last character.
  method AppendEscChar(s: Text, t: Text, begin: nat) returns (r: Text, i: nat)
    requires begin < |t|
    ensures r == s + Decoded(t[begin..]).0 && i + 1 == begin + Decoded(t[begin..]).1
  {
    r, i := s, begin;
    var c := t[begin];
    if c == 't' {
      r := r + "\t";
    } else if c == 'b' {
      r := r + [BACKSPACE];
    } else if c == 'f' {
      r := r + [FORMFEED];
    } else if c == 'n' {
      r := r + "\n";
    } else if c == 'r' {
      r := r + "\r";
    } else if c == '\\' || c == '/' || c == '"' {
      r := r + [c];
    } else if c == 'x' {
      if |t| - begin >= 3 {
        r := r + [(HexToNum(t[begin + 1]) * 16 + HexToNum(t[begin + 2])) as char];
        i := begin + 2;
      }
    } else if c == 'u' {
      if |t| - begin >= 5 {
        var code := HexToNum(t[begin + 1]) * 4096 + HexToNum(t[begin + 2]) * 256
                    + HexToNum(t[begin + 3]) * 16 + HexToNum(t[begin + 4]);
        r := r + [(code % 256) as char];
        i := begin + 4;
      }
    }
  }

  // The loop is at i: `result` and the characters from `start` on are what stands before i.
  ghost predicate SoFar(t: Text, result: Text, start: nat, i: nat) {
    start <= i <= |t| && result + t[start..i] + Unescaped(t[i..]) == Unescaped(t)
  }

  lemma SoFarPlain(t: Text, result: Text, start: nat, i: nat)
    requires i + 1 < |t| && SoFar(t, result, start, i) && t[i] != '\\'
    ensures SoFar(t, result, start, i + 1)
  {
    assert t[i..][1..] == t[i + 1..];
    assert Unescaped(t[i..]) == [t[i]] + Unescaped(t[i + 1..]);
    assert t[start..i + 1] == t[start..i] + [t[i]];
  }

  lemma SoFarEscape(t: Text, result: Text, start: nat, i: nat)
    requires i + 1 < |t| && SoFar(t, result, start, i) && t[i] == '\\'
    ensures var (out, n) := Decoded(t[i + 1..]); SoFar(t, result + t[start..i] + out, i + 1 + n, i + 1 + n)
  {
    hide Decoded;
    var (out, n) := Decoded(t[i + 1..]);
    assert t[i..][1..] == t[i + 1..] && t[i..][1 + n..] == t[i + 1 + n..];
    assert Unescaped(t[i..]) == out + Unescaped(t[i + 1 + n..]);
    assert t[i + 1 + n..i + 1 + n] == [];
  }

  lemma Cut(done: Text, t: Text, start: nat, i: nat)
    requires start <= i <= |t|
    ensures done + t[start..] == (done + t[start..i]) + t[i..]
  {
    assert t[start..] == t[start..i] + t[i..];
  }

  lemma SoFarEnd(t: Text, result: Text, start: nat, i: nat)
    requires SoFar(t, result, start, i) && |t| - i < 2
    ensures start <= |t| && result + t[start..] == Unescaped(t)
  {
    hide Unescaped;
    UnescapedShort(t[i..]);
    Cut(result, t, start, i);
  }

  method SubstituteEscChars(t: Text) returns (result: Text)
    ensures result == Unescaped(t)
  {
    hide Unescaped, Decoded, SoFar;
    if |t| < 2 {
      UnescapedShort(t);
      return t;
    }
    result := [];
    var start, i := 0, 0;
    SoFarStart(t);
    while i < |t| - 1
      invariant 0 <= start <= i <= |t| && SoFar(t, result, start, i)
      decreases |t| - i
    {
      if t[i] == '\\' {
        SoFarEscape(t, result, start, i);
        result := result + t[start..i];
        i := i + 1;
        result, i := AppendEscChar(result, t, i);
        start := i + 1;
      } else {
        SoFarPlain(t, result, start, i);
      }
      i := i + 1;
    }
    SoFarEnd(t, result, start, i);
    result := result + t[start..];
  }

  lemma SoFarStart(t: Text)
    ensures SoFar(t, [], 0, 0)
  {
    assert t[0..] == t && t[0..0] == [];
  }

  lemma UnescapedShort(s: Text)
    requires |s| < 2
    ensures Unescaped(s) == s
  {
  }

  // ---------------------------------------------------------------- there and back

  lemma {:induction false} HexBack(c: Char)
    ensures Decoded(NonPrintable(c as int)[1..]) == ([c], 5)
  {
    var n := c as int;
    var t := NonPrintable(n)[1..];
    assert n / 4096 == 0 && n / 256 == 0 && n / 16 < 16;
    assert forall d: nat | d <= 15 :: HexToNum(HexChar(d)) == d;
    assert HexToNum(t[1]) == 0 && HexToNum(t[2]) == 0 && HexToNum(t[3]) == n / 16 && HexToNum(t[4]) == n % 16;
  }

  lemma ShortBack(c: Char, s: Text)
    requires ShortEscape(c) != []
    ensures Unescaped(ShortEscape(c) + s) == [c] + Unescaped(s)
  {
    var t := ShortEscape(c) + s;
    assert t[0] == '\\' && t[1..] == [t[1]] + s && t[2..] == s;
    assert Decoded(t[1..]) == ([c], 1);
  }

  lemma HexCodeBack(c: Char, s: Text)
    ensures Unescaped(NonPrintable(c as int) + s) == [c] + Unescaped(s)
  {
    HexBack(c);
    var u := NonPrintable(c as int)[1..];
    var t := NonPrintable(c as int) + s;
    hide NonPrintable;
    assert t[1..] == u + s && t[6..] == s;
  }

  // The reader takes back the code of one character, whatever follows.
  lemma CodedBack(c: Char, printable: Char -> bool, s: Text)
    ensures Unescaped(Coded(c, printable) + s) == [c] + Unescaped(s)
  {
    if ShortEscape(c) != [] {
      ShortBack(c, s);
    } else if printable(c) {
      assert c != '\\' && ([c] + s)[1..] == s;
    } else {
      HexCodeBack(c, s);
    }
  }

  /** Unescaping undoes escaping, for every string and every choice of printable characters. */
  lemma {:induction false} UnescapeEscape(s: Text, printable: Char -> bool)
    ensures Unescaped(Escaped(s, printable)) == s
  {
    if s != [] {
      CodedBack(s[0], printable, Escaped(s[1..], printable));
      UnescapeEscape(s[1..], printable);
    }
  }
}
