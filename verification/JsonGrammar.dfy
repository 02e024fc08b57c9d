/** What json_spirit's grammar matches: each rule as a function of the characters still to be read. */
module JsonGrammar {
  import opened JsonText
  import opened JsonValue

  datatype Reason = NotAValue | NotAnArray | NotAnObject | NoColon | RealNumber

  // A rule matches a front part of the text, or fails and lets others try, or throws.
  datatype Outcome<T> = Match(value: T, rest: Text) | NoMatch | Throw(reason: Reason)

  // ---------------------------------------------------------------- the scanner

  predicate IsSpace(c: Char) {
    c == ' ' || 9 <= c as int <= 13
  }

  predicate IsDigit(c: Char) {
    '0' <= c <= '9'
  }

  // What is left behind leading white space.
  function Skip(s: Text): (r: Text)
    ensures |r| <= |s| && (r != [] ==> !IsSpace(r[0]))
  {
    if s != [] && IsSpace(s[0]) then Skip(s[1..]) else s
  }

  predicate Starts(s: Text, c: Char) {
    s != [] && s[0] == c
  }

  // ---------------------------------------------------------------- strings and numbers

  // The length of the longest run of characters and escapes up to a quotation mark.
  function BodyLength(s: Text): (n: nat)
    ensures n <= |s|
  {
    if s == [] || s[0] == '"' then 0
    else if s[0] != '\\' then 1 + BodyLength(s[1..])
    else if |s| >= 2 then 2 + BodyLength(s[2..])
    else 0
  }

  // string_, behind white space: the value is what the quotation marks enclose, unescaped.
  function StringRule(s: Text): (r: Outcome<Text>)
    ensures !r.Throw? && (r.Match? ==> |r.rest| < |s|)
  {
    if !Starts(s, '"') then NoMatch
    else
      var n := BodyLength(s[1..]);
      if Starts(s[1 + n..], '"') then Match(Unescaped(s[1..1 + n]), s[n + 2..]) else NoMatch
  }

  function DigitCount(s: Text): (n: nat)
    ensures n <= |s| && forall k :: 0 <= k < n ==> IsDigit(s[k])
  {
    if s != [] && IsDigit(s[0]) then 1 + DigitCount(s[1..]) else 0
  }

  function ValueOfDigits(s: Text): nat
    requires forall k :: 0 <= k < |s| ==> IsDigit(s[k])
  {
    if s == [] then 0 else
      assert IsDigit(s[|s| - 1]);
      ValueOfDigits(s[..|s| - 1]) * 10 + (s[|s| - 1] as int - '0' as int)
  }

  // The bits of a number of 64 bits without a sign, read with one.
  function Signed(n: nat): Int64
    requires n < TWO_TO_THE_64
  {
    if n < TWO_TO_THE_63 then n else n - TWO_TO_THE_64
  }

  // A point or an exponent makes a numeral a real number.
  predicate RealMark(c: Char) {
    c == '.' || c == 'e' || c == 'E'
  }

  // number_, behind white space: a real number, else a signed integer that fits, else an unsigned one.
  function NumberRule(s: Text): (r: Outcome<Value>)
    ensures r.Match? ==> |r.rest| < |s| && r.value.Int?
  {
    var sign := if Starts(s, '-') || Starts(s, '+') then 1 else 0;
    var n := DigitCount(s[sign..]);
    var rest := s[sign + n..];
    if rest != [] && RealMark(rest[0]) && (n > 0 || (rest[0] == '.' && |rest| > 1 && IsDigit(rest[1]))) then
      Throw(RealNumber)
    else if n == 0 then NoMatch
    else
      var magnitude := ValueOfDigits(s[sign..sign + n]);
      var i: int := if Starts(s, '-') then 0 - magnitude else magnitude;
      if -TWO_TO_THE_63 <= i < TWO_TO_THE_63 then Match(Int(i, false), rest)
      else if sign == 0 && i < TWO_TO_THE_64 then Match(Int(Signed(i), true), rest)
      else NoMatch
  }

  predicate HasPrefix(s: Text, word: Text) {
    |word| <= |s| && s[..|word|] == word
  }

  // ---------------------------------------------------------------- nested values

  // The closing bracket, without which the rule throws.
  function Close(bracket: Char, v: Value, s: Text, reason: Reason): (r: Outcome<Value>)
    ensures !r.NoMatch? && (r.Match? ==> |r.rest| < |s| && r.value == v)
  {
    var s := Skip(s);
    if Starts(s, bracket) then Match(v, s[1..]) else Throw(reason)
  }

  function WordRule(s: Text): (r: Outcome<Value>)
    ensures !r.Throw? && (r.Match? ==> |r.rest| < |s|)
  {
    if HasPrefix(s, "true") then Match(Bool(true), s[4..])
    else if HasPrefix(s, "false") then Match(Bool(false), s[5..])
    else if HasPrefix(s, "null") then Match(Null, s[4..])
    else NoMatch
  }

  // value_
  function ValueRule(text: Text): (r: Outcome<Value>)
    ensures r.Match? ==> |r.rest| < |text|
    decreases |text|, 2
  {
    var s := Skip(text);
    var quoted := StringRule(s);
    var number := NumberRule(s);
    if quoted.Match? then Match(Str(quoted.value), quoted.rest)
    else if !number.NoMatch? then number
    else if Starts(s, '{') then ObjectRule(s)
    else if Starts(s, '[') then ArrayRule(s)
    else WordRule(s)
  }

  // object_ and array_, behind white space and at the opening bracket.
  function ObjectRule(s: Text): (r: Outcome<Value>)
    requires Starts(s, '{')
    ensures !r.NoMatch? && (r.Match? ==> |r.rest| < |s|)
    decreases |s|, 1
  {
    match MembersRule(s[1..])
    case Match(ms, rest) => Close('}', Object(ms), rest, NotAnObject)
    case NoMatch => Close('}', Object([]), s[1..], NotAnObject)
    case Throw(reason) => Throw(reason)
  }

  function ArrayRule(s: Text): (r: Outcome<Value>)
    requires Starts(s, '[')
    ensures !r.NoMatch? && (r.Match? ==> |r.rest| < |s|)
    decreases |s|, 1
  {
    match ElementsRule(s[1..])
    case Match(vs, rest) => Close(']', Array(vs), rest, NotAnArray)
    case NoMatch => Close(']', Array([]), s[1..], NotAnArray)
    case Throw(reason) => Throw(reason)
  }

  // elements_, and its part behind the first element, which never fails.
  function ElementsRule(s: Text): (r: Outcome<seq<Value>>)
    ensures r.Match? ==> |r.rest| < |s|
    decreases |s|, 3
  {
    match ValueRule(s)
    case Match(v, rest) =>
      (match MoreElements(rest)
       case Match(vs, rest') => Match([v] + vs, rest')
       case NoMatch => NoMatch
       case Throw(reason) => Throw(reason))
    case NoMatch => NoMatch
    case Throw(reason) => Throw(reason)
  }

  function MoreElements(text: Text): (r: Outcome<seq<Value>>)
    ensures !r.NoMatch? && (r.Match? ==> |r.rest| <= |text|)
    decreases |text|, 0
  {
    var s := Skip(text);
    if !Starts(s, ',') then Match([], text)
    else
      match ValueRule(s[1..])
      case Match(v, rest) =>
        (match MoreElements(rest)
         case Match(vs, rest') => Match([v] + vs, rest')
         case Throw(reason) => Throw(reason))
      case NoMatch => Match([], text)
      case Throw(reason) => Throw(reason)
  }

  // pair_
  function PairRule(text: Text): (r: Outcome<Member>)
    ensures r.Match? ==> |r.rest| < |text|
    decreases |text|, 3
  {
    var quoted := StringRule(Skip(text));
    if quoted.NoMatch? then NoMatch
    else
      var s := Skip(quoted.rest);
      if !Starts(s, ':') then Throw(NoColon)
      else
        match ValueRule(s[1..])
        case Match(v, rest) => Match(Member(quoted.value, v), rest)
        case NoMatch => Throw(NotAValue)
        case Throw(reason) => Throw(reason)
  }

  // members_, and its part behind the first pair, which never fails.
  function MembersRule(s: Text): (r: Outcome<seq<Member>>)
    ensures r.Match? ==> |r.rest| < |s|
    decreases |s|, 4
  {
    match PairRule(s)
    case Match(m, rest) =>
      (match MoreMembers(rest)
       case Match(ms, rest') => Match([m] + ms, rest')
       case NoMatch => NoMatch
       case Throw(reason) => Throw(reason))
    case NoMatch => NoMatch
    case Throw(reason) => Throw(reason)
  }

  function MoreMembers(text: Text): (r: Outcome<seq<Member>>)
    ensures !r.NoMatch? && (r.Match? ==> |r.rest| <= |text|)
    decreases |text|, 0
  {
    var s := Skip(text);
    if !Starts(s, ',') then Match([], text)
    else
      match PairRule(s[1..])
      case Match(m, rest) =>
        (match MoreMembers(rest)
         case Match(ms, rest') => Match([m] + ms, rest')
         case Throw(reason) => Throw(reason))
      case NoMatch => Match([], text)
      case Throw(reason) => Throw(reason)
  }

  // json_: the text starts with a value, or the rule throws.
  function JsonRule(s: Text): (r: Outcome<Value>)
    ensures !r.NoMatch?
  {
    var r := ValueRule(s);
    if r.NoMatch? then Throw(NotAValue) else r
  }
}
