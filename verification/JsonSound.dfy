/** The grammar matches no other texts: whatever is read is a text of the value that is read. */
module JsonSound {
  import opened JsonGrammar
  import opened JsonLayout
  import opened JsonText
  import opened JsonValue

  lemma {:induction false} SkipSplit(t: Text) returns (blank: Text)
    ensures t == blank + Skip(t) && Blank(blank)
  {
    hide Blank, IsSpace;
    NoneBlank();
    if t != [] && IsSpace(t[0]) {
      var more := SkipSplit(t[1..]);
      blank := [t[0]] + more;
      SpaceBlank(t[0]);
      BlankJoin([t[0]], more);
    } else {
      blank := [];
    }
  }

  lemma SpaceBlank(c: Char)
    requires IsSpace(c)
    ensures Blank([c])
  {
  }

  lemma BlankJoin(a: Text, b: Text)
    requires Blank(a) && Blank(b)
    ensures Blank(a + b)
  {
  }

  lemma {:induction false} BodyCut(s: Text)
    requires Starts(s[BodyLength(s)..], '"')
    ensures var n := BodyLength(s); BodyLength(s[..n] + ['"']) == n
  {
    var n := BodyLength(s);
    if s[0] != '"' && s[0] != '\\' {
      BodyCut(s[1..]);
      assert s[1..][n - 1..] == s[n..] && (s[..n] + ['"'])[1..] == s[1..][..n - 1] + ['"'];
    } else if s[0] != '"' {
      BodyCut(s[2..]);
      assert s[2..][n - 2..] == s[n..] && (s[..n] + ['"'])[2..] == s[2..][..n - 2] + ['"'];
    }
  }

  lemma StringSound(s: Text) returns (b: Body)
    requires StringRule(s).Match?
    ensures BodyOk(b) && s == StringText(b) + StringRule(s).rest && StringRule(s).value == BodyMeans(b)
  {
    hide BodyLength, Unescaped;
    var n := BodyLength(s[1..]);
    BodyCut(s[1..]);
    b := Raw(s[1..1 + n]);
    assert s[1..][..n] == s[1..1 + n] && s[1 + n..] == s[1..][n..];
    assert s == ['"'] + s[1..1 + n] + ['"'] + s[n + 2..];
  }

  lemma {:induction false} DigitsStop(s: Text)
    ensures DigitCount(s) < |s| ==> !IsDigit(s[DigitCount(s)])
  {
    if s != [] && IsDigit(s[0]) {
      DigitsStop(s[1..]);
    }
  }

  lemma DigitText(c: Char)
    requires IsDigit(c)
    ensures 0 <= c as int - '0' as int < 10 && UpperDigits[c as int - '0' as int] == c
  {
  }

  lemma DigitsSound(d: Text) returns (ds: seq<nat>)
    requires forall k :: 0 <= k < |d| ==> IsDigit(d[k])
    ensures |ds| == |d| && (forall i :: 0 <= i < |ds| ==> ds[i] < 10) && DigitsText(ds) == d
  {
    ds := seq(|d|, i requires 0 <= i < |d| => assert IsDigit(d[i]); d[i] as int - '0' as int);
    forall i | 0 <= i < |d| ensures UpperDigits[ds[i]] == d[i] {
      DigitText(d[i]);
    }
  }

  // A sign, all digits behind it, and what is left.
  lemma SignAndDigits(s: Text) returns (sign: Sign, d: Text, rest: Text)
    ensures sign == if Starts(s, '-') then Minus else if Starts(s, '+') then Plus else None
    ensures var w := |SignText(sign)|;
      && w <= |s| && |d| == DigitCount(s[w..]) && w + |d| <= |s| && d == s[w..w + |d|] && rest == s[w + |d|..]
      && s == SignText(sign) + d + rest && DigitCount(d + rest) == |d|
    ensures (forall k :: 0 <= k < |d| ==> IsDigit(d[k])) && (rest != [] ==> !IsDigit(rest[0]))
  {
    hide DigitCount, IsDigit;
    sign := if Starts(s, '-') then Minus else if Starts(s, '+') then Plus else None;
    var w := |SignText(sign)|;
    var t := s[w..];
    DigitsStop(t);
    d, rest := t[..DigitCount(t)], t[DigitCount(t)..];
    assert d + rest == t;
  }

  // The parts of a number that is read: a sign, digits, and what does not go on with it.
  lemma NumberParts(s: Text) returns (sign: Sign, d: Text)
    requires NumberRule(s).Match?
    ensures var rest := NumberRule(s).rest;
      && s == SignText(sign) + d + rest && d != [] && (forall k :: 0 <= k < |d| ==> IsDigit(d[k])) && Ended(rest)
      && Fits64(sign, ValueOfDigits(d)) && NumberRule(s).value == Number64(Signed10(sign, ValueOfDigits(d)))
  {
    hide ValueOfDigits, DigitCount, IsDigit, Number64;
    var rest;
    sign, d, rest := SignAndDigits(s);
    NumberOfDigits(sign, d, ValueOfDigits(d), rest);
  }

  lemma NumberSound(s: Text) returns (sign: Sign, ds: seq<nat>)
    requires NumberRule(s).Match?
    ensures DigitsOk(ds) && Fits64(sign, DigitsMean(ds)) && Ended(NumberRule(s).rest)
    ensures s == SignText(sign) + DigitsText(ds) + NumberRule(s).rest && NumberRule(s).value == NumberMeans(sign, ds)
  {
    hide ValueOfDigits, DigitsMean, DigitsText, NumberRule, Fits64, Number64, SignText, Ended;
    var d;
    sign, d := NumberParts(s);
    ds := DigitsSound(d);
    DigitsRead(ds);
  }

  lemma WordSound(s: Text) returns (l: Layout)
    requires WordRule(s).Match?
    ensures LayoutOk(l) && !l.Numeral? && s == LayoutText(l) + WordRule(s).rest && WordRule(s).value == LayoutMeans(l)
  {
    l := if HasPrefix(s, "true") then True else if HasPrefix(s, "false") then False else Nothing;
    var n := |LayoutText(l)|;
    assert s == s[..n] + s[n..];
  }

  /** What is read is a text of the value that is read. */
  lemma {:induction false} ValueSound(text: Text) returns (blank: Text, l: Layout)
    requires ValueRule(text).Match?
    ensures var r := ValueRule(text);
      && Blank(blank) && LayoutOk(l) && (l.Numeral? ==> Ended(r.rest))
      && text == blank + (LayoutText(l) + r.rest) && r.value == LayoutMeans(l)
    decreases |text|, 2
  {
    hide StringRule, NumberRule, ObjectRule, ArrayRule, WordRule, Blank, StringText, BodyMeans, DigitsText, NumberMeans;
    hide Ended;
    blank := SkipSplit(text);
    var s := Skip(text);
    if StringRule(s).Match? {
      var b := StringSound(s);
      l := Characters(b);
    } else if NumberRule(s).Match? {
      var sign, ds := NumberSound(s);
      l := Numeral(sign, ds);
    } else if Starts(s, '{') {
      l := ObjectSound(s);
    } else if Starts(s, '[') {
      l := ArraySound(s);
    } else {
      l := WordSound(s);
    }
  }

  lemma ArraySound(s: Text) returns (l: Layout)
    requires Starts(s, '[') && ArrayRule(s).Match?
    ensures l.Brackets? && LayoutOk(l) && s == LayoutText(l) + ArrayRule(s).rest && ArrayRule(s).value == LayoutMeans(l)
    decreases |s|, 1
  {
    hide ElementsRule, Blank, EntriesText, EntriesMean, EntriesOk, Skip;
    var end := [']'] + ArrayRule(s).rest;
    var inner := s[1..];
    assert s == ['['] + inner;
    match ElementsRule(inner)
    case Match(vs, rest) =>
      var close := SkipSplit(rest);
      assert Skip(rest) == end;
      var es := ElementsSound(inner, close, end);
      l := Brackets(es, []);
      assert Blank([]) by { NoneBlank(); }
    case NoMatch =>
      var close := SkipSplit(inner);
      assert Skip(inner) == end;
      l := Brackets([], close);
      NoEntries();
  }

  lemma NoEntries()
    ensures EntriesOk([]) && EntriesMean([]) == [] && FieldsOk([]) && FieldsMean([]) == []
  {
  }

  lemma NoneBlank()
    ensures Blank([])
  {
  }

  // `close` is the white space before what ends the array.
  lemma ElementsSound(s: Text, close: Text, end: Text) returns (es: seq<Entry>)
    requires ElementsRule(s).Match? && ElementsRule(s).rest == close + end && Blank(close)
    ensures es != [] && EntriesOk(es) && s == EntriesText(es) + end && EntriesMean(es) == ElementsRule(s).value
    decreases |s|, 4
  {
    hide ValueRule, MoreElements, Blank, EntryText, EntryMeans, EntryOk, EntriesText;
    var after, more := MoreSound(ValueRule(s).rest, close, end);
    var e := EntrySound(s, after, MoreEntriesText(more) + end);
    es := [e] + more;
    assert es[1..] == more;
    EntriesSplit(es);
  }

  lemma MoreSound(text: Text, close: Text, end: Text) returns (after: Text, es: seq<Entry>)
    requires MoreElements(text).Match? && MoreElements(text).rest == close + end && Blank(close)
    ensures EntriesOk(es) && Blank(after) && text == after + (MoreEntriesText(es) + end)
    ensures EntriesMean(es) == MoreElements(text).value
    decreases |text|, 0
  {
    hide ValueRule, Blank, EntryText, EntryMeans, EntryOk, EntriesText, Skip;
    var s := Skip(text);
    if !Starts(s, ',') || ValueRule(s[1..]).NoMatch? {
      after, es := close, [];
      assert MoreEntriesText(es) + end == end;
    } else {
      after := SkipSplit(text);
      var after', more := MoreSound(ValueRule(s[1..]).rest, close, end);
      var e := EntrySound(s[1..], after', MoreEntriesText(more) + end);
      es := [e] + more;
      assert es[1..] == more;
      EntriesSplit(es);
      assert s == [','] + s[1..];
      assert s == MoreEntriesText(es) + end;
    }
  }

  lemma ObjectSound(s: Text) returns (l: Layout)
    requires Starts(s, '{') && ObjectRule(s).Match?
    ensures l.Braces? && LayoutOk(l) && s == LayoutText(l) + ObjectRule(s).rest && ObjectRule(s).value == LayoutMeans(l)
    decreases |s|, 1
  {
    hide MembersRule, Blank, FieldsText, FieldsMean, FieldsOk, Skip;
    var end := ['}'] + ObjectRule(s).rest;
    var inner := s[1..];
    assert s == ['{'] + inner;
    match MembersRule(inner)
    case Match(ms, rest) =>
      var close := SkipSplit(rest);
      assert Skip(rest) == end;
      var fs := MembersSound(inner, close, end);
      l := Braces(fs, []);
      assert Blank([]) by { NoneBlank(); }
    case NoMatch =>
      var close := SkipSplit(inner);
      assert Skip(inner) == end;
      l := Braces([], close);
      NoEntries();
  }

  // The field, but for the white space behind it, which is given.
  lemma PairSound(text: Text, after: Text, more: Text) returns (f: Field)
    requires PairRule(text).Match? && Blank(after) && PairRule(text).rest == after + more
    ensures FieldOk(f) && f.item.after == after && FieldMeans(f) == PairRule(text).value && text == FieldText(f) + more
    decreases |text|, 4
  {
    hide ValueRule, StringRule, Blank, StringText, BodyMeans, BodyOk, EntryText, EntryMeans, EntryOk, Skip;
    var before := SkipSplit(text);
    var name := StringSound(Skip(text));
    var behind := StringRule(Skip(text)).rest;
    var colon := SkipSplit(behind);
    var s := Skip(behind);
    assert s == [':'] + s[1..];
    var e := EntrySound(s[1..], after, more);
    f := Field(before, name, colon, e);
    Regroup(before, StringText(name), colon, EntryText(e), more);
  }

  lemma Regroup(before: Text, name: Text, colon: Text, entry: Text, more: Text)
    ensures before + (name + (colon + ([':'] + (entry + more)))) == before + name + colon + [':'] + entry + more
  {
  }

  lemma EntrySound(text: Text, after: Text, more: Text) returns (e: Entry)
    requires ValueRule(text).Match? && Blank(after) && ValueRule(text).rest == after + more
    ensures EntryOk(e) && EntryMeans(e) == ValueRule(text).value && text == EntryText(e) + more && e.after == after
    decreases |text|, 3
  {
    hide ValueRule, Blank, LayoutText, LayoutMeans;
    var blank, l := ValueSound(text);
    e := Entry(blank, l, after);
  }

  // `close` is the white space before what ends the object.
  lemma MembersSound(s: Text, close: Text, end: Text) returns (fs: seq<Field>)
    requires MembersRule(s).Match? && MembersRule(s).rest == close + end && Blank(close)
    ensures fs != [] && FieldsOk(fs) && s == FieldsText(fs) + end && FieldsMean(fs) == MembersRule(s).value
    decreases |s|, 5
  {
    hide PairRule, MoreMembers, Blank, FieldText, FieldMeans, FieldOk, FieldsText;
    var after, more := MoreMembersSound(PairRule(s).rest, close, end);
    var f := PairSound(s, after, MoreFieldsText(more) + end);
    fs := [f] + more;
    assert fs[1..] == more;
    FieldsSplit(fs);
  }

  lemma MoreMembersSound(text: Text, close: Text, end: Text) returns (after: Text, fs: seq<Field>)
    requires MoreMembers(text).Match? && MoreMembers(text).rest == close + end && Blank(close)
    ensures FieldsOk(fs) && Blank(after) && text == after + (MoreFieldsText(fs) + end)
    ensures FieldsMean(fs) == MoreMembers(text).value
    decreases |text|, 0
  {
    hide PairRule, Blank, FieldText, FieldMeans, FieldOk, FieldsText, Skip;
    var s := Skip(text);
    if !Starts(s, ',') || PairRule(s[1..]).NoMatch? {
      after, fs := close, [];
      assert MoreFieldsText(fs) + end == end;
    } else {
      after := SkipSplit(text);
      var after', more := MoreMembersSound(PairRule(s[1..]).rest, close, end);
      var f := PairSound(s[1..], after', MoreFieldsText(more) + end);
      fs := [f] + more;
      assert fs[1..] == more;
      FieldsSplit(fs);
      assert s == [','] + s[1..];
      assert s == MoreFieldsText(fs) + end;
    }
  }

  /** The text starts with a value exactly if the rule matches, and that is the value of its text. */
  lemma ReadExactly(t: Text)
    ensures JsonRule(t).Match? <==> exists l :: Spells(t, l)
    ensures forall l :: Spells(t, l) ==> JsonRule(t).Match? && JsonRule(t).value == LayoutMeans(l)
  {
    hide ValueRule, LayoutText, LayoutMeans, Blank, Ended;
    forall l | Spells(t, l) ensures JsonRule(t).Match? && JsonRule(t).value == LayoutMeans(l) {
      SpeltRead(t, l);
    }
    if JsonRule(t).Match? {
      var blank, l := ValueSound(t);
      assert Spells(t, l);
    }
  }
}
