/**
  Reading JSON text, following RFC 8259. Objects, string escapes and numbers that
  are not 64-bit integers are outside the model, and the reader says so.
 */
module Json {
  import opened Prelude
  import opened Numerals

  datatype Value =
    | Null
    | Bool(flag: bool)
    | Number(digits: string)
    | Text(chars: string)
    | List(values: seq<Value>)
    | Object

  // ---- Reading JSON ----

  datatype Reading<+T> = Read(value: T, rest: string) | Malformed | Outside {
    predicate IsFailure() { !Read? }

    function PropagateFailure<U>(): Reading<U>
      requires !Read?
    {
      if Malformed? then Malformed else Outside
    }

    function Extract(): (T, string)
      requires Read?
    {
      (value, rest)
    }
  }

  predicate Space(c: char) { c in " \t\n\r" }

  function SkipSpace(s: string): (r: string)
    ensures |r| <= |s|
  {
    if s != "" && Space(s[0]) then SkipSpace(s[1..]) else s
  }

  function DigitCount(s: string): (n: nat)
    ensures n <= |s|
  {
    if s != "" && IsDigit(s[0], 10) then 1 + DigitCount(s[1..]) else 0
  }

  lemma {:induction false} DigitCountDigits(s: string)
    ensures IsNumeral(s[..DigitCount(s)], 10)
  {
    if s != "" && IsDigit(s[0], 10) {
      DigitCountDigits(s[1..]);
      assert s[..DigitCount(s)] == [s[0]] + s[1..][..DigitCount(s[1..])];
    }
  }

  function ReadNumber(s: string): (r: Reading<Value>)
    requires s != "" && (IsDigit(s[0], 10) || s[0] == '-')
    ensures r.Read? ==> |r.rest| < |s|
  {
    var minus := s[0] == '-';
    var t := if minus then s[1..] else s;
    var n := DigitCount(t);
    var rest := t[n..];
    DigitCountDigits(t);
    if n == 0 || (n > 1 && t[0] == '0') then Malformed
    else if rest != "" && rest[0] in ".eE" then Outside
    else
      var m := Numerals.Value(t[..n], 10);
      if (minus && (m == 0 || m > 0x8000_0000_0000_0000)) || m >= 0x1_0000_0000_0000_0000 then Outside
      else Read(Number(s[..|s| - |rest|]), rest)
  }

  function ReadString(s: string): (r: Reading<string>)
    ensures r.Read? ==> |r.rest| < |s|
  {
    if s == "" || s[0] < ' ' then Malformed
    else if s[0] == '"' then Read("", s[1..])
    else if s[0] == '\\' then Outside
    else
      var (tail, rest) :- ReadString(s[1..]);
      Read([s[0]] + tail, rest)
  }

  function ReadWord(s: string, word: string, v: Value): (r: Reading<Value>)
    requires word != ""
    ensures r.Read? ==> |r.rest| < |s|
  {
    if word <= s then Read(v, s[|word|..]) else Malformed
  }

  function ReadValue(text: string): (r: Reading<Value>)
    ensures r.Read? ==> |r.rest| < |text|
    decreases |text|, 0
  {
    var s := SkipSpace(text);
    if s == "" then Malformed
    else if s[0] == '[' then
      var t := SkipSpace(s[1..]);
      if t != "" && t[0] == ']' then Read(List([]), t[1..])
      else
        var (vs, rest) :- ReadElements(s[1..]);
        Read(List(vs), rest)
    else if s[0] == '"' then
      var (chars, rest) :- ReadString(s[1..]);
      Read(Text(chars), rest)
    else if s[0] == 'n' then ReadWord(s, "null", Null)
    else if s[0] == 't' then ReadWord(s, "true", Bool(true))
    else if s[0] == 'f' then ReadWord(s, "false", Bool(false))
    else if s[0] == '{' then Outside
    else if IsDigit(s[0], 10) || s[0] == '-' then ReadNumber(s)
    else Malformed
  }

  function ReadElements(text: string): (r: Reading<seq<Value>>)
    ensures r.Read? ==> |r.rest| < |text|
    decreases |text|, 1
  {
    var (v, rest) :- ReadValue(text);
    var s := SkipSpace(rest);
    if s == "" then Malformed
    else if s[0] == ']' then Read([v], s[1..])
    else if s[0] == ',' then
      var (vs, rest') :- ReadElements(s[1..]);
      Read([v] + vs, rest')
    else Malformed
  }

  function FromStr(text: string): Reading<Value> {
    var (v, rest) :- ReadValue(text);
    if SkipSpace(rest) == "" then Read(v, "") else Malformed
  }

  // ---- The grammar ----

  predicate Plain(s: string) {
    forall i :: 0 <= i < |s| ==> ' ' <= s[i] && s[i] != '"' && s[i] != '\\'
  }

  predicate Blank(s: string) {
    forall i :: 0 <= i < |s| ==> s[i] == ' ' || s[i] == '\t' || s[i] == '\n' || s[i] == '\r'
  }

  /** A decimal numeral without superfluous zeros, in the range of 64-bit integers. */
  predicate IsInteger(t: string) {
    var digits := if t != "" && t[0] == '-' then t[1..] else t;
    && digits != "" && IsNumeral(digits, 10) && (|digits| > 1 ==> digits[0] != '0')
    && (if t[0] == '-' then 1 <= Numerals.Value(digits, 10) <= 0x8000_0000_0000_0000
        else Numerals.Value(digits, 10) <= 0xffff_ffff_ffff_ffff)
  }

  /** A text of the value: blanks are allowed around it and inside lists. */
  ghost predicate IsText(text: string, v: Value)
    decreases v, 1
  {
    exists i, j :: 0 <= i <= j <= |text| && Blank(text[..i]) && Blank(text[j..]) && IsCore(text[i..j], v)
  }

  ghost predicate IsCore(c: string, v: Value)
    decreases v, 0
  {
    match v
    case Null => c == "null"
    case Bool(b) => c == if b then "true" else "false"
    case Number(t) => c == t && IsInteger(t)
    case Text(s) => c == "\"" + s + "\"" && Plain(s)
    case List(vs) =>
      && |c| >= 2 && c[0] == '[' && c[|c| - 1] == ']'
      && if vs == [] then Blank(c[1..|c| - 1]) else AreTexts(c[1..|c| - 1], vs)
    case Object => false
  }

  /** Texts of the values, separated by commas. */
  ghost predicate AreTexts(text: string, vs: seq<Value>)
    requires vs != []
    decreases vs, 2
  {
    if |vs| == 1 then IsText(text, vs[0])
    else exists i :: 0 <= i < |text| && text[i] == ',' && IsText(text[..i], vs[0]) && AreTexts(text[i + 1..], vs[1..])
  }

  lemma SurroundedText(lead: string, c: string, tail: string, v: Value)
    requires Blank(lead) && IsCore(c, v) && Blank(tail)
    ensures IsText(lead + c + tail, v) && IsText(c, v)
  {
    hide IsCore;
    var text, i, j := lead + c + tail, |lead|, |lead| + |c|;
    assert text[..i] == lead && text[i..j] == c && text[j..] == tail;
    assert c[..0] == "" && c[0..|c|] == c && c[|c|..] == "";
  }

  lemma SplitText(text: string, v: Value) returns (lead: string, c: string, tail: string)
    requires IsText(text, v)
    ensures text == lead + c + tail && Blank(lead) && IsCore(c, v) && Blank(tail)
  {
    hide IsCore;
    var i, j :| 0 <= i <= j <= |text| && Blank(text[..i]) && Blank(text[j..]) && IsCore(text[i..j], v);
    lead, c, tail := text[..i], text[i..j], text[j..];
  }

  lemma JoinTexts(first: string, v: Value, more: string, vs: seq<Value>)
    requires IsText(first, v) && vs != [] && AreTexts(more, vs)
    ensures AreTexts(first + "," + more, [v] + vs)
  {
    hide IsText;
    var t, ws, i := first + "," + more, [v] + vs, |first|;
    assert t[..i] == first && t[i] == ',' && t[i + 1..] == more && ws[1..] == vs;
  }

  lemma SplitTexts(text: string, vs: seq<Value>) returns (first: string, more: string)
    requires |vs| > 1 && AreTexts(text, vs)
    ensures text == first + "," + more && IsText(first, vs[0]) && AreTexts(more, vs[1..])
  {
    hide IsText;
    var i :| 0 <= i < |text| && text[i] == ',' && IsText(text[..i], vs[0]) && AreTexts(text[i + 1..], vs[1..]);
    first, more := text[..i], text[i + 1..];
  }

  lemma OneText(text: string, v: Value)
    ensures AreTexts(text, [v]) <==> IsText(text, v)
  {
    hide IsText;
  }

  // ---- Every text of a value reads as that value ----

  lemma {:induction false} SkipBlank(gap: string, s: string)
    requires Blank(gap)
    ensures SkipSpace(gap + s) == SkipSpace(s)
  {
    if gap == "" {
      assert gap + s == s;
    } else {
      assert (gap + s)[1..] == gap[1..] + s;
      SkipBlank(gap[1..], s);
    }
  }

  /** What may follow a value: nothing, blanks, or the punctuation of a list. */
  predicate Delimited(rest: string) {
    rest == "" || rest[0] in ",] \t\n\r"
  }

  lemma {:induction false} ReadPlainString(s: string, rest: string)
    requires Plain(s)
    ensures ReadString(s + "\"" + rest) == Read(s, rest)
  {
    var text := s + "\"" + rest;
    if s == "" {
      assert text[1..] == rest;
    } else {
      ReadPlainString(s[1..], rest);
      assert text[1..] == s[1..] + "\"" + rest;
      assert [s[0]] + s[1..] == s;
    }
  }

  lemma {:induction false} DigitCountAll(t: string, rest: string)
    requires IsNumeral(t, 10) && (rest == "" || !IsDigit(rest[0], 10))
    ensures DigitCount(t + rest) == |t|
  {
    if t == "" {
      assert t + rest == rest;
    } else {
      assert IsDigit(t[0], 10);
      assert (t + rest)[1..] == t[1..] + rest;
      DigitCountAll(t[1..], rest);
    }
  }

  lemma ReadIntegerNumber(t: string, rest: string)
    requires IsInteger(t) && Delimited(rest)
    ensures (IsDigit(t[0], 10) || t[0] == '-') && ReadNumber(t + rest) == Read(Number(t), rest)
  {
    hide Numerals.Value, DigitCount, HexDigit;
    var s := t + rest;
    var minus := t[0] == '-';
    var digits := if minus then t[1..] else t;
    assert IsDigit(digits[0], 10);
    assert (if minus then s[1..] else s) == digits + rest;
    DelimiterIsNoDigit(rest);
    DigitCountAll(digits, rest);
    assert (digits + rest)[..|digits|] == digits && (digits + rest)[|digits|..] == rest;
    assert s[..|s| - |rest|] == t;
  }

  lemma DelimiterIsNoDigit(rest: string)
    requires Delimited(rest)
    ensures rest == "" || (!IsDigit(rest[0], 10) && rest[0] !in ".eE")
  {
  }

  lemma ReadInteger(t: string, rest: string)
    requires IsInteger(t) && Delimited(rest)
    ensures ReadValue(t + rest) == Read(Number(t), rest)
  {
    hide ReadNumber, IsInteger;
    var s := t + rest;
    ReadIntegerNumber(t, rest);
    NumberStart(t);
    assert s[0] == t[0] && SkipSpace(s) == s;
  }

  lemma NumberStart(t: string)
    requires IsInteger(t)
    ensures t != "" && !Space(t[0]) && t[0] !in "[\"ntf{"
  {
    assert t[0] == '-' || IsDigit(t[0], 10);
  }

  lemma ReadScalar(c: string, v: Value, rest: string)
    requires IsCore(c, v) && !v.List? && Delimited(rest)
    ensures ReadValue(c + rest) == Read(v, rest)
  {
    hide ReadValue, Plain, IsInteger;
    match v
    case Null =>
      ReadWords(rest);
    case Bool(_) =>
      ReadWords(rest);
    case Number(t) =>
      ReadInteger(t, rest);
    case Text(chars) =>
      ReadQuoted(chars, rest);
  }

  lemma ReadQuoted(chars: string, rest: string)
    requires Plain(chars)
    ensures ReadValue("\"" + chars + "\"" + rest) == Read(Text(chars), rest)
  {
    hide ReadNumber, ReadString, ReadElements, Plain;
    var s := "\"" + chars + "\"" + rest;
    ReadPlainString(chars, rest);
    assert s[0] == '"' && s[1..] == chars + "\"" + rest;
    assert SkipSpace(s) == s;
  }

  lemma ReadWords(rest: string)
    ensures ReadValue("null" + rest) == Read(Null, rest)
    ensures ReadValue("true" + rest) == Read(Bool(true), rest)
    ensures ReadValue("false" + rest) == Read(Bool(false), rest)
  {
    hide ReadNumber, ReadString, ReadElements;
    assert ("null" + rest)[4..] == rest && ("true" + rest)[4..] == rest && ("false" + rest)[5..] == rest;
  }

  lemma CoreStarts(c: string, v: Value)
    requires IsCore(c, v)
    ensures c != "" && !Space(c[0]) && c[0] != ']'
  {
    hide AreTexts;
    if v.Number? {
      assert c[0] == '-' || IsDigit(c[0], 10);
    }
  }

  lemma ReadEmptyList(gap: string, rest: string)
    requires Blank(gap)
    ensures ReadValue("[" + gap + "]" + rest) == Read(List([]), rest)
  {
    var s := "[" + gap + "]" + rest;
    assert s[1..] == gap + ("]" + rest);
    SkipBlank(gap, "]" + rest);
    assert ("]" + rest)[1..] == rest;
  }

  lemma ReadNonEmptyList(text: string, vs: seq<Value>, rest: string)
    requires ReadElements(text) == Read(vs, rest)
    requires SkipSpace(text) != "" && SkipSpace(text)[0] != ']'
    ensures ReadValue("[" + text) == Read(List(vs), rest)
  {
    assert ("[" + text)[1..] == text;
  }

  lemma ReadLastElement(text: string, v: Value, gap: string, rest: string)
    requires Blank(gap) && ReadValue(text) == Read(v, gap + ("]" + rest))
    ensures ReadElements(text) == Read([v], rest)
  {
    SkipBlank(gap, "]" + rest);
    assert ("]" + rest)[1..] == rest;
  }

  lemma ReadNextElement(text: string, v: Value, gap: string, more: string, vs: seq<Value>, rest: string)
    requires Blank(gap) && ReadValue(text) == Read(v, gap + ("," + more))
    requires ReadElements(more) == Read(vs, rest)
    ensures ReadElements(text) == Read([v] + vs, rest)
  {
    SkipBlank(gap, "," + more);
    assert ("," + more)[1..] == more;
  }

  lemma BlankDelimits(gap: string, rest: string)
    requires Blank(gap) && Delimited(rest)
    ensures Delimited(gap + rest)
  {
    if gap == "" {
      assert gap + rest == rest;
    }
  }

  lemma {:induction false} ReadCore(c: string, v: Value, rest: string)
    requires IsCore(c, v) && Delimited(rest)
    ensures ReadValue(c + rest) == Read(v, rest)
    decreases v, 0
  {
    hide ReadValue, ReadElements, SkipSpace, Delimited, AreTexts;
    if v.List? {
      var vs, inner := v.values, c[1..|c| - 1];
      assert c + rest == "[" + inner + "]" + rest;
      if vs == [] {
        ReadEmptyList(inner, rest);
      } else {
        ReadTexts(inner, vs, rest);
        TextsStart(inner, vs, "]" + rest);
        ReadNonEmptyList(inner + ("]" + rest), vs, rest);
        assert "[" + (inner + ("]" + rest)) == c + rest;
      }
    } else {
      ReadScalar(c, v, rest);
    }
  }

  lemma {:induction false} ReadText(text: string, v: Value, rest: string) returns (gap: string)
    requires IsText(text, v) && Delimited(rest)
    ensures Blank(gap) && ReadValue(text + rest) == Read(v, gap + rest)
    decreases v, 1
  {
    hide ReadValue, IsCore, IsText, Blank, Delimited;
    var lead, c;
    lead, c, gap := SplitText(text, v);
    BlankDelimits(gap, rest);
    ReadCore(c, v, gap + rest);
    assert text + rest == lead + (c + (gap + rest));
    ReadSkipsBlank(lead, c + (gap + rest));
  }

  lemma ReadSkipsBlank(gap: string, text: string)
    requires Blank(gap)
    ensures ReadValue(gap + text) == ReadValue(text)
  {
    SkipBlank(gap, text);
  }

  lemma {:induction false} ReadTexts(text: string, vs: seq<Value>, rest: string)
    requires vs != [] && AreTexts(text, vs)
    ensures ReadElements(text + ("]" + rest)) == Read(vs, rest)
    decreases vs, 2
  {
    hide ReadValue, ReadElements, IsText, AreTexts, SkipSpace, Blank;
    var s := text + ("]" + rest);
    if |vs| == 1 {
      assert [vs[0]] == vs;
      OneText(text, vs[0]);
      var gap := ReadText(text, vs[0], "]" + rest);
      ReadLastElement(s, vs[0], gap, rest);
    } else {
      var first, texts := SplitTexts(text, vs);
      var more := texts + ("]" + rest);
      assert s == first + ("," + more);
      var gap := ReadText(first, vs[0], "," + more);
      ReadTexts(texts, vs[1..], rest);
      ReadNextElement(s, vs[0], gap, more, vs[1..], rest);
      assert [vs[0]] + vs[1..] == vs;
    }
  }

  lemma TextsStart(text: string, vs: seq<Value>, rest: string)
    requires vs != [] && AreTexts(text, vs)
    ensures SkipSpace(text + rest) != "" && SkipSpace(text + rest)[0] != ']'
  {
    hide IsText, AreTexts, SkipSpace;
    if |vs| == 1 {
      assert [vs[0]] == vs;
      OneText(text, vs[0]);
      TextStarts(text, vs[0], rest);
    } else {
      var first, more := SplitTexts(text, vs);
      assert text + rest == first + ("," + more + rest);
      TextStarts(first, vs[0], "," + more + rest);
    }
  }

  lemma TextStarts(text: string, v: Value, rest: string)
    requires IsText(text, v)
    ensures SkipSpace(text + rest) != "" && SkipSpace(text + rest)[0] != ']'
  {
    hide IsCore, IsText;
    var lead, c, tail := SplitText(text, v);
    CoreStarts(c, v);
    var s := c + (tail + rest);
    assert text + rest == lead + s && s[0] == c[0];
    SkipBlank(lead, s);
  }

  // ---- What is read is a text of the value ----

  lemma {:induction false} SkippedBlank(text: string) returns (i: nat)
    ensures i <= |text| && Blank(text[..i]) && SkipSpace(text) == text[i..]
  {
    i := 0;
    if text != "" && Space(text[0]) {
      var k := SkippedBlank(text[1..]);
      i := k + 1;
      assert text[..i] == [text[0]] + text[1..][..k];
    }
  }

  lemma {:induction false} StringRead(s: string)
    requires ReadString(s).Read?
    ensures var r := ReadString(s); Plain(r.value) && s == r.value + "\"" + r.rest
  {
    if s[0] != '"' {
      StringRead(s[1..]);
      assert s == [s[0]] + s[1..];
    }
  }

  lemma NumberRead(s: string)
    requires s != "" && (IsDigit(s[0], 10) || s[0] == '-') && ReadNumber(s).Read?
    ensures var r := ReadNumber(s);
            && r.value.Number? && IsInteger(r.value.digits) && s == r.value.digits + r.rest
  {
    hide Numerals.Value, DigitCount, HexDigit, IsNumeral;
    var minus := s[0] == '-';
    var t := if minus then s[1..] else s;
    var n := DigitCount(t);
    DigitCountDigits(t);
    var digits := ReadNumber(s).value.digits;
    assert digits == if minus then ['-'] + t[..n] else t[..n];
    assert (if minus then digits[1..] else digits) == t[..n];
  }

  lemma WordRead(s: string, word: string, v: Value)
    requires word != "" && ReadWord(s, word, v).Read?
    ensures ReadWord(s, word, v) == Read(v, s[|word|..]) && |word| <= |s| && s[..|word|] == word
  {
  }

  /** The text of a value that starts without blanks ends where the rest begins. */
  ghost predicate Consumed(s: string, v: Value, rest: string) {
    && |rest| <= |s| && s[|s| - |rest|..] == rest
    && IsCore(s[..|s| - |rest|], v)
  }

  lemma ScalarRead(s: string)
    requires s != "" && SkipSpace(s) == s && s[0] != '[' && ReadValue(s).Read?
    ensures Consumed(s, ReadValue(s).value, ReadValue(s).rest)
  {
    hide ReadNumber, ReadString, ReadElements, ReadWord, IsInteger, Plain;
    if s[0] == '"' {
      StringRead(s[1..]);
      var r := ReadString(s[1..]);
      assert s == "\"" + r.value + "\"" + r.rest;
    } else if s[0] == 'n' {
      WordRead(s, "null", Null);
    } else if s[0] == 't' {
      WordRead(s, "true", Bool(true));
    } else if s[0] == 'f' {
      WordRead(s, "false", Bool(false));
    } else {
      NumberRead(s);
    }
  }

  lemma EmptyListRead(s: string)
    requires s != "" && s[0] == '['
    requires var t := SkipSpace(s[1..]); t != "" && t[0] == ']'
    ensures Consumed(s, List([]), SkipSpace(s[1..])[1..])
  {
    var i := SkippedBlank(s[1..]);
    assert s[..i + 2][1..i + 1] == s[1..][..i];
    assert s[i + 2..] == s[1..][i..][1..] && s[i + 1] == s[1..][i..][0];
  }

  lemma {:induction false} CoreRead(s: string)
    requires s != "" && SkipSpace(s) == s && ReadValue(s).Read?
    ensures Consumed(s, ReadValue(s).value, ReadValue(s).rest)
    decreases |s|, 0
  {
    if s[0] != '[' {
      ScalarRead(s);
    } else {
      hide IsCore, AreTexts, Consumed, ReadElements;
      var t := SkipSpace(s[1..]);
      if t != "" && t[0] == ']' {
        EmptyListRead(s);
      } else {
        var j := ElementsRead(s[1..]);
        ListConsumed(s, j, ReadElements(s[1..]).value);
      }
    }
  }

  lemma ListConsumed(s: string, j: nat, vs: seq<Value>)
    requires s != "" && s[0] == '[' && vs != []
    requires j < |s[1..]| && s[1..][j] == ']' && AreTexts(s[1..][..j], vs)
    ensures Consumed(s, List(vs), s[1..][j + 1..])
  {
    hide AreTexts;
    assert s[..j + 2][1..j + 1] == s[1..][..j];
    assert s[j + 2..] == s[1..][j + 1..];
  }

  lemma ReadTrimmed(text: string)
    requires ReadValue(text).Read?
    ensures var s := SkipSpace(text); s != "" && SkipSpace(s) == s && ReadValue(s) == ReadValue(text)
  {
    SkipTwice(text);
  }

  /** A value is read from its text, followed by whatever rest is left. */
  lemma {:induction false} ValueRead(text: string) returns (i: nat, j: nat)
    requires ReadValue(text).Read?
    ensures i <= j <= |text| && Blank(text[..i]) && ReadValue(text).rest == text[j..]
    ensures IsCore(text[i..j], ReadValue(text).value)
    decreases |text|, 1
  {
    hide IsCore, ReadValue, SkipSpace, Blank;
    ReadTrimmed(text);
    i := SkippedBlank(text);
    var s, n := text[i..], |ReadValue(text).rest|;
    CoreRead(s);
    j := |text| - n;
    assert text[i..j] == s[..|s| - n] && text[j..] == s[|s| - n..];
  }

  lemma {:induction false} SkipTwice(text: string)
    ensures SkipSpace(SkipSpace(text)) == SkipSpace(text)
  {
    if text != "" && Space(text[0]) {
      SkipTwice(text[1..]);
    }
  }

  lemma FirstRead(text: string) returns (m: nat)
    requires ReadValue(text).Read?
    ensures m <= |text| && SkipSpace(ReadValue(text).rest) == text[m..]
    ensures IsText(text[..m], ReadValue(text).value)
    decreases |text|, 2
  {
    hide ReadValue, IsCore, IsText;
    var i, j := ValueRead(text);
    var k := SkippedBlank(text[j..]);
    m := j + k;
    assert text[..m] == text[..i] + text[i..j] + text[j..][..k];
    SurroundedText(text[..i], text[i..j], text[j..][..k], ReadValue(text).value);
  }

  lemma {:induction false} ElementsRead(text: string) returns (j: nat)
    requires ReadElements(text).Read?
    ensures var r := ReadElements(text);
            && r.value != [] && j < |text| && text[j] == ']' && r.rest == text[j + 1..]
            && AreTexts(text[..j], r.value)
    decreases |text|, 3
  {
    hide ReadValue, IsText, AreTexts, SkipSpace;
    var m := FirstRead(text);
    var v := ReadValue(text).value;
    if text[m] == ']' {
      j := m;
      OneText(text[..m], v);
    } else {
      var n := ElementsRead(text[m + 1..]);
      j := m + 1 + n;
      JoinTexts(text[..m], v, text[m + 1..][..n], ReadElements(text[m + 1..]).value);
      assert text[..j] == text[..m] + "," + text[m + 1..][..n];
    }
  }

  /** A text reads as a value exactly when it is a text of that value. */
  lemma FromStrExactly(text: string, v: Value)
    ensures FromStr(text) == Read(v, "") <==> IsText(text, v)
  {
    hide ReadValue, IsCore;
    if IsText(text, v) {
      assert text + "" == text;
      var gap := ReadText(text, v, "");
      SkipBlank(gap, "");
      assert gap + "" == gap;
    }
    if FromStr(text) == Read(v, "") {
      var i, j := ValueRead(text);
      var k := SkippedBlank(text[j..]);
      assert text[j..][..k] == text[j..];
    }
  }
}
