/**
  The text side of RLP items: `Display`, the conversion of JSON values, and the
  two `cast` commands `from_rlp` and `to_rlp`.
 */
module RlpText {
  import opened Prelude
  import opened Numerals
  import opened Json
  import opened Rlp

  /** How a call ends: a result, an error return, a panic, or outside the model. */
  datatype Outcome<+T> = Done(value: T) | Error | Panic | Unmodelled {
    predicate IsFailure() { !Done? }

    function PropagateFailure<U>(): Outcome<U>
      requires !Done?
    {
      match this case Error => Error case Panic => Panic case Unmodelled => Unmodelled
    }

    function Extract(): T
      requires Done?
    {
      value
    }
  }

  // ---- Hexadecimal text ----

  function HexEncode(b: seq<byte>): string {
    if b == [] then "" else [HexChar(b[0] / 16), HexChar(b[0] % 16)] + HexEncode(b[1..])
  }

  function HexDecode(s: string): Option<seq<byte>> {
    if s == "" then Some([])
    else if |s| == 1 then None
    else
      var hi :- HexDigit(s[0]);
      var lo :- HexDigit(s[1]);
      var rest :- HexDecode(s[2..]);
      if hi < 16 && lo < 16 then Some([hi * 16 + lo] + rest) else None
  }

  lemma HexDecodePair(hi: nat, lo: nat, tail: string)
    requires hi < 16 && lo < 16 && HexDecode(tail).Some?
    ensures HexDecode([HexChar(hi), HexChar(lo)] + tail) == Some([hi * 16 + lo] + HexDecode(tail).value)
  {
    hide HexDigit;
    HexDigitOfChar(hi);
    HexDigitOfChar(lo);
    assert ([HexChar(hi), HexChar(lo)] + tail)[2..] == tail;
  }

  lemma {:induction false} HexRoundTrip(b: seq<byte>)
    ensures HexDecode(HexEncode(b)) == Some(b)
  {
    if b != [] {
      hide HexDigit, HexDecode;
      HexRoundTrip(b[1..]);
      HexDecodePair(b[0] / 16, b[0] % 16, HexEncode(b[1..]));
      assert [b[0]] + b[1..] == b;
    } else {
      assert HexEncode(b) == "";
    }
  }

  function LowerChar(c: char): char {
    if 'A' <= c <= 'Z' then 'a' + (c - 'A') else c
  }

  function Lower(s: string): string {
    seq(|s|, i requires 0 <= i < |s| => LowerChar(s[i]))
  }

  /** Two digits a byte, the high one first, from the usual table. */
  lemma {:induction false} HexEncodeAt(d: seq<byte>, k: nat)
    requires k < |d|
    ensures |HexEncode(d)| == 2 * |d|
    ensures HexEncode(d)[2 * k] == "0123456789abcdef"[d[k] / 16]
    ensures HexEncode(d)[2 * k + 1] == "0123456789abcdef"[d[k] % 16]
  {
    HexCharTable(d[k] / 16);
    HexCharTable(d[k] % 16);
    hide HexChar;
    HexEncodeLength(d[1..]);
    if k > 0 {
      HexEncodeAt(d[1..], k - 1);
      assert HexEncode(d)[2 * k] == HexEncode(d[1..])[2 * (k - 1)];
      assert HexEncode(d)[2 * k + 1] == HexEncode(d[1..])[2 * (k - 1) + 1];
    }
  }

  lemma {:induction false} HexEncodeLength(d: seq<byte>)
    ensures |HexEncode(d)| == 2 * |d|
  {
    if d != [] {
      HexEncodeLength(d[1..]);
    }
  }

  lemma HexDigitExactly(c: char, n: nat)
    requires n < 16
    ensures HexDigit(c) == Some(n) <==> LowerChar(c) == HexChar(n)
  {
  }

  /** Decoding answers exactly the bytes whose digits the text spells in either case. */
  lemma {:induction false} HexDecodeExactly(s: string, d: seq<byte>)
    ensures HexDecode(s) == Some(d) <==> Lower(s) == HexEncode(d)
    decreases |s|
  {
    HexEncodeLength(d);
    if |s| >= 2 && d != [] {
      HexDecodeExactly(s[2..], d[1..]);
      HexDigitExactly(s[0], d[0] / 16);
      HexDigitExactly(s[1], d[0] % 16);
      LowerSplit(s);
      HexDecodeSplit(s, d);
      hide HexDigit, HexChar, LowerChar, HexDecode, Lower;
      var t, u := Lower(s), HexEncode(d);
      assert u[0] == HexChar(d[0] / 16) && u[1] == HexChar(d[0] % 16) && u[2..] == HexEncode(d[1..]);
      assert t == [t[0], t[1]] + t[2..] && u == [u[0], u[1]] + u[2..];
    }
  }

  lemma LowerSplit(s: string)
    requires |s| >= 2
    ensures |Lower(s)| == |s|
    ensures Lower(s)[0] == LowerChar(s[0]) && Lower(s)[1] == LowerChar(s[1]) && Lower(s)[2..] == Lower(s[2..])
  {
  }

  lemma HexDecodeSplit(s: string, d: seq<byte>)
    requires |s| >= 2 && d != []
    ensures HexDecode(s) == Some(d) <==>
              HexDigit(s[0]) == Some(d[0] / 16) && HexDigit(s[1]) == Some(d[0] % 16) && HexDecode(s[2..]) == Some(d[1..])
  {
    assert [d[0]] + d[1..] == d;
    if HexDecode(s).Some? {
      var hi, lo, rest := HexDigit(s[0]).value, HexDigit(s[1]).value, HexDecode(s[2..]).value;
      assert HexDecode(s).value == [hi * 16 + lo] + rest;
      assert HexDecode(s).value[1..] == rest;
    }
  }

  /** An even number of hexadecimal digits. */
  predicate IsHexText(s: string) {
    && |s| % 2 == 0
    && forall i :: 0 <= i < |s| ==> '0' <= s[i] <= '9' || 'a' <= s[i] <= 'f' || 'A' <= s[i] <= 'F'
  }

  lemma {:induction false} HexDecodable(s: string)
    ensures HexDecode(s).Some? <==> IsHexText(s)
    decreases |s|
  {
    if |s| >= 2 {
      HexDecodable(s[2..]);
      assert forall i :: 2 <= i < |s| ==> s[i] == s[2..][i - 2];
    }
  }

  // ---- Printing ----

  function Print(item: Item): string {
    match item
    case Data(d) => "\"0x" + HexEncode(d) + "\""
    case Array(xs) => "[" + Join(xs) + "]"
  }

  function Join(xs: seq<Item>): string {
    if xs == [] then ""
    else if |xs| == 1 then Print(xs[0])
    else Print(xs[0]) + "," + Join(xs[1..])
  }

  lemma {:induction false} JoinSnoc(xs: seq<Item>, x: Item)
    requires xs != []
    ensures Join(xs + [x]) == Join(xs) + "," + Print(x)
  {
    assert (xs + [x])[1..] == xs[1..] + [x];
    if |xs| > 1 {
      JoinSnoc(xs[1..], x);
    } else {
      assert xs[1..] + [x] == [x];
    }
  }

  function Comma(needed: bool): string {
    if needed then "," else ""
  }

  lemma JoinStep(xs: seq<Item>, i: nat)
    requires i < |xs|
    ensures Join(xs[..i + 1]) == Join(xs[..i]) + Comma(i > 0) + Print(xs[i])
  {
    assert xs[..i + 1] == xs[..i] + [xs[i]];
    if i > 0 {
      JoinSnoc(xs[..i], xs[i]);
    } else {
      assert Join(xs[..0]) + "" + Print(xs[0]) == Print(xs[0]);
    }
  }

  lemma JoinNone(xs: seq<Item>)
    ensures Join(xs[..0]) == ""
  {
  }

  class Formatter {
    var text: string

    /** `Display`: writes the printed form at the end of the text. */
    method Display(item: Item)
      modifies this
      ensures text == old(text) + Print(item)
      decreases item, 0
    {
      match item
      case Data(d) =>
        text := text + ("\"0x" + HexEncode(d) + "\"");
      case Array(xs) =>
        text := text + "[";
        DisplayElements(xs);
        text := text + "]";
        assert text == old(text) + ("[" + Join(xs) + "]");
    }

    /** The peeking loop: a comma after every element that has a successor. */
    method DisplayElements(xs: seq<Item>)
      modifies this
      ensures text == old(text) + Join(xs)
      decreases xs, 1
    {
      hide Print, Join;
      JoinNone(xs);
      for i := 0 to |xs|
        invariant text == old(text) + (Join(xs[..i]) + Comma(0 < i < |xs|))
      {
        ghost var before := text;
        Display(xs[i]);
        if i + 1 < |xs| {
          text := text + ",";
        }
        JoinStep(xs, i);
        assert text == before + (Print(xs[i]) + Comma(i + 1 < |xs|));
        assert text == old(text) + (Join(xs[..i]) + Comma(i > 0) + Print(xs[i]) + Comma(i + 1 < |xs|));
      }
      assert xs[..|xs|] == xs;
    }
  }

  // ---- From JSON values to items ----

  function TextToItem(s: string): Outcome<Item> {
    match HexDecode(Strip(s, "0x"))
    case Some(d) => Done(Data(d))
    case None => Panic
  }

  function ValueToItem(v: Value): Outcome<Item> {
    match v
    case Null => Done(Data([]))
    case Bool(_) => Error
    case Number(t) => TextToItem(t)
    case Text(s) => TextToItem(s)
    case List(vs) => var xs :- ValuesToItems(vs); Done(Array(xs))
    case Object => Error
  }

  function ValuesToItems(vs: seq<Value>): Outcome<seq<Item>> {
    if vs == [] then Done([])
    else
      var x :- ValueToItem(vs[0]);
      var xs :- ValuesToItems(vs[1..]);
      Done([x] + xs)
  }

  /** The scalars of a value, left to right, and how each converts on its own. */
  function Leaves(v: Value): seq<Value> {
    if v.List? then AllLeaves(v.values) else [v]
  }

  function AllLeaves(vs: seq<Value>): seq<Value> {
    if vs == [] then [] else Leaves(vs[0]) + AllLeaves(vs[1..])
  }

  /** Null, and text or numbers that are hexadecimal, convert. */
  predicate Good(leaf: Value) {
    || leaf.Null?
    || (leaf.Text? && IsHexText(Strip(leaf.chars, "0x")))
    || (leaf.Number? && IsHexText(Strip(leaf.digits, "0x")))
  }

  /** How a bad scalar ends the conversion. */
  function Verdict<T>(leaf: Value): Outcome<T> {
    if leaf.Bool? || leaf.Object? then Error else Panic
  }

  /** The first scalar that does not convert, if any. */
  ghost predicate FirstBad(leaves: seq<Value>, k: nat) {
    && k < |leaves| && !Good(leaves[k])
    && forall i :: 0 <= i < k ==> Good(leaves[i])
  }

  ghost predicate AllGood(leaves: seq<Value>) {
    forall i :: 0 <= i < |leaves| ==> Good(leaves[i])
  }

  ghost predicate EndsAsLeaves<T>(r: Outcome<T>, leaves: seq<Value>) {
    if r.Done? then AllGood(leaves)
    else exists k: nat :: FirstBad(leaves, k) && Verdict<T>(leaves[k]) == r
  }

  lemma EndsConcat<T>(r: Outcome<T>, a: seq<Value>, b: seq<Value>)
    requires if AllGood(a) then EndsAsLeaves(r, b) else EndsAsLeaves(r, a)
    ensures EndsAsLeaves(r, a + b)
  {
    if AllGood(a) && !r.Done? {
      var k: nat :| FirstBad(b, k) && Verdict<T>(b[k]) == r;
      assert (a + b)[|a| + k] == b[k] && FirstBad(a + b, |a| + k);
    } else if !AllGood(a) {
      var k: nat :| FirstBad(a, k) && Verdict<T>(a[k]) == r;
      assert (a + b)[k] == a[k] && FirstBad(a + b, k);
    }
  }

  lemma EndsSame<T, U>(r: Outcome<T>, s: Outcome<U>, leaves: seq<Value>)
    requires EndsAsLeaves(r, leaves)
    requires if r.Done? then s.Done? else s == r.PropagateFailure<U>()
    ensures EndsAsLeaves(s, leaves)
  {
    if !r.Done? {
      var k: nat :| FirstBad(leaves, k) && Verdict<T>(leaves[k]) == r;
      assert Verdict<U>(leaves[k]) == s;
    }
  }

  lemma LeafConversion(v: Value)
    requires !v.List?
    ensures EndsAsLeaves(ValueToItem(v), [v])
  {
    if v.Text? {
      HexDecodable(Strip(v.chars, "0x"));
    } else if v.Number? {
      HexDecodable(Strip(v.digits, "0x"));
    }
    assert Good(v) || FirstBad([v], 0);
  }

  /** Conversion succeeds when every scalar does, and otherwise ends as the first bad one. */
  lemma {:induction false} ConversionOutcome(v: Value)
    ensures EndsAsLeaves(ValueToItem(v), Leaves(v))
    decreases v, 0
  {
    if v.List? {
      ConversionOutcomes(v.values);
      EndsSame(ValuesToItems(v.values), ValueToItem(v), AllLeaves(v.values));
    } else {
      LeafConversion(v);
    }
  }

  lemma {:induction false} ConversionOutcomes(vs: seq<Value>)
    ensures EndsAsLeaves(ValuesToItems(vs), AllLeaves(vs))
    decreases vs, 1
  {
    if vs != [] {
      ConversionOutcome(vs[0]);
      ConversionOutcomes(vs[1..]);
      var head, tail, r := ValueToItem(vs[0]), ValuesToItems(vs[1..]), ValuesToItems(vs);
      if head.Done? {
        EndsSame(tail, r, AllLeaves(vs[1..]));
      } else {
        EndsSame(head, r, Leaves(vs[0]));
      }
      EndsConcat(r, Leaves(vs[0]), AllLeaves(vs[1..]));
    }
  }

  /**
    What a converted item is: lists become arrays element by element, null the
    empty byte string, and text or numbers the bytes they spell, with or without
    prefix and in either case.
   */
  ghost predicate Mirrors(v: Value, x: Item) {
    match v
    case Null => x == Data([])
    case Number(t) => x.Data? && HexEncode(x.data) == Lower(Strip(t, "0x"))
    case Text(t) => x.Data? && HexEncode(x.data) == Lower(Strip(t, "0x"))
    case List(vs) =>
      x.Array? && |x.items| == |vs| && forall k :: 0 <= k < |vs| ==> Mirrors(vs[k], x.items[k])
    case _ => false
  }

  lemma TextMirrors(t: string, x: Item)
    ensures TextToItem(t) == Done(x) <==> x.Data? && HexEncode(x.data) == Lower(Strip(t, "0x"))
  {
    if x.Data? {
      HexDecodeExactly(Strip(t, "0x"), x.data);
    }
  }

  /** Conversion answers an item exactly when that item mirrors the value. */
  lemma {:induction false} ConversionMirrors(v: Value, x: Item)
    ensures ValueToItem(v) == Done(x) <==> Mirrors(v, x)
    decreases v, 0
  {
    match v
    case Number(t) => TextMirrors(t, x);
    case Text(t) => TextMirrors(t, x);
    case List(vs) =>
      if x.Array? {
        ConversionsMirror(vs, x.items);
      }
    case _ =>
  }

  lemma {:induction false} ConversionsMirror(vs: seq<Value>, xs: seq<Item>)
    ensures ValuesToItems(vs) == Done(xs) <==>
              |xs| == |vs| && forall k :: 0 <= k < |vs| ==> Mirrors(vs[k], xs[k])
    decreases vs, 1
  {
    if vs != [] && xs != [] {
      hide ValueToItem, Mirrors;
      ConversionMirrors(vs[0], xs[0]);
      ConversionsMirror(vs[1..], xs[1..]);
      assert [xs[0]] + xs[1..] == xs;
      assert forall k :: 0 < k < |vs| ==> vs[k] == vs[1..][k - 1];
      assert forall k :: 0 < k < |xs| ==> xs[k] == xs[1..][k - 1];
      if ValuesToItems(vs) == Done(xs) {
        var x, rest := ValueToItem(vs[0]).value, ValuesToItems(vs[1..]).value;
        assert ([x] + rest)[1..] == rest && ([x] + rest)[0] == x;
      }
    }
  }

  // ---- The commands ----

  /** The byte-level decoder is the `rlp` crate's, and so a parameter. */
  function FromRlp(decode: Decoder, text: string): Outcome<string> {
    match HexDecode(Strip(text, "0x"))
    case None => Error
    case Some(b) =>
      match decode(b)
      case None => Error
      case Some((item, _)) => Done(Print(item))
  }

  function ToRlp(text: string): Outcome<string> {
    var item :-
      match FromStr(text)
      case Read(v, _) => ValueToItem(v)
      case Malformed => ValueToItem(Text(text))
      case Outside => Unmodelled;
    match Encode(item)
    case Some(b) => Done("0x" + HexEncode(b))
    case None => Unmodelled
  }

  // ---- Printed items are read back ----

  function AsValue(item: Item): Value {
    match item
    case Data(d) => Text("0x" + HexEncode(d))
    case Array(xs) => List(AsValues(xs))
  }

  function AsValues(xs: seq<Item>): seq<Value> {
    if xs == [] then [] else [AsValue(xs[0])] + AsValues(xs[1..])
  }

  lemma {:induction false} AsValueToItem(item: Item)
    ensures ValueToItem(AsValue(item)) == Done(item)
    decreases item, 0
  {
    match item
    case Data(d) =>
      assert ("0x" + HexEncode(d))[2..] == HexEncode(d);
      HexRoundTrip(d);
    case Array(xs) =>
      AsValuesToItems(xs);
  }

  lemma {:induction false} AsValuesToItems(xs: seq<Item>)
    ensures ValuesToItems(AsValues(xs)) == Done(xs)
    decreases xs, 1
  {
    if xs != [] {
      AsValueToItem(xs[0]);
      AsValuesToItems(xs[1..]);
      assert AsValues(xs)[1..] == AsValues(xs[1..]);
      assert [xs[0]] + xs[1..] == xs;
    }
  }

  lemma {:induction false} HexIsPlain(d: seq<byte>)
    ensures Plain(HexEncode(d))
  {
    if d != [] {
      hide HexDigit;
      HexDigitOfChar(d[0] / 16);
      HexDigitOfChar(d[0] % 16);
      HexIsPlain(d[1..]);
    }
  }

  /** Without blanks. */
  predicate Compact(s: string) {
    forall i :: 0 <= i < |s| ==> s[i] != ' ' && s[i] != '\t' && s[i] != '\n' && s[i] != '\r'
  }

  lemma {:induction false} HexIsCompact(d: seq<byte>)
    ensures Compact(HexEncode(d))
  {
    if d != [] {
      hide HexDigit;
      HexDigitOfChar(d[0] / 16);
      HexDigitOfChar(d[0] % 16);
      HexIsCompact(d[1..]);
    }
  }

  lemma CompactJoin(s: string, t: string)
    requires Compact(s) && Compact(t)
    ensures Compact(s + "," + t)
  {
  }

  /** What is printed is JSON, with no blanks in it. */
  lemma {:induction false} PrintedIsJson(item: Item)
    ensures IsCore(Print(item), AsValue(item)) && Compact(Print(item))
    decreases item, 0
  {
    hide HexEncode;
    match item
    case Data(d) =>
      HexIsPlain(d);
      HexIsCompact(d);
      assert "\"" + ("0x" + HexEncode(d)) + "\"" == "\"0x" + HexEncode(d) + "\"";
    case Array(xs) =>
      hide AreTexts;
      JoinedIsJson(xs);
      assert Print(item)[1..|Print(item)| - 1] == Join(xs);
  }

  lemma {:induction false} JoinedIsJson(xs: seq<Item>)
    ensures |AsValues(xs)| == |xs| && Compact(Join(xs))
    ensures if xs == [] then Join(xs) == "" else AreTexts(Join(xs), AsValues(xs))
    decreases xs, 1
  {
    if xs != [] {
      hide AsValue, IsCore, IsText, AreTexts, Print, Compact;
      var first, v := Print(xs[0]), AsValue(xs[0]);
      PrintedIsJson(xs[0]);
      SurroundedText("", first, "", v);
      JoinedIsJson(xs[1..]);
      if |xs| == 1 {
        OneText(first, v);
        assert AsValues(xs) == [v];
      } else {
        JoinTexts(first, v, Join(xs[1..]), AsValues(xs[1..]));
        CompactJoin(first, Join(xs[1..]));
      }
    }
  }

  /** Printing an item and converting the printed JSON back gives the item. */
  lemma PrintRoundTrip(item: Item)
    ensures FromStr(Print(item)) == Read(AsValue(item), "")
    ensures ValueToItem(AsValue(item)) == Done(item)
  {
    hide AsValue, IsCore, Print, FromStr;
    PrintedIsJson(item);
    SurroundedText("", Print(item), "", AsValue(item));
    FromStrExactly(Print(item), AsValue(item));
    AsValueToItem(item);
  }

  lemma PrintInjective(x: Item, y: Item)
    requires Print(x) == Print(y)
    ensures x == y
  {
    PrintRoundTrip(x);
    PrintRoundTrip(y);
  }

  lemma PrefixedHexInjective(a: seq<byte>, b: seq<byte>)
    ensures "0x" + HexEncode(a) == "0x" + HexEncode(b) <==> a == b
  {
    HexRoundTrip(a);
    HexRoundTrip(b);
    assert ("0x" + HexEncode(a))[2..] == HexEncode(a) && ("0x" + HexEncode(b))[2..] == HexEncode(b);
  }

  lemma PrintedToRlp(item: Item)
    requires Encode(item).Some?
    ensures ToRlp(Print(item)) == Done("0x" + HexEncode(Encode(item).value))
  {
    PrintRoundTrip(item);
  }

  /**
    Whatever decoder reads all encodings: `from_rlp` then `to_rlp` gives the
    encoding of the decoded item, which restores the input bytes exactly when
    they are an encoding.
   */
  lemma FromRlpThenToRlp(decode: Decoder, text: string)
    requires ReadsEncodings(decode) && FromRlp(decode, text).Done?
    requires Encode(decode(HexDecode(Strip(text, "0x")).value).value.0).Some?
    ensures var b := HexDecode(Strip(text, "0x")).value;
            var item := decode(b).value.0;
            var back := ToRlp(FromRlp(decode, text).value);
            && back == Done("0x" + HexEncode(Encode(item).value))
            && (back == Done("0x" + HexEncode(b)) <==> exists x :: Encode(x) == Some(b))
  {
    hide HexEncode, HexDecode, ToRlp, Encode, Print;
    var b := HexDecode(Strip(text, "0x")).value;
    var item := decode(b).value.0;
    PrintedToRlp(item);
    PrefixedHexInjective(Encode(item).value, b);
    if x :| Encode(x) == Some(b) {
      assert ReadsBack(decode, x, []);
      assert b + [] == b;
    }
  }

  /** With the strict decoder the bytes it used come back, so all of them if none follow. */
  lemma StrictFromRlpThenToRlp(text: string)
    requires FromRlp(Decode, text).Done?
    ensures var b := HexDecode(Strip(text, "0x")).value;
            var n := Decode(b).value.1;
            && ToRlp(FromRlp(Decode, text).value) == Done("0x" + HexEncode(b[..n]))
            && (ToRlp(FromRlp(Decode, text).value) == Done("0x" + HexEncode(b)) <==> n == |b|)
  {
    hide HexEncode, HexDecode, ToRlp, Encode, Print;
    var b := HexDecode(Strip(text, "0x")).value;
    var (item, n) := Decode(b).value;
    EncodeDecode(b);
    PrintedToRlp(item);
    PrefixedHexInjective(b[..n], b);
  }

  lemma CanonicalTextRestored(decode: Decoder, item: Item)
    requires ReadsEncodings(decode) && Encode(item).Some?
    ensures var hex := "0x" + HexEncode(Encode(item).value);
            FromRlp(decode, hex) == Done(Print(item)) && ToRlp(Print(item)) == Done(hex)
  {
    hide Encode, Print, ToRlp;
    var b := Encode(item).value;
    assert ("0x" + HexEncode(b))[2..] == HexEncode(b);
    HexRoundTrip(b);
    assert ReadsBack(decode, item, []);
    assert b + [] == b;
    PrintedToRlp(item);
  }

  /** Bare hexadecimal is no JSON, so `to_rlp` takes it as one byte string. */
  lemma BareHexIsData(d: seq<byte>)
    requires Encode(Data(d)).Some?
    ensures ToRlp("0x" + HexEncode(d)) == Done("0x" + HexEncode(Encode(Data(d)).value))
  {
    hide HexEncode, HexDecode, Encode;
    var text := "0x" + HexEncode(d);
    assert text[0] == '0' && text[1] == 'x';
    assert text[1..][0] == 'x';
    assert DigitCount(text[1..]) == 0 && DigitCount(text) == 1;
    assert SkipSpace(text) == text;
    assert ReadNumber(text) == Read(Number(text[..1]), text[1..]) by {
      assert text[..1] == "0" && Numerals.Value("0", 10) == 0;
    }
    assert FromStr(text) == Malformed;
    assert text[2..] == HexEncode(d);
    HexRoundTrip(d);
  }

  /** `to_rlp` of any JSON text of a value encodes the item that mirrors the value. */
  lemma ToRlpOfJson(text: string, v: Value, x: Item)
    requires IsText(text, v) && Mirrors(v, x) && Encode(x).Some?
    ensures ToRlp(text) == Done("0x" + HexEncode(Encode(x).value))
  {
    hide FromStr, IsText, Mirrors, Encode;
    FromStrExactly(text, v);
    ConversionMirrors(v, x);
  }

  /** ... so null, however surrounded, is the empty byte string. */
  lemma NullToRlp(lead: string, tail: string)
    requires Blank(lead) && Blank(tail)
    ensures ToRlp(lead + "null" + tail) == Done("0x80")
  {
    hide ToRlp, IsText, Encode;
    SurroundedText(lead, "null", tail, Null);
    ShortData([], [0x80]);
    ToRlpOfJson(lead + "null" + tail, Null, Data([]));
    HexOfByte(0x80, '8', '0', []);
    assert "0x" + HexEncode([0x80]) == "0x80";
  }

  lemma HexOfByte(b: byte, hi: char, lo: char, rest: seq<byte>)
    requires hi == "0123456789abcdef"[b / 16] && lo == "0123456789abcdef"[b % 16]
    ensures HexEncode([b] + rest) == [hi, lo] + HexEncode(rest)
    ensures HexEncode([b]) == [hi, lo]
  {
    HexCharTable(b / 16);
    HexCharTable(b % 16);
    assert ([b] + rest)[1..] == rest && [b][1..] == [];
  }

  /** Examples the commands' documentation gives, for every decoder that reads all encodings. */
  lemma DocumentedExamples(decode: Decoder)
    requires ReadsEncodings(decode)
    ensures FromRlp(decode, "0xc0") == Done("[]") && ToRlp("[]") == Done("0xc0")
    ensures FromRlp(decode, "0x0f") == Done("\"0x0f\"") && FromRlp(decode, "0x33") == Done("\"0x33\"")
    ensures FromRlp(decode, "0xc161") == Done("[\"0x61\"]") && ToRlp("[\"0x61\"]") == Done("0xc161")
    ensures ToRlp("0x22") == Done("0x22")
    ensures FromRlp(decode, "0xc26162") == Done("[\"0x61\",\"0x62\"]")
    ensures ToRlp("[\"0xf1\",\"f2\"]") == Done("0xc481f181f2")
  {
    hide FromRlp, ToRlp;
    EmptyListExample(decode);
    SmallByte(decode, 0x0f, '0', 'f');
    SmallByte(decode, 0x33, '3', '3');
    assert "0x" + ['0', 'f'] == "0x0f" && "0x" + ['3', '3'] == "0x33";
    assert "\"0x" + ['0', 'f'] + "\"" == "\"0x0f\"" && "\"0x" + ['3', '3'] + "\"" == "\"0x33\"";
    ByteExamples(decode);
    PairExample(decode);
    UnprefixedExample();
  }

  lemma SmallByte(decode: Decoder, b: byte, hi: char, lo: char)
    requires ReadsEncodings(decode) && b < 0x80
    requires hi == "0123456789abcdef"[b / 16] && lo == "0123456789abcdef"[b % 16]
    ensures FromRlp(decode, "0x" + [hi, lo]) == Done("\"0x" + [hi, lo] + "\"")
  {
    hide FromRlp, ToRlp, Encode;
    AppendixBData([b]);
    CanonicalTextRestored(decode, Data([b]));
    PrintedByte(b, hi, lo);
    HexOfByte(b, hi, lo, []);
  }

  lemma PairExample(decode: Decoder)
    requires ReadsEncodings(decode)
    ensures FromRlp(decode, "0xc26162") == Done("[\"0x61\",\"0x62\"]")
  {
    hide FromRlp, ToRlp, Encode, HexEncode, Print;
    var x, y := Data([0x61]), Data([0x62]);
    AppendixBData([0x61]);
    AppendixBData([0x62]);
    TwoItems(x, y, [0x61], [0x62], [0xc2, 0x61, 0x62]);
    CanonicalTextRestored(decode, Array([x, y]));
    ThreeBytes();
    PrintedPair(x, y);
    PrintedByte(0x61, '6', '1');
    PrintedByte(0x62, '6', '2');
    assert Print(x) == "\"0x61\"" && Print(y) == "\"0x62\"";
    assert "[" + "\"0x61\"" + "," + "\"0x62\"" + "]" == "[\"0x61\",\"0x62\"]";
  }

  lemma ThreeBytes()
    ensures "0x" + HexEncode([0xc2, 0x61, 0x62]) == "0xc26162"
  {
    hide HexEncode;
    HexOfByte(0x62, '6', '2', []);
    HexOfByte(0x61, '6', '1', [0x62]);
    HexOfByte(0xc2, 'c', '2', [0x61, 0x62]);
    assert [0xc2] + [0x61, 0x62] == [0xc2, 0x61, 0x62] && [0x61] + [0x62] == [0x61, 0x62];
  }

  lemma PrintedByte(b: byte, hi: char, lo: char)
    requires hi == "0123456789abcdef"[b / 16] && lo == "0123456789abcdef"[b % 16]
    ensures Print(Data([b])) == "\"0x" + [hi, lo] + "\""
  {
    HexOfByte(b, hi, lo, []);
  }

  lemma PrintedPair(x: Item, y: Item)
    ensures Print(Array([x, y])) == "[" + Print(x) + "," + Print(y) + "]"
  {
    assert [x, y][1..] == [y] && Join([y]) == Print(y);
    assert Join([x, y]) == Print(x) + "," + Print(y);
  }

  lemma UnprefixedExample()
    ensures ToRlp("[\"0xf1\",\"f2\"]") == Done("0xc481f181f2")
  {
    hide ToRlp, Encode, HexEncode, IsText, Mirrors, Lower, Strip;
    var v := List([Text("0xf1"), Text("f2")]);
    var x, y := Data([0xf1]), Data([0xf2]);
    PairIsText("0xf1", "f2");
    HighByte(0xf1, 'f', '1');
    HighByte(0xf2, 'f', '2');
    TwoItems(x, y, [0x81, 0xf1], [0x81, 0xf2], [0xc4, 0x81, 0xf1, 0x81, 0xf2]);
    assert "0x" + ['f', '1'] == "0xf1" && ['f', '2'] == "f2";
    PairMirrors("0xf1", "f2", x, y);
    assert "[\"" + "0xf1" + "\",\"" + "f2" + "\"]" == "[\"0xf1\",\"f2\"]";
    ToRlpOfJson("[\"0xf1\",\"f2\"]", v, Array([x, y]));
    FiveBytes();
  }

  lemma FiveBytes()
    ensures "0x" + HexEncode([0xc4, 0x81, 0xf1, 0x81, 0xf2]) == "0xc481f181f2"
  {
    hide HexEncode;
    HexOfByte(0xf2, 'f', '2', []);
    HexOfByte(0x81, '8', '1', [0xf2]);
    HexOfByte(0xf1, 'f', '1', [0x81, 0xf2]);
    HexOfByte(0x81, '8', '1', [0xf1, 0x81, 0xf2]);
    HexOfByte(0xc4, 'c', '4', [0x81, 0xf1, 0x81, 0xf2]);
    assert [0x81] + [0xf2] == [0x81, 0xf2] && [0xf1] + [0x81, 0xf2] == [0xf1, 0x81, 0xf2];
    assert [0x81] + [0xf1, 0x81, 0xf2] == [0x81, 0xf1, 0x81, 0xf2];
    assert [0xc4] + [0x81, 0xf1, 0x81, 0xf2] == [0xc4, 0x81, 0xf1, 0x81, 0xf2];
  }

  /** A byte from 0x80 on, and the text that spells it with or without prefix. */
  lemma HighByte(b: byte, hi: char, lo: char)
    requires b >= 0x80 && hi == "0123456789abcdef"[b / 16] && lo == "0123456789abcdef"[b % 16]
    ensures Encode(Data([b])) == Some([0x81, b])
    ensures Mirrors(Text([hi, lo]), Data([b])) && Mirrors(Text("0x" + [hi, lo]), Data([b]))
  {
    hide Encode;
    var d := [b];
    AppendixBData(d);
    var e := Encode(Data(d)).value;
    assert |d| == 1 && e[0] == 0x81 && e[1..] == d;
    assert e == [0x81, b];
    HexOfByte(b, hi, lo, []);
    assert Lower([hi, lo]) == [hi, lo];
    assert ("0x" + [hi, lo])[2..] == [hi, lo];
    assert "0x"[1] == 'x' && [hi, lo][1] != 'x';
  }

  lemma PairMirrors(s: string, t: string, x: Item, y: Item)
    requires Mirrors(Text(s), x) && Mirrors(Text(t), y)
    ensures Mirrors(List([Text(s), Text(t)]), Array([x, y]))
  {
    hide HexEncode, Lower, Strip;
  }

  lemma PairIsText(s: string, t: string)
    requires Plain(s) && Plain(t)
    ensures IsText("[\"" + s + "\",\"" + t + "\"]", List([Text(s), Text(t)]))
  {
    hide IsText, Plain, AreTexts;
    var v, w, a, b := Text(s), Text(t), "\"" + s + "\"", "\"" + t + "\"";
    SurroundedText("", a, "", v);
    SurroundedText("", b, "", w);
    OneText(b, w);
    JoinTexts(a, v, b, [w]);
    var inner, c := a + "," + b, "[\"" + s + "\",\"" + t + "\"]";
    assert [v] + [w] == [v, w];
    assert c == "[" + inner + "]" && c[1..|c| - 1] == inner;
    SurroundedText("", c, "", List([v, w]));
  }

  lemma EmptyListExample(decode: Decoder)
    requires ReadsEncodings(decode)
    ensures FromRlp(decode, "0xc0") == Done("[]") && ToRlp("[]") == Done("0xc0")
  {
    hide FromRlp, ToRlp, Encode;
    TestVectors();
    CanonicalTextRestored(decode, Array([]));
    HexOfByte(0xc0, 'c', '0', []);
    assert "0x" + HexEncode([0xc0]) == "0xc0";
    assert Print(Array([])) == "[]" by { assert Join([]) == ""; }
  }

  lemma ByteExamples(decode: Decoder)
    requires ReadsEncodings(decode)
    ensures FromRlp(decode, "0xc161") == Done("[\"0x61\"]") && ToRlp("[\"0x61\"]") == Done("0xc161")
    ensures ToRlp("0x22") == Done("0x22")
  {
    hide FromRlp, ToRlp, Encode, HexChar, HexEncode;
    AppendixBData([0x22]);
    AppendixBData([0x61]);
    OneItem(Data([0x61]), [0x61], [0xc1, 0x61]);
    HexOfByte(0x22, '2', '2', []);
    HexOfByte(0x61, '6', '1', []);
    HexOfByte(0xc1, 'c', '1', [0x61]);
    assert [0xc1] + [0x61] == [0xc1, 0x61];
    CanonicalTextRestored(decode, Array([Data([0x61])]));
    assert "0x" + HexEncode([0xc1, 0x61]) == "0xc161";
    assert Print(Data([0x61])) == "\"0x61\"" && Join([Data([0x61])]) == "\"0x61\"";
    assert Print(Array([Data([0x61])])) == "[\"0x61\"]";
    BareHexIsData([0x22]);
    assert "0x" + HexEncode([0x22]) == "0x22";
  }
}
