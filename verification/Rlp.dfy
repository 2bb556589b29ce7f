/**
  RLP items: the encoder and decoder that `cast` attaches to its nested `Item`
  type. The byte layer (headers and length prefixes) follows Appendix B of the
  Ethereum Yellow Paper, which leaves payloads of 2^64 bytes or more without an
  encoding; that case is the `None` of `Encode`.
 */
module Rlp {
  import opened Prelude

  datatype Item = Data(data: seq<byte>) | Array(items: seq<Item>)

  const LIMIT: nat := 0x1_0000_0000_0000_0000
  const STRING: byte := 0x80
  const LIST: byte := 0xc0

  // ---- Big-endian lengths ----

  function BigEndian(n: nat): seq<byte> {
    if n == 0 then [] else BigEndian(n / 256) + [n % 256]
  }

  function FromBigEndian(s: seq<byte>): nat {
    if s == [] then 0 else FromBigEndian(s[..|s| - 1]) * 256 + s[|s| - 1]
  }

  lemma {:induction false} BigEndianValue(n: nat)
    ensures FromBigEndian(BigEndian(n)) == n
    ensures n > 0 ==> BigEndian(n) != [] && BigEndian(n)[0] != 0
  {
    if n > 0 {
      BigEndianValue(n / 256);
      assert BigEndian(n)[..|BigEndian(n)| - 1] == BigEndian(n / 256);
    }
  }

  lemma {:induction false} BigEndianLength(n: nat, k: nat)
    requires n < Pow(256, k)
    ensures |BigEndian(n)| <= k
  {
    if n > 0 {
      DivBelowExactly(n, 256, Pow(256, k - 1));
      BigEndianLength(n / 256, k - 1);
    }
  }

  /** A length without a leading zero is the shortest one for its value. */
  lemma {:induction false} BigEndianUnique(s: seq<byte>)
    requires s != [] ==> s[0] != 0
    ensures BigEndian(FromBigEndian(s)) == s
    ensures s != [] ==> FromBigEndian(s) > 0
    ensures FromBigEndian(s) < Pow(256, |s|)
  {
    if s != [] {
      var front, last := s[..|s| - 1], s[|s| - 1];
      BigEndianUnique(front);
      var n := FromBigEndian(s);
      assert n / 256 == FromBigEndian(front) && n % 256 == last;
      assert front + [last] == s;
    }
  }

  lemma LimitIsEightBytes()
    ensures Pow(256, 8) == LIMIT
  {
    assert Pow(256, 2) == 0x1_0000;
    PowAdd(256, 2, 2);
    PowAdd(256, 4, 4);
  }

  /** What the length prefix of an encodable payload needs to know about n. */
  lemma LengthBytes(n: nat)
    requires 0 < n < LIMIT
    ensures 0 < |BigEndian(n)| <= 8
    ensures BigEndian(n)[0] != 0
    ensures FromBigEndian(BigEndian(n)) == n
  {
    LimitIsEightBytes();
    BigEndianLength(n, 8);
    BigEndianValue(n);
  }

  // ---- Encoding ----

  function Header(offset: byte, n: nat): Option<seq<byte>>
    requires offset in {STRING, LIST}
  {
    if n < 56 then
      Some([offset + n])
    else if n < LIMIT then
      LengthBytes(n);
      Some([offset + 55 + |BigEndian(n)|] + BigEndian(n))
    else
      None
  }

  function Encode(item: Item): Option<seq<byte>> {
    match item
    case Data(d) =>
      if |d| == 1 && d[0] < 0x80 then Some(d)
      else var h :- Header(STRING, |d|); Some(h + d)
    case Array(xs) =>
      var payload :- EncodeAll(xs);
      var h :- Header(LIST, |payload|);
      Some(h + payload)
  }

  function EncodeAll(xs: seq<Item>): Option<seq<byte>> {
    if xs == [] then Some([])
    else
      var first :- Encode(xs[0]);
      var rest :- EncodeAll(xs[1..]);
      Some(first + rest)
  }

  // ---- Decoding ----

  datatype Head = Head(header: nat, payload: nat)

  /** Reads a length prefix; a length that has a shorter form is refused. */
  function ReadLength(b: seq<byte>, offset: byte): Option<Head>
    requires offset in {STRING, LIST}
    requires b != [] && offset <= b[0] < offset + 64
  {
    var k := b[0] - offset;
    if k < 56 then
      Some(Head(1, k))
    else
      var m := k - 55;
      if |b| < 1 + m || b[1] == 0 then None
      else
        var n := FromBigEndian(b[1..1 + m]);
        if n < 56 then None else Some(Head(1 + m, n))
  }

  function Decode(b: seq<byte>): (r: Option<(Item, nat)>)
    ensures r.Some? ==> 0 < r.value.1 <= |b|
    decreases |b|, 0
  {
    if b == [] then None
    else if b[0] < STRING then Some((Data([b[0]]), 1))
    else if b[0] < LIST then
      var h :- ReadLength(b, STRING);
      var end := h.header + h.payload;
      if end > |b| || (h.payload == 1 && b[1] < 0x80) then None
      else Some((Data(b[h.header..end]), end))
    else
      var h :- ReadLength(b, LIST);
      var end := h.header + h.payload;
      if end > |b| then None
      else
        var xs :- DecodeAll(b[h.header..end]);
        Some((Array(xs), end))
  }

  function DecodeAll(b: seq<byte>): Option<seq<Item>>
    decreases |b|, 1
  {
    if b == [] then Some([])
    else
      var (x, n) :- Decode(b);
      var xs :- DecodeAll(b[n..]);
      Some([x] + xs)
  }

  // ---- Every encoding is read back, and nothing else is ----

  lemma HeaderRead(offset: byte, n: nat, rest: seq<byte>)
    requires offset in {STRING, LIST}
    requires Header(offset, n).Some?
    ensures var h := Header(offset, n).value;
            && h != [] && offset <= h[0] < offset + 64
            && ReadLength(h + rest, offset) == Some(Head(|h|, n))
  {
    var h := Header(offset, n).value;
    if n >= 56 {
      LengthBytes(n);
      assert (h + rest)[1..1 + |BigEndian(n)|] == BigEndian(n);
    }
  }

  lemma {:induction false} EncodeNonEmpty(item: Item)
    requires Encode(item).Some?
    ensures Encode(item).value != []
  {
    match item
    case Data(d) =>
      if !(|d| == 1 && d[0] < 0x80) {
        HeaderRead(STRING, |d|, []);
      }
    case Array(xs) =>
      HeaderRead(LIST, |EncodeAll(xs).value|, []);
  }

  lemma DecodeEncodeData(d: seq<byte>, rest: seq<byte>)
    requires Encode(Data(d)).Some?
    ensures var e := Encode(Data(d)).value; Decode(e + rest) == Some((Data(d), |e|))
  {
    hide ReadLength;
    var e := Encode(Data(d)).value;
    if |d| == 1 && d[0] < 0x80 {
      assert (e + rest)[0] == d[0] && [d[0]] == d;
    } else {
      var h := Header(STRING, |d|).value;
      HeaderRead(STRING, |d|, d + rest);
      assert h + (d + rest) == e + rest;
      assert (e + rest)[|h|..|e|] == d;
    }
  }

  /** Decoding an encoding followed by anything yields the item and its length. */
  lemma {:induction false} DecodeEncode(item: Item, rest: seq<byte>)
    requires Encode(item).Some?
    ensures Decode(Encode(item).value + rest) == Some((item, |Encode(item).value|))
    decreases item, 0
  {
    hide ReadLength, Header;
    var e := Encode(item).value;
    match item
    case Data(d) =>
      DecodeEncodeData(d, rest);
    case Array(xs) =>
      var p := EncodeAll(xs).value;
      var h := Header(LIST, |p|).value;
      HeaderRead(LIST, |p|, p + rest);
      assert h + (p + rest) == e + rest;
      assert (e + rest)[|h|..|e|] == p;
      DecodeEncodeAll(xs);
  }

  lemma {:induction false} DecodeEncodeAll(xs: seq<Item>)
    requires EncodeAll(xs).Some?
    ensures DecodeAll(EncodeAll(xs).value) == Some(xs)
    decreases xs, 1
  {
    if xs != [] {
      var first, rest := Encode(xs[0]).value, EncodeAll(xs[1..]).value;
      EncodeNonEmpty(xs[0]);
      DecodeEncode(xs[0], rest);
      DecodeEncodeAll(xs[1..]);
      assert (first + rest)[|first|..] == rest;
      assert [xs[0]] + xs[1..] == xs;
    }
  }

  lemma ReadLengthHeader(b: seq<byte>, offset: byte)
    requires offset in {STRING, LIST}
    requires b != [] && offset <= b[0] < offset + 64
    requires ReadLength(b, offset).Some?
    ensures var h := ReadLength(b, offset).value;
            && h.header <= |b| && Header(offset, h.payload) == Some(b[..h.header])
            && 0 < h.header && (h.payload < 56 ==> h.header == 1)
  {
    var k := b[0] - offset;
    if k >= 56 {
      var m := k - 55;
      var s := b[1..1 + m];
      BigEndianUnique(s);
      PowGrows(256, m, 8);
      LimitIsEightBytes();
      assert b[..1 + m] == [b[0]] + s;
    } else {
      assert b[..1] == [offset + k];
    }
  }

  lemma EncodeDecodeData(b: seq<byte>)
    requires b != [] && STRING <= b[0] < LIST
    requires Decode(b).Some?
    ensures Encode(Decode(b).value.0) == Some(b[..Decode(b).value.1])
  {
    hide ReadLength, Header;
    ReadLengthHeader(b, STRING);
    var h := ReadLength(b, STRING).value;
    var n := h.header + h.payload;
    var d := b[h.header..n];
    assert Decode(b).value == (Data(d), n);
    assert b[..h.header] + d == b[..n];
    if |d| == 1 {
      assert d[0] == b[1];
    }
  }

  lemma EncodeDecodeByte(b: seq<byte>)
    requires Decode(b).Some?
    ensures b != []
    ensures b[0] < STRING ==> Encode(Decode(b).value.0) == Some(b[..Decode(b).value.1])
  {
    hide DecodeAll, ReadLength;
    assert b[..1] == [b[0]];
  }

  lemma DecodeListSplit(b: seq<byte>) returns (h: Head, payload: seq<byte>)
    requires b != [] && b[0] >= LIST && Decode(b).Some?
    ensures ReadLength(b, LIST) == Some(h) && h.header + h.payload <= |b|
    ensures payload == b[h.header..h.header + h.payload] && DecodeAll(payload).Some?
    ensures Decode(b) == Some((Array(DecodeAll(payload).value), h.header + h.payload))
  {
    hide ReadLength, DecodeAll;
    h := ReadLength(b, LIST).value;
    payload := b[h.header..h.header + h.payload];
  }

  lemma EncodeList(xs: seq<Item>, header: seq<byte>, payload: seq<byte>)
    requires EncodeAll(xs) == Some(payload) && Header(LIST, |payload|) == Some(header)
    ensures Encode(Array(xs)) == Some(header + payload)
  {
  }

  /** Whatever the decoder accepts is the encoding of the item it returns. */
  lemma {:induction false} EncodeDecode(b: seq<byte>)
    requires Decode(b).Some?
    ensures Encode(Decode(b).value.0) == Some(b[..Decode(b).value.1])
    decreases |b|, 0
  {
    hide Decode, DecodeAll, Encode, EncodeAll, ReadLength, Header;
    EncodeDecodeByte(b);
    if STRING <= b[0] < LIST {
      EncodeDecodeData(b);
    } else if LIST <= b[0] {
      var h, payload := DecodeListSplit(b);
      ReadLengthHeader(b, LIST);
      EncodeDecodeAll(payload);
      EncodeList(DecodeAll(payload).value, b[..h.header], payload);
      assert b[..h.header] + payload == b[..h.header + h.payload];
    }
  }

  lemma EncodeAllCons(x: Item, xs: seq<Item>)
    requires Encode(x).Some? && EncodeAll(xs).Some?
    ensures EncodeAll([x] + xs) == Some(Encode(x).value + EncodeAll(xs).value)
  {
    assert ([x] + xs)[1..] == xs;
  }

  lemma NoItems()
    ensures DecodeAll([]) == Some([]) && EncodeAll([]) == Some([])
  {
  }

  lemma DecodeAllSplit(b: seq<byte>) returns (x: Item, n: nat, xs: seq<Item>)
    requires b != [] && DecodeAll(b).Some?
    ensures Decode(b) == Some((x, n)) && 0 < n <= |b|
    ensures DecodeAll(b[n..]) == Some(xs) && DecodeAll(b).value == [x] + xs
  {
    hide Decode;
    n := Decode(b).value.1;
    x, xs := Decode(b).value.0, DecodeAll(b[n..]).value;
  }

  lemma {:induction false} EncodeDecodeAll(b: seq<byte>)
    requires DecodeAll(b).Some?
    ensures EncodeAll(DecodeAll(b).value) == Some(b)
    decreases |b|, 1
  {
    hide Decode, DecodeAll, Encode, EncodeAll;
    if b == [] {
      NoItems();
    } else {
      var x, n, xs := DecodeAllSplit(b);
      EncodeDecode(b);
      EncodeDecodeAll(b[n..]);
      EncodeAllCons(x, xs);
      assert b[..n] + b[n..] == b;
    }
  }

  /** The decoder accepts exactly the inputs that begin with an encoding. */
  lemma DecodeExact(b: seq<byte>, item: Item, n: nat)
    ensures Decode(b) == Some((item, n)) <==> n <= |b| && Encode(item) == Some(b[..n])
  {
    hide Encode, Decode;
    if Decode(b) == Some((item, n)) {
      EncodeDecode(b);
    }
    if n <= |b| && Encode(item) == Some(b[..n]) {
      DecodeEncode(item, b[n..]);
      assert b[..n] + b[n..] == b;
    }
  }

  // ---- Other decoders ----

  type Decoder = seq<byte> -> Option<(Item, nat)>

  /** What the standard asks of a decoder; it may accept further inputs. */
  ghost predicate ReadsEncodings(decode: Decoder) {
    forall item, rest :: Encode(item).Some? ==> ReadsBack(decode, item, rest)
  }

  ghost predicate ReadsBack(decode: Decoder, item: Item, rest: seq<byte>)
    requires Encode(item).Some?
  {
    decode(Encode(item).value + rest) == Some((item, |Encode(item).value|))
  }

  lemma DecodeReadsEncodings()
    ensures ReadsEncodings(Decode)
  {
    forall item, rest | Encode(item).Some?
      ensures ReadsBack(Decode, item, rest)
    {
      DecodeEncode(item, rest);
    }
  }

  /**
    Any decoder that reads all encodings agrees with the strict one wherever that
    answers, and beyond that returns only items whose encoding is not what it read.
   */
  lemma StrictIsLeast(decode: Decoder, b: seq<byte>)
    requires ReadsEncodings(decode)
    ensures Decode(b).Some? ==> decode(b) == Decode(b)
    ensures Decode(b).None? && decode(b).Some? ==>
              var (item, n) := decode(b).value; n <= |b| ==> Encode(item) != Some(b[..n])
  {
    hide Decode, Encode;
    if Decode(b).Some? {
      var (item, n) := Decode(b).value;
      EncodeDecode(b);
      assert ReadsBack(decode, item, b[n..]);
      assert b[..n] + b[n..] == b;
    } else if decode(b).Some? {
      var (item, n) := decode(b).value;
      DecodeExact(b, item, n);
    }
  }

  /** No encoding is a proper prefix of another, and no two items share one. */
  lemma EncodePrefixFree(x: Item, y: Item)
    requires Encode(x).Some? && Encode(y).Some?
    requires Encode(x).value <= Encode(y).value
    ensures x == y
  {
    var ex, ey := Encode(x).value, Encode(y).value;
    DecodeEncode(x, ey[|ex|..]);
    DecodeEncode(y, []);
    assert ex + ey[|ex|..] == ey == ey + [];
  }

  /** A list payload splits into item encodings in only one way. */
  lemma PayloadSplitsOnce(xs: seq<Item>, ys: seq<Item>)
    requires EncodeAll(xs).Some? && EncodeAll(xs) == EncodeAll(ys)
    ensures xs == ys
  {
    DecodeEncodeAll(xs);
    DecodeEncodeAll(ys);
  }

  // ---- The bytes of Appendix B ----

  /** The value of length bytes, most significant first. */
  function WeightedSum(s: seq<byte>): nat {
    if s == [] then 0 else s[0] * Pow(256, |s| - 1) + WeightedSum(s[1..])
  }

  function Flatten(parts: seq<seq<byte>>): seq<byte> {
    if parts == [] then [] else parts[0] + Flatten(parts[1..])
  }

  /**
    A payload of up to 55 bytes follows one byte holding `short` plus its length;
    a longer one follows its length in as many bytes as the first byte exceeds
    `long` by, without a leading zero.
   */
  ghost predicate Framed(e: seq<byte>, short: nat, long: nat, payload: seq<byte>) {
    if |payload| <= 55 then
      && |e| == 1 + |payload|
      && e[0] == short + |payload| && e[1..] == payload
    else
      && e != [] && long < e[0] <= long + 8 && |e| == 1 + (e[0] - long) + |payload|
      && e[1] != 0 && WeightedSum(e[1..1 + (e[0] - long)]) == |payload|
      && e[1 + (e[0] - long)..] == payload
  }

  lemma {:induction false} WeightedSumSnoc(s: seq<byte>, x: byte)
    ensures WeightedSum(s + [x]) == WeightedSum(s) * 256 + x
  {
    if s == [] {
      assert s + [x] == [x] && [x][1..] == [];
      assert Pow(256, 0) == 1;
    } else {
      WeightedSumSnoc(s[1..], x);
      assert (s + [x])[1..] == s[1..] + [x];
      assert Pow(256, |s|) == 256 * Pow(256, |s| - 1);
      Rescale(s[0], Pow(256, |s| - 1), WeightedSum(s[1..]), x);
    }
  }

  lemma Rescale(d: int, p: int, w: int, x: int)
    ensures d * (256 * p) + (w * 256 + x) == (d * p + w) * 256 + x
  {
  }

  lemma {:induction false} BigEndianSum(n: nat)
    ensures WeightedSum(BigEndian(n)) == n
  {
    if n > 0 {
      BigEndianSum(n / 256);
      WeightedSumSnoc(BigEndian(n / 256), n % 256);
    }
  }

  lemma HeaderFrames(payload: seq<byte>)
    requires |payload| < LIMIT
    ensures Header(STRING, |payload|).Some? && Header(LIST, |payload|).Some?
    ensures Framed(Header(STRING, |payload|).value + payload, 0x80, 0xb7, payload)
    ensures Framed(Header(LIST, |payload|).value + payload, 0xc0, 0xf7, payload)
  {
    var n := |payload|;
    if n > 55 {
      LengthBytes(n);
      BigEndianSum(n);
      hide BigEndian, WeightedSum;
      var k := BigEndian(n);
      var e, f := Header(STRING, n).value + payload, Header(LIST, n).value + payload;
      assert e[1..1 + |k|] == k && f[1..1 + |k|] == k;
      assert e[1 + |k|..] == payload && f[1 + |k|..] == payload;
    }
  }

  /** What the standard says of a byte string. */
  lemma AppendixBData(d: seq<byte>)
    ensures Encode(Data(d)).Some? <==> |d| < 0x1_0000_0000_0000_0000
    ensures |d| == 1 && d[0] < 0x80 ==> Encode(Data(d)) == Some(d)
    ensures Encode(Data(d)).Some? && !(|d| == 1 && d[0] < 0x80) ==>
              Framed(Encode(Data(d)).value, 0x80, 0xb7, d)
  {
    if |d| < LIMIT {
      hide Framed;
      HeaderFrames(d);
    }
  }

  ghost predicate EncodesTo(xs: seq<Item>, parts: seq<seq<byte>>) {
    |parts| == |xs| && forall k :: 0 <= k < |xs| ==> Encode(xs[k]) == Some(parts[k])
  }

  lemma {:induction false} PayloadIsFlat(xs: seq<Item>, parts: seq<seq<byte>>)
    requires EncodesTo(xs, parts)
    ensures EncodeAll(xs) == Some(Flatten(parts))
  {
    if xs != [] {
      hide Encode;
      PayloadIsFlat(xs[1..], parts[1..]);
    }
  }

  /** What the standard says of a list whose elements have these encodings. */
  lemma AppendixBList(xs: seq<Item>, parts: seq<seq<byte>>)
    requires EncodesTo(xs, parts)
    ensures Encode(Array(xs)).Some? <==> |Flatten(parts)| < 0x1_0000_0000_0000_0000
    ensures Encode(Array(xs)).Some? ==> Framed(Encode(Array(xs)).value, 0xc0, 0xf7, Flatten(parts))
  {
    PayloadIsFlat(xs, parts);
    if |Flatten(parts)| < LIMIT {
      hide Framed;
      HeaderFrames(Flatten(parts));
    }
  }

  /** An element without an encoding leaves its list without one. */
  lemma {:induction false} NoPartialList(xs: seq<Item>, k: nat)
    requires k < |xs| && Encode(xs[k]).None?
    ensures EncodeAll(xs).None? && Encode(Array(xs)).None?
  {
    if k > 0 {
      NoPartialList(xs[1..], k - 1);
    }
  }

  /** Lists of up to 55 payload bytes, ready to be evaluated. */
  lemma ShortList(xs: seq<Item>, parts: seq<seq<byte>>)
    requires EncodesTo(xs, parts) && |Flatten(parts)| <= 55
    ensures Encode(Array(xs)) == Some([0xc0 + |Flatten(parts)|] + Flatten(parts))
  {
    AppendixBList(xs, parts);
    var e := Encode(Array(xs)).value;
    assert e == [e[0]] + e[1..];
  }

  lemma ShortData(d: seq<byte>, e: seq<byte>)
    requires |d| <= 55 && |d| != 1 && e == [0x80 + |d|] + d
    ensures Encode(Data(d)) == Some(e)
  {
    AppendixBData(d);
    var f := Encode(Data(d)).value;
    assert f == [f[0]] + f[1..];
  }

  lemma OneItem(x: Item, a: seq<byte>, e: seq<byte>)
    requires Encode(x) == Some(a) && |a| <= 55 && e == [0xc0 + |a|] + a
    ensures Encode(Array([x])) == Some(e)
  {
    hide Encode;
    assert Flatten([a]) == a + Flatten([]) == a;
    ShortList([x], [a]);
  }

  lemma TwoItems(x: Item, y: Item, a: seq<byte>, b: seq<byte>, e: seq<byte>)
    requires Encode(x) == Some(a) && Encode(y) == Some(b)
    requires |a + b| <= 55 && e == [0xc0 + |a + b|] + (a + b)
    ensures Encode(Array([x, y])) == Some(e)
  {
    hide Encode;
    assert [a, b][1..] == [b] && [b][1..] == [];
    assert Flatten([b]) == b + Flatten([]) == b;
    assert Flatten([a, b]) == a + b;
    ShortList([x, y], [a, b]);
  }

  lemma ThreeItems(x: Item, y: Item, z: Item, a: seq<byte>, b: seq<byte>, c: seq<byte>, e: seq<byte>)
    requires Encode(x) == Some(a) && Encode(y) == Some(b) && Encode(z) == Some(c)
    requires |a + (b + c)| <= 55 && e == [0xc0 + |a + (b + c)|] + (a + (b + c))
    ensures Encode(Array([x, y, z])) == Some(e)
  {
    hide Encode;
    assert [a, b, c][1..] == [b, c] && [b, c][1..] == [c] && [c][1..] == [];
    assert Flatten([c]) == c + Flatten([]) == c;
    assert Flatten([b, c]) == b + c;
    assert Flatten([a, b, c]) == a + (b + c);
    ShortList([x, y, z], [a, b, c]);
  }

  /** The seven items whose bytes the repository's own tests fix. */
  lemma TestVectors()
    ensures var dog, cat := Data([0x64, 0x6f, 0x67]), Data([0x63, 0x61, 0x74]);
            var zero := Array([]);
            var one := Array([zero]);
            && Encode(zero) == Some([0xc0])
            && Encode(Array([Data([])])) == Some([0xc1, 0x80])
            && Encode(Array([dog])) == Some([0xc4, 0x83, 0x64, 0x6f, 0x67])
            && Encode(Array([Array([dog])])) == Some([0xc5, 0xc4, 0x83, 0x64, 0x6f, 0x67])
            && Encode(Array([dog, cat])) == Some([0xc8, 0x83, 0x64, 0x6f, 0x67, 0x83, 0x63, 0x61, 0x74])
            && Encode(Array([zero, one, Array([zero, one])]))
               == Some([0xc7, 0xc0, 0xc1, 0xc0, 0xc3, 0xc0, 0xc1, 0xc0])
            && Encode(Array([Data([0x6c, 0x6f, 0x6c]), Array([Array([one])]), Array([Data([0x6f, 0x6c, 0x6f])])]))
               == Some([0xcd, 0x83, 0x6c, 0x6f, 0x6c, 0xc3, 0xc2, 0xc1, 0xc0, 0xc4, 0x83, 0x6f, 0x6c, 0x6f])
  {
    hide Encode;
    NestedVectors();
    var dog, cat := Data([0x64, 0x6f, 0x67]), Data([0x63, 0x61, 0x74]);
    ShortData([], [0x80]);
    OneItem(Data([]), [0x80], [0xc1, 0x80]);
    ShortData(dog.data, [0x83, 0x64, 0x6f, 0x67]);
    ShortData(cat.data, [0x83, 0x63, 0x61, 0x74]);
    OneItem(dog, [0x83, 0x64, 0x6f, 0x67], [0xc4, 0x83, 0x64, 0x6f, 0x67]);
    OneItem(Array([dog]), [0xc4, 0x83, 0x64, 0x6f, 0x67], [0xc5, 0xc4, 0x83, 0x64, 0x6f, 0x67]);
    TwoItems(dog, cat, [0x83, 0x64, 0x6f, 0x67], [0x83, 0x63, 0x61, 0x74],
             [0xc8, 0x83, 0x64, 0x6f, 0x67, 0x83, 0x63, 0x61, 0x74]);
  }

  lemma NestedVectors()
    ensures var zero := Array([]);
            var one := Array([zero]);
            && Encode(zero) == Some([0xc0])
            && Encode(Array([zero, one, Array([zero, one])]))
               == Some([0xc7, 0xc0, 0xc1, 0xc0, 0xc3, 0xc0, 0xc1, 0xc0])
            && Encode(Array([Data([0x6c, 0x6f, 0x6c]), Array([Array([one])]), Array([Data([0x6f, 0x6c, 0x6f])])]))
               == Some([0xcd, 0x83, 0x6c, 0x6f, 0x6c, 0xc3, 0xc2, 0xc1, 0xc0, 0xc4, 0x83, 0x6f, 0x6c, 0x6f])
  {
    hide Encode;
    var zero := Array([]);
    var one := Array([zero]);
    ShortList([], []);
    assert Encode(zero) == Some([0xc0]) by { assert [0xc0] + [] == [0xc0]; }
    OneItem(zero, [0xc0], [0xc1, 0xc0]);
    TwoItems(zero, one, [0xc0], [0xc1, 0xc0], [0xc3, 0xc0, 0xc1, 0xc0]);
    ThreeItems(zero, one, Array([zero, one]), [0xc0], [0xc1, 0xc0], [0xc3, 0xc0, 0xc1, 0xc0],
               [0xc7, 0xc0, 0xc1, 0xc0, 0xc3, 0xc0, 0xc1, 0xc0]);
    OneItem(one, [0xc1, 0xc0], [0xc2, 0xc1, 0xc0]);
    OneItem(Array([one]), [0xc2, 0xc1, 0xc0], [0xc3, 0xc2, 0xc1, 0xc0]);
    var lol, olo := Data([0x6c, 0x6f, 0x6c]), Data([0x6f, 0x6c, 0x6f]);
    ShortData(lol.data, [0x83, 0x6c, 0x6f, 0x6c]);
    ShortData(olo.data, [0x83, 0x6f, 0x6c, 0x6f]);
    OneItem(olo, [0x83, 0x6f, 0x6c, 0x6f], [0xc4, 0x83, 0x6f, 0x6c, 0x6f]);
    ThreeItems(lol, Array([Array([one])]), Array([olo]),
               [0x83, 0x6c, 0x6f, 0x6c], [0xc3, 0xc2, 0xc1, 0xc0], [0xc4, 0x83, 0x6f, 0x6c, 0x6f],
               [0xcd, 0x83, 0x6c, 0x6f, 0x6c, 0xc3, 0xc2, 0xc1, 0xc0, 0xc4, 0x83, 0x6f, 0x6c, 0x6f]);
  }

  // ---- The stream form ----

  lemma {:induction false} EncodeAllSnoc(xs: seq<Item>, x: Item)
    ensures EncodeAll(xs + [x]) ==
            if EncodeAll(xs).Some? && Encode(x).Some?
            then Some(EncodeAll(xs).value + Encode(x).value) else None
  {
    if xs == [] {
      assert xs + [x] == [x] && [x][1..] == [];
      if Encode(x).Some? {
        assert Encode(x).value + [] == [] + Encode(x).value;
      }
    } else {
      EncodeAllSnoc(xs[1..], x);
      assert (xs + [x])[1..] == xs[1..] + [x];
      if EncodeAll(xs).Some? && Encode(x).Some? {
        var a, b, c := Encode(xs[0]).value, EncodeAll(xs[1..]).value, Encode(x).value;
        assert (a + b) + c == a + (b + c);
      }
    }
  }

  lemma {:induction false} EncodeAllPrefix(xs: seq<Item>, k: nat)
    requires k <= |xs| && EncodeAll(xs).Some?
    ensures EncodeAll(xs[..k]).Some?
    ensures forall i :: 0 <= i < |xs| ==> Encode(xs[i]).Some?
  {
    if xs != [] {
      if k > 0 {
        EncodeAllPrefix(xs[1..], k - 1);
        assert xs[..k][1..] == xs[1..][..k - 1];
      } else {
        EncodeAllPrefix(xs[1..], 0);
      }
      assert forall i :: 0 < i < |xs| ==> xs[i] == xs[1..][i - 1];
    }
  }

  /** The byte stream: output so far, and where each open list's payload starts. */
  class RlpStream {
    var out: seq<byte>
    var open: seq<nat>

    constructor ()
      ensures out == [] && open == []
    {
      out, open := [], [];
    }

    method BeginUnboundedList()
      modifies this
      ensures out == old(out) && open == old(open) + [|out|]
    {
      open := open + [|out|];
    }

    method AppendBytes(d: seq<byte>)
      requires Encode(Data(d)).Some?
      modifies this`out
      ensures out == old(out) + Encode(Data(d)).value
    {
      if |d| == 1 && d[0] < 0x80 {
        out := out + d;
      } else {
        out := out + (Header(STRING, |d|).value + d);
      }
    }

    /** Closes the innermost list by putting its header before its payload. */
    method FinalizeUnboundedList()
      requires open != [] && open[|open| - 1] <= |out|
      requires Header(LIST, |out| - open[|open| - 1]).Some?
      modifies this
      ensures var start := old(open[|open| - 1]);
              var payload := old(out)[start..];
              out == old(out)[..start] + (Header(LIST, |payload|).value + payload)
      ensures forall xs :: EncodeAll(xs) == Some(old(out)[old(open[|open| - 1])..]) ==>
                out == old(out)[..old(open[|open| - 1])] + Encode(Array(xs)).value
      ensures open == old(open[..|open| - 1])
    {
      var start := open[|open| - 1];
      var payload := out[start..];
      out := out[..start] + (Header(LIST, |payload|).value + payload);
      open := open[..|open| - 1];
    }

    /** `rlp_append`: writing an item appends exactly its encoding. */
    method Append(item: Item)
      requires Encode(item).Some?
      modifies this
      ensures out == old(out) + Encode(item).value
      ensures open == old(open)
      decreases item
    {
      hide Header;
      match item
      case Data(d) =>
        AppendBytes(d);
      case Array(xs) =>
        BeginUnboundedList();
        EncodeAllPrefix(xs, |xs|);
        for i := 0 to |xs|
          invariant open == old(open) + [|old(out)|]
          invariant EncodeAll(xs[..i]).Some?
          invariant out == old(out) + EncodeAll(xs[..i]).value
        {
          assert xs[..i + 1] == xs[..i] + [xs[i]];
          EncodeAllSnoc(xs[..i], xs[i]);
          Append(xs[i]);
        }
        assert xs[..|xs|] == xs;
        FinalizeUnboundedList();
    }
  }
}
