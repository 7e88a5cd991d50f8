/** Little-endian integers and encoded values (value_io.h). */
module KeyCodec {
  import opened Outcomes
  import opened Values
  import opened Nodes

  // ---- little-endian integers ----

  function Power(w: nat): (p: nat)
    ensures p > 0
  {
    if w == 0 then 1 else 256 * Power(w - 1)
  }

  /** The low w bytes of n, least significant first. */
  function LittleEndian(n: nat, w: nat): (b: seq<byte>)
    ensures |b| == w
    decreases w
  {
    if w == 0 then [] else [n % 256] + LittleEndian(n / 256, w - 1)
  }

  function Number(b: seq<byte>): (n: nat) {
    if b == [] then 0 else b[0] + 256 * Number(b[1..])
  }

  lemma {:induction false} NumberOfLittleEndian(n: nat, w: nat)
    ensures n < Power(w) ==> Number(LittleEndian(n, w)) == n
    decreases w
  {
    if w > 0 && n < Power(w) {
      NumberOfLittleEndian(n / 256, w - 1);
      assert LittleEndian(n, w)[1..] == LittleEndian(n / 256, w - 1);
    }
  }

  lemma {:induction false} LittleEndianOfNumber(b: seq<byte>)
    ensures Number(b) < Power(|b|) && LittleEndian(Number(b), |b|) == b
  {
    if b != [] {
      LittleEndianOfNumber(b[1..]);
      LowestByte(b[0], Number(b[1..]));
      assert b == [b[0]] + b[1..];
    }
  }

  lemma LowestByte(low: byte, rest: nat)
    ensures (low + 256 * rest) % 256 == low && (low + 256 * rest) / 256 == rest
  {
  }

  lemma Powers()
    ensures Power(1) == 0x100 && Power(2) == 0x1_0000 && Power(4) == 0x1_0000_0000
    ensures Power(8) == 0x1_0000_0000_0000_0000
  {
    assert Power(2) == 256 * Power(1);
    assert Power(3) == 256 * Power(2);
    assert Power(4) == 256 * Power(3);
    assert Power(5) == 256 * Power(4);
    assert Power(6) == 256 * Power(5);
    assert Power(7) == 256 * Power(6);
    assert Power(8) == 256 * Power(7);
  }

  /** Byte i of a number counts for 256 to the power of i. */
  lemma {:induction false} LittleEndianAt(n: nat, w: nat, i: nat)
    requires i < w
    ensures LittleEndian(n, w)[i] == n / Power(i) % 256
  {
    if i > 0 {
      LittleEndianAt(n / 256, w - 1, i - 1);
      DivideTwice(n, Power(i - 1));
    }
  }

  lemma DivideTwice(n: nat, b: nat)
    requires b > 0
    ensures n / (256 * b) == n / 256 / b
  {
    var h := n / 256;
    var m := n % 256 + 256 * (h % b);
    assert 256 * h == 256 * (b * (h / b)) + 256 * (h % b);
    Associate(256, b, h / b);
    assert n == 256 * b * (h / b) + m;
    Divided(n, 256 * b);
    SameQuotient(256 * b, h / b, m, n / (256 * b), n % (256 * b));
  }

  lemma Associate(a: int, b: int, c: int)
    ensures a * (b * c) == a * b * c
  {
  }

  lemma Divided(n: nat, d: nat)
    requires d > 0
    ensures n == d * (n / d) + n % d && 0 <= n % d < d
  {
  }

  lemma SameQuotient(d: nat, q: int, r: int, k: int, m: int)
    requires d * q + r == d * k + m && 0 <= r < d && 0 <= m < d
    ensures q == k
  {
    OneTimeMore(d, q);
    OneTimeMore(d, k);
    if q < k {
      TimesMonotone(d, q + 1, k);
    } else if k < q {
      TimesMonotone(d, k + 1, q);
    }
  }

  lemma TimesMonotone(d: nat, a: int, b: int)
    requires a <= b
    ensures d * a <= d * b
  {
  }

  lemma OneTimeMore(d: int, a: int)
    ensures d * (a + 1) == d * a + d
  {
  }

  /** The bytes from `at` on are the number, least significant first. */
  ghost predicate HasNumber(b: seq<byte>, at: nat, w: nat, n: nat) {
    at + w <= |b| && forall i: nat :: i < w ==> b[at + i] == n / Power(i) % 256
  }

  lemma NumberIsThere(a: seq<byte>, n: nat, w: nat, b: seq<byte>)
    ensures HasNumber(a + LittleEndian(n, w) + b, |a|, w, n)
  {
    hide LittleEndian, Power;
    forall i: nat | i < w
      ensures (a + LittleEndian(n, w) + b)[|a| + i] == n / Power(i) % 256
    {
      LittleEndianAt(n, w, i);
    }
  }

  /** Two's complement in 64 bits. */
  function ToUnsigned(x: int64): nat {
    if x < 0 then x + 0x1_0000_0000_0000_0000 else x
  }

  function ToSigned(n: nat): int64
    requires n < 0x1_0000_0000_0000_0000
  {
    if n >= 0x8000_0000_0000_0000 then n - 0x1_0000_0000_0000_0000 else n
  }

  function FromEight(b: seq<byte>): int64
    requires |b| == 8
  {
    LittleEndianOfNumber(b);
    Powers();
    ToSigned(Number(b))
  }

  lemma EightBytes(x: int64)
    ensures FromEight(LittleEndian(ToUnsigned(x), 8)) == x
  {
    Powers();
    NumberOfLittleEndian(ToUnsigned(x), 8);
  }

  // ---- encoded values ----

  /** The bytes of a value: a tag, then eight bytes of an integer, or four bytes
      of length and the text. */
  function Encoding(v: Value): (b: seq<byte>)
    ensures |b| == EncodedSize(v)
  {
    match v
    case Null => [0]
    case Int(i) => [1] + LittleEndian(ToUnsigned(i), 8)
    case Str(s) => [2] + LittleEndian(|s|, 4) + s
  }

  /** Where the bytes of an encoded value are: the tag first, the payload least
      significant byte first, the characters of a text behind its length. */
  lemma EncodingBytes(v: Value)
    ensures v.Null? ==> Encoding(v) == [0]
    ensures v.Int? ==>
              var n: nat := if v.i < 0 then v.i + 0x1_0000_0000_0000_0000 else v.i;
              |Encoding(v)| == 9 && Encoding(v)[0] == 1 && HasNumber(Encoding(v), 1, 8, n)
    ensures v.Str? ==>
              && |Encoding(v)| == 5 + |v.s| && Encoding(v)[0] == 2 && HasNumber(Encoding(v), 1, 4, |v.s|)
              && Encoding(v)[5..] == v.s
  {
    hide LittleEndian, Power, HasNumber;
    match v
    case Null =>
    case Int(x) =>
      NumberIsThere([1], ToUnsigned(x), 8, []);
      assert Encoding(v) == [1] + LittleEndian(ToUnsigned(x), 8) + [];
    case Str(s) =>
      NumberIsThere([2], |s|, 4, s);
  }

  /** `encode_value` appends to a buffer that must stay within 512 bytes. */
  function EncodeValue(out: seq<byte>, v: Value): (r: Result<seq<byte>>)
    ensures r.Ok? <==> |out| + EncodedSize(v) <= MAX_KEY_BYTES
    ensures r.Ok? ==> out <= r.value
  {
    if |out| + EncodedSize(v) > MAX_KEY_BYTES then Throw(BadKey) else Ok(out + Encoding(v))
  }

  datatype Decoded = Decoded(value: Value, consumed: nat)

  function DecodeValue(data: seq<byte>): (r: Result<Decoded>)
    ensures r.Ok? ==> r.value.consumed <= |data|
  {
    if |data| < 1 then Throw(BadFile)
    else if data[0] == 0 then Ok(Decoded(Null, 1))
    else if data[0] == 1 then
      if |data| < 9 then Throw(BadFile) else Ok(Decoded(Int(FromEight(data[1..9])), 9))
    else if data[0] == 2 then
      if |data| < 5 then Throw(BadFile)
      else
        var n := Number(data[1..5]);
        if |data| < 5 + n then Throw(BadFile) else Ok(Decoded(Str(data[5..5 + n]), 5 + n))
    else Throw(BadFile)
  }

  /** Decoding an encoded value gives it back, whatever bytes follow, and consumes
      exactly its bytes. */
  lemma DecodeEncoding(v: Value, rest: seq<byte>)
    requires v.Str? ==> |v.s| < 0x1_0000_0000
    ensures DecodeValue(Encoding(v) + rest) == Ok(Decoded(v, EncodedSize(v)))
  {
    var data := Encoding(v) + rest;
    match v
    case Null =>
    case Int(i) =>
      EightBytes(i);
      assert data[1..9] == LittleEndian(ToUnsigned(i), 8);
    case Str(s) =>
      Powers();
      NumberOfLittleEndian(|s|, 4);
      assert data[1..5] == LittleEndian(|s|, 4);
      assert data[5..5 + |s|] == s;
  }

  /** What decodes is an encoding: no two byte strings stand for one value. */
  lemma EncodingOfDecoded(data: seq<byte>)
    requires DecodeValue(data).Ok?
    ensures var d := DecodeValue(data).value;
            EncodedSize(d.value) == d.consumed && Encoding(d.value) == data[..d.consumed]
  {
    hide LittleEndian, Power, Number;
    if data[0] == 1 {
      var b := data[1..9];
      LittleEndianOfNumber(b);
      Powers();
      assert ToUnsigned(FromEight(b)) == Number(b);
      assert data[..9] == [data[0]] + b;
    } else if data[0] == 2 {
      var b := data[1..5];
      LittleEndianOfNumber(b);
      assert data[..5 + Number(b)] == [data[0]] + b + data[5..5 + Number(b)];
    }
  }

  /** `encode_value` then `decode_value`. */
  lemma KeyRoundTrip(v: Value, rest: seq<byte>)
    requires EncodeValue([], v).Ok?
    ensures DecodeValue(EncodeValue([], v).value + rest) == Ok(Decoded(v, |EncodeValue([], v).value|))
  {
    assert [] + Encoding(v) == Encoding(v);
    DecodeEncoding(v, rest);
  }

  /** `compare_encoded_keys`. */
  function CompareEncoded(a: seq<byte>, b: seq<byte>): Result<int> {
    var x :- DecodeValue(a);
    var y :- DecodeValue(b);
    Ok(Compare(x.value, y.value).sign)
  }

  /** Comparing encoded keys compares the keys; on keys of one type it is zero
      exactly for equal encodings. */
  lemma CompareEncodedIsCompare(a: Value, b: Value, t: DataType)
    requires EncodedSize(a) <= MAX_KEY_BYTES && EncodedSize(b) <= MAX_KEY_BYTES
    ensures CompareEncoded(Encoding(a), Encoding(b)) == Ok(Compare(a, b).sign)
    ensures a.IsKey(t) && b.IsKey(t) ==> (Compare(a, b).sign == 0 <==> Encoding(a) == Encoding(b))
  {
    DecodeEncoding(a, []);
    DecodeEncoding(b, []);
    assert Encoding(a) + [] == Encoding(a) && Encoding(b) + [] == Encoding(b);
    if a.IsKey(t) && b.IsKey(t) {
      CompareIsTotalOrder(a, b, t);
    }
  }
}
