/** Base 64 as section 4 of RFC 4648 defines it. */
module Base64Standard {
  import opened Common

  const PAD: Byte := 61

  /** The character of a six-bit value. */
  function Char(v: nat): (c: Byte)
    requires v < 64
    ensures c < 128 && c != PAD
  {
    if v < 26 then 65 + v else if v < 52 then 97 + (v - 26) else if v < 62 then 48 + (v - 52)
    else if v == 62 then 43 else 47
  }

  /** Twenty-four bits as four characters, the last ones replaced by padding when only `n`
      of the three bytes are there. */
  function Group(a: Byte, b: Byte, c: Byte, n: nat): (r: seq<Byte>)
    requires 1 <= n <= 3
    ensures |r| == 4
  {
    var bits: int := (a as int * 256 + b) * 256 + c;
    [Char(bits / 262144), Char(bits / 4096 % 64), if n >= 2 then Char(bits / 64 % 64) else PAD,
     if n == 3 then Char(bits % 64) else PAD]
  }

  /** The text of a byte string. */
  function Text(data: seq<Byte>): (r: seq<Byte>)
    ensures |r| == (|data| + 2) / 3 * 4
    ensures forall i :: 0 <= i < |r| ==> r[i] < 128
  {
    if |data| == 0 then []
    else if |data| == 1 then Group(data[0], 0, 0, 1)
    else if |data| == 2 then Group(data[0], data[1], 0, 2)
    else Group(data[0], data[1], data[2], 3) + Text(data[3..])
  }
}

/** The codec of src/utils/Base64.c. */
module Base64 {
  import opened Common
  import opened Base64Standard

  /** BASE64_ENCODE_TABLE; entry 64 is the padding character. */
  const UPPER := "ABCDEFGHIJKLMNOPQRSTUVWXYZ"
  const LOWER := "abcdefghijklmnopqrstuvwxyz"
  const OTHERS := "0123456789+/="
  const ENCODE_TABLE := UPPER + LOWER + OTHERS

  function EncodeTable(v: nat): Byte
    requires v <= 64
  {
    TableIsStandard(v);
    ENCODE_TABLE[v] as int
  }

  lemma UpperIsStandard(v: nat)
    requires v < 26
    ensures |UPPER| == 26 && UPPER[v] as int == 65 + v
  {
  }

  lemma LowerIsStandard(v: nat)
    requires v < 26
    ensures |LOWER| == 26 && LOWER[v] as int == 97 + v
  {
  }

  lemma OthersAreStandard(v: nat)
    requires v < 13
    ensures |OTHERS| == 13
    ensures OTHERS[v] as int == if v < 10 then 48 + v else if v == 10 then 43 else if v == 11 then 47 else 61
  {
  }

  /** The table is the alphabet of the standard, and its padding. */
  lemma TableIsStandard(v: nat)
    requires v <= 64
    ensures |ENCODE_TABLE| == 65 && ENCODE_TABLE[v] as int == if v == 64 then PAD else Char(v)
  {
    UpperIsStandard(if v < 26 then v else 0);
    LowerIsStandard(if 26 <= v < 52 then v - 26 else 0);
    OthersAreStandard(if v >= 52 then v - 52 else 0);
  }

  const NV := 64

  /** BASE64_DECODE_TABLE. */
  function DecodeTable(c: Byte): (v: nat)
    ensures v <= NV
  {
    if 65 <= c <= 90 then c - 65 else if 97 <= c <= 122 then c - 97 + 26 else if 48 <= c <= 57 then c - 48 + 52
    else if c == 43 then 62 else if c == 47 then 63 else NV
  }

  /** Bitwise or of the low k bits. */
  function OrBits(a: nat, b: nat, k: nat): (r: nat) {
    if k == 0 then 0 else (if a % 2 == 1 || b % 2 == 1 then 1 else 0) + 2 * OrBits(a / 2, b / 2, k - 1)
  }

  function Power2(k: nat): nat {
    if k == 0 then 1 else 2 * Power2(k - 1)
  }

  lemma {:induction false} OrBitsSize(a: nat, b: nat, k: nat)
    ensures OrBits(a, b, k) < Power2(k)
  {
    if k > 0 {
      OrBitsSize(a / 2, b / 2, k - 1);
    }
  }

  lemma Power2Of8()
    ensures Power2(8) == 256 && Power2(2) == 4 && Power2(4) == 16 && Power2(6) == 64
  {
    assert Power2(2) == 2 * Power2(1);
    assert Power2(4) == 2 * Power2(3) && Power2(6) == 2 * Power2(5) && Power2(8) == 2 * Power2(7);
  }

  function Or(a: Byte, b: Byte): Byte {
    OrBitsSize(a, b, 8);
    Power2Of8();
    OrBits(a, b, 8)
  }

  lemma {:induction false} OrWithZero(a: nat, k: nat)
    requires a < Power2(k)
    ensures OrBits(a, 0, k) == a
  {
    if k > 0 {
      OrWithZero(a / 2, k - 1);
    }
  }

  /** Bits that do not overlap are added. */
  lemma {:induction false} OrOfParts(x: nat, b: nat, j: nat, k: nat)
    requires b < Power2(j) && j <= k && x * Power2(j) < Power2(k)
    ensures OrBits(x * Power2(j), b, k) == x * Power2(j) + b
  {
    if j == 0 {
      OrWithZero(x, k);
    } else {
      var p := x * Power2(j - 1);
      assert x * Power2(j) == 2 * p;
      OrOfParts(x, b / 2, j - 1, k - 1);
    }
  }

  lemma OrLowTwo(x: nat, b: nat)
    requires x < 64 && b < 4
    ensures Or(x * 4, b) == x * 4 + b
  {
    Power2Of8();
    OrOfParts(x, b, 2, 8);
  }

  lemma OrLowFour(x: nat, b: nat)
    requires x < 16 && b < 16
    ensures Or(x * 16, b) == x * 16 + b
  {
    Power2Of8();
    OrOfParts(x, b, 4, 8);
  }

  lemma OrLowSix(x: nat, b: nat)
    requires x < 4 && b < 64
    ensures Or(x * 64, b) == x * 64 + b
  {
    Power2Of8();
    OrOfParts(x, b, 6, 8);
  }

  /** The four table indices Base64_encode computes for a group. */
  function Indices(a: Byte, b: Byte, c: Byte, n: nat): (r: seq<nat>)
    requires 1 <= n <= 3
  {
    [a / 4,
     if n >= 2 then Or(a % 4 * 16, b / 16) else a % 4 * 16,
     if n == 1 then 64 else if n == 2 then b % 16 * 4 else Or(b % 16 * 4, c / 64),
     if n == 3 then c % 64 else 64]
  }

  /** The six-bit groups of twenty-four bits. */
  lemma Sextets(a: int, b: int, c: int)
    requires 0 <= a < 256 && 0 <= b < 256 && 0 <= c < 256
    ensures var bits := (a * 256 + b) * 256 + c;
      && bits / 262144 == a / 4 && bits / 4096 % 64 == a % 4 * 16 + b / 16
      && bits / 64 % 64 == b % 16 * 4 + c / 64 && bits % 64 == c % 64
  {
    var p, q, r := a / 4, b / 16, c / 64;
    assert a == 4 * p + a % 4 && b == 16 * q + b % 16 && c == 64 * r + c % 64;
    SixBitDigits(p, a % 4 * 16 + q, b % 16 * 4 + r, c % 64);
    assert (a * 256 + b) * 256 + c == ((p * 64 + (a % 4 * 16 + q)) * 64 + (b % 16 * 4 + r)) * 64 + c % 64;
  }

  lemma IndicesAreSextets(a: Byte, b: Byte, c: Byte, n: nat)
    requires 1 <= n <= 3 && (n < 2 ==> b == 0) && (n < 3 ==> c == 0)
    ensures var r := Indices(a, b, c, n);
      && |r| == 4 && r[0] <= 64 && r[1] <= 64 && r[2] <= 64 && r[3] <= 64
      && [EncodeTable(r[0]), EncodeTable(r[1]), EncodeTable(r[2]), EncodeTable(r[3])] == Group(a, b, c, n)
  {
    hide Or, Char, EncodeTable;
    OrLowFour(a % 4, b / 16);
    OrLowTwo(b % 16, c / 64);
    Sextets(a, b, c);
    var r := Indices(a, b, c, n);
    CharOfTable(r[0]);
    CharOfTable(r[1]);
    CharOfTable(r[2]);
    CharOfTable(r[3]);
  }

  lemma CharOfTable(v: nat)
    requires v <= 64
    ensures EncodeTable(v) == if v == 64 then PAD else Char(v)
  {
    TableIsStandard(v);
  }

  /** The text of a non-empty byte string starts with the group of its first bytes. */
  lemma FirstGroup(data: seq<Byte>)
    requires data != []
    ensures var n := if |data| >= 3 then 3 else |data|;
      Text(data) == Group(data[0], if n >= 2 then data[1] else 0, if n == 3 then data[2] else 0, n) + Text(data[n..])
  {
    hide Group;
    if |data| < 3 {
      assert data[|data|..] == [];
    }
  }

  lemma NextGroup(data: seq<Byte>, at: nat, b: Byte, c: Byte, n: nat)
    requires at < |data| && n == (if |data| - at >= 3 then 3 else |data| - at)
    requires b == (if n >= 2 then data[at + 1] else 0) && c == (if n == 3 then data[at + 2] else 0)
    ensures Text(data[at..]) == Group(data[at], b, c, n) + Text(data[at + n..])
  {
    hide Group, Text;
    FirstGroup(data[at..]);
    assert data[at..][n..] == data[at + n..];
  }

  lemma TakeGroup(text: seq<Byte>, count: nat, group: seq<Byte>, rest: seq<Byte>)
    requires count <= |text| && text[count..] == group + rest
    ensures text[..count + |group|] == text[..count] + group && text[count + |group|..] == rest
  {
    assert text == text[..count] + (group + rest);
  }

  /** The characters of one group, written one by one. */
  method EncodeGroup(out: array<Byte>, at: nat, a: Byte, b: Byte, c: Byte, n: nat)
    requires at + 4 <= out.Length && 1 <= n <= 3 && (n < 2 ==> b == 0) && (n < 3 ==> c == 0)
    modifies out
    ensures out[at..at + 4] == Group(a, b, c, n)
    ensures out[..at] == old(out[..at])
  {
    hide Group, EncodeTable, Indices;
    IndicesAreSextets(a, b, c, n);
    var r := Indices(a, b, c, n);
    for i := 0 to 4
      invariant out[..at] == old(out[..at])
      invariant out[at..at + i] == [EncodeTable(r[0]), EncodeTable(r[1]), EncodeTable(r[2]), EncodeTable(r[3])][..i]
    {
      out[at + i] := EncodeTable(r[i]);
      assert out[at..at + i + 1] == out[at..at + i] + [EncodeTable(r[i])];
    }
  }

  /** Base64_encode. Given room, the text of the standard and a terminator behind it if there
      is more; otherwise 0, or what a room of whole groups holds. */
  method Encode(out: array<Byte>, data: seq<Byte>) returns (ret: nat)
    modifies out
    ensures var text := Text(data);
      && (|text| <= out.Length ==> ret == |text| && out[..|text|] == text)
      && (|text| < out.Length ==> out[|text|] == 0)
      && (|text| > out.Length ==> ret == if out.Length % 4 == 0 then out.Length else 0)
      && (|text| > out.Length && out.Length % 4 == 0 ==> out[..] == text[..out.Length])
  {
    hide Text, Group, Char, EncodeTable, Indices;
    ret := 0;
    var text := Text(data);
    var at, count := 0, 0;
    while at < |data| && count < out.Length
      invariant 0 <= at <= |data| && count % 4 == 0
      invariant count + |Text(data[at..])| == |text|
      invariant count <= out.Length ==> out[..count] == text[..count] && text[count..] == Text(data[at..])
      invariant count > out.Length ==> out.Length % 4 != 0
      decreases |data| - at
    {
      var n := if |data| - at >= 3 then 3 else |data| - at;
      var b := if n >= 2 then data[at + 1] else 0;
      var c := if n == 3 then data[at + 2] else 0;
      NextGroup(data, at, b, c, n);
      if count + 4 <= out.Length {
        ghost var before := out[..count];
        EncodeGroup(out, count, data[at], b, c, n);
        assert out[..count + 4] == before + Group(data[at], b, c, n);
        TakeGroup(text, count, Group(data[at], b, c, n), Text(data[at + n..]));
      }
      at := at + n;
      count := count + 4;
    }
    if count <= out.Length {
      if count < out.Length {
        out[count] := 0;
      }
      ret := count;
    }
  }

  // ----- decoding

  lemma TableInverse(v: nat)
    requires v < 64
    ensures DecodeTable(Char(v)) == v && DecodeTable(PAD) == NV
  {
  }

  /** What the table makes of the characters of a group. */
  lemma GroupValues(a: Byte, b: Byte, c: Byte, n: nat)
    requires 1 <= n <= 3 && (n < 2 ==> b == 0) && (n < 3 ==> c == 0)
    ensures var g := Group(a, b, c, n);
      && DecodeTable(g[0]) == a / 4 && DecodeTable(g[1]) == a % 4 * 16 + b / 16
      && DecodeTable(g[2]) == (if n >= 2 then b % 16 * 4 + c / 64 else NV)
      && DecodeTable(g[3]) == (if n == 3 then c % 64 else NV)
  {
    hide Char, DecodeTable;
    Sextets(a, b, c);
    TableInverse(a / 4);
    TableInverse(a % 4 * 16 + b / 16);
    TableInverse(b % 16 * 4 + c / 64);
    TableInverse(c % 64);
  }

  /** The three bytes Base64_decode puts together; c0 << 2 and the like keep eight bits. */
  function First(c0: nat, c1: nat): Byte
    requires c0 <= 64 && c1 <= 64
  {
    Or(c0 * 4 % 256, c1 / 16)
  }

  function Second(c1: nat, c2: nat): Byte
    requires c1 <= 64 && c2 <= 64
  {
    Or(c1 % 16 * 16, c2 / 4)
  }

  function Third(c2: nat, c3: nat): Byte
    requires c2 <= 64 && c3 <= 64
  {
    Or(c2 % 4 * 64, c3)
  }

  lemma BytesOfSextets(a: Byte, b: Byte, c: Byte)
    ensures First(a / 4, a % 4 * 16 + b / 16) == a
    ensures Second(a % 4 * 16 + b / 16, b % 16 * 4 + c / 64) == b
    ensures Third(b % 16 * 4 + c / 64, c % 64) == c
  {
    hide Or;
    OrLowTwo(a / 4, a % 4);
    assert (a % 4 * 16 + b / 16) / 16 == a % 4;
    OrLowFour(b / 16, b % 16);
    assert (a % 4 * 16 + b / 16) % 16 == b / 16 && (b % 16 * 4 + c / 64) / 4 == b % 16;
    OrLowSix(c / 64, c % 64);
    assert (b % 16 * 4 + c / 64) % 4 == c / 64;
  }

  /** Decoding a group of the standard gives its bytes back, and their number. */
  lemma GroupComesBack(a: Byte, b: Byte, c: Byte, k: nat)
    requires 1 <= k <= 3 && (k < 2 ==> b == 0) && (k < 3 ==> c == 0)
    ensures var g := Group(a, b, c, k);
      var c0, c1, c2, c3 := DecodeTable(g[0]), DecodeTable(g[1]), DecodeTable(g[2]), DecodeTable(g[3]);
      && k == (if c2 == NV then 1 else if c3 == NV then 2 else 3)
      && First(c0, c1) == a && (k >= 2 ==> Second(c1, c2) == b) && (k == 3 ==> Third(c2, c3) == c)
  {
    hide Group, DecodeTable, First, Second, Third;
    GroupValues(a, b, c, k);
    BytesOfSextets(a, b, c);
  }

  /** One turn of the loop of Base64_decode at `count`: how many bytes came out, and whether
      the padding says this was the last group. */
  method DecodeGroup(out: array<Byte>, count: nat, g: seq<Byte>) returns (n: nat, last: bool)
    requires |g| == 4 && count < out.Length
    modifies out
    ensures 1 <= n <= 3 && count + n <= out.Length
    ensures out[..count] == old(out[..count])
    ensures var c0, c1, c2, c3 := DecodeTable(g[0]), DecodeTable(g[1]), DecodeTable(g[2]), DecodeTable(g[3]);
      && n == Least(out.Length - count, if c2 == NV then 1 else if c3 == NV then 2 else 3)
      && out[count] == First(c0, c1)
      && (n >= 2 ==> out[count + 1] == Second(c1, c2))
      && (n == 3 ==> out[count + 2] == Third(c2, c3))
      && (last ==> c2 == NV || c3 == NV)
  {
    hide Or, DecodeTable;
    var c0, c1, c2, c3 := DecodeTable(g[0]), DecodeTable(g[1]), DecodeTable(g[2]), DecodeTable(g[3]);
    last := false;
    n := 1;
    out[count] := First(c0, c1);
    if count + 1 < out.Length {
      out[count + 1] := c1 % 16 * 16;
      if c2 < NV {
        out[count + 1] := Second(c1, c2);
        n := 2;
        if count + 2 < out.Length {
          out[count + 2] := c2 % 4 * 64;
          if c3 < NV {
            out[count + 2] := Third(c2, c3);
            n := 3;
          } else {
            last := true;
          }
        }
      } else {
        last := true;
      }
    }
  }

  function Least(x: nat, y: nat): nat {
    if x < y then x else y
  }

  /** Base64_decode of any text; when it is the text of `data` and there is room, the data
      come back, with a terminator behind if there is more room. */
  method Decode(out: array<Byte>, text: seq<Byte>, ghost data: seq<Byte>) returns (ret: nat)
    requires forall i :: 0 <= i < |text| ==> text[i] < 128
    modifies out
    ensures ret <= out.Length && (ret < out.Length ==> out[ret] == 0)
    ensures text == Text(data) && |data| <= out.Length ==> ret == |data| && out[..ret] == data
  {
    hide Text, Group, Or, DecodeTable, First, Second, Third;
    var at, count, left := 0, 0, |text|;
    ghost var good := text == Text(data) && |data| <= out.Length;
    while left > 3 && count < out.Length
      invariant 0 <= at && 0 <= left && at + left <= |text| && 0 <= count <= out.Length
      invariant good ==> count <= |data| && out[..count] == data[..count]
      invariant good && count < |data| ==> at + left == |text| && text[at..] == Text(data[count..])
      invariant good && count == |data| ==> left == 0
      decreases left
    {
      var g := text[at..at + 4];
      ghost var k := if |data| - count >= 3 then 3 else |data| - count;
      if good {
        FirstGroup(data[count..]);
      }
      ghost var done := out[..count];
      var n, last := DecodeGroup(out, count, g);
      at := at + 4;
      left := if last then 0 else left - 4;
      if good {
        assert g == text[at - 4..][..4];
        GroupComesBack(data[count], if k >= 2 then data[count + 1] else 0, if k == 3 then data[count + 2] else 0, k);
        assert n == k;
        forall i | 0 <= i < count + n ensures out[i] == data[i] {
          assert i < count ==> out[i] == done[i];
        }
      }
      count := count + n;
    }
    ret := count;
    if count < out.Length {
      out[count] := 0;
    }
  }

  // ----- lengths

  const WORD := 0x1_0000_0000

  /** Base64_encodeLength, in 32-bit arithmetic. */
  function EncodeLength(n: nat): (r: nat) {
    var x := (4 * n % WORD / 3 + 3) % WORD;
    x - x % 4
  }

  function PadCount(text: seq<Byte>): (pad: nat) {
    var n := |text|;
    (if n > 1 && text[n - 2] == PAD then 1 else 0) + (if n > 0 && text[n - 1] == PAD then 1 else 0)
  }

  /** Base64_decodeLength, in 32-bit arithmetic. */
  function DecodeLength(text: seq<Byte>): (r: nat) {
    (|text| / 4 * 3 - PadCount(text)) % WORD
  }

  /** The computed length is that of the text exactly below 2^30 bytes. */
  lemma EncodeLengthIsExact(data: seq<Byte>)
    requires |data| < WORD
    ensures EncodeLength(|data|) == |Text(data)| <==> |data| < 0x4000_0000
  {
    LengthArithmetic(|data|);
  }

  lemma LengthArithmetic(n: nat)
    requires n < WORD
    ensures EncodeLength(n) == (n + 2) / 3 * 4 <==> n < 0x4000_0000
  {
    if n < 0x4000_0000 {
      assert 4 * n % WORD == 4 * n;
      var q, r := n / 3, n % 3;
      assert 4 * n / 3 == 4 * q + 4 * r / 3;
    } else {
      assert 4 * n % WORD <= 4 * n - WORD;
    }
  }

  /** The length announced for a text is that of the data it came from. */
  lemma DecodeLengthIsExact(data: seq<Byte>)
    requires |Text(data)| < WORD
    ensures DecodeLength(Text(data)) == |data|
  {
    hide Text, PadCount;
    PadsOfText(data);
    PaddingArithmetic(|data|);
  }

  lemma PadsOfText(data: seq<Byte>)
    ensures PadCount(Text(data)) == if |data| % 3 == 0 then 0 else if |data| % 3 == 1 then 2 else 1
  {
    hide Text;
    if data != [] {
      TextEnd(data);
    }
  }

  lemma PaddingArithmetic(n: nat)
    ensures (n + 2) / 3 * 4 / 4 * 3 - (if n % 3 == 0 then 0 else if n % 3 == 1 then 2 else 1) == n
  {
    var q, r := n / 3, n % 3;
    assert (n + 2) / 3 == if r == 0 then q else q + 1;
  }

  lemma GroupPadding(a: Byte, b: Byte, c: Byte, n: nat)
    requires 1 <= n <= 3
    ensures Group(a, b, c, n)[3] == PAD <==> n < 3
    ensures Group(a, b, c, n)[2] == PAD <==> n == 1
  {
    hide Char;
  }

  lemma {:induction false} TextEnd(data: seq<Byte>)
    requires data != []
    ensures var t := Text(data);
      && |t| >= 4
      && (t[|t| - 1] == PAD <==> |data| % 3 != 0)
      && (t[|t| - 2] == PAD <==> |data| % 3 == 1)
  {
    hide Text, Group;
    var n := if |data| >= 3 then 3 else |data|;
    var b, c := if n >= 2 then data[1] else 0, if n == 3 then data[2] else 0;
    FirstGroup(data);
    var group, rest := Group(data[0], b, c, n), Text(data[n..]);
    if |data| > 3 {
      TextEnd(data[3..]);
      assert (group + rest)[4 + |rest| - 1] == rest[|rest| - 1] && (group + rest)[4 + |rest| - 2] == rest[|rest| - 2];
    } else {
      NoText(data[n..]);
      assert group + rest == group;
      GroupPadding(data[0], b, c, n);
    }
  }

  lemma NoText(data: seq<Byte>)
    requires data == []
    ensures Text(data) == []
  {
  }

  /** Encoding into a buffer of the computed size and decoding into one of the computed size
      gives the data back, below 2^30 bytes. */
  method RoundTrip(data: seq<Byte>) returns (back: seq<Byte>)
    requires |data| < 0x4000_0000
    ensures back == data
  {
    hide Text, EncodeLength, DecodeLength;
    EncodeLengthIsExact(data);
    var text := new Byte[EncodeLength(|data|)];
    var n := Encode(text, data);
    assert text[..] == text[..n];
    DecodeLengthIsExact(data);
    var out := new Byte[DecodeLength(text[..])];
    var m := Decode(out, text[..], data);
    assert out[..] == out[..m];
    back := out[..];
  }
}
