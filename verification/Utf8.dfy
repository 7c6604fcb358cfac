/** UTF-8 as sections 3 and 4 of RFC 3629 define it. */
module Utf8Standard {
  import opened Common

  /** A Unicode scalar value: no surrogates, nothing above U+10FFFF. */
  predicate Scalar(v: int) {
    0 <= v <= 0x10FFFF && !(0xD800 <= v <= 0xDFFF)
  }

  /** The shortest form of a scalar value. */
  function Encode(v: int): (b: seq<Byte>)
    requires Scalar(v)
    ensures 1 <= |b| <= 4
  {
    if v < 0x80 then [v]
    else if v < 0x800 then [0xC0 + v / 64, 0x80 + v % 64]
    else if v < 0x10000 then [0xE0 + v / 4096, 0x80 + v / 64 % 64, 0x80 + v % 64]
    else [0xF0 + v / 262144, 0x80 + v / 4096 % 64, 0x80 + v / 64 % 64, 0x80 + v % 64]
  }

  ghost predicate AllScalars(vs: seq<int>) {
    forall i :: 0 <= i < |vs| ==> Scalar(vs[i])
  }

  function EncodeAll(vs: seq<int>): (b: seq<Byte>)
    requires AllScalars(vs)
  {
    if vs == [] then [] else Encode(vs[0]) + EncodeAll(vs[1..])
  }
}

/** The validator of src/utils/utf-8.c. */
module Utf8 {
  import opened Common
  import opened Utf8Standard

  /** A C char is signed here: the table and the data are compared as signed numbers. */
  function Signed(b: Byte): int {
    if b < 128 then b else b - 256
  }

  datatype Range = Range(lower: Byte, upper: Byte)

  /** valid_ranges. */
  const ROWS: seq<seq<Range>> := [
    [Range(0x00, 0x7F)],
    [Range(0xC2, 0xDF), Range(0x80, 0xBF)],
    [Range(0xE0, 0xE0), Range(0xA0, 0xBF), Range(0x80, 0xBF)],
    [Range(0xE1, 0xEC), Range(0x80, 0xBF), Range(0x80, 0xBF)],
    [Range(0xED, 0xED), Range(0x80, 0x9F), Range(0x80, 0xBF)],
    [Range(0xEE, 0xEF), Range(0x80, 0xBF), Range(0x80, 0xBF)],
    [Range(0xF0, 0xF0), Range(0x90, 0xBF), Range(0x80, 0xBF), Range(0x80, 0xBF)],
    [Range(0xF1, 0xF3), Range(0x80, 0xBF), Range(0x80, 0xBF), Range(0x80, 0xBF)],
    [Range(0xF4, 0xF4), Range(0x80, 0x8F), Range(0x80, 0xBF), Range(0x80, 0xBF)]
  ]

  predicate InRange(b: Byte, r: Range) {
    Signed(r.lower) <= Signed(b) <= Signed(r.upper)
  }

  /** Within one half of the bytes the signed order is the unsigned one. */
  lemma SignedOrder(b: Byte, r: Range)
    requires r.lower < 128 <==> r.upper < 128
    ensures InRange(b, r) <==> r.lower <= b <= r.upper
  {
  }

  predicate MatchesRow(s: seq<Byte>, row: seq<Range>) {
    |s| == |row| && forall j :: 0 <= j < |row| ==> InRange(s[j], row[j])
  }

  /** The character s, of its full length, is in some row. */
  predicate Accepted(s: seq<Byte>) {
    exists i :: 0 <= i < |ROWS| && MatchesRow(s, ROWS[i])
  }

  /** The length the first byte asks for. */
  function CharLength(b: Byte): (n: nat)
    ensures 1 <= n <= 4
  {
    if b / 128 == 0 then 1 else if b / 16 == 15 then 4 else if b / 32 == 7 then 3 else 2
  }

  /** UTF8_char_validate on the bytes from `at` on: the position of the next character, or
      -1. */
  method CharValidate(data: seq<Byte>, at: nat) returns (rc: int)
    requires at < |data|
    ensures var n := CharLength(data[at]);
      rc == if at + n <= |data| && Accepted(data[at..at + n]) then at + n else -1
  {
    var charlen := 2;
    if data[at] / 128 == 0 {
      charlen := 1;
    } else if data[at] / 16 == 15 {
      charlen := 4;
    } else if data[at] / 32 == 7 {
      charlen := 3;
    }
    if charlen > |data| - at {
      return -1;
    }
    ghost var s := data[at..at + charlen];
    var good := false;
    var i := 0;
    while i < |ROWS| && !good
      invariant 0 <= i <= |ROWS|
      invariant good ==> Accepted(s)
      invariant !good ==> forall k :: 0 <= k < i ==> !MatchesRow(s, ROWS[k])
    {
      var row := ROWS[i];
      if |row| == charlen {
        good := true;
        var j := 0;
        while j < charlen && good
          invariant 0 <= j <= charlen
          invariant good ==> forall k :: 0 <= k < j ==> InRange(s[k], row[k])
          invariant !good ==> !MatchesRow(s, row)
        {
          if Signed(data[at + j]) < Signed(row[j].lower) || Signed(data[at + j]) > Signed(row[j].upper) {
            assert !InRange(s[j], row[j]);
            good := false;
          }
          j := j + 1;
        }
        assert good ==> MatchesRow(s, row);
      }
      i := i + 1;
    }
    rc := if good then at + charlen else -1;
  }

  predicate Tail(b: Byte) { 0x80 <= b <= 0xBF }

  /** The syntax of section 4 of RFC 3629, on unsigned bytes. */
  predicate WellFormed(s: seq<Byte>) {
    || (|s| == 1 && s[0] <= 0x7F)
    || (|s| == 2 && 0xC2 <= s[0] <= 0xDF && Tail(s[1]))
    || (|s| == 3 && Tail(s[2]) && (
          || (s[0] == 0xE0 && 0xA0 <= s[1] <= 0xBF)
          || (0xE1 <= s[0] <= 0xEC && Tail(s[1]))
          || (s[0] == 0xED && 0x80 <= s[1] <= 0x9F)
          || (0xEE <= s[0] <= 0xEF && Tail(s[1]))))
    || (|s| == 4 && Tail(s[2]) && Tail(s[3]) && (
          || (s[0] == 0xF0 && 0x90 <= s[1] <= 0xBF)
          || (0xF1 <= s[0] <= 0xF3 && Tail(s[1]))
          || (s[0] == 0xF4 && 0x80 <= s[1] <= 0x8F)))
  }

  /** The signed comparisons of the table are the unsigned ones of the standard. */
  lemma AcceptedIsWellFormed(s: seq<Byte>)
    ensures Accepted(s) <==> WellFormed(s)
  {
    if Accepted(s) {
      var i :| 0 <= i < |ROWS| && MatchesRow(s, ROWS[i]);
      RowIsWellFormed(s, i);
    }
    if WellFormed(s) {
      var i :=
        if |s| == 1 then 0
        else if |s| == 2 then 1
        else if |s| == 3 then (if s[0] == 0xE0 then 2 else if s[0] <= 0xEC then 3 else if s[0] == 0xED then 4 else 5)
        else (if s[0] == 0xF0 then 6 else if s[0] <= 0xF3 then 7 else 8);
      assert MatchesRow(s, ROWS[i]);
    }
  }

  lemma RowIsWellFormed(s: seq<Byte>, i: nat)
    requires i < |ROWS| && MatchesRow(s, ROWS[i])
    ensures WellFormed(s)
  {
    hide InRange;
    var row := ROWS[i];
    forall j | 0 <= j < |row|
      ensures row[j].lower <= s[j] <= row[j].upper
    {
      assert row[j].lower < 128 <==> row[j].upper < 128;
      SignedOrder(s[j], row[j]);
    }
    assert row[0].lower <= s[0] <= row[0].upper;
  }

  /** The six bits of a continuation byte. */
  function Low(b: Byte): int {
    b as int - 0x80
  }

  /** The scalar value of a well-formed character. */
  function Decode(s: seq<Byte>): (v: int)
    requires WellFormed(s)
  {
    var b := s[0] as int;
    if |s| == 1 then b
    else if |s| == 2 then (b - 0xC0) * 64 + Low(s[1])
    else if |s| == 3 then ((b - 0xE0) * 64 + Low(s[1])) * 64 + Low(s[2])
    else (((b - 0xF0) * 64 + Low(s[1])) * 64 + Low(s[2])) * 64 + Low(s[3])
  }

  lemma ThreeBytes(a: int, c: int, d: int)
    requires 0 <= a < 16 && 0 <= c < 64 && 0 <= d < 64 && 0x800 <= (a * 64 + c) * 64 + d
    requires Scalar((a * 64 + c) * 64 + d)
    ensures Encode((a * 64 + c) * 64 + d) == [0xE0 + a, 0x80 + c, 0x80 + d]
  {
    SixBitDigits(0, a, c, d);
  }

  lemma FourBytes(a: int, b: int, c: int, d: int)
    requires 0 <= a < 16 && 0 <= b < 64 && 0 <= c < 64 && 0 <= d < 64 && 0x10000 <= ((a * 64 + b) * 64 + c) * 64 + d
    requires Scalar(((a * 64 + b) * 64 + c) * 64 + d)
    ensures Encode(((a * 64 + b) * 64 + c) * 64 + d) == [0xF0 + a, 0x80 + b, 0x80 + c, 0x80 + d]
  {
    SixBitDigits(a, b, c, d);
  }

  lemma DecodeThenEncode(s: seq<Byte>)
    requires WellFormed(s)
    ensures Scalar(Decode(s)) && Encode(Decode(s)) == s
  {
    if |s| <= 2 {
      EncodeShort(s);
    } else if |s| == 3 {
      EncodeThree(s);
    } else {
      EncodeFour(s);
    }
  }

  lemma EncodeShort(s: seq<Byte>)
    requires WellFormed(s) && |s| <= 2
    ensures Scalar(Decode(s)) && Encode(Decode(s)) == s
  {
  }

  lemma EncodeThree(s: seq<Byte>)
    requires WellFormed(s) && |s| == 3
    ensures Scalar(Decode(s)) && Encode(Decode(s)) == s
  {
    hide Encode;
    ThreeBytes(s[0] as int - 0xE0, Low(s[1]), Low(s[2]));
  }

  lemma EncodeFour(s: seq<Byte>)
    requires WellFormed(s) && |s| == 4
    ensures Scalar(Decode(s)) && Encode(Decode(s)) == s
  {
    hide Encode;
    FourBytes(s[0] as int - 0xF0, Low(s[1]), Low(s[2]), Low(s[3]));
  }

  lemma FirstByteTellsLength(s: seq<Byte>)
    requires WellFormed(s)
    ensures CharLength(s[0]) == |s|
  {
  }

  lemma EncodeThenDecode(v: int)
    requires Scalar(v)
    ensures WellFormed(Encode(v)) && Decode(Encode(v)) == v
  {
    if v >= 0x10000 {
      DecodeFour(v);
    } else if v >= 0x800 {
      DecodeThree(v);
    } else if v >= 0x80 {
      assert v == v / 64 * 64 + v % 64;
    }
  }

  lemma DecodeThree(v: int)
    requires Scalar(v) && 0x800 <= v < 0x10000
    ensures WellFormed(Encode(v)) && Decode(Encode(v)) == v
  {
    var n := v / 64;
    assert v / 4096 == n / 64;
    assert v == n * 64 + v % 64 && n == n / 64 * 64 + n % 64;
  }

  lemma DecodeFour(v: int)
    requires Scalar(v) && 0x10000 <= v
    ensures WellFormed(Encode(v)) && Decode(Encode(v)) == v
  {
    var n1 := v / 64;
    var n2 := n1 / 64;
    assert v / 4096 == n2 && v / 262144 == n2 / 64;
    assert v == n1 * 64 + v % 64 && n1 == n2 * 64 + n1 % 64 && n2 == n2 / 64 * 64 + n2 % 64;
  }

  /** What UTF8_validate decides, character by character. */
  predicate ValidFrom(data: seq<Byte>, at: nat)
    requires at <= |data|
    decreases |data| - at
  {
    if at == |data| then true
    else
      var n := CharLength(data[at]);
      at + n <= |data| && Accepted(data[at..at + n]) && ValidFrom(data, at + n)
  }

  /** UTF8_validate. */
  method Validate(data: seq<Byte>) returns (rc: bool)
    ensures rc <==> exists vs :: AllScalars(vs) && EncodeAll(vs) == data
  {
    ValidIsEncoded(data);
    if |data| == 0 {
      return true;
    }
    var cur := CharValidate(data, 0);
    while 0 <= cur < |data|
      invariant cur <= |data|
      invariant ValidFrom(data, 0) == (if cur >= 0 then ValidFrom(data, cur) else false)
      decreases if cur >= 0 then |data| - cur else -1
    {
      cur := CharValidate(data, cur);
    }
    rc := cur >= 0;
  }

  /** A byte string passes exactly when it is the encoding of some scalar values. */
  lemma ValidIsEncoded(data: seq<Byte>)
    ensures ValidFrom(data, 0) <==> exists vs :: AllScalars(vs) && EncodeAll(vs) == data
  {
    if ValidFrom(data, 0) {
      var vs := Scalars(data, 0);
      assert data[0..] == data;
    }
    if vs :| AllScalars(vs) && EncodeAll(vs) == data {
      EncodedIsValid(data, 0, vs);
    }
  }

  /** The scalar values a valid string encodes. */
  lemma {:induction false} Scalars(data: seq<Byte>, at: nat) returns (vs: seq<int>)
    requires at <= |data| && ValidFrom(data, at)
    ensures AllScalars(vs) && EncodeAll(vs) == data[at..]
    decreases |data| - at
  {
    hide Encode, Decode, Accepted, WellFormed, CharLength, Scalar;
    if at == |data| {
      vs := [];
    } else {
      var n := CharLength(data[at]);
      var s := data[at..at + n];
      AcceptedIsWellFormed(s);
      DecodeThenEncode(s);
      FirstByteTellsLength(s);
      var rest := Scalars(data, at + n);
      vs := [Decode(s)] + rest;
      assert vs[1..] == rest;
      assert data[at..] == s + data[at + n..];
    }
  }

  lemma {:induction false} EncodedIsValid(data: seq<Byte>, at: nat, vs: seq<int>)
    requires at <= |data| && AllScalars(vs) && EncodeAll(vs) == data[at..]
    ensures ValidFrom(data, at)
    decreases |vs|
  {
    hide Encode, Decode, Accepted, WellFormed, CharLength, Scalar;
    if vs != [] {
      var s := Encode(vs[0]);
      EncodeThenDecode(vs[0]);
      DecodeThenEncode(s);
      FirstByteTellsLength(s);
      AcceptedIsWellFormed(s);
      assert data[at..] == s + EncodeAll(vs[1..]);
      assert data[at..at + |s|] == s && data[at] == s[0];
      assert data[at + |s|..] == EncodeAll(vs[1..]);
      EncodedIsValid(data, at + |s|, vs[1..]);
    }
  }

  /** No byte string encodes two different lists of scalar values. */
  lemma {:induction false} EncodingIsUnique(vs: seq<int>, ws: seq<int>)
    requires AllScalars(vs) && AllScalars(ws) && EncodeAll(vs) == EncodeAll(ws)
    ensures vs == ws
  {
    hide Encode, Decode, Accepted, WellFormed, CharLength, Scalar;
    if vs != [] && ws != [] {
      var s, t := Encode(vs[0]), Encode(ws[0]);
      var data := EncodeAll(vs);
      EncodeThenDecode(vs[0]);
      EncodeThenDecode(ws[0]);
      DecodeThenEncode(s);
      FirstByteTellsLength(s);
      DecodeThenEncode(t);
      FirstByteTellsLength(t);
      assert data[0] == s[0] && data[0] == t[0];
      assert data[..|s|] == s && data[..|t|] == t;
      assert data[|s|..] == EncodeAll(vs[1..]) && data[|t|..] == EncodeAll(ws[1..]);
      EncodingIsUnique(vs[1..], ws[1..]);
      assert vs == [vs[0]] + vs[1..] && ws == [ws[0]] + ws[1..];
    }
  }
}
