/** A WebSocket frame as section 5.2 of RFC 6455 defines it, and the masking of section 5.3. */
module WebSocketStandard {
  import opened Common

  /** Exclusive or of the low k bits. */
  function XorBits(a: nat, b: nat, k: nat): (r: nat) {
    if k == 0 then 0 else (if a % 2 == b % 2 then 0 else 1) + 2 * XorBits(a / 2, b / 2, k - 1)
  }

  function Xor(a: Byte, b: Byte): Byte {
    XorSize(a, b, 8);
    XorBits(a, b, 8)
  }

  function Power2(k: nat): nat {
    if k == 0 then 1 else 2 * Power2(k - 1)
  }

  lemma {:induction false} XorSize(a: nat, b: nat, k: nat)
    ensures XorBits(a, b, k) < Power2(k)
    ensures Power2(8) == 256
  {
    assert Power2(8) == 2 * Power2(7) && Power2(6) == 2 * Power2(5);
    assert Power2(4) == 2 * Power2(3) && Power2(2) == 2 * Power2(1);
    if k > 0 {
      XorSize(a / 2, b / 2, k - 1);
    }
  }

  lemma {:induction false} XorBitsTwice(a: nat, b: nat, k: nat)
    requires a < Power2(k)
    ensures XorBits(XorBits(a, b, k), b, k) == a
  {
    if k > 0 {
      XorBitsTwice(a / 2, b / 2, k - 1);
      var x := XorBits(a, b, k);
      assert x / 2 == XorBits(a / 2, b / 2, k - 1);
      assert x % 2 == if a % 2 == b % 2 then 0 else 1;
      assert a == 2 * (a / 2) + a % 2;
    }
  }

  lemma XorTwice(a: Byte, b: Byte)
    ensures Xor(Xor(a, b), b) == a
  {
    XorSize(a, b, 8);
    XorBitsTwice(a, b, 8);
  }

  function KeyOctet(key: seq<Byte>, idx: nat, i: nat): Byte
    requires |key| == 4
  {
    key[(idx + i) % 4]
  }

  /** Octet i of the data is combined with octet (idx + i) mod 4 of the key. */
  function Mask(data: seq<Byte>, key: seq<Byte>, idx: nat): (r: seq<Byte>)
    requires |key| == 4
    ensures |r| == |data|
  {
    seq(|data|, i requires 0 <= i < |data| => Xor(data[i], KeyOctet(key, idx, i)))
  }

  lemma MaskTwice(data: seq<Byte>, key: seq<Byte>, idx: nat)
    requires |key| == 4
    ensures Mask(Mask(data, key, idx), key, idx) == data
  {
    hide Xor;
    forall i | 0 <= i < |data| ensures Mask(Mask(data, key, idx), key, idx)[i] == data[i] {
      XorTwice(data[i], KeyOctet(key, idx, i));
    }
  }

  lemma {:induction false} XorUnchanged(a: nat, b: nat, k: nat)
    requires a < Power2(k) && b < Power2(k)
    ensures XorBits(a, b, k) == a <==> b == 0
  {
    if k > 0 {
      XorUnchanged(a / 2, b / 2, k - 1);
      var x := XorBits(a, b, k);
      assert x / 2 == XorBits(a / 2, b / 2, k - 1);
      assert x % 2 == if a % 2 == b % 2 then 0 else 1;
      assert a == 2 * (a / 2) + a % 2 && b == 2 * (b / 2) + b % 2 && x == 2 * (x / 2) + x % 2;
    }
  }

  /** Masking leaves data as they are exactly when every octet of the key used is 0. */
  lemma PlainStaysPlain(data: seq<Byte>, key: seq<Byte>, idx: nat)
    requires |key| == 4
    ensures Mask(data, key, idx) == data <==> forall i :: 0 <= i < |data| ==> KeyOctet(key, idx, i) == 0
  {
    hide Xor;
    var m := Mask(data, key, idx);
    forall i | 0 <= i < |data|
      ensures m[i] == data[i] <==> KeyOctet(key, idx, i) == 0
    {
      XorIsUnchanged(data[i], KeyOctet(key, idx, i));
    }
    if m != data {
      var i :| 0 <= i < |data| && m[i] != data[i];
      assert KeyOctet(key, idx, i) != 0;
    }
  }

  lemma XorIsUnchanged(a: Byte, b: Byte)
    ensures Xor(a, b) == a <==> b == 0
  {
    XorSize(a, b, 8);
    XorUnchanged(a, b, 8);
  }

  lemma MaskAppend(a: seq<Byte>, b: seq<Byte>, key: seq<Byte>, idx: nat)
    requires |key| == 4
    ensures Mask(a + b, key, idx) == Mask(a, key, idx) + Mask(b, key, idx + |a|)
  {
    hide Xor;
    forall i | 0 <= i < |a + b|
      ensures Mask(a + b, key, idx)[i] == (Mask(a, key, idx) + Mask(b, key, idx + |a|))[i]
    {
      if i >= |a| {
        assert idx + i == idx + |a| + (i - |a|);
      }
    }
  }

  /** A frame read from the front of a byte string. */
  datatype WsFrame = WsFrame(fin: bool, rsv: nat, opcode: nat, masked: bool, payload: seq<Byte>, rest: seq<Byte>)

  /** The payload length and where it ends; None when bytes are missing or the length is not
      in the shortest of the three forms. */
  function ReadLength(b: seq<Byte>): (r: Option<(nat, nat)>)
    requires |b| >= 2
  {
    var len7 := b[1] % 128;
    if len7 < 126 then Some((len7, 2))
    else if len7 == 126 then
      if |b| < 4 || Number(b[2..4]) < 126 then None else Some((Number(b[2..4]), 4))
    else
      if |b| < 10 || Number(b[2..10]) < 65536 || b[2] >= 128 then None else Some((Number(b[2..10]), 10))
  }

  function ReadFrame(b: seq<Byte>): (r: Option<WsFrame>) {
    if |b| < 2 then None
    else
      var fin, rsv, opcode, masked := b[0] / 128 == 1, b[0] / 16 % 8, b[0] % 16, b[1] / 128 == 1;
      match ReadLength(b)
      case None => None
      case Some((len, at)) =>
        var start := if masked then at + 4 else at;
        if |b| < start + len then None
        else
          var data := b[start..start + len];
          var payload := if masked then Mask(data, b[at..at + 4], 0) else data;
          Some(WsFrame(fin, rsv, opcode, masked, payload, b[start + len..]))
  }

  /** The header of a final frame without reserved bits, in the shortest form. */
  function Header(opcode: nat, masked: bool, len: nat, key: seq<Byte>): (h: seq<Byte>)
    requires opcode < 16 && |key| == 4
  {
    [128 + opcode]
    + (if len < 126 then [(if masked then 128 else 0) + len]
       else if len < 65536 then [(if masked then 128 else 0) + 126] + BigEndian(len, 2)
       else [(if masked then 128 else 0) + 127] + BigEndian(len, 8))
    + (if masked then key else [])
  }

  /** Such a header in front of a masked payload reads back as one final frame. */
  lemma HeaderReadsBack(opcode: nat, len: nat, key: seq<Byte>, payload: seq<Byte>, rest: seq<Byte>)
    requires opcode < 16 && |key| == 4 && len == |payload| < 0x8000_0000_0000_0000
    ensures ReadFrame(Header(opcode, true, len, key) + Mask(payload, key, 0) + rest) ==
      Some(WsFrame(true, 0, opcode, true, payload, rest))
  {
    hide Xor, Mask;
    var m := Mask(payload, key, 0);
    var b := Header(opcode, true, len, key) + m + rest;
    LengthReadsBack(opcode, len, key, m + rest);
    assert b == Header(opcode, true, len, key) + (m + rest);
    var at := if len < 126 then 2 else if len < 65536 then 4 else 10;
    assert b[at..at + 4] == key;
    assert b[at + 4..at + 4 + len] == m && b[at + 4 + len..] == rest;
    MaskTwice(payload, key, 0);
  }

  lemma LengthReadsBack(opcode: nat, len: nat, key: seq<Byte>, tail: seq<Byte>)
    requires opcode < 16 && |key| == 4 && len < 0x8000_0000_0000_0000
    ensures var b := Header(opcode, true, len, key) + tail;
      var at := if len < 126 then 2 else if len < 65536 then 4 else 10;
      && |b| >= at + 4 + |tail| && ReadLength(b) == Some((len, at))
      && b[0] == 128 + opcode && b[1] >= 128
      && b == b[..at] + key + tail
  {
    var b := Header(opcode, true, len, key) + tail;
    Powers();
    if len < 126 {
      assert b == [128 + opcode, 128 + len] + key + tail;
    } else if len < 65536 {
      NumberOfBigEndian(len, 2);
      assert b == [128 + opcode, 128 + 126] + BigEndian(len, 2) + key + tail;
      assert b[2..4] == BigEndian(len, 2);
    } else {
      NumberOfBigEndian(len, 8);
      TopByte(len);
      assert b == [128 + opcode, 128 + 127] + BigEndian(len, 8) + key + tail;
      assert b[2..10] == BigEndian(len, 8);
    }
  }

  lemma TopByte(n: nat)
    requires n < 0x8000_0000_0000_0000
    ensures BigEndian(n, 8)[0] < 128
  {
    Powers();
    assert Power256(8) == 256 * Power256(7);
    First(n, 8);
  }

  lemma {:induction false} First(n: nat, k: nat)
    requires 1 <= k && n < 128 * Power256(k - 1)
    ensures BigEndian(n, k)[0] < 128
  {
    if k == 1 {
      assert BigEndian(n, 1) == BigEndian(n / 256, 0) + [n % 256];
    } else {
      assert Power256(k - 1) == 256 * Power256(k - 2);
      assert n / 256 < 128 * Power256(k - 2);
      First(n / 256, k - 1);
    }
  }
}

/** The client's framing and masking of src/utils/WebSocket.c. */
module WebSocket {
  import opened Common
  import opened WebSocketStandard

  const SIZE_MAX := 0xFFFF_FFFF_FFFF_FFFF

  /** WebSocket_calculateFrameHeaderSize on an upgraded connection. */
  function FrameHeaderSize(maskData: bool, dataLen: nat): (n: nat) {
    (if dataLen < 126 then 2 else if dataLen < 65536 then 4 else if dataLen < SIZE_MAX then 10 else 0)
    + (if maskData then 4 else 0)
  }

  ghost predicate Separate(buffers: seq<array<Byte>>) {
    forall i, j :: 0 <= i < j < |buffers| ==> buffers[i] != buffers[j]
  }

  /** The bytes of all buffers, as writev gathers them. */
  function Contents(buffers: seq<array<Byte>>): (r: seq<Byte>)
    reads buffers
  {
    if buffers == [] then [] else Contents(buffers[..|buffers| - 1]) + buffers[|buffers| - 1][..]
  }

  /** XOR in place from position idx of the key on. */
  method XorBuffer(a: array<Byte>, from: nat, key: seq<Byte>, idx: nat) returns (next: nat)
    requires |key| == 4 && from <= a.Length
    modifies a
    ensures a[..] == old(a[..from]) + Mask(old(a[from..]), key, idx)
    ensures next == idx + a.Length - from
  {
    hide Xor;
    next := idx;
    var i := from;
    while i < a.Length
      invariant from <= i <= a.Length && next == idx + i - from
      invariant a[..from] == old(a[..from])
      invariant a[from..i] == Mask(old(a[from..]), key, idx)[..i - from]
      invariant forall j :: i <= j < a.Length ==> a[j] == old(a[j])
    {
      ghost var done := a[from..i];
      a[i] := Xor(a[i], key[next % 4]);
      next := next + 1;
      i := i + 1;
      assert a[from..i] == done + [a[i - 1]];
    }
    assert a[..] == a[..from] + a[from..a.Length];
  }

  /** The loop over the first `count` buffers with one running index. */
  method XorBuffers(buffers: seq<array<Byte>>, count: nat, key: seq<Byte>, idx: nat)
    requires |key| == 4 && Separate(buffers) && count <= |buffers|
    modifies buffers
    ensures Contents(buffers[..count]) == Mask(old(Contents(buffers[..count])), key, idx)
    ensures forall j :: count <= j < |buffers| ==> buffers[j][..] == old(buffers[j][..])
  {
    hide Xor, Mask;
    var next := idx;
    EmptyMask(key, idx);
    for i := 0 to count
      invariant Contents(buffers[..i]) == Mask(old(Contents(buffers[..i])), key, idx)
      invariant next == idx + |old(Contents(buffers[..i]))|
      invariant forall j :: i <= j < |buffers| ==> buffers[j][..] == old(buffers[j][..])
    {
      assert buffers[..i + 1][..i] == buffers[..i];
      ghost var before, data := old(Contents(buffers[..i])), old(buffers[i][..]);
      next := XorBuffer(buffers[i], 0, key, next);
      assert buffers[i][..] == Mask(data, key, idx + |before|);
      MaskAppend(before, data, key, idx);
      assert Contents(buffers[..i]) == Mask(before, key, idx);
    }
  }

  lemma EmptyMask(key: seq<Byte>, idx: nat)
    requires |key| == 4
    ensures Mask([], key, idx) == []
  {
  }

  class PacketBuffers {
    const buffers: seq<array<Byte>>
    var mask: seq<Byte>

    ghost predicate Valid()
      reads this
    {
      Separate(buffers) && |mask| == 4
    }

    constructor (buffers: seq<array<Byte>>, mask: seq<Byte>)
      requires Separate(buffers) && |mask| == 4
      ensures Valid() && this.buffers == buffers && this.mask == mask
    {
      this.buffers := buffers;
      this.mask := mask;
    }

    /** How many buffers a frame masks: all with a fresh key; with a key kept from an earlier
        attempt only those before the third and before the last. The code takes these two for
        the topic and the payload, masked already; in a PUBLISH the third is the fresh id. */
    function Unmasked(newKey: bool): (n: nat)
      ensures newKey ==> n == |buffers|
      ensures !newKey && buffers == [] ==> n == 0
      ensures !newKey && buffers != [] ==> n <= 2 && n < |buffers| && (n == 2 || n == |buffers| - 1)
    {
      if newKey || |buffers| == 0 then |buffers| else if |buffers| <= 2 then |buffers| - 1 else 2
    }

    /** WebSocket_buildFrame, without memory for the key's random bytes: they are `random`.
        The header written is as long as computed; with no key set yet, header, buf0 and
        buffers are together one final masked frame. */
    method BuildFrame(opcode: nat, maskData: bool, buf0: seq<Byte>, random: seq<Byte>) returns (wsbuf0: array<Byte>)
      requires Valid() && opcode < 16 && |random| == 4
      requires |buf0| + |Contents(buffers)| < 0x8000_0000_0000_0000
      modifies this, buffers
      ensures Valid() && fresh(wsbuf0)
      ensures mask == if maskData && old(mask)[0] == 0 then random else old(mask)
      ensures wsbuf0.Length == FrameHeaderSize(maskData, |buf0| + |old(Contents(buffers))|) + |buf0|
      ensures wsbuf0[..] == Header(opcode, maskData, |buf0| + |old(Contents(buffers))|, mask)
        + if maskData then Mask(buf0, mask, 0) else buf0
      ensures maskData && old(mask)[0] == 0 ==> Contents(buffers) == Mask(old(Contents(buffers)), mask, |buf0|)
      ensures !maskData ==> Contents(buffers) == old(Contents(buffers))
      ensures maskData && old(mask)[0] != 0 ==>
        var n := Unmasked(false);
        && Contents(buffers[..n]) == Mask(old(Contents(buffers[..n])), mask, |buf0|)
        && forall j :: n <= j < |buffers| ==> buffers[j][..] == old(buffers[j][..])
    {
      hide Xor, Mask, Header, FrameHeaderSize;
      var dataLen := TotalLength();
      dataLen := dataLen + |buf0|;
      var newMask := maskData && mask[0] == 0;
      if newMask {
        mask := random;
      }
      var headerSize := FrameHeaderSize(maskData, dataLen);
      wsbuf0 := FirstBuffer(opcode, maskData, buf0, dataLen);
      if maskData {
        var idx := XorBuffer(wsbuf0, headerSize, mask, 0);
        XorBuffers(buffers, Unmasked(newMask), mask, idx);
        assert buffers[..|buffers|] == buffers;
      }
    }

    /** The header with buf0 behind it, not masked yet. */
    method FirstBuffer(opcode: nat, maskData: bool, buf0: seq<Byte>, dataLen: nat) returns (wsbuf0: array<Byte>)
      requires |mask| == 4 && opcode < 16 && dataLen < 0x8000_0000_0000_0000
      ensures fresh(wsbuf0) && wsbuf0.Length == FrameHeaderSize(maskData, dataLen) + |buf0|
      ensures wsbuf0[..FrameHeaderSize(maskData, dataLen)] == Header(opcode, maskData, dataLen, mask)
      ensures wsbuf0[FrameHeaderSize(maskData, dataLen)..] == buf0
      ensures wsbuf0[..] == Header(opcode, maskData, dataLen, mask) + buf0
    {
      hide Header, FrameHeaderSize;
      var headerSize := FrameHeaderSize(maskData, dataLen);
      wsbuf0 := new Byte[headerSize + |buf0|];
      var bufLen := WriteHeader(wsbuf0, opcode, maskData, dataLen);
      assert bufLen == headerSize;
      Copy(wsbuf0, headerSize, buf0);
      assert wsbuf0[..] == wsbuf0[..headerSize + |buf0|];
    }

    /** The loop that adds up the buffer lengths. */
    method TotalLength() returns (n: nat)
      ensures n == |Contents(buffers)|
    {
      n := 0;
      for i := 0 to |buffers|
        invariant n == |Contents(buffers[..i])|
      {
        assert buffers[..i + 1][..i] == buffers[..i];
        n := n + buffers[i].Length;
      }
      assert buffers[..|buffers|] == buffers;
    }

    /** The header bytes, one after the other; returns how many were written. */
    method WriteHeader(out: array<Byte>, opcode: nat, maskData: bool, dataLen: nat) returns (bufLen: nat)
      requires |mask| == 4 && opcode < 16 && dataLen < 0x8000_0000_0000_0000
      requires FrameHeaderSize(maskData, dataLen) <= out.Length
      modifies out
      ensures bufLen == FrameHeaderSize(maskData, dataLen)
      ensures out[..bufLen] == Header(opcode, maskData, dataLen, mask)
    {
      hide BigEndian;
      out[0] := 128 + opcode;
      var bit := if maskData then 128 else 0;
      bufLen := 2;
      if dataLen < 126 {
        out[1] := bit + dataLen;
        assert out[..bufLen] == [128 + opcode] + [bit + dataLen];
      } else if dataLen < 65536 {
        out[1] := bit + 126;
        Copy(out, bufLen, BigEndian(dataLen, 2));
        bufLen := bufLen + 2;
        assert out[..bufLen] == [128 + opcode] + ([bit + 126] + BigEndian(dataLen, 2));
      } else {
        out[1] := bit + 127;
        Copy(out, bufLen, BigEndian(dataLen, 8));
        bufLen := bufLen + 8;
        assert out[..bufLen] == [128 + opcode] + ([bit + 127] + BigEndian(dataLen, 8));
      }
      if maskData {
        Copy(out, bufLen, mask);
        bufLen := bufLen + 4;
      }
    }

    /** WebSocket_unmaskData. */
    method UnmaskData(idx: nat)
      requires Valid()
      modifies this, buffers
      ensures Valid() && mask == [0, 0, 0, 0]
      ensures Contents(buffers) == Mask(old(Contents(buffers)), old(mask), idx)
    {
      hide Xor, Mask;
      assert buffers[..|buffers|] == buffers;
      XorBuffers(buffers, |buffers|, mask, idx);
      mask := [0, 0, 0, 0];
    }
  }

  /** memcpy into an array. */
  method Copy(out: array<Byte>, at: nat, data: seq<Byte>)
    requires at + |data| <= out.Length
    modifies out
    ensures out[..at + |data|] == old(out[..at]) + data
  {
    forall i | 0 <= i < |data| {
      out[at + i] := data[i];
    }
  }

  /** A fresh frame parses, by the standard, to one final frame of the shortest form whose
      unmasked payload is buf0 and all buffers; taking the mask off again restores every
      byte of the buffers. */
  method SendFrame(bufs: PacketBuffers, opcode: nat, buf0: seq<Byte>, random: seq<Byte>) returns (wire: seq<Byte>)
    requires bufs.Valid() && bufs.mask[0] == 0 && opcode < 16 && |random| == 4
    requires |buf0| + |Contents(bufs.buffers)| < 0x8000_0000_0000_0000
    modifies bufs, bufs.buffers
    ensures ReadFrame(wire) == Some(WsFrame(true, 0, opcode, true, buf0 + old(Contents(bufs.buffers)), []))
    ensures Contents(bufs.buffers) == old(Contents(bufs.buffers)) && bufs.mask == [0, 0, 0, 0]
  {
    hide Xor, Mask, Header, ReadFrame;
    var wsbuf0 := bufs.BuildFrame(opcode, true, buf0, random);
    ghost var data := old(Contents(bufs.buffers));
    wire := wsbuf0[..] + Contents(bufs.buffers);
    MaskAppend(buf0, data, random, 0);
    HeaderReadsBack(opcode, |buf0| + |data|, random, buf0 + data, []);
    assert wire == Header(opcode, true, |buf0| + |data|, random) + Mask(buf0 + data, random, 0) + [];
    bufs.UnmaskData(|buf0|);
    MaskTwice(data, random, |buf0|);
  }
  /** A frame built again with a kept key reads back with the first buffers as they were and
      the others with one mask taken off: the data meant exactly when those were masked with
      this key at this index before. */
  method SendAgain(bufs: PacketBuffers, opcode: nat, buf0: seq<Byte>, random: seq<Byte>, ghost meant: seq<Byte>)
    returns (wire: seq<Byte>)
    requires bufs.Valid() && bufs.mask[0] != 0 && opcode < 16 && |random| == 4
    requires |buf0| + |Contents(bufs.buffers)| < 0x8000_0000_0000_0000
    modifies bufs, bufs.buffers
    ensures var n := bufs.Unmasked(false);
      var plain, others := old(Contents(bufs.buffers[..n])), old(Contents(bufs.buffers[n..]));
      var idx := |buf0| + |plain|;
      && ReadFrame(wire) ==
        Some(WsFrame(true, 0, opcode, true, buf0 + plain + Mask(others, old(bufs.mask), idx), []))
      && (ReadFrame(wire) == Some(WsFrame(true, 0, opcode, true, buf0 + plain + meant, []))
          <==> others == Mask(meant, old(bufs.mask), idx))
      && Contents(bufs.buffers) == plain + Mask(others, old(bufs.mask), idx)
    ensures bufs.mask == [0, 0, 0, 0]
  {
    hide Xor, Mask, Header, ReadFrame;
    var n := bufs.Unmasked(false);
    ghost var key := bufs.mask;
    ghost var plain, others := Contents(bufs.buffers[..n]), Contents(bufs.buffers[n..]);
    ghost var idx := |buf0| + |plain|;
    ghost var shown := Mask(others, key, idx);
    ContentsOfParts(bufs.buffers, n);
    label Before:
    var wsbuf0 := bufs.BuildFrame(opcode, true, buf0, random);
    SameContents@Before(bufs.buffers[n..]);
    ContentsOfParts(bufs.buffers, n);
    wire := wsbuf0[..] + Contents(bufs.buffers);
    MaskedParts(buf0, plain, others, key);
    HeaderReadsBack(opcode, |buf0| + |plain + others|, key, buf0 + plain + shown, []);
    assert wire == Header(opcode, true, |buf0| + |plain + others|, key) + Mask(buf0 + plain + shown, key, 0) + [];
    bufs.UnmaskData(|buf0|);
    MaskTwice(meant, key, idx);
    SameFront(buf0 + plain, shown, meant);
  }

  /** A PUBLISH built again with a kept key: its plain id stands before the payload masked
      earlier, and id and payload read back right exactly when the key is 0 over the id. */
  lemma ResentPublish(id: seq<Byte>, payload: seq<Byte>, key: seq<Byte>, idx: nat)
    requires |key| == 4
    ensures Mask(id + Mask(payload, key, idx + |id|), key, idx) == id + payload
      <==> forall i :: 0 <= i < |id| ==> KeyOctet(key, idx, i) == 0
  {
    hide Xor, Mask;
    MaskAppend(id, Mask(payload, key, idx + |id|), key, idx);
    MaskTwice(payload, key, idx + |id|);
    PlainStaysPlain(id, key, idx);
    var m := Mask(id, key, idx);
    assert (m + payload)[..|id|] == m && (id + payload)[..|id|] == id;
  }

  lemma SameFront(a: seq<Byte>, b: seq<Byte>, c: seq<Byte>)
    ensures a + b == a + c <==> b == c
  {
    assert (a + b)[|a|..] == b && (a + c)[|a|..] == c;
  }

  lemma MaskedParts(buf0: seq<Byte>, plain: seq<Byte>, others: seq<Byte>, key: seq<Byte>)
    requires |key| == 4
    ensures var idx := |buf0| + |plain|;
      var shown := Mask(others, key, idx);
      && Mask(shown, key, idx) == others
      && Mask(buf0 + plain + shown, key, 0) == Mask(buf0, key, 0) + (Mask(plain, key, |buf0|) + others)
      && Mask(Mask(plain, key, |buf0|) + others, key, |buf0|) == plain + shown
  {
    hide Xor, Mask;
    var idx := |buf0| + |plain|;
    var shown := Mask(others, key, idx);
    MaskTwice(others, key, idx);
    MaskAppend(buf0 + plain, shown, key, 0);
    MaskAppend(buf0, plain, key, 0);
    MaskAppend(Mask(plain, key, |buf0|), others, key, |buf0|);
    MaskTwice(plain, key, |buf0|);
  }

  lemma {:induction false} ContentsOfParts(buffers: seq<array<Byte>>, n: nat)
    requires n <= |buffers|
    ensures Contents(buffers) == Contents(buffers[..n]) + Contents(buffers[n..])
  {
    if n == |buffers| {
      assert buffers[..n] == buffers;
    } else {
      var front := buffers[..|buffers| - 1];
      ContentsOfParts(front, n);
      assert front[..n] == buffers[..n];
      assert buffers[n..][..|buffers[n..]| - 1] == front[n..];
    }
  }

  twostate lemma {:induction false} SameContents(buffers: seq<array<Byte>>)
    requires forall j :: 0 <= j < |buffers| ==> buffers[j][..] == old(buffers[j][..])
    ensures Contents(buffers) == old(Contents(buffers))
  {
    if buffers != [] {
      SameContents(buffers[..|buffers| - 1]);
    }
  }
}
