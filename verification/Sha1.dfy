/** SHA-1 as FIPS 180-4 defines it: the functions and constants of sections 4.1.1 and 4.2.1,
    the padding of section 5.1.1 and the computation of section 6.1.2. */
module Sha1Standard {
  import opened Common

  type Word = bv32

  function Rotl(x: Word, n: nat): Word
    requires 0 < n < 32
  {
    (x << n) | (x >> (32 - n))
  }

  /** Addition modulo 2^32. */
  function Add(x: Word, y: Word): Word { x + y }

  function Ch(x: Word, y: Word, z: Word): Word { (x & y) ^ (!x & z) }
  function Parity(x: Word, y: Word, z: Word): Word { x ^ y ^ z }
  function Maj(x: Word, y: Word, z: Word): Word { (x & y) ^ (x & z) ^ (y & z) }

  function F(t: nat, x: Word, y: Word, z: Word): Word {
    if t < 20 then Ch(x, y, z) else if t < 40 then Parity(x, y, z) else if t < 60 then Maj(x, y, z) else Parity(x, y, z)
  }

  function K(t: nat): Word {
    if t < 20 then 0x5A827999 else if t < 40 then 0x6ED9EBA1 else if t < 60 then 0x8F1BBCDC else 0xCA62C1D6
  }

  function NextWord(w3: Word, w8: Word, w14: Word, w16: Word): Word {
    Rotl(w3 ^ w8 ^ w14 ^ w16, 1)
  }

  /** The message schedule: one word for every round. */
  function W(block: seq<Word>, t: nat): Word
    requires |block| == 16
  {
    if t < 16 then block[t]
    else NextWord(W(block, t - 3), W(block, t - 8), W(block, t - 14), W(block, t - 16))
  }

  datatype Registers = Registers(a: Word, b: Word, c: Word, d: Word, e: Word)

  const Initial := Registers(0x67452301, 0xEFCDAB89, 0x98BADCFE, 0x10325476, 0xC3D2E1F0)

  /** One round. */
  function Round(r: Registers, t: nat, w: Word): Registers {
    Registers(Add(Add(Add(Add(Rotl(r.a, 5), F(t, r.b, r.c, r.d)), r.e), K(t)), w), r.a, Rotl(r.b, 30), r.c, r.d)
  }

  /** The working variables after the first n rounds. */
  function Rounds(h: Registers, block: seq<Word>, n: nat): Registers
    requires |block| == 16
  {
    if n == 0 then h else Round(Rounds(h, block, n - 1), n - 1, W(block, n - 1))
  }

  function Added(h: Registers, r: Registers): Registers {
    Registers(Add(h.a, r.a), Add(h.b, r.b), Add(h.c, r.c), Add(h.d, r.d), Add(h.e, r.e))
  }

  function Compress(h: Registers, block: seq<Word>): Registers
    requires |block| == 16
  {
    Added(h, Rounds(h, block, 80))
  }

  /** Four bytes as a word, most significant first. */
  function Big(a: bv8, b: bv8, c: bv8, d: bv8): Word {
    (a as Word << 24) | (b as Word << 16) | (c as Word << 8) | d as Word
  }

  /** A block of 64 bytes as sixteen words, most significant byte first. */
  function BlockWord(b: seq<Byte>, i: nat): Word
    requires |b| == 64 && i < 16
  {
    Big(b[4 * i] as bv8, b[4 * i + 1] as bv8, b[4 * i + 2] as bv8, b[4 * i + 3] as bv8)
  }

  function Words(b: seq<Byte>): (w: seq<Word>)
    requires |b| == 64
    ensures |w| == 16
  {
    seq(16, i requires 0 <= i < 16 => BlockWord(b, i))
  }

  /** The hash value after the whole blocks of b. */
  function HashBlocks(b: seq<Byte>): Registers
    requires |b| % 64 == 0
    decreases |b|
  {
    if b == [] then Initial
    else Compress(HashBlocks(b[..|b| - 64]), Words(b[|b| - 64..]))
  }

  /** How many bytes to add so that eight are left in the last block. */
  function PadAmount(n: nat): (k: nat)
    ensures 1 <= k <= 64 && (n + k) % 64 == 56
  {
    if n % 64 < 56 then 56 - n % 64 else 120 - n % 64
  }

  /** A one bit, zeros and a 64-bit length behind the message. */
  function PadWith(m: seq<Byte>, bits: nat): (p: seq<Byte>)
    ensures |p| % 64 == 0
  {
    m + [0x80] + seq(PadAmount(|m|) - 1, _ => 0) + BigEndian(bits, 8)
  }

  function Pad(m: seq<Byte>): seq<Byte> {
    PadWith(m, 8 * |m|)
  }

  /** A word in four bytes, most significant first. */
  function Int4(w: Word): (r: seq<Byte>)
    ensures |r| == 4
  {
    [LowByte(w >> 24), LowByte(w >> 16), LowByte(w >> 8), LowByte(w)]
  }

  function LowByte(w: Word): Byte {
    (w & 0xFF) as int
  }

  function Bytes(r: Registers): (b: seq<Byte>)
    ensures |b| == 20
  {
    Int4(r.a) + Int4(r.b) + Int4(r.c) + Int4(r.d) + Int4(r.e)
  }

  /** The SHA-1 digest of a message. */
  function Digest(m: seq<Byte>): seq<Byte> {
    Bytes(HashBlocks(Pad(m)))
  }
}

/** The implementation of src/utils/SHA1.c. */
module Sha1 {
  import opened Common
  import opened Sha1Standard

  /** ROTATE_LEFT32. */
  function RotateLeft32(a: Word, n: nat): Word
    requires 0 < n < 32
  {
    (a << n) | (a >> (32 - n))
  }

  lemma RotationIsRotl(a: Word, n: nat)
    requires 0 < n < 32
    ensures RotateLeft32(a, n) == Rotl(a, n)
  {
  }

  /** be32toh and htobe32 on a little-endian machine: the bytes in reverse. */
  function Swap32(w: Word): Word {
    (w << 24) | ((w & 0xFF00) << 8) | ((w >> 8) & 0xFF00) | (w >> 24)
  }

  function Little(a: bv8, b: bv8, c: bv8, d: bv8): Word {
    (a as Word) | (b as Word << 8) | (c as Word << 16) | (d as Word << 24)
  }

  /** The word such a machine sees in four bytes of the buffer. */
  function MemoryWord(b: seq<Byte>, i: nat): Word
    requires |b| == 64 && i < 16
  {
    Little(b[4 * i] as bv8, b[4 * i + 1] as bv8, b[4 * i + 2] as bv8, b[4 * i + 3] as bv8)
  }

  /** And the bytes a word has in its memory. */
  function MemoryBytes(w: Word): (r: seq<Byte>)
    ensures |r| == 4
  {
    [(w & 0xFF) as int, ((w >> 8) & 0xFF) as int, ((w >> 16) & 0xFF) as int, ((w >> 24) & 0xFF) as int]
  }

  lemma SwapReverses(a: bv8, b: bv8, c: bv8, d: bv8)
    ensures Swap32(Little(a, b, c, d)) == Big(a, b, c, d)
  {
  }

  /** The words of a block are read most significant byte first. */
  lemma LoadedIsBlockWord(b: seq<Byte>, i: nat)
    requires |b| == 64 && i < 16
    ensures Swap32(MemoryWord(b, i)) == BlockWord(b, i)
  {
    hide Swap32, Big, Little;
    SwapReverses(b[4 * i] as bv8, b[4 * i + 1] as bv8, b[4 * i + 2] as bv8, b[4 * i + 3] as bv8);
  }

  /** The words of the digest are written most significant byte first. */
  lemma StoredIsInt4(w: Word)
    ensures MemoryBytes(Swap32(w)) == Int4(w)
  {
    SwappedBytes(w);
  }

  lemma SwappedBytes(w: Word)
    ensures var s := Swap32(w);
      && s & 0xFF == (w >> 24) & 0xFF && (s >> 8) & 0xFF == (w >> 16) & 0xFF
      && (s >> 16) & 0xFF == (w >> 8) & 0xFF && (s >> 24) & 0xFF == w & 0xFF
  {
  }

  /** The code's choice and majority are written with `or`. */
  function CodeF(t: nat, x: Word, y: Word, z: Word): Word {
    if t < 20 then (x & y) | (!x & z)
    else if t < 40 then x ^ y ^ z
    else if t < 60 then (x & y) | (x & z) | (y & z)
    else x ^ y ^ z
  }

  lemma CodeFIsF(t: nat, x: Word, y: Word, z: Word)
    ensures CodeF(t, x, y, z) == F(t, x, y, z)
  {
    assert (x & y) | (!x & z) == Ch(x, y, z);
    assert (x & y) | (x & z) | (y & z) == Maj(x, y, z);
  }

  /** The sixteen-word window holds the last sixteen words of the schedule. */
  ghost predicate Window(w: seq<Word>, block: seq<Word>, n: nat)
    requires |w| == 16 && |block| == 16 && n >= 16
  {
    forall j :: n - 16 <= j < n ==> w[j % 16] == W(block, j)
  }

  lemma ScheduleStep(block: seq<Word>, n: nat)
    requires |block| == 16 && n >= 16
    ensures W(block, n) == NextWord(W(block, n - 3), W(block, n - 8), W(block, n - 14), W(block, n - 16))
  {
    hide NextWord;
  }

  /** The next word of the schedule comes from four words of the window. */
  lemma NextFromWindow(w: seq<Word>, block: seq<Word>, n: nat)
    requires |w| == 16 && |block| == 16 && n >= 16 && Window(w, block, n)
    ensures W(block, n) == NextWord(w[(n + 13) % 16], w[(n + 8) % 16], w[(n + 2) % 16], w[n % 16])
  {
    hide W, NextWord;
    ScheduleStep(block, n);
    Modulo16(n);
  }

  lemma Modulo16(n: nat)
    requires n >= 16
    ensures (n + 13) % 16 == (n - 3) % 16 && (n + 8) % 16 == (n - 8) % 16
    ensures (n + 2) % 16 == (n - 14) % 16 && n % 16 == (n - 16) % 16
  {
    SixteenMore(n - 3);
    SixteenMore(n - 8);
    SixteenMore(n - 14);
    SixteenMore(n - 16);
  }

  lemma SixteenMore(n: nat)
    ensures (n + 16) % 16 == n % 16
  {
  }

  /** It takes the place of the oldest one. */
  lemma WindowMoves(w: seq<Word>, block: seq<Word>, n: nat)
    requires |w| == 16 && |block| == 16 && n >= 16 && Window(w, block, n)
    ensures Window(w[n % 16 := W(block, n)], block, n + 1)
  {
    hide W;
    forall j | n - 15 <= j < n + 1
      ensures w[n % 16 := W(block, n)][j % 16] == W(block, j)
    {
      if j != n {
        assert j % 16 != n % 16;
      }
    }
  }

  /** The constants as the code has them. */
  function CodeK(t: nat): Word {
    if t < 20 then 0x5A827999 else if t < 40 then 0x6ED9EBA1 else if t < 60 then 0x8F1BBCDC else 0xCA62C1D6
  }

  /** The new value of the first register as the code computes it, with word and constant the
      other way round. */
  function CodeSum(r: Registers, t: nat, w: Word): Word {
    Add(Add(Add(Add(RotateLeft32(r.a, 5), CodeF(t, r.b, r.c, r.d)), r.e), w), CodeK(t))
  }

  lemma CodeKIsK(t: nat)
    ensures CodeK(t) == K(t)
  {
  }

  lemma CodeSumIsRound(r: Registers, t: nat, w: Word)
    ensures CodeSum(r, t, w) == Round(r, t, w).a
  {
    hide Add, Rotl, RotateLeft32, CodeF, F, K, CodeK;
    CodeFIsF(t, r.b, r.c, r.d);
    CodeKIsK(t);
    RotationIsRotl(r.a, 5);
    AnyOrder(Add(Add(Rotl(r.a, 5), F(t, r.b, r.c, r.d)), r.e), w, K(t));
  }

  /** A sum modulo 2^32 does not depend on the order. */
  lemma AnyOrder(x: Word, y: Word, z: Word)
    ensures Add(Add(x, y), z) == Add(Add(x, z), y)
  {
    hide Add;
    AddTwo(x, y, z);
    AddTwo(x, z, y);
    SumAnyOrder(x, y, z);
  }

  lemma SumAnyOrder(x: Word, y: Word, z: Word)
    ensures (x + y) + z == (x + z) + y
  {
  }

  lemma AddTwo(x: Word, y: Word, z: Word)
    ensures Add(Add(x, y), z) == (x + y) + z
  {
    hide Add;
    AddIsSum(x, y);
    AddToSum(Add(x, y), x, y, z);
  }

  lemma AddIsSum(x: Word, y: Word)
    ensures Add(x, y) == x + y
  {
  }

  lemma AddToSum(s: Word, x: Word, y: Word, z: Word)
    requires s == x + y
    ensures Add(s, z) == (x + y) + z
  {
  }

  lemma NextIsRotated(w3: Word, w8: Word, w14: Word, w16: Word)
    ensures RotateLeft32(w3 ^ w8 ^ w14 ^ w16, 1) == NextWord(w3, w8, w14, w16)
  {
    hide RotateLeft32, Rotl;
    RotationIsRotl(w3 ^ w8 ^ w14 ^ w16, 1);
  }

  ghost function Contents(a: array<Word>): Registers
    requires a.Length == 5
    reads a
  {
    Registers(a[0], a[1], a[2], a[3], a[4])
  }

  lemma HashLastBlock(b: seq<Byte>, last: seq<Byte>)
    requires |b| % 64 == 0 && |last| == 64
    ensures HashBlocks(b + last) == Compress(HashBlocks(b), Words(last))
  {
    hide Compress, Words;
    assert (b + last)[..|b|] == b && (b + last)[|b|..] == last;
  }

  lemma RestOfBlocks(whole: nat, rest: nat)
    requires whole % 64 == 0 && rest < 64
    ensures (whole + rest) % 64 == rest
  {
  }

  class Context {
    const h: array<Word>
    const buffer: array<Byte>
    var size: nat
    var total: nat

    /** The bytes given to Update so far that are hashed already, in whole blocks. */
    ghost var done: seq<Byte>

    ghost predicate Allocated() {
      h.Length == 5 && buffer.Length == 64
    }

    ghost function Value(): Registers
      requires Allocated()
      reads h
    {
      Contents(h)
    }

    /** All bytes given to Update so far; of the buffer only the first `size` are relied on. */
    ghost function Message(): seq<Byte>
      requires Allocated() && size <= 64
      reads this, buffer
    {
      done + buffer[..size]
    }

    ghost predicate Valid()
      reads this, h, buffer
    {
      && Allocated() && size < 64 && |done| % 64 == 0
      && Value() == HashBlocks(done)
      && total == |Message()| % 0x1_0000_0000
    }

    /** SHA1_Init. */
    constructor ()
      ensures Valid() && Message() == [] && fresh(h) && fresh(buffer)
    {
      h := new Word[5] [0x67452301, 0xEFCDAB89, 0x98BADCFE, 0x10325476, 0xC3D2E1F0];
      buffer := new Byte[64];
      size, total := 0, 0;
      done := [];
    }

    /** SHA1_ProcessBlock. The schedule lives in the sixteen words of the buffer itself, so
        that the block is gone afterwards. */
    method ProcessBlock()
      requires Allocated()
      modifies h, buffer
      ensures Value() == Compress(old(Value()), Words(old(buffer[..])))
    {
      ghost var block := Words(buffer[..]);
      var blks := new Word[5] [h[0], h[1], h[2], h[3], h[4]];
      var w := LoadWords();
      RunRounds(blks, w);
      StoreWords(w);
      AddRegisters(blks);
    }

    /** The eighty rounds, in place. */
    method RunRounds(blks: array<Word>, w: array<Word>)
      requires blks.Length == 5 && w.Length == 16 && w != blks
      modifies blks, w
      ensures Contents(blks) == Rounds(old(Contents(blks)), old(w[..]), 80)
    {
      hide NextWord, Round, RotateLeft32;
      ghost var block, start := w[..], Contents(blks);
      for i := 0 to 80
        invariant Window(w[..], block, if i < 16 then 16 else i)
        invariant Contents(blks) == Rounds(start, block, i)
      {
        if i >= 16 {
          NextFromWindow(w[..], block, i);
          WindowMoves(w[..], block, i);
          NextIsRotated(w[(i + 13) % 16], w[(i + 8) % 16], w[(i + 2) % 16], w[i % 16]);
          w[i % 16] := RotateLeft32(w[(i + 13) % 16] ^ w[(i + 8) % 16] ^ w[(i + 2) % 16] ^ w[i % 16], 1);
        }
        assert w[..][i % 16] == W(block, i);
        RunRound(blks, i, w[i % 16]);
      }
    }

    /** One round: the new value and the shift of the five registers. */
    method RunRound(blks: array<Word>, i: nat, wi: Word)
      requires blks.Length == 5
      modifies blks
      ensures Contents(blks) == Round(old(Contents(blks)), i, wi)
    {
      hide CodeSum, Rotl, RotateLeft32, Add, F, K;
      RotationIsRotl(blks[1], 30);
      var r := Registers(blks[0], blks[1], blks[2], blks[3], blks[4]);
      CodeSumIsRound(r, i, wi);
      var tmp := CodeSum(r, i, wi);
      blks[4] := blks[3];
      blks[3] := blks[2];
      blks[2] := RotateLeft32(blks[1], 30);
      blks[1] := blks[0];
      blks[0] := tmp;
    }

    method AddRegisters(blks: array<Word>)
      requires Allocated() && blks.Length == 5 && blks != h
      modifies h
      ensures Value() == Added(old(Value()), Contents(blks))
    {
      hide Add;
      var i := 0;
      while i < 5
        invariant 0 <= i <= 5
        invariant forall j :: 0 <= j < i ==> h[j] == Add(old(h[j]), blks[j])
        invariant forall j :: i <= j < 5 ==> h[j] == old(h[j])
      {
        h[i] := Add(h[i], blks[i]);
        i := i + 1;
      }
    }

    /** The buffer seen as words, each turned to the machine's byte order. */
    method LoadWords() returns (w: array<Word>)
      requires Allocated()
      ensures fresh(w) && w.Length == 16 && w[..] == Words(buffer[..])
    {
      hide BlockWord, MemoryWord, Swap32;
      w := new Word[16];
      for i := 0 to 16
        invariant forall j :: 0 <= j < i ==> w[j] == BlockWord(buffer[..], j)
      {
        LoadedIsBlockWord(buffer[..], i);
        w[i] := Swap32(MemoryWord(buffer[..], i));
      }
    }

    /** The buffer after the words in it were overwritten, in the byte order of a
        little-endian machine. Nothing is promised about it. */
    method StoreWords(w: array<Word>)
      requires Allocated() && w.Length == 16
      modifies buffer
    {
      for i := 0 to 16 {
        var bytes := MemoryBytes(w[i]);
        buffer[4 * i], buffer[4 * i + 1] := bytes[0], bytes[1];
        buffer[4 * i + 2], buffer[4 * i + 3] := bytes[2], bytes[3];
      }
    }

    /** SHA1_Update. */
    method Update(data: seq<Byte>)
      requires Valid()
      modifies this, h, buffer
      ensures Valid() && Message() == old(Message()) + data
    {
      hide HashBlocks;
      var at := 0;
      assert Message() == old(Message()) + data[..0];
      while at < |data|
        invariant 0 <= at <= |data| && Valid()
        invariant Message() == old(Message()) + data[..at]
      {
        var n := 64 - size;
        if |data| - at < n {
          n := |data| - at;
        }
        assert data[..at + n] == data[..at] + data[at..at + n];
        Absorb(data[at..at + n]);
        at := at + n;
      }
      assert data[..|data|] == data;
    }

    /** One turn of the loop in SHA1_Update: the bytes fit the buffer, and a full buffer is
        processed. */
    method Absorb(part: seq<Byte>)
      requires Valid() && 0 < |part| <= 64 - size
      modifies this, h, buffer
      ensures Valid() && Message() == old(Message()) + part
    {
      hide HashBlocks;
      ghost var was := Message();
      Copy(part);
      size := size + |part|;
      total := (total + |part|) % 0x1_0000_0000;
      assert Message() == was + part;
      TotalGrows(|was|, |part|);
      if size == 64 {
        Flush();
      }
    }

    /** A full buffer becomes part of the hash. */
    method Flush()
      requires Allocated() && size == 64 && |done| % 64 == 0
      requires Value() == HashBlocks(done)
      modifies this`size, this`done, h, buffer
      ensures Allocated() && size == 0 && |done| % 64 == 0
      ensures Value() == HashBlocks(done) && Message() == old(Message())
    {
      hide HashBlocks, Compress, Words;
      assert buffer[..64] == buffer[..];
      HashLastBlock(done, buffer[..]);
      done := done + buffer[..];
      ProcessBlock();
      size := 0;
      assert Message() == done;
    }

    /** memcpy behind the bytes already in the buffer. */
    method Copy(part: seq<Byte>)
      requires Allocated() && size + |part| <= 64
      modifies buffer
      ensures buffer[..size + |part|] == old(buffer[..size]) + part
    {
      for i := 0 to |part|
        invariant forall j :: 0 <= j < size ==> buffer[j] == old(buffer[j])
        invariant forall j :: 0 <= j < i ==> buffer[size + j] == part[j]
      {
        buffer[size + i] := part[i];
      }
    }

    /** SHA1_Final. The bit length is computed in 32 bits before the padding goes through
        Update like any other data. */
    method Final() returns (md: seq<Byte>)
      requires Valid()
      modifies this, h, buffer
      ensures md == Bytes(HashBlocks(PadWith(old(Message()), CodeLength(|old(Message())|))))
    {
      hide HashBlocks, Compress, Words, Int4, BigEndian, PadAmount;
      ghost var m := Message();
      var bits := total * 8 % 0x1_0000_0000;
      var padAmount := if size < 56 then 56 - size else 64 + 56 - size;
      AddPadding(padAmount);
      PutLength(bits);
      ghost var all := PadWith(m, bits);
      assert all == done + buffer[..];
      HashLastBlock(done, buffer[..]);
      ProcessBlock();
      md := Output();
    }

    /** The registers in network byte order, and their memory. */
    method Output() returns (md: seq<Byte>)
      requires Allocated()
      modifies h
      ensures md == Bytes(old(Value()))
    {
      hide Swap32, Int4, MemoryBytes;
      for i := 0 to 5
        invariant forall j :: 0 <= j < i ==> h[j] == Swap32(old(h[j]))
        invariant forall j :: i <= j < 5 ==> h[j] == old(h[j])
      {
        h[i] := Swap32(h[i]);
      }
      forall i | 0 <= i < 5 ensures MemoryBytes(h[i]) == Int4(old(h[i])) {
        StoredIsInt4(old(h[i]));
      }
      md := MemoryBytes(h[0]) + MemoryBytes(h[1]) + MemoryBytes(h[2]) + MemoryBytes(h[3]) + MemoryBytes(h[4]);
    }

    /** The front of the constant pad, given to Update. */
    method AddPadding(padAmount: nat)
      requires Valid() && padAmount == if size < 56 then 56 - size else 64 + 56 - size
      modifies this, h, buffer
      ensures Valid() && size == 56
      ensures Message() == old(Message()) + [0x80] + seq(PadAmount(|old(Message())|) - 1, _ => 0)
    {
      hide HashBlocks;
      ghost var m := Message();
      RestOfBlocks(|done|, size);
      var pad: seq<Byte> := [0x80] + seq(63, _ => 0);
      assert pad[..padAmount] == [0x80] + seq(PadAmount(|m|) - 1, _ => 0);
      Update(pad[..padAmount]);
      RestOfBlocks(|done|, size);
    }

    /** The length, big-endian, in the last two words of the buffer. */
    method PutLength(bits: nat)
      requires Allocated() && bits < 0x1_0000_0000
      modifies buffer
      ensures buffer[..] == old(buffer[..56]) + BigEndian(bits, 8)
    {
      FourLowBytes(bits);
      buffer[56], buffer[57], buffer[58], buffer[59] := 0, 0, 0, 0;
      buffer[60] := bits / 256 / 256 / 256 % 256;
      buffer[61] := bits / 256 / 256 % 256;
      buffer[62] := bits / 256 % 256;
      buffer[63] := bits % 256;
    }
  }

  lemma FourLowBytes(n: nat)
    requires n < 0x1_0000_0000
    ensures BigEndian(n, 8) ==
      [0, 0, 0, 0, n / 256 / 256 / 256 % 256, n / 256 / 256 % 256, n / 256 % 256, n % 256]
  {
    var m := n / 256 / 256 / 256 / 256;
    assert m == 0;
    assert BigEndian(0, 1) == BigEndian(0, 0) + [0];
    assert BigEndian(0, 2) == BigEndian(0, 1) + [0];
    assert BigEndian(0, 3) == BigEndian(0, 2) + [0];
    assert BigEndian(0, 4) == [0, 0, 0, 0];
    assert BigEndian(n / 256 / 256 / 256, 5) == BigEndian(0, 4) + [n / 256 / 256 / 256 % 256];
    assert BigEndian(n / 256 / 256, 6) == BigEndian(n / 256 / 256 / 256, 5) + [n / 256 / 256 % 256];
    assert BigEndian(n / 256, 7) == BigEndian(n / 256 / 256, 6) + [n / 256 % 256];
  }

  lemma TotalGrows(m: nat, n: nat)
    ensures (m % 0x1_0000_0000 + n) % 0x1_0000_0000 == (m + n) % 0x1_0000_0000
  {
    var q := m / 0x1_0000_0000;
    assert m + n == q * 0x1_0000_0000 + (m % 0x1_0000_0000 + n);
  }

  /** The bit length the code stores for a message of n bytes. */
  function CodeLength(n: nat): nat {
    n % 0x1_0000_0000 * 8 % 0x1_0000_0000
  }

  lemma CodeLengthIsExact(n: nat)
    ensures CodeLength(n) == 8 * n <==> n < 0x2000_0000
  {
    if n < 0x2000_0000 {
      assert n % 0x1_0000_0000 == n;
    }
  }

  /** The code pads as the standard does exactly below 2^29 bytes. */
  lemma PaddingIsStandard(m: seq<Byte>)
    requires |m| < 0x2000_0000_0000_0000
    ensures PadWith(m, CodeLength(|m|)) == Pad(m) <==> |m| < 0x2000_0000
  {
    var a, b := CodeLength(|m|), 8 * |m|;
    CodeLengthIsExact(|m|);
    var front := m + [0x80] + seq(PadAmount(|m|) - 1, _ => 0);
    if PadWith(m, a) == Pad(m) {
      assert PadWith(m, a)[|front|..] == BigEndian(a, 8);
      assert Pad(m)[|front|..] == BigEndian(b, 8);
      Powers();
      NumberOfBigEndian(a, 8);
      NumberOfBigEndian(b, 8);
    }
  }

  /** SHA-1 of any message in any pieces: the digest of the standard, below 2^29 bytes. */
  method DigestOf(parts: seq<seq<Byte>>) returns (md: seq<Byte>)
    ensures |Joined(parts)| < 0x2000_0000 ==> md == Digest(Joined(parts))
  {
    var ctx := new Context();
    for i := 0 to |parts|
      invariant ctx.Valid() && fresh(ctx) && fresh(ctx.h) && fresh(ctx.buffer)
      invariant ctx.Message() == Joined(parts[..i])
    {
      assert parts[..i + 1][..i] == parts[..i];
      ctx.Update(parts[i]);
    }
    assert parts[..|parts|] == parts;
    ghost var m := ctx.Message();
    md := ctx.Final();
    if |m| < 0x2000_0000 {
      PaddingIsStandard(m);
    }
  }

  function Joined(parts: seq<seq<Byte>>): seq<Byte> {
    if parts == [] then [] else Joined(parts[..|parts| - 1]) + parts[|parts| - 1]
  }
}
