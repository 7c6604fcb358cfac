/** Vocabulary shared by the modules: optional values, bytes as small integers and
    the concatenation of a list of buffers. */
module Common {
  datatype Option<+T> = None | Some(value: T)

  /** An unsigned C byte. */
  type Byte = x: int | 0 <= x < 256

  /** The bytes of a list of buffers, one after the other. */
  function Concat<T>(buffers: seq<seq<T>>): (r: seq<T>)
  {
    if buffers == [] then [] else buffers[0] + Concat(buffers[1..])
  }

  lemma {:induction false} ConcatAppend<T>(a: seq<seq<T>>, b: seq<seq<T>>)
    ensures Concat(a + b) == Concat(a) + Concat(b)
  {
    if a == [] {
      assert a + b == b;
    } else {
      assert (a + b)[1..] == a[1..] + b;
      ConcatAppend(a[1..], b);
    }
  }

  lemma ConcatCons<T>(x: seq<T>, a: seq<seq<T>>)
    ensures Concat([x] + a) == x + Concat(a)
  {
    assert ([x] + a)[1..] == a;
  }

  lemma ConcatSnoc<T>(a: seq<seq<T>>, x: seq<T>)
    ensures Concat(a + [x]) == Concat(a) + x
  {
    ConcatAppend(a, [x]);
    assert Concat([x]) == x + Concat([]);
  }

  lemma InitAndLast<T>(s: seq<T>)
    requires s != []
    ensures s == s[..|s| - 1] + [s[|s| - 1]]
  {
  }

  /** A sequence without the element at one position. */
  function RemoveAt<T>(s: seq<T>, k: nat): (r: seq<T>)
    requires k < |s|
    ensures |r| == |s| - 1
    ensures forall i :: 0 <= i < |r| ==> r[i] == s[if i < k then i else i + 1]
  {
    seq(|s| - 1, i requires 0 <= i < |s| - 1 => s[if i < k then i else i + 1])
  }

  /** A sequence with a new element at one position. */
  function InsertAt<T>(s: seq<T>, k: nat, x: T): (r: seq<T>)
    requires k <= |s|
    ensures |r| == |s| + 1
    ensures forall i :: 0 <= i < |r| ==> r[i] == if i < k then s[i] else if i == k then x else s[i - 1]
  {
    seq(|s| + 1, i requires 0 <= i < |s| + 1 => if i < k then s[i] else if i == k then x else s[i - 1])
  }

  /** An unsigned number in k bytes, network byte order. */
  function BigEndian(n: nat, k: nat): (r: seq<Byte>)
    ensures |r| == k
  {
    if k == 0 then [] else BigEndian(n / 256, k - 1) + [n % 256]
  }

  function Number(b: seq<Byte>): (n: nat) {
    if b == [] then 0 else Number(b[..|b| - 1]) * 256 + b[|b| - 1]
  }

  function Power256(k: nat): nat {
    if k == 0 then 1 else 256 * Power256(k - 1)
  }

  lemma {:induction false} NumberOfBigEndian(n: nat, k: nat)
    requires n < Power256(k)
    ensures Number(BigEndian(n, k)) == n
  {
    if k > 0 {
      NumberOfBigEndian(n / 256, k - 1);
      assert BigEndian(n, k)[..k - 1] == BigEndian(n / 256, k - 1);
    }
  }

  lemma Powers()
    ensures Power256(2) == 0x1_0000 && Power256(8) == 0x1_0000_0000_0000_0000
  {
    assert Power256(2) == 256 * Power256(1);
    assert Power256(4) == 256 * Power256(3) && Power256(3) == 256 * Power256(2);
    assert Power256(6) == 256 * Power256(5) && Power256(5) == 256 * Power256(4);
    assert Power256(8) == 256 * Power256(7) && Power256(7) == 256 * Power256(6);
  }

  /** Six-bit digits come apart again. */
  lemma SixBitDigits(a: int, b: int, c: int, d: int)
    requires a >= 0 && 0 <= b < 64 && 0 <= c < 64 && 0 <= d < 64
    ensures var v := ((a * 64 + b) * 64 + c) * 64 + d;
      v % 64 == d && v / 64 % 64 == c && v / 4096 % 64 == b && v / 262144 == a
      && v / 64 == (a * 64 + b) * 64 + c && v / 4096 == a * 64 + b
  {
    var v := ((a * 64 + b) * 64 + c) * 64 + d;
    assert v / 64 == (a * 64 + b) * 64 + c;
    assert v / 4096 == a * 64 + b;
  }
}
