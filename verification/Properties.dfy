/** The write* helpers of src/MQTTPacket.c: a buffer filled through an advancing pointer. */
module Writers {
  import opened Common
  import opened Framing
  import opened Packets

  class Writer {
    const buf: array<Byte>
    var pos: nat

    ghost predicate Valid()
      reads this
    {
      pos <= buf.Length
    }

    /** Everything written so far. */
    function Written(): seq<Byte>
      requires Valid()
      reads this, buf
    {
      buf[..pos]
    }

    ghost predicate Room(n: nat)
      reads this
    {
      pos + n <= buf.Length
    }

    constructor (size: nat)
      ensures Valid() && pos == 0 && buf.Length == size && fresh(buf)
    {
      buf := new Byte[size];
      pos := 0;
    }

    method WriteChar(c: Byte)
      requires Valid() && Room(1)
      modifies this`pos, buf
      ensures Valid() && Written() == old(Written()) + [c]
    {
      buf[pos] := c;
      pos := pos + 1;
    }

    method WriteInt(n: nat)
      requires Valid() && Room(2)
      modifies this`pos, buf
      ensures Valid() && Written() == old(Written()) + Int2(n)
    {
      WriteChar(n / 256 % 256);
      WriteChar(n % 256);
    }

    /** memcpy and the pointer behind it. */
    method WriteBytes(data: seq<Byte>)
      requires Valid() && Room(|data|)
      modifies this`pos, buf
      ensures Valid() && Written() == old(Written()) + data
    {
      forall i | 0 <= i < |data| {
        buf[pos + i] := data[i];
      }
      pos := pos + |data|;
    }

    /** writeUTF, writeData and writeMQTTLenString: a length and the bytes. */
    method WriteString(data: seq<Byte>)
      requires Valid() && Room(2 + |data|)
      modifies this`pos, buf
      ensures Valid() && Written() == old(Written()) + Str(data)
    {
      WriteInt(|data|);
      WriteBytes(data);
    }

    /** writeInt4, on a C int. */
    method WriteInt4(n: nat)
      requires Valid() && Room(4) && n < 0x1_0000_0000
      modifies this`pos, buf
      ensures Valid() && Written() == old(Written()) + Int4(n)
    {
      var anInt := AsInt(n);
      WriteChar(CDiv(anInt, 16777216) % 256);
      anInt := CMod(anInt, 16777216);
      WriteChar(CDiv(anInt, 65536) % 256);
      anInt := CMod(anInt, 65536);
      WriteChar(CDiv(anInt, 256) % 256);
      WriteChar(CMod(anInt, 256) % 256);
    }

    /** MQTTPacket_encode at the pointer. */
    method WriteLength(n: nat) returns (rc: nat)
      requires Valid() && Room(|Digits(n)|)
      modifies this`pos, buf
      ensures Valid() && Written() == old(Written()) + Digits(n) && rc == |Digits(n)|
    {
      rc := Encode(buf, pos, n);
      pos := pos + rc;
    }
  }

  // ----- length-prefixed strings

  function Str(s: seq<Byte>): (b: seq<Byte>)
    ensures |b| == 2 + |s|
  {
    Int2(|s|) + s
  }

  /** A length-prefixed string at the front of b, and what follows. */
  function ReadString(b: seq<Byte>): (r: Option<(seq<Byte>, seq<Byte>)>) {
    if |b| < 2 then None
    else
      var n := ReadInt2(b);
      if |b| < 2 + n then None else Some((b[2..2 + n], b[2 + n..]))
  }

  /** A string comes back exactly when its length fits two bytes; a longer one comes back
      cut short or not at all. */
  lemma StringRoundTrip(s: seq<Byte>, rest: seq<Byte>)
    ensures |s| <= 65535 ==> ReadString(Str(s) + rest) == Some((s, rest))
    ensures |s| > 65535 ==> (var r := ReadString(Str(s) + rest); r.Some? ==> |r.value.0| < |s|)
  {
    var b := Str(s) + rest;
    assert b == Int2(|s|) + (s + rest);
    Int2RoundTrip(|s|, s + rest);
    if |s| <= 65535 {
      assert b[2..2 + |s|] == s && b[2 + |s|..] == rest;
    }
  }

  // ----- C arithmetic on int

  /** An unsigned 32-bit value converted to int. */
  function AsInt(n: nat): int
    requires n < 0x1_0000_0000
  {
    if n < 0x8000_0000 then n else n - 0x1_0000_0000
  }

  /** Division truncates toward zero, and the remainder has the sign of the dividend. */
  function CDiv(a: int, b: int): int
    requires b > 0
  {
    if a >= 0 then a / b else -((-a) / b)
  }

  function CMod(a: int, b: int): int
    requires b > 0
  {
    if a >= 0 then a % b else -((-a) % b)
  }

  /** The four bytes writeInt4 leaves. */
  function Int4(n: nat): (r: seq<Byte>)
    requires n < 0x1_0000_0000
    ensures |r| == 4
  {
    var a := AsInt(n);
    var b := CMod(a, 16777216);
    var c := CMod(b, 65536);
    [CDiv(a, 16777216) % 256, CDiv(b, 65536) % 256, CDiv(c, 256) % 256, CMod(c, 256) % 256]
  }

  function ReadInt4(b: seq<Byte>): nat
    requires |b| >= 4
  {
    ((b[0] as int * 256 + b[1]) * 256 + b[2]) * 256 + b[3]
  }

  /** writeInt4 is right exactly below 2^31 and on multiples of 2^24. */
  lemma Int4RoundTrip(n: nat)
    requires n < 0x1_0000_0000
    ensures ReadInt4(Int4(n)) == n <==> n < 0x8000_0000 || n % 16777216 == 0
  {
    if n < 0x8000_0000 {
      Int4OfSmall(n);
    } else {
      Int4OfLarge(n);
    }
  }

  lemma Int4OfSmall(n: nat)
    requires n < 0x8000_0000
    ensures ReadInt4(Int4(n)) == n
  {
    var b := n % 16777216;
    var c := b % 65536;
    Int4Bytes(n, n / 16777216, b, c);
    assert n == n / 16777216 * 16777216 + b;
    assert b == b / 65536 * 65536 + c;
    assert c == c / 256 * 256 + c % 256;
  }

  lemma Int4Bytes(n: nat, a: nat, b: nat, c: nat)
    requires n < 0x8000_0000 && a == n / 16777216 && b == n % 16777216 && c == b % 65536
    ensures Int4(n) == [a, b / 65536, c / 256, c % 256]
  {
    hide CDiv, CMod;
    Positive(n, 16777216);
    Positive(b, 65536);
    Positive(c, 256);
    SmallTop(n);
    SmallRest(b, c);
  }

  lemma SmallTop(n: nat)
    requires n < 0x8000_0000
    ensures n / 16777216 % 256 == n / 16777216
  {
  }

  lemma SmallRest(b: nat, c: nat)
    requires b < 16777216 && c < 65536
    ensures b / 65536 % 256 == b / 65536 && c / 256 % 256 == c / 256 && c % 256 % 256 == c % 256
  {
  }

  lemma Positive(a: nat, b: nat)
    requires b > 0
    ensures CDiv(a, b) == a / b && CMod(a, b) == a % b
  {
  }

  lemma Int4OfLarge(n: nat)
    requires 0x8000_0000 <= n < 0x1_0000_0000
    ensures ReadInt4(Int4(n)) == n <==> n % 16777216 == 0
  {
    var m := 0x1_0000_0000 - n;
    var q, r := m / 16777216, m % 16777216;
    assert m == 16777216 * q + r && 0 <= q <= 128;
    hide Int4;
    LargeTopByte(n, q);
    if r == 0 {
      LargeMultiple(n, q);
      assert n == (256 - q) * 16777216;
    } else {
      assert n == (255 - q) * 16777216 + (16777216 - r);
      assert n / 16777216 == 255 - q;
      ReadTopByte(Int4(n));
    }
  }

  lemma ReadTopByte(b: seq<Byte>)
    requires |b| == 4
    ensures ReadInt4(b) / 16777216 == b[0]
  {
    var rest := (b[1] as int * 256 + b[2]) * 256 + b[3];
    assert ReadInt4(b) == b[0] as int * 16777216 + rest && 0 <= rest < 16777216;
  }

  lemma LargeTopByte(n: nat, q: nat)
    requires 0x8000_0000 <= n < 0x1_0000_0000 && q == (0x1_0000_0000 - n) / 16777216 <= 128
    ensures Int4(n)[0] == if q == 0 then 0 else 256 - q
  {
    assert CDiv(AsInt(n), 16777216) + q == 0;
  }

  lemma LargeMultiple(n: nat, q: nat)
    requires 0x8000_0000 <= n < 0x1_0000_0000 && 1 <= q <= 128 && n + 16777216 * q == 0x1_0000_0000
    ensures Int4(n) == [256 - q, 0, 0, 0]
  {
    LargeTopByte(n, q);
    assert CMod(AsInt(n), 16777216) == 0;
  }
}

/** MQTT version 5 property lists (src/MQTTProperties.c). */
module Properties {
  import opened Common
  import opened Framing
  import opened Packets
  import opened Writers

  datatype Kind = OneByte | TwoByte | FourByte | VariableByte | Binary | Utf8String | StringPair

  /** namesToTypes. */
  const TABLE: seq<(int, Kind)> := [
    (1, OneByte), (2, FourByte), (3, Utf8String), (8, Utf8String), (9, Binary), (11, VariableByte),
    (17, FourByte), (18, Utf8String), (19, TwoByte), (21, Utf8String), (22, Binary), (23, OneByte),
    (24, FourByte), (25, OneByte), (26, Utf8String), (28, Utf8String), (31, Utf8String), (33, TwoByte),
    (34, TwoByte), (35, TwoByte), (36, OneByte), (37, OneByte), (38, StringPair), (39, FourByte),
    (40, OneByte), (41, OneByte), (42, OneByte)
  ]

  /** The first entry with this name, from position i on. */
  function Lookup(id: int, i: nat): (k: Option<Kind>)
    requires i <= |TABLE|
    ensures k.Some? ==> 0 <= id < 256
    decreases |TABLE| - i
  {
    if i == |TABLE| then None else if TABLE[i].0 == id then Some(TABLE[i].1) else Lookup(id, i + 1)
  }

  function KindOf(id: int): (k: Option<Kind>)
    ensures k.Some? ==> 0 <= id < 256
  {
    Lookup(id, 0)
  }

  /** The identifiers of section 2.2.2.2 of MQTT 5.0 by the type of their values. */
  function StandardKind(id: int): Option<Kind> {
    if id in [0x01, 0x17, 0x19, 0x24, 0x25, 0x28, 0x29, 0x2A] then Some(OneByte)
    else if id in [0x13, 0x21, 0x22, 0x23] then Some(TwoByte)
    else if id in [0x02, 0x11, 0x18, 0x27] then Some(FourByte)
    else if id == 0x0B then Some(VariableByte)
    else if id in [0x09, 0x16] then Some(Binary)
    else if id in [0x03, 0x08, 0x12, 0x15, 0x1A, 0x1C, 0x1F] then Some(Utf8String)
    else if id == 0x26 then Some(StringPair)
    else None
  }

  /** The table has the identifiers of the standard and gives them its kinds. */
  lemma KindIsStandard(id: int)
    ensures KindOf(id) == StandardKind(id)
  {
    hide StandardKind, TABLE;
    LookupFinds(id, 0);
    match KindOf(id)
    case Some(found) =>
      var j :| 0 <= j < |TABLE| && TABLE[j] == (id, found);
      EntryIsStandard(j);
    case None =>
      if StandardKind(id).Some? {
        StandardIsListed(id);
      }
  }

  lemma {:induction false} LookupFinds(id: int, i: nat)
    requires i <= |TABLE|
    ensures var k := Lookup(id, i);
      if k.Some? then exists j :: i <= j < |TABLE| && TABLE[j] == (id, k.value)
      else forall j :: i <= j < |TABLE| ==> TABLE[j].0 != id
    decreases |TABLE| - i
  {
    hide TABLE;
    if i < |TABLE| {
      assert TABLE[i] == (TABLE[i].0, TABLE[i].1);
      LookupFinds(id, i + 1);
    }
  }

  lemma EntryIsStandard(j: nat)
    requires j < |TABLE|
    ensures StandardKind(TABLE[j].0) == Some(TABLE[j].1)
  {
    if j < 9 {
      FirstEntries(j);
    } else if j < 18 {
      MoreEntries(j);
    } else {
      LastEntries(j);
    }
  }

  lemma FirstEntries(j: nat)
    requires j < 9
    ensures |TABLE| == 27 && StandardKind(TABLE[j].0) == Some(TABLE[j].1)
  {
  }

  lemma MoreEntries(j: nat)
    requires 9 <= j < 18
    ensures |TABLE| == 27 && StandardKind(TABLE[j].0) == Some(TABLE[j].1)
  {
  }

  lemma LastEntries(j: nat)
    requires 18 <= j < 27
    ensures |TABLE| == 27 && StandardKind(TABLE[j].0) == Some(TABLE[j].1)
  {
  }

  lemma StandardIsListed(id: int)
    requires StandardKind(id).Some?
    ensures exists j :: 0 <= j < |TABLE| && TABLE[j].0 == id
  {
    var j := PlaceOf(id);
    assert TABLE[j].0 == id;
  }

  /** Where the table has an identifier of the standard. */
  function PlaceOf(id: int): int {
    if id <= 3 then id - 1 else if id <= 9 then id - 5 else if id == 11 then 5
    else if id <= 19 then id - 11 else if id <= 26 then id - 12 else if id == 28 then 15 else if id == 31 then 16
    else id - 16
  }

  /** MQTTProperty_getType. */
  method GetType(id: int) returns (kind: Option<Kind>)
    ensures kind == KindOf(id)
  {
    for i := 0 to |TABLE|
      invariant Lookup(id, 0) == Lookup(id, i)
    {
      if TABLE[i].0 == id {
        return Some(TABLE[i].1);
      }
    }
    kind := None;
  }

  /** MQTTProperty: the identifier's kind says which of the value fields is meant. */
  datatype Property = Property(id: int, byte: Byte, integer2: nat, integer4: nat, data: seq<Byte>, value: seq<Byte>) {
    predicate Typed() {
      integer2 < 65536 && integer4 < 0x1_0000_0000
    }
  }

  /** The bytes MQTTProperty_write produces behind the identifier. */
  function Body(kind: Kind, p: Property): (b: seq<Byte>)
    requires p.Typed()
  {
    match kind
    case OneByte => [p.byte]
    case TwoByte => Int2(p.integer2)
    case FourByte => Int4(p.integer4)
    case VariableByte => Digits(p.integer4)
    case Binary => Str(p.data)
    case Utf8String => Str(p.data)
    case StringPair => Str(p.data) + Str(p.value)
  }

  function EncodeProperty(p: Property): (b: seq<Byte>)
    requires p.Typed() && KindOf(p.id).Some?
  {
    [p.id] + Body(KindOf(p.id).value, p)
  }

  /** The size MQTTProperties_add counts for a property, identifier included. */
  function CountedSize(p: Property): (n: int)
    requires p.Typed() && KindOf(p.id).Some?
  {
    1 + match KindOf(p.id).value
        case OneByte => 1
        case TwoByte => 2
        case FourByte => 4
        case VariableByte => VbiLen(AsInt(p.integer4))
        case Binary => 2 + |p.data|
        case Utf8String => 2 + |p.data|
        case StringPair => 2 + |p.data| + (2 + |p.value|)
  }

  /** A variable-length integer the format can hold. */
  predicate VariableFits(p: Property) {
    KindOf(p.id) == Some(VariableByte) ==> p.integer4 <= MAX_REMAINING
  }

  lemma CountedIsEncoded(p: Property)
    requires p.Typed() && KindOf(p.id).Some?
    ensures CountedSize(p) <= |EncodeProperty(p)|
    ensures CountedSize(p) == |EncodeProperty(p)| <==> VariableFits(p)
  {
    hide KindOf, Int4;
    VbiLenIsEncodedSize(p.integer4);
  }

  ghost predicate AllTyped(ps: seq<Property>) {
    forall i :: 0 <= i < |ps| ==> ps[i].Typed() && KindOf(ps[i].id).Some?
  }

  function EncodeAll(ps: seq<Property>): (b: seq<Byte>)
    requires AllTyped(ps)
  {
    if ps == [] then [] else EncodeAll(ps[..|ps| - 1]) + EncodeProperty(ps[|ps| - 1])
  }

  function TotalCounted(ps: seq<Property>): (n: int)
    requires AllTyped(ps)
  {
    if ps == [] then 0 else TotalCounted(ps[..|ps| - 1]) + CountedSize(ps[|ps| - 1])
  }

  ghost predicate AllFit(ps: seq<Property>) {
    forall i :: 0 <= i < |ps| ==> VariableFits(ps[i])
  }

  lemma {:induction false} TotalIsEncoded(ps: seq<Property>)
    requires AllTyped(ps)
    ensures 0 <= TotalCounted(ps) <= |EncodeAll(ps)|
    ensures TotalCounted(ps) == |EncodeAll(ps)| <==> AllFit(ps)
  {
    hide CountedSize, EncodeProperty, VariableFits, KindOf;
    if ps != [] {
      var n := |ps| - 1;
      TotalIsEncoded(ps[..n]);
      CountedIsEncoded(ps[n]);
      CountedPositive(ps[n]);
      assert AllFit(ps) <==> AllFit(ps[..n]) && VariableFits(ps[n]);
    }
  }

  lemma OneMoreCounted(ps: seq<Property>, p: Property)
    requires AllTyped(ps) && p.Typed() && KindOf(p.id).Some?
    ensures AllTyped(ps + [p]) && TotalCounted(ps + [p]) == TotalCounted(ps) + CountedSize(p)
  {
    hide KindOf, CountedSize;
    assert (ps + [p])[..|ps|] == ps;
  }

  lemma CountedPositive(p: Property)
    requires p.Typed() && KindOf(p.id).Some?
    ensures CountedSize(p) >= 1
  {
    hide KindOf;
  }

  /** MQTTProperties: an array that grows by ten. */
  class PropertyList {
    var count: nat
    var maxCount: nat
    var length: int
    var items: array?<Property>

    ghost predicate Valid()
      reads this, items
    {
      && count <= maxCount
      && (items == null ==> count == 0 == maxCount)
      && (items != null ==> items.Length == maxCount)
      && AllTyped(Items())
      && length == TotalCounted(Items())
    }

    function Items(): (r: seq<Property>)
      requires items == null ==> count == 0
      requires items != null ==> count <= items.Length
      reads this, items
    {
      if items == null then [] else items[..count]
    }

    constructor ()
      ensures Valid() && Items() == [] && items == null
    {
      count, maxCount, length, items := 0, 0, 0, null;
    }

    /** MQTTProperties_add: false, MQTT_INVALID_PROPERTY_ID, for an unknown identifier. */
    method Add(p: Property) returns (ok: bool)
      requires Valid() && p.Typed()
      modifies this, items
      ensures Valid() && (items == old(items) || fresh(items))
      ensures ok <==> KindOf(p.id).Some?
      ensures Items() == if ok then old(Items()) + [p] else old(Items())
    {
      hide KindOf, CountedSize, AllTyped, TotalCounted;
      var kind := GetType(p.id);
      if kind.None? {
        return false;
      }
      MakeRoom(p);
      Put(p);
      ok := true;
    }

    method Put(p: Property)
      requires Valid() && p.Typed() && KindOf(p.id).Some? && items != null && count < maxCount
      modifies this`count, this`length, items
      ensures Valid() && Items() == old(Items()) + [p]
    {
      hide KindOf, CountedSize, AllTyped, TotalCounted;
      ghost var was := Items();
      OneMoreCounted(was, p);
      items[count] := p;
      count := count + 1;
      assert Items() == was + [p];
      length := length + CountedSize(p);
    }

    /** malloc of ten entries, or realloc to ten more when the array is full; `p` stands for
        what uninitialised memory holds. */
    method MakeRoom(p: Property)
      requires Valid()
      modifies this`maxCount, this`items
      ensures Valid() && (items == old(items) || fresh(items))
      ensures items != null && count < maxCount && Items() == old(Items())
    {
      ghost var was := Items();
      if items == null {
        maxCount := 10;
        items := new Property[maxCount](_ => p);
      } else if count == maxCount {
        maxCount := maxCount + 10;
        var larger := new Property[maxCount](_ => p);
        forall i | 0 <= i < count {
          larger[i] := items[i];
        }
        items := larger;
      }
      assert Items() == was;
    }

    /** MQTTProperties_len. */
    function Len(): int
      reads this
    {
      length + VbiLen(length)
    }

    /** MQTTProperties_copy. */
    method CopyOf() returns (result: PropertyList)
      requires Valid()
      ensures result.Valid() && fresh(result) && result.Items() == Items()
      ensures EncodeAll(result.Items()) == EncodeAll(Items()) && result.length == length
    {
      hide KindOf, CountedSize, TotalCounted, EncodeAll;
      result := new PropertyList();
      ghost var all := Items();
      for i := 0 to count
        invariant fresh(result) && (result.items != null ==> fresh(result.items))
        invariant result.Valid() && result.Items() == all[..i]
        invariant items != null ==> Items() == all
      {
        assert items != null && items[i] == all[i];
        var ok := result.Add(items[i]);
        assert all[..i + 1] == all[..i] + [all[i]];
      }
      assert all[..count] == all;
    }
  }

  /** MQTTProperty_write: what it returns is the number of bytes it wrote. */
  method WriteProperty(w: Writer, p: Property) returns (rc: int)
    requires w.Valid() && p.Typed() && KindOf(p.id).Some?
    requires w.Room(|EncodeProperty(p)|)
    modifies w`pos, w.buf
    ensures w.Valid() && w.Written() == old(w.Written()) + EncodeProperty(p)
    ensures rc == |EncodeProperty(p)|
  {
    hide KindOf, Body;
    var kind := GetType(p.id);
    w.WriteChar(p.id);
    rc := WriteBody(w, kind.value, p);
    rc := rc + 1;
  }

  /** The switch of MQTTProperty_write. */
  method WriteBody(w: Writer, kind: Kind, p: Property) returns (rc: int)
    requires w.Valid() && p.Typed() && w.Room(|Body(kind, p)|)
    modifies w`pos, w.buf
    ensures w.Valid() && w.Written() == old(w.Written()) + Body(kind, p)
    ensures rc == |Body(kind, p)|
  {
    hide Int4, Int2, Digits;
    match kind
    case OneByte =>
      w.WriteChar(p.byte);
      rc := 1;
    case TwoByte =>
      w.WriteInt(p.integer2);
      rc := 2;
    case FourByte =>
      w.WriteInt4(p.integer4);
      rc := 4;
    case VariableByte =>
      rc := w.WriteLength(p.integer4);
    case Binary =>
      w.WriteString(p.data);
      rc := |p.data| + 2;
    case Utf8String =>
      w.WriteString(p.data);
      rc := |p.data| + 2;
    case StringPair =>
      w.WriteString(p.data);
      w.WriteString(p.value);
      rc := |p.data| + |p.value| + 4;
  }

  /** MQTTProperties_write: the length and the properties. Its result takes the length for
      one byte; the pointer advances by what is really written. */
  method WriteProperties(w: Writer, props: PropertyList) returns (rc: int)
    requires w.Valid() && props.Valid()
    requires w.Room(|Encoding(props.Items())|)
    modifies w`pos, w.buf
    ensures w.Valid() && w.Written() == old(w.Written()) + Encoding(props.Items())
    ensures rc == 1 + |EncodeAll(props.Items())|
    ensures w.pos == old(w.pos) + props.Len() <==>
      AllFit(props.Items()) && TotalCounted(props.Items()) <= MAX_REMAINING
  {
    hide KindOf, EncodeProperty, Digits, EncodeAll, TotalCounted, CountedSize;
    TotalIsEncoded(props.Items());
    AdvanceIsLen(props.Items());
    ghost var was := w.Written();
    var digits := w.WriteLength(props.length);
    rc := WriteEach(w, props);
    rc := rc + 1;
    assert w.pos == |w.Written()| && |was| == old(w.pos);
  }

  method WriteEach(w: Writer, props: PropertyList) returns (rc: int)
    requires w.Valid() && props.Valid()
    requires w.Room(|EncodeAll(props.Items())|)
    modifies w`pos, w.buf
    ensures w.Valid() && w.Written() == old(w.Written()) + EncodeAll(props.Items())
    ensures rc == |EncodeAll(props.Items())|
  {
    hide KindOf, EncodeProperty, EncodeAll, TotalCounted;
    ghost var all, was := props.Items(), w.Written();
    rc := 0;
    EncodeNothing(all[..0]);
    for i := 0 to props.count
      invariant w.Valid() && props.Valid() && props.Items() == all && props.count == old(props.count)
      invariant w.Written() == was + EncodeAll(all[..i]) && rc == |EncodeAll(all[..i])|
      invariant rc <= |EncodeAll(all)| && w.Room(|EncodeAll(all)| - rc)
    {
      EncodeAllStep(all, i);
      var n := WriteProperty(w, props.items[i]);
      rc := rc + n;
    }
    assert all[..|all|] == all;
  }

  lemma EncodeNothing(ps: seq<Property>)
    requires ps == []
    ensures EncodeAll(ps) == []
  {
  }

  /** The whole list as it is written. */
  function Encoding(ps: seq<Property>): (b: seq<Byte>)
    requires AllTyped(ps)
  {
    TotalIsEncoded(ps);
    Digits(TotalCounted(ps)) + EncodeAll(ps)
  }

  lemma {:induction false} EncodeAllStep(ps: seq<Property>, i: nat)
    requires AllTyped(ps) && i < |ps|
    ensures EncodeAll(ps[..i + 1]) == EncodeAll(ps[..i]) + EncodeProperty(ps[i])
    ensures |EncodeAll(ps[..i])| + |EncodeProperty(ps[i])| <= |EncodeAll(ps)|
    decreases |ps| - i
  {
    hide EncodeProperty, KindOf;
    assert ps[..i + 1][..i] == ps[..i];
    if i + 1 < |ps| {
      EncodeAllStep(ps, i + 1);
    } else {
      assert ps[..i + 1] == ps;
    }
  }

  /** The pointer advances by MQTTProperties_len exactly when every variable integer and the
      whole list fit the variable-length format. */
  lemma AdvanceIsLen(ps: seq<Property>)
    requires AllTyped(ps)
    ensures |Encoding(ps)| == TotalCounted(ps) + VbiLen(TotalCounted(ps)) <==>
      AllFit(ps) && TotalCounted(ps) <= MAX_REMAINING
  {
    hide CountedSize, EncodeProperty, KindOf, Digits;
    TotalIsEncoded(ps);
    VbiLenIsEncodedSize(TotalCounted(ps));
  }

  /** What MQTTProperties_write returns, the length taken for one byte, is what it really
      advances by exactly when the properties take less than 128 bytes. */
  lemma ResultIsAdvance(ps: seq<Property>)
    requires AllTyped(ps)
    ensures 1 + |EncodeAll(ps)| == |Encoding(ps)| <==> TotalCounted(ps) < 128
  {
    hide CountedSize, EncodeProperty, KindOf, TotalCounted, EncodeAll;
    TotalIsEncoded(ps);
    DigitCount(TotalCounted(ps), 1);
    assert Power128(1) == 128;
  }

  // ----- reading a property list back (section 2.2.2 of MQTT 5.0)

  /** A property with only the fields its kind uses. */
  function Only(kind: Kind, p: Property): Property {
    match kind
    case OneByte => Property(p.id, p.byte, 0, 0, [], [])
    case TwoByte => Property(p.id, 0, p.integer2, 0, [], [])
    case FourByte => Property(p.id, 0, 0, p.integer4, [], [])
    case VariableByte => Property(p.id, 0, 0, p.integer4, [], [])
    case Binary => Property(p.id, 0, 0, 0, p.data, [])
    case Utf8String => Property(p.id, 0, 0, 0, p.data, [])
    case StringPair => Property(p.id, 0, 0, 0, p.data, p.value)
  }

  function ReadBody(kind: Kind, id: Byte, b: seq<Byte>): (r: Option<(Property, seq<Byte>)>) {
    match kind
    case OneByte => if |b| < 1 then None else Some((Property(id, b[0], 0, 0, [], []), b[1..]))
    case TwoByte => if |b| < 2 then None else Some((Property(id, 0, ReadInt2(b), 0, [], []), b[2..]))
    case FourByte => if |b| < 4 then None else Some((Property(id, 0, 0, ReadInt4(b), [], []), b[4..]))
    case VariableByte =>
      var n := HeaderLength([id] + b);
      if n == 0 then None else Some((Property(id, 0, 0, Value(b[..n - 1]), [], []), b[n - 1..]))
    case StringPair =>
      (match ReadString(b)
       case None => None
       case Some((data, rest)) =>
         match ReadString(rest)
         case None => None
         case Some((value, more)) => Some((Property(id, 0, 0, 0, data, value), more)))
    case _ =>
      match ReadString(b)
      case None => None
      case Some((data, rest)) => Some((Property(id, 0, 0, 0, data, []), rest))
  }

  /** What the wire format can carry of a property of this kind. */
  predicate Carried(kind: Kind, p: Property) {
    match kind
    case OneByte => true
    case TwoByte => true
    case FourByte => p.integer4 < 0x8000_0000 || p.integer4 % 16777216 == 0
    case VariableByte => p.integer4 <= MAX_REMAINING
    case StringPair => |p.data| <= 65535 && |p.value| <= 65535
    case _ => |p.data| <= 65535
  }

  lemma PairRoundTrip(data: seq<Byte>, value: seq<Byte>, id: Byte, rest: seq<Byte>)
    ensures var b := Str(data) + Str(value) + rest;
      var r := ReadBody(StringPair, id, b);
      if |data| <= 65535 && |value| <= 65535 then r == Some((Property(id, 0, 0, 0, data, value), rest))
      else r.Some? ==> r.value.0 != Property(id, 0, 0, 0, data, value)
  {
    hide ReadString, Str;
    var b := Str(data) + Str(value) + rest;
    assert b == Str(data) + (Str(value) + rest);
    StringRoundTrip(data, Str(value) + rest);
    StringRoundTrip(value, rest);
  }

  lemma VariableRoundTrip(n: nat, id: Byte, rest: seq<Byte>)
    ensures ReadBody(VariableByte, id, Digits(n) + rest) ==
      if n <= MAX_REMAINING then Some((Property(id, 0, 0, n, [], []), rest)) else None
  {
    hide Digits, Value, HeaderLength;
    var h := [id] + Digits(n);
    LengthRoundTrip(id, n, rest);
    assert [id] + (Digits(n) + rest) == h + rest;
    if n <= MAX_REMAINING {
      assert (Digits(n) + rest)[..|h| - 1] == Digits(n) && (Digits(n) + rest)[|h| - 1..] == rest;
      assert h[1..] == Digits(n);
    }
  }

  /** A property comes back, with the fields of its kind, exactly when the format carries it. */
  lemma BodyRoundTrip(kind: Kind, p: Property, rest: seq<Byte>)
    requires p.Typed() && 0 <= p.id < 256
    ensures Carried(kind, p) ==> ReadBody(kind, p.id, Body(kind, p) + rest) == Some((Only(kind, p), rest))
    ensures !Carried(kind, p) ==>
      (var r := ReadBody(kind, p.id, Body(kind, p) + rest); r.Some? ==> r.value.0 != Only(kind, p))
  {
    hide Int2, Int4, Digits;
    match kind
    case OneByte =>
      assert ([p.byte] + rest)[1..] == rest;
    case TwoByte =>
      Int2RoundTrip(p.integer2, rest);
      assert (Int2(p.integer2) + rest)[2..] == rest;
    case FourByte =>
      Int4RoundTrip(p.integer4);
      FourBytesRead(Int4(p.integer4), rest);
    case VariableByte =>
      VariableRoundTrip(p.integer4, p.id, rest);
    case Binary =>
      StringRoundTrip(p.data, rest);
    case Utf8String =>
      StringRoundTrip(p.data, rest);
    case StringPair =>
      PairRoundTrip(p.data, p.value, p.id, rest);
  }

  lemma FourBytesRead(b: seq<Byte>, rest: seq<Byte>)
    requires |b| == 4
    ensures ReadInt4(b + rest) == ReadInt4(b) && (b + rest)[4..] == rest
  {
  }

  function ReadAll(b: seq<Byte>): (r: Option<seq<Property>>)
    decreases |b|
  {
    if b == [] then Some([])
    else match KindOf(b[0])
      case None => None
      case Some(kind) =>
        match ReadBody(kind, b[0], b[1..])
        case None => None
        case Some((p, rest)) =>
          if |rest| >= |b| then None
          else match ReadAll(rest)
            case None => None
            case Some(ps) => Some([p] + ps)
  }

  ghost predicate AllCarried(ps: seq<Property>)
    requires AllTyped(ps)
  {
    forall i :: 0 <= i < |ps| ==> Carried(KindOf(ps[i].id).value, ps[i])
  }

  function OnlyAll(ps: seq<Property>): (r: seq<Property>)
    requires AllTyped(ps)
    ensures |r| == |ps|
  {
    seq(|ps|, i requires 0 <= i < |ps| => Only(KindOf(ps[i].id).value, ps[i]))
  }

  lemma {:induction false} EncodeCons(p: Property, ps: seq<Property>)
    requires p.Typed() && KindOf(p.id).Some? && AllTyped(ps) && AllTyped([p] + ps)
    ensures EncodeAll([p] + ps) == EncodeProperty(p) + EncodeAll(ps)
    decreases |ps|
  {
    hide EncodeProperty, KindOf;
    if ps == [] {
      assert [p] + ps == [p] && [p][..0] == [];
    } else {
      var n := |ps| - 1;
      assert ([p] + ps)[..n + 1] == [p] + ps[..n];
      EncodeCons(p, ps[..n]);
    }
  }

  /** A written list is read back property by property exactly when the format carries
      every property. */
  lemma {:induction false} ListRoundTrip(ps: seq<Property>)
    requires AllTyped(ps)
    ensures ReadAll(EncodeAll(ps)) == Some(OnlyAll(ps)) <==> AllCarried(ps)
    decreases |ps|
  {
    hide EncodeProperty, KindOf, Carried, Only, ReadBody, OnlyAll, EncodeAll, AllCarried, ReadAll;
    if ps == [] {
      NothingRoundTrip(ps);
    } else {
      var p, rest := ps[0], ps[1..];
      assert [p] + rest == ps;
      ListRoundTrip(rest);
      EncodeCons(p, rest);
      PropertyReadsBack(p, EncodeAll(rest));
      ConsCarried(p, rest);
      ConsOnly(p, rest);
      var r, only := ReadAll(EncodeAll(rest)), Only(KindOf(p.id).value, p);
      assert ([only] + OnlyAll(rest))[0] == only && ([only] + OnlyAll(rest))[1..] == OnlyAll(rest);
      assert r.Some? ==> ([only] + r.value)[1..] == r.value;
    }
  }

  lemma NothingRoundTrip(ps: seq<Property>)
    requires ps == []
    ensures ReadAll(EncodeAll(ps)) == Some(OnlyAll(ps)) && AllCarried(ps)
  {
  }

  lemma ConsCarried(p: Property, ps: seq<Property>)
    requires AllTyped(ps) && AllTyped([p] + ps)
    requires p.Typed() && KindOf(p.id).Some?
    ensures AllCarried([p] + ps) <==> Carried(KindOf(p.id).value, p) && AllCarried(ps)
  {
    hide KindOf, Carried, Only;
    var all := [p] + ps;
    assert all[0] == p;
    assert forall i :: 0 <= i < |ps| ==> ps[i] == all[i + 1];
  }

  lemma ConsOnly(p: Property, ps: seq<Property>)
    requires AllTyped(ps) && AllTyped([p] + ps)
    requires p.Typed() && KindOf(p.id).Some?
    ensures OnlyAll([p] + ps) == [Only(KindOf(p.id).value, p)] + OnlyAll(ps)
  {
    hide KindOf, Only;
    var a, b := OnlyAll([p] + ps), [Only(KindOf(p.id).value, p)] + OnlyAll(ps);
    forall i | 0 <= i < |a|
      ensures a[i] == b[i]
    {
      if i > 0 {
        assert ([p] + ps)[i] == ps[i - 1];
      }
    }
  }

  lemma PropertyReadsBack(p: Property, rest: seq<Byte>)
    requires p.Typed() && KindOf(p.id).Some?
    ensures var r, only := ReadAll(EncodeProperty(p) + rest), Only(KindOf(p.id).value, p);
      if Carried(KindOf(p.id).value, p) then
        r == match ReadAll(rest) case None => None case Some(ps) => Some([only] + ps)
      else
        r.Some? ==> r.value != [] && r.value[0] != only
  {
    hide KindOf, Carried, Only, ReadBody, Body;
    var kind := KindOf(p.id).value;
    var b := EncodeProperty(p) + rest;
    BodyRoundTrip(kind, p, rest);
    assert b[0] == p.id && b[1..] == Body(kind, p) + rest;
  }
}
