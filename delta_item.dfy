/**
 * The delta item of elijah/provisioning/delta.py: a tagged record naming one changed
 * chunk of memory or disk, its packed identity, and its binary wire format.
 */
module DeltaItems {
  import opened Wrappers
  import opened Bytes

  const DELTA_MEMORY: nat := 0x01
  const DELTA_DISK: nat := 0x02

  const REF_RAW: nat := 0x10
  const REF_XDELTA: nat := 0x20
  const REF_SELF: nat := 0x30
  const REF_BASE_DISK: nat := 0x40
  const REF_BASE_MEM: nat := 0x50
  const REF_ZEROS: nat := 0x60

  /** The `data` attribute: None, a byte string, or an integer (an offset or an index). */
  datatype Payload = NoData | Bytes(b: seq<byte>) | Num(n: int)

  /** A delta item; its `index` attribute is Index(item). */
  datatype DeltaItem = DeltaItem(
    deltaType: nat,
    offset: nat,
    offsetLen: nat,
    hash: Option<seq<byte>>,
    refId: nat,
    dataLen: nat,
    data: Payload)

  /** An entry of a hash list or hash table: (start, length, hash). */
  datatype HashEntry = HashEntry(start: int, length: int, hash: seq<byte>)

  /** The items still carrying their own data, the only ones a dedup pass may rewrite. */
  predicate IsRawOrXdelta(item: DeltaItem)
  {
    item.refId == REF_XDELTA || item.refId == REF_RAW
  }

  /** The item turned into a reference: ref_id, data_len = 8 and data = target. */
  function Redirect(item: DeltaItem, refId: nat, target: int): (r: DeltaItem)
    ensures r.deltaType == item.deltaType && r.offset == item.offset && r.offsetLen == item.offsetLen
    ensures r.hash == item.hash && r.refId == refId && r.dataLen == 8 && r.data == Num(target)
  {
    item.(refId := refId, dataLen := 8, data := Num(target))
  }

  // ---------------------------------------------------------------- bitwise or

  /** 2^k. */
  function Pow2(k: nat): (r: nat)
    ensures r > 0
  {
    if k == 0 then 1 else 2 * Pow2(k - 1)
  }

  /** Bitwise or of two non-negative integers, bit by bit from the lowest. */
  function Or(a: nat, b: nat): (r: nat)
    ensures r >= a && r >= b
    decreases a + b
  {
    if a == 0 then b
    else if b == 0 then a
    else 2 * Or(a / 2, b / 2) + (if a % 2 == 1 || b % 2 == 1 then 1 else 0)
  }

  /** Or of a value below 2^k with a multiple of 2^k is their sum. */
  lemma {:induction false} OrDisjoint(a: nat, m: nat, k: nat)
    requires a < Pow2(k)
    ensures Or(a, Pow2(k) * m) == a + Pow2(k) * m
    decreases k
  {
    var b := Pow2(k) * m;
    if a != 0 && b != 0 {
      assert k > 0;
      var q := Pow2(k - 1) * m;
      assert b == 2 * q;
      assert b / 2 == q && b % 2 == 0;
      OrDisjoint(a / 2, m, k - 1);
      assert Or(a, b) == 2 * (a / 2 + q) + a % 2;
    }
  }

  /**
   * get_index(delta_type, offset) = (offset << 1) | (delta_type & 0x0F). The or touches
   * only the low four bits, so the value is 16 * floor(2 offset / 16) plus the or of the
   * two low nibbles; on negative numbers the Euclidean % and / give two's-complement bits.
   */
  function GetIndex(deltaType: int, offset: int): (r: int)
    ensures r / 16 == (2 * offset) / 16
  {
    var x := 2 * offset;
    (x / 16) * 16 + Or(x % 16, deltaType % 16) % 16
  }

  function Index(item: DeltaItem): int
  {
    GetIndex(item.deltaType, item.offset)
  }

  /** A memory chunk's index is 2 offset + 1. */
  lemma IndexMemory(offset: int)
    ensures GetIndex(DELTA_MEMORY, offset) == 2 * offset + 1
  {
    var x := 2 * offset;
    var q, lo := x / 16, x % 16;
    assert x == 16 * q + lo;
    var m := offset - 8 * q;
    assert lo == 2 * m && 0 <= m < 8;
    OrLowBit(m);
    assert Or(lo, 1) == lo + 1;
  }

  /** A disk chunk at an even offset has index 2 offset + 2. */
  lemma IndexDiskEven(offset: int)
    requires offset % 2 == 0
    ensures GetIndex(DELTA_DISK, offset) == 2 * offset + 2
  {
    var x := 2 * offset;
    var q, lo := x / 16, x % 16;
    assert x == 16 * q + lo;
    var h := offset / 2;
    assert offset == 2 * h;
    var m := h - 4 * q;
    assert lo == 4 * m && 0 <= m < 4;
    OrSecondBit(m);
    assert Or(lo, 2) == lo + 2;
  }

  /** Setting bit 0 of an even number adds 1. */
  lemma OrLowBit(m: nat)
    ensures Or(2 * m, 1) == 2 * m + 1
  {
    assert Pow2(1) == 2;
    OrDisjoint(1, m, 1);
    OrSymmetric(2 * m, 1);
  }

  /** Setting bit 1 of a multiple of 4 adds 2. */
  lemma OrSecondBit(m: nat)
    ensures Or(4 * m, 2) == 4 * m + 2
  {
    assert Pow2(2) == 4;
    OrDisjoint(2, m, 2);
    OrSymmetric(4 * m, 2);
  }

  lemma {:induction false} OrSymmetric(a: nat, b: nat)
    ensures Or(a, b) == Or(b, a)
    decreases a + b
  {
    if a != 0 && b != 0 {
      OrSymmetric(a / 2, b / 2);
    }
  }

  /** get_index is injective over memory and disk chunks at even, e.g. chunk-aligned, offsets. */
  lemma IndexInjective(t1: nat, o1: int, t2: nat, o2: int)
    requires t1 in {DELTA_MEMORY, DELTA_DISK} && t2 in {DELTA_MEMORY, DELTA_DISK}
    requires o1 % 2 == 0 && o2 % 2 == 0
    requires GetIndex(t1, o1) == GetIndex(t2, o2)
    ensures t1 == t2 && o1 == o2
  {
    IndexMemory(o1);
    IndexMemory(o2);
    IndexDiskEven(o1);
    IndexDiskEven(o2);
  }

  /** Without the alignment the packing collides: disk offsets 0 and 1 share index 2. */
  lemma IndexDiskCollision()
    ensures GetIndex(DELTA_DISK, 0) == GetIndex(DELTA_DISK, 1) == 2
  {
    assert Or(0, 0) == 0;
    assert Or(1, 1) == 2 * Or(0, 0) + 1 == 1;
    assert Or(2, 2) == 2 * Or(1, 1) == 2;
    assert Or(0, 2) == 2;
    assert GetIndex(DELTA_DISK, 0) == (0 / 16) * 16 + Or(0 % 16, 2 % 16) % 16 == 2;
    assert GetIndex(DELTA_DISK, 1) == (2 / 16) * 16 + Or(2 % 16, 2 % 16) % 16 == 2;
  }

  // ---------------------------------------------------------------- wire format

  /** The third header byte: chr(delta_type | ref_id). */
  function TypeRefByte(deltaType: nat, refId: nat): (r: nat)
  {
    Or(deltaType, refId)
  }

  /** The items get_serialized encodes without raising. */
  predicate Serializable(item: DeltaItem)
  {
    && item.offset < U64_LIMIT
    && item.offsetLen < U16_LIMIT
    && TypeRefByte(item.deltaType, item.refId) < 256
    && (IsRawOrXdelta(item) ==> item.dataLen < U64_LIMIT && (item.dataLen != 0 ==> item.data.Bytes?))
    && (item.refId in {REF_SELF, REF_BASE_DISK, REF_BASE_MEM} ==> item.data.Num? && 0 <= item.data.n < U64_LIMIT)
  }

  /** Whether a reference kind carries an 8-byte integer after the header. */
  predicate CarriesNumber(refId: nat)
  {
    refId in {REF_SELF, REF_BASE_DISK, REF_BASE_MEM}
  }

  /** The size get_serialized produces. */
  function SerializedSize(item: DeltaItem): nat
  {
    11 + (if IsRawOrXdelta(item) then 8 + item.dataLen else if CarriesNumber(item.refId) then 8 else 0)
  }

  /**
   * get_serialized(): "!QHc" header (offset, offset_len, delta_type | ref_id), then for
   * RAW/XDELTA "!Q" data_len and data padded or cut to data_len bytes, for SELF and the
   * base references "!Q" data, and for anything else nothing.
   */
  function Serialize(item: DeltaItem): (r: Result<seq<byte>, string>)
    ensures r.Success? <==> Serializable(item)
    ensures r.Success? ==> |r.value| == SerializedSize(item)
    ensures TypeRefByte(item.deltaType, item.refId) >= 256 ==> r == Failure("ValueError: chr() arg not in range(256)")
  {
    Pow256Values();
    if TypeRefByte(item.deltaType, item.refId) >= 256 then Failure("ValueError: chr() arg not in range(256)")
    else if item.offset >= U64_LIMIT || item.offsetLen >= U16_LIMIT then Failure("struct.error")
    else
      var t: byte := TypeRefByte(item.deltaType, item.refId);
      var header: seq<byte> := BeEncode(item.offset, 8) + BeEncode(item.offsetLen, 2) + [t];
      if IsRawOrXdelta(item) then
        if item.dataLen >= U64_LIMIT then Failure("struct.error")
        else if item.dataLen == 0 then Success(header + BeEncode(0, 8))
        else if !item.data.Bytes? then Failure("struct.error")
        else Success(header + BeEncode(item.dataLen, 8) + PadOrCut(item.data.b, item.dataLen))
      else if CarriesNumber(item.refId) then
        if !item.data.Num? || !(0 <= item.data.n < U64_LIMIT) then Failure("struct.error")
        else Success(header + BeEncode(item.data.n, 8))
      else Success(header)
  }

  /**
   * unpack_stream(stream) over the bytes still unread: None on an empty stream, else one
   * item and the rest. A short read of a fixed-size field raises; the data of a
   * RAW/XDELTA item may come out shorter than data_len. For a reference kind without a
   * payload, `data` is still the 11 header bytes.
   */
  function Unpack(stream: seq<byte>): (r: Result<Option<(DeltaItem, seq<byte>)>, string>)
    ensures r.Success? && r.value.None? <==> stream == []
    ensures r.Success? && r.value.Some? ==>
              |r.value.value.1| + 11 <= |stream| && r.value.value.1 == stream[|stream| - |r.value.value.1|..]
  {
    var (header, rest) := Read(stream, 11);
    if header == [] then Success(None)
    else if |header| < 11 then Failure("struct.error: unpack requires a string argument of length 11")
    else match UnpackBody(header, rest)
      case Failure(e) => Failure(e)
      case Success(p) => Success(Some(p))
  }

  /** The fields after an 11-byte header, by the reference kind in its third byte. */
  function UnpackBody(header: seq<byte>, rest: seq<byte>): (r: Result<(DeltaItem, seq<byte>), string>)
    requires |header| == 11
    ensures r.Success? ==> |r.value.1| <= |rest| && r.value.1 == rest[|rest| - |r.value.1|..]
  {
    var offset := BeDecode(header[..8]);
    var offsetLen := BeDecode(header[8..10]);
    var refId := header[10] - header[10] % 16;
    var deltaType := header[10] % 16;
    if refId == REF_RAW || refId == REF_XDELTA then
      var (lenField, rest2) := Read(rest, 8);
      if |lenField| < 8 then Failure("struct.error: unpack requires a string argument of length 8")
      else
        var dataLen := BeDecode(lenField);
        var (data, rest3) := Read(rest2, dataLen);
        Success((DeltaItem(deltaType, offset, offsetLen, None, refId, dataLen, Bytes(data)), rest3))
    else if CarriesNumber(refId) then
      var (field, rest2) := Read(rest, 8);
      if |field| < 8 then Failure("struct.error: unpack requires a string argument of length 8")
      else Success((DeltaItem(deltaType, offset, offsetLen, None, refId, 0, Num(BeDecode(field))), rest2))
    else Success((DeltaItem(deltaType, offset, offsetLen, None, refId, 0, Bytes(header)), rest))
  }

  /** The data get_serialized writes for a RAW/XDELTA item: data_len bytes, or none at all. */
  function RawPayload(item: DeltaItem): (r: seq<byte>)
    requires IsRawOrXdelta(item) && (item.dataLen != 0 ==> item.data.Bytes?)
    ensures |r| == item.dataLen
  {
    if item.dataLen == 0 then [] else PadOrCut(item.data.b, item.dataLen)
  }

  /** The item unpack_stream rebuilds from get_serialized's bytes. */
  function Decoded(item: DeltaItem): (r: DeltaItem)
    requires Serializable(item)
  {
    Pow256Values();
    var t: byte := TypeRefByte(item.deltaType, item.refId);
    var header: seq<byte> := BeEncode(item.offset, 8) + BeEncode(item.offsetLen, 2) + [t];
    if IsRawOrXdelta(item) then
      item.(hash := None, data := Bytes(RawPayload(item)))
    else if CarriesNumber(item.refId) then
      item.(hash := None, dataLen := 0)
    else
      item.(hash := None, dataLen := 0, data := Bytes(header))
  }

  /** The wire formats whose type and reference nibbles separate again. */
  predicate WireShaped(item: DeltaItem)
  {
    Serializable(item) && item.deltaType < 16 && item.refId < 256 && item.refId % 16 == 0
  }

  /** The header bytes get_serialized writes. */
  function Header(item: DeltaItem): (r: seq<byte>)
    requires WireShaped(item)
    ensures |r| == 11
  {
    Pow256Values();
    var t: byte := TypeRefByte(item.deltaType, item.refId);
    BeEncode(item.offset, 8) + BeEncode(item.offsetLen, 2) + [t]
  }

  /** The header decodes to the item's offset, offset_len, delta_type and ref_id. */
  lemma HeaderFields(item: DeltaItem)
    requires WireShaped(item)
    ensures BeDecode(Header(item)[..8]) == item.offset
    ensures BeDecode(Header(item)[8..10]) == item.offsetLen
    ensures Header(item)[10] % 16 == item.deltaType
    ensures Header(item)[10] - Header(item)[10] % 16 == item.refId
  {
    Pow256Values();
    HeaderPieces(item);
    BeRoundTrip(item.offset, 8);
    BeRoundTrip(item.offsetLen, 2);
    TypeRefSplits(item.deltaType, item.refId);
  }

  /** The header is the offset's 8 bytes, offset_len's 2 bytes and the type/reference byte. */
  lemma HeaderPieces(item: DeltaItem)
    requires WireShaped(item)
    ensures Pow256(8) == U64_LIMIT && Pow256(2) == U16_LIMIT
    ensures Header(item)[..8] == BeEncode(item.offset, 8)
    ensures Header(item)[8..10] == BeEncode(item.offsetLen, 2)
    ensures Header(item)[10] == TypeRefByte(item.deltaType, item.refId)
  {
    Pow256Values();
    var a, b := BeEncode(item.offset, 8), BeEncode(item.offsetLen, 2);
    var c: seq<byte> := [TypeRefByte(item.deltaType, item.refId)];
    assert Header(item) == a + b + c;
    assert (a + b + c)[..8] == a;
    assert (a + b + c)[8..10] == b;
  }

  /** A type below 16 or-ed with a multiple of 16 comes apart again into its two nibbles. */
  lemma TypeRefSplits(deltaType: nat, refId: nat)
    requires deltaType < 16 && refId % 16 == 0
    ensures TypeRefByte(deltaType, refId) % 16 == deltaType
    ensures TypeRefByte(deltaType, refId) - TypeRefByte(deltaType, refId) % 16 == refId
  {
    var m := refId / 16;
    Pow2Four();
    OrDisjoint(deltaType, m, 4);
    LowNibble(deltaType, m);
  }

  lemma Pow2Four()
    ensures Pow2(4) == 16
  {
    assert Pow2(2) == 4;
  }

  /** t + 16 m splits into its low nibble t and the multiple of 16. */
  lemma LowNibble(t: nat, m: nat)
    requires t < 16
    ensures (t + 16 * m) % 16 == t
    ensures (t + 16 * m) - (t + 16 * m) % 16 == 16 * m
  {
  }

  /** The trailer get_serialized writes after the header. */
  lemma SerializeSplits(item: DeltaItem)
    requires WireShaped(item)
    ensures Serialize(item).value == Header(item) + Trailer(item)
  {
  }

  /** The bytes after the header. */
  function Trailer(item: DeltaItem): seq<byte>
    requires WireShaped(item)
  {
    Pow256Values();
    if IsRawOrXdelta(item) then BeEncode(item.dataLen, 8) + RawPayload(item)
    else if CarriesNumber(item.refId) then BeEncode(item.data.n, 8)
    else []
  }

  /**
   * unpack_stream after get_serialized restores offset, offset_len, delta_type, ref_id
   * and data (and data_len for RAW/XDELTA), and leaves the rest of the stream unread.
   */
  lemma UnpackSerialized(item: DeltaItem, rest: seq<byte>)
    requires WireShaped(item)
    ensures Unpack(Serialize(item).value + rest) == Success(Some((Decoded(item), rest)))
  {
    SerializeSplits(item);
    var h := Header(item);
    var tail := Trailer(item) + rest;
    assert Serialize(item).value + rest == h + tail;
    ReadSplit(h, tail);
    UnpackBodyOfTrailer(item, rest);
  }

  lemma UnpackBodyOfTrailer(item: DeltaItem, rest: seq<byte>)
    requires WireShaped(item)
    ensures UnpackBody(Header(item), Trailer(item) + rest) == Success((Decoded(item), rest))
  {
    HeaderFields(item);
    if IsRawOrXdelta(item) {
      UnpackRawTrailer(item, rest);
    } else if CarriesNumber(item.refId) {
      UnpackNumberTrailer(item, rest);
    } else {
      assert Trailer(item) + rest == rest;
    }
  }

  /** A RAW/XDELTA trailer: the 8-byte data_len, then exactly data_len bytes of data. */
  lemma UnpackRawTrailer(item: DeltaItem, rest: seq<byte>)
    requires WireShaped(item) && IsRawOrXdelta(item)
    requires BeDecode(Header(item)[..8]) == item.offset && BeDecode(Header(item)[8..10]) == item.offsetLen
    requires Header(item)[10] % 16 == item.deltaType && Header(item)[10] - Header(item)[10] % 16 == item.refId
    ensures UnpackBody(Header(item), Trailer(item) + rest) == Success((Decoded(item), rest))
  {
    var payload := RawPayload(item);
    var field := LengthField(item.dataLen);
    assert Trailer(item) + rest == field + (payload + rest);
    UnpackLengthPrefixed(Header(item), field, payload, rest);
  }

  /** data_len's 8-byte field, which decodes back to data_len. */
  lemma LengthField(v: nat) returns (field: seq<byte>)
    requires v < U64_LIMIT
    ensures v < Pow256(8) && field == BeEncode(v, 8)
    ensures |field| == 8 && BeDecode(field) == v
  {
    Pow256Values();
    field := BeEncode(v, 8);
    BeRoundTrip(v, 8);
  }

  /** An 8-byte length field followed by that many bytes comes back as exactly those bytes. */
  lemma UnpackLengthPrefixed(h: seq<byte>, field: seq<byte>, payload: seq<byte>, rest: seq<byte>)
    requires |h| == 11 && |field| == 8 && BeDecode(field) == |payload|
    requires h[10] - h[10] % 16 == REF_RAW || h[10] - h[10] % 16 == REF_XDELTA
    ensures UnpackBody(h, field + (payload + rest))
         == Success((DeltaItem(h[10] % 16, BeDecode(h[..8]), BeDecode(h[8..10]), None, h[10] - h[10] % 16, |payload|, Bytes(payload)), rest))
  {
    ReadSplit(field, payload + rest);
    ReadSplit(payload, rest);
  }

  /** A SELF or base reference trailer: the 8-byte target. */
  lemma UnpackNumberTrailer(item: DeltaItem, rest: seq<byte>)
    requires WireShaped(item) && !IsRawOrXdelta(item) && CarriesNumber(item.refId)
    requires BeDecode(Header(item)[..8]) == item.offset && BeDecode(Header(item)[8..10]) == item.offsetLen
    requires Header(item)[10] % 16 == item.deltaType && Header(item)[10] - Header(item)[10] % 16 == item.refId
    ensures UnpackBody(Header(item), Trailer(item) + rest) == Success((Decoded(item), rest))
  {
    Pow256Values();
    var field := BeEncode(item.data.n, 8);
    assert Trailer(item) + rest == field + rest;
    ReadSplit(field, rest);
    BeRoundTrip(item.data.n, 8);
  }

  // ---------------------------------------------------------------- files of items

  /** The bytes tofile writes for a list: every item's encoding in order, or the first error. */
  function EncodeAll(items: seq<DeltaItem>): (r: Result<seq<byte>, string>)
    ensures r.Success? <==> forall i :: 0 <= i < |items| ==> Serializable(items[i])
  {
    if items == [] then Success([])
    else match Serialize(items[0])
      case Failure(e) => Failure(e)
      case Success(b) =>
        match EncodeAll(items[1..])
        case Failure(e) => Failure(e)
        case Success(bs) => assert forall i :: 1 <= i < |items| ==> items[i] == items[1..][i - 1]; Success(b + bs)
  }

  /** The list fromfile reads: items until the stream is exhausted, or the first error. */
  function DecodeAll(stream: seq<byte>): Result<seq<DeltaItem>, string>
    decreases |stream|
  {
    match Unpack(stream)
    case Failure(e) => Failure(e)
    case Success(None) => Success([])
    case Success(Some((item, rest))) =>
      match DecodeAll(rest)
      case Failure(e) => Failure(e)
      case Success(items) => Success([item] + items)
  }

  /** out followed by what r produced, or r's error. */
  function PrependBytes(out: seq<byte>, r: Result<seq<byte>, string>): Result<seq<byte>, string>
  {
    match r
    case Success(b) => Success(out + b)
    case Failure(e) => Failure(e)
  }

  /** items followed by what r produced, or r's error. */
  function PrependItems(items: seq<DeltaItem>, r: Result<seq<DeltaItem>, string>): Result<seq<DeltaItem>, string>
  {
    match r
    case Success(xs) => Success(items + xs)
    case Failure(e) => Failure(e)
  }

  /** One step of EncodeAll. */
  lemma EncodeAllCons(items: seq<DeltaItem>, out: seq<byte>)
    requires items != []
    ensures Serialize(items[0]).Failure? ==> PrependBytes(out, EncodeAll(items)) == Failure(Serialize(items[0]).error)
    ensures Serialize(items[0]).Success? ==>
              PrependBytes(out, EncodeAll(items)) == PrependBytes(out + Serialize(items[0]).value, EncodeAll(items[1..]))
  {
    if Serialize(items[0]).Success? && EncodeAll(items[1..]).Success? {
      var b, bs := Serialize(items[0]).value, EncodeAll(items[1..]).value;
      assert out + (b + bs) == (out + b) + bs;
    }
  }

  /** One step of DecodeAll. */
  lemma DecodeAllCons(rest: seq<byte>, items: seq<DeltaItem>)
    requires Unpack(rest).Success? && Unpack(rest).value.Some?
    ensures PrependItems(items, DecodeAll(rest)) ==
            PrependItems(items + [Unpack(rest).value.value.0], DecodeAll(Unpack(rest).value.value.1))
  {
    var item, rest' := Unpack(rest).value.value.0, Unpack(rest).value.value.1;
    if DecodeAll(rest').Success? {
      var xs := DecodeAll(rest').value;
      assert items + ([item] + xs) == (items + [item]) + xs;
    }
  }

  /** DeltaList.tofile(delta_list): the bytes written; an empty list raises. */
  method ToFile(items: seq<DeltaItem>) returns (r: Result<seq<byte>, string>)
    ensures items == [] ==> r.Failure?
    ensures items != [] ==> r == EncodeAll(items)
  {
    if |items| == 0 {
      return Failure("MemoryError: Need list of DeltaItem");
    }
    var out: seq<byte> := [];
    var i := 0;
    assert items[0..] == items;
    if EncodeAll(items).Success? {
      assert [] + EncodeAll(items).value == EncodeAll(items).value;
    }
    while i < |items|
      invariant 0 <= i <= |items|
      invariant EncodeAll(items) == PrependBytes(out, EncodeAll(items[i..]))
    {
      assert items[i..][0] == items[i] && items[i..][1..] == items[i + 1..];
      EncodeAllCons(items[i..], out);
      var b := Serialize(items[i]);
      if b.Failure? {
        return Failure(b.error);
      }
      out := out + b.value;
      i := i + 1;
    }
    assert items[i..] == [];
    assert out + [] == out;
    return Success(out);
  }

  /** DeltaList.fromfile(f_path) over the file's bytes. */
  method FromFile(stream: seq<byte>) returns (r: Result<seq<DeltaItem>, string>)
    ensures r == DecodeAll(stream)
  {
    var items: seq<DeltaItem> := [];
    var rest := stream;
    if DecodeAll(stream).Success? {
      assert [] + DecodeAll(stream).value == DecodeAll(stream).value;
    }
    while true
      invariant DecodeAll(stream) == PrependItems(items, DecodeAll(rest))
      decreases |rest|
    {
      var next := Unpack(rest);
      if next.Failure? {
        return Failure(next.error);
      }
      if next.value.None? {
        assert items + [] == items;
        return Success(items);
      }
      DecodeAllCons(rest, items);
      items := items + [next.value.value.0];
      rest := next.value.value.1;
    }
  }

  /** Decoded, item by item. */
  function DecodedAll(items: seq<DeltaItem>): (r: seq<DeltaItem>)
    requires forall i :: 0 <= i < |items| ==> Serializable(items[i])
    ensures |r| == |items|
  {
    if items == [] then [] else [Decoded(items[0])] + DecodedAll(items[1..])
  }

  /** Reading back what tofile wrote gives the decoded items, in order. */
  lemma {:induction false} FileRoundTrip(items: seq<DeltaItem>)
    requires forall i :: 0 <= i < |items| ==> WireShaped(items[i])
    ensures EncodeAll(items).Success?
    ensures DecodeAll(EncodeAll(items).value) == Success(DecodedAll(items))
  {
    if items != [] {
      var tail := items[1..];
      assert forall i :: 0 <= i < |tail| ==> tail[i] == items[i + 1];
      FileRoundTrip(tail);
      var b := Serialize(items[0]).value;
      var bs := EncodeAll(tail).value;
      assert EncodeAll(items).value == b + bs;
      UnpackSerialized(items[0], bs);
    }
  }

  // ---------------------------------------------------------------- table dedup

  /**
   * deduplicate_deltaitem(hash_dict, delta_item, ref_id): a RAW/XDELTA item whose hash
   * is in the table becomes a reference to the table entry's start.
   */
  function Deduplicate(table: map<Option<seq<byte>>, HashEntry>, item: DeltaItem, refId: nat): (r: (bool, DeltaItem))
    ensures r.0 <==> item.hash in table && IsRawOrXdelta(item)
    ensures r.0 ==> r.1 == Redirect(item, refId, table[item.hash].start)
    ensures !r.0 ==> r.1 == item
  {
    if item.hash in table && IsRawOrXdelta(item) then (true, Redirect(item, refId, table[item.hash].start))
    else (false, item)
  }

  /** A second dedup finds nothing to do once an item has become a non-RAW/XDELTA reference. */
  lemma DeduplicateIdempotent(t1: map<Option<seq<byte>>, HashEntry>, t2: map<Option<seq<byte>>, HashEntry>, item: DeltaItem, refId: nat)
    requires refId != REF_RAW && refId != REF_XDELTA
    requires Deduplicate(t1, item, refId).0
    ensures Deduplicate(t2, Deduplicate(t1, item, refId).1, refId) == (false, Deduplicate(t1, item, refId).1)
  {
  }
}
