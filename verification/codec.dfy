/**
 The request side of the wire codec: the 24-byte header, the request frame
 (header, extras, key, value) and the extra header each client method packs.
 Where a layout in the constants module does not match the values its call
 site packs, the call site is modelled as written (it raises) next to a
 corrected layout that the rest of the model uses.
 */
module Codec {
  import opened Results
  import opened Struct
  import opened Constants

  /** The exceptions the client can raise, and where they come from. */
  datatype ClientError =
    | PackError(cause: StructError)       // struct.error from pack/unpack
    | UndefinedConstant(name: string)     // AttributeError on the constants module
    | UnpackArity(names: nat, values: nat) // ValueError unpacking a tuple
    | EofError                            // EOFError: a zero-length read
    | BadMagic(magic: int)                // AssertionError on the magic byte
    | OpaqueMismatch(expected: int, got: int) // AssertionError on the opaque value
    | ServerError(status: int, body: Bytes)   // MemcachedError(status, body)
    | UnknownOpaque(opq: int)          // KeyError in the multi-get loop

  /** The nine header fields; `vbucketOrStatus` is the vbucket in a request and the status in a response. */
  datatype Header = Header(
    magic: int, opcode: int, keylen: int, extralen: int, dataType: int,
    vbucketOrStatus: int, bodylen: int, opq: int, cas: int)

  function HeaderFields(h: Header): seq<int> {
    [h.magic, h.opcode, h.keylen, h.extralen, h.dataType, h.vbucketOrStatus, h.bodylen, h.opq, h.cas]
  }

  /** Whether every header field fits its width in the 24-byte layout. */
  predicate HeaderFits(h: Header) {
    && 0 <= h.magic < 0x100 && 0 <= h.opcode < 0x100 && 0 <= h.keylen < 0x1_0000
    && 0 <= h.extralen < 0x100 && 0 <= h.dataType < 0x100 && 0 <= h.vbucketOrStatus < 0x1_0000
    && 0 <= h.bodylen < 0x1_0000_0000 && 0 <= h.opq < 0x1_0000_0000
    && 0 <= h.cas < 0x1_0000_0000_0000_0000
  }

  /**
   The 24 bytes of a header, each field big-endian at its offset, or the
   error `struct.pack` raises when a field does not fit its width;
   `HeaderPacks` shows this is `struct.pack(REQ_PKT_FMT, ...)`.
   */
  function EncodeHeader(h: Header): (r: Result<Bytes, StructError>)
    ensures r.Ok? <==> HeaderFits(h)
    ensures r.Ok? ==> |r.value| == MIN_RECV_PACKET
  {
    if !HeaderFits(h) then Err(OutOfRange)
    else
      Ok([h.magic, h.opcode] + Put16(h.keylen) + [h.extralen, h.dataType] + Put16(h.vbucketOrStatus)
        + Put32(h.bodylen) + Put32(h.opq) + Put64(h.cas))
  }

  /**
   The nine fields of a 24-byte header read big-endian at their offsets;
   `HeaderUnpacks` shows this is `struct.unpack(RES_PKT_FMT, ...)`.
   */
  function DecodeHeader(b: Bytes): (h: Header)
    requires |b| == MIN_RECV_PACKET
    ensures HeaderFits(h)
  {
    Header(b[0] as int, b[1] as int, Be16(b, 2), b[4] as int, b[5] as int, Be16(b, 6), Be32(b, 8), Be32(b, 12), Be64(b, 16))
  }

  /** Where each header field starts: the size of the fields before it. */
  lemma HeaderOffsets()
    ensures CalcSize(RES_PKT_FMT[..0]) == 0
      && CalcSize(RES_PKT_FMT[..1]) == 1
      && CalcSize(RES_PKT_FMT[..2]) == 2
      && CalcSize(RES_PKT_FMT[..3]) == 4
      && CalcSize(RES_PKT_FMT[..4]) == 5
      && CalcSize(RES_PKT_FMT[..5]) == 6
      && CalcSize(RES_PKT_FMT[..6]) == 8
      && CalcSize(RES_PKT_FMT[..7]) == 12
      && CalcSize(RES_PKT_FMT[..8]) == 16
    ensures CalcSize(RES_PKT_FMT) == MIN_RECV_PACKET
  {
    var fmt := RES_PKT_FMT;
    assert fmt[..0] == [];
    CalcSizeSnoc(fmt, 0);
    CalcSizeSnoc(fmt, 1);
    CalcSizeSnoc(fmt, 2);
    CalcSizeSnoc(fmt, 3);
    CalcSizeSnoc(fmt, 4);
    CalcSizeSnoc(fmt, 5);
    CalcSizeSnoc(fmt, 6);
    CalcSizeSnoc(fmt, 7);
    CalcSizeSnoc(fmt, 8);
    assert fmt[..9] == fmt;
  }

  /** The first three header fields, read at their offsets. */
  lemma HeaderUnpacksLead(b: Bytes)
    requires |b| == CalcSize(RES_PKT_FMT)
    ensures UnpackFields(RES_PKT_FMT, b)[0] == b[0] as int
      && UnpackFields(RES_PKT_FMT, b)[1] == b[1] as int
      && UnpackFields(RES_PKT_FMT, b)[2] == Be16(b, 2)
  {
    HeaderOffsets();
    UnpackWordAt(RES_PKT_FMT, b, 0, 0);
    UnpackWordAt(RES_PKT_FMT, b, 1, 1);
    UnpackWordAt(RES_PKT_FMT, b, 2, 2);
  }

  /** The next three header fields. */
  lemma HeaderUnpacksMiddle(b: Bytes)
    requires |b| == CalcSize(RES_PKT_FMT)
    ensures UnpackFields(RES_PKT_FMT, b)[3] == b[4] as int
      && UnpackFields(RES_PKT_FMT, b)[4] == b[5] as int
      && UnpackFields(RES_PKT_FMT, b)[5] == Be16(b, 6)
  {
    HeaderOffsets();
    UnpackWordAt(RES_PKT_FMT, b, 3, 4);
    UnpackWordAt(RES_PKT_FMT, b, 4, 5);
    UnpackWordAt(RES_PKT_FMT, b, 5, 6);
  }

  /** The last three header fields. */
  lemma HeaderUnpacksTrail(b: Bytes)
    requires |b| == CalcSize(RES_PKT_FMT)
    ensures UnpackFields(RES_PKT_FMT, b)[6] == Be32(b, 8)
      && UnpackFields(RES_PKT_FMT, b)[7] == Be32(b, 12)
      && UnpackFields(RES_PKT_FMT, b)[8] == Be64(b, 16)
  {
    HeaderOffsets();
    UnpackWordAt(RES_PKT_FMT, b, 6, 8);
    UnpackWordAt(RES_PKT_FMT, b, 7, 12);
    UnpackWordAt(RES_PKT_FMT, b, 8, 16);
  }

  /** Reading the fields at their offsets is what unpacking the response layout does. */
  lemma HeaderUnpacks(b: Bytes)
    requires |b| == MIN_RECV_PACKET
    ensures Unpack(RES_PKT_FMT, b) == Ok(HeaderFields(DecodeHeader(b)))
  {
    HeaderOffsets();
    HeaderUnpacksLead(b);
    HeaderUnpacksMiddle(b);
    HeaderUnpacksTrail(b);
    assert UnpackFields(RES_PKT_FMT, b) == HeaderFields(DecodeHeader(b));
  }

  /**
   Decoding an encoded header gives back every field; the request's vbucket
   slot comes back as the response's status slot.
   */
  lemma HeaderRoundTrip(h: Header)
    requires HeaderFits(h)
    ensures DecodeHeader(EncodeHeader(h).value) == h
  {
    var b := EncodeHeader(h).value;
    assert b[2..4] == Put16(h.keylen);
    Put16Reads(b, 2, h.keylen);
    assert b[6..8] == Put16(h.vbucketOrStatus);
    Put16Reads(b, 6, h.vbucketOrStatus);
    assert b[8..12] == Put32(h.bodylen);
    Put32Reads(b, 8, h.bodylen);
    assert b[12..16] == Put32(h.opq);
    Put32Reads(b, 12, h.opq);
    assert b[16..24] == Put64(h.cas);
    Put64Reads(b, 16, h.cas);
  }

  /** Encoding a decoded header gives back the same 24 bytes. */
  lemma HeaderBytesRoundTrip(b: Bytes)
    requires |b| == MIN_RECV_PACKET
    ensures EncodeHeader(DecodeHeader(b)) == Ok(b)
  {
    Be16Writes(b, 2);
    Be16Writes(b, 6);
    Be32Writes(b, 8);
    Be32Writes(b, 12);
    Be64Writes(b, 16);
    var e := [b[0], b[1]] + b[2..4] + [b[4], b[5]] + b[6..8] + b[8..12] + b[12..16] + b[16..24];
    assert EncodeHeader(DecodeHeader(b)) == Ok(e);
    assert e == b;
  }

  /** The encoding is what `struct.pack(REQ_PKT_FMT, ...)` produces, error included. */
  lemma HeaderPacks(h: Header)
    ensures EncodeHeader(h) == Pack(REQ_PKT_FMT, HeaderFields(h))
  {
    HeaderLayout();
    var f := HeaderFields(h);
    assert AllFit(REQ_PKT_FMT, f) <==> (Fits(REQ_PKT_FMT[0], f[0]) && Fits(REQ_PKT_FMT[1], f[1])
      && Fits(REQ_PKT_FMT[2], f[2]) && Fits(REQ_PKT_FMT[3], f[3]) && Fits(REQ_PKT_FMT[4], f[4])
      && Fits(REQ_PKT_FMT[5], f[5]) && Fits(REQ_PKT_FMT[6], f[6]) && Fits(REQ_PKT_FMT[7], f[7])
      && Fits(REQ_PKT_FMT[8], f[8]));
    if HeaderFits(h) {
      var b := EncodeHeader(h).value;
      HeaderRoundTrip(h);
      HeaderUnpacks(b);
      PackUnpack(RES_PKT_FMT, b);
    }
  }

  /** The client's `vbucketId` class attribute. */
  const VBUCKET_ID: nat := 0

  /** The header `_sendCmd` writes for a request. */
  function RequestHeader(cmd: int, key: Bytes, val: Bytes, opq: int, extras: Bytes, cas: int): Header {
    Header(REQ_MAGIC_BYTE, cmd, |key|, |extras|, 0, VBUCKET_ID, |key| + |extras| + |val|, opq, cas)
  }

  /**
   `_sendCmd`: the bytes written for one request, the header followed by the
   extras, the key and the value.  Encoding succeeds exactly when every header
   field fits its width; then the body length field equals the sum of the
   three segment lengths and the header decodes back to what was sent.
   */
  function SendCmd(cmd: int, key: Bytes, val: Bytes, opq: int, extras: Bytes, cas: int): (r: Result<Bytes, ClientError>)
    ensures r.Ok? <==>
      && 0 <= cmd < 0x100 && |key| < 0x1_0000 && |extras| < 0x100
      && |key| + |extras| + |val| < 0x1_0000_0000
      && 0 <= opq < 0x1_0000_0000 && 0 <= cas < 0x1_0000_0000_0000_0000
    ensures r.Ok? ==>
      && |r.value| == MIN_RECV_PACKET + |extras| + |key| + |val|
      && r.value[MIN_RECV_PACKET..] == extras + key + val
      && DecodeHeader(r.value[..MIN_RECV_PACKET]).bodylen == |extras| + |key| + |val|
      && DecodeHeader(r.value[..MIN_RECV_PACKET]) == RequestHeader(cmd, key, val, opq, extras, cas)
  {
    var h := RequestHeader(cmd, key, val, opq, extras, cas);
    match EncodeHeader(h)
    case Err(e) => Err(PackError(e))
    case Ok(hb) =>
      HeaderRoundTrip(h);
      var body := extras + key + val;
      var frame := hb + body;
      assert frame[..MIN_RECV_PACKET] == hb;
      assert frame[MIN_RECV_PACKET..] == body;
      Ok(frame)
  }

  // ---------------------------------------------------------------------
  // Extra headers of the plain commands.

  /** `_mutate`: flags and expiration for set/add/replace and cas. */
  function MutateExtras(flags: int, exp: int): (r: Result<Bytes, StructError>)
    ensures r.Ok? <==> 0 <= flags < 0x1_0000_0000 && 0 <= exp < 0x1_0000_0000
    ensures r.Ok? ==> |r.value| == 8
  {
    var r := Pack(SET_PKT_FMT, [flags, exp]);
    r
  }

  /** Unpacking the bytes `MutateExtras` writes with the same layout gives back the values. */
  lemma MutateExtrasUnpack(flags: int, exp: int)
    requires MutateExtras(flags, exp).Ok?
    ensures Unpack(SET_PKT_FMT, MutateExtras(flags, exp).value) == Ok([flags, exp])
  {
    var vals := [flags, exp];
    assert MutateExtras(flags, exp) == Pack(SET_PKT_FMT, vals);
    UnpackPack(SET_PKT_FMT, vals);
  }

  /** `__incrdecr`: amount, initial value and expiration. */
  function IncrDecrExtras(amt: int, init: int, exp: int): (r: Result<Bytes, StructError>)
    ensures r.Ok? <==>
      0 <= amt < 0x1_0000_0000_0000_0000 && 0 <= init < 0x1_0000_0000_0000_0000 && 0 <= exp < 0x1_0000_0000
    ensures r.Ok? ==> |r.value| == 20
  {
    var r := Pack(INCRDECR_PKT_FMT, [amt, init, exp]);
    r
  }

  /** Unpacking the bytes `IncrDecrExtras` writes with the same layout gives back the values. */
  lemma IncrDecrExtrasUnpack(amt: int, init: int, exp: int)
    requires IncrDecrExtras(amt, init, exp).Ok?
    ensures Unpack(INCRDECR_PKT_FMT, IncrDecrExtras(amt, init, exp).value) == Ok([amt, init, exp])
  {
    var vals := [amt, init, exp];
    assert IncrDecrExtras(amt, init, exp) == Pack(INCRDECR_PKT_FMT, vals);
    UnpackPack(INCRDECR_PKT_FMT, vals);
  }

  /** `flush`: the delay before the flush takes effect. */
  function FlushExtras(timebomb: int): (r: Result<Bytes, StructError>)
    ensures r.Ok? <==> 0 <= timebomb < 0x1_0000_0000
    ensures r.Ok? ==> |r.value| == 4
  {
    var r := Pack(FLUSH_PKT_FMT, [timebomb]);
    r
  }

  /** Unpacking the bytes `FlushExtras` writes with the same layout gives back the values. */
  lemma FlushExtrasUnpack(timebomb: int)
    requires FlushExtras(timebomb).Ok?
    ensures Unpack(FLUSH_PKT_FMT, FlushExtras(timebomb).value) == Ok([timebomb])
  {
    var vals := [timebomb];
    assert FlushExtras(timebomb) == Pack(FLUSH_PKT_FMT, vals);
    UnpackPack(FLUSH_PKT_FMT, vals);
  }

  // ---------------------------------------------------------------------
  // Extra headers of the collection commands whose layouts match their call sites.

  predicate IsInt32(v: int) { -0x8000_0000 <= v < 0x8000_0000 }
  predicate IsUInt32(v: int) { 0 <= v < 0x1_0000_0000 }
  predicate IsUInt64(v: int) { 0 <= v < 0x1_0000_0000_0000_0000 }
  predicate IsUInt8(v: int) { 0 <= v < 0x100 }

  /** `lop_insert`: signed index, flags, expiration, maxcount, create flag and three reserved bytes. */
  function LopInsertExtras(index: int, flags: int, exptime: int, maxcount: int, create: int): (r: Result<Bytes, StructError>)
    ensures r.Ok? <==> IsInt32(index) && IsUInt32(flags) && IsUInt32(exptime) && IsUInt32(maxcount) && IsUInt8(create)
    ensures r.Ok? ==> |r.value| == 20
  {
    var vals := [index, flags, exptime, maxcount, create, 0, 0, 0];
    var r := Pack(LOP_INS_PKT_FMT, vals);
    assert AllFit(LOP_INS_PKT_FMT, vals) <==> (Fits(LOP_INS_PKT_FMT[0], vals[0]) &&
      Fits(LOP_INS_PKT_FMT[1], vals[1]) && Fits(LOP_INS_PKT_FMT[2], vals[2]) &&
      Fits(LOP_INS_PKT_FMT[3], vals[3]) && Fits(LOP_INS_PKT_FMT[4], vals[4]) &&
      Fits(LOP_INS_PKT_FMT[5], vals[5]) && Fits(LOP_INS_PKT_FMT[6], vals[6]) &&
      Fits(LOP_INS_PKT_FMT[7], vals[7]));
    r
  }

  /** Unpacking the bytes `LopInsertExtras` writes with the same layout gives back the values. */
  lemma LopInsertExtrasUnpack(index: int, flags: int, exptime: int, maxcount: int, create: int)
    requires LopInsertExtras(index, flags, exptime, maxcount, create).Ok?
    ensures Unpack(LOP_INS_PKT_FMT, LopInsertExtras(index, flags, exptime, maxcount, create).value) == Ok([index, flags, exptime, maxcount, create, 0, 0, 0])
  {
    var vals := [index, flags, exptime, maxcount, create, 0, 0, 0];
    assert LopInsertExtras(index, flags, exptime, maxcount, create) == Pack(LOP_INS_PKT_FMT, vals);
    UnpackPack(LOP_INS_PKT_FMT, vals);
  }

  /** `lop_get`: signed from and to indices, delete and drop-if-empty flags, two reserved bytes. */
  function LopGetExtras(from: int, to: int, delete: int, dropIfEmpty: int): (r: Result<Bytes, StructError>)
    ensures r.Ok? <==> IsInt32(from) && IsInt32(to) && IsUInt8(delete) && IsUInt8(dropIfEmpty)
    ensures r.Ok? ==> |r.value| == 12
  {
    var vals := [from, to, delete, dropIfEmpty, 0, 0];
    var r := Pack(LOP_GET_PKT_FMT, vals);
    assert AllFit(LOP_GET_PKT_FMT, vals) <==> (Fits(LOP_GET_PKT_FMT[0], vals[0]) &&
      Fits(LOP_GET_PKT_FMT[1], vals[1]) && Fits(LOP_GET_PKT_FMT[2], vals[2]) &&
      Fits(LOP_GET_PKT_FMT[3], vals[3]) && Fits(LOP_GET_PKT_FMT[4], vals[4]) &&
      Fits(LOP_GET_PKT_FMT[5], vals[5]));
    r
  }

  /** Unpacking the bytes `LopGetExtras` writes with the same layout gives back the values. */
  lemma LopGetExtrasUnpack(from: int, to: int, delete: int, dropIfEmpty: int)
    requires LopGetExtras(from, to, delete, dropIfEmpty).Ok?
    ensures Unpack(LOP_GET_PKT_FMT, LopGetExtras(from, to, delete, dropIfEmpty).value) == Ok([from, to, delete, dropIfEmpty, 0, 0])
  {
    var vals := [from, to, delete, dropIfEmpty, 0, 0];
    assert LopGetExtras(from, to, delete, dropIfEmpty) == Pack(LOP_GET_PKT_FMT, vals);
    UnpackPack(LOP_GET_PKT_FMT, vals);
  }

  /** `sop_insert`: flags, expiration, maxcount, create flag and three reserved bytes. */
  function SopInsertExtras(flags: int, exptime: int, maxcount: int, create: int): (r: Result<Bytes, StructError>)
    ensures r.Ok? <==> IsUInt32(flags) && IsUInt32(exptime) && IsUInt32(maxcount) && IsUInt8(create)
    ensures r.Ok? ==> |r.value| == 16
  {
    var vals := [flags, exptime, maxcount, create, 0, 0, 0];
    var r := Pack(SOP_INS_PKT_FMT, vals);
    assert AllFit(SOP_INS_PKT_FMT, vals) <==> (Fits(SOP_INS_PKT_FMT[0], vals[0]) &&
      Fits(SOP_INS_PKT_FMT[1], vals[1]) && Fits(SOP_INS_PKT_FMT[2], vals[2]) &&
      Fits(SOP_INS_PKT_FMT[3], vals[3]) && Fits(SOP_INS_PKT_FMT[4], vals[4]) &&
      Fits(SOP_INS_PKT_FMT[5], vals[5]) && Fits(SOP_INS_PKT_FMT[6], vals[6]));
    r
  }

  /** Unpacking the bytes `SopInsertExtras` writes with the same layout gives back the values. */
  lemma SopInsertExtrasUnpack(flags: int, exptime: int, maxcount: int, create: int)
    requires SopInsertExtras(flags, exptime, maxcount, create).Ok?
    ensures Unpack(SOP_INS_PKT_FMT, SopInsertExtras(flags, exptime, maxcount, create).value) == Ok([flags, exptime, maxcount, create, 0, 0, 0])
  {
    var vals := [flags, exptime, maxcount, create, 0, 0, 0];
    assert SopInsertExtras(flags, exptime, maxcount, create) == Pack(SOP_INS_PKT_FMT, vals);
    UnpackPack(SOP_INS_PKT_FMT, vals);
  }

  /** `sop_get`: count, delete and drop-if-empty flags, two reserved bytes. */
  function SopGetExtras(count: int, delete: int, dropIfEmpty: int): (r: Result<Bytes, StructError>)
    ensures r.Ok? <==> IsUInt32(count) && IsUInt8(delete) && IsUInt8(dropIfEmpty)
    ensures r.Ok? ==> |r.value| == 8
  {
    var vals := [count, delete, dropIfEmpty, 0, 0];
    var r := Pack(SOP_GET_PKT_FMT, vals);
    assert AllFit(SOP_GET_PKT_FMT, vals) <==> (Fits(SOP_GET_PKT_FMT[0], vals[0]) &&
      Fits(SOP_GET_PKT_FMT[1], vals[1]) && Fits(SOP_GET_PKT_FMT[2], vals[2]) &&
      Fits(SOP_GET_PKT_FMT[3], vals[3]) && Fits(SOP_GET_PKT_FMT[4], vals[4]));
    r
  }

  /** Unpacking the bytes `SopGetExtras` writes with the same layout gives back the values. */
  lemma SopGetExtrasUnpack(count: int, delete: int, dropIfEmpty: int)
    requires SopGetExtras(count, delete, dropIfEmpty).Ok?
    ensures Unpack(SOP_GET_PKT_FMT, SopGetExtras(count, delete, dropIfEmpty).value) == Ok([count, delete, dropIfEmpty, 0, 0])
  {
    var vals := [count, delete, dropIfEmpty, 0, 0];
    assert SopGetExtras(count, delete, dropIfEmpty) == Pack(SOP_GET_PKT_FMT, vals);
    UnpackPack(SOP_GET_PKT_FMT, vals);
  }

  /** `bop_insert`: unsigned 64-bit bkey, flags, expiration, maxcount, create flag and three reserved bytes. */
  function BopInsertExtras(bkey: int, flags: int, exptime: int, maxcount: int, create: int): (r: Result<Bytes, StructError>)
    ensures r.Ok? <==> IsUInt64(bkey) && IsUInt32(flags) && IsUInt32(exptime) && IsUInt32(maxcount) && IsUInt8(create)
    ensures r.Ok? ==> |r.value| == 24
  {
    var vals := [bkey, flags, exptime, maxcount, create, 0, 0, 0];
    var r := Pack(BOP_INS_PKT_FMT, vals);
    assert AllFit(BOP_INS_PKT_FMT, vals) <==> (Fits(BOP_INS_PKT_FMT[0], vals[0]) &&
      Fits(BOP_INS_PKT_FMT[1], vals[1]) && Fits(BOP_INS_PKT_FMT[2], vals[2]) &&
      Fits(BOP_INS_PKT_FMT[3], vals[3]) && Fits(BOP_INS_PKT_FMT[4], vals[4]) &&
      Fits(BOP_INS_PKT_FMT[5], vals[5]) && Fits(BOP_INS_PKT_FMT[6], vals[6]) &&
      Fits(BOP_INS_PKT_FMT[7], vals[7]));
    r
  }

  /** Unpacking the bytes `BopInsertExtras` writes with the same layout gives back the values. */
  lemma BopInsertExtrasUnpack(bkey: int, flags: int, exptime: int, maxcount: int, create: int)
    requires BopInsertExtras(bkey, flags, exptime, maxcount, create).Ok?
    ensures Unpack(BOP_INS_PKT_FMT, BopInsertExtras(bkey, flags, exptime, maxcount, create).value) == Ok([bkey, flags, exptime, maxcount, create, 0, 0, 0])
  {
    var vals := [bkey, flags, exptime, maxcount, create, 0, 0, 0];
    assert BopInsertExtras(bkey, flags, exptime, maxcount, create) == Pack(BOP_INS_PKT_FMT, vals);
    UnpackPack(BOP_INS_PKT_FMT, vals);
  }

  /** `bop_get`: from and to bkeys, offset, count, delete and drop-if-empty flags, two reserved bytes. */
  function BopGetExtras(from: int, to: int, offset: int, count: int, delete: int, dropIfEmpty: int): (r: Result<Bytes, StructError>)
    ensures r.Ok? <==> IsUInt64(from) && IsUInt64(to) && IsUInt32(offset) && IsUInt32(count) && IsUInt8(delete) && IsUInt8(dropIfEmpty)
    ensures r.Ok? ==> |r.value| == 28
  {
    var vals := [from, to, offset, count, delete, dropIfEmpty, 0, 0];
    var r := Pack(BOP_GET_PKT_FMT, vals);
    assert AllFit(BOP_GET_PKT_FMT, vals) <==> (Fits(BOP_GET_PKT_FMT[0], vals[0]) &&
      Fits(BOP_GET_PKT_FMT[1], vals[1]) && Fits(BOP_GET_PKT_FMT[2], vals[2]) &&
      Fits(BOP_GET_PKT_FMT[3], vals[3]) && Fits(BOP_GET_PKT_FMT[4], vals[4]) &&
      Fits(BOP_GET_PKT_FMT[5], vals[5]) && Fits(BOP_GET_PKT_FMT[6], vals[6]) &&
      Fits(BOP_GET_PKT_FMT[7], vals[7]));
    r
  }

  /** Unpacking the bytes `BopGetExtras` writes with the same layout gives back the values. */
  lemma BopGetExtrasUnpack(from: int, to: int, offset: int, count: int, delete: int, dropIfEmpty: int)
    requires BopGetExtras(from, to, offset, count, delete, dropIfEmpty).Ok?
    ensures Unpack(BOP_GET_PKT_FMT, BopGetExtras(from, to, offset, count, delete, dropIfEmpty).value) == Ok([from, to, offset, count, delete, dropIfEmpty, 0, 0])
  {
    var vals := [from, to, offset, count, delete, dropIfEmpty, 0, 0];
    assert BopGetExtras(from, to, offset, count, delete, dropIfEmpty) == Pack(BOP_GET_PKT_FMT, vals);
    UnpackPack(BOP_GET_PKT_FMT, vals);
  }

  // ---------------------------------------------------------------------
  // Call sites whose layout does not match the values packed, as written.

  /** `lop_delete` as written: six values into the two-field `LOP_DEL_PKT_FMT`. */
  function LopDeleteExtrasAsWritten(from: int, to: int, dropIfEmpty: int): Result<Bytes, StructError> {
    Pack(LOP_DEL_PKT_FMT, [from, to, dropIfEmpty, 0, 0, 0])
  }

  /** `bop_delete` as written: seven values into the three-field `BOP_DEL_PKT_FMT`. */
  function BopDeleteExtrasAsWritten(from: int, to: int, count: int, dropIfEmpty: int): Result<Bytes, StructError> {
    Pack(BOP_DEL_PKT_FMT, [from, to, count, dropIfEmpty, 0, 0, 0])
  }

  /** `setattr` as written: seven values into the six-field `SETATTR_PKT_FMT`. */
  function SetAttrExtrasAsWritten(exptimeF: int, exptime: int, maxcountF: int, maxcount: int,
                                  maxbkeyrangeF: int, maxbkeyrange: int, ovflaction: int): Result<Bytes, StructError> {
    Pack(SETATTR_PKT_FMT, [exptime, maxcount, maxbkeyrange, ovflaction, exptimeF, maxcountF, maxbkeyrangeF])
  }

  /** `getattr` as written: the eight fields of `GETATTR_RES_FMT` unpacked into nine names. */
  function GetAttrFieldsAsWritten(body: Bytes): Result<seq<int>, ClientError> {
    match Unpack(GETATTR_RES_FMT, body)
    case Err(e) => Err(PackError(e))
    case Ok(fields) => if |fields| != 9 then Err(UnpackArity(9, |fields|)) else Ok(fields)
  }

  /** No argument list can make the as-written list delete pack: two fields, six values. */
  lemma LopDeleteAsWrittenFails(from: int, to: int, dropIfEmpty: int)
    ensures LopDeleteExtrasAsWritten(from, to, dropIfEmpty) == Err(ArityMismatch(2, 6))
  {
  }

  /** Nor the as-written b-tree delete: three fields, seven values. */
  lemma BopDeleteAsWrittenFails(from: int, to: int, count: int, dropIfEmpty: int)
    ensures BopDeleteExtrasAsWritten(from, to, count, dropIfEmpty) == Err(ArityMismatch(3, 7))
  {
  }

  /** Nor the as-written set-attribute: six fields, seven values. */
  lemma SetAttrAsWrittenFails(exptimeF: int, exptime: int, maxcountF: int, maxcount: int,
                              maxbkeyrangeF: int, maxbkeyrange: int, ovflaction: int)
    ensures SetAttrExtrasAsWritten(exptimeF, exptime, maxcountF, maxcount, maxbkeyrangeF, maxbkeyrange, ovflaction)
      == Err(ArityMismatch(6, 7))
  {
  }

  /** And no response body can make the as-written get-attribute unpack: eight fields into nine names. */
  lemma GetAttrAsWrittenFails(body: Bytes)
    ensures GetAttrFieldsAsWritten(body).Err?
    ensures |body| == CalcSize(GETATTR_RES_FMT) ==> GetAttrFieldsAsWritten(body) == Err(UnpackArity(9, 8))
  {
  }

  /**
   `sop_delete` as written: `CMD_SOP_DELETE` exists, but the layout it packs
   with, `SOP_DEL_PKT_FMT`, is never bound, so the call raises before packing.
   */
  function SopDeleteExtrasAsWritten(dropIfEmpty: int): (r: Result<Bytes, ClientError>)
    ensures r == Err(UndefinedConstant("SOP_DEL_PKT_FMT"))
  {
    Err(UndefinedConstant("SOP_DEL_PKT_FMT"))
  }

  /**
   The create and count call sites name an opcode the constants module never
   binds (and a layout it never binds either); the opcode is evaluated first,
   so its name is the one reported.  Without an opcode byte there is nothing
   to correct them to.
   */
  datatype UnboundCall = LopCreateCall | SopCreateCall | BopCreateCall | BopCountCall

  function UnboundCallError(c: UnboundCall): ClientError {
    match c
    case LopCreateCall => UndefinedConstant("CMD_LOP_CREATE")
    case SopCreateCall => UndefinedConstant("CMD_SOP_CREATE")
    case BopCreateCall => UndefinedConstant("CMD_BOP_CREATE")
    case BopCountCall => UndefinedConstant("CMD_BOP_COUNT")
  }

  /** None of the opcodes those calls need exists: no opcode byte carries a create or count command. */
  lemma UnboundCallsHaveNoOpcode(op: Opcode)
    ensures OpcodeName(op) != "CMD_LOP_CREATE" && OpcodeName(op) != "CMD_SOP_CREATE"
    ensures OpcodeName(op) != "CMD_BOP_CREATE" && OpcodeName(op) != "CMD_BOP_COUNT"
  {
    match op {
      case Get => case Set => case Add => case Replace => case Delete => case Incr => case Decr =>
      case Quit => case Flush => case GetQ => case Noop => case Version => case Stat =>
      case Append => case Prepend => case SaslListMechs => case SaslAuth => case SaslStep =>
      case TapConnect => case TapMutation => case TapDelete => case TapFlush => case TapOpaque =>
      case TapVBucketSet => case GetAttr => case SetAttr => case LopInsert => case LopDelete =>
      case LopGet => case SopInsert => case SopDelete => case SopExist => case SopGet =>
      case BopInsert => case BopDelete => case BopGet => case SetVBucketState =>
      case GetVBucketState => case DeleteVBucket =>
    }
  }

  // ---------------------------------------------------------------------
  // Corrected layouts: one field per value the call site packs.

  /** drop-if-empty and three reserved bytes. */
  const SOP_DEL_PKT_FMT_FIXED: Format := [UInt8, UInt8, UInt8, UInt8]
  const LOP_DEL_PKT_FMT_FIXED: Format := [Int32, Int32, UInt8, UInt8, UInt8, UInt8]
  const BOP_DEL_PKT_FMT_FIXED: Format := [UInt64, UInt64, UInt32, UInt8, UInt8, UInt8, UInt8]
  /** exptime, maxcount, maxbkeyrange, ovflaction and the three presence flags. */
  const SETATTR_PKT_FMT_FIXED: Format := [Int32, Int32, UInt32, UInt8, UInt8, UInt8, UInt8]
  /** flags, exptime, count, maxcount, maxbkeyrange, type, ovflaction and two reserved bytes. */
  const GETATTR_RES_FMT_FIXED: Format := [UInt32, UInt32, Int32, Int32, UInt32, UInt8, UInt8, UInt8, UInt8]

  /** `lop_delete` with the corrected layout: the extras round-trip to the call site's six values. */
  function LopDeleteExtras(from: int, to: int, dropIfEmpty: int): (r: Result<Bytes, StructError>)
    ensures r.Ok? <==> IsInt32(from) && IsInt32(to) && IsUInt8(dropIfEmpty)
    ensures r.Ok? ==> |r.value| == 12
  {
    var vals := [from, to, dropIfEmpty, 0, 0, 0];
    var r := Pack(LOP_DEL_PKT_FMT_FIXED, vals);
    assert AllFit(LOP_DEL_PKT_FMT_FIXED, vals) <==> (Fits(LOP_DEL_PKT_FMT_FIXED[0], vals[0]) &&
      Fits(LOP_DEL_PKT_FMT_FIXED[1], vals[1]) && Fits(LOP_DEL_PKT_FMT_FIXED[2], vals[2]) &&
      Fits(LOP_DEL_PKT_FMT_FIXED[3], vals[3]) && Fits(LOP_DEL_PKT_FMT_FIXED[4], vals[4]) &&
      Fits(LOP_DEL_PKT_FMT_FIXED[5], vals[5]));
    r
  }

  /** Unpacking the bytes `LopDeleteExtras` writes with the same layout gives back the values. */
  lemma LopDeleteExtrasUnpack(from: int, to: int, dropIfEmpty: int)
    requires LopDeleteExtras(from, to, dropIfEmpty).Ok?
    ensures Unpack(LOP_DEL_PKT_FMT_FIXED, LopDeleteExtras(from, to, dropIfEmpty).value) == Ok([from, to, dropIfEmpty, 0, 0, 0])
  {
    var vals := [from, to, dropIfEmpty, 0, 0, 0];
    assert LopDeleteExtras(from, to, dropIfEmpty) == Pack(LOP_DEL_PKT_FMT_FIXED, vals);
    UnpackPack(LOP_DEL_PKT_FMT_FIXED, vals);
  }

  /** `sop_delete` with a bound layout: the extras round-trip to the call site's four values. */
  function SopDeleteExtras(dropIfEmpty: int): (r: Result<Bytes, StructError>)
    ensures r.Ok? <==> IsUInt8(dropIfEmpty)
    ensures r.Ok? ==> |r.value| == 4
  {
    var vals := [dropIfEmpty, 0, 0, 0];
    var r := Pack(SOP_DEL_PKT_FMT_FIXED, vals);
    assert AllFit(SOP_DEL_PKT_FMT_FIXED, vals) <==> (Fits(SOP_DEL_PKT_FMT_FIXED[0], vals[0]) &&
      Fits(SOP_DEL_PKT_FMT_FIXED[1], vals[1]) && Fits(SOP_DEL_PKT_FMT_FIXED[2], vals[2]) &&
      Fits(SOP_DEL_PKT_FMT_FIXED[3], vals[3]));
    r
  }

  /** Unpacking the bytes `SopDeleteExtras` writes with the same layout gives back the values. */
  lemma SopDeleteExtrasUnpack(dropIfEmpty: int)
    requires SopDeleteExtras(dropIfEmpty).Ok?
    ensures Unpack(SOP_DEL_PKT_FMT_FIXED, SopDeleteExtras(dropIfEmpty).value) == Ok([dropIfEmpty, 0, 0, 0])
  {
    var vals := [dropIfEmpty, 0, 0, 0];
    assert SopDeleteExtras(dropIfEmpty) == Pack(SOP_DEL_PKT_FMT_FIXED, vals);
    UnpackPack(SOP_DEL_PKT_FMT_FIXED, vals);
  }

  /** `bop_delete` with the corrected layout: the extras round-trip to the call site's seven values. */
  function BopDeleteExtras(from: int, to: int, count: int, dropIfEmpty: int): (r: Result<Bytes, StructError>)
    ensures r.Ok? <==> IsUInt64(from) && IsUInt64(to) && IsUInt32(count) && IsUInt8(dropIfEmpty)
    ensures r.Ok? ==> |r.value| == 24
  {
    var vals := [from, to, count, dropIfEmpty, 0, 0, 0];
    var r := Pack(BOP_DEL_PKT_FMT_FIXED, vals);
    assert AllFit(BOP_DEL_PKT_FMT_FIXED, vals) <==> (Fits(BOP_DEL_PKT_FMT_FIXED[0], vals[0]) &&
      Fits(BOP_DEL_PKT_FMT_FIXED[1], vals[1]) && Fits(BOP_DEL_PKT_FMT_FIXED[2], vals[2]) &&
      Fits(BOP_DEL_PKT_FMT_FIXED[3], vals[3]) && Fits(BOP_DEL_PKT_FMT_FIXED[4], vals[4]) &&
      Fits(BOP_DEL_PKT_FMT_FIXED[5], vals[5]) && Fits(BOP_DEL_PKT_FMT_FIXED[6], vals[6]));
    r
  }

  /** Unpacking the bytes `BopDeleteExtras` writes with the same layout gives back the values. */
  lemma BopDeleteExtrasUnpack(from: int, to: int, count: int, dropIfEmpty: int)
    requires BopDeleteExtras(from, to, count, dropIfEmpty).Ok?
    ensures Unpack(BOP_DEL_PKT_FMT_FIXED, BopDeleteExtras(from, to, count, dropIfEmpty).value) == Ok([from, to, count, dropIfEmpty, 0, 0, 0])
  {
    var vals := [from, to, count, dropIfEmpty, 0, 0, 0];
    assert BopDeleteExtras(from, to, count, dropIfEmpty) == Pack(BOP_DEL_PKT_FMT_FIXED, vals);
    UnpackPack(BOP_DEL_PKT_FMT_FIXED, vals);
  }

  /** `setattr` with the corrected layout: the extras round-trip to the call site's seven values. */
  function SetAttrExtras(exptimeF: int, exptime: int, maxcountF: int, maxcount: int,
                         maxbkeyrangeF: int, maxbkeyrange: int, ovflaction: int): (r: Result<Bytes, StructError>)
    ensures r.Ok? <==> (IsInt32(exptime) && IsInt32(maxcount) && IsUInt32(maxbkeyrange) && IsUInt8(ovflaction)
      && IsUInt8(exptimeF) && IsUInt8(maxcountF) && IsUInt8(maxbkeyrangeF))
    ensures r.Ok? ==> |r.value| == 16
  {
    var vals := [exptime, maxcount, maxbkeyrange, ovflaction, exptimeF, maxcountF, maxbkeyrangeF];
    var r := Pack(SETATTR_PKT_FMT_FIXED, vals);
    assert AllFit(SETATTR_PKT_FMT_FIXED, vals) <==> (Fits(SETATTR_PKT_FMT_FIXED[0], vals[0]) &&
      Fits(SETATTR_PKT_FMT_FIXED[1], vals[1]) && Fits(SETATTR_PKT_FMT_FIXED[2], vals[2]) &&
      Fits(SETATTR_PKT_FMT_FIXED[3], vals[3]) && Fits(SETATTR_PKT_FMT_FIXED[4], vals[4]) &&
      Fits(SETATTR_PKT_FMT_FIXED[5], vals[5]) && Fits(SETATTR_PKT_FMT_FIXED[6], vals[6]));
    r
  }

  /** Unpacking the bytes `SetAttrExtras` writes with the same layout gives back the values. */
  lemma SetAttrExtrasUnpack(exptimeF: int, exptime: int, maxcountF: int, maxcount: int,
                            maxbkeyrangeF: int, maxbkeyrange: int, ovflaction: int)
    requires SetAttrExtras(exptimeF, exptime, maxcountF, maxcount, maxbkeyrangeF, maxbkeyrange, ovflaction).Ok?
    ensures Unpack(SETATTR_PKT_FMT_FIXED,
                   SetAttrExtras(exptimeF, exptime, maxcountF, maxcount, maxbkeyrangeF, maxbkeyrange, ovflaction).value)
      == Ok([exptime, maxcount, maxbkeyrange, ovflaction, exptimeF, maxcountF, maxbkeyrangeF])
  {
    var vals := [exptime, maxcount, maxbkeyrange, ovflaction, exptimeF, maxcountF, maxbkeyrangeF];
    assert SetAttrExtras(exptimeF, exptime, maxcountF, maxcount, maxbkeyrangeF, maxbkeyrange, ovflaction) == Pack(SETATTR_PKT_FMT_FIXED, vals);
    UnpackPack(SETATTR_PKT_FMT_FIXED, vals);
  }

  /** What a getattr response carries. */
  datatype AttrView = AttrView(
    flags: int, exptime: int, count: int, maxcount: int, maxbkeyrange: int,
    itemType: int, ovflaction: int)

  function AttrViewFields(v: AttrView): seq<int> {
    [v.flags, v.exptime, v.count, v.maxcount, v.maxbkeyrange, v.itemType, v.ovflaction, 0, 0]
  }

  /** `getattr` with the corrected layout: a 24-byte body decodes into all nine names. */
  function GetAttrFields(body: Bytes): (r: Result<AttrView, ClientError>)
    ensures r.Ok? <==> |body| == 24
  {
    match Unpack(GETATTR_RES_FMT_FIXED, body)
    case Err(e) => Err(PackError(e))
    case Ok(f) => Ok(AttrView(f[0], f[1], f[2], f[3], f[4], f[5], f[6]))
  }

  /** The attributes a server packs with the corrected layout come back unchanged. */
  lemma GetAttrFieldsRoundTrip(v: AttrView)
    requires Pack(GETATTR_RES_FMT_FIXED, AttrViewFields(v)).Ok?
    ensures GetAttrFields(Pack(GETATTR_RES_FMT_FIXED, AttrViewFields(v)).value) == Ok(v)
  {
    var g := AttrViewFields(v);
    UnpackPack(GETATTR_RES_FMT_FIXED, g);
    assert g[0] == v.flags && g[1] == v.exptime && g[2] == v.count && g[3] == v.maxcount;
    assert g[4] == v.maxbkeyrange && g[5] == v.itemType && g[6] == v.ovflaction;
  }

  /**
   `getattr`'s selector as written: after the four ids it tests first, it reads
   the unbound `ATTR_MAXBKEYRANGE`, so asking for the type or the overflow
   action raises even when the body decodes.
   */
  function SelectAttrAsWritten(v: AttrView, attrid: int): Result<int, ClientError> {
    if attrid == AttrIdCode(AttrFlags) then Ok(v.flags)
    else if attrid == AttrIdCode(AttrExpireTime) then Ok(v.exptime)
    else if attrid == AttrIdCode(AttrCount) then Ok(v.count)
    else if attrid == AttrIdCode(AttrMaxCount) then Ok(v.maxcount)
    else Err(UndefinedConstant("ATTR_MAXBKEYRANGE"))
  }

  lemma SelectAttrAsWrittenRaises(v: AttrView)
    ensures SelectAttrAsWritten(v, AttrIdCode(AttrType)).Err?
    ensures SelectAttrAsWritten(v, AttrIdCode(AttrOvflAction)).Err?
  {
  }

  /**
   The attribute a getattr caller asks for: one of the numbered ids, or the
   max-bkey-range attribute, which the constants module never numbers.
   */
  datatype AttrSelector = ById(code: int) | MaxBkeyRange

  /**
   The corrected selector answers every attribute with the matching field of
   the view and any other number with -1.
   */
  function SelectAttr(v: AttrView, s: AttrSelector): (r: int)
    ensures s == MaxBkeyRange ==> r == v.maxbkeyrange
    ensures s == ById(AttrIdCode(AttrFlags)) ==> r == v.flags
    ensures s == ById(AttrIdCode(AttrExpireTime)) ==> r == v.exptime
    ensures s == ById(AttrIdCode(AttrCount)) ==> r == v.count
    ensures s == ById(AttrIdCode(AttrMaxCount)) ==> r == v.maxcount
    ensures s == ById(AttrIdCode(AttrType)) ==> r == v.itemType
    ensures s == ById(AttrIdCode(AttrOvflAction)) ==> r == v.ovflaction
    ensures s.ById? && !(0 <= s.code <= 5) ==> r == -1
  {
    match s
    case MaxBkeyRange => v.maxbkeyrange
    case ById(c) =>
      if c == AttrIdCode(AttrFlags) then v.flags
      else if c == AttrIdCode(AttrExpireTime) then v.exptime
      else if c == AttrIdCode(AttrCount) then v.count
      else if c == AttrIdCode(AttrMaxCount) then v.maxcount
      else if c == AttrIdCode(AttrType) then v.itemType
      else if c == AttrIdCode(AttrOvflAction) then v.ovflaction
      else -1
  }

  /** The as-written and corrected selectors agree wherever the as-written one answers. */
  lemma SelectAttrAgrees(v: AttrView, attrid: int)
    ensures SelectAttrAsWritten(v, attrid).Ok? ==> SelectAttrAsWritten(v, attrid).value == SelectAttr(v, ById(attrid))
    ensures SelectAttrAsWritten(v, attrid).Ok? <==> 1 <= attrid <= 4
  {
  }
}
