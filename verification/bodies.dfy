/**
 Parsing of response bodies: the plain get reply, the list, set and b-tree
 get replies, and the small fixed replies of incr/decr and set-exist.  Each
 parser reads fields with Python slicing, so a short slice makes the field
 unpack fail, while a value slice that runs past the end is silently cut
 short.  Each parser is paired with the body a server would send and a
 round-trip lemma.
 */
module Bodies {
  import opened Results
  import opened Struct
  import opened Constants
  import opened Codec

  /**
   A 4-byte unsigned big-endian field at `offset`, as
   `unpack('>I', data[offset:offset+4])[0]` reads it (see `U32AtUnpacks`):
   a slice cut short by the end of the data fails with the unpack error.
   */
  function U32At(data: Bytes, offset: nat): (r: Result<nat, ClientError>)
    ensures r.Ok? <==> offset + 4 <= |data|
  {
    if offset + 4 <= |data| then Ok(DecodeBE(data[offset..offset + 4]))
    else Err(PackError(SizeMismatch(4, |PySlice(data, offset, offset + 4)|)))
  }

  /** An 8-byte unsigned big-endian field at `offset`, as `BKEY_RES_FMT` reads it (see `U64AtUnpacks`). */
  function U64At(data: Bytes, offset: nat): (r: Result<nat, ClientError>)
    ensures r.Ok? <==> offset + 8 <= |data|
  {
    if offset + 8 <= |data| then Ok(DecodeBE(data[offset..offset + 8]))
    else Err(PackError(SizeMismatch(8, |PySlice(data, offset, offset + 8)|)))
  }

  /** `U32At` is the first field `VLENG_RES_FMT` unpacks from the 4-byte slice, or the unpack error. */
  lemma U32AtUnpacks(data: Bytes, offset: nat)
    ensures Unpack(VLENG_RES_FMT, PySlice(data, offset, offset + 4)).Err? ==>
      U32At(data, offset) == Err(PackError(Unpack(VLENG_RES_FMT, PySlice(data, offset, offset + 4)).error))
    ensures Unpack(VLENG_RES_FMT, PySlice(data, offset, offset + 4)).Ok? ==>
      U32At(data, offset) == Ok(Unpack(VLENG_RES_FMT, PySlice(data, offset, offset + 4)).value[0])
  {
    if offset + 4 <= |data| {
      var b := data[offset..offset + 4];
      assert UnpackFields(VLENG_RES_FMT, b) == [DecodeField(UInt32, b[..4])] + UnpackFields([], b[4..]);
      assert b[..4] == b;
    }
  }

  /** `U64At` is the first field `BKEY_RES_FMT` unpacks from the 8-byte slice, or the unpack error. */
  lemma U64AtUnpacks(data: Bytes, offset: nat)
    ensures Unpack(BKEY_RES_FMT, PySlice(data, offset, offset + 8)).Err? ==>
      U64At(data, offset) == Err(PackError(Unpack(BKEY_RES_FMT, PySlice(data, offset, offset + 8)).error))
    ensures Unpack(BKEY_RES_FMT, PySlice(data, offset, offset + 8)).Ok? ==>
      U64At(data, offset) == Ok(Unpack(BKEY_RES_FMT, PySlice(data, offset, offset + 8)).value[0])
  {
    if offset + 8 <= |data| {
      var b := data[offset..offset + 8];
      assert UnpackFields(BKEY_RES_FMT, b) == [DecodeField(UInt64, b[..8])] + UnpackFields([], b[8..]);
      assert b[..8] == b;
    }
  }

  function BE4(v: nat): (r: Bytes)
    requires v < 0x1_0000_0000
    ensures |r| == 4
  {
    assert Pow256(4) == 0x1_0000_0000;
    EncodeBE(v, 4)
  }

  function BE8(v: nat): (r: Bytes)
    requires v < 0x1_0000_0000_0000_0000
    ensures |r| == 8
  {
    assert Pow256(8) == 0x1_0000_0000_0000_0000;
    EncodeBE(v, 8)
  }

  lemma U32AtBE4(prefix: Bytes, v: nat, suffix: Bytes)
    requires v < 0x1_0000_0000
    ensures U32At(prefix + BE4(v) + suffix, |prefix|) == Ok(v)
  {
    var data := prefix + BE4(v) + suffix;
    assert data[|prefix|..|prefix| + 4] == BE4(v);
    assert Pow256(4) == 0x1_0000_0000;
    DecodeEncodeBE(v, 4);
  }

  lemma U64AtBE8(prefix: Bytes, v: nat, suffix: Bytes)
    requires v < 0x1_0000_0000_0000_0000
    ensures U64At(prefix + BE8(v) + suffix, |prefix|) == Ok(v)
  {
    var data := prefix + BE8(v) + suffix;
    assert data[|prefix|..|prefix| + 8] == BE8(v);
    assert Pow256(8) == 0x1_0000_0000_0000_0000;
    DecodeEncodeBE(v, 8);
  }

  // ---------------------------------------------------------------------
  // Plain get.

  /** What `get` returns: the flags, the CAS value and the item's bytes. */
  datatype GetReply = GetReply(flags: nat, cas: int, value: Bytes)

  /**
   `__parseGet`: the first four bytes of the body are the flags, the rest is
   the value; a body shorter than four bytes makes the flags unpack fail.
   */
  function ParseGet(cas: int, body: Bytes): (r: Result<GetReply, ClientError>)
    ensures r.Ok? <==> |body| >= 4
    ensures r.Ok? ==> (r.value.cas == cas && r.value.flags < 0x1_0000_0000
      && body == BE4(r.value.flags) + r.value.value)
  {
    match Unpack(GET_RES_FMT, PySlice(body, 0, 4))
    case Err(e) => Err(PackError(e))
    case Ok(f) =>
      var flags := U32At(body, 0).value;
      assert f[0] == flags by {
        var b := body[..4];
        assert UnpackFields(GET_RES_FMT, b) == [DecodeField(UInt32, b[..4])] + UnpackFields([], b[4..]);
        assert b[..4] == b && body[0..4] == b;
      }
      assert BE4(flags) == body[..4] by {
        assert Pow256(4) == 0x1_0000_0000;
        EncodeDecodeBE(body[..4]);
      }
      Ok(GetReply(flags, cas, body[4..]))
  }

  /** The body a server sends for a hit: the flags, then the value. */
  function GetBody(flags: nat, value: Bytes): Bytes
    requires flags < 0x1_0000_0000
  {
    BE4(flags) + value
  }

  lemma ParseGetBody(flags: nat, cas: int, value: Bytes)
    requires flags < 0x1_0000_0000
    ensures ParseGet(cas, GetBody(flags, value)) == Ok(GetReply(flags, cas, value))
  {
    U32AtBE4([], flags, value);
    assert [] + BE4(flags) + value == GetBody(flags, value);
  }

  // ---------------------------------------------------------------------
  // Collection get replies.

  /**
   The loop reading `count` 4-byte value lengths starting at `offset`.  The
   first length whose slice is short makes the whole reply fail.
   */
  function ParseLengths(data: Bytes, offset: nat, count: nat): (r: Result<seq<nat>, ClientError>)
    ensures r.Ok? <==> count == 0 || offset + 4 * count <= |data|
    ensures r.Ok? ==> |r.value| == count
    decreases count
  {
    if count == 0 then Ok([])
    else
      match U32At(data, offset)
      case Err(e) => Err(e)
      case Ok(len) =>
        match ParseLengths(data, offset + 4, count - 1)
        case Err(e) => Err(e)
        case Ok(rest) => Ok([len] + rest)
  }

  /** The loop reading `count` 8-byte bkeys starting at `offset`. */
  function ParseBkeys(data: Bytes, offset: nat, count: nat): (r: Result<seq<nat>, ClientError>)
    ensures r.Ok? <==> count == 0 || offset + 8 * count <= |data|
    ensures r.Ok? ==> |r.value| == count
    decreases count
  {
    if count == 0 then Ok([])
    else
      match U64At(data, offset)
      case Err(e) => Err(e)
      case Ok(k) =>
        match ParseBkeys(data, offset + 8, count - 1)
        case Err(e) => Err(e)
        case Ok(rest) => Ok([k] + rest)
  }

  /**
   The loop slicing out the values: never fails; a value whose slice runs past
   the end of the data comes out shorter than its length field says.
   */
  function ParseValues(data: Bytes, offset: nat, lens: seq<nat>): (r: seq<Bytes>)
    ensures |r| == |lens|
    ensures offset + Sum(lens) <= |data| ==> forall i :: 0 <= i < |r| ==> |r[i]| == lens[i]
    decreases |lens|
  {
    if |lens| == 0 then []
    else [PySlice(data, offset, offset + lens[0])] + ParseValues(data, offset + lens[0], lens[1..])
  }

  /** The flags and count fields that open every collection get reply. */
  function ParseFlagsCount(data: Bytes): (r: Result<(nat, nat), ClientError>)
    ensures r.Ok? <==> |data| >= 8
  {
    var flags :- U32At(data, 0);
    var count :- U32At(data, 4);
    Ok((flags, count))
  }

  /** What `lop_get` returns. */
  datatype ListReply = ListReply(flags: nat, count: nat, values: seq<Bytes>)

  /**
   `__parseLOPGet`: flags, count, `count` lengths, then the values.  The reply
   is accepted exactly when the fixed part and every length field are
   present; the values then number `count`.
   */
  function ParseLopGet(data: Bytes): (r: Result<ListReply, ClientError>)
    ensures r.Ok? <==> |data| >= 8 && 8 + 4 * DecodeBE(data[4..8]) <= |data|
    ensures r.Ok? ==> |r.value.values| == r.value.count && r.value.count == DecodeBE(data[4..8])
  {
    var (flags, count) :- ParseFlagsCount(data);
    var lens :- ParseLengths(data, 8, count);
    Ok(ListReply(flags, count, ParseValues(data, 8 + 4 * count, lens)))
  }

  /** What `sop_get` returns: the values as a set, so duplicates collapse. */
  datatype SetReply = SetReply(flags: nat, count: nat, values: set<Bytes>)

  /** `__parseSOPGet`: the list parse with the values collected into a set. */
  function ParseSopGet(data: Bytes): (r: Result<SetReply, ClientError>)
    ensures r.Ok? <==> ParseLopGet(data).Ok?
    ensures r.Ok? ==> (r.value.count == ParseLopGet(data).value.count
      && r.value.flags == ParseLopGet(data).value.flags
      && forall v :: v in r.value.values <==> v in ParseLopGet(data).value.values)
  {
    var l :- ParseLopGet(data);
    Ok(SetReply(l.flags, l.count, set v | v in l.values))
  }

  /** What `bop_get` returns: each value with its bkey, in the order received. */
  datatype BTreeReply = BTreeReply(flags: nat, count: nat, bkeys: seq<nat>, values: seq<Bytes>)

  /** `__parseBOPGet`: flags, count, `count` bkeys, `count` lengths, then the values. */
  function ParseBopGet(data: Bytes): (r: Result<BTreeReply, ClientError>)
    ensures r.Ok? ==> |r.value.bkeys| == |r.value.values| == r.value.count
  {
    var fc := ParseFlagsCount(data);
    if fc.Err? then Err(fc.error)
    else
      var bkeys := ParseBkeys(data, 8, fc.value.1);
      if bkeys.Err? then Err(bkeys.error)
      else
        var lens := ParseLengths(data, 8 + 8 * fc.value.1, fc.value.1);
        if lens.Err? then Err(lens.error)
        else Ok(BTreeReply(fc.value.0, fc.value.1, bkeys.value, ParseValues(data, 8 + 12 * fc.value.1, lens.value)))
  }

  /**
   The b-tree reply is accepted exactly when the fixed part, every bkey and
   every length field are present; the count is the second 4-byte field.
   */
  lemma ParseBopGetAccepts(data: Bytes)
    ensures ParseBopGet(data).Ok? <==> |data| >= 8 && 8 + 12 * DecodeBE(data[4..8]) <= |data|
    ensures ParseBopGet(data).Ok? ==> ParseBopGet(data).value.count == DecodeBE(data[4..8])
  {
    if |data| >= 8 {
      var n := DecodeBE(data[4..8]);
      assert ParseFlagsCount(data) == Ok((DecodeBE(data[0..4]), n));
    }
  }

  // ---------------------------------------------------------------------
  // What a server sends for a collection get.

  function Lengths(vals: seq<Bytes>): seq<nat> {
    if |vals| == 0 then [] else [|vals[0]|] + Lengths(vals[1..])
  }

  predicate ValuesFit(vals: seq<Bytes>) {
    |vals| < 0x1_0000_0000 && forall i :: 0 <= i < |vals| ==> |vals[i]| < 0x1_0000_0000
  }

  function LengthFields(vals: seq<Bytes>): (r: Bytes)
    requires ValuesFit(vals)
    ensures |r| == 4 * |vals|
  {
    if |vals| == 0 then [] else BE4(|vals[0]|) + LengthFields(vals[1..])
  }

  function BkeyFields(bkeys: seq<nat>): (r: Bytes)
    requires forall i :: 0 <= i < |bkeys| ==> bkeys[i] < 0x1_0000_0000_0000_0000
    ensures |r| == 8 * |bkeys|
  {
    if |bkeys| == 0 then [] else BE8(bkeys[0]) + BkeyFields(bkeys[1..])
  }

  function Concat(vals: seq<Bytes>): Bytes {
    if |vals| == 0 then [] else vals[0] + Concat(vals[1..])
  }

  /** A list or set get reply: flags, count, the lengths, then the values back to back. */
  function CollectionBody(flags: nat, vals: seq<Bytes>): Bytes
    requires flags < 0x1_0000_0000 && ValuesFit(vals)
  {
    BE4(flags) + BE4(|vals|) + LengthFields(vals) + Concat(vals)
  }

  predicate BTreeFits(flags: nat, bkeys: seq<nat>, vals: seq<Bytes>) {
    && flags < 0x1_0000_0000 && ValuesFit(vals) && |bkeys| == |vals|
    && forall i :: 0 <= i < |bkeys| ==> bkeys[i] < 0x1_0000_0000_0000_0000
  }

  /** A b-tree get reply: flags, count, the bkeys, the lengths, then the values. */
  function BTreeBody(flags: nat, bkeys: seq<nat>, vals: seq<Bytes>): Bytes
    requires BTreeFits(flags, bkeys, vals)
  {
    BE4(flags) + BE4(|vals|) + BkeyFields(bkeys) + LengthFields(vals) + Concat(vals)
  }

  lemma {:induction false} ParseLengthsFields(prefix: Bytes, vals: seq<Bytes>, suffix: Bytes)
    requires ValuesFit(vals)
    ensures ParseLengths(prefix + LengthFields(vals) + suffix, |prefix|, |vals|) == Ok(Lengths(vals))
    decreases |vals|
  {
    if |vals| > 0 {
      var rest := vals[1..];
      assert ValuesFit(rest) by {
        assert forall i :: 0 <= i < |rest| ==> rest[i] == vals[i + 1];
      }
      var data := prefix + LengthFields(vals) + suffix;
      assert data == prefix + BE4(|vals[0]|) + (LengthFields(rest) + suffix);
      U32AtBE4(prefix, |vals[0]|, LengthFields(rest) + suffix);
      assert data == (prefix + BE4(|vals[0]|)) + LengthFields(rest) + suffix;
      ParseLengthsFields(prefix + BE4(|vals[0]|), rest, suffix);
    }
  }

  lemma {:induction false} ParseBkeysFields(prefix: Bytes, bkeys: seq<nat>, suffix: Bytes)
    requires forall i :: 0 <= i < |bkeys| ==> bkeys[i] < 0x1_0000_0000_0000_0000
    ensures ParseBkeys(prefix + BkeyFields(bkeys) + suffix, |prefix|, |bkeys|) == Ok(bkeys)
    decreases |bkeys|
  {
    if |bkeys| > 0 {
      var rest := bkeys[1..];
      var data := prefix + BkeyFields(bkeys) + suffix;
      assert data == prefix + BE8(bkeys[0]) + (BkeyFields(rest) + suffix);
      U64AtBE8(prefix, bkeys[0], BkeyFields(rest) + suffix);
      assert data == (prefix + BE8(bkeys[0])) + BkeyFields(rest) + suffix;
      ParseBkeysFields(prefix + BE8(bkeys[0]), rest, suffix);
      assert [bkeys[0]] + rest == bkeys;
    }
  }

  lemma {:induction false} ParseValuesConcat(prefix: Bytes, vals: seq<Bytes>)
    ensures ParseValues(prefix + Concat(vals), |prefix|, Lengths(vals)) == vals
    decreases |vals|
  {
    if |vals| > 0 {
      var data := prefix + Concat(vals);
      var v := vals[0];
      assert Lengths(vals)[0] == |v| && Lengths(vals)[1..] == Lengths(vals[1..]);
      assert data == (prefix + v) + Concat(vals[1..]);
      assert data[|prefix|..|prefix| + |v|] == v;
      ParseValuesConcat(prefix + v, vals[1..]);
      assert [v] + vals[1..] == vals;
    }
  }


  lemma ParseFlagsCountBody(flags: nat, count: nat, rest: Bytes)
    requires flags < 0x1_0000_0000 && count < 0x1_0000_0000
    ensures ParseFlagsCount(BE4(flags) + BE4(count) + rest) == Ok((flags, count))
  {
    var data := BE4(flags) + BE4(count) + rest;
    U32AtBE4([], flags, BE4(count) + rest);
    assert [] + BE4(flags) + (BE4(count) + rest) == data;
    U32AtBE4(BE4(flags), count, rest);
  }

  /** The list parser reads back exactly the values a server put in a reply. */
  lemma ParseLopGetBody(flags: nat, vals: seq<Bytes>)
    requires flags < 0x1_0000_0000 && ValuesFit(vals)
    ensures ParseLopGet(CollectionBody(flags, vals)) == Ok(ListReply(flags, |vals|, vals))
  {
    var head := BE4(flags) + BE4(|vals|);
    var data := CollectionBody(flags, vals);
    ParseFlagsCountBody(flags, |vals|, LengthFields(vals) + Concat(vals));
    assert data == BE4(flags) + BE4(|vals|) + (LengthFields(vals) + Concat(vals));
    assert data == head + LengthFields(vals) + Concat(vals);
    ParseLengthsFields(head, vals, Concat(vals));
    assert data == (head + LengthFields(vals)) + Concat(vals);
    ParseValuesConcat(head + LengthFields(vals), vals);
  }

  /** The set parser reads back exactly the set of values a server put in a reply. */
  lemma ParseSopGetBody(flags: nat, vals: seq<Bytes>)
    requires flags < 0x1_0000_0000 && ValuesFit(vals)
    ensures ParseSopGet(CollectionBody(flags, vals)).Ok?
    ensures ParseSopGet(CollectionBody(flags, vals)).value.values == set v | v in vals
    ensures ParseSopGet(CollectionBody(flags, vals)).value.count == |vals|
  {
    ParseLopGetBody(flags, vals);
  }

  lemma AppendAssoc<T>(a: seq<T>, b: seq<T>, c: seq<T>)
    ensures a + b + c == a + (b + c)
  {
  }

  /** `ParseBopGet` assembled from its four stages. */
  lemma ParseBopGetStages(data: Bytes, flags: nat, n: nat, bkeys: seq<nat>, lens: seq<nat>, vals: seq<Bytes>)
    requires ParseFlagsCount(data) == Ok((flags, n))
    requires ParseBkeys(data, 8, n) == Ok(bkeys)
    requires ParseLengths(data, 8 + 8 * n, n) == Ok(lens)
    requires ParseValues(data, 8 + 12 * n, lens) == vals
    ensures ParseBopGet(data) == Ok(BTreeReply(flags, n, bkeys, vals))
  {
  }

  lemma BopBodyFlagsCount(flags: nat, bkeys: seq<nat>, vals: seq<Bytes>)
    requires BTreeFits(flags, bkeys, vals)
    ensures ParseFlagsCount(BTreeBody(flags, bkeys, vals)) == Ok((flags, |vals|))
  {
    var head := BE4(flags) + BE4(|vals|);
    var lv := LengthFields(vals) + Concat(vals);
    AppendAssoc(head + BkeyFields(bkeys), LengthFields(vals), Concat(vals));
    AppendAssoc(head, BkeyFields(bkeys), lv);
    ParseFlagsCountBody(flags, |vals|, BkeyFields(bkeys) + lv);
  }

  lemma BopBodyBkeys(flags: nat, bkeys: seq<nat>, vals: seq<Bytes>)
    requires BTreeFits(flags, bkeys, vals)
    ensures ParseBkeys(BTreeBody(flags, bkeys, vals), 8, |vals|) == Ok(bkeys)
  {
    var pre := BE4(flags) + BE4(|vals|);
    AppendAssoc(pre + BkeyFields(bkeys), LengthFields(vals), Concat(vals));
    ParseBkeysFields(pre, bkeys, LengthFields(vals) + Concat(vals));
  }

  /** A b-tree body split after its bkeys: the lengths start at byte 8 + 8 * count. */
  lemma BopBodySplit(flags: nat, bkeys: seq<nat>, vals: seq<Bytes>) returns (pre: Bytes)
    requires BTreeFits(flags, bkeys, vals)
    ensures |pre| == 8 + 8 * |vals| && ValuesFit(vals)
    ensures BTreeBody(flags, bkeys, vals) == pre + LengthFields(vals) + Concat(vals)
  {
    pre := BE4(flags) + BE4(|vals|) + BkeyFields(bkeys);
  }

  /** And split after its lengths: the values start at byte 8 + 12 * count. */
  lemma BopBodyValuesAt(flags: nat, bkeys: seq<nat>, vals: seq<Bytes>) returns (pre: Bytes)
    requires BTreeFits(flags, bkeys, vals)
    ensures |pre| == 8 + 12 * |vals|
    ensures BTreeBody(flags, bkeys, vals) == pre + Concat(vals)
  {
    pre := BE4(flags) + BE4(|vals|) + BkeyFields(bkeys) + LengthFields(vals);
  }

  lemma BopBodyLengths(flags: nat, bkeys: seq<nat>, vals: seq<Bytes>)
    requires BTreeFits(flags, bkeys, vals)
    ensures ParseLengths(BTreeBody(flags, bkeys, vals), 8 + 8 * |vals|, |vals|) == Ok(Lengths(vals))
  {
    var pre := BopBodySplit(flags, bkeys, vals);
    ParseLengthsFields(pre, vals, Concat(vals));
  }

  lemma BopBodyValues(flags: nat, bkeys: seq<nat>, vals: seq<Bytes>)
    requires BTreeFits(flags, bkeys, vals)
    ensures ParseValues(BTreeBody(flags, bkeys, vals), 8 + 12 * |vals|, Lengths(vals)) == vals
  {
    var pre := BopBodyValuesAt(flags, bkeys, vals);
    ParseValuesConcat(pre, vals);
  }

  /** The b-tree parser reads back exactly the bkeys and values a server put in a reply. */
  lemma ParseBopGetBody(flags: nat, bkeys: seq<nat>, vals: seq<Bytes>)
    requires BTreeFits(flags, bkeys, vals)
    ensures ParseBopGet(BTreeBody(flags, bkeys, vals)) == Ok(BTreeReply(flags, |vals|, bkeys, vals))
  {
    BopBodyFlagsCount(flags, bkeys, vals);
    BopBodyBkeys(flags, bkeys, vals);
    BopBodyLengths(flags, bkeys, vals);
    BopBodyValues(flags, bkeys, vals);
    ParseBopGetStages(BTreeBody(flags, bkeys, vals), flags, |vals|, bkeys, Lengths(vals), vals);
  }

  /**
   A reply whose values section is cut short still parses: the last value
   comes out truncated rather than raising.
   */
  lemma TruncatedValueStillParses(flags: nat, v: Bytes)
    requires flags < 0x1_0000_0000 && 0 < |v| < 0x1_0000_0000
    ensures var data := CollectionBody(flags, [v]);
      ParseLopGet(data[..|data| - 1]) == Ok(ListReply(flags, 1, [v[..|v| - 1]]))
  {
    var data := CollectionBody(flags, [v]);
    var p8 := BE4(flags) + BE4(1);
    var short := v[..|v| - 1];
    assert LengthFields([v]) == BE4(|v|) + LengthFields([]);
    assert Concat([v]) == v + Concat([]);
    assert data == p8 + BE4(|v|) + v;
    var cut := data[..|data| - 1];
    assert cut == p8 + BE4(|v|) + short;
    assert ParseFlagsCount(cut) == Ok((flags, 1)) by {
      assert cut == BE4(flags) + BE4(1) + (BE4(|v|) + short);
      ParseFlagsCountBody(flags, 1, BE4(|v|) + short);
    }
    assert ParseLengths(cut, 8, 1) == Ok([|v|]) by {
      U32AtBE4(p8, |v|, short);
      assert U32At(cut, 8) == Ok(|v|);
      assert ParseLengths(cut, 12, 0) == Ok([]);
      assert [|v|] + [] == [|v|];
    }
    assert ParseValues(cut, 12, [|v|]) == [short] by {
      assert PySlice(cut, 12, 12 + |v|) == cut[12..] == short;
      assert ParseValues(cut, 12 + |v|, []) == [];
    }
  }

  // ---------------------------------------------------------------------
  // Fixed-size replies.

  /** `__incrdecr`'s result: the 8-byte body is the counter's new value. */
  function ParseCounter(body: Bytes): (r: Result<nat, ClientError>)
    ensures r.Ok? <==> |body| == 8
    ensures r.Ok? ==> r.value == DecodeBE(body)
  {
    match Unpack(INCRDECR_RES_FMT, body)
    case Err(e) => Err(PackError(e))
    case Ok(f) =>
      assert UnpackFields(INCRDECR_RES_FMT, body) == [DecodeField(UInt64, body[..8])] + UnpackFields([], body[8..]);
      assert body[..8] == body;
      Ok(f[0])
  }

  /** `sop_exist`'s result: the 4-byte body is 1 when the value is present and 0 otherwise. */
  function ParseExist(body: Bytes): (r: Result<nat, ClientError>)
    ensures r.Ok? <==> |body| == 4
    ensures r.Ok? ==> r.value == DecodeBE(body)
  {
    match Unpack(EXIST_RES_FMT, body)
    case Err(e) => Err(PackError(e))
    case Ok(f) =>
      assert UnpackFields(EXIST_RES_FMT, body) == [DecodeField(UInt32, body[..4])] + UnpackFields([], body[4..]);
      assert body[..4] == body;
      Ok(f[0])
  }

  lemma ParseCounterBody(v: nat)
    requires v < 0x1_0000_0000_0000_0000
    ensures ParseCounter(BE8(v)) == Ok(v)
  {
    assert Pow256(8) == 0x1_0000_0000_0000_0000;
    DecodeEncodeBE(v, 8);
  }

  lemma ParseExistBody(present: bool)
    ensures ParseExist(BE4(if present then 1 else 0)) == Ok(if present then 1 else 0)
  {
    assert Pow256(4) == 0x1_0000_0000;
    DecodeEncodeBE(if present then 1 else 0, 4);
  }
}
