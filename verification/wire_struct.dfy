/**
 Big-endian binary packing in the manner of Python's `struct` module with the
 '>' (standard size, no alignment) prefix, as used for every header and
 extra-header layout of the protocol.  A format is a sequence of field codes;
 packing fails when the number of values differs from the number of fields or
 a value does not fit its field, and unpacking fails when the input length
 differs from the format's size.
 */
module Struct {
  import opened Results

  type byte = b: int | 0 <= b < 256
  type Bytes = seq<byte>

  /** Field codes: B, H, I/L (both four bytes under '>'), l and Q. */
  datatype Code = UInt8 | UInt16 | UInt32 | Int32 | UInt64

  type Format = seq<Code>

  datatype StructError =
    | ArityMismatch(expected: nat, given: nat)
    | OutOfRange
    | SizeMismatch(expected: nat, given: nat)

  function Width(c: Code): nat {
    match c
    case UInt8 => 1
    case UInt16 => 2
    case UInt32 => 4
    case Int32 => 4
    case UInt64 => 8
  }

  function Pow256(n: nat): (r: nat)
    ensures r >= 1
  {
    if n == 0 then 1 else 256 * Pow256(n - 1)
  }

  /** The number of distinct values a field of code `c` can carry. */
  function Span(c: Code): nat {
    match c
    case UInt8 => 0x100
    case UInt16 => 0x1_0000
    case UInt32 => 0x1_0000_0000
    case Int32 => 0x1_0000_0000
    case UInt64 => 0x1_0000_0000_0000_0000
  }

  lemma SpanIsPow(c: Code)
    ensures Span(c) == Pow256(Width(c))
  {
    assert Pow256(2) == 0x1_0000;
    assert Pow256(4) == 0x1_0000_0000;
    assert Pow256(8) == 0x1_0000_0000_0000_0000;
  }

  /** `struct.calcsize` of a '>' format. */
  function CalcSize(fmt: Format): nat {
    if |fmt| == 0 then 0 else Width(fmt[0]) + CalcSize(fmt[1..])
  }

  /** Whether `v` is accepted by `struct.pack` for a field of code `c`. */
  predicate Fits(c: Code, v: int) {
    if c == Int32 then -0x8000_0000 <= v < 0x8000_0000 else 0 <= v < Span(c)
  }

  predicate AllFit(fmt: Format, vals: seq<int>)
    requires |vals| == |fmt|
  {
    forall i :: 0 <= i < |fmt| ==> Fits(fmt[i], vals[i])
  }

  /** The `w` low-order bytes of `v`, most significant first. */
  function EncodeBE(v: nat, w: nat): (r: Bytes)
    requires v < Pow256(w)
    ensures |r| == w
  {
    if w == 0 then [] else EncodeBE(v / 256, w - 1) + [v % 256]
  }

  /** The unsigned value of a big-endian byte string. */
  function DecodeBE(b: Bytes): (v: nat)
    ensures v < Pow256(|b|)
  {
    if |b| == 0 then 0
    else
      var d := DecodeBE(b[..|b| - 1]);
      assert d * 256 + b[|b| - 1] < Pow256(|b|) by {
        assert d <= Pow256(|b| - 1) - 1;
        assert d * 256 <= (Pow256(|b| - 1) - 1) * 256;
      }
      d * 256 + b[|b| - 1]
  }

  /** The big-endian 16-, 32- and 64-bit words starting at offset `i`, written out. */
  function Be16(b: Bytes, i: nat): (v: nat)
    requires i + 2 <= |b|
    ensures v < 0x1_0000
  {
    b[i] as int * 0x100 + b[i + 1] as int
  }

  function Be32(b: Bytes, i: nat): (v: nat)
    requires i + 4 <= |b|
    ensures v < 0x1_0000_0000
  {
    Be16(b, i) * 0x1_0000 + Be16(b, i + 2)
  }

  function Be64(b: Bytes, i: nat): (v: nat)
    requires i + 8 <= |b|
    ensures v < 0x1_0000_0000_0000_0000
  {
    Be32(b, i) * 0x1_0000_0000 + Be32(b, i + 4)
  }

  /** The bytes of a 16-, 32- or 64-bit word, most significant first, written out. */
  function Put16(v: nat): (r: Bytes)
    requires v < 0x1_0000
    ensures |r| == 2
  {
    [v / 0x100, v % 0x100]
  }

  function Put32(v: nat): (r: Bytes)
    requires v < 0x1_0000_0000
    ensures |r| == 4
  {
    Put16(v / 0x1_0000) + Put16(v % 0x1_0000)
  }

  function Put64(v: nat): (r: Bytes)
    requires v < 0x1_0000_0000_0000_0000
    ensures |r| == 8
  {
    Put32(v / 0x1_0000_0000) + Put32(v % 0x1_0000_0000)
  }

  /** Reading back a written-out word gives the word. */
  lemma Put16Reads(b: Bytes, i: nat, v: nat)
    requires v < 0x1_0000 && i + 2 <= |b| && b[i..i + 2] == Put16(v)
    ensures Be16(b, i) == v
  {
    assert b[i] == b[i..i + 2][0] && b[i + 1] == b[i..i + 2][1];
  }

  lemma Put32Reads(b: Bytes, i: nat, v: nat)
    requires v < 0x1_0000_0000 && i + 4 <= |b| && b[i..i + 4] == Put32(v)
    ensures Be32(b, i) == v
  {
    assert b[i..i + 2] == b[i..i + 4][..2];
    assert b[i + 2..i + 4] == b[i..i + 4][2..];
    Put16Reads(b, i, v / 0x1_0000);
    Put16Reads(b, i + 2, v % 0x1_0000);
  }

  lemma Put64Reads(b: Bytes, i: nat, v: nat)
    requires v < 0x1_0000_0000_0000_0000 && i + 8 <= |b| && b[i..i + 8] == Put64(v)
    ensures Be64(b, i) == v
  {
    assert b[i..i + 4] == b[i..i + 8][..4];
    assert b[i + 4..i + 8] == b[i..i + 8][4..];
    Put32Reads(b, i, v / 0x1_0000_0000);
    Put32Reads(b, i + 4, v % 0x1_0000_0000);
  }

  /** A two-digit number in base `m` splits back into its digits. */
  lemma DivModOfPair(hi: nat, lo: nat, m: nat)
    requires lo < m
    ensures (hi * m + lo) / m == hi && (hi * m + lo) % m == lo
  {
    var q := (hi * m + lo) / m;
    MulMonotone(q, hi, m);
  }

  lemma MulMonotone(a: nat, b: nat, m: nat)
    ensures a > b ==> a * m >= b * m + m
    ensures a < b ==> a * m + m <= b * m
  {
    if a > b {
      var d: nat := a - b - 1;
      assert a * m == b * m + d * m + m;
    } else if a < b {
      var d: nat := b - a - 1;
      assert b * m == a * m + d * m + m;
    }
  }

  /** Writing out the word read at an offset gives back its bytes. */
  lemma Be16Writes(b: Bytes, i: nat)
    requires i + 2 <= |b|
    ensures Put16(Be16(b, i)) == b[i..i + 2]
  {
  }

  lemma Be32Writes(b: Bytes, i: nat)
    requires i + 4 <= |b|
    ensures Put32(Be32(b, i)) == b[i..i + 4]
  {
    Be16Writes(b, i);
    Be16Writes(b, i + 2);
    assert b[i..i + 4] == b[i..i + 2] + b[i + 2..i + 4];
  }

  lemma Be64Writes(b: Bytes, i: nat)
    requires i + 8 <= |b|
    ensures Put64(Be64(b, i)) == b[i..i + 8]
  {
    Be32Writes(b, i);
    Be32Writes(b, i + 4);
    DivModOfPair(Be32(b, i), Be32(b, i + 4), 0x1_0000_0000);
    assert b[i..i + 8] == b[i..i + 4] + b[i + 4..i + 8];
  }

  /** Extending a byte string by one byte shifts its value up a byte. */
  lemma DecodeBESnoc(b: Bytes, i: nat, j: nat)
    requires i <= j < |b|
    ensures DecodeBE(b[i..j + 1]) == DecodeBE(b[i..j]) * 256 + b[j]
  {
    assert b[i..j + 1][..j - i] == b[i..j];
  }

  /** The written-out words are the big-endian values of their spans. */
  lemma ByteDecodes(b: Bytes, i: nat)
    requires i < |b|
    ensures b[i] as int == DecodeBE(b[i..i + 1])
  {
    DecodeBESnoc(b, i, i);
  }

  lemma Be16Decodes(b: Bytes, i: nat)
    requires i + 2 <= |b|
    ensures Be16(b, i) == DecodeBE(b[i..i + 2])
  {
    DecodeBESnoc(b, i, i);
    DecodeBESnoc(b, i, i + 1);
  }

  lemma Be32Decodes(b: Bytes, i: nat)
    requires i + 4 <= |b|
    ensures Be32(b, i) == DecodeBE(b[i..i + 4])
  {
    Be16Decodes(b, i);
    DecodeBESnoc(b, i, i + 2);
    DecodeBESnoc(b, i, i + 3);
  }

  lemma Be64Decodes(b: Bytes, i: nat)
    requires i + 8 <= |b|
    ensures Be64(b, i) == DecodeBE(b[i..i + 8])
  {
    Be32Decodes(b, i);
    DecodeBESnoc(b, i, i + 4);
    DecodeBESnoc(b, i, i + 5);
    DecodeBESnoc(b, i, i + 6);
    DecodeBESnoc(b, i, i + 7);
  }

  lemma {:induction false} DecodeEncodeBE(v: nat, w: nat)
    requires v < Pow256(w)
    ensures DecodeBE(EncodeBE(v, w)) == v
  {
    if w > 0 {
      var e := EncodeBE(v / 256, w - 1);
      assert EncodeBE(v, w)[..w - 1] == e;
      DecodeEncodeBE(v / 256, w - 1);
    }
  }

  lemma {:induction false} EncodeDecodeBE(b: Bytes)
    ensures EncodeBE(DecodeBE(b), |b|) == b
  {
    if |b| > 0 {
      var p := b[..|b| - 1];
      var d := DecodeBE(p);
      var x := b[|b| - 1];
      assert (d * 256 + x) / 256 == d;
      assert (d * 256 + x) % 256 == x;
      EncodeDecodeBE(p);
      assert p + [x] == b;
    }
  }

  /** One field in two's complement where signed. */
  function EncodeField(c: Code, v: int): (r: Bytes)
    requires Fits(c, v)
    ensures |r| == Width(c)
  {
    SpanIsPow(c);
    var u := if v < 0 then v + 0x1_0000_0000 else v;
    EncodeBE(u, Width(c))
  }

  function DecodeField(c: Code, b: Bytes): (v: int)
    requires |b| == Width(c)
    ensures Fits(c, v)
  {
    SpanIsPow(c);
    var u := DecodeBE(b);
    if c == Int32 && u >= 0x8000_0000 then u - 0x1_0000_0000 else u
  }

  lemma DecodeEncodeField(c: Code, v: int)
    requires Fits(c, v)
    ensures DecodeField(c, EncodeField(c, v)) == v
  {
    SpanIsPow(c);
    var u := if v < 0 then v + 0x1_0000_0000 else v;
    DecodeEncodeBE(u, Width(c));
  }

  lemma EncodeDecodeField(c: Code, b: Bytes)
    requires |b| == Width(c)
    ensures EncodeField(c, DecodeField(c, b)) == b
  {
    SpanIsPow(c);
    EncodeDecodeBE(b);
  }

  function PackFields(fmt: Format, vals: seq<int>): (r: Result<Bytes, StructError>)
    requires |vals| == |fmt|
    ensures r.Ok? <==> AllFit(fmt, vals)
    ensures r.Ok? ==> |r.value| == CalcSize(fmt)
    ensures r.Err? ==> r.error == OutOfRange
  {
    if |fmt| == 0 then Ok([])
    else if !Fits(fmt[0], vals[0]) then Err(OutOfRange)
    else
      match PackFields(fmt[1..], vals[1..])
      case Err(e) =>
        assert !AllFit(fmt[1..], vals[1..]);
        Err(e)
      case Ok(rest) =>
        assert forall i :: 1 <= i < |fmt| ==> fmt[i] == fmt[1..][i - 1] && vals[i] == vals[1..][i - 1];
        Ok(EncodeField(fmt[0], vals[0]) + rest)
  }

  /** `struct.pack(fmt, *vals)`. */
  function Pack(fmt: Format, vals: seq<int>): (r: Result<Bytes, StructError>)
    ensures r.Ok? <==> |vals| == |fmt| && AllFit(fmt, vals)
    ensures r.Ok? ==> |r.value| == CalcSize(fmt)
    ensures |vals| != |fmt| ==> r == Err(ArityMismatch(|fmt|, |vals|))
  {
    if |vals| != |fmt| then Err(ArityMismatch(|fmt|, |vals|)) else PackFields(fmt, vals)
  }

  function UnpackFields(fmt: Format, data: Bytes): (r: seq<int>)
    requires |data| == CalcSize(fmt)
    ensures |r| == |fmt| && AllFit(fmt, r)
  {
    if |fmt| == 0 then []
    else
      var w := Width(fmt[0]);
      var rest := UnpackFields(fmt[1..], data[w..]);
      [DecodeField(fmt[0], data[..w])] + rest
  }

  /** Field `i` of an unpacked record is decoded from its own span, which starts after the earlier fields. */
  lemma {:induction false} UnpackFieldsAt(fmt: Format, data: Bytes, i: nat)
    requires |data| == CalcSize(fmt) && i < |fmt|
    ensures CalcSize(fmt[..i]) + Width(fmt[i]) <= |data|
    ensures UnpackFields(fmt, data)[i]
      == DecodeField(fmt[i], data[CalcSize(fmt[..i])..CalcSize(fmt[..i]) + Width(fmt[i])])
  {
    if i == 0 {
      assert fmt[..0] == [];
    } else {
      var w := Width(fmt[0]);
      var tail := data[w..];
      var lo := CalcSize(fmt[1..][..i - 1]);
      var wi := Width(fmt[i]);
      UnpackFieldsAt(fmt[1..], tail, i - 1);
      assert fmt[1..][i - 1] == fmt[i];
      var r := UnpackFields(fmt[1..], tail);
      assert UnpackFields(fmt, data) == [DecodeField(fmt[0], data[..w])] + r;
      assert UnpackFields(fmt, data)[i] == r[i - 1];
      CalcSizePrefix(fmt, i);
      assert lo + wi <= |tail|;
      SliceOfSuffix(data, w, lo, lo + wi);
    }
  }

  /** An unsigned field of an unpacked record, read at a known offset. */
  lemma UnpackFieldAtOffset(fmt: Format, data: Bytes, i: nat, off: nat)
    requires |data| == CalcSize(fmt) && i < |fmt| && CalcSize(fmt[..i]) == off && fmt[i] != Int32
    ensures off + Width(fmt[i]) <= |data|
    ensures UnpackFields(fmt, data)[i] == DecodeBE(data[off..off + Width(fmt[i])])
  {
    UnpackFieldsAt(fmt, data, i);
  }

  /** The size of a layout's first `k + 1` fields is that of its first `k` plus the next field's width. */
  lemma CalcSizeSnoc(fmt: Format, k: nat)
    requires k < |fmt|
    ensures CalcSize(fmt[..k + 1]) == CalcSize(fmt[..k]) + Width(fmt[k])
  {
    assert fmt[..k + 1] == fmt[..k] + [fmt[k]];
    CalcSizeAppend(fmt[..k], [fmt[k]]);
    assert [fmt[k]][1..] == [];
  }

  lemma {:induction false} CalcSizeAppend(a: Format, b: Format)
    ensures CalcSize(a + b) == CalcSize(a) + CalcSize(b)
  {
    if |a| > 0 {
      assert (a + b)[0] == a[0] && (a + b)[1..] == a[1..] + b;
      CalcSizeAppend(a[1..], b);
    } else {
      assert a + b == b;
    }
  }

  /** The same, with the field's value written out for each unsigned width. */
  lemma UnpackWordAt(fmt: Format, data: Bytes, i: nat, off: nat)
    requires |data| == CalcSize(fmt) && i < |fmt| && CalcSize(fmt[..i]) == off && fmt[i] != Int32
    ensures off + Width(fmt[i]) <= |data|
    ensures fmt[i] == UInt8 ==> UnpackFields(fmt, data)[i] == data[off] as int
    ensures fmt[i] == UInt16 ==> UnpackFields(fmt, data)[i] == Be16(data, off)
    ensures fmt[i] == UInt32 ==> UnpackFields(fmt, data)[i] == Be32(data, off)
    ensures fmt[i] == UInt64 ==> UnpackFields(fmt, data)[i] == Be64(data, off)
  {
    UnpackFieldAtOffset(fmt, data, i, off);
    match fmt[i]
    case UInt8 => ByteDecodes(data, off);
    case UInt16 => Be16Decodes(data, off);
    case UInt32 => Be32Decodes(data, off);
    case UInt64 => Be64Decodes(data, off);
  }

  /** Taking from, or dropping from, what follows position `i`. */
  lemma SuffixSlices<T>(a: seq<T>, i: nat, n: nat)
    requires i + n <= |a|
    ensures a[i..][..n] == a[i..i + n] && a[i..][n..] == a[i + n..]
  {
  }

  /** Adjacent slices join. */
  lemma JoinSlices<T>(a: seq<T>, i: nat, j: nat)
    requires i <= j <= |a|
    ensures a[..i] + a[i..j] == a[..j]
  {
  }

  lemma SliceOfSuffix(data: Bytes, w: nat, lo: nat, hi: nat)
    requires w <= |data| && lo <= hi <= |data| - w
    ensures data[w..][lo..hi] == data[w + lo..w + hi]
  {
  }

  lemma CalcSizePrefix(fmt: Format, i: nat)
    requires 0 < i <= |fmt|
    ensures CalcSize(fmt[..i]) == Width(fmt[0]) + CalcSize(fmt[1..][..i - 1])
  {
    assert fmt[..i][0] == fmt[0] && fmt[..i][1..] == fmt[1..][..i - 1];
  }

  /** `struct.unpack(fmt, data)`. */
  function Unpack(fmt: Format, data: Bytes): (r: Result<seq<int>, StructError>)
    ensures r.Ok? <==> |data| == CalcSize(fmt)
    ensures r.Ok? ==> |r.value| == |fmt| && AllFit(fmt, r.value)
  {
    if |data| != CalcSize(fmt) then Err(SizeMismatch(CalcSize(fmt), |data|))
    else Ok(UnpackFields(fmt, data))
  }

  lemma {:induction false} UnpackPackFields(fmt: Format, vals: seq<int>)
    requires |vals| == |fmt| && AllFit(fmt, vals)
    ensures UnpackFields(fmt, PackFields(fmt, vals).value) == vals
  {
    if |fmt| > 0 {
      assert AllFit(fmt[1..], vals[1..]) by {
        forall i | 0 <= i < |fmt| - 1
          ensures Fits(fmt[1..][i], vals[1..][i])
        {
          assert Fits(fmt[i + 1], vals[i + 1]);
        }
      }
      var head := EncodeField(fmt[0], vals[0]);
      var rest := PackFields(fmt[1..], vals[1..]).value;
      var w := Width(fmt[0]);
      assert PackFields(fmt, vals).value == head + rest;
      assert (head + rest)[..w] == head;
      assert (head + rest)[w..] == rest;
      DecodeEncodeField(fmt[0], vals[0]);
      UnpackPackFields(fmt[1..], vals[1..]);
    }
  }

  /** One unfolding of `PackFields` on a format with a first field. */
  lemma PackFieldsCons(fmt: Format, head: int, rest: seq<int>)
    requires |fmt| > 0 && |rest| == |fmt| - 1 && Fits(fmt[0], head) && PackFields(fmt[1..], rest).Ok?
    ensures PackFields(fmt, [head] + rest) == Ok(EncodeField(fmt[0], head) + PackFields(fmt[1..], rest).value)
  {
    var vals := [head] + rest;
    assert vals[0] == head && vals[1..] == rest;
  }

  lemma {:induction false} PackUnpackFields(fmt: Format, data: Bytes)
    requires |data| == CalcSize(fmt)
    ensures PackFields(fmt, UnpackFields(fmt, data)) == Ok(data)
  {
    if |fmt| > 0 {
      var w := Width(fmt[0]);
      var hd := data[..w];
      var tl := data[w..];
      var head := DecodeField(fmt[0], hd);
      var rest := UnpackFields(fmt[1..], tl);
      assert UnpackFields(fmt, data) == [head] + rest;
      PackUnpackFields(fmt[1..], tl);
      EncodeDecodeField(fmt[0], hd);
      PackFieldsCons(fmt, head, rest);
      assert hd + tl == data;
    }
  }

  /** Unpacking what was packed gives back the packed values. */
  lemma UnpackPack(fmt: Format, vals: seq<int>)
    requires Pack(fmt, vals).Ok?
    ensures Unpack(fmt, Pack(fmt, vals).value) == Ok(vals)
  {
    UnpackPackFields(fmt, vals);
  }

  /** Packing what was unpacked gives back the unpacked bytes. */
  lemma PackUnpack(fmt: Format, data: Bytes)
    requires Unpack(fmt, data).Ok?
    ensures Pack(fmt, Unpack(fmt, data).value) == Ok(data)
  {
    PackUnpackFields(fmt, data);
  }

  /** Python slicing `s[a:b]` for non-negative bounds: bounds past the end are cut back, never an error. */
  function PySlice<T>(s: seq<T>, a: nat, b: nat): (r: seq<T>)
    ensures a <= b <= |s| ==> r == s[a..b]
    ensures a <= |s| < b ==> r == s[a..]
    ensures |r| == if a >= |s| || b <= a then 0 else (if b <= |s| then b else |s|) - a
  {
    var hi := if b <= |s| then b else |s|;
    var lo := if a <= hi then a else hi;
    s[lo..hi]
  }
}
