/**
 Sessions from the collection unit tests, replayed against the store model:
 each lemma runs the commands of one test in order and states the replies and
 contents the test expects.
 */
module Scenarios {
  import opened Results
  import opened Struct
  import opened Constants
  import opened Items
  import opened Lists
  import opened Sets
  import opened BTrees
  import S = Server
  import Codec

  /** "datum" followed by one more character: the values the tests store. */
  function Datum(c: byte): Bytes {
    [100, 97, 116, 117, 109, c]
  }

  const D0: Bytes := Datum(48)
  const D1: Bytes := Datum(49)
  const D2: Bytes := Datum(50)
  const D3: Bytes := Datum(51)
  const D4: Bytes := Datum(52)
  const D5: Bytes := Datum(53)
  const D6: Bytes := Datum(54)
  const D7: Bytes := Datum(55)
  const D8: Bytes := Datum(56)
  const D9: Bytes := Datum(57)

  // ---------------------------------------------------------------- lists

  /** "lkey" */
  const LKEY: Bytes := [108, 107, 101, 121]

  /** The attributes of the list the tests create with flags 17 and no other settings. */
  const LA: Attrs := Attrs(17, 0, MAX_COUNT, TailTrim, 0)

  /** A store holding only the list `l` under "lkey". */
  function Lst(l: seq<Bytes>, a: Attrs): Store {
    map[LKEY := ListItem(l, a)]
  }

  lemma InsertBelow(l: seq<Bytes>, a: Attrs, index: int, v: Bytes, p: nat, r: seq<Bytes>)
    requires |l| < a.maxcount && InsertPosition(index, |l|) == Some(p) && r == l[..p] + [v] + l[p..]
    ensures S.LopInsert(Lst(l, a), LKEY, index, v, None) == Ok(Lst(r, a))
  {
    assert Lst(l, a)[LKEY := ListItem(r, a)] == Lst(r, a);
  }

  lemma InsertLast(l: seq<Bytes>, a: Attrs, v: Bytes, r: seq<Bytes>)
    requires |l| < a.maxcount && r == l + [v]
    ensures S.LopInsert(Lst(l, a), LKEY, |l|, v, None) == Ok(Lst(r, a))
  {
    InsertBelow(l, a, |l|, v, |l|, r);
  }

  lemma InsertCreating(spec: CreateSpec, index: int, v: Bytes)
    requires index == 0 || index == -1
    ensures S.LopInsert(map[], LKEY, index, v, Some(spec)) == Ok(Lst([v], NewAttrs(spec, ListType)))
  {
    assert PutAt([], 0, v) == [v];
  }

  lemma Read(l: seq<Bytes>, a: Attrs, from: int, to: int, span: Span, got: seq<Bytes>)
    requires ResolveRange(from, to, |l|) == Ok(span) && Select(l, span) == got
    ensures S.LopGet(Lst(l, a), LKEY, from, to, false) == Ok(S.Fetched(a.flags, got, Lst(l, a)))
  {
  }

  lemma ReadDelete(l: seq<Bytes>, a: Attrs, from: int, to: int, span: Span, got: seq<Bytes>, rest: seq<Bytes>)
    requires ResolveRange(from, to, |l|) == Ok(span) && Select(l, span) == got && Cut(l, span) == rest && |rest| > 0
    ensures S.LopGet(Lst(l, a), LKEY, from, to, true) == Ok(S.Fetched(a.flags, got, Lst(rest, a)))
  {
    assert S.PutBack(Lst(l, a), LKEY, ListItem(rest, a), false) == Lst(rest, a);
  }

  lemma Remove(l: seq<Bytes>, a: Attrs, from: int, to: int, span: Span, rest: seq<Bytes>)
    requires ResolveRange(from, to, |l|) == Ok(span) && Cut(l, span) == rest
    ensures S.LopDelete(Lst(l, a), LKEY, from, to) == Ok(if |rest| == 0 then map[] else Lst(rest, a))
  {
    assert S.PutBack(Lst(l, a), LKEY, ListItem(rest, a), |rest| == 0) == (if |rest| == 0 then map[] else Lst(rest, a));
  }

  /**
   testLOPInsertGet: an insert with the create flag on a missing key creates
   the list with the requested flags, the default maxcount and tail-trim.
   */
  lemma LopCreatingInsert()
    ensures S.LopInsert(map[], LKEY, 0, D0, Some(CreateSpec(17, 0, 0))) == Ok(Lst([D0], LA))
  {
    InsertCreating(CreateSpec(17, 0, 0), 0, D0);
  }

  const L5: seq<Bytes> := [D0, D1, D2, D3, D4]

  /** testLOPInsertGet: four more inserts at the tail build the five-element list. */
  lemma LopInsertSession()
    ensures S.LopInsert(Lst([D0], LA), LKEY, 1, D1, None) == Ok(Lst([D0, D1], LA))
    ensures S.LopInsert(Lst([D0, D1], LA), LKEY, 2, D2, None) == Ok(Lst([D0, D1, D2], LA))
    ensures S.LopInsert(Lst([D0, D1, D2], LA), LKEY, 3, D3, None) == Ok(Lst([D0, D1, D2, D3], LA))
    ensures S.LopInsert(Lst([D0, D1, D2, D3], LA), LKEY, 4, D4, None) == Ok(Lst(L5, LA))
  {
    InsertLast([D0], LA, D1, [D0, D1]);
    InsertLast([D0, D1], LA, D2, [D0, D1, D2]);
    InsertLast([D0, D1, D2], LA, D3, [D0, D1, D2, D3]);
    InsertLast([D0, D1, D2, D3], LA, D4, L5);
  }

  /** testLOPInsertGet: forward ranges, with negative indices counted from the end and `to` clipped to the list. */
  lemma LopReadForward()
    ensures var st := Lst(L5, LA);
      && S.LopGet(st, LKEY, 0, -1, false) == Ok(S.Fetched(17, [D0, D1, D2, D3, D4], st))
      && S.LopGet(st, LKEY, 0, 2, false) == Ok(S.Fetched(17, [D0, D1, D2], st))
      && S.LopGet(st, LKEY, 2, 8, false) == Ok(S.Fetched(17, [D2, D3, D4], st))
      && S.LopGet(st, LKEY, -3, 3, false) == Ok(S.Fetched(17, [D2, D3], st))
      && S.LopGet(st, LKEY, 0, -2, false) == Ok(S.Fetched(17, [D0, D1, D2, D3], st))
      && S.LopGet(st, LKEY, 1, 1, false) == Ok(S.Fetched(17, [D1], st))
  {
    assert Select(L5, Span(0, 4, false)) == L5;
    assert Select(L5, Span(0, 2, false)) == [D0, D1, D2];
    assert Select(L5, Span(2, 4, false)) == [D2, D3, D4];
    assert Select(L5, Span(2, 3, false)) == [D2, D3];
    assert Select(L5, Span(0, 3, false)) == [D0, D1, D2, D3];
    assert Select(L5, Span(1, 1, false)) == [D1];
    Read(L5, LA, 0, -1, Span(0, 4, false), L5);
    Read(L5, LA, 0, 2, Span(0, 2, false), [D0, D1, D2]);
    Read(L5, LA, 2, 8, Span(2, 4, false), [D2, D3, D4]);
    Read(L5, LA, -3, 3, Span(2, 3, false), [D2, D3]);
    Read(L5, LA, 0, -2, Span(0, 3, false), [D0, D1, D2, D3]);
    Read(L5, LA, 1, 1, Span(1, 1, false), [D1]);
  }

  /**
   testLOPInsertGet: a range whose `from` lies after its `to` reads backward,
   clipped to the list; a range wholly outside the list is INDEXOOR.
   */
  lemma LopReadBackward()
    ensures var st := Lst(L5, LA);
      && S.LopGet(st, LKEY, -1, -2, false) == Ok(S.Fetched(17, [D4, D3], st))
      && S.LopGet(st, LKEY, -2, 2, false) == Ok(S.Fetched(17, [D3, D2], st))
      && S.LopGet(st, LKEY, 6, -3, false) == Ok(S.Fetched(17, [D4, D3, D2], st))
      && S.LopGet(st, LKEY, 6, 8, false) == Err(IndexOor)
      && S.LopGet(st, LKEY, -10, -8, false) == Err(IndexOor)
  {
    assert Select(L5, Span(3, 4, true)) == [D4, D3];
    assert Select(L5, Span(2, 3, true)) == [D3, D2];
    assert Select(L5, Span(2, 4, true)) == [D4, D3, D2];
    Read(L5, LA, -1, -2, Span(3, 4, true), [D4, D3]);
    Read(L5, LA, -2, 2, Span(2, 3, true), [D3, D2]);
    Read(L5, LA, 6, -3, Span(2, 4, true), [D4, D3, D2]);
  }

  /** testLOPInsertDeletePop: the first four of nine inserts alternating between head-relative and tail-relative indices. */
  lemma LopAlternatingInserts()
    ensures S.LopInsert(Lst([D0], LA), LKEY, -1, D9, None) == Ok(Lst([D0, D9], LA))
    ensures S.LopInsert(Lst([D0, D9], LA), LKEY, 1, D1, None) == Ok(Lst([D0, D1, D9], LA))
    ensures S.LopInsert(Lst([D0, D1, D9], LA), LKEY, -2, D8, None) == Ok(Lst([D0, D1, D8, D9], LA))
    ensures S.LopInsert(Lst([D0, D1, D8, D9], LA), LKEY, 2, D2, None) == Ok(Lst([D0, D1, D2, D8, D9], LA))
  {
    assert [D0][..1] + [D9] + [D0][1..] == [D0, D9];
    assert [D0, D9][..1] + [D1] + [D0, D9][1..] == [D0, D1, D9];
    assert [D0, D1, D9][..2] + [D8] + [D0, D1, D9][2..] == [D0, D1, D8, D9];
    assert [D0, D1, D8, D9][..2] + [D2] + [D0, D1, D8, D9][2..] == [D0, D1, D2, D8, D9];
    InsertBelow([D0], LA, -1, D9, 1, [D0, D9]);
    InsertBelow([D0, D9], LA, 1, D1, 1, [D0, D1, D9]);
    InsertBelow([D0, D1, D9], LA, -2, D8, 2, [D0, D1, D8, D9]);
    InsertBelow([D0, D1, D8, D9], LA, 2, D2, 2, [D0, D1, D2, D8, D9]);
  }

  const L10: seq<Bytes> := [D0, D1, D2, D3, D4, D5, D6, D7, D8, D9]

  /** The five placements of the second half of the alternating inserts. */
  lemma AlternatingPlacements()
    ensures var a := [D0, D1, D2, D8, D9]; a[..3] + [D7] + a[3..] == [D0, D1, D2, D7, D8, D9]
    ensures var b := [D0, D1, D2, D7, D8, D9]; b[..3] + [D3] + b[3..] == [D0, D1, D2, D3, D7, D8, D9]
    ensures var c := [D0, D1, D2, D3, D7, D8, D9]; c[..4] + [D6] + c[4..] == [D0, D1, D2, D3, D6, D7, D8, D9]
    ensures var d := [D0, D1, D2, D3, D6, D7, D8, D9]; d[..4] + [D4] + d[4..] == [D0, D1, D2, D3, D4, D6, D7, D8, D9]
    ensures var e := [D0, D1, D2, D3, D4, D6, D7, D8, D9]; e[..5] + [D5] + e[5..] == L10
  {
    var a, b, c := [D0, D1, D2, D8, D9], [D0, D1, D2, D7, D8, D9], [D0, D1, D2, D3, D7, D8, D9];
    var d, e := [D0, D1, D2, D3, D6, D7, D8, D9], [D0, D1, D2, D3, D4, D6, D7, D8, D9];
    assert a[..3] == [D0, D1, D2] && a[3..] == [D8, D9];
    assert b[..3] == [D0, D1, D2] && b[3..] == [D7, D8, D9];
    assert c[..4] == [D0, D1, D2, D3] && c[4..] == [D7, D8, D9];
    assert d[..4] == [D0, D1, D2, D3] && d[4..] == [D6, D7, D8, D9];
    assert e[..5] == [D0, D1, D2, D3, D4] && e[5..] == [D6, D7, D8, D9];
  }

  /** testLOPInsertDeletePop: the remaining five alternating inserts leave the ten values in order. */
  lemma LopAlternatingInsertsRest()
    ensures S.LopInsert(Lst([D0, D1, D2, D8, D9], LA), LKEY, -3, D7, None) == Ok(Lst([D0, D1, D2, D7, D8, D9], LA))
    ensures S.LopInsert(Lst([D0, D1, D2, D7, D8, D9], LA), LKEY, 3, D3, None) == Ok(Lst([D0, D1, D2, D3, D7, D8, D9], LA))
    ensures S.LopInsert(Lst([D0, D1, D2, D3, D7, D8, D9], LA), LKEY, -4, D6, None) == Ok(Lst([D0, D1, D2, D3, D6, D7, D8, D9], LA))
    ensures S.LopInsert(Lst([D0, D1, D2, D3, D6, D7, D8, D9], LA), LKEY, 4, D4, None) == Ok(Lst([D0, D1, D2, D3, D4, D6, D7, D8, D9], LA))
    ensures S.LopInsert(Lst([D0, D1, D2, D3, D4, D6, D7, D8, D9], LA), LKEY, -5, D5, None) == Ok(Lst(L10, LA))
  {
    AlternatingPlacements();
    InsertBelow([D0, D1, D2, D8, D9], LA, -3, D7, 3, [D0, D1, D2, D7, D8, D9]);
    InsertBelow([D0, D1, D2, D7, D8, D9], LA, 3, D3, 3, [D0, D1, D2, D3, D7, D8, D9]);
    InsertBelow([D0, D1, D2, D3, D7, D8, D9], LA, -4, D6, 4, [D0, D1, D2, D3, D6, D7, D8, D9]);
    InsertBelow([D0, D1, D2, D3, D6, D7, D8, D9], LA, 4, D4, 4, [D0, D1, D2, D3, D4, D6, D7, D8, D9]);
    InsertBelow([D0, D1, D2, D3, D4, D6, D7, D8, D9], LA, -5, D5, 5, L10);
  }

  /** The two cuts of the delete session, on the ten-element list and then on what it leaves. */
  lemma DeleteCuts()
    ensures Cut(L10, Span(7, 8, true)) == [D0, D1, D2, D3, D4, D5, D6, D9]
    ensures Cut([D0, D1, D2, D3, D4, D5, D6, D9], Span(1, 3, false)) == [D0, D4, D5, D6, D9]
  {
    var l := [D0, D1, D2, D3, D4, D5, D6, D9];
    assert L10[..7] == [D0, D1, D2, D3, D4, D5, D6] && L10[9..] == [D9];
    assert l[..1] == [D0] && l[4..] == [D4, D5, D6, D9];
  }

  /**
   testLOPInsertDeletePop: deleting a backward range and then a forward
   range; ranges that miss the shortened list are INDEXOOR.
   */
  lemma LopDeleteSession()
    ensures S.LopDelete(Lst(L10, LA), LKEY, 8, -3) == Ok(Lst([D0, D1, D2, D3, D4, D5, D6, D9], LA))
    ensures S.LopDelete(Lst([D0, D1, D2, D3, D4, D5, D6, D9], LA), LKEY, 1, 3) == Ok(Lst([D0, D4, D5, D6, D9], LA))
    ensures S.LopDelete(Lst([D0, D4, D5, D6, D9], LA), LKEY, 7, 9) == Err(IndexOor)
    ensures S.LopDelete(Lst([D0, D4, D5, D6, D9], LA), LKEY, -9, -8) == Err(IndexOor)
  {
    DeleteCuts();
    Remove(L10, LA, 8, -3, Span(7, 8, true), [D0, D1, D2, D3, D4, D5, D6, D9]);
    Remove([D0, D1, D2, D3, D4, D5, D6, D9], LA, 1, 3, Span(1, 3, false), [D0, D4, D5, D6, D9]);
  }

  /**
   testLOPInsertDeletePop: reads with delete return their range and remove
   it, INDEXOOR ranges remove nothing, and deleting everything left removes
   the key.
   */
  lemma LopPopSession()
    ensures S.LopGet(Lst([D0, D4, D5, D6, D9], LA), LKEY, 9, -2, true) == Ok(S.Fetched(17, [D9, D6], Lst([D0, D4, D5], LA)))
    ensures S.LopGet(Lst([D0, D4, D5], LA), LKEY, 1, 1, true) == Ok(S.Fetched(17, [D4], Lst([D0, D5], LA)))
    ensures S.LopGet(Lst([D0, D5], LA), LKEY, 4, 5, true) == Err(IndexOor)
    ensures S.LopGet(Lst([D0, D5], LA), LKEY, -5, -7, true) == Err(IndexOor)
    ensures S.LopDelete(Lst([D0, D5], LA), LKEY, 0, -1) == Ok(map[])
  {
    var l, m := [D0, D4, D5, D6, D9], [D0, D4, D5];
    assert Select(l, Span(3, 4, true)) == [D9, D6];
    assert Cut(l, Span(3, 4, true)) == m;
    assert Cut(m, Span(1, 1, false)) == [D0, D5];
    ReadDelete(l, LA, 9, -2, Span(3, 4, true), [D9, D6], m);
    ReadDelete(m, LA, 1, 1, Span(1, 1, false), [D4], [D0, D5]);
    Remove([D0, D5], LA, 0, -1, Span(0, 1, false), []);
  }

  /** testLOPInsertFailCheck: no create flag on a missing key is NOT_FOUND, and insert indices are bounded by the length. */
  lemma LopInsertBounds()
    ensures S.LopInsert(map[], LKEY, 0, D0, None) == Err(NotFound)
    ensures var a := Attrs(17, 1, MAX_COUNT, TailTrim, 0);
      && S.LopInsert(map[], LKEY, 0, D0, Some(CreateSpec(17, 1, 0))) == Ok(Lst([D0], a))
      && S.LopInsert(Lst([D0], a), LKEY, 2, D2, None) == Err(IndexOor)
      && S.LopInsert(Lst([D0], a), LKEY, -3, D2, None) == Err(IndexOor)
      && S.LopInsert(Lst([D0], a), LKEY, 1, D1, None) == Ok(Lst([D0, D1], a))
  {
    var a := Attrs(17, 1, MAX_COUNT, TailTrim, 0);
    InsertCreating(CreateSpec(17, 1, 0), 0, D0);
    InsertLast([D0], a, D1, [D0, D1]);
  }

  // ------------------------------------------------------- list overflow

  const DS: Bytes := Datum(115)
  const DT: Bytes := Datum(116)
  const DU: Bytes := Datum(117)

  /** The list of testLOPOverflowCheck once its maxcount is 5, under each overflow action. */
  const TAIL5: Attrs := Attrs(17, -2, 5, TailTrim, 0)
  const HEAD5: Attrs := Attrs(17, -2, 5, HeadTrim, 0)
  const ERR5: Attrs := Attrs(17, -2, 5, OvflError, 0)

  /** A setattr the list accepts replaces its attributes and leaves its elements. */
  lemma Reattribute(l: seq<Bytes>, a: Attrs, ch: S.AttrChange)
    requires !S.Inapplicable(ListItem(l, a), ch) && !S.Refused(ListItem(l, a), ch)
    ensures S.SetAttr(Lst(l, a), LKEY, ch) == Ok(Lst(l, S.Apply(a, ch)))
  {
    assert Lst(l, a)[LKEY := ListItem(l, S.Apply(a, ch))] == Lst(l, S.Apply(a, ch));
  }

  /**
   testLOPOverflowCheck: the list is created by its first insert, its maxcount
   set to 5 with the overflow action left at tail-trim, and four appends fill it.
   */
  lemma LopOverflowSetup()
    ensures S.LopInsert(map[], LKEY, -1, D1, Some(CreateSpec(17, 0, 0))) == Ok(Lst([D1], LA))
    ensures S.SetAttr(Lst([D1], LA), LKEY, S.AttrChange(Some(-2), Some(5), None, None)) == Ok(Lst([D1], TAIL5))
    ensures S.GetAttr(Lst([D1], TAIL5), LKEY) == Ok(S.AttrReport(17, -2, 1, 5, 0, ListType, Some(TailTrim)))
    ensures S.LopInsert(Lst([D1], TAIL5), LKEY, -1, D2, None) == Ok(Lst([D1, D2], TAIL5))
    ensures S.LopInsert(Lst([D1, D2], TAIL5), LKEY, -1, D3, None) == Ok(Lst([D1, D2, D3], TAIL5))
  {
    InsertCreating(CreateSpec(17, 0, 0), -1, D1);
    Reattribute([D1], LA, S.AttrChange(Some(-2), Some(5), None, None));
    InsertBelow([D1], TAIL5, -1, D2, 1, [D1, D2]);
    InsertBelow([D1, D2], TAIL5, -1, D3, 2, [D1, D2, D3]);
  }

  const FULL: seq<Bytes> := [D1, D2, D3, D4, D5]

  /**
   testLOPOverflowCheck: appends fill the list to its maxcount; on a full list
   an insert index must name an existing position.
   */
  lemma LopOverflowFill()
    ensures S.LopInsert(Lst([D1, D2, D3], TAIL5), LKEY, -1, D4, None) == Ok(Lst([D1, D2, D3, D4], TAIL5))
    ensures S.LopInsert(Lst([D1, D2, D3, D4], TAIL5), LKEY, -1, D5, None) == Ok(Lst(FULL, TAIL5))
    ensures S.LopInsert(Lst(FULL, TAIL5), LKEY, 5, D6, None) == Err(IndexOor)
    ensures S.LopInsert(Lst(FULL, TAIL5), LKEY, -6, D6, None) == Err(IndexOor)
  {
    InsertBelow([D1, D2, D3], TAIL5, -1, D4, 3, [D1, D2, D3, D4]);
    InsertBelow([D1, D2, D3, D4], TAIL5, -1, D5, 4, FULL);
  }

  /**
   Places `v` at `p` in a full list that keeps its length, as the `kept`
   part of `l` the overflow action leaves: the insert's reply in store terms.
   */
  lemma TrimStep(l: seq<Bytes>, a: Attrs, index: int, v: Bytes, p: nat, kept: seq<Bytes>, r: seq<Bytes>)
    requires |l| == a.maxcount && Trims(a.ovfl) && TrimPosition(index, |l|) == Some(p)
    requires kept == (if DropsHead(a.ovfl, p, |l|) then l[1..] else l[..|l| - 1])
    requires kept[..p] + [v] + kept[p..] == r
    ensures S.LopInsert(Lst(l, a), LKEY, index, v, None) == Ok(Lst(r, a))
  {
    assert S.Target(Lst(l, a), LKEY, ListType, None) == Ok(ListItem(l, a));
    assert ListInsert(l, a.maxcount, a.ovfl, index, v) == Ok(r);
    assert Lst(l, a)[LKEY := ListItem(r, a)] == Lst(r, a);
  }

  /**
   testLOPOverflowCheck: under tail-trim an insert into the full list drops
   the last element, unless the new value itself goes last, which drops the first.
   */
  lemma LopTailTrimSession()
    ensures S.LopInsert(Lst(FULL, TAIL5), LKEY, 2, D0, None) == Ok(Lst([D1, D2, D0, D3, D4], TAIL5))
  {
    assert FULL[..4] == [D1, D2, D3, D4] && [D1, D2, D3, D4][..2] == [D1, D2] && [D1, D2, D3, D4][2..] == [D3, D4];
    TrimStep(FULL, TAIL5, 2, D0, 2, [D1, D2, D3, D4], [D1, D2, D0, D3, D4]);
  }

  /** testLOPOverflowCheck: under tail-trim, inserts at the head drop the last element each time. */
  lemma LopTailTrimFront()
    ensures S.LopInsert(Lst([D1, D2, D0, D3, D4], TAIL5), LKEY, 0, D6, None) == Ok(Lst([D6, D1, D2, D0, D3], TAIL5))
    ensures S.LopInsert(Lst([D6, D1, D2, D0, D3], TAIL5), LKEY, 0, D7, None) == Ok(Lst([D7, D6, D1, D2, D0], TAIL5))
  {
    assert [D1, D2, D0, D3, D4][..4] == [D1, D2, D0, D3];
    assert [D6, D1, D2, D0, D3][..4] == [D6, D1, D2, D0];
    TrimStep([D1, D2, D0, D3, D4], TAIL5, 0, D6, 0, [D1, D2, D0, D3], [D6, D1, D2, D0, D3]);
    TrimStep([D6, D1, D2, D0, D3], TAIL5, 0, D7, 0, [D6, D1, D2, D0], [D7, D6, D1, D2, D0]);
  }

  /** testLOPOverflowCheck: the tail-trim inserts that land last, and one that lands first. */
  lemma LopTailTrimEnds()
    ensures S.LopInsert(Lst([D7, D6, D1, D2, D0], TAIL5), LKEY, -1, D8, None) == Ok(Lst([D6, D1, D2, D0, D8], TAIL5))
    ensures S.LopInsert(Lst([D6, D1, D2, D0, D8], TAIL5), LKEY, 4, D9, None) == Ok(Lst([D1, D2, D0, D8, D9], TAIL5))
    ensures S.LopInsert(Lst([D1, D2, D0, D8, D9], TAIL5), LKEY, -5, D3, None) == Ok(Lst([D3, D1, D2, D0, D8], TAIL5))
  {
    assert [D7, D6, D1, D2, D0][1..] == [D6, D1, D2, D0];
    assert [D6, D1, D2, D0, D8][1..] == [D1, D2, D0, D8];
    assert [D1, D2, D0, D8, D9][..4] == [D1, D2, D0, D8];
    TrimStep([D7, D6, D1, D2, D0], TAIL5, -1, D8, 4, [D6, D1, D2, D0], [D6, D1, D2, D0, D8]);
    TrimStep([D6, D1, D2, D0, D8], TAIL5, 4, D9, 4, [D1, D2, D0, D8], [D1, D2, D0, D8, D9]);
    TrimStep([D1, D2, D0, D8, D9], TAIL5, -5, D3, 0, [D1, D2, D0, D8], [D3, D1, D2, D0, D8]);
  }

  /**
   testLOPOverflowCheck: switching to head-trim (maxcount 0 leaves the maxcount
   as it is) makes a full insert drop the first element unless the new value
   goes first, which drops the last.
   */
  lemma LopHeadTrimSession()
    ensures S.SetAttr(Lst([D3, D1, D2, D0, D8], TAIL5), LKEY, S.AttrChange(Some(-2), None, None, Some(HeadTrim)))
         == Ok(Lst([D3, D1, D2, D0, D8], HEAD5))
    ensures S.LopInsert(Lst([D3, D1, D2, D0, D8], HEAD5), LKEY, 2, DS, None) == Ok(Lst([D1, D2, DS, D0, D8], HEAD5))
    ensures S.LopInsert(Lst([D1, D2, DS, D0, D8], HEAD5), LKEY, 0, DT, None) == Ok(Lst([DT, D1, D2, DS, D0], HEAD5))
  {
    assert [D3, D1, D2, D0, D8][1..] == [D1, D2, D0, D8];
    assert [D1, D2, DS, D0, D8][..4] == [D1, D2, DS, D0];
    Reattribute([D3, D1, D2, D0, D8], TAIL5, S.AttrChange(Some(-2), None, None, Some(HeadTrim)));
    assert [D1, D2, D0, D8][..2] == [D1, D2] && [D1, D2, D0, D8][2..] == [D0, D8];
    TrimStep([D3, D1, D2, D0, D8], HEAD5, 2, DS, 2, [D1, D2, D0, D8], [D1, D2, DS, D0, D8]);
    TrimStep([D1, D2, DS, D0, D8], HEAD5, 0, DT, 0, [D1, D2, DS, D0], [DT, D1, D2, DS, D0]);
  }

  const LAST: seq<Bytes> := [DT, D1, D2, DS, D0]

  /**
   testLOPOverflowCheck: under the error action every insert into the full
   list is OVERFLOW, and the trims that only b-trees use are BADVALUE for a list.
   */
  lemma LopErrorSession()
    ensures S.SetAttr(Lst(LAST, HEAD5), LKEY, S.AttrChange(Some(-2), None, None, Some(OvflError))) == Ok(Lst(LAST, ERR5))
    ensures S.GetAttr(Lst(LAST, ERR5), LKEY).Ok? && S.GetAttr(Lst(LAST, ERR5), LKEY).value.ovfl == Some(OvflError)
    ensures S.LopInsert(Lst(LAST, ERR5), LKEY, 2, DU, None) == Err(Overflow)
    ensures S.LopInsert(Lst(LAST, ERR5), LKEY, 0, DU, None) == Err(Overflow)
    ensures S.LopInsert(Lst(LAST, ERR5), LKEY, -1, DU, None) == Err(Overflow)
    ensures S.SetAttr(Lst(LAST, ERR5), LKEY, S.AttrChange(Some(-2), None, None, Some(SmallestTrim))) == Err(BadValue)
    ensures S.SetAttr(Lst(LAST, ERR5), LKEY, S.AttrChange(Some(-2), None, None, Some(LargestTrim))) == Err(BadValue)
  {
    Reattribute(LAST, HEAD5, S.AttrChange(Some(-2), None, None, Some(OvflError)));
  }

  // ----------------------------------------------------------------- sets

  /** "skey" */
  const SKEY: Bytes := [115, 107, 101, 121]

  /** The attributes of the set the tests create with flags 13: error on overflow, the default maxcount. */
  const SA: Attrs := Attrs(13, 0, MAX_COUNT, OvflError, 0)

  /** A store holding only the set `l` under "skey". */
  function SetOf(l: seq<Bytes>, a: Attrs): Store {
    map[SKEY := SetItem(l, a)]
  }

  lemma SetCreating(spec: CreateSpec, v: Bytes)
    ensures S.SopInsert(map[], SKEY, v, Some(spec)) == Ok(SetOf([v], NewAttrs(spec, SetType)))
  {
    var a := NewAttrs(spec, SetType);
    var none: Store := map[];
    assert S.Target(none, SKEY, SetType, Some(spec)) == Ok(SetItem([], a));
    assert [] + [v] == [v];
    assert none[SKEY := SetItem([v], a)] == SetOf([v], a);
  }

  lemma SetAdd(l: seq<Bytes>, a: Attrs, v: Bytes, r: seq<Bytes>)
    requires v !in l && |l| < a.maxcount && r == l + [v]
    ensures S.SopInsert(SetOf(l, a), SKEY, v, None) == Ok(SetOf(r, a))
  {
    assert SetOf(l, a)[SKEY := SetItem(r, a)] == SetOf(r, a);
  }

  /** Removing the member at position `i`, the first holding `v`, from a set that keeps other members. */
  lemma SetDrop(l: seq<Bytes>, a: Attrs, v: Bytes, i: nat, r: seq<Bytes>)
    requires i < |l| && l[i] == v && v !in l[..i] && r == l[..i] + l[i + 1..] && |r| > 0
    ensures S.SopDelete(SetOf(l, a), SKEY, v) == Ok(SetOf(r, a))
  {
    SetRemoveAt(l, v, i, r);
    assert S.Lookup(SetOf(l, a), SKEY, SetType) == Ok(SetItem(l, a));
    SetReplaced(l, r, a);
  }

  lemma SetRemoveAt(l: seq<Bytes>, v: Bytes, i: nat, r: seq<Bytes>)
    requires i < |l| && l[i] == v && v !in l[..i] && r == l[..i] + l[i + 1..]
    ensures SetRemove(l, v) == Ok(r)
  {
    assert IndexOf(l, v) == i;
  }

  lemma SetReplaced(l: seq<Bytes>, r: seq<Bytes>, a: Attrs)
    ensures S.PutBack(SetOf(l, a), SKEY, SetItem(r, a), false) == SetOf(r, a)
  {
    assert SetOf(l, a)[SKEY := SetItem(r, a)] == SetOf(r, a);
  }

  /** testSOPInsertGet: an insert with the create flag on a missing key creates the set with flags 13. */
  lemma SopCreatingInsert()
    ensures S.SopInsert(map[], SKEY, D0, Some(CreateSpec(13, 0, 0))) == Ok(SetOf([D0], SA))
  {
    SetCreating(CreateSpec(13, 0, 0), D0);
  }

  /** testSOPInsertGet: four more inserts of new values. */
  lemma SopInsertSession()
    ensures S.SopInsert(SetOf([D0], SA), SKEY, D1, None) == Ok(SetOf([D0, D1], SA))
    ensures S.SopInsert(SetOf([D0, D1], SA), SKEY, D2, None) == Ok(SetOf([D0, D1, D2], SA))
    ensures S.SopInsert(SetOf([D0, D1, D2], SA), SKEY, D3, None) == Ok(SetOf([D0, D1, D2, D3], SA))
    ensures S.SopInsert(SetOf([D0, D1, D2, D3], SA), SKEY, D4, None) == Ok(SetOf(L5, SA))
  {
    SetAdd([D0], SA, D1, [D0, D1]);
    SetAdd([D0, D1], SA, D2, [D0, D1, D2]);
    SetAdd([D0, D1, D2], SA, D3, [D0, D1, D2, D3]);
    SetAdd([D0, D1, D2, D3], SA, D4, L5);
  }

  /** testSOPInsertGet: the count, a get of all members, and membership queries. */
  lemma SopReadSession()
    ensures S.GetAttr(SetOf(L5, SA), SKEY).Ok? && S.GetAttr(SetOf(L5, SA), SKEY).value.count == 5
    ensures S.SopGet(SetOf(L5, SA), SKEY, 10, false) == Ok(S.Fetched(13, L5, SetOf(L5, SA)))
    ensures S.SopExist(SetOf(L5, SA), SKEY, D2) == Ok(1)
    ensures S.SopExist(SetOf(L5, SA), SKEY, D0) == Ok(1)
    ensures S.SopExist(SetOf(L5, SA), SKEY, D8) == Ok(0)
    ensures S.Delete(SetOf(L5, SA), SKEY) == Ok(map[])
  {
    assert D8 !in L5;
  }

  const EVENS: seq<Bytes> := [D0, D2, D4, D6, D8]

  /**
   testSOPInsertDeletePop: a member inserted again is ELEM_EXISTS; after the
   odd values are deleted, deleting one again or a value never inserted is
   ELEM_NOENT, and a get with delete of every member removes the set.
   */
  lemma SopDeletePopSession()
    ensures S.SopInsert(SetOf(L10, SA), SKEY, D3, None) == Err(ElemExists)
    ensures S.GetAttr(SetOf(L10, SA), SKEY).Ok? && S.GetAttr(SetOf(L10, SA), SKEY).value.count == 10
    ensures S.SopDelete(SetOf(EVENS, SA), SKEY, D3) == Err(ElemNoent)
    ensures S.SopDelete(SetOf(EVENS, SA), SKEY, [100, 97, 116, 117, 109, 49, 48]) == Err(ElemNoent)
    ensures S.SopGet(SetOf(EVENS, SA), SKEY, 10, true) == Ok(S.Fetched(13, EVENS, map[]))
  {
    assert D3 in L10;
    assert D3 !in EVENS;
    assert S.PutBack(SetOf(EVENS, SA), SKEY, SetItem([], SA), true) == map[];
  }

  /** testSOPInsertDeletePop: deleting the odd values one by one. */
  lemma SopDeleteOdds()
    ensures S.SopDelete(SetOf(L10, SA), SKEY, D1) == Ok(SetOf([D0, D2, D3, D4, D5, D6, D7, D8, D9], SA))
    ensures S.SopDelete(SetOf([D0, D2, D3, D4, D5, D6, D7, D8, D9], SA), SKEY, D3) == Ok(SetOf([D0, D2, D4, D5, D6, D7, D8, D9], SA))
    ensures S.SopDelete(SetOf([D0, D2, D4, D5, D6, D7, D8, D9], SA), SKEY, D5) == Ok(SetOf([D0, D2, D4, D6, D7, D8, D9], SA))
    ensures S.SopDelete(SetOf([D0, D2, D4, D6, D7, D8, D9], SA), SKEY, D7) == Ok(SetOf([D0, D2, D4, D6, D8, D9], SA))
    ensures S.SopDelete(SetOf([D0, D2, D4, D6, D8, D9], SA), SKEY, D9) == Ok(SetOf(EVENS, SA))
  {
    OddCuts();
    SetDrop(L10, SA, D1, 1, [D0, D2, D3, D4, D5, D6, D7, D8, D9]);
    SetDrop([D0, D2, D3, D4, D5, D6, D7, D8, D9], SA, D3, 2, [D0, D2, D4, D5, D6, D7, D8, D9]);
    SetDrop([D0, D2, D4, D5, D6, D7, D8, D9], SA, D5, 3, [D0, D2, D4, D6, D7, D8, D9]);
    SetDrop([D0, D2, D4, D6, D7, D8, D9], SA, D7, 4, [D0, D2, D4, D6, D8, D9]);
    SetDrop([D0, D2, D4, D6, D8, D9], SA, D9, 5, EVENS);
  }

  /** The positions and remainders of the odd-value deletes. */
  lemma OddCuts()
    ensures D1 !in L10[..1] && L10[..1] + L10[2..] == [D0, D2, D3, D4, D5, D6, D7, D8, D9]
    ensures var l := [D0, D2, D3, D4, D5, D6, D7, D8, D9]; D3 !in l[..2] && l[..2] + l[3..] == [D0, D2, D4, D5, D6, D7, D8, D9]
    ensures var l := [D0, D2, D4, D5, D6, D7, D8, D9]; D5 !in l[..3] && l[..3] + l[4..] == [D0, D2, D4, D6, D7, D8, D9]
    ensures var l := [D0, D2, D4, D6, D7, D8, D9]; D7 !in l[..4] && l[..4] + l[5..] == [D0, D2, D4, D6, D8, D9]
    ensures var l := [D0, D2, D4, D6, D8, D9]; D9 !in l[..5] && l[..5] + l[6..] == EVENS
  {
    assert L10[..1] == [D0] && L10[2..] == [D2, D3, D4, D5, D6, D7, D8, D9];
    var a := [D0, D2, D3, D4, D5, D6, D7, D8, D9];
    assert a[..2] == [D0, D2] && a[3..] == [D4, D5, D6, D7, D8, D9];
    var b := [D0, D2, D4, D5, D6, D7, D8, D9];
    assert b[..3] == [D0, D2, D4] && b[4..] == [D6, D7, D8, D9];
    var c := [D0, D2, D4, D6, D7, D8, D9];
    assert c[..4] == [D0, D2, D4, D6] && c[5..] == [D8, D9];
    var d := [D0, D2, D4, D6, D8, D9];
    assert d[..5] == EVENS && d[6..] == [];
  }

  /** The set of testSOPOverflowCheck once its maxcount is 5. */
  const SA5: Attrs := Attrs(13, -2, 5, OvflError, 0)

  /**
   testSOPOverflowCheck: a set limited to five members refuses a sixth with
   OVERFLOW, and every trim action is BADVALUE for a set.
   */
  lemma SopOverflowSession()
    ensures S.SetAttr(SetOf([D1], SA), SKEY, S.AttrChange(Some(-2), Some(5), None, None)) == Ok(SetOf([D1], SA5))
    ensures S.GetAttr(SetOf([D1], SA5), SKEY) == Ok(S.AttrReport(13, -2, 1, 5, 0, SetType, Some(OvflError)))
    ensures S.SopGet(SetOf(FULL, SA5), SKEY, 5, false) == Ok(S.Fetched(13, FULL, SetOf(FULL, SA5)))
    ensures S.SopInsert(SetOf(FULL, SA5), SKEY, D6, None) == Err(Overflow)
    ensures forall t: OvflAction | t != OvflError ::
      S.SetAttr(SetOf(FULL, SA5), SKEY, S.AttrChange(Some(-2), None, None, Some(t))) == Err(BadValue)
  {
    assert SetOf([D1], SA)[SKEY := SetItem([D1], SA5)] == SetOf([D1], SA5);
    assert D6 !in FULL;
  }

  /** testSOPOverflowCheck: the four inserts that fill the set. */
  lemma SopOverflowFill()
    ensures S.SopInsert(SetOf([D1], SA5), SKEY, D2, None) == Ok(SetOf([D1, D2], SA5))
    ensures S.SopInsert(SetOf([D1, D2], SA5), SKEY, D3, None) == Ok(SetOf([D1, D2, D3], SA5))
    ensures S.SopInsert(SetOf([D1, D2, D3], SA5), SKEY, D4, None) == Ok(SetOf([D1, D2, D3, D4], SA5))
    ensures S.SopInsert(SetOf([D1, D2, D3, D4], SA5), SKEY, D5, None) == Ok(SetOf(FULL, SA5))
  {
    SetAdd([D1], SA5, D2, [D1, D2]);
    SetAdd([D1, D2], SA5, D3, [D1, D2, D3]);
    SetAdd([D1, D2, D3], SA5, D4, [D1, D2, D3, D4]);
    SetAdd([D1, D2, D3, D4], SA5, D5, FULL);
  }

  /**
   testSOPInsertFailCheck, testSOPNotFoundError and testSOPNotSETError: every
   set command on a missing key without create is NOT_FOUND, and on a plain
   value, a list or a b-tree is BADTYPE.
   */
  lemma SopLookupErrors(st: Store, key: Bytes, v: Bytes, count: nat, delete: bool)
    requires key !in st || !st[key].SetItem?
    ensures key !in st ==> S.SopInsert(st, key, v, None) == Err(NotFound) && S.SopDelete(st, key, v) == Err(NotFound)
    ensures key !in st ==> S.SopExist(st, key, v) == Err(NotFound) && S.SopGet(st, key, count, delete) == Err(NotFound)
    ensures key in st ==> S.SopInsert(st, key, v, None) == Err(BadType) && S.SopDelete(st, key, v) == Err(BadType)
    ensures key in st ==> S.SopExist(st, key, v) == Err(BadType) && S.SopGet(st, key, count, delete) == Err(BadType)
  {
  }

  // -------------------------------------------------------------- b-trees

  /** "bkey" */
  const BKEY: Bytes := [98, 107, 101, 121]

  /** The tests store "datum<i>" under bkey 10 * i. */
  const K0: BElem := BElem(0, D0)
  const K1: BElem := BElem(10, D1)
  const K2: BElem := BElem(20, D2)
  const K3: BElem := BElem(30, D3)
  const K4: BElem := BElem(40, D4)
  const K5: BElem := BElem(50, D5)
  const K6: BElem := BElem(60, D6)
  const K7: BElem := BElem(70, D7)
  const K8: BElem := BElem(80, D8)
  const K9: BElem := BElem(90, D9)

  /** A store holding only the b-tree `t` under "bkey". */
  function Tree(t: seq<BElem>, a: Attrs): Store {
    map[BKEY := BTreeItem(t, a)]
  }

  /** A filter whose range holds every bkey keeps the whole tree. */
  lemma {:induction false} WithinWhole(t: seq<BElem>, lo: int, hi: int)
    requires forall x :: x in t ==> lo <= x.bkey <= hi
    ensures Within(t, lo, hi) == t
  {
    if |t| > 0 {
      WithinWhole(t[1..], lo, hi);
      assert t == [t[0]] + t[1..];
    }
  }

  /** A filter that leaves out only the first element keeps the rest. */
  lemma WithinDropFirst(t: seq<BElem>, lo: int, hi: int)
    requires |t| > 0 && !(lo <= t[0].bkey <= hi)
    requires forall x :: x in t[1..] ==> lo <= x.bkey <= hi
    ensures Within(t, lo, hi) == t[1..]
  {
    WithinWhole(t[1..], lo, hi);
  }

  /** A filter that leaves out only the last element keeps the rest. */
  lemma WithinDropLast(t: seq<BElem>, lo: int, hi: int)
    requires |t| > 0 && !(lo <= t[|t| - 1].bkey <= hi)
    requires forall x :: x in t[..|t| - 1] ==> lo <= x.bkey <= hi
    ensures Within(t, lo, hi) == t[..|t| - 1]
  {
    assert t == t[..|t| - 1] + [t[|t| - 1]];
    WithinAppend(t[..|t| - 1], [t[|t| - 1]], lo, hi);
    WithinWhole(t[..|t| - 1], lo, hi);
  }

  /** A filter whose range holds no bkey keeps nothing. */
  lemma {:induction false} WithinNone(t: seq<BElem>, lo: int, hi: int)
    requires forall x :: x in t ==> !(lo <= x.bkey <= hi)
    ensures Within(t, lo, hi) == []
  {
    if |t| > 0 {
      WithinNone(t[1..], lo, hi);
    }
  }

  /** Placing `e` in a tree whose bkeys all lie below it and then all above it puts it between the two runs. */
  lemma {:induction false} InsertBetween(a: seq<BElem>, b: seq<BElem>, e: BElem)
    requires forall x :: x in a ==> x.bkey < e.bkey
    requires |b| > 0 ==> e.bkey < b[0].bkey
    ensures InsertSorted(a + b, e) == a + ([e] + b)
  {
    if |a| > 0 {
      InsertBetween(a[1..], b, e);
      InsertPast(a[0], a[1..] + b, e);
      Regroup(a, [e] + b);
      Regroup(a, b);
    } else {
      InsertFront(b, e);
      assert a == [];
    }
  }

  lemma Regroup(a: seq<BElem>, b: seq<BElem>)
    requires |a| > 0
    ensures a + b == [a[0]] + (a[1..] + b)
  {
  }

  /** An element below the new bkey stays in front of it. */
  lemma InsertPast(x: BElem, t: seq<BElem>, e: BElem)
    requires x.bkey < e.bkey
    ensures InsertSorted([x] + t, e) == [x] + InsertSorted(t, e)
  {
    assert ([x] + t)[1..] == t;
  }

  /** A bkey below the whole tree goes first. */
  lemma InsertFront(b: seq<BElem>, e: BElem)
    requires |b| > 0 ==> e.bkey < b[0].bkey
    ensures InsertSorted(b, e) == [e] + b
  {
  }

  /** Taking a selection away from the front of a tree leaves what follows it. */
  lemma {:induction false} WithoutFront(sel: seq<BElem>, rest: seq<BElem>, got: seq<BElem>)
    requires forall x :: x in sel ==> x in got
    requires forall x :: x in rest ==> x !in got
    ensures Without(sel + rest, got) == rest
  {
    if |sel| > 0 {
      WithoutFront(sel[1..], rest, got);
      assert (sel + rest)[1..] == sel[1..] + rest;
      assert sel[0] in got;
    } else {
      assert sel + rest == rest;
      WithoutNothing(rest, got);
    }
  }

  lemma {:induction false} WithoutNothing(t: seq<BElem>, got: seq<BElem>)
    requires forall x :: x in t ==> x !in got
    ensures Without(t, got) == t
  {
    if |t| > 0 {
      WithoutNothing(t[1..], got);
      assert t == [t[0]] + t[1..];
    }
  }

  /** An insert the b-tree logic accepts, as the store sees it. */
  lemma TreeStep(t: seq<BElem>, a: Attrs, e: BElem, r: seq<BElem>)
    requires BTreeInsert(t, a, e) == Ok(r)
    ensures S.BopInsert(Tree(t, a), BKEY, e, None) == Ok(Tree(r, a))
  {
    assert S.Target(Tree(t, a), BKEY, BTreeType, None) == Ok(BTreeItem(t, a));
    TreeReplaced(t, r, a);
  }

  lemma TreeReplaced(t: seq<BElem>, r: seq<BElem>, a: Attrs)
    ensures S.PutBack(Tree(t, a), BKEY, BTreeItem(r, a), false) == Tree(r, a)
  {
    assert Tree(t, a)[BKEY := BTreeItem(r, a)] == Tree(r, a);
  }

  /** An insert below the tree's limits with no bkey window, of a bkey above every other: the element goes last. */
  lemma TreeAppend(t: seq<BElem>, a: Attrs, e: BElem)
    requires forall x :: x in t ==> x.bkey < e.bkey
    requires |t| < a.maxcount && a.maxbkeyrange == 0
    ensures S.BopInsert(Tree(t, a), BKEY, e, None) == Ok(Tree(t + [e], a))
  {
    AppendInsert(t, a, e);
    TreeStep(t, a, e, t + [e]);
  }

  lemma AppendInsert(t: seq<BElem>, a: Attrs, e: BElem)
    requires forall x :: x in t ==> x.bkey < e.bkey
    requires |t| < a.maxcount && a.maxbkeyrange == 0
    ensures BTreeInsert(t, a, e) == Ok(t + [e])
  {
    InsertBetween(t, [], e);
    assert t + [] == t && t + ([e] + []) == t + [e];
    assert !HasKey(t, e.bkey);
  }

  /**
   An insert into a full tree with no bkey window evicts the end its trim
   action names; the new element lands between the `lo` and `hi` runs of what is kept.
   */
  lemma TreeTrim(t: seq<BElem>, a: Attrs, e: BElem, lo: seq<BElem>, hi: seq<BElem>)
    requires (forall x :: x in t ==> x.bkey != e.bkey) && |t| == a.maxcount && a.maxbkeyrange == 0
    requires (a.ovfl == SmallestTrim && e.bkey >= First(t) && lo + hi == t[1..]) ||
             (a.ovfl == LargestTrim && e.bkey <= Last(t) && lo + hi == t[..|t| - 1])
    requires (forall x :: x in lo ==> x.bkey < e.bkey) && (|hi| > 0 ==> e.bkey < hi[0].bkey)
    ensures S.BopInsert(Tree(t, a), BKEY, e, None) == Ok(Tree(lo + ([e] + hi), a))
  {
    TrimInsert(t, a, e, lo, hi);
    TreeStep(t, a, e, lo + ([e] + hi));
  }

  lemma TrimInsert(t: seq<BElem>, a: Attrs, e: BElem, lo: seq<BElem>, hi: seq<BElem>)
    requires (forall x :: x in t ==> x.bkey != e.bkey) && |t| == a.maxcount && a.maxbkeyrange == 0
    requires (a.ovfl == SmallestTrim && e.bkey >= First(t) && lo + hi == t[1..]) ||
             (a.ovfl == LargestTrim && e.bkey <= Last(t) && lo + hi == t[..|t| - 1])
    requires (forall x :: x in lo ==> x.bkey < e.bkey) && (|hi| > 0 ==> e.bkey < hi[0].bkey)
    ensures BTreeInsert(t, a, e) == Ok(lo + ([e] + hi))
  {
    InsertBetween(lo, hi, e);
    assert FitCount(t, a.maxcount, a.ovfl, e.bkey) == Ok(lo + hi);
    assert !HasKey(lo + hi, e.bkey);
  }

  /** An insert into a full tree that its trim action cannot make room for: the bkey lies beyond the end it would evict. */
  lemma TreeOutOfRange(t: seq<BElem>, a: Attrs, e: BElem)
    requires (forall x :: x in t ==> x.bkey != e.bkey) && |t| == a.maxcount && a.maxbkeyrange == 0
    requires (a.ovfl == SmallestTrim && e.bkey < First(t)) || (a.ovfl == LargestTrim && e.bkey > Last(t))
    ensures S.BopInsert(Tree(t, a), BKEY, e, None) == Err(BkeyOor)
  {
    assert !HasKey(t, e.bkey);
    assert BTreeInsert(t, a, e) == Err(BkeyOor);
  }

  /** An insert into a full tree whose overflow action is error is refused with OVERFLOW. */
  lemma TreeFull(t: seq<BElem>, a: Attrs, e: BElem)
    requires (forall x :: x in t ==> x.bkey != e.bkey) && |t| >= a.maxcount && a.ovfl == OvflError
    ensures S.BopInsert(Tree(t, a), BKEY, e, None) == Err(Overflow)
  {
    assert !HasKey(t, e.bkey);
  }

  lemma TreeCreating(spec: CreateSpec, e: BElem)
    ensures S.BopInsert(map[], BKEY, e, Some(spec)) == Ok(Tree([e], NewAttrs(spec, BTreeType)))
  {
    var a := NewAttrs(spec, BTreeType);
    var none: Store := map[];
    assert S.Target(none, BKEY, BTreeType, Some(spec)) == Ok(BTreeItem([], a));
    assert BTreeInsert([], a, e) == Ok([e]);
    assert none[BKEY := BTreeItem([e], a)] == Tree([e], a);
  }

  /** A setattr the tree accepts replaces its attributes and leaves its elements. */
  lemma TreeReattribute(t: seq<BElem>, a: Attrs, ch: S.AttrChange)
    requires !S.Inapplicable(BTreeItem(t, a), ch) && !S.Refused(BTreeItem(t, a), ch)
    ensures S.SetAttr(Tree(t, a), BKEY, ch) == Ok(Tree(t, S.Apply(a, ch)))
  {
    assert Tree(t, a)[BKEY := BTreeItem(t, S.Apply(a, ch))] == Tree(t, S.Apply(a, ch));
  }

  /** A read and a count over an ascending range the whole of `got` answers. */
  lemma TreeRead(t: seq<BElem>, a: Attrs, from: nat, to: nat, got: seq<BElem>)
    requires from <= to && Within(t, from, to) == got && |got| > 0
    ensures S.BopGet(Tree(t, a), BKEY, from, to, 0, 0, false, false) == Ok(S.Fetched(a.flags, got, Tree(t, a)))
    ensures S.BopCount(Tree(t, a), BKEY, from, to) == Ok((a.flags, |got|))
  {
    assert Page(got, 0, 0) == got;
  }

  /** A get with delete over an ascending range that takes the front of the tree. */
  lemma TreeTake(got: seq<BElem>, rest: seq<BElem>, a: Attrs, from: nat, to: nat, drop: bool)
    requires Within(got + rest, from, to) == got && |got| > 0 && from <= to
    requires forall x :: x in rest ==> x !in got
    ensures S.BopGet(Tree(got + rest, a), BKEY, from, to, 0, 0, true, drop)
         == Ok(S.Fetched(a.flags, got, if drop && |rest| == 0 then map[] else Tree(rest, a)))
  {
    assert Page(got, 0, 0) == got;
    WithoutFront(got, rest, got);
    assert S.PutBack(Tree(got + rest, a), BKEY, BTreeItem(rest, a), drop && |rest| == 0)
        == (if drop && |rest| == 0 then map[] else Tree(rest, a));
  }

  /** A delete of every bkey in an ascending range that covers the front of the tree. */
  lemma TreeCut(sel: seq<BElem>, rest: seq<BElem>, a: Attrs, from: nat, to: nat)
    requires Within(sel + rest, from, to) == sel && |sel| > 0 && from <= to
    requires forall x :: x in rest ==> x !in sel
    ensures S.BopDelete(Tree(sel + rest, a), BKEY, from, to, 0, false) == Ok(Tree(rest, a))
  {
    assert Page(sel, 0, 0) == sel;
    assert Selection(sel + rest, from, to, 0, 0) == sel;
    WithoutFront(sel, rest, sel);
    assert S.PutBack(Tree(sel + rest, a), BKEY, BTreeItem(rest, a), false) == Tree(rest, a);
  }

  /** The b-tree testEmptyCollectionOfBTreeType creates: flags 11, the largest maxcount, smallest-trim. */
  const BA: Attrs := Attrs(11, 0, MAX_COUNT, SmallestTrim, 0)

  const T5: seq<BElem> := [K0, K1, K2, K3, K4]

  const T3: seq<BElem> := [K0, K1, K2]

  /**
   testBOPInsertDeletePop hands maxcount -1 to every `bop_insert`. The
   client packs maxcount into an unsigned 32-bit field, so each of those
   inserts raises in the client and sends nothing, whatever the bkey.
   */
  lemma BulkInsertMaxcountRefused(bkey: int)
    ensures Codec.BopInsertExtras(bkey, 11, 0, -1, 1).Err?
  {
  }

  /** testEmptyCollectionOfBTreeType: a create with maxcount -1 gets the largest maxcount and smallest-trim. */
  lemma BopCreateEmpty()
    ensures S.Create(map[], BKEY, BTreeType, CreateSpec(11, 0, -1), None) == Ok(Tree([], BA))
  {
    assert map[][BKEY := BTreeItem([], BA)] == Tree([], BA);
  }

  /** testEmptyCollectionOfBTreeType: inserts in bkey order. */
  lemma BopFillSession()
    ensures S.BopInsert(Tree([], BA), BKEY, K0, None) == Ok(Tree([K0], BA))
    ensures S.BopInsert(Tree([K0], BA), BKEY, K1, None) == Ok(Tree([K0, K1], BA))
    ensures S.BopInsert(Tree([K0, K1], BA), BKEY, K2, None) == Ok(Tree(T3, BA))
  {
    assert [] + [K0] == [K0] && [K0] + [K1] == [K0, K1];
    assert [K0, K1] + [K2] == T3;
    TreeAppend([], BA, K0);
    TreeAppend([K0], BA, K1);
    TreeAppend([K0, K1], BA, K2);
  }

  /** testEmptyCollectionOfBTreeType: two more inserts complete the five-element tree. */
  lemma BopFillRest()
    ensures S.BopInsert(Tree(T3, BA), BKEY, K3, None) == Ok(Tree(T3 + [K3], BA))
    ensures S.BopInsert(Tree(T3 + [K3], BA), BKEY, K4, None) == Ok(Tree(T5, BA))
  {
    assert T3 + [K3] + [K4] == T5;
    TreeAppend(T3, BA, K3);
    TreeAppend(T3 + [K3], BA, K4);
  }

  /** testEmptyCollectionOfBTreeType: a count and a read of the whole five-element tree. */
  lemma BopReadAll()
    ensures S.BopCount(Tree(T5, BA), BKEY, 0, 40) == Ok((11, 5))
    ensures S.BopGet(Tree(T5, BA), BKEY, 0, 40, 0, 0, false, false) == Ok(S.Fetched(11, T5, Tree(T5, BA)))
  {
    WholeRange();
    TreeRead(T5, BA, 0, 40, T5);
  }

  lemma WholeRange()
    ensures Within(T5, 0, 40) == T5
  {
    assert forall x :: x in T5 ==> 0 <= x.bkey <= 40;
    WithinWhole(T5, 0, 40);
  }

  /** The range 0..20 holds exactly the first three elements of the five-element tree. */
  lemma FrontRange()
    ensures T5 == T3 + [K3, K4]
    ensures Within(T5, 0, 20) == T3
  {
    assert T5 == T3 + [K3, K4];
    WithinAppend(T3, [K3, K4], 0, 20);
    BelowRange();
  }

  lemma BelowRange()
    ensures Within(T3, 0, 20) == T3 && Within([K3, K4], 0, 20) == []
  {
    WithinWhole(T3, 0, 20);
    WithinNone([K3, K4], 0, 20);
  }

  /** testEmptyCollectionOfBTreeType: a delete of the bkeys 0..20 leaves the elements 30 and 40. */
  lemma BopDeleteFront()
    ensures S.BopDelete(Tree(T5, BA), BKEY, 0, 20, 0, false) == Ok(Tree([K3, K4], BA))
  {
    FrontRange();
    TreeCut(T3, [K3, K4], BA, 0, 20);
  }

  /**
   testEmptyCollectionOfBTreeType: counting and then taking the two remaining
   elements with delete; without drop-if-empty the emptied tree stays.
   */
  lemma BopTakeRest()
    ensures S.BopCount(Tree([K3, K4], BA), BKEY, 20, 40) == Ok((11, 2))
    ensures S.BopGet(Tree([K3, K4], BA), BKEY, 20, 40, 0, 0, true, false) == Ok(S.Fetched(11, [K3, K4], Tree([], BA)))
  {
    var hi := [K3, K4];
    WithinWhole(hi, 20, 40);
    assert hi + [] == hi;
    TreeRead(hi, BA, 20, 40, hi);
    TreeTake(hi, [], BA, 20, 40, false);
  }

  /** testEmptyCollectionOfBTreeType: on the emptied tree a delete or a read is ELEM_NOENT, and the attributes remain. */
  lemma BopEmptyTree()
    ensures S.BopDelete(Tree([], BA), BKEY, 0, 20, 0, false) == Err(ElemNoent)
    ensures S.BopGet(Tree([], BA), BKEY, 0, 20, 0, 0, false, false) == Err(ElemNoent)
    ensures S.GetAttr(Tree([], BA), BKEY) == Ok(S.AttrReport(11, 0, 0, MAX_COUNT, 0, BTreeType, Some(SmallestTrim)))
  {
  }

  /** testEmptyCollectionOfBTreeType: after refilling the emptied tree, taking everything with drop-if-empty removes the key. */
  lemma BopDropSession()
    ensures S.BopCount(Tree(T3, BA), BKEY, 0, 50) == Ok((11, 3))
    ensures S.BopGet(Tree(T3, BA), BKEY, 0, 50, 0, 0, true, true) == Ok(S.Fetched(11, T3, map[]))
  {
    assert T3 + [] == T3;
    WithinWhole(T3, 0, 50);
    TreeRead(T3, BA, 0, 50, T3);
    TreeTake(T3, [], BA, 0, 50, true);
  }

  // ------------------------------------------------------ b-tree overflow

  /** The tree testBOPOverflowCheck creates with flags 11 and maxcount 1000, then limits to five elements. */
  const B1000: Attrs := Attrs(11, 0, 1000, SmallestTrim, 0)
  const SMALL5: Attrs := Attrs(11, 0, 5, SmallestTrim, 0)
  const LARGE5: Attrs := Attrs(11, 0, 5, LargestTrim, 0)
  const ERROR5: Attrs := Attrs(11, 0, 5, OvflError, 0)

  const ODD: seq<BElem> := [K1, K3, K5, K7, K9]

  /**
   testBOPOverflowCheck: the first insert creates the tree; a setattr naming
   only the maxcount leaves smallest-trim, the b-tree default, in place.
   */
  lemma BopOverflowSetup()
    ensures S.BopInsert(map[], BKEY, K1, Some(CreateSpec(11, 0, 1000))) == Ok(Tree([K1], B1000))
    ensures S.SetAttr(Tree([K1], B1000), BKEY, S.AttrChange(None, Some(5), None, None)) == Ok(Tree([K1], SMALL5))
    ensures S.GetAttr(Tree([K1], SMALL5), BKEY) == Ok(S.AttrReport(11, 0, 1, 5, 0, BTreeType, Some(SmallestTrim)))
  {
    TreeCreating(CreateSpec(11, 0, 1000), K1);
    TreeReattribute([K1], B1000, S.AttrChange(None, Some(5), None, None));
  }

  /** testBOPOverflowCheck: four inserts in bkey order fill the tree. */
  lemma BopOverflowFill()
    ensures S.BopInsert(Tree([K1], SMALL5), BKEY, K3, None) == Ok(Tree([K1, K3], SMALL5))
    ensures S.BopInsert(Tree([K1, K3], SMALL5), BKEY, K5, None) == Ok(Tree([K1, K3, K5], SMALL5))
    ensures S.BopInsert(Tree([K1, K3, K5], SMALL5), BKEY, K7, None) == Ok(Tree([K1, K3, K5, K7], SMALL5))
    ensures S.BopInsert(Tree([K1, K3, K5, K7], SMALL5), BKEY, K9, None) == Ok(Tree(ODD, SMALL5))
  {
    assert [K1] + [K3] == [K1, K3] && [K1, K3] + [K5] == [K1, K3, K5];
    assert [K1, K3, K5] + [K7] == [K1, K3, K5, K7] && [K1, K3, K5, K7] + [K9] == ODD;
    TreeAppend([K1], SMALL5, K3);
    TreeAppend([K1, K3], SMALL5, K5);
    TreeAppend([K1, K3, K5], SMALL5, K7);
    TreeAppend([K1, K3, K5, K7], SMALL5, K9);
  }

  /** testBOPOverflowCheck: the full tree counts and reads as its five elements. */
  lemma BopOverflowRead()
    ensures S.BopCount(Tree(ODD, SMALL5), BKEY, 0, 1000) == Ok((11, 5))
    ensures S.BopGet(Tree(ODD, SMALL5), BKEY, 0, 100, 0, 0, false, false) == Ok(S.Fetched(11, ODD, Tree(ODD, SMALL5)))
  {
    OddWithin(1000);
    OddWithin(100);
    TreeRead(ODD, SMALL5, 0, 1000, ODD);
    TreeRead(ODD, SMALL5, 0, 100, ODD);
  }

  lemma OddWithin(hi: int)
    requires hi >= 90
    ensures Within(ODD, 0, hi) == ODD
  {
    assert forall x :: x in ODD ==> 0 <= x.bkey <= 90;
    WithinWhole(ODD, 0, hi);
  }

  /** testBOPOverflowCheck: under smallest-trim a full insert evicts the smallest bkey. */
  lemma BopSmallestTrim()
    ensures S.BopInsert(Tree(ODD, SMALL5), BKEY, K8, None) == Ok(Tree([K3, K5, K7, K8, K9], SMALL5))
  {
    assert ODD[1..] == [K3, K5, K7] + [K9] && [K3, K5, K7] + ([K8] + [K9]) == [K3, K5, K7, K8, K9];
    TreeTrim(ODD, SMALL5, K8, [K3, K5, K7], [K9]);
  }

  /** testBOPOverflowCheck: under smallest-trim a bkey below the smallest is BKEYOOR, and another full insert evicts the smallest. */
  lemma BopSmallestTrimAgain()
    ensures S.BopInsert(Tree([K3, K5, K7, K8, K9], SMALL5), BKEY, K1, None) == Err(BkeyOor)
    ensures S.BopInsert(Tree([K3, K5, K7, K8, K9], SMALL5), BKEY, K6, None) == Ok(Tree([K5, K6, K7, K8, K9], SMALL5))
  {
    var t := [K3, K5, K7, K8, K9];
    assert t[1..] == [K5] + [K7, K8, K9] && [K5] + ([K6] + [K7, K8, K9]) == [K5, K6, K7, K8, K9];
    TreeOutOfRange(t, SMALL5, K1);
    TreeTrim(t, SMALL5, K6, [K5], [K7, K8, K9]);
  }

  /** testBOPOverflowCheck: switched to largest-trim, a full insert evicts the largest bkey. */
  lemma BopLargestTrim()
    ensures S.SetAttr(Tree([K5, K6, K7, K8, K9], SMALL5), BKEY, S.AttrChange(None, None, None, Some(LargestTrim)))
         == Ok(Tree([K5, K6, K7, K8, K9], LARGE5))
    ensures S.BopInsert(Tree([K5, K6, K7, K8, K9], LARGE5), BKEY, K3, None) == Ok(Tree([K3, K5, K6, K7, K8], LARGE5))
  {
    var t := [K5, K6, K7, K8, K9];
    assert t[..4] == [] + [K5, K6, K7, K8] && [] + ([K3] + [K5, K6, K7, K8]) == [K3, K5, K6, K7, K8];
    TreeReattribute(t, SMALL5, S.AttrChange(None, None, None, Some(LargestTrim)));
    TreeTrim(t, LARGE5, K3, [], [K5, K6, K7, K8]);
  }

  /** testBOPOverflowCheck: another largest-trim insert, then a bkey above the largest is BKEYOOR. */
  lemma BopLargestTrimAgain()
    ensures S.BopInsert(Tree([K3, K5, K6, K7, K8], LARGE5), BKEY, K4, None) == Ok(Tree([K3, K4, K5, K6, K7], LARGE5))
    ensures S.BopInsert(Tree([K3, K4, K5, K6, K7], LARGE5), BKEY, K9, None) == Err(BkeyOor)
  {
    var u := [K3, K5, K6, K7, K8];
    assert u[..4] == [K3] + [K5, K6, K7] && [K3] + ([K4] + [K5, K6, K7]) == [K3, K4, K5, K6, K7];
    TreeTrim(u, LARGE5, K4, [K3], [K5, K6, K7]);
    TreeOutOfRange([K3, K4, K5, K6, K7], LARGE5, K9);
  }

  const LOW5: seq<BElem> := [K3, K4, K5, K6, K7]

  /**
   testBOPOverflowCheck: under the error action a full tree refuses any new
   bkey with OVERFLOW.
   */
  lemma BopErrorSession()
    ensures S.SetAttr(Tree(LOW5, LARGE5), BKEY, S.AttrChange(None, None, None, Some(OvflError))) == Ok(Tree(LOW5, ERROR5))
    ensures S.BopInsert(Tree(LOW5, ERROR5), BKEY, K2, None) == Err(Overflow)
    ensures S.BopInsert(Tree(LOW5, ERROR5), BKEY, BElem(80, D2), None) == Err(Overflow)
  {
    TreeReattribute(LOW5, LARGE5, S.AttrChange(None, None, None, Some(OvflError)));
    TreeFull(LOW5, ERROR5, K2);
    TreeFull(LOW5, ERROR5, BElem(80, D2));
  }

  /** testBOPOverflowCheck: the list trim actions are BADVALUE for a b-tree. */
  lemma BopListTrimsRefused()
    ensures S.SetAttr(Tree(LOW5, ERROR5), BKEY, S.AttrChange(None, None, None, Some(HeadTrim))) == Err(BadValue)
    ensures S.SetAttr(Tree(LOW5, ERROR5), BKEY, S.AttrChange(None, None, None, Some(TailTrim))) == Err(BadValue)
  {
  }

  /**
   testBOPInsertFailCheck: without the create flag a missing tree is
   NOT_FOUND, and a bkey already in the tree is ELEM_EXISTS.
   */
  lemma BopInsertFailures()
    ensures S.BopInsert(map[], BKEY, K1, None) == Err(NotFound)
    ensures S.BopInsert(Tree([K1], B1000), BKEY, K1, None) == Err(ElemExists)
    ensures S.BopInsert(Tree([K1], B1000), BKEY, BElem(15, [100, 97, 116, 117, 109, 95, 110, 101, 119]), None).Ok?
  {
    S.BopInsertDuplicate(Tree([K1], B1000), BKEY, K1, None);
    assert HasKey([K1], 10);
    TreeAppend([K1], B1000, BElem(15, [100, 97, 116, 117, 109, 95, 110, 101, 119]));
  }

  // ------------------------------------------------ b-tree bkey window

  /** "datum10" and "datum12" under bkeys 100 and 120. */
  const K10: BElem := BElem(100, [100, 97, 116, 117, 109, 49, 48])
  const K12: BElem := BElem(120, [100, 97, 116, 117, 109, 49, 50])

  const W80: Attrs := Attrs(11, 0, 1000, SmallestTrim, 80)
  const W80L: Attrs := Attrs(11, 0, 1000, LargestTrim, 80)
  const W0L: Attrs := Attrs(11, 0, 1000, LargestTrim, 0)

  const SIX: seq<BElem> := [K1, K3, K5, K7, K8, K9]
  const UP6: seq<BElem> := [K3, K5, K7, K8, K9, K10]
  const SEVEN: seq<BElem> := [K3, K4, K5, K7, K8, K9, K10]
  const LOW7: seq<BElem> := [K1, K3, K4, K5, K7, K8, K9]

  /**
   An insert below the maxcount whose bkey the tree's window already admits
   (or with no window): the element lands between the `lo` and `hi` runs.
   */
  lemma TreeInsert(t: seq<BElem>, a: Attrs, e: BElem, lo: seq<BElem>, hi: seq<BElem>)
    requires (forall x :: x in t ==> x.bkey != e.bkey) && |t| < a.maxcount
    requires a.maxbkeyrange == 0 || Tight(t, e.bkey, a.maxbkeyrange)
    requires lo + hi == t && (forall x :: x in lo ==> x.bkey < e.bkey) && (|hi| > 0 ==> e.bkey < hi[0].bkey)
    ensures S.BopInsert(Tree(t, a), BKEY, e, None) == Ok(Tree(lo + ([e] + hi), a))
  {
    PlainInsert(t, a, e, lo, hi);
    TreeStep(t, a, e, lo + ([e] + hi));
  }

  lemma PlainInsert(t: seq<BElem>, a: Attrs, e: BElem, lo: seq<BElem>, hi: seq<BElem>)
    requires (forall x :: x in t ==> x.bkey != e.bkey) && |t| < a.maxcount
    requires a.maxbkeyrange == 0 || Tight(t, e.bkey, a.maxbkeyrange)
    requires lo + hi == t && (forall x :: x in lo ==> x.bkey < e.bkey) && (|hi| > 0 ==> e.bkey < hi[0].bkey)
    ensures BTreeInsert(t, a, e) == Ok(lo + ([e] + hi))
  {
    InsertBetween(lo, hi, e);
    assert !HasKey(t, e.bkey);
  }

  lemma WindowedInsert(t: seq<BElem>, a: Attrs, e: BElem, kept: seq<BElem>, lo: seq<BElem>, hi: seq<BElem>)
    requires (forall x :: x in t ==> x.bkey != e.bkey) && |t| > 0 && |t| < a.maxcount
    requires a.maxbkeyrange > 0 && !Tight(t, e.bkey, a.maxbkeyrange)
    requires if a.ovfl == SmallestTrim then TrimBelow(t, a.maxbkeyrange, e.bkey) == Ok(kept)
             else a.ovfl == LargestTrim && TrimAbove(t, a.maxbkeyrange, e.bkey) == Ok(kept)
    requires lo + hi == kept && (forall x :: x in lo ==> x.bkey < e.bkey) && (|hi| > 0 ==> e.bkey < hi[0].bkey)
    ensures BTreeInsert(t, a, e) == Ok(lo + ([e] + hi))
  {
    InsertBetween(lo, hi, e);
    assert !HasKey(t, e.bkey);
    assert FitWindow(t, a.maxbkeyrange, a.ovfl, e.bkey) == Ok(kept);
    assert FitCount(kept, a.maxcount, a.ovfl, e.bkey) == Ok(kept);
    assert !HasKey(kept, e.bkey);
  }

  /** Largest-trim evicting from the top, with the new element smallest of all. */
  lemma WindowedFront(t: seq<BElem>, a: Attrs, e: BElem, kept: seq<BElem>)
    requires (forall x :: x in t ==> x.bkey != e.bkey) && |t| > 0 && |t| < a.maxcount
    requires a.maxbkeyrange > 0 && !Tight(t, e.bkey, a.maxbkeyrange)
    requires a.ovfl == LargestTrim && TrimAbove(t, a.maxbkeyrange, e.bkey) == Ok(kept)
    requires |kept| > 0 && e.bkey < kept[0].bkey
    ensures BTreeInsert(t, a, e) == Ok([e] + kept)
  {
    assert [] + ([e] + kept) == [e] + kept;
    WindowedInsert(t, a, e, kept, [], kept);
  }

  /** An insert whose bkey lies beyond the end of the window the trim action keeps is BKEYOOR. */
  lemma TreeWindowRefused(t: seq<BElem>, a: Attrs, e: BElem)
    requires (forall x :: x in t ==> x.bkey != e.bkey) && |t| > 0
    requires a.maxbkeyrange > 0 && !Tight(t, e.bkey, a.maxbkeyrange)
    requires (a.ovfl == SmallestTrim && TrimBelow(t, a.maxbkeyrange, e.bkey).Err?) ||
             (a.ovfl == LargestTrim && TrimAbove(t, a.maxbkeyrange, e.bkey).Err?)
    ensures S.BopInsert(Tree(t, a), BKEY, e, None) == Err(BkeyOor)
  {
    assert !HasKey(t, e.bkey);
    assert FitWindow(t, a.maxbkeyrange, a.ovfl, e.bkey) == Err(BkeyOor);
  }

  /** A count and a read of a whole tree over 0..1000. */
  lemma ReadWhole(t: seq<BElem>, a: Attrs)
    requires |t| > 0 && forall x :: x in t ==> x.bkey <= 1000
    ensures S.BopCount(Tree(t, a), BKEY, 0, 1000) == Ok((a.flags, |t|))
    ensures S.BopGet(Tree(t, a), BKEY, 0, 1000, 0, 0, false, false) == Ok(S.Fetched(a.flags, t, Tree(t, a)))
  {
    WithinWhole(t, 0, 1000);
    TreeRead(t, a, 0, 1000, t);
  }

  /** testBOPMaxBKeyRangeCheck: a setattr naming only the maxbkeyrange sets the window to 80, and the next bkey fits it. */
  lemma BopWindowSetup()
    ensures S.SetAttr(Tree([K1], B1000), BKEY, S.AttrChange(None, None, Some(80), None)) == Ok(Tree([K1], W80))
    ensures S.BopInsert(Tree([K1], W80), BKEY, K3, None) == Ok(Tree([K1, K3], W80))
  {
    assert [K1] + ([K3] + []) == [K1, K3];
    TreeReattribute([K1], B1000, S.AttrChange(None, None, Some(80), None));
    TightBetween([K1], 30, 80, 10, 30);
    TreeInsert([K1], W80, K3, [K1], []);
  }

  /** testBOPMaxBKeyRangeCheck: inserts in bkey order that stay within 80 of the smallest. */
  lemma BopWindowFill()
    ensures S.BopInsert(Tree([K1, K3], W80), BKEY, K5, None) == Ok(Tree([K1, K3, K5], W80))
    ensures S.BopInsert(Tree([K1, K3, K5], W80), BKEY, K7, None) == Ok(Tree([K1, K3, K5, K7], W80))
  {
    assert [K1, K3] + ([K5] + []) == [K1, K3, K5];
    assert [K1, K3, K5] + ([K7] + []) == [K1, K3, K5, K7];
    TightBetween([K1, K3], 50, 80, 10, 50);
    TightBetween([K1, K3, K5], 70, 80, 10, 70);
    TreeInsert([K1, K3], W80, K5, [K1, K3], []);
    TreeInsert([K1, K3, K5], W80, K7, [K1, K3, K5], []);
  }

  /** testBOPMaxBKeyRangeCheck: bkey 90 spans exactly the window, and the five elements read back. */
  lemma BopWindowFull()
    ensures S.BopInsert(Tree([K1, K3, K5, K7], W80), BKEY, K9, None) == Ok(Tree(ODD, W80))
    ensures S.BopCount(Tree(ODD, W80), BKEY, 0, 1000) == Ok((11, 5))
    ensures S.BopGet(Tree(ODD, W80), BKEY, 0, 1000, 0, 0, false, false) == Ok(S.Fetched(11, ODD, Tree(ODD, W80)))
  {
    assert [K1, K3, K5, K7] + ([K9] + []) == ODD;
    TightBetween([K1, K3, K5, K7], 90, 80, 10, 90);
    TreeInsert([K1, K3, K5, K7], W80, K9, [K1, K3, K5, K7], []);
    ReadWhole(ODD, W80);
  }

  /** testBOPMaxBKeyRangeCheck: bkey 80 lies inside the window and goes in without an eviction. */
  lemma BopWindowFits()
    ensures S.BopInsert(Tree(ODD, W80), BKEY, K8, None) == Ok(Tree(SIX, W80))
    ensures S.BopGet(Tree(SIX, W80), BKEY, 0, 1000, 0, 0, false, false) == Ok(S.Fetched(11, SIX, Tree(SIX, W80)))
  {
    assert [K1, K3, K5, K7] + ([K8] + [K9]) == SIX;
    TightBetween(ODD, 80, 80, 10, 90);
    assert ODD == [K1, K3, K5, K7] + [K9];
    TreeInsert(ODD, W80, K8, [K1, K3, K5, K7], [K9]);
    ReadWhole(SIX, W80);
  }

  /** testBOPMaxBKeyRangeCheck: under smallest-trim, bkey 0 would evict the largest end and is BKEYOOR. */
  lemma BopWindowBelow()
    ensures S.BopInsert(Tree(SIX, W80), BKEY, BElem(0, D0), None) == Err(BkeyOor)
  {
    assert K9 in SIX && K9.bkey - 0 > 80;
    TreeWindowRefused(SIX, W80, BElem(0, D0));
  }

  /** The window [20, 100] keeps all of the six-element tree but bkey 10. */
  lemma UpperWindow()
    ensures TrimBelow(SIX, 80, 100) == Ok([K3, K5, K7, K8, K9])
  {
    assert Last(SIX) == 90 && High(SIX, 100) == 100;
    UpperWithin();
  }

  lemma UpperWithin()
    ensures Within(SIX, 20, 100) == [K3, K5, K7, K8, K9]
  {
    assert SIX[1..] == [K3, K5, K7, K8, K9];
    WithinDropFirst(SIX, 20, 100);
  }

  /** Bkey 100 is new to the six-element tree and lies more than 80 from bkey 10. */
  lemma UpperOutside()
    ensures forall x :: x in SIX ==> x.bkey != K10.bkey
    ensures !Tight(SIX, K10.bkey, 80)
  {
    assert K1 in SIX && K10.bkey - K1.bkey > 80;
  }

  /** Under smallest-trim with window 80, bkey 100 evicts bkey 10 from the six-element tree. */
  lemma EvictLowest()
    ensures BTreeInsert(SIX, W80, K10) == Ok(UP6)
  {
    assert [K3, K5, K7, K8, K9] + ([K10] + []) == UP6;
    UpperWindow();
    UpperOutside();
    WindowedInsert(SIX, W80, K10, [K3, K5, K7, K8, K9], [K3, K5, K7, K8, K9], []);
  }

  /** testBOPMaxBKeyRangeCheck: under smallest-trim, bkey 100 evicts bkey 10, which falls out of the window. */
  lemma BopWindowEvicts()
    ensures S.BopInsert(Tree(SIX, W80), BKEY, K10, None) == Ok(Tree(UP6, W80))
  {
    EvictLowest();
    TreeStep(SIX, W80, K10, UP6);
  }

  /** testBOPMaxBKeyRangeCheck: after the eviction the tree counts and reads as six elements from 30 to 100. */
  lemma BopWindowEvictsRead()
    ensures S.BopCount(Tree(UP6, W80), BKEY, 0, 1000) == Ok((11, 6))
    ensures S.BopGet(Tree(UP6, W80), BKEY, 0, 1000, 0, 0, false, false) == Ok(S.Fetched(11, UP6, Tree(UP6, W80)))
  {
    ReadWhole(UP6, W80);
  }


  /** testBOPMaxBKeyRangeCheck: a setattr naming only the overflow action switches to largest-trim and keeps the window. */
  lemma BopWindowLargest()
    ensures S.SetAttr(Tree(UP6, W80), BKEY, S.AttrChange(None, None, None, Some(LargestTrim))) == Ok(Tree(UP6, W80L))
  {
    TreeReattribute(UP6, W80, S.AttrChange(None, None, None, Some(LargestTrim)));
  }

  /** testBOPMaxBKeyRangeCheck: under largest-trim, bkey 40 fits the window and goes in. */
  lemma BopWindowFitsLargest()
    ensures S.BopInsert(Tree(UP6, W80L), BKEY, K4, None) == Ok(Tree(SEVEN, W80L))
  {
    FitsHighWindow();
    TreeStep(UP6, W80L, K4, SEVEN);
  }

  lemma FitsHighWindow()
    ensures BTreeInsert(UP6, W80L, K4) == Ok(SEVEN)
  {
    assert [K3] + ([K4] + [K5, K7, K8, K9, K10]) == SEVEN;
    assert UP6 == [K3] + [K5, K7, K8, K9, K10];
    TightBetween(UP6, 40, 80, 30, 100);
    PlainInsert(UP6, W80L, K4, [K3], [K5, K7, K8, K9, K10]);
  }


  /** testBOPMaxBKeyRangeCheck: under largest-trim, bkey 120 would evict the smallest end and is BKEYOOR. */
  lemma BopWindowAbove()
    ensures S.BopInsert(Tree(SEVEN, W80L), BKEY, K12, None) == Err(BkeyOor)
  {
    assert K3 in SEVEN && K12.bkey - K3.bkey > 80;
    TreeWindowRefused(SEVEN, W80L, K12);
  }

  /** The window [10, 90] keeps all of the seven-element tree but bkey 100. */
  lemma LowerWindow()
    ensures TrimAbove(SEVEN, 80, 10) == Ok([K3, K4, K5, K7, K8, K9])
  {
    assert First(SEVEN) == 30 && Low(SEVEN, 10) == 10;
    LowerWithin();
  }

  lemma LowerWithin()
    ensures Within(SEVEN, 10, 90) == [K3, K4, K5, K7, K8, K9]
  {
    assert SEVEN[..6] == [K3, K4, K5, K7, K8, K9];
    WithinDropLast(SEVEN, 10, 90);
  }

  /** Bkey 10 is new to the seven-element tree and lies more than 80 from bkey 100. */
  lemma LowerOutside()
    ensures forall x :: x in SEVEN ==> x.bkey != K1.bkey
    ensures !Tight(SEVEN, K1.bkey, 80)
    ensures [K1] + [K3, K4, K5, K7, K8, K9] == LOW7
  {
    assert K10 in SEVEN && K10.bkey - K1.bkey > 80;
  }

  /** Under largest-trim with window 80, bkey 10 evicts bkey 100 from the seven-element tree. */
  lemma EvictHighest()
    ensures BTreeInsert(SEVEN, W80L, K1) == Ok(LOW7)
  {
    LowerWindow();
    LowerOutside();
    WindowedFront(SEVEN, W80L, K1, [K3, K4, K5, K7, K8, K9]);
  }

  /** testBOPMaxBKeyRangeCheck: under largest-trim, bkey 10 evicts bkey 100, which falls out of the window. */
  lemma BopWindowEvictsLargest()
    ensures S.BopInsert(Tree(SEVEN, W80L), BKEY, K1, None) == Ok(Tree(LOW7, W80L))
  {
    EvictHighest();
    TreeStep(SEVEN, W80L, K1, LOW7);
  }

  /** testBOPMaxBKeyRangeCheck: after the eviction the tree reads as seven elements from 10 to 90. */
  lemma BopWindowEvictsLargestRead()
    ensures S.BopGet(Tree(LOW7, W80L), BKEY, 0, 1000, 0, 0, false, false) == Ok(S.Fetched(11, LOW7, Tree(LOW7, W80L)))
  {
    ReadWhole(LOW7, W80L);
  }


  /** testBOPMaxBKeyRangeCheck: a maxbkeyrange of 0 switches the window off, and bkey 0 goes in. */
  lemma BopWindowOff()
    ensures S.SetAttr(Tree(LOW7, W80L), BKEY, S.AttrChange(None, None, Some(0), None)) == Ok(Tree(LOW7, W0L))
    ensures S.BopInsert(Tree(LOW7, W0L), BKEY, K0, None) == Ok(Tree([K0] + LOW7, W0L))
  {
    assert [] + ([K0] + LOW7) == [K0] + LOW7;
    TreeReattribute(LOW7, W80L, S.AttrChange(None, None, Some(0), None));
    TreeInsert(LOW7, W0L, K0, [], LOW7);
  }

  /** testBOPMaxBKeyRangeCheck: with no window, bkey 60 goes in between 50 and 70. */
  lemma BopWindowOffFill()
    ensures S.BopInsert(Tree([K0] + LOW7, W0L), BKEY, K6, None) == Ok(Tree([K0, K1, K3, K4, K5, K6, K7, K8, K9], W0L))
  {
    assert [K0, K1, K3, K4, K5] + ([K6] + [K7, K8, K9]) == [K0, K1, K3, K4, K5, K6, K7, K8, K9];
    assert [K0] + LOW7 == [K0, K1, K3, K4, K5] + [K7, K8, K9];
    TreeInsert([K0] + LOW7, W0L, K6, [K0, K1, K3, K4, K5], [K7, K8, K9]);
  }

  /** testBOPMaxBKeyRangeCheck: with no window, bkey 120 goes last, 120 above the smallest, and the tree holds ten elements. */
  lemma BopWindowOffLast()
    ensures S.BopInsert(Tree([K0, K1, K3, K4, K5, K6, K7, K8, K9], W0L), BKEY, K12, None)
         == Ok(Tree([K0, K1, K3, K4, K5, K6, K7, K8, K9, K12], W0L))
  {
    var nine := [K0, K1, K3, K4, K5, K6, K7, K8, K9];
    assert nine + ([K12] + []) == [K0, K1, K3, K4, K5, K6, K7, K8, K9, K12];
    assert nine + [] == nine;
    TreeInsert(nine, W0L, K12, nine, []);
  }

}
