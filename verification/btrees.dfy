/**
 The b-tree collection's element logic: elements kept in ascending bkey order,
 range traversal in either direction with offset and count, deletion of a
 selection, and insertion under the maxbkeyrange window and the maxcount limit
 with the smallest-trim, largest-trim and error overflow policies.
 */
module BTrees {
  import opened Results
  import opened Struct
  import opened Constants
  import opened Items
  import opened Sequences

  /** Strictly ascending bkeys, so no bkey occurs twice. */
  predicate Sorted(t: seq<BElem>) {
    forall i, j :: 0 <= i < j < |t| ==> t[i].bkey < t[j].bkey
  }

  predicate Descending(t: seq<BElem>) {
    forall i, j :: 0 <= i < j < |t| ==> t[i].bkey > t[j].bkey
  }

  predicate HasKey(t: seq<BElem>, k: nat) {
    exists e :: e in t && e.bkey == k
  }

  function First(t: seq<BElem>): nat
    requires |t| > 0
  {
    t[0].bkey
  }

  function Last(t: seq<BElem>): nat
    requires |t| > 0
  {
    t[|t| - 1].bkey
  }

  /** In a sorted tree the first and last bkeys bound every bkey. */
  lemma SortedBounds(t: seq<BElem>)
    requires Sorted(t) && |t| > 0
    ensures forall x :: x in t ==> First(t) <= x.bkey <= Last(t)
  {
    forall x | x in t ensures First(t) <= x.bkey <= Last(t) {
      var i :| 0 <= i < |t| && t[i] == x;
      assert i == 0 || t[0].bkey < t[i].bkey;
      assert i == |t| - 1 || t[i].bkey < t[|t| - 1].bkey;
    }
  }

  lemma SortedNoDup(t: seq<BElem>)
    requires Sorted(t) || Descending(t)
    ensures NoDup(t)
  {
  }

  /** The elements with a bkey in [lo, hi], in stored order. */
  function Within(t: seq<BElem>, lo: int, hi: int): (r: seq<BElem>)
    ensures forall e :: e in r <==> e in t && lo <= e.bkey <= hi
    ensures |r| <= |t|
  {
    if |t| == 0 then []
    else
      assert t == [t[0]] + t[1..];
      (if lo <= t[0].bkey <= hi then [t[0]] else []) + Within(t[1..], lo, hi)
  }

  /** Every element after the head of a sorted tree has a larger bkey. */
  lemma TailAbove(t: seq<BElem>, rest: seq<BElem>)
    requires Sorted(t) && |t| > 0
    requires forall e :: e in rest ==> e in t[1..]
    ensures forall e :: e in rest ==> t[0].bkey < e.bkey
  {
    forall e | e in rest ensures t[0].bkey < e.bkey {
      var i :| 0 <= i < |t| - 1 && t[1..][i] == e;
      assert t[i + 1] == e;
    }
  }

  /** An element below everything in a sorted sequence can go in front of it. */
  lemma ConsSorted(x: BElem, rest: seq<BElem>)
    requires Sorted(rest) && forall e :: e in rest ==> x.bkey < e.bkey
    ensures Sorted([x] + rest)
  {
    var s := [x] + rest;
    forall i, j | 0 <= i < j < |s| ensures s[i].bkey < s[j].bkey {
      assert s[j] == rest[j - 1];
      if i > 0 {
        assert s[i] == rest[i - 1];
      } else {
        assert rest[j - 1] in rest;
      }
    }
  }

  lemma {:induction false} WithinSorted(t: seq<BElem>, lo: int, hi: int)
    ensures Sorted(t) ==> Sorted(Within(t, lo, hi))
  {
    if |t| > 0 && Sorted(t) {
      var rest := Within(t[1..], lo, hi);
      assert Sorted(t[1..]);
      WithinSorted(t[1..], lo, hi);
      if lo <= t[0].bkey <= hi {
        TailAbove(t, rest);
        ConsSorted(t[0], rest);
        assert Within(t, lo, hi) == [t[0]] + rest;
      } else {
        assert Within(t, lo, hi) == [] + rest;
      }
    }
  }

  lemma {:induction false} WithinAppend(a: seq<BElem>, b: seq<BElem>, lo: int, hi: int)
    ensures Within(a + b, lo, hi) == Within(a, lo, hi) + Within(b, lo, hi)
  {
    if |a| > 0 {
      assert (a + b)[0] == a[0];
      assert (a + b)[1..] == a[1..] + b;
      WithinAppend(a[1..], b, lo, hi);
      var h := if lo <= a[0].bkey <= hi then [a[0]] else [];
      assert Within(a + b, lo, hi) == h + Within(a[1..] + b, lo, hi);
      assert Within(a, lo, hi) == h + Within(a[1..], lo, hi);
    } else {
      assert a + b == b;
    }
  }

  /** Filtering commutes with reversal. */
  lemma {:induction false} WithinReverse(t: seq<BElem>, lo: int, hi: int)
    ensures Within(Reverse(t), lo, hi) == Reverse(Within(t, lo, hi))
  {
    if |t| > 0 {
      WithinReverse(t[1..], lo, hi);
      assert Reverse(t) == Reverse(t[1..]) + [t[0]];
      WithinAppend(Reverse(t[1..]), [t[0]], lo, hi);
      var head := if lo <= t[0].bkey <= hi then [t[0]] else [];
      assert Within([t[0]], lo, hi) == head;
      assert Within(t, lo, hi) == head + Within(t[1..], lo, hi);
      ReverseAppend(head, Within(t[1..], lo, hi));
      assert Reverse(head) == head;
    }
  }

  lemma ReverseAppend<T>(a: seq<T>, b: seq<T>)
    ensures Reverse(a + b) == Reverse(b) + Reverse(a)
  {
    var l, r := Reverse(a + b), Reverse(b) + Reverse(a);
    assert |l| == |r|;
    forall k | 0 <= k < |l| ensures l[k] == r[k] {
      if k < |b| {
        assert r[k] == Reverse(b)[k];
      } else {
        assert r[k] == Reverse(a)[k - |b|];
      }
    }
  }

  /**
   The elements a traversal from `from` to `to` visits: every element whose
   bkey lies between the two, ascending when from <= to and descending
   otherwise.
   */
  function Traverse(t: seq<BElem>, from: nat, to: nat): (r: seq<BElem>)
    ensures forall e :: e in r <==> e in t && Between(e.bkey, from, to)
    ensures Sorted(t) && from <= to ==> Sorted(r)
    ensures Sorted(t) && from > to ==> Descending(r)
  {
    if from <= to then
      WithinSorted(t, from, to);
      Within(t, from, to)
    else
      var m := Within(t, to, from);
      WithinSorted(t, to, from);
      ReverseMembers(m);
      Reverse(m)
  }

  /** Skips `offset` elements and keeps at most `count` of the rest (0 keeps them all). */
  function Page<T>(m: seq<T>, offset: nat, count: nat): (r: seq<T>)
    ensures |r| == if offset >= |m| then 0 else if count == 0 || count > |m| - offset then |m| - offset else count
    ensures forall k :: 0 <= k < |r| ==> r[k] == m[offset + k]
  {
    if offset >= |m| then []
    else
      var rest := m[offset..];
      if count == 0 || count >= |rest| then rest else rest[..count]
  }

  /** A page is a stretch of its source, so it keeps the source's members and order. */
  lemma PageOrder(m: seq<BElem>, offset: nat, count: nat)
    ensures forall e :: e in Page(m, offset, count) ==> e in m
    ensures Sorted(m) ==> Sorted(Page(m, offset, count))
    ensures Descending(m) ==> Descending(Page(m, offset, count))
  {
    var r := Page(m, offset, count);
    forall e | e in r ensures e in m {
      var k :| 0 <= k < |r| && r[k] == e;
      assert m[offset + k] == e;
    }
    if Sorted(m) {
      forall i, j | 0 <= i < j < |r| ensures r[i].bkey < r[j].bkey {
        assert r[i] == m[offset + i] && r[j] == m[offset + j];
      }
    }
    if Descending(m) {
      forall i, j | 0 <= i < j < |r| ensures r[i].bkey > r[j].bkey {
        assert r[i] == m[offset + i] && r[j] == m[offset + j];
      }
    }
  }

  function Selection(t: seq<BElem>, from: nat, to: nat, offset: nat, count: nat): seq<BElem> {
    Page(Traverse(t, from, to), offset, count)
  }

  /**
   bop_get: the matches in traversal order after skipping `offset`, at most
   `count` of them; nothing left to return is ELEM_NOENT.
   */
  function BTreeGet(t: seq<BElem>, from: nat, to: nat, offset: nat, count: nat): (r: Result<seq<BElem>, Status>)
    ensures r.Err? ==> r.error == ElemNoent
    ensures r.Err? <==> offset >= |Traverse(t, from, to)|
    ensures r.Ok? ==> forall e :: e in r.value ==> e in t && Between(e.bkey, from, to)
    ensures r.Ok? && count > 0 ==> |r.value| <= count
  {
    var m := Traverse(t, from, to);
    PageOrder(m, offset, count);
    var sel := Page(m, offset, count);
    if |sel| == 0 then Err(ElemNoent) else Ok(sel)
  }

  /** A read of a sorted tree returns its elements in traversal direction. */
  lemma GetOrder(t: seq<BElem>, from: nat, to: nat, offset: nat, count: nat)
    requires Sorted(t) && BTreeGet(t, from, to, offset, count).Ok?
    ensures from <= to ==> Sorted(BTreeGet(t, from, to, offset, count).value)
    ensures from > to ==> Descending(BTreeGet(t, from, to, offset, count).value)
  {
    PageOrder(Traverse(t, from, to), offset, count);
  }

  /** One more element seen by a walk adds itself to the matches when its bkey is in range. */
  lemma WithinStep(order: seq<BElem>, i: nat, lo: int, hi: int)
    requires i < |order|
    ensures Within(order[..i + 1], lo, hi) ==
      Within(order[..i], lo, hi) + (if lo <= order[i].bkey <= hi then [order[i]] else [])
  {
    WithinAppend(order[..i], [order[i]], lo, hi);
    assert order[..i + 1] == order[..i] + [order[i]];
  }

  /** Past the first `offset` matches, every further match is kept. */
  lemma PageExtend<T>(seen: seq<T>, x: T, offset: nat)
    ensures Page(seen + [x], offset, 0) == Page(seen, offset, 0) + (if |seen| >= offset then [x] else [])
  {
    if |seen| >= offset {
      assert (seen + [x])[offset..] == seen[offset..] + [x];
    }
  }

  /** A page that is complete, or already holds `count` elements, is not changed by what follows. */
  lemma PagePrefix<T>(seen: seq<T>, rest: seq<T>, offset: nat, count: nat)
    requires count > 0 ==> |Page(seen, offset, 0)| <= count
    requires rest == [] || (count > 0 && |Page(seen, offset, 0)| == count)
    ensures Page(seen, offset, 0) == Page(seen + rest, offset, count)
  {
    var all := seen + rest;
    if rest == [] {
      assert all == seen;
    } else {
      assert all[offset..offset + count] == seen[offset..];
    }
  }

  /** Where a walk stops (at the end, or holding `count` matches) its collection is the page. */
  lemma WalkEnd(order: seq<BElem>, i: nat, lo: int, hi: int, offset: nat, count: nat, got: seq<BElem>)
    requires i <= |order|
    requires got == Page(Within(order[..i], lo, hi), offset, 0)
    requires count > 0 ==> |got| <= count
    requires i == |order| || (count > 0 && |got| == count)
    ensures got == Page(Within(order, lo, hi), offset, count)
  {
    var done, rest := order[..i], order[i..];
    assert done + rest == order;
    WithinAppend(done, rest, lo, hi);
    if i == |order| {
      assert rest == [];
    }
    PagePrefix(Within(done, lo, hi), Within(rest, lo, hi), offset, count);
  }

  lemma WalkOrder(t: seq<BElem>, from: nat, to: nat)
    ensures from <= to ==> Within(t, from, to) == Traverse(t, from, to)
    ensures from > to ==> Within(Reverse(t), to, from) == Traverse(t, from, to)
  {
    if from > to {
      WithinReverse(t, to, from);
    }
  }

  /**
   The server's cursor walk over `order`: skip the first `offset` elements
   with a bkey in [lo, hi], then collect such elements until `count` are held
   (0 collects to the end).
   */
  method Walk(order: seq<BElem>, lo: int, hi: int, offset: nat, count: nat) returns (got: seq<BElem>)
    ensures got == Page(Within(order, lo, hi), offset, count)
  {
    var skipped, i := 0, 0;
    got := [];
    ghost var seen: seq<BElem> := [];
    while i < |order| && (count == 0 || |got| < count)
      invariant 0 <= i <= |order|
      invariant seen == Within(order[..i], lo, hi)
      invariant skipped == if |seen| < offset then |seen| else offset
      invariant got == Page(seen, offset, 0)
      invariant count > 0 ==> |got| <= count
    {
      WithinStep(order, i, lo, hi);
      if lo <= order[i].bkey <= hi {
        PageExtend(seen, order[i], offset);
        if skipped < offset {
          skipped := skipped + 1;
        } else {
          got := got + [order[i]];
        }
        seen := seen + [order[i]];
      }
      i := i + 1;
    }
    WalkEnd(order, i, lo, hi, offset, count, got);
  }

  /**
   bop_get as the server runs it: a cursor walk in traversal order. It
   returns exactly what the declarative definition does.
   */
  method WalkGet(t: seq<BElem>, from: nat, to: nat, offset: nat, count: nat) returns (r: Result<seq<BElem>, Status>)
    ensures r == BTreeGet(t, from, to, offset, count)
  {
    WalkOrder(t, from, to);
    var got;
    if from <= to {
      got := Walk(t, from, to, offset, count);
    } else {
      got := Walk(Reverse(t), to, from, offset, count);
    }
    assert got == Selection(t, from, to, offset, count);
    if |got| == 0 {
      return Err(ElemNoent);
    }
    return Ok(got);
  }

  /** `t` without the elements of `sel`, the rest in order. */
  function Without(t: seq<BElem>, sel: seq<BElem>): (r: seq<BElem>)
    ensures forall e :: e in r <==> e in t && e !in sel
    ensures |r| <= |t|
  {
    if |t| == 0 then []
    else
      assert t == [t[0]] + t[1..];
      (if t[0] in sel then [] else [t[0]]) + Without(t[1..], sel)
  }

  lemma {:induction false} WithoutSorted(t: seq<BElem>, sel: seq<BElem>)
    ensures Sorted(t) ==> Sorted(Without(t, sel))
  {
    if |t| > 0 && Sorted(t) {
      var rest := Without(t[1..], sel);
      WithoutSorted(t[1..], sel);
      TailAbove(t, rest);
    }
  }

  /**
   Removing a selection drawn from a sorted tree takes out exactly the
   selected elements: what is left shares none of them, and the sizes add up.
   */
  lemma SelectionPartition(t: seq<BElem>, sel: seq<BElem>)
    requires Sorted(t) && NoDup(sel) && forall e :: e in sel ==> e in t
    ensures forall e :: e in t <==> e in sel || e in Without(t, sel)
    ensures |Without(t, sel)| + |sel| == |t|
  {
    var rest := Without(t, sel);
    WithoutSorted(t, sel);
    SortedNoDup(t);
    SortedNoDup(rest);
    DistinctSize(t);
    DistinctSize(sel);
    DistinctSize(rest);
    assert Members(t) == Members(sel) + Members(rest);
    assert Members(sel) * Members(rest) == {};
  }

  /**
   bop_delete: removes the first `count` matches in traversal order (all of
   them when count is 0); a range with no match is ELEM_NOENT.
   */
  function BTreeDelete(t: seq<BElem>, from: nat, to: nat, count: nat): (r: Result<seq<BElem>, Status>)
    ensures r.Err? ==> r.error == ElemNoent
    ensures r.Err? <==> forall e :: e in t ==> !Between(e.bkey, from, to)
    ensures r.Ok? ==> forall e :: e in r.value <==> e in t && e !in Selection(t, from, to, 0, count)
    ensures r.Ok? && Sorted(t) ==> Sorted(r.value)
  {
    var m := Traverse(t, from, to);
    var sel := Selection(t, from, to, 0, count);
    assert |m| > 0 ==> m[0] in m;
    if |sel| == 0 then Err(ElemNoent)
    else
      WithoutSorted(t, sel);
      Ok(Without(t, sel))
  }

  /** bop_count: the number of elements whose bkey lies in the range. */
  function BTreeCount(t: seq<BElem>, from: nat, to: nat): (r: nat)
    ensures r == 0 <==> forall e :: e in t ==> !Between(e.bkey, from, to)
    ensures Sorted(t) ==> r == |set e | e in t && Between(e.bkey, from, to)|
  {
    var m := Traverse(t, from, to);
    assert |m| > 0 ==> m[0] in m;
    if Sorted(t) then
      SortedNoDup(m);
      DistinctSize(m);
      assert Members(m) == set e | e in t && Between(e.bkey, from, to);
      |m|
    else
      |m|
  }

  /** A count over a range is the length of the unpaged read of the same range. */
  lemma CountMatchesGet(t: seq<BElem>, from: nat, to: nat)
    ensures BTreeCount(t, from, to) == 0 <==> BTreeGet(t, from, to, 0, 0).Err?
    ensures BTreeGet(t, from, to, 0, 0).Ok? ==> |BTreeGet(t, from, to, 0, 0).value| == BTreeCount(t, from, to)
  {
  }

  /** `t` with `e` placed in bkey order. */
  function InsertSorted(t: seq<BElem>, e: BElem): (r: seq<BElem>)
    ensures forall x :: x in r <==> x in t || x == e
    ensures |r| == |t| + 1
    ensures Sorted(t) && !HasKey(t, e.bkey) ==> Sorted(r)
  {
    if |t| == 0 then [e]
    else if e.bkey < t[0].bkey then [e] + t
    else
      var rest := InsertSorted(t[1..], e);
      assert Sorted(t) && !HasKey(t, e.bkey) ==> forall x :: x in rest ==> t[0].bkey < x.bkey;
      [t[0]] + rest
  }

  /** Every bkey of `t` lies within R of every other and of `b`. */
  predicate Tight(t: seq<BElem>, b: nat, R: nat) {
    && (forall x, y :: x in t && y in t ==> x.bkey - y.bkey <= R)
    && (forall x :: x in t ==> x.bkey - b <= R && b - x.bkey <= R)
  }

  /** The smallest and largest of `b` and the tree's end bkeys. */
  function Low(t: seq<BElem>, b: nat): nat
    requires |t| > 0
  {
    if b < First(t) then b else First(t)
  }

  function High(t: seq<BElem>, b: nat): nat
    requires |t| > 0
  {
    if b > Last(t) then b else Last(t)
  }

  /** Bkeys confined to [lo, hi], with `b` there too and hi - lo <= R, are tight. */
  lemma TightBetween(t: seq<BElem>, b: nat, R: nat, lo: int, hi: int)
    requires forall x :: x in t ==> lo <= x.bkey <= hi
    requires lo <= b <= hi && hi - lo <= R
    ensures Tight(t, b, R)
  {
  }

  /** A tight tree has its end bkeys and `b` within R. */
  lemma TightEnds(t: seq<BElem>, b: nat, R: nat)
    requires |t| > 0 && Tight(t, b, R)
    ensures High(t, b) - Low(t, b) <= R
  {
    assert t[0] in t && t[|t| - 1] in t;
  }

  /** In a sorted tree whose largest bkey is at most `hi`, a read of [lo, hi] leaves out only bkeys below lo. */
  lemma EvictedBelow(t: seq<BElem>, lo: int, hi: int)
    requires Sorted(t) && |t| > 0 && Last(t) <= hi
    ensures forall x :: x in t && x !in Within(t, lo, hi) ==> x.bkey < lo
  {
    SortedBounds(t);
  }

  /** In a sorted tree whose smallest bkey is at least `lo`, a read of [lo, hi] leaves out only bkeys above hi. */
  lemma EvictedAbove(t: seq<BElem>, lo: int, hi: int)
    requires Sorted(t) && |t| > 0 && lo <= First(t)
    ensures forall x :: x in t && x !in Within(t, lo, hi) ==> x.bkey > hi
  {
    SortedBounds(t);
  }

  /**
   Smallest-trim's window: keep the bkeys at most R below the larger of the
   tree's largest and `b`, refusing with BKEYOOR when `b` would fall outside.
   */
  function TrimBelow(t: seq<BElem>, R: nat, b: nat): (r: Result<seq<BElem>, Status>)
    requires |t| > 0
    ensures r.Ok? ==> (forall x :: x in r.value ==> x in t) && |r.value| <= |t|
    ensures r.Err? ==> r.error == BkeyOor && b < Last(t) - R
  {
    var hi := High(t, b);
    if b < hi - R then Err(BkeyOor)
    else Ok(Within(t, hi - R, hi))
  }

  /**
   Largest-trim's window: keep the bkeys at most R above the smaller of the
   tree's smallest and `b`, refusing with BKEYOOR when `b` would fall outside.
   */
  function TrimAbove(t: seq<BElem>, R: nat, b: nat): (r: Result<seq<BElem>, Status>)
    requires |t| > 0
    ensures r.Ok? ==> (forall x :: x in r.value ==> x in t) && |r.value| <= |t|
    ensures r.Err? ==> r.error == BkeyOor && b > First(t) + R
  {
    var lo := Low(t, b);
    if b > lo + R then Err(BkeyOor)
    else Ok(Within(t, lo, lo + R))
  }

  /** What smallest-trim keeps, the bkeys in [hi - R, hi] with `b` among them, is tight around `b`. */
  lemma TrimBelowTight(t: seq<BElem>, R: nat, b: nat)
    requires |t| > 0 && TrimBelow(t, R, b).Ok?
    ensures Tight(TrimBelow(t, R, b).value, b, R)
  {
    var hi := High(t, b);
    assert TrimBelow(t, R, b) == Ok(Within(t, hi - R, hi));
    TightBetween(Within(t, hi - R, hi), b, R, hi - R, hi);
  }

  /** In a sorted tree smallest-trim keeps the order. */
  lemma TrimBelowSorted(t: seq<BElem>, R: nat, b: nat)
    requires |t| > 0 && TrimBelow(t, R, b).Ok?
    ensures Sorted(t) ==> Sorted(TrimBelow(t, R, b).value)
  {
    var hi := High(t, b);
    WithinSorted(t, hi - R, hi);
  }

  /** In a sorted tree smallest-trim evicts only bkeys below `b`. */
  lemma TrimBelowEvicts(t: seq<BElem>, R: nat, b: nat)
    requires |t| > 0 && Sorted(t) && TrimBelow(t, R, b).Ok?
    ensures forall x :: x in t && x !in TrimBelow(t, R, b).value ==> x.bkey < b
  {
    var hi := High(t, b);
    assert TrimBelow(t, R, b) == Ok(Within(t, hi - R, hi));
    EvictedBelow(t, hi - R, hi);
  }

  /** What largest-trim keeps, the bkeys in [lo, lo + R] with `b` among them, is tight around `b`. */
  lemma TrimAboveTight(t: seq<BElem>, R: nat, b: nat)
    requires |t| > 0 && TrimAbove(t, R, b).Ok?
    ensures Tight(TrimAbove(t, R, b).value, b, R)
  {
    var lo := Low(t, b);
    assert TrimAbove(t, R, b) == Ok(Within(t, lo, lo + R));
    TightBetween(Within(t, lo, lo + R), b, R, lo, lo + R);
  }

  /** In a sorted tree largest-trim keeps the order. */
  lemma TrimAboveSorted(t: seq<BElem>, R: nat, b: nat)
    requires |t| > 0 && TrimAbove(t, R, b).Ok?
    ensures Sorted(t) ==> Sorted(TrimAbove(t, R, b).value)
  {
    var lo := Low(t, b);
    WithinSorted(t, lo, lo + R);
  }

  /** In a sorted tree largest-trim evicts only bkeys above `b`. */
  lemma TrimAboveEvicts(t: seq<BElem>, R: nat, b: nat)
    requires |t| > 0 && Sorted(t) && TrimAbove(t, R, b).Ok?
    ensures forall x :: x in t && x !in TrimAbove(t, R, b).value ==> x.bkey > b
  {
    var lo := Low(t, b);
    assert TrimAbove(t, R, b) == Ok(Within(t, lo, lo + R));
    EvictedAbove(t, lo, lo + R);
  }

  /**
   The maxbkeyrange window before `b` goes in. With R = 0, or when every bkey
   and `b` already fit within R, nothing happens. Otherwise smallest-trim and
   largest-trim evict what lies outside the window they keep, and any other
   policy refuses with OVERFLOW.
   */
  function FitWindow(t: seq<BElem>, R: nat, action: OvflAction, b: nat): (r: Result<seq<BElem>, Status>)
    ensures R == 0 || Tight(t, b, R) ==> r == Ok(t)
    ensures r.Ok? ==> (forall x :: x in r.value ==> x in t) && |r.value| <= |t|
    ensures r.Ok? && Sorted(t) ==> Sorted(r.value)
    ensures r.Ok? && R > 0 ==> Tight(r.value, b, R)
    ensures r.Ok? && Sorted(t) && action == SmallestTrim ==> forall x :: x in t && x !in r.value ==> x.bkey < b
    ensures r.Ok? && Sorted(t) && action == LargestTrim ==> forall x :: x in t && x !in r.value ==> x.bkey > b
    ensures r == Err(BkeyOor) ==> |t| > 0 && ((action == SmallestTrim && b < Last(t) - R) || (action == LargestTrim && b > First(t) + R))
    ensures r == Err(Overflow) ==> action != SmallestTrim && action != LargestTrim
    ensures r.Err? ==> r.error == BkeyOor || r.error == Overflow
  {
    if R == 0 || |t| == 0 || Tight(t, b, R) then Ok(t)
    else if action == SmallestTrim then
      if TrimBelow(t, R, b).Err? then TrimBelow(t, R, b)
      else
        TrimBelowTight(t, R, b);
        if Sorted(t) then TrimBelowSorted(t, R, b); TrimBelowEvicts(t, R, b); TrimBelow(t, R, b) else TrimBelow(t, R, b)
    else if action == LargestTrim then
      if TrimAbove(t, R, b).Err? then TrimAbove(t, R, b)
      else
        TrimAboveTight(t, R, b);
        if Sorted(t) then TrimAboveSorted(t, R, b); TrimAboveEvicts(t, R, b); TrimAbove(t, R, b) else TrimAbove(t, R, b)
    else Err(Overflow)
  }

  /**
   The maxcount limit before `b` goes in: below the limit nothing happens; at
   it smallest-trim evicts the smallest element and largest-trim the largest,
   refusing with BKEYOOR a `b` beyond the element it would evict; any other
   policy refuses with OVERFLOW.
   */
  function FitCount(t: seq<BElem>, maxcount: MaxCount, action: OvflAction, b: nat): (r: Result<seq<BElem>, Status>)
    ensures |t| < maxcount ==> r == Ok(t)
    ensures r.Ok? ==> (forall x :: x in r.value ==> x in t) && |r.value| <= |t|
    ensures r.Ok? && |t| <= maxcount ==> |r.value| < maxcount
    ensures r.Ok? && Sorted(t) ==> Sorted(r.value)
    ensures r.Ok? && Sorted(t) && !HasKey(t, b) && action == SmallestTrim ==> forall x :: x in t && x !in r.value ==> x.bkey < b
    ensures r.Ok? && Sorted(t) && !HasKey(t, b) && action == LargestTrim ==> forall x :: x in t && x !in r.value ==> x.bkey > b
    ensures r == Err(BkeyOor) ==> |t| > 0 && ((action == SmallestTrim && b < First(t)) || (action == LargestTrim && b > Last(t)))
    ensures r == Err(Overflow) ==> action != SmallestTrim && action != LargestTrim
    ensures r.Err? ==> r.error == BkeyOor || r.error == Overflow
  {
    if |t| < maxcount then Ok(t)
    else if action == SmallestTrim then
      if b < First(t) then Err(BkeyOor)
      else
        assert t == [t[0]] + t[1..];
        Ok(t[1..])
    else if action == LargestTrim then
      if b > Last(t) then Err(BkeyOor)
      else
        assert t == t[..|t| - 1] + [t[|t| - 1]];
        Ok(t[..|t| - 1])
    else Err(Overflow)
  }

  /**
   bop_insert into a tree with attributes `a`: a bkey already present is
   ELEM_EXISTS; then the maxbkeyrange window and the maxcount limit apply, in
   that order, and the element goes in at its bkey.
   */
  function BTreeInsert(t: seq<BElem>, a: Attrs, e: BElem): (r: Result<seq<BElem>, Status>)
    ensures r == Err(ElemExists) <==> HasKey(t, e.bkey)
    ensures r.Err? ==> r.error in {ElemExists, BkeyOor, Overflow}
    ensures r.Ok? ==> e in r.value && forall x :: x in r.value ==> x in t || x == e
    ensures r.Ok? && Sorted(t) ==> Sorted(r.value)
    ensures r.Ok? && |t| <= a.maxcount ==> |r.value| <= a.maxcount
    ensures !HasKey(t, e.bkey) && |t| < a.maxcount && (a.maxbkeyrange == 0 || Tight(t, e.bkey, a.maxbkeyrange)) ==>
      r.Ok? && forall x :: x in r.value <==> x in t || x == e
    ensures r.Ok? && Sorted(t) && a.ovfl == SmallestTrim ==> forall x :: x in t && x !in r.value ==> x.bkey < e.bkey
    ensures r.Ok? && Sorted(t) && a.ovfl == LargestTrim ==> forall x :: x in t && x !in r.value ==> x.bkey > e.bkey
    ensures r == Err(BkeyOor) ==> a.ovfl == SmallestTrim || a.ovfl == LargestTrim
    ensures a.ovfl == OvflError && !HasKey(t, e.bkey) && |t| >= a.maxcount ==> r == Err(Overflow)
  {
    if HasKey(t, e.bkey) then Err(ElemExists)
    else
      match FitWindow(t, a.maxbkeyrange, a.ovfl, e.bkey)
      case Err(s) => Err(s)
      case Ok(t1) =>
        match FitCount(t1, a.maxcount, a.ovfl, e.bkey)
        case Err(s) => Err(s)
        case Ok(t2) =>
          assert !HasKey(t2, e.bkey);
          Ok(InsertSorted(t2, e))
  }

  /** Part of a tight tree is tight. */
  lemma TightSubset(s: seq<BElem>, t: seq<BElem>, b: nat, R: nat)
    requires Tight(t, b, R) && forall x :: x in s ==> x in t
    ensures Tight(s, b, R)
  {
  }

  /** A tree built from a tight tree and `e` has its ends within R. */
  lemma TightEndsWith(r: seq<BElem>, t: seq<BElem>, e: BElem, R: nat)
    requires Tight(t, e.bkey, R) && |r| > 0
    requires forall x :: x in r ==> x in t || x == e
    ensures Last(r) - First(r) <= R
  {
    assert r[|r| - 1] in r && r[0] in r;
  }

  /**
   With a maxbkeyrange R > 0, every successful insert into a sorted tree
   leaves its smallest and largest bkeys at most R apart.
   */
  lemma InsertKeepsWindow(t: seq<BElem>, a: Attrs, e: BElem)
    requires Sorted(t) && a.maxbkeyrange > 0
    requires BTreeInsert(t, a, e).Ok?
    ensures var r := BTreeInsert(t, a, e).value; Last(r) - First(r) <= a.maxbkeyrange
  {
    var R := a.maxbkeyrange;
    var t1 := FitWindow(t, R, a.ovfl, e.bkey).value;
    var t2 := FitCount(t1, a.maxcount, a.ovfl, e.bkey).value;
    var r := InsertSorted(t2, e);
    assert BTreeInsert(t, a, e) == Ok(r);
    TightSubset(t2, t1, e.bkey, R);
    TightEndsWith(r, t2, e, R);
  }
}
