/**
 The list collection's element logic: index and range resolution, reading,
 deleting, and inserting with the head-trim, tail-trim and error overflow
 policies. Indices count from 0 at the head; `-k` counts k back from the end.
 */
module Lists {
  import opened Results
  import opened Struct
  import opened Constants
  import opened Sequences

  /** Positions lo..hi of a list, read from hi down to lo when `backward`. */
  datatype Span = Span(lo: nat, hi: nat, backward: bool)

  predicate InSpan(p: int, s: Span) {
    s.lo <= p <= s.hi
  }

  /** An index as the server reads it against a list of `n` elements. */
  function Absolute(i: int, n: nat): int {
    if i < 0 then n + i else i
  }

  /**
   Resolves a `from..to` request against a list of `n` elements: the span is
   exactly the part of the requested range that lies inside the list, read
   backward when `from` resolves after `to`; a request that misses the list
   altogether is INDEXOOR.
   */
  function ResolveRange(from: int, to: int, n: nat): (r: Result<Span, Status>)
    ensures r.Err? ==> r.error == IndexOor
    ensures r.Ok? ==> r.value.lo <= r.value.hi < n
    ensures r.Ok? ==> (r.value.backward <==> Absolute(from, n) > Absolute(to, n))
    ensures r.Ok? ==> forall p :: InSpan(p, r.value) <==> 0 <= p < n && Between(p, Absolute(from, n), Absolute(to, n))
    ensures r.Err? ==> forall p :: 0 <= p < n ==> !Between(p, Absolute(from, n), Absolute(to, n))
  {
    var f, t := Absolute(from, n), Absolute(to, n);
    if f <= t then
      if n > 0 && f < n && t >= 0 then Ok(Span(if f < 0 then 0 else f, if t >= n then n - 1 else t, false))
      else Err(IndexOor)
    else
      if n > 0 && t < n && f >= 0 then Ok(Span(if t < 0 then 0 else t, if f >= n then n - 1 else f, true))
      else Err(IndexOor)
  }

  /** The elements a span reads, in reading order. */
  function Select(l: seq<Bytes>, s: Span): (r: seq<Bytes>)
    requires s.lo <= s.hi < |l|
    ensures |r| == s.hi - s.lo + 1
    ensures forall k :: 0 <= k < |r| ==> r[k] == l[if s.backward then s.hi - k else s.lo + k]
  {
    if s.backward then Reverse(l[s.lo..s.hi + 1]) else l[s.lo..s.hi + 1]
  }

  /** The list with the span's positions taken out and the rest kept in order. */
  function Cut(l: seq<Bytes>, s: Span): (r: seq<Bytes>)
    requires s.lo <= s.hi < |l|
    ensures |r| == |l| - (s.hi - s.lo + 1)
    ensures forall p :: 0 <= p < s.lo ==> r[p] == l[p]
    ensures forall p :: s.lo <= p < |r| ==> r[p] == l[p + (s.hi - s.lo + 1)]
  {
    l[..s.lo] + l[s.hi + 1..]
  }

  /** lop_get: the elements of the resolved range, in reading order. */
  function ListGet(l: seq<Bytes>, from: int, to: int): (r: Result<seq<Bytes>, Status>)
    ensures r.Err? ==> r.error == IndexOor
    ensures r.Ok? ==> 0 < |r.value| <= |l|
  {
    match ResolveRange(from, to, |l|)
    case Err(e) => Err(e)
    case Ok(s) => Ok(Select(l, s))
  }

  /** lop_delete (and the delete half of lop_get with delete): the list without the resolved range. */
  function ListDelete(l: seq<Bytes>, from: int, to: int): (r: Result<seq<Bytes>, Status>)
    ensures r.Err? ==> r.error == IndexOor
    ensures r.Ok? ==> |r.value| < |l|
  {
    match ResolveRange(from, to, |l|)
    case Err(e) => Err(e)
    case Ok(s) => Ok(Cut(l, s))
  }

  /**
   Reading a range and deleting it agree on which requests are in range, and
   what the read returns together with what the delete leaves is exactly the
   original list's contents: a get with delete removes what it returns.
   */
  lemma GetDeletePartition(l: seq<Bytes>, from: int, to: int)
    ensures ListGet(l, from, to).Ok? <==> ListDelete(l, from, to).Ok?
    ensures ListGet(l, from, to).Ok? ==>
      multiset(ListGet(l, from, to).value) + multiset(ListDelete(l, from, to).value) == multiset(l)
  {
    match ResolveRange(from, to, |l|)
    case Err(_) =>
    case Ok(s) =>
      var mid := l[s.lo..s.hi + 1];
      assert l == l[..s.lo] + mid + l[s.hi + 1..];
      assert Cut(l, s) == l[..s.lo] + l[s.hi + 1..];
      if s.backward {
        ReverseMultiset(mid);
      }
      assert multiset(Select(l, s)) == multiset(mid);
  }

  /**
   Where an insert at `index` puts the new element in a list of `n`: a
   non-negative index is the new element's position and `-k` makes it the
   k-th element from the end; an index outside [-(n+1), n] has no position.
   */
  function InsertPosition(index: int, n: nat): (r: Option<nat>)
    ensures r.Some? <==> -(n + 1) <= index <= n
    ensures r.Some? ==> r.value <= n
    ensures r.Some? && index >= 0 ==> r.value == index
    ensures r.Some? && index < 0 ==> (n + 1) - r.value == -index
  {
    if 0 <= index <= n then Some(index)
    else if -(n + 1) <= index < 0 then Some(n + 1 + index)
    else None
  }

  /**
   Where an insert puts the new element in a full list of `n` that keeps its
   size: the index must lie in [-n, n-1], and `-k` again makes the new element
   the k-th from the end.
   */
  function TrimPosition(index: int, n: nat): (r: Option<nat>)
    ensures r.Some? <==> -(n as int) <= index < n
    ensures r.Some? ==> r.value < n
    ensures r.Some? && index >= 0 ==> r.value == index
    ensures r.Some? && index < 0 ==> n - r.value == -index
  {
    if 0 <= index < n then Some(index)
    else if -(n as int) <= index < 0 then Some(n + index)
    else None
  }

  /**
   Whether a trimming insert into a full list of `n` drops the head: head-trim
   does unless the new element lands first, tail-trim does only when the new
   element lands last.
   */
  predicate DropsHead(action: OvflAction, p: nat, n: nat) {
    (action == HeadTrim && p != 0) || (action == TailTrim && p == n - 1)
  }

  predicate Trims(action: OvflAction) {
    action == HeadTrim || action == TailTrim
  }

  /** `l` with `v` placed at position `p`. */
  function PutAt(l: seq<Bytes>, p: nat, v: Bytes): (r: seq<Bytes>)
    requires p <= |l|
    ensures |r| == |l| + 1 && r[p] == v
    ensures r[..p] + r[p + 1..] == l
  {
    assert (l[..p] + [v] + l[p..])[p + 1..] == l[p..];
    l[..p] + [v] + l[p..]
  }

  /**
   lop_insert on a list whose size limit is `maxcount`. Below the limit the
   element goes in at its insert position. At the limit an error policy (or a
   policy lists do not use) refuses with OVERFLOW, and a trim policy keeps the
   size by dropping one end: the other end when the new element lands at the
   end the policy would drop.
   */
  function ListInsert(l: seq<Bytes>, maxcount: nat, action: OvflAction, index: int, v: Bytes): (r: Result<seq<Bytes>, Status>)
    ensures r.Err? ==> r.error == IndexOor || r.error == Overflow
    ensures |l| < maxcount ==> (r.Ok? <==> InsertPosition(index, |l|).Some?)
    ensures |l| < maxcount && r.Ok? ==>
      var p := InsertPosition(index, |l|).value;
      |r.value| == |l| + 1 && r.value[p] == v && r.value[..p] + r.value[p + 1..] == l
    ensures |l| >= maxcount && !Trims(action) ==> r == Err(Overflow)
    ensures |l| >= maxcount && Trims(action) ==> (r.Ok? <==> TrimPosition(index, |l|).Some?)
    ensures |l| >= maxcount && r.Ok? && TrimPosition(index, |l|).Some? ==>
      var p := TrimPosition(index, |l|).value;
      |r.value| == |l| && r.value[p] == v &&
      r.value[..p] + r.value[p + 1..] == (if DropsHead(action, p, |l|) then l[1..] else l[..|l| - 1])
    ensures |l| <= maxcount && r.Ok? ==> |r.value| <= maxcount
  {
    if |l| < maxcount then
      match InsertPosition(index, |l|)
      case None => Err(IndexOor)
      case Some(p) => Ok(PutAt(l, p, v))
    else if !Trims(action) then Err(Overflow)
    else
      match TrimPosition(index, |l|)
      case None => Err(IndexOor)
      case Some(p) => Ok(PutAt(if DropsHead(action, p, |l|) then l[1..] else l[..|l| - 1], p, v))
  }

  /**
   Inserting below the limit and then deleting the new element's position
   gives back the original list, and reading that position returns exactly
   the inserted value.
   */
  lemma InsertThenDelete(l: seq<Bytes>, maxcount: nat, action: OvflAction, index: int, v: Bytes)
    requires |l| < maxcount && InsertPosition(index, |l|).Some?
    ensures ListInsert(l, maxcount, action, index, v).Ok?
    ensures var p := InsertPosition(index, |l|).value;
      var l' := ListInsert(l, maxcount, action, index, v).value;
      ListDelete(l', p, p) == Ok(l) && ListGet(l', p, p) == Ok([v])
  {
    var p := InsertPosition(index, |l|).value;
    var l' := ListInsert(l, maxcount, action, index, v).value;
    var s := Span(p, p, false);
    assert ResolveRange(p, p, |l'|) == Ok(s);
    assert Cut(l', s) == l'[..p] + l'[p + 1..];
  }
}
