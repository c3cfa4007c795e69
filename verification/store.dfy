/**
 The server's item store as the collection commands see it. Each command looks
 its key up, gates on the item's type, applies its family's element logic, and
 then writes the item back, removes it, or leaves the store as it was. The
 store is a reference model: it pins down the replies and effects the client's
 list, set and b-tree commands expect of the server.
 */
module Server {
  import opened Results
  import opened Struct
  import opened Constants
  import opened Sequences
  import opened Items
  import opened Lists
  import opened Sets
  import opened BTrees

  /** What every item keeps between commands. */
  predicate ItemOk(item: Item) {
    match item
    case KvItem(_, _, _) => true
    case ListItem(values, a) =>
      |values| <= a.maxcount && OvflAllowed(ListType, a.ovfl) && a.maxbkeyrange == 0
    case SetItem(members, a) =>
      NoDup(members) && |members| <= a.maxcount && OvflAllowed(SetType, a.ovfl) && a.maxbkeyrange == 0
    case BTreeItem(elements, a) =>
      Sorted(elements) && |elements| <= a.maxcount && OvflAllowed(BTreeType, a.ovfl)
  }

  predicate WellFormed(st: Store) {
    forall k :: k in st ==> ItemOk(st[k])
  }

  /** The number of elements an item holds; a plain value holds none. */
  function Count(item: Item): nat {
    match item
    case KvItem(_, _, _) => 0
    case ListItem(values, _) => |values|
    case SetItem(members, _) => |members|
    case BTreeItem(elements, _) => |elements|
  }

  /** The list bound to `key`, empty when there is none. */
  function ListAt(st: Store, key: Bytes): seq<Bytes> {
    if key in st && st[key].ListItem? then st[key].values else []
  }

  /** The set bound to `key`, empty when there is none. */
  function SetAt(st: Store, key: Bytes): seq<Bytes> {
    if key in st && st[key].SetItem? then st[key].members else []
  }

  /** The b-tree bound to `key`, empty when there is none. */
  function TreeAt(st: Store, key: Bytes): seq<BElem> {
    if key in st && st[key].BTreeItem? then st[key].elements else []
  }

  /**
   The item a command of family `t` acts on: a missing key is NOT_FOUND and
   an item of another family is BADTYPE.
   */
  function Lookup(st: Store, key: Bytes, t: ItemType): (r: Result<Item, Status>)
    ensures r == Err(NotFound) <==> key !in st
    ensures r == Err(BadType) <==> key in st && TypeOf(st[key]) != t
    ensures r.Ok? ==> key in st && r.value == st[key] && TypeOf(r.value) == t
  {
    if key !in st then Err(NotFound)
    else if TypeOf(st[key]) != t then Err(BadType)
    else Ok(st[key])
  }

  /** An empty collection of family `t`. */
  function Empty(t: ItemType, a: Attrs): (r: Item)
    requires t != KvType
    ensures TypeOf(r) == t && Count(r) == 0 && !r.KvItem? && r.attrs == a
  {
    match t
    case ListType => ListItem([], a)
    case SetType => SetItem([], a)
    case BTreeType => BTreeItem([], a)
  }

  /**
   lop_create, sop_create and bop_create: an existing key is EXISTS and an
   overflow action the family does not accept is BADVALUE. Otherwise the key
   gets an empty collection with the requested flags and expiry, the
   requested maxcount as the server normalises it, and the named overflow
   action or, when none is named, the family's default.
   */
  function Create(st: Store, key: Bytes, t: ItemType, c: CreateSpec, ovfl: Option<OvflAction>): (r: Result<Store, Status>)
    requires t != KvType
    ensures r == Err(Exists) <==> key in st
    ensures r == Err(BadValue) <==> key !in st && ovfl.Some? && !OvflAllowed(t, ovfl.value)
    ensures r.Ok? ==> key in r.value && TypeOf(r.value[key]) == t && Count(r.value[key]) == 0 && Unchanged(st, r.value, key)
    ensures r.Ok? ==> !r.value[key].KvItem? && r.value[key].attrs == Attrs(c.flags, c.exptime, NormMaxCount(c.maxcount),
      if ovfl.Some? then ovfl.value else DefaultOvfl(t), 0)
  {
    if key in st then Err(Exists)
    else if ovfl.Some? && !OvflAllowed(t, ovfl.value) then Err(BadValue)
    else
      var a := NewAttrs(c, t);
      Ok(st[key := Empty(t, if ovfl.Some? then a.(ovfl := ovfl.value) else a)])
  }

  /**
   The item an insert acts on: the existing one, or for a missing key with the
   create flag a new empty collection with the create's attributes; a missing
   key without the flag is NOT_FOUND.
   */
  function Target(st: Store, key: Bytes, t: ItemType, create: Option<CreateSpec>): (r: Result<Item, Status>)
    requires t != KvType
    ensures r == Err(NotFound) <==> key !in st && create.None?
    ensures r == Err(BadType) <==> key in st && TypeOf(st[key]) != t
    ensures r.Ok? ==> TypeOf(r.value) == t && !r.value.KvItem?
    ensures r.Ok? && key in st ==> r.value == st[key]
    ensures r.Ok? && key !in st ==> create.Some? && Count(r.value) == 0 && r.value.attrs == NewAttrs(create.value, t)
    ensures r.Ok? && (key in st ==> ItemOk(st[key])) ==> ItemOk(r.value)
  {
    if key in st then Lookup(st, key, t)
    else if create.None? then Err(NotFound)
    else Ok(Empty(t, NewAttrs(create.value, t)))
  }

  /** Writes a collection back, or removes the key when `drop` holds. */
  function PutBack(st: Store, key: Bytes, item: Item, drop: bool): (r: Store)
    ensures Unchanged(st, r, key)
    ensures key in r <==> !drop
    ensures !drop ==> r[key] == item
  {
    if drop then st - {key} else st[key := item]
  }

  // ---------------------------------------------------------------- lists

  /**
   lop_insert: NOT_FOUND and BADTYPE as for any lookup (a missing key with the
   create flag gets a new list); then the list's own insert decides. On
   success the list holds the value and keeps its attributes, and no other key
   changes.
   */
  function LopInsert(st: Store, key: Bytes, index: int, v: Bytes, create: Option<CreateSpec>): (r: Result<Store, Status>)
    ensures r == Err(NotFound) <==> key !in st && create.None?
    ensures r == Err(BadType) <==> key in st && !st[key].ListItem?
    ensures r.Ok? ==> key in r.value && r.value[key].ListItem? && Unchanged(st, r.value, key)
  {
    var item :- Target(st, key, ListType, create);
    var l :- ListInsert(item.values, item.attrs.maxcount, item.attrs.ovfl, index, v);
    Ok(st[key := ListItem(l, item.attrs)])
  }

  /**
   After a lop_insert the list holds the value and keeps its attributes; below
   the limit it holds exactly what it held before plus the value.
   */
  lemma LopInsertContents(st: Store, key: Bytes, index: int, v: Bytes, create: Option<CreateSpec>)
    requires LopInsert(st, key, index, v, create).Ok?
    ensures var st' := LopInsert(st, key, index, v, create).value;
      && v in ListAt(st', key)
      && (key in st ==> st'[key].attrs == st[key].attrs)
      && (key in st && |ListAt(st, key)| < st[key].attrs.maxcount ==>
            multiset(ListAt(st', key)) == multiset(ListAt(st, key)) + multiset{v})
  {
    var item := Target(st, key, ListType, create).value;
    var n := |item.values|;
    var l := ListInsert(item.values, item.attrs.maxcount, item.attrs.ovfl, index, v).value;
    assert LopInsert(st, key, index, v, create) == Ok(st[key := ListItem(l, item.attrs)]);
    if n < item.attrs.maxcount {
      var p := InsertPosition(index, n).value;
      assert item.values == l[..p] + l[p + 1..];
      assert l == l[..p] + [v] + l[p + 1..];
    } else {
      var p := TrimPosition(index, n).value;
      assert l == l[..p] + [v] + l[p + 1..];
    }
  }

  /** What a read of a collection returns: the item's flags and the elements, and the store afterwards. */
  datatype Fetched<T> = Fetched(flags: nat, elems: seq<T>, after: Store)

  /**
   lop_get: NOT_FOUND and BADTYPE as for any lookup, INDEXOOR for a range that
   misses the list. A plain read leaves the store alone; a read with delete
   removes exactly what it returns, and a list it empties disappears.
   */
  function LopGet(st: Store, key: Bytes, from: int, to: int, delete: bool): (r: Result<Fetched<Bytes>, Status>)
    ensures r == Err(NotFound) <==> key !in st
    ensures r == Err(BadType) <==> key in st && !st[key].ListItem?
    ensures r == Err(IndexOor) <==>
      key in st && st[key].ListItem? && ResolveRange(from, to, |st[key].values|).Err?
    ensures r.Ok? ==> r.value.flags == st[key].attrs.flags && 0 < |r.value.elems|
    ensures r.Ok? && !delete ==> r.value.after == st
    ensures r.Ok? && delete ==> Unchanged(st, r.value.after, key)
  {
    var item :- Lookup(st, key, ListType);
    var got :- ListGet(item.values, from, to);
    if !delete then Ok(Fetched(item.attrs.flags, got, st))
    else
      GetDeletePartition(item.values, from, to);
      var rest := ListDelete(item.values, from, to).value;
      Ok(Fetched(item.attrs.flags, got, PutBack(st, key, item.(values := rest), |rest| == 0)))
  }

  /**
   A lop_get with delete removes exactly what it returns: the elements read
   and the elements left are together the list's contents, and a list the
   read empties disappears.
   */
  lemma LopGetRemovesWhatItReturns(st: Store, key: Bytes, from: int, to: int)
    requires LopGet(st, key, from, to, true).Ok?
    ensures var f := LopGet(st, key, from, to, true).value;
      && multiset(f.elems) + multiset(ListAt(f.after, key)) == multiset(ListAt(st, key))
      && (key in f.after <==> |f.elems| < |ListAt(st, key)|)
  {
    var item := st[key];
    GetDeletePartition(item.values, from, to);
    var got := ListGet(item.values, from, to).value;
    var rest := ListDelete(item.values, from, to).value;
    assert LopGet(st, key, from, to, true) == Ok(Fetched(item.attrs.flags, got, PutBack(st, key, item.(values := rest), |rest| == 0)));
  }

  /**
   lop_delete: the lookup errors, INDEXOOR for a range that misses the list,
   and otherwise the range leaves the list; a list it empties disappears.
   */
  function LopDelete(st: Store, key: Bytes, from: int, to: int): (r: Result<Store, Status>)
    ensures r == Err(NotFound) <==> key !in st
    ensures r == Err(BadType) <==> key in st && !st[key].ListItem?
    ensures r == Err(IndexOor) <==>
      key in st && st[key].ListItem? && ResolveRange(from, to, |st[key].values|).Err?
    ensures r.Ok? ==> Unchanged(st, r.value, key) && |ListAt(r.value, key)| < |ListAt(st, key)|
    ensures r.Ok? ==> multiset(ListAt(r.value, key)) <= multiset(ListAt(st, key))
    ensures r.Ok? ==> (key in r.value <==> |ListAt(r.value, key)| > 0)
  {
    var item :- Lookup(st, key, ListType);
    GetDeletePartition(item.values, from, to);
    var rest :- ListDelete(item.values, from, to);
    Ok(PutBack(st, key, item.(values := rest), |rest| == 0))
  }

  /**
   A lop_delete is a lop_get with delete whose reply is dropped: the two agree
   on every error and on the store they leave.
   */
  lemma LopDeleteIsGetDelete(st: Store, key: Bytes, from: int, to: int)
    ensures LopDelete(st, key, from, to).Ok? <==> LopGet(st, key, from, to, true).Ok?
    ensures LopDelete(st, key, from, to).Err? ==>
      LopDelete(st, key, from, to).error == LopGet(st, key, from, to, true).error
    ensures LopDelete(st, key, from, to).Ok? ==>
      LopDelete(st, key, from, to).value == LopGet(st, key, from, to, true).value.after
  {
    if key in st && st[key].ListItem? {
      GetDeletePartition(st[key].values, from, to);
    }
  }

  // ----------------------------------------------------------------- sets

  /**
   sop_insert: the lookup errors (a missing key with the create flag gets a
   new set), then ELEM_EXISTS for a member and OVERFLOW for a full set. On
   success the members gain exactly the value.
   */
  function SopInsert(st: Store, key: Bytes, v: Bytes, create: Option<CreateSpec>): (r: Result<Store, Status>)
    ensures r == Err(NotFound) <==> key !in st && create.None?
    ensures r == Err(BadType) <==> key in st && !st[key].SetItem?
    ensures r == Err(ElemExists) <==> key in st && st[key].SetItem? && v in st[key].members
    ensures r.Ok? ==> key in r.value && r.value[key].SetItem? && Unchanged(st, r.value, key)
    ensures r.Ok? ==> Members(SetAt(r.value, key)) == Members(SetAt(st, key)) + {v}
    ensures r.Ok? && key in st ==> r.value[key].attrs == st[key].attrs
  {
    var item :- Target(st, key, SetType, create);
    var s :- SetInsert(item.members, item.attrs.maxcount, v);
    Ok(st[key := SetItem(s, item.attrs)])
  }

  /**
   sop_delete: the lookup errors, ELEM_NOENT for a non-member, and otherwise
   the value leaves the members; a set it empties disappears.
   */
  function SopDelete(st: Store, key: Bytes, v: Bytes): (r: Result<Store, Status>)
    ensures r == Err(NotFound) <==> key !in st
    ensures r == Err(BadType) <==> key in st && !st[key].SetItem?
    ensures r == Err(ElemNoent) <==> key in st && st[key].SetItem? && v !in st[key].members
    ensures r.Ok? ==> Unchanged(st, r.value, key) && |SetAt(r.value, key)| == |SetAt(st, key)| - 1
    ensures r.Ok? && WellFormed(st) ==> Members(SetAt(r.value, key)) == Members(SetAt(st, key)) - {v}
    ensures r.Ok? ==> (key in r.value <==> |SetAt(r.value, key)| > 0)
  {
    var item :- Lookup(st, key, SetType);
    var s :- SetRemove(item.members, v);
    Ok(PutBack(st, key, item.(members := s), |s| == 0))
  }

  /** sop_exist: the lookup errors, else 1 for a member and 0 otherwise. */
  function SopExist(st: Store, key: Bytes, v: Bytes): (r: Result<nat, Status>)
    ensures r == Err(NotFound) <==> key !in st
    ensures r == Err(BadType) <==> key in st && !st[key].SetItem?
    ensures r.Ok? ==> (r.value == 1 <==> v in SetAt(st, key)) && (r.value == 0 <==> v !in SetAt(st, key))
  {
    var item :- Lookup(st, key, SetType);
    Ok(SetExist(item.members, v))
  }

  /**
   sop_get: the lookup errors; otherwise `count` members (all of them when
   count is 0 or covers the set). With delete the returned members leave the
   set and a set it empties disappears.
   */
  function SopGet(st: Store, key: Bytes, count: nat, delete: bool): (r: Result<Fetched<Bytes>, Status>)
    ensures r == Err(NotFound) <==> key !in st
    ensures r == Err(BadType) <==> key in st && !st[key].SetItem?
    ensures r.Ok? ==> r.value.flags == st[key].attrs.flags && Members(r.value.elems) <= Members(SetAt(st, key))
    ensures r.Ok? ==> |r.value.elems| == if count == 0 || count >= |SetAt(st, key)| then |SetAt(st, key)| else count
    ensures r.Ok? && !delete ==> r.value.after == st
    ensures r.Ok? && delete ==> Unchanged(st, r.value.after, key)
    ensures r.Ok? && delete && WellFormed(st) ==>
      Members(SetAt(r.value.after, key)) == Members(SetAt(st, key)) - Members(r.value.elems)
    ensures r.Ok? && delete ==> (key in r.value.after <==> |r.value.elems| < |SetAt(st, key)|)
  {
    var item :- Lookup(st, key, SetType);
    var got := SetTake(item.members, count);
    if !delete then Ok(Fetched(item.attrs.flags, got, st))
    else
      var rest := SetLeave(item.members, count);
      var after := PutBack(st, key, item.(members := rest), |rest| == 0);
      if NoDup(item.members) then
        TakeLeavePartition(item.members, count);
        Ok(Fetched(item.attrs.flags, got, after))
      else
        Ok(Fetched(item.attrs.flags, got, after))
  }

  // -------------------------------------------------------------- b-trees

  /**
   bop_insert: the lookup errors (a missing key with the create flag gets a
   new tree), then the tree's own insert decides. On success the element is in
   the tree, everything else there was there before, and the tree stays
   sorted and within its maxcount.
   */
  function BopInsert(st: Store, key: Bytes, e: BElem, create: Option<CreateSpec>): (r: Result<Store, Status>)
    ensures r == Err(NotFound) <==> key !in st && create.None?
    ensures r == Err(BadType) <==> key in st && !st[key].BTreeItem?
    ensures r.Ok? ==> key in r.value && r.value[key].BTreeItem? && Unchanged(st, r.value, key)
  {
    var item :- Target(st, key, BTreeType, create);
    var t :- BTreeInsert(item.elements, item.attrs, e);
    Ok(PutBack(st, key, BTreeItem(t, item.attrs), false))
  }

  /**
   After a bop_insert the element is in the tree, everything else there was
   there before, and the tree keeps its attributes.
   */
  lemma BopInsertContents(st: Store, key: Bytes, e: BElem, create: Option<CreateSpec>)
    requires BopInsert(st, key, e, create).Ok?
    ensures var st' := BopInsert(st, key, e, create).value;
      && e in TreeAt(st', key)
      && (forall x :: x in TreeAt(st', key) ==> x in TreeAt(st, key) || x == e)
      && (key in st ==> st'[key].attrs == st[key].attrs)
  {
    var item := Target(st, key, BTreeType, create).value;
    var t := BTreeInsert(item.elements, item.attrs, e).value;
    assert BopInsert(st, key, e, create) == Ok(PutBack(st, key, BTreeItem(t, item.attrs), false));
  }

  /** A bop_insert of a bkey the tree already holds is ELEM_EXISTS, and only such an insert is. */
  lemma BopInsertDuplicate(st: Store, key: Bytes, e: BElem, create: Option<CreateSpec>)
    ensures BopInsert(st, key, e, create) == Err(ElemExists) <==>
      key in st && st[key].BTreeItem? && HasKey(st[key].elements, e.bkey)
  {
    if Target(st, key, BTreeType, create).Ok? {
      var item := Target(st, key, BTreeType, create).value;
      var t := BTreeInsert(item.elements, item.attrs, e);
      assert t.Err? ==> BopInsert(st, key, e, create) == Err(t.error);
    }
  }

  /**
   bop_get: the lookup errors, ELEM_NOENT when the range has no match at or
   after `offset`; otherwise the page of matches in traversal order. With
   delete the page leaves the tree, which stays even when emptied unless
   `dropIfEmpty` is set.
   */
  function BopGet(st: Store, key: Bytes, from: nat, to: nat, offset: nat, count: nat, delete: bool, dropIfEmpty: bool)
    : (r: Result<Fetched<BElem>, Status>)
    ensures r == Err(NotFound) <==> key !in st
    ensures r == Err(BadType) <==> key in st && !st[key].BTreeItem?
    ensures r == Err(ElemNoent) <==> key in st && st[key].BTreeItem? && offset >= |Traverse(st[key].elements, from, to)|
    ensures r.Ok? ==> r.value.flags == st[key].attrs.flags
    ensures r.Ok? ==> forall x :: x in r.value.elems ==> x in TreeAt(st, key) && Between(x.bkey, from, to)
    ensures r.Ok? && count > 0 ==> |r.value.elems| <= count
    ensures r.Ok? && !delete ==> r.value.after == st
    ensures r.Ok? && delete ==> Unchanged(st, r.value.after, key)
  {
    var item :- Lookup(st, key, BTreeType);
    var got :- BTreeGet(item.elements, from, to, offset, count);
    if !delete then Ok(Fetched(item.attrs.flags, got, st))
    else
      var rest := Without(item.elements, got);
      Ok(Fetched(item.attrs.flags, got, PutBack(st, key, item.(elements := rest), dropIfEmpty && |rest| == 0)))
  }

  /**
   A bop_get with delete removes exactly what it returns, and the tree stays
   even when emptied unless drop-if-empty is asked for.
   */
  lemma BopGetRemovesWhatItReturns(st: Store, key: Bytes, from: nat, to: nat, offset: nat, count: nat, dropIfEmpty: bool)
    requires BopGet(st, key, from, to, offset, count, true, dropIfEmpty).Ok?
    ensures var f := BopGet(st, key, from, to, offset, count, true, dropIfEmpty).value;
      && (forall x :: x in TreeAt(f.after, key) <==> x in TreeAt(st, key) && x !in f.elems)
      && (key !in f.after <==> dropIfEmpty && |TreeAt(f.after, key)| == 0)
  {
    var item := st[key];
    var got := BTreeGet(item.elements, from, to, offset, count).value;
    var rest := Without(item.elements, got);
    assert BopGet(st, key, from, to, offset, count, true, dropIfEmpty) ==
      Ok(Fetched(item.attrs.flags, got, PutBack(st, key, item.(elements := rest), dropIfEmpty && |rest| == 0)));
  }

  /**
   bop_delete: the lookup errors, ELEM_NOENT when no bkey lies in the range;
   otherwise the first `count` matches (all when count is 0) leave the tree,
   which stays even when emptied unless `dropIfEmpty` is set.
   */
  function BopDelete(st: Store, key: Bytes, from: nat, to: nat, count: nat, dropIfEmpty: bool): (r: Result<Store, Status>)
    ensures r == Err(NotFound) <==> key !in st
    ensures r == Err(BadType) <==> key in st && !st[key].BTreeItem?
    ensures r == Err(ElemNoent) <==> key in st && st[key].BTreeItem? && forall x :: x in st[key].elements ==> !Between(x.bkey, from, to)
    ensures r.Ok? ==> Unchanged(st, r.value, key)
    ensures r.Ok? ==> forall x :: x in TreeAt(r.value, key) ==> x in TreeAt(st, key) && x !in Selection(TreeAt(st, key), from, to, 0, count)
    ensures r.Ok? && count == 0 ==> forall x :: x in TreeAt(r.value, key) <==> x in TreeAt(st, key) && !Between(x.bkey, from, to)
    ensures r.Ok? ==> (key !in r.value <==> dropIfEmpty && |TreeAt(r.value, key)| == 0)
  {
    var item :- Lookup(st, key, BTreeType);
    var rest :- BTreeDelete(item.elements, from, to, count);
    Ok(PutBack(st, key, item.(elements := rest), dropIfEmpty && |rest| == 0))
  }

  /** bop_count: the lookup errors, else the tree's flags and the number of bkeys in the range. */
  function BopCount(st: Store, key: Bytes, from: nat, to: nat): (r: Result<(nat, nat), Status>)
    ensures r == Err(NotFound) <==> key !in st
    ensures r == Err(BadType) <==> key in st && !st[key].BTreeItem?
    ensures r.Ok? ==> r.value.0 == st[key].attrs.flags
    ensures r.Ok? && WellFormed(st) ==> r.value.1 == |set x | x in TreeAt(st, key) && Between(x.bkey, from, to)|
  {
    var item :- Lookup(st, key, BTreeType);
    Ok((item.attrs.flags, BTreeCount(item.elements, from, to)))
  }

  // ----------------------------------------------------------- attributes

  /** The attributes a setattr names; an absent one is left as it is. */
  datatype AttrChange = AttrChange(exptime: Option<int>, maxcount: Option<int>, maxbkeyrange: Option<nat>, ovfl: Option<OvflAction>)

  /** Names an attribute that only collections carry. */
  predicate CollectionOnly(ch: AttrChange) {
    ch.maxcount.Some? || ch.maxbkeyrange.Some? || ch.ovfl.Some?
  }

  /** An attribute change the item's kind has no such attribute for. */
  predicate Inapplicable(item: Item, ch: AttrChange) {
    (item.KvItem? && CollectionOnly(ch)) || ((item.ListItem? || item.SetItem?) && ch.maxbkeyrange.Some?)
  }

  /** An attribute change with a value the collection cannot take. */
  predicate Refused(item: Item, ch: AttrChange)
    requires !item.KvItem?
  {
    (ch.ovfl.Some? && !OvflAllowed(TypeOf(item), ch.ovfl.value)) ||
    (ch.maxcount.Some? && NormMaxCount(ch.maxcount.value) < Count(item))
  }

  function Apply(a: Attrs, ch: AttrChange): (r: Attrs)
    ensures r.flags == a.flags
    ensures r.exptime == (if ch.exptime.Some? then ch.exptime.value else a.exptime)
    ensures r.maxcount == (if ch.maxcount.Some? then NormMaxCount(ch.maxcount.value) else a.maxcount)
    ensures r.maxbkeyrange == (if ch.maxbkeyrange.Some? then ch.maxbkeyrange.value else a.maxbkeyrange)
    ensures r.ovfl == (if ch.ovfl.Some? then ch.ovfl.value else a.ovfl)
  {
    Attrs(a.flags,
          if ch.exptime.Some? then ch.exptime.value else a.exptime,
          if ch.maxcount.Some? then NormMaxCount(ch.maxcount.value) else a.maxcount,
          if ch.ovfl.Some? then ch.ovfl.value else a.ovfl,
          if ch.maxbkeyrange.Some? then ch.maxbkeyrange.value else a.maxbkeyrange)
  }

  /**
   setattr: NOT_FOUND for a missing key, BADATTR for an attribute the item has
   no such thing as, BADVALUE for an overflow action the family refuses or a
   maxcount below the current count. Otherwise the named attributes take their
   new values and the elements stay as they were.
   */
  function SetAttr(st: Store, key: Bytes, ch: AttrChange): (r: Result<Store, Status>)
    ensures r == Err(NotFound) <==> key !in st
    ensures r == Err(BadAttr) <==> key in st && Inapplicable(st[key], ch)
    ensures r == Err(BadValue) <==> key in st && !Inapplicable(st[key], ch) && !st[key].KvItem? && Refused(st[key], ch)
    ensures r.Ok? ==> key in r.value && Unchanged(st, r.value, key)
    ensures r.Ok? ==> TypeOf(r.value[key]) == TypeOf(st[key]) && Count(r.value[key]) == Count(st[key])
    ensures r.Ok? && st[key].KvItem? ==> r.value[key].value == st[key].value && r.value[key].flags == st[key].flags
    ensures r.Ok? && !st[key].KvItem? ==> !r.value[key].KvItem? && r.value[key].attrs == Apply(st[key].attrs, ch)
  {
    if key !in st then Err(NotFound)
    else
      var item := st[key];
      if Inapplicable(item, ch) then Err(BadAttr)
      else if item.KvItem? then
        Ok(st[key := item.(exptime := if ch.exptime.Some? then ch.exptime.value else item.exptime)])
      else if Refused(item, ch) then Err(BadValue)
      else Ok(st[key := item.(attrs := Apply(item.attrs, ch))])
  }

  /** What getattr reports; a plain value reports no count, limits or overflow action. */
  datatype AttrReport = AttrReport(flags: nat, exptime: int, count: nat, maxcount: nat, maxbkeyrange: nat,
                                   itemType: ItemType, ovfl: Option<OvflAction>)

  /** getattr: NOT_FOUND for a missing key, else the item's attributes as they stand. */
  function GetAttr(st: Store, key: Bytes): (r: Result<AttrReport, Status>)
    ensures r.Err? <==> key !in st
    ensures r.Err? ==> r.error == NotFound
    ensures r.Ok? ==> r.value.itemType == TypeOf(st[key]) && r.value.count == Count(st[key])
    ensures r.Ok? && st[key].KvItem? ==> r.value.flags == st[key].flags && r.value.ovfl.None? && r.value.maxcount == 0
    ensures r.Ok? && !st[key].KvItem? ==>
      var a := st[key].attrs;
      r.value.flags == a.flags && r.value.exptime == a.exptime && r.value.maxcount == a.maxcount &&
      r.value.maxbkeyrange == a.maxbkeyrange && r.value.ovfl == Some(a.ovfl)
  {
    if key !in st then Err(NotFound)
    else
      match st[key]
      case KvItem(flags, exptime, _) => Ok(AttrReport(flags, exptime, 0, 0, 0, KvType, None))
      case ListItem(values, a) => Ok(AttrReport(a.flags, a.exptime, |values|, a.maxcount, a.maxbkeyrange, ListType, Some(a.ovfl)))
      case SetItem(members, a) => Ok(AttrReport(a.flags, a.exptime, |members|, a.maxcount, a.maxbkeyrange, SetType, Some(a.ovfl)))
      case BTreeItem(elements, a) => Ok(AttrReport(a.flags, a.exptime, |elements|, a.maxcount, a.maxbkeyrange, BTreeType, Some(a.ovfl)))
  }

  /** A setattr that succeeds is what a later getattr reports. */
  lemma SetAttrThenGetAttr(st: Store, key: Bytes, ch: AttrChange)
    requires SetAttr(st, key, ch).Ok? && !st[key].KvItem?
    ensures var rep := GetAttr(SetAttr(st, key, ch).value, key);
      rep.Ok? && rep.value.count == Count(st[key]) &&
      (ch.maxcount.Some? ==> rep.value.maxcount == NormMaxCount(ch.maxcount.value)) &&
      (ch.ovfl.Some? ==> rep.value.ovfl == ch.ovfl) &&
      (ch.exptime.Some? ==> rep.value.exptime == ch.exptime.value) &&
      (ch.maxbkeyrange.Some? ==> rep.value.maxbkeyrange == ch.maxbkeyrange.value)
  {
  }

  // ----------------------------------------------------- key-value items

  /** get: NOT_FOUND for a missing key, BADTYPE for a collection, else the flags and the value. */
  function KvGet(st: Store, key: Bytes): (r: Result<(nat, Bytes), Status>)
    ensures r == Err(NotFound) <==> key !in st
    ensures r == Err(BadType) <==> key in st && !st[key].KvItem?
    ensures r.Ok? ==> st[key] == KvItem(r.value.0, st[key].exptime, r.value.1)
  {
    var item :- Lookup(st, key, KvType);
    Ok((item.flags, item.value))
  }

  /** The storage commands that write a whole value. */
  datatype StoreMode = SetMode | AddMode | ReplaceMode

  /**
   set, add and replace: add refuses an existing key with EXISTS, replace a
   missing one with NOT_FOUND, and set and replace refuse a collection with
   BADTYPE. Otherwise the key holds the new plain value.
   */
  function KvStore(st: Store, key: Bytes, mode: StoreMode, flags: nat, exptime: int, v: Bytes): (r: Result<Store, Status>)
    ensures r == Err(Exists) <==> mode == AddMode && key in st
    ensures r == Err(NotFound) <==> mode == ReplaceMode && key !in st
    ensures r == Err(BadType) <==> mode != AddMode && key in st && !st[key].KvItem?
    ensures r.Ok? ==> Unchanged(st, r.value, key) && KvGet(r.value, key) == Ok((flags, v))
  {
    if mode == AddMode && key in st then Err(Exists)
    else if mode == ReplaceMode && key !in st then Err(NotFound)
    else if key in st && !st[key].KvItem? then Err(BadType)
    else Ok(st[key := KvItem(flags, exptime, v)])
  }

  /**
   append and prepend: NOT_FOUND for a missing key, BADTYPE for a
   collection; otherwise the value gains `v` at the end or at the front and
   keeps its flags.
   */
  function KvConcat(st: Store, key: Bytes, v: Bytes, front: bool): (r: Result<Store, Status>)
    ensures r == Err(NotFound) <==> key !in st
    ensures r == Err(BadType) <==> key in st && !st[key].KvItem?
    ensures r.Ok? ==> Unchanged(st, r.value, key) && KvGet(r.value, key).Ok?
    ensures r.Ok? ==> var (flags, w) := KvGet(r.value, key).value;
      flags == st[key].flags && |w| == |st[key].value| + |v| &&
      (if front then w[|v|..] == st[key].value && w[..|v|] == v else w[..|st[key].value|] == st[key].value && w[|st[key].value|..] == v)
  {
    var item :- Lookup(st, key, KvType);
    var w := if front then v + item.value else item.value + v;
    Ok(st[key := item.(value := w)])
  }

  /** incr and decr: a collection key is BADTYPE before any arithmetic happens. */
  function CounterGate(st: Store, key: Bytes): (r: Option<Status>)
    ensures r == Some(BadType) <==> key in st && !st[key].KvItem?
    ensures r.Some? ==> r.value == BadType
  {
    if key in st && !st[key].KvItem? then Some(BadType) else None
  }

  /** delete: NOT_FOUND for a missing key; otherwise the key, of any type, is gone. */
  function Delete(st: Store, key: Bytes): (r: Result<Store, Status>)
    ensures r.Err? <==> key !in st
    ensures r.Err? ==> r.error == NotFound
    ensures r.Ok? ==> key !in r.value && Unchanged(st, r.value, key)
  {
    if key !in st then Err(NotFound) else Ok(st - {key})
  }

  /** flush: every key is gone. */
  function Flush(st: Store): (r: Store)
    ensures forall k :: k !in r
  {
    map[]
  }

  // -------------------------------------------------------- the invariant

  /** The commands that change the store, with the arguments each carries. */
  datatype Command =
    | LopCreateCmd(key: Bytes, spec: CreateSpec, ovfl: Option<OvflAction>)
    | LopInsertCmd(key: Bytes, index: int, value: Bytes, create: Option<CreateSpec>)
    | LopDeleteCmd(key: Bytes, from: int, to: int)
    | LopGetCmd(key: Bytes, from: int, to: int, delete: bool)
    | SopCreateCmd(key: Bytes, spec: CreateSpec)
    | SopInsertCmd(key: Bytes, value: Bytes, create: Option<CreateSpec>)
    | SopDeleteCmd(key: Bytes, value: Bytes)
    | SopGetCmd(key: Bytes, count: nat, delete: bool)
    | BopCreateCmd(key: Bytes, spec: CreateSpec, ovfl: Option<OvflAction>)
    | BopInsertCmd(key: Bytes, elem: BElem, create: Option<CreateSpec>)
    | BopDeleteCmd(key: Bytes, bfrom: nat, bto: nat, count: nat, dropIfEmpty: bool)
    | BopGetCmd(key: Bytes, bfrom: nat, bto: nat, offset: nat, count: nat, delete: bool, dropIfEmpty: bool)
    | SetAttrCmd(key: Bytes, change: AttrChange)
    | StoreCmd(key: Bytes, mode: StoreMode, flags: nat, exptime: int, value: Bytes)
    | ConcatCmd(key: Bytes, value: Bytes, front: bool)
    | DeleteCmd(key: Bytes)
    | FlushCmd

  /** The store a command leaves, or the status it fails with. */
  function Step(st: Store, cmd: Command): Result<Store, Status> {
    match cmd
    case LopCreateCmd(key, spec, ovfl) => Create(st, key, ListType, spec, ovfl)
    case LopInsertCmd(key, index, v, create) => LopInsert(st, key, index, v, create)
    case LopDeleteCmd(key, from, to) => LopDelete(st, key, from, to)
    case LopGetCmd(key, from, to, delete) =>
      var f :- LopGet(st, key, from, to, delete); Ok(f.after)
    case SopCreateCmd(key, spec) => Create(st, key, SetType, spec, None)
    case SopInsertCmd(key, v, create) => SopInsert(st, key, v, create)
    case SopDeleteCmd(key, v) => SopDelete(st, key, v)
    case SopGetCmd(key, count, delete) =>
      var f :- SopGet(st, key, count, delete); Ok(f.after)
    case BopCreateCmd(key, spec, ovfl) => Create(st, key, BTreeType, spec, ovfl)
    case BopInsertCmd(key, e, create) => BopInsert(st, key, e, create)
    case BopDeleteCmd(key, from, to, count, drop) => BopDelete(st, key, from, to, count, drop)
    case BopGetCmd(key, from, to, offset, count, delete, drop) =>
      var f :- BopGet(st, key, from, to, offset, count, delete, drop); Ok(f.after)
    case SetAttrCmd(key, ch) => SetAttr(st, key, ch)
    case StoreCmd(key, mode, flags, exptime, v) => KvStore(st, key, mode, flags, exptime, v)
    case ConcatCmd(key, v, front) => KvConcat(st, key, v, front)
    case DeleteCmd(key) => Delete(st, key)
    case FlushCmd => Ok(Flush(st))
  }

  lemma PutKeeps(st: Store, key: Bytes, item: Item)
    requires WellFormed(st) && ItemOk(item)
    ensures WellFormed(st[key := item])
  {
  }

  lemma RemoveKeeps(st: Store, key: Bytes)
    requires WellFormed(st)
    ensures WellFormed(st - {key})
  {
  }

  lemma CreateKeeps(st: Store, key: Bytes, t: ItemType, c: CreateSpec, ovfl: Option<OvflAction>)
    requires WellFormed(st) && t != KvType && Create(st, key, t, c, ovfl).Ok?
    ensures WellFormed(Create(st, key, t, c, ovfl).value)
  {
    var a := NewAttrs(c, t);
    var item := Empty(t, if ovfl.Some? then a.(ovfl := ovfl.value) else a);
    assert ItemOk(item);
    PutKeeps(st, key, item);
  }

  lemma LopInsertKeeps(st: Store, key: Bytes, index: int, v: Bytes, create: Option<CreateSpec>)
    requires WellFormed(st) && LopInsert(st, key, index, v, create).Ok?
    ensures WellFormed(LopInsert(st, key, index, v, create).value)
  {
    var item := Target(st, key, ListType, create).value;
    var l := ListInsert(item.values, item.attrs.maxcount, item.attrs.ovfl, index, v).value;
    assert LopInsert(st, key, index, v, create) == Ok(st[key := ListItem(l, item.attrs)]);
    PutKeeps(st, key, ListItem(l, item.attrs));
  }

  lemma LopDeleteKeeps(st: Store, key: Bytes, from: int, to: int)
    requires WellFormed(st) && LopDelete(st, key, from, to).Ok?
    ensures WellFormed(LopDelete(st, key, from, to).value)
  {
    var item := st[key];
    var rest := ListDelete(item.values, from, to).value;
    assert LopDelete(st, key, from, to) == Ok(PutBack(st, key, item.(values := rest), |rest| == 0));
    if |rest| == 0 { RemoveKeeps(st, key); } else { PutKeeps(st, key, item.(values := rest)); }
  }

  lemma SopInsertKeeps(st: Store, key: Bytes, v: Bytes, create: Option<CreateSpec>)
    requires WellFormed(st) && SopInsert(st, key, v, create).Ok?
    ensures WellFormed(SopInsert(st, key, v, create).value)
  {
    var item := Target(st, key, SetType, create).value;
    var s := SetInsert(item.members, item.attrs.maxcount, v).value;
    assert SopInsert(st, key, v, create) == Ok(st[key := SetItem(s, item.attrs)]);
    PutKeeps(st, key, SetItem(s, item.attrs));
  }

  lemma SopDeleteKeeps(st: Store, key: Bytes, v: Bytes)
    requires WellFormed(st) && SopDelete(st, key, v).Ok?
    ensures WellFormed(SopDelete(st, key, v).value)
  {
    var item := st[key];
    var s := SetRemove(item.members, v).value;
    assert SopDelete(st, key, v) == Ok(PutBack(st, key, item.(members := s), |s| == 0));
    if |s| == 0 { RemoveKeeps(st, key); } else { PutKeeps(st, key, item.(members := s)); }
  }

  lemma SopGetKeeps(st: Store, key: Bytes, count: nat, delete: bool)
    requires WellFormed(st) && SopGet(st, key, count, delete).Ok?
    ensures WellFormed(SopGet(st, key, count, delete).value.after)
  {
    if delete {
      var item := st[key];
      var rest := SetLeave(item.members, count);
      TakeLeavePartition(item.members, count);
      assert SopGet(st, key, count, delete).value.after == PutBack(st, key, item.(members := rest), |rest| == 0);
      if |rest| == 0 { RemoveKeeps(st, key); } else { PutKeeps(st, key, item.(members := rest)); }
    }
  }

  lemma BopInsertKeeps(st: Store, key: Bytes, e: BElem, create: Option<CreateSpec>)
    requires WellFormed(st) && BopInsert(st, key, e, create).Ok?
    ensures WellFormed(BopInsert(st, key, e, create).value)
  {
    var item := Target(st, key, BTreeType, create).value;
    var t := BTreeInsert(item.elements, item.attrs, e).value;
    assert BopInsert(st, key, e, create) == Ok(PutBack(st, key, BTreeItem(t, item.attrs), false));
    PutKeeps(st, key, BTreeItem(t, item.attrs));
  }

  lemma BopDeleteKeeps(st: Store, key: Bytes, from: nat, to: nat, count: nat, drop: bool)
    requires WellFormed(st) && BopDelete(st, key, from, to, count, drop).Ok?
    ensures WellFormed(BopDelete(st, key, from, to, count, drop).value)
  {
    var item := st[key];
    var rest := BTreeDelete(item.elements, from, to, count).value;
    assert BopDelete(st, key, from, to, count, drop) == Ok(PutBack(st, key, item.(elements := rest), drop && |rest| == 0));
    if drop && |rest| == 0 { RemoveKeeps(st, key); } else { PutKeeps(st, key, item.(elements := rest)); }
  }

  lemma BopGetKeeps(st: Store, key: Bytes, from: nat, to: nat, offset: nat, count: nat, delete: bool, drop: bool)
    requires WellFormed(st) && BopGet(st, key, from, to, offset, count, delete, drop).Ok?
    ensures WellFormed(BopGet(st, key, from, to, offset, count, delete, drop).value.after)
  {
    if delete {
      var item := st[key];
      var got := BTreeGet(item.elements, from, to, offset, count).value;
      var rest := Without(item.elements, got);
      WithoutSorted(item.elements, got);
      assert BopGet(st, key, from, to, offset, count, delete, drop).value.after ==
        PutBack(st, key, item.(elements := rest), drop && |rest| == 0);
      if drop && |rest| == 0 { RemoveKeeps(st, key); } else { PutKeeps(st, key, item.(elements := rest)); }
    }
  }

  lemma SetAttrKeeps(st: Store, key: Bytes, ch: AttrChange)
    requires WellFormed(st) && SetAttr(st, key, ch).Ok?
    ensures WellFormed(SetAttr(st, key, ch).value)
  {
    PutKeeps(st, key, SetAttr(st, key, ch).value[key]);
    assert SetAttr(st, key, ch).value == st[key := SetAttr(st, key, ch).value[key]];
  }

  /**
   Every command keeps the store well formed: lists and sets within their
   maxcount, sets without repeats, b-trees sorted by bkey and within their
   maxcount, and each collection's overflow action one its family accepts.
   */
  lemma StepKeepsWellFormed(st: Store, cmd: Command)
    requires WellFormed(st)
    ensures Step(st, cmd).Ok? ==> WellFormed(Step(st, cmd).value)
  {
    if Step(st, cmd).Ok? {
      match cmd
      case LopCreateCmd(key, spec, ovfl) => CreateKeeps(st, key, ListType, spec, ovfl);
      case LopInsertCmd(key, index, v, create) => LopInsertKeeps(st, key, index, v, create);
      case LopDeleteCmd(key, from, to) => LopDeleteKeeps(st, key, from, to);
      case LopGetCmd(key, from, to, delete) =>
        if delete {
          LopDeleteIsGetDelete(st, key, from, to);
          LopDeleteKeeps(st, key, from, to);
        }
      case SopCreateCmd(key, spec) => CreateKeeps(st, key, SetType, spec, None);
      case SopInsertCmd(key, v, create) => SopInsertKeeps(st, key, v, create);
      case SopDeleteCmd(key, v) => SopDeleteKeeps(st, key, v);
      case SopGetCmd(key, count, delete) => SopGetKeeps(st, key, count, delete);
      case BopCreateCmd(key, spec, ovfl) => CreateKeeps(st, key, BTreeType, spec, ovfl);
      case BopInsertCmd(key, e, create) => BopInsertKeeps(st, key, e, create);
      case BopDeleteCmd(key, from, to, count, drop) => BopDeleteKeeps(st, key, from, to, count, drop);
      case BopGetCmd(key, from, to, offset, count, delete, drop) => BopGetKeeps(st, key, from, to, offset, count, delete, drop);
      case SetAttrCmd(key, ch) => SetAttrKeeps(st, key, ch);
      case StoreCmd(key, mode, flags, exptime, v) => PutKeeps(st, key, KvItem(flags, exptime, v));
      case ConcatCmd(key, v, front) => PutKeeps(st, key, Step(st, cmd).value[key]);
      case DeleteCmd(key) => RemoveKeeps(st, key);
      case FlushCmd =>
    }
  }

  /** A session: the commands applied in order, stopping at the first failure. */
  function Run(st: Store, cmds: seq<Command>): Result<Store, Status>
    decreases |cmds|
  {
    if |cmds| == 0 then Ok(st)
    else
      match Step(st, cmds[0])
      case Err(e) => Err(e)
      case Ok(st') => Run(st', cmds[1..])
  }

  /** A session that starts from a well-formed store and succeeds ends in a well-formed store. */
  lemma {:induction false} RunKeepsWellFormed(st: Store, cmds: seq<Command>)
    requires WellFormed(st)
    ensures Run(st, cmds).Ok? ==> WellFormed(Run(st, cmds).value)
    decreases |cmds|
  {
    if |cmds| > 0 {
      StepKeepsWellFormed(st, cmds[0]);
      if Step(st, cmds[0]).Ok? {
        RunKeepsWellFormed(Step(st, cmds[0]).value, cmds[1..]);
      }
    }
  }
}
