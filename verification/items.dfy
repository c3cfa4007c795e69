/**
 The server-side state the collection commands act on: a store mapping keys to
 items, where an item is a plain value or a list, set or b-tree collection that
 carries its own attributes.
 */
module Items {
  import opened Struct
  import opened Constants

  /** The ceiling on a collection's element count, and the count a create gets when it asks for none. */
  const MAX_COUNT: int := 10000

  type MaxCount = m: int | 1 <= m <= MAX_COUNT witness MAX_COUNT

  /** A requested maxcount as the server keeps it: zero, negative or above the ceiling becomes the ceiling. */
  function NormMaxCount(m: int): MaxCount {
    if 1 <= m <= MAX_COUNT then m else MAX_COUNT
  }

  /** Collection attributes; the element count is the collection's length. */
  datatype Attrs = Attrs(flags: nat, exptime: int, maxcount: MaxCount, ovfl: OvflAction, maxbkeyrange: nat)

  /** A b-tree element: an unsigned bkey and its value. */
  datatype BElem = BElem(bkey: nat, value: Bytes)

  datatype Item =
    | KvItem(flags: nat, exptime: int, value: Bytes)
    | ListItem(values: seq<Bytes>, attrs: Attrs)
    | SetItem(members: seq<Bytes>, attrs: Attrs)
    | BTreeItem(elements: seq<BElem>, attrs: Attrs)

  type Store = map<Bytes, Item>

  function TypeOf(item: Item): ItemType {
    match item
    case KvItem(_, _, _) => KvType
    case ListItem(_, _) => ListType
    case SetItem(_, _) => SetType
    case BTreeItem(_, _) => BTreeType
  }

  /** What an insert with the create flag asks for when the key is missing. */
  datatype CreateSpec = CreateSpec(flags: nat, exptime: int, maxcount: int)

  /** The overflow action a collection gets when its creator names none. */
  function DefaultOvfl(t: ItemType): OvflAction {
    match t
    case ListType => TailTrim
    case SetType => OvflError
    case _ => SmallestTrim
  }

  /** The overflow actions each collection family accepts. */
  predicate OvflAllowed(t: ItemType, a: OvflAction) {
    match t
    case KvType => false
    case ListType => a == OvflError || a == HeadTrim || a == TailTrim
    case SetType => a == OvflError
    case BTreeType => a == OvflError || a == SmallestTrim || a == LargestTrim
  }

  function NewAttrs(c: CreateSpec, t: ItemType): Attrs {
    Attrs(c.flags, c.exptime, NormMaxCount(c.maxcount), DefaultOvfl(t), 0)
  }

  /** Every key other than `key` is bound exactly as before. */
  predicate Unchanged(st: Store, st': Store, key: Bytes) {
    && (forall k :: k in st && k != key ==> k in st' && st'[k] == st[k])
    && (forall k :: k in st' && k != key ==> k in st)
  }
}
