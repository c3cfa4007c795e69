/**
 The protocol's constant tables: opcodes, status codes, attribute ids, item
 types, overflow actions, the fixed header layout and every extra-header and
 response layout, written as `Struct` formats.
 */
module Constants {
  import opened Results
  import opened Struct

  /** Every command constant the constants module defines (the `CMD_` names). */
  datatype Opcode =
    | Get | Set | Add | Replace | Delete | Incr | Decr | Quit | Flush | GetQ | Noop | Version
    | Stat | Append | Prepend
    | SaslListMechs | SaslAuth | SaslStep
    | TapConnect | TapMutation | TapDelete | TapFlush | TapOpaque | TapVBucketSet
    | GetAttr | SetAttr
    | LopInsert | LopDelete | LopGet
    | SopInsert | SopDelete | SopExist | SopGet
    | BopInsert | BopDelete | BopGet
    | SetVBucketState | GetVBucketState | DeleteVBucket

  function OpcodeByte(op: Opcode): byte {
    match op
    case Get => 0 case Set => 1 case Add => 2 case Replace => 3 case Delete => 4
    case Incr => 5 case Decr => 6 case Quit => 7 case Flush => 8 case GetQ => 9
    case Noop => 10 case Version => 11 case Stat => 0x10 case Append => 0x0e
    case Prepend => 0x0f
    case SaslListMechs => 0x20 case SaslAuth => 0x21 case SaslStep => 0x22
    case TapConnect => 0x40 case TapMutation => 0x41 case TapDelete => 0x42
    case TapFlush => 0x43 case TapOpaque => 0x44 case TapVBucketSet => 0x45
    case GetAttr => 0x50 case SetAttr => 0x51
    case LopInsert => 0x60 case LopDelete => 0x61 case LopGet => 0x62
    case SopInsert => 0x70 case SopDelete => 0x71 case SopExist => 0x72 case SopGet => 0x73
    case BopInsert => 0x80 case BopDelete => 0x81 case BopGet => 0x82
    case SetVBucketState => 0x83 case GetVBucketState => 0x84 case DeleteVBucket => 0x85
  }

  function OpcodeName(op: Opcode): string {
    match op
    case Get => "CMD_GET" case Set => "CMD_SET" case Add => "CMD_ADD"
    case Replace => "CMD_REPLACE" case Delete => "CMD_DELETE" case Incr => "CMD_INCR"
    case Decr => "CMD_DECR" case Quit => "CMD_QUIT" case Flush => "CMD_FLUSH"
    case GetQ => "CMD_GETQ" case Noop => "CMD_NOOP" case Version => "CMD_VERSION"
    case Stat => "CMD_STAT" case Append => "CMD_APPEND" case Prepend => "CMD_PREPEND"
    case SaslListMechs => "CMD_SASL_LIST_MECHS" case SaslAuth => "CMD_SASL_AUTH"
    case SaslStep => "CMD_SASL_STEP"
    case TapConnect => "CMD_TAP_CONNECT" case TapMutation => "CMD_TAP_MUTATION"
    case TapDelete => "CMD_TAP_DELETE" case TapFlush => "CMD_TAP_FLUSH"
    case TapOpaque => "CMD_TAP_OPAQUE" case TapVBucketSet => "CMD_TAP_VBUCKET_SET"
    case GetAttr => "CMD_GETATTR" case SetAttr => "CMD_SETATTR"
    case LopInsert => "CMD_LOP_INSERT" case LopDelete => "CMD_LOP_DELETE" case LopGet => "CMD_LOP_GET"
    case SopInsert => "CMD_SOP_INSERT" case SopDelete => "CMD_SOP_DELETE"
    case SopExist => "CMD_SOP_EXIST" case SopGet => "CMD_SOP_GET"
    case BopInsert => "CMD_BOP_INSERT" case BopDelete => "CMD_BOP_DELETE" case BopGet => "CMD_BOP_GET"
    case SetVBucketState => "CMD_SET_VBUCKET_STATE" case GetVBucketState => "CMD_GET_VBUCKET_STATE"
    case DeleteVBucket => "CMD_DELETE_VBUCKET"
  }

  /** The opcode table read backwards: which command a byte on the wire names. */
  function OpcodeOf(b: int): Option<Opcode> {
    if b == 0 then Some(Get) else if b == 1 then Some(Set) else if b == 2 then Some(Add)
    else if b == 3 then Some(Replace) else if b == 4 then Some(Delete) else if b == 5 then Some(Incr)
    else if b == 6 then Some(Decr) else if b == 7 then Some(Quit) else if b == 8 then Some(Flush)
    else if b == 9 then Some(GetQ) else if b == 10 then Some(Noop) else if b == 11 then Some(Version)
    else if b == 0x10 then Some(Stat) else if b == 0x0e then Some(Append) else if b == 0x0f then Some(Prepend)
    else if b == 0x20 then Some(SaslListMechs) else if b == 0x21 then Some(SaslAuth)
    else if b == 0x22 then Some(SaslStep)
    else if b == 0x40 then Some(TapConnect) else if b == 0x41 then Some(TapMutation)
    else if b == 0x42 then Some(TapDelete) else if b == 0x43 then Some(TapFlush)
    else if b == 0x44 then Some(TapOpaque) else if b == 0x45 then Some(TapVBucketSet)
    else if b == 0x50 then Some(GetAttr) else if b == 0x51 then Some(SetAttr)
    else if b == 0x60 then Some(LopInsert) else if b == 0x61 then Some(LopDelete)
    else if b == 0x62 then Some(LopGet)
    else if b == 0x70 then Some(SopInsert) else if b == 0x71 then Some(SopDelete)
    else if b == 0x72 then Some(SopExist) else if b == 0x73 then Some(SopGet)
    else if b == 0x80 then Some(BopInsert) else if b == 0x81 then Some(BopDelete)
    else if b == 0x82 then Some(BopGet)
    else if b == 0x83 then Some(SetVBucketState) else if b == 0x84 then Some(GetVBucketState)
    else if b == 0x85 then Some(DeleteVBucket)
    else None
  }

  /**
   `COMMAND_NAMES`: the name dictionary keyed by opcode value.  Because no two
   commands share a byte, it loses no command: every opcode's byte looks up
   exactly that opcode's name, and every byte that looks something up is the
   byte of the command it names.
   */
  function CommandName(b: int): (r: Option<string>)
    ensures forall op: Opcode :: b == OpcodeByte(op) ==> r == Some(OpcodeName(op))
    ensures r.Some? ==> exists op: Opcode :: b == OpcodeByte(op) && r.value == OpcodeName(op)
  {
    OpcodeTableInvertsAll();
    match OpcodeOf(b)
    case None => None
    case Some(op) =>
      OpcodeOfNamesItsByte(b);
      Some(OpcodeName(op))
  }

  lemma OpcodeTableInvertsAll()
    ensures forall op: Opcode :: OpcodeOf(OpcodeByte(op)) == Some(op)
  {
    forall op: Opcode ensures OpcodeOf(OpcodeByte(op)) == Some(op) {
      OpcodeTableInverts(op);
    }
  }

  lemma OpcodeTableInverts(op: Opcode)
    ensures OpcodeOf(OpcodeByte(op)) == Some(op)
  {
  }

  lemma OpcodeOfNamesItsByte(b: int)
    requires OpcodeOf(b).Some?
    ensures OpcodeByte(OpcodeOf(b).value) == b
  {
  }

  /** Two commands with the same opcode byte are the same command. */
  lemma OpcodesDistinct(a: Opcode, b: Opcode)
    requires OpcodeByte(a) == OpcodeByte(b)
    ensures a == b
  {
    OpcodeTableInverts(a);
    OpcodeTableInverts(b);
  }

  /** Status codes a response can carry in place of success (0). */
  datatype Status =
    | UnknownCmd | NotFound | Exists | AuthError | AuthContinue
    | CreatedStored | DeletedDropped | BadType | Overflow | BadValue
    | IndexOor | BkeyOor | ElemNoent | ElemExists | BadAttr

  function StatusCode(s: Status): nat {
    match s
    case UnknownCmd => 0x81 case NotFound => 0x1 case Exists => 0x2
    case AuthError => 0x20 case AuthContinue => 0x21
    case CreatedStored => 0x30 case DeletedDropped => 0x31 case BadType => 0x32
    case Overflow => 0x33 case BadValue => 0x34 case IndexOor => 0x35
    case BkeyOor => 0x36 case ElemNoent => 0x37 case ElemExists => 0x38 case BadAttr => 0x39
  }

  function StatusOf(c: int): Option<Status> {
    if c == 0x81 then Some(UnknownCmd) else if c == 1 then Some(NotFound)
    else if c == 2 then Some(Exists) else if c == 0x20 then Some(AuthError)
    else if c == 0x21 then Some(AuthContinue) else if c == 0x30 then Some(CreatedStored)
    else if c == 0x31 then Some(DeletedDropped) else if c == 0x32 then Some(BadType)
    else if c == 0x33 then Some(Overflow) else if c == 0x34 then Some(BadValue)
    else if c == 0x35 then Some(IndexOor) else if c == 0x36 then Some(BkeyOor)
    else if c == 0x37 then Some(ElemNoent) else if c == 0x38 then Some(ElemExists)
    else if c == 0x39 then Some(BadAttr)
    else None
  }

  /**
   Every status code is non-zero, so a zero status alone means success, and no
   two statuses share a code.
   */
  lemma StatusCodesDistinctNonZero(s: Status, t: Status)
    ensures StatusCode(s) != 0
    ensures StatusOf(StatusCode(s)) == Some(s)
    ensures StatusCode(s) == StatusCode(t) ==> s == t
  {
    assert StatusOf(StatusCode(t)) == Some(t);
  }

  /** Attribute ids accepted by the client's attribute selector. */
  datatype AttrId = AttrType | AttrFlags | AttrExpireTime | AttrCount | AttrMaxCount | AttrOvflAction

  function AttrIdCode(a: AttrId): nat {
    match a
    case AttrType => 0 case AttrFlags => 1 case AttrExpireTime => 2
    case AttrCount => 3 case AttrMaxCount => 4 case AttrOvflAction => 5
  }

  datatype ItemType = KvType | ListType | SetType | BTreeType

  function ItemTypeCode(t: ItemType): nat {
    match t
    case KvType => 1 case ListType => 2 case SetType => 3 case BTreeType => 4
  }

  datatype OvflAction = OvflError | HeadTrim | TailTrim | SmallestTrim | LargestTrim

  function OvflCode(a: OvflAction): nat {
    match a
    case OvflError => 1 case HeadTrim => 2 case TailTrim => 3
    case SmallestTrim => 4 case LargestTrim => 5
  }

  /** Reads an overflow-action byte; zero and unknown values name no action. */
  function OvflOf(c: int): Option<OvflAction> {
    if c == 1 then Some(OvflError) else if c == 2 then Some(HeadTrim)
    else if c == 3 then Some(TailTrim) else if c == 4 then Some(SmallestTrim)
    else if c == 5 then Some(LargestTrim) else None
  }

  /** The three small enumerations are each one-to-one on their declared ranges. */
  lemma EnumerationsDistinct(a: AttrId, a': AttrId, t: ItemType, t': ItemType, o: OvflAction, o': OvflAction)
    ensures 0 <= AttrIdCode(a) <= 5 && (AttrIdCode(a) == AttrIdCode(a') ==> a == a')
    ensures 1 <= ItemTypeCode(t) <= 4 && (ItemTypeCode(t) == ItemTypeCode(t') ==> t == t')
    ensures 1 <= OvflCode(o) <= 5 && OvflOf(OvflCode(o)) == Some(o)
    ensures OvflCode(o) == OvflCode(o') ==> o == o'
  {
    assert OvflOf(OvflCode(o')) == Some(o');
  }

  // Magic bytes.
  const REQ_MAGIC_BYTE: byte := 0x80
  const RES_MAGIC_BYTE: byte := 0x81

  /** magic, opcode, keylen, extralen, datatype, vbucket, bodylen, opaque, cas */
  const REQ_PKT_FMT: Format := [UInt8, UInt8, UInt16, UInt8, UInt8, UInt16, UInt32, UInt32, UInt64]
  /** magic, opcode, keylen, extralen, datatype, status, bodylen, opaque, cas */
  const RES_PKT_FMT: Format := [UInt8, UInt8, UInt16, UInt8, UInt8, UInt16, UInt32, UInt32, UInt64]
  /** The size of a request or response header; `HeaderLayout` shows it is the layout's size. */
  const MIN_RECV_PACKET: nat := 24

  // Plain-command layouts.
  const SET_PKT_FMT: Format := [UInt32, UInt32]
  const GET_RES_FMT: Format := [UInt32]
  const DEL_PKT_FMT: Format := []
  const INCRDECR_PKT_FMT: Format := [UInt64, UInt64, UInt32]
  const INCRDECR_SPECIAL: nat := 0xffff_ffff
  const INCRDECR_RES_FMT: Format := [UInt64]
  const FLUSH_PKT_FMT: Format := [UInt32]

  // Collection layouts, as the constants module writes them.
  const COUNT_RES_FMT: Format := [UInt32]
  const VLENG_RES_FMT: Format := [UInt32]
  const EXIST_RES_FMT: Format := [UInt32]
  const BKEY_RES_FMT: Format := [UInt64]
  const LOP_INS_PKT_FMT: Format := [Int32, UInt32, UInt32, UInt32, UInt8, UInt8, UInt8, UInt8]
  const LOP_DEL_PKT_FMT: Format := [Int32, Int32]
  const LOP_GET_PKT_FMT: Format := [Int32, Int32, UInt8, UInt8, UInt8, UInt8]
  const SOP_INS_PKT_FMT: Format := [UInt32, UInt32, UInt32, UInt8, UInt8, UInt8, UInt8]
  const SOP_GET_PKT_FMT: Format := [UInt32, UInt8, UInt8, UInt8, UInt8]
  const BOP_INS_PKT_FMT: Format := [UInt64, UInt32, UInt32, UInt32, UInt8, UInt8, UInt8, UInt8]
  const BOP_DEL_PKT_FMT: Format := [UInt64, UInt64, UInt32]
  const BOP_GET_PKT_FMT: Format := [UInt64, UInt64, UInt32, UInt32, UInt8, UInt8, UInt8, UInt8]
  const GETATTR_RES_FMT: Format := [UInt32, UInt32, Int32, Int32, UInt8, UInt8, UInt8, UInt8]
  const SETATTR_PKT_FMT: Format := [Int32, Int32, UInt8, UInt8, UInt8, UInt8]

  /**
   The tap layouts `TAP_MUTATION_PKT_FMT` ("HHbxxxII") and `TAP_GENERAL_PKT_FMT`
   ("HHbxxx") carry no byte-order prefix, so they use native sizes and
   alignment. Each is given as its per-character widths: `H` is 2, `b` and the
   pad byte `x` are 1, `I` is 4.
   */
  const TAP_MUTATION_WIDTHS: seq<nat> := [2, 2, 1, 1, 1, 1, 4, 4]
  const TAP_GENERAL_WIDTHS: seq<nat> := [2, 2, 1, 1, 1, 1]

  /** The total of a sequence of widths or lengths. */
  function Sum(lens: seq<nat>): nat {
    if |lens| == 0 then 0 else lens[0] + Sum(lens[1..])
  }

  /** Every field, laid out from `off` without padding, starts at a multiple of its own width. */
  predicate NativelyAligned(widths: seq<nat>, off: nat)
    decreases |widths|
  {
    |widths| == 0 || ((widths[0] == 0 || off % widths[0] == 0) && NativelyAligned(widths[1..], off + widths[0]))
  }

  /**
   Native alignment inserts no padding into either tap layout, so native
   `struct.calcsize` is the plain sum of the widths: 16 and 8 bytes.
   */
  lemma TapLayouts()
    ensures NativelyAligned(TAP_MUTATION_WIDTHS, 0) && Sum(TAP_MUTATION_WIDTHS) == 16
    ensures NativelyAligned(TAP_GENERAL_WIDTHS, 0) && Sum(TAP_GENERAL_WIDTHS) == 8
  {
  }

  /** The sizes of the plain extra-header layouts. */
  lemma PlainLayouts()
    ensures CalcSize(SET_PKT_FMT) == 8 && CalcSize(INCRDECR_PKT_FMT) == 20
    ensures CalcSize(DEL_PKT_FMT) == 0 && CalcSize(FLUSH_PKT_FMT) == 4
  {
  }

  /**
   `EXTRA_HDR_SIZES`: the size of each layout in `EXTRA_HDR_FMTS`. The plain
   commands use the big-endian formats above; the tap commands use the native
   tap layouts.
   */
  function ExtraHdrSize(op: Opcode): (r: Option<nat>)
    ensures r.Some? <==> op in {Set, Add, Replace, Incr, Decr, Delete, Flush,
                                TapMutation, TapDelete, TapFlush, TapOpaque, TapVBucketSet}
    ensures op in {Set, Add, Replace} ==> r == Some(8)
    ensures op in {Incr, Decr} ==> r == Some(20)
    ensures op == Flush ==> r == Some(4)
    ensures op == Delete ==> r == Some(0)
    ensures op == TapMutation ==> r == Some(16)
    ensures op in {TapDelete, TapFlush, TapOpaque, TapVBucketSet} ==> r == Some(8)
  {
    PlainLayouts();
    TapLayouts();
    match op
    case Set => Some(CalcSize(SET_PKT_FMT))
    case Add => Some(CalcSize(SET_PKT_FMT))
    case Replace => Some(CalcSize(SET_PKT_FMT))
    case Incr => Some(CalcSize(INCRDECR_PKT_FMT))
    case Decr => Some(CalcSize(INCRDECR_PKT_FMT))
    case Delete => Some(CalcSize(DEL_PKT_FMT))
    case Flush => Some(CalcSize(FLUSH_PKT_FMT))
    case TapMutation => Some(Sum(TAP_MUTATION_WIDTHS))
    case TapDelete => Some(Sum(TAP_GENERAL_WIDTHS))
    case TapFlush => Some(Sum(TAP_GENERAL_WIDTHS))
    case TapOpaque => Some(Sum(TAP_GENERAL_WIDTHS))
    case TapVBucketSet => Some(Sum(TAP_GENERAL_WIDTHS))
    case _ => None
  }

  /** Request and response headers share one 24-byte layout. */
  lemma HeaderLayout()
    ensures REQ_PKT_FMT == RES_PKT_FMT
    ensures MIN_RECV_PACKET == CalcSize(REQ_PKT_FMT) == CalcSize(RES_PKT_FMT)
  {
  }

  /** Extra-header sizes of the list and set layouts that agree with their call sites. */
  lemma ListSetExtraSizes()
    ensures CalcSize(LOP_INS_PKT_FMT) == 20 && CalcSize(LOP_GET_PKT_FMT) == 12
    ensures CalcSize(SOP_INS_PKT_FMT) == 16 && CalcSize(SOP_GET_PKT_FMT) == 8
    ensures LOP_INS_PKT_FMT[0] == Int32 && LOP_GET_PKT_FMT[0] == Int32 && LOP_GET_PKT_FMT[1] == Int32
  {
  }

  /** Extra-header sizes of the b-tree layouts that agree with their call sites. */
  lemma BTreeExtraSizes()
    ensures CalcSize(BOP_INS_PKT_FMT) == 24 && CalcSize(BOP_GET_PKT_FMT) == 28
    ensures BOP_INS_PKT_FMT[0] == UInt64 && BOP_GET_PKT_FMT[0] == UInt64 && BOP_GET_PKT_FMT[1] == UInt64
  {
  }
}
