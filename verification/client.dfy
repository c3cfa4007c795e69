/**
 The client's public commands.  Each command is a request (opcode, key,
 value, extra header, CAS) written with `_doCmd`, and an interpretation of
 the single response it reads back.  The multi-key get and the stats call
 write several requests or read several responses and are modelled as loops
 over the stream.
 */
module Client {
  import opened Results
  import opened Struct
  import opened Constants
  import opened Codec
  import opened Bodies
  import opened Transport

  /** One call of a client method, with its arguments. */
  datatype Command =
    | GetCmd(key: Bytes)
    | SetCmd(key: Bytes, exp: int, flags: int, val: Bytes)
    | AddCmd(key: Bytes, exp: int, flags: int, val: Bytes)
    | ReplaceCmd(key: Bytes, exp: int, flags: int, val: Bytes)
    | CasCmd(key: Bytes, exp: int, flags: int, oldVal: int, val: Bytes)
    | AppendCmd(key: Bytes, val: Bytes, cas: int)
    | PrependCmd(key: Bytes, val: Bytes, cas: int)
    | IncrCmd(key: Bytes, amt: int, init: int, exp: int)
    | DecrCmd(key: Bytes, amt: int, init: int, exp: int)
    | DeleteCmd(key: Bytes, cas: int)
    | FlushCmd(timebomb: int)
    | NoopCmd
    | VersionCmd
    | GetAttrCmd(key: Bytes, attr: AttrSelector)
    | SetAttrCmd(key: Bytes, exptimeF: int, exptime: int, maxcountF: int, maxcount: int,
                 maxbkeyrangeF: int, maxbkeyrange: int, ovflaction: int)
    | LopInsertCmd(key: Bytes, index: int, val: Bytes, create: int, flags: int, exptime: int, maxcount: int)
    | LopDeleteCmd(key: Bytes, from: int, to: int, dropIfEmpty: int)
    | LopGetCmd(key: Bytes, from: int, to: int, delete: int, dropIfEmpty: int)
    | SopInsertCmd(key: Bytes, val: Bytes, create: int, flags: int, exptime: int, maxcount: int)
    | SopDeleteCmd(key: Bytes, val: Bytes, dropIfEmpty: int)
    | SopExistCmd(key: Bytes, val: Bytes)
    | SopGetCmd(key: Bytes, count: int, delete: int, dropIfEmpty: int)
    | BopInsertCmd(key: Bytes, bkey: int, val: Bytes, create: int, flags: int, exptime: int, maxcount: int)
    | BopDeleteCmd(key: Bytes, from: int, to: int, count: int, dropIfEmpty: int)
    | BopGetCmd(key: Bytes, from: int, to: int, offset: int, count: int, delete: int, dropIfEmpty: int)
    | UnboundCmd(call: UnboundCall)

  /** The request a command writes. */
  datatype Request = Request(op: Opcode, key: Bytes, val: Bytes, extras: Bytes, cas: int)

  function Lift(r: Result<Bytes, StructError>): (e: Result<Bytes, ClientError>)
    ensures e.Ok? <==> r.Ok?
    ensures e.Ok? ==> e.value == r.value
  {
    match r
    case Ok(b) => Ok(b)
    case Err(x) => Err(PackError(x))
  }

  function Simple(op: Opcode, key: Bytes, val: Bytes, cas: int): Request {
    Request(op, key, val, [], cas)
  }

  function WithExtras(op: Opcode, key: Bytes, val: Bytes, x: Result<Bytes, StructError>): (r: Result<Request, ClientError>)
    ensures r.Ok? <==> x.Ok?
    ensures r.Ok? ==> r.value == Request(op, key, val, x.value, 0)
    ensures r.Err? ==> r == Err(PackError(x.error))
  {
    var extras :- Lift(x);
    Ok(Request(op, key, val, extras, 0))
  }

  /**
   The request each client method writes, with the corrected layouts for the
   delete and set-attribute calls.  Only the create and count calls, whose
   opcodes do not exist, fail for every argument list; the others fail only
   when an argument does not fit its field.
   */
  function RequestOf(c: Command): (r: Result<Request, ClientError>)
    ensures r.Err? ==> c.UnboundCmd? || r.error.PackError?
    ensures c.UnboundCmd? ==> r == Err(UnboundCallError(c.call))
  {
    match c
    case GetCmd(key) => Ok(Simple(Get, key, [], 0))
    case SetCmd(key, exp, flags, val) => WithExtras(Set, key, val, MutateExtras(flags, exp))
    case AddCmd(key, exp, flags, val) => WithExtras(Add, key, val, MutateExtras(flags, exp))
    case ReplaceCmd(key, exp, flags, val) => WithExtras(Replace, key, val, MutateExtras(flags, exp))
    case CasCmd(key, exp, flags, oldVal, val) =>
      var extras :- Lift(MutateExtras(flags, exp));
      Ok(Request(Set, key, val, extras, oldVal))
    case AppendCmd(key, val, cas) => Ok(Simple(Append, key, val, cas))
    case PrependCmd(key, val, cas) => Ok(Simple(Prepend, key, val, cas))
    case IncrCmd(key, amt, init, exp) => WithExtras(Incr, key, [], IncrDecrExtras(amt, init, exp))
    case DecrCmd(key, amt, init, exp) => WithExtras(Decr, key, [], IncrDecrExtras(amt, init, exp))
    case DeleteCmd(key, cas) => Ok(Simple(Delete, key, [], cas))
    case FlushCmd(timebomb) => WithExtras(Flush, [], [], FlushExtras(timebomb))
    case NoopCmd => Ok(Simple(Noop, [], [], 0))
    case VersionCmd => Ok(Simple(Version, [], [], 0))
    case GetAttrCmd(key, _) => Ok(Simple(GetAttr, key, [], 0))
    case SetAttrCmd(key, ef, e, mf, m, bf, b, o) => WithExtras(SetAttr, key, [], SetAttrExtras(ef, e, mf, m, bf, b, o))
    case LopInsertCmd(key, index, val, create, flags, exptime, maxcount) =>
      WithExtras(LopInsert, key, val, LopInsertExtras(index, flags, exptime, maxcount, create))
    case LopDeleteCmd(key, from, to, drop) => WithExtras(LopDelete, key, [], LopDeleteExtras(from, to, drop))
    case LopGetCmd(key, from, to, delete, drop) => WithExtras(LopGet, key, [], LopGetExtras(from, to, delete, drop))
    case SopInsertCmd(key, val, create, flags, exptime, maxcount) =>
      WithExtras(SopInsert, key, val, SopInsertExtras(flags, exptime, maxcount, create))
    case SopDeleteCmd(key, val, drop) => WithExtras(SopDelete, key, val, SopDeleteExtras(drop))
    case SopExistCmd(key, val) => Ok(Simple(SopExist, key, val, 0))
    case SopGetCmd(key, count, delete, drop) => WithExtras(SopGet, key, [], SopGetExtras(count, delete, drop))
    case BopInsertCmd(key, bkey, val, create, flags, exptime, maxcount) =>
      WithExtras(BopInsert, key, val, BopInsertExtras(bkey, flags, exptime, maxcount, create))
    case BopDeleteCmd(key, from, to, count, drop) =>
      WithExtras(BopDelete, key, [], BopDeleteExtras(from, to, count, drop))
    case BopGetCmd(key, from, to, offset, count, delete, drop) =>
      WithExtras(BopGet, key, [], BopGetExtras(from, to, offset, count, delete, drop))
    case UnboundCmd(call) => Err(UnboundCallError(call))
  }

  /** The request each method writes as the source stands: four calls pack with layouts that cannot hold their values. */
  function RequestAsWritten(c: Command): Result<Request, ClientError> {
    match c
    case SetAttrCmd(key, ef, e, mf, m, bf, b, o) => WithExtras(SetAttr, key, [], SetAttrExtrasAsWritten(ef, e, mf, m, bf, b, o))
    case LopDeleteCmd(key, from, to, drop) => WithExtras(LopDelete, key, [], LopDeleteExtrasAsWritten(from, to, drop))
    case SopDeleteCmd(key, val, drop) =>
      var extras :- SopDeleteExtrasAsWritten(drop);
      Ok(Request(SopDelete, key, val, extras, 0))
    case BopDeleteCmd(key, from, to, count, drop) =>
      WithExtras(BopDelete, key, [], BopDeleteExtrasAsWritten(from, to, count, drop))
    case _ => RequestOf(c)
  }

  /** Whether a command is one of the four calls whose layout the source gets wrong. */
  predicate Mismatched(c: Command) {
    c.SetAttrCmd? || c.LopDeleteCmd? || c.SopDeleteCmd? || c.BopDeleteCmd?
  }

  /** The four mismatched call sites fail for every argument list. */
  lemma RequestAsWrittenFails(c: Command)
    requires Mismatched(c)
    ensures RequestAsWritten(c).Err?
  {
    match c
    case SetAttrCmd(key, ef, e, mf, m, bf, b, o) => SetAttrAsWrittenFails(ef, e, mf, m, bf, b, o);
    case LopDeleteCmd(key, from, to, drop) => LopDeleteAsWrittenFails(from, to, drop);
    case BopDeleteCmd(key, from, to, count, drop) => BopDeleteAsWrittenFails(from, to, count, drop);
    case SopDeleteCmd(_, _, _) =>
  }

  /** Every other call writes the same request as the corrected client. */
  lemma RequestAsWrittenAgrees(c: Command)
    requires !Mismatched(c)
    ensures RequestAsWritten(c) == RequestOf(c)
  {
  }

  /** What a command returns once its response has been read. */
  datatype Outcome =
    | Raw(reply: Single)                 // the (opaque, cas, data) triple of `_doCmd`
    | Nothing                            // `cas` returns nothing
    | Got(get: GetReply)
    | Counter(value: nat, cas: int)
    | AttrValue(attr: int)
    | ListGot(list: ListReply)
    | SetGot(members: SetReply)
    | BTreeGot(tree: BTreeReply)
    | Present(flag: nat)

  /** How each method reads the body of a successful response. */
  function Interpret(c: Command, reply: Single): (r: Result<Outcome, ClientError>)
    ensures c.GetCmd? ==> r == (match ParseGet(reply.cas, reply.body) case Ok(g) => Ok(Got(g)) case Err(e) => Err(e))
  {
    match c
    case GetCmd(_) =>
      var g :- ParseGet(reply.cas, reply.body);
      Ok(Got(g))
    case CasCmd(_, _, _, _, _) => Ok(Nothing)
    case IncrCmd(_, _, _, _) =>
      var v :- ParseCounter(reply.body);
      Ok(Counter(v, reply.cas))
    case DecrCmd(_, _, _, _) =>
      var v :- ParseCounter(reply.body);
      Ok(Counter(v, reply.cas))
    case GetAttrCmd(_, sel) =>
      var view :- GetAttrFields(reply.body);
      Ok(AttrValue(SelectAttr(view, sel)))
    case LopGetCmd(_, _, _, _, _) =>
      var l :- ParseLopGet(reply.body);
      Ok(ListGot(l))
    case SopGetCmd(_, _, _, _) =>
      var m :- ParseSopGet(reply.body);
      Ok(SetGot(m))
    case BopGetCmd(_, _, _, _, _, _, _) =>
      var t :- ParseBopGet(reply.body);
      Ok(BTreeGot(t))
    case SopExistCmd(_, _) =>
      var e :- ParseExist(reply.body);
      Ok(Present(e))
    case _ => Ok(Raw(reply))
  }

  /** Whether a request's header fields all fit. */
  predicate Sendable(req: Request) {
    |req.key| < 0x1_0000 && |req.extras| < 0x100 && |req.key| + |req.extras| + |req.val| < 0x1_0000_0000
    && 0 <= req.cas < 0x1_0000_0000_0000_0000
  }

  /** What a completed call leaves behind. */
  datatype Completed = Completed(sent: Bytes, outcome: Outcome, rest: Stream)

  /**
   One client method call: build the request, write it with a fresh opaque
   value, read the single response and interpret its body.
   */
  function Call(c: Command, opq: int, s: Stream): (r: Result<Completed, ClientError>)
    requires OpaqueDraw(opq)
    ensures r.Ok? ==> RequestOf(c).Ok? && Sendable(RequestOf(c).value)
    ensures r.Ok? ==>
      var req := RequestOf(c).value;
      && r.value.sent == SendCmd(OpcodeByte(req.op), req.key, req.val, opq, req.extras, req.cas).value
      && |r.value.sent| == MIN_RECV_PACKET + |req.extras| + |req.key| + |req.val|
      && DecodeHeader(r.value.sent[..MIN_RECV_PACKET]).opcode == OpcodeByte(req.op)
      && DecodeHeader(r.value.sent[..MIN_RECV_PACKET]).opq == opq
      && r.value.sent[MIN_RECV_PACKET..] == req.extras + req.key + req.val
  {
    var req :- RequestOf(c);
    Perform(c, req, opq, s)
  }

  /** Writing a built request and interpreting the response as command `c` does. */
  function Perform(c: Command, req: Request, opq: int, s: Stream): (r: Result<Completed, ClientError>)
    requires OpaqueDraw(opq)
    ensures r.Ok? ==> Sendable(req)
    ensures r.Ok? ==>
      && r.value.sent == SendCmd(OpcodeByte(req.op), req.key, req.val, opq, req.extras, req.cas).value
      && |r.value.sent| == MIN_RECV_PACKET + |req.extras| + |req.key| + |req.val|
      && DecodeHeader(r.value.sent[..MIN_RECV_PACKET]).opcode == OpcodeByte(req.op)
      && DecodeHeader(r.value.sent[..MIN_RECV_PACKET]).opq == opq
      && r.value.sent[MIN_RECV_PACKET..] == req.extras + req.key + req.val
  {
    var ex :- DoCmd(OpcodeByte(req.op), req.key, req.val, req.extras, req.cas, opq, s);
    var out :- Interpret(c, ex.reply);
    Ok(Completed(ex.sent, out, ex.rest))
  }

  /**
   A call whose response is a well-formed frame answering it: a non-zero
   status is raised as the server error with the frame's body, and a zero
   status is interpreted, with exactly the frame consumed.
   */
  lemma CallOnFrame(c: Command, opq: int, s: Stream, h: Header, body: Bytes, tail: Bytes)
    requires OpaqueDraw(opq) && RequestOf(c).Ok? && Sendable(RequestOf(c).value)
    requires HeaderFits(h) && h.magic == RES_MAGIC_BYTE && h.bodylen == |body| && h.opq == opq
    requires Avail(s) == ResponseFrame(h, body) + tail
    ensures h.vbucketOrStatus != 0 ==> Call(c, opq, s) == Err(ServerError(h.vbucketOrStatus, body))
    ensures h.vbucketOrStatus == 0 ==>
      (Interpret(c, Single(opq, h.cas, body)).Ok? <==> Call(c, opq, s).Ok?)
    ensures h.vbucketOrStatus == 0 && Call(c, opq, s).Ok? ==>
      && Call(c, opq, s).value.outcome == Interpret(c, Single(opq, h.cas, body)).value
      && Avail(Call(c, opq, s).value.rest) == tail
  {
    var req := RequestOf(c).value;
    assert Call(c, opq, s) == Perform(c, req, opq, s);
    PerformOnFrame(c, req, opq, s, h, body, tail);
  }

  lemma PerformOnFrame(c: Command, req: Request, opq: int, s: Stream, h: Header, body: Bytes, tail: Bytes)
    requires OpaqueDraw(opq) && Sendable(req)
    requires HeaderFits(h) && h.magic == RES_MAGIC_BYTE && h.bodylen == |body| && h.opq == opq
    requires Avail(s) == ResponseFrame(h, body) + tail
    ensures h.vbucketOrStatus != 0 ==> Perform(c, req, opq, s) == Err(ServerError(h.vbucketOrStatus, body))
    ensures h.vbucketOrStatus == 0 ==>
      (Interpret(c, Single(opq, h.cas, body)).Ok? <==> Perform(c, req, opq, s).Ok?)
    ensures h.vbucketOrStatus == 0 && Perform(c, req, opq, s).Ok? ==>
      && Perform(c, req, opq, s).value.outcome == Interpret(c, Single(opq, h.cas, body)).value
      && Avail(Perform(c, req, opq, s).value.rest) == tail
  {
    HandleResponseFrame(s, h, body, tail, Some(opq));
  }

  /** A get answered by a hit returns the flags, CAS value and bytes the server sent. */
  lemma GetRoundTrip(key: Bytes, opq: int, s: Stream, cas: int, flags: nat, value: Bytes, tail: Bytes)
    requires OpaqueDraw(opq) && |key| < 0x1_0000 && flags < 0x1_0000_0000
    requires HeaderFits(ResponseHeader(OpcodeByte(Get), 0, opq, cas, 0, 4, GetBody(flags, value)))
    requires Avail(s) == ResponseFrame(ResponseHeader(OpcodeByte(Get), 0, opq, cas, 0, 4, GetBody(flags, value)), GetBody(flags, value)) + tail
    ensures Call(GetCmd(key), opq, s).Ok?
    ensures Call(GetCmd(key), opq, s).value.outcome == Got(GetReply(flags, cas, value))
  {
    var body := GetBody(flags, value);
    CallOnFrame(GetCmd(key), opq, s, ResponseHeader(OpcodeByte(Get), 0, opq, cas, 0, 4, body), body, tail);
    ParseGetBody(flags, cas, value);
  }

  /** A list get returns exactly the values the server sent, in order. */
  lemma LopGetRoundTrip(key: Bytes, from: int, to: int, opq: int, s: Stream, h: Header, flags: nat, vals: seq<Bytes>, tail: Bytes)
    requires OpaqueDraw(opq) && |key| < 0x1_0000 && IsInt32(from) && IsInt32(to)
    requires flags < 0x1_0000_0000 && ValuesFit(vals)
    requires HeaderFits(h) && h.magic == RES_MAGIC_BYTE && h.vbucketOrStatus == 0 && h.opq == opq
    requires h.bodylen == |CollectionBody(flags, vals)|
    requires Avail(s) == ResponseFrame(h, CollectionBody(flags, vals)) + tail
    ensures Call(LopGetCmd(key, from, to, 0, 0), opq, s).Ok?
    ensures Call(LopGetCmd(key, from, to, 0, 0), opq, s).value.outcome == ListGot(ListReply(flags, |vals|, vals))
  {
    CallOnFrame(LopGetCmd(key, from, to, 0, 0), opq, s, h, CollectionBody(flags, vals), tail);
    ParseLopGetBody(flags, vals);
  }

  /** A set get returns exactly the set of values the server sent. */
  lemma SopGetRoundTrip(key: Bytes, count: int, opq: int, s: Stream, h: Header, flags: nat, vals: seq<Bytes>, tail: Bytes)
    requires OpaqueDraw(opq) && |key| < 0x1_0000 && IsUInt32(count)
    requires flags < 0x1_0000_0000 && ValuesFit(vals)
    requires HeaderFits(h) && h.magic == RES_MAGIC_BYTE && h.vbucketOrStatus == 0 && h.opq == opq
    requires h.bodylen == |CollectionBody(flags, vals)|
    requires Avail(s) == ResponseFrame(h, CollectionBody(flags, vals)) + tail
    ensures Call(SopGetCmd(key, count, 0, 0), opq, s).Ok?
    ensures Call(SopGetCmd(key, count, 0, 0), opq, s).value.outcome.SetGot?
    ensures Call(SopGetCmd(key, count, 0, 0), opq, s).value.outcome.members.values == set v | v in vals
  {
    CallOnFrame(SopGetCmd(key, count, 0, 0), opq, s, h, CollectionBody(flags, vals), tail);
    ParseSopGetBody(flags, vals);
  }

  /** A b-tree get returns exactly the bkeys and values the server sent, in order. */
  lemma BopGetRoundTrip(key: Bytes, from: int, to: int, opq: int, s: Stream, h: Header,
                        flags: nat, bkeys: seq<nat>, vals: seq<Bytes>, tail: Bytes)
    requires OpaqueDraw(opq) && |key| < 0x1_0000 && IsUInt64(from) && IsUInt64(to)
    requires BTreeFits(flags, bkeys, vals)
    requires HeaderFits(h) && h.magic == RES_MAGIC_BYTE && h.vbucketOrStatus == 0 && h.opq == opq
    requires h.bodylen == |BTreeBody(flags, bkeys, vals)|
    requires Avail(s) == ResponseFrame(h, BTreeBody(flags, bkeys, vals)) + tail
    ensures Call(BopGetCmd(key, from, to, 0, 0, 0, 0), opq, s).Ok?
    ensures Call(BopGetCmd(key, from, to, 0, 0, 0, 0), opq, s).value.outcome == BTreeGot(BTreeReply(flags, |vals|, bkeys, vals))
  {
    CallOnFrame(BopGetCmd(key, from, to, 0, 0, 0, 0), opq, s, h, BTreeBody(flags, bkeys, vals), tail);
    ParseBopGetBody(flags, bkeys, vals);
  }

  // ---------------------------------------------------------------------
  // Multi-key get.

  /** The opaque value of the no-op that ends a multi-get: ten past the number of keys. */
  function Terminal(keys: seq<Bytes>): (t: nat)
    ensures t >= |keys|
  {
    |keys| + 10
  }

  /** The quiet gets for `keys[i..]`, each tagged with its position as the opaque value, back to back. */
  function GetQRequests(keys: seq<Bytes>, i: nat): (r: Result<Bytes, ClientError>)
    requires i <= |keys|
    ensures r.Ok? <==> (forall j :: i <= j < |keys| ==> |keys[j]| < 0x1_0000) && (i < |keys| ==> |keys| - 1 < 0x1_0000_0000)
    decreases |keys| - i
  {
    if i == |keys| then Ok([])
    else
      var one :- SendCmd(OpcodeByte(GetQ), keys[i], [], i, [], 0);
      var more :- GetQRequests(keys, i + 1);
      Ok(one + more)
  }

  /**
   The response loop of `getMulti`: every response whose opaque is not the
   terminal one is parsed as a get and stored under the key its opaque
   names; an opaque naming no key raises; the terminal response ends the loop.
   */
  function GetMultiLoop(keys: seq<Bytes>, s: Stream, acc: map<Bytes, GetReply>)
    : (r: Result<(map<Bytes, GetReply>, Stream), ClientError>)
    decreases |Avail(s)|
  {
    match HandleSingleResponse(s, None)
    case Err(e) => Err(e)
    case Ok((single, rest)) =>
      if single.opq == Terminal(keys) then Ok((acc, rest))
      else
        var acc' :- StoreHit(keys, single, acc);
        GetMultiLoop(keys, rest, acc')
  }

  /** One non-terminal response of `getMulti`, parsed as a get and filed under the key its opaque names. */
  function StoreHit(keys: seq<Bytes>, single: Single, acc: map<Bytes, GetReply>): (r: Result<map<Bytes, GetReply>, ClientError>)
    ensures r.Ok? <==> ParseGet(single.cas, single.body).Ok? && 0 <= single.opq < |keys|
    ensures r.Ok? ==> r.value == acc[keys[single.opq] := ParseGet(single.cas, single.body).value]
    ensures ParseGet(single.cas, single.body).Ok? && !(0 <= single.opq < |keys|) ==> r == Err(UnknownOpaque(single.opq))
  {
    var g :- ParseGet(single.cas, single.body);
    if 0 <= single.opq < |keys| then Ok(acc[keys[single.opq] := g])
    else Err(UnknownOpaque(single.opq))
  }

  /** Every key the response loop files a reply under was already collected or was asked for. */
  lemma {:induction false} GetMultiLoopKeys(keys: seq<Bytes>, s: Stream, acc: map<Bytes, GetReply>)
    ensures GetMultiLoop(keys, s, acc).Ok? ==> forall k :: k in GetMultiLoop(keys, s, acc).value.0 ==> k in acc || k in keys
    decreases |Avail(s)|
  {
    match HandleSingleResponse(s, None)
    case Err(_) =>
    case Ok((single, rest)) =>
      if single.opq != Terminal(keys) && StoreHit(keys, single, acc).Ok? {
        GetMultiLoopKeys(keys, rest, StoreHit(keys, single, acc).value);
      }
  }

  /**
   `getMulti`: write a quiet get per key and a terminating no-op, then collect
   the hits.  Every key in the result was asked for.
   */
  function GetMulti(keys: seq<Bytes>, s: Stream): (r: Result<(Bytes, map<Bytes, GetReply>, Stream), ClientError>)
    ensures r.Ok? ==> forall k :: k in r.value.1 ==> k in keys
  {
    var gets :- GetQRequests(keys, 0);
    var noop :- SendCmd(OpcodeByte(Noop), [], [], Terminal(keys), [], 0);
    GetMultiLoopKeys(keys, s, map[]);
    var (found, rest) :- GetMultiLoop(keys, s, map[]);
    Ok((gets + noop, found, rest))
  }

  /** One hit in a multi-get reply: the key's position, its flags, CAS value and bytes. */
  datatype Hit = Hit(index: nat, flags: nat, cas: nat, value: Bytes)

  predicate HitFits(h: Hit) {
    h.flags < 0x1_0000_0000 && h.index < 0x1_0000_0000 && h.cas < 0x1_0000_0000_0000_0000
    && |h.value| + 4 < 0x1_0000_0000
  }

  function HitHeader(h: Hit): Header
  {
    Header(RES_MAGIC_BYTE, OpcodeByte(GetQ), 0, 4, 0, 0, |h.value| + 4, h.index, h.cas)
  }

  function HitFrame(h: Hit): Bytes
    requires HitFits(h)
  {
    ResponseFrame(HitHeader(h), GetBody(h.flags, h.value))
  }

  function HitFrames(hits: seq<Hit>): Bytes
    requires forall i :: 0 <= i < |hits| ==> HitFits(hits[i])
  {
    if |hits| == 0 then [] else HitFrame(hits[0]) + HitFrames(hits[1..])
  }

  /** The no-op response that ends a multi-get. */
  function TerminalFrame(keys: seq<Bytes>): Bytes
    requires |keys| + 10 < 0x1_0000_0000
  {
    ResponseFrame(Header(RES_MAGIC_BYTE, OpcodeByte(Noop), 0, 0, 0, 0, 0, Terminal(keys), 0), [])
  }

  /** The map a sequence of hits builds, later hits for the same key winning. */
  function Collect(keys: seq<Bytes>, hits: seq<Hit>, acc: map<Bytes, GetReply>): map<Bytes, GetReply>
    requires forall i :: 0 <= i < |hits| ==> hits[i].index < |keys|
  {
    if |hits| == 0 then acc
    else Collect(keys, hits[1..], acc[keys[hits[0].index] := GetReply(hits[0].flags, hits[0].cas, hits[0].value)])
  }

  /** One hit frame adds its value under the key its position names, and the loop carries on after it. */
  lemma GetMultiHitStep(keys: seq<Bytes>, s: Stream, acc: map<Bytes, GetReply>, h: Hit, more: Bytes) returns (s': Stream)
    requires HitFits(h) && h.index < |keys|
    requires Avail(s) == HitFrame(h) + more
    ensures Avail(s') == more
    ensures GetMultiLoop(keys, s, acc) == GetMultiLoop(keys, s', acc[keys[h.index] := GetReply(h.flags, h.cas, h.value)])
  {
    var body := GetBody(h.flags, h.value);
    HandleResponseFrame(s, HitHeader(h), body, more, None);
    s' := HandleKeyedResponse(s, None).value.1;
    assert HandleSingleResponse(s, None) == Ok((Single(h.index, h.cas, body), s'));
    ParseGetBody(h.flags, h.cas, h.value);
    GetMultiLoopUnfoldHit(keys, s, acc, Single(h.index, h.cas, body), s', GetReply(h.flags, h.cas, h.value));
  }

  /** The loop's step on a parsed hit whose opaque names a key. */
  lemma GetMultiLoopUnfoldHit(keys: seq<Bytes>, s: Stream, acc: map<Bytes, GetReply>, single: Single, rest: Stream, g: GetReply)
    requires HandleSingleResponse(s, None) == Ok((single, rest))
    requires single.opq != Terminal(keys) && 0 <= single.opq < |keys|
    requires ParseGet(single.cas, single.body) == Ok(g)
    ensures GetMultiLoop(keys, s, acc) == GetMultiLoop(keys, rest, acc[keys[single.opq] := g])
  {
  }

  /** The terminal frame ends the loop with what has been collected. */
  lemma GetMultiTerminalStep(keys: seq<Bytes>, s: Stream, acc: map<Bytes, GetReply>, tail: Bytes)
    requires |keys| + 10 < 0x1_0000_0000
    requires Avail(s) == TerminalFrame(keys) + tail
    ensures GetMultiLoop(keys, s, acc).Ok?
    ensures GetMultiLoop(keys, s, acc).value.0 == acc && Avail(GetMultiLoop(keys, s, acc).value.1) == tail
  {
    var th := Header(RES_MAGIC_BYTE, OpcodeByte(Noop), 0, 0, 0, 0, 0, Terminal(keys), 0);
    HandleResponseFrame(s, th, [], tail, None);
  }

  /** The first of a run of hit frames is consumed like a single one. */
  lemma GetMultiHitsStep(keys: seq<Bytes>, hits: seq<Hit>, s: Stream, acc: map<Bytes, GetReply>, rest: Bytes)
    returns (s': Stream)
    requires |hits| > 0
    requires forall i :: 0 <= i < |hits| ==> HitFits(hits[i]) && hits[i].index < |keys|
    requires Avail(s) == HitFrames(hits) + rest
    ensures forall i :: 0 <= i < |hits[1..]| ==> HitFits(hits[1..][i]) && hits[1..][i].index < |keys|
    ensures Avail(s') == HitFrames(hits[1..]) + rest
    ensures GetMultiLoop(keys, s, acc)
      == GetMultiLoop(keys, s', acc[keys[hits[0].index] := GetReply(hits[0].flags, hits[0].cas, hits[0].value)])
  {
    var h := hits[0];
    assert forall i :: 0 <= i < |hits[1..]| ==> hits[1..][i] == hits[i + 1];
    var more := HitFrames(hits[1..]) + rest;
    assert Avail(s) == HitFrame(h) + more;
    s' := GetMultiHitStep(keys, s, acc, h, more);
  }

  /**
   However the replies are chunked, a run of hit frames followed by the
   terminal no-op collects exactly those hits and stops after the no-op.
   */
  lemma {:induction false} GetMultiLoopCollects(keys: seq<Bytes>, hits: seq<Hit>, s: Stream, acc: map<Bytes, GetReply>, tail: Bytes)
    requires |keys| + 10 < 0x1_0000_0000
    requires forall i :: 0 <= i < |hits| ==> HitFits(hits[i]) && hits[i].index < |keys|
    requires Avail(s) == HitFrames(hits) + (TerminalFrame(keys) + tail)
    ensures GetMultiLoop(keys, s, acc).Ok?
    ensures GetMultiLoop(keys, s, acc).value.0 == Collect(keys, hits, acc)
    ensures Avail(GetMultiLoop(keys, s, acc).value.1) == tail
    decreases |hits|
  {
    if |hits| == 0 {
      GetMultiTerminalStep(keys, s, acc, tail);
    } else {
      var h := hits[0];
      var s' := GetMultiHitsStep(keys, hits, s, acc, TerminalFrame(keys) + tail);
      GetMultiLoopCollects(keys, hits[1..], s', acc[keys[h.index] := GetReply(h.flags, h.cas, h.value)], tail);
    }
  }

  /** A reply carrying an opaque value that names no key and is not the terminal one raises. */
  lemma GetMultiUnknownOpaque(keys: seq<Bytes>, s: Stream, acc: map<Bytes, GetReply>, h: Hit, tail: Bytes)
    requires HitFits(h) && h.index >= |keys| && h.index != Terminal(keys)
    requires Avail(s) == HitFrame(h) + tail
    ensures GetMultiLoop(keys, s, acc) == Err(UnknownOpaque(h.index))
  {
    HandleResponseFrame(s, HitHeader(h), GetBody(h.flags, h.value), tail, None);
    ParseGetBody(h.flags, h.cas, h.value);
  }

  // ---------------------------------------------------------------------
  // Stats.

  /**
   The response loop of `stats`: a response with a non-zero key length adds
   the statistic named by the first key-length bytes of its body, valued by
   the rest; one with a zero key length ends the loop.
   */
  function StatsLoop(s: Stream, acc: map<Bytes, Bytes>): (r: Result<(map<Bytes, Bytes>, Stream), ClientError>)
    ensures r.Ok? ==> acc.Keys <= r.value.0.Keys
    decreases |Avail(s)|
  {
    match HandleKeyedResponse(s, None)
    case Err(e) => Err(e)
    case Ok((resp, rest)) =>
      if resp.keylen != 0 then
        var name := PySlice(resp.body, 0, resp.keylen);
        StatsLoop(rest, acc[name := PySlice(resp.body, resp.keylen, |resp.body|)])
      else Ok((acc, rest))
  }

  /** `stats`: write one stat request for the group `sub`, then collect the statistics. */
  function Stats(sub: Bytes, opq: int, s: Stream): (r: Result<(Bytes, map<Bytes, Bytes>, Stream), ClientError>)
    requires OpaqueDraw(opq)
    ensures r.Ok? ==> (|r.value.0| == MIN_RECV_PACKET + |sub|
      && DecodeHeader(r.value.0[..MIN_RECV_PACKET]).opcode == OpcodeByte(Stat)
      && r.value.0[MIN_RECV_PACKET..] == sub)
  {
    var sent :- SendCmd(OpcodeByte(Stat), sub, [], opq, [], 0);
    assert [] + sub + [] == sub;
    var (found, rest) :- StatsLoop(s, map[]);
    Ok((sent, found, rest))
  }

  /** One statistic in a stats reply. */
  datatype StatEntry = StatEntry(name: Bytes, value: Bytes)

  predicate StatFits(st: StatEntry) {
    0 < |st.name| < 0x1_0000 && |st.name| + |st.value| < 0x1_0000_0000
  }

  function StatHeader(st: StatEntry): Header {
    Header(RES_MAGIC_BYTE, OpcodeByte(Stat), |st.name|, 0, 0, 0, |st.name| + |st.value|, 0, 0)
  }

  function StatFrames(stats: seq<StatEntry>): Bytes
    requires forall i :: 0 <= i < |stats| ==> StatFits(stats[i])
  {
    if |stats| == 0 then []
    else
      assert StatFits(stats[0]);
      assert forall i :: 0 <= i < |stats[1..]| ==> stats[1..][i] == stats[i + 1];
      ResponseFrame(StatHeader(stats[0]), stats[0].name + stats[0].value) + StatFrames(stats[1..])
  }

  /** The empty-key response that ends a stats reply. */
  function StatsEndFrame(): Bytes {
    ResponseFrame(Header(RES_MAGIC_BYTE, OpcodeByte(Stat), 0, 0, 0, 0, 0, 0, 0), [])
  }

  function CollectStats(stats: seq<StatEntry>, acc: map<Bytes, Bytes>): map<Bytes, Bytes> {
    if |stats| == 0 then acc else CollectStats(stats[1..], acc[stats[0].name := stats[0].value])
  }

  lemma StatsStep(s: Stream, acc: map<Bytes, Bytes>, st: StatEntry, more: Bytes) returns (s': Stream)
    requires StatFits(st)
    requires Avail(s) == ResponseFrame(StatHeader(st), st.name + st.value) + more
    ensures Avail(s') == more
    ensures StatsLoop(s, acc) == StatsLoop(s', acc[st.name := st.value])
  {
    var body := st.name + st.value;
    HandleResponseFrame(s, StatHeader(st), body, more, None);
    s' := HandleKeyedResponse(s, None).value.1;
    var resp := Response(OpcodeByte(Stat), 0, 0, |st.name|, 0, body);
    assert HandleKeyedResponse(s, None) == Ok((resp, s'));
    StatSlices(st.name, st.value);
    StatsLoopUnfoldEntry(s, acc, resp, s');
  }

  /** A statistic's body splits back into its name and its value. */
  lemma StatSlices(name: Bytes, value: Bytes)
    ensures PySlice(name + value, 0, |name|) == name
    ensures PySlice(name + value, |name|, |name + value|) == value
  {
    assert (name + value)[..|name|] == name;
    assert (name + value)[|name|..] == value;
  }

  /** The loop's step on a response with a non-zero key length. */
  lemma StatsLoopUnfoldEntry(s: Stream, acc: map<Bytes, Bytes>, resp: Response, rest: Stream)
    requires HandleKeyedResponse(s, None) == Ok((resp, rest))
    requires resp.keylen != 0
    ensures StatsLoop(s, acc)
      == StatsLoop(rest, acc[PySlice(resp.body, 0, resp.keylen) := PySlice(resp.body, resp.keylen, |resp.body|)])
  {
  }

  lemma StatsEndStep(s: Stream, acc: map<Bytes, Bytes>, tail: Bytes)
    requires Avail(s) == StatsEndFrame() + tail
    ensures StatsLoop(s, acc).Ok?
    ensures StatsLoop(s, acc).value.0 == acc && Avail(StatsLoop(s, acc).value.1) == tail
  {
    var eh := Header(RES_MAGIC_BYTE, OpcodeByte(Stat), 0, 0, 0, 0, 0, 0, 0);
    HandleResponseFrame(s, eh, [], tail, None);
  }

  /** The first of a run of statistic frames is consumed like a single one. */
  lemma StatsFramesStep(stats: seq<StatEntry>, s: Stream, acc: map<Bytes, Bytes>, rest: Bytes) returns (s': Stream)
    requires |stats| > 0
    requires forall i :: 0 <= i < |stats| ==> StatFits(stats[i])
    requires Avail(s) == StatFrames(stats) + rest
    ensures forall i :: 0 <= i < |stats[1..]| ==> StatFits(stats[1..][i])
    ensures Avail(s') == StatFrames(stats[1..]) + rest
    ensures StatsLoop(s, acc) == StatsLoop(s', acc[stats[0].name := stats[0].value])
  {
    var st := stats[0];
    assert forall i :: 0 <= i < |stats[1..]| ==> stats[1..][i] == stats[i + 1];
    var more := StatFrames(stats[1..]) + rest;
    assert Avail(s) == ResponseFrame(StatHeader(st), st.name + st.value) + more;
    s' := StatsStep(s, acc, st, more);
  }

  /** A run of statistic frames followed by the empty-key frame yields exactly those statistics. */
  lemma {:induction false} StatsLoopCollects(stats: seq<StatEntry>, s: Stream, acc: map<Bytes, Bytes>, tail: Bytes)
    requires forall i :: 0 <= i < |stats| ==> StatFits(stats[i])
    requires Avail(s) == StatFrames(stats) + (StatsEndFrame() + tail)
    ensures StatsLoop(s, acc).Ok?
    ensures StatsLoop(s, acc).value.0 == CollectStats(stats, acc)
    ensures Avail(StatsLoop(s, acc).value.1) == tail
    decreases |stats|
  {
    if |stats| == 0 {
      StatsEndStep(s, acc, tail);
    } else {
      var st := stats[0];
      var s' := StatsFramesStep(stats, s, acc, StatsEndFrame() + tail);
      StatsLoopCollects(stats[1..], s', acc[st.name := st.value], tail);
    }
  }
}
