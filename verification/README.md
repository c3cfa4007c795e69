# Arcus memcached binary client, modelled in Dafny

This project models `mc_bin_client.py`, the Python client for the binary
protocol of the Arcus memcached server, together with `memcacheConstants.py`,
which supplies its opcodes, status codes and `struct` layouts. It also models
the server-side collection semantics (lists, sets and b-trees) that the
client's unit tests rely on.

Each request is a 24-byte header, laid out as `>BBHBBHIIQ`: magic, opcode, key
length, extras length, data type, vbucket, body length, opaque and CAS. The
extras, the key and the value follow it. A response carries a status in place
of the vbucket.

The modules follow the source:

- `Struct` (`wire_struct.dfy`) models the part of Python's `struct` module the
  client uses. It covers big-endian `B`, `H`, `I`/`L`, `l` and `Q` fields, and
  `pack` and `unpack` with their range and arity errors.
- `Constants` (`constants.dfy`) covers the opcode table and `COMMAND_NAMES`,
  the status, attribute, item-type and overflow-action codes, every packet
  layout, and `EXTRA_HDR_SIZES`.
- `Codec` (`codec.dfy`) covers the request header (`_sendCmd`) and the extras
  each client method packs. It holds both the as-written call sites that
  cannot pack and their corrected layouts.
- `Bodies` (`bodies.dfy`) covers the response-body parsers: `__parseGet`,
  `__parseLOPGet`, `__parseSOPGet`, `__parseBOPGet`, the counter of
  incr/decr, and `sop_exist`.
- `Transport` (`transport.dfy`) models the socket as a byte stream delivered
  in segments. It covers `_handleKeyedResponse`, `_handleSingleResponse`,
  `_doCmd` and the opaque draw.
- `Client` (`client.dfy`) covers every public method as a command:
  - the request it writes (`RequestOf`);
  - how it reads the reply (`Interpret`);
  - the whole call (`Call`);
  - the `getMulti` quiet-get pipeline and the `stats` loop.
- `Items`, `Lists`, `Sets`, `BTrees` and `Server` (`items.dfy`, `lists.dfy`,
  `sets.dfy`, `btrees.dfy`, `store.dfy`) are a reference store for the
  collection commands. They give the behaviour the unit tests expect of the
  server:
  - list index ranges with negative indices;
  - overflow actions;
  - b-tree bkey ranges, `maxbkeyrange` windows and eviction;
  - attributes;
  - type gating.
- `Scenarios` (`scenarios.dfy`) replays the collection unit tests against the
  reference store, step by step, with the exact values the tests assert.

## Model

| member | source | states |
|---|---|---|
| Struct.DecodeEncodeBE | mc_bin_client.py:51-56 | reading back a big-endian field of width w gives the value packed, for every value below 256^w |
| Struct.EncodeDecodeBE | mc_bin_client.py:58-82 | re-packing the value read from any byte string gives the same bytes |
| Struct.DecodeEncodeField | memcacheConstants.py:88-101 | for each format code, unpacking a packed in-range value (a signed one for `l`) gives the value back |
| Struct.EncodeDecodeField | memcacheConstants.py:88-101 | for each format code, re-packing any field of the code's width reproduces it |
| Struct.PackFields | mc_bin_client.py:51-56 | packing succeeds exactly when every value fits its field, and the result then has the layout's size; otherwise it is a range error |
| Struct.Pack | mc_bin_client.py:51-56 | as PackFields, plus an arity error naming both counts when the number of values differs from the number of fields |
| Struct.Unpack | mc_bin_client.py:58-82 | unpacking succeeds exactly when the data has the layout's size, and then yields one in-range value per field |
| Struct.UnpackFields | mc_bin_client.py:66-67 | unpacking data of the layout's size yields one in-range value per field |
| Struct.UnpackPackFields | mc_bin_client.py:51-82 | unpacking fields packed from in-range values gives the values back |
| Struct.PackUnpackFields | mc_bin_client.py:51-82 | packing the fields unpacked from data of the layout's size reproduces the data |
| Struct.UnpackFieldsAt | mc_bin_client.py:58-82 | field i of an unpack is the decoding of the bytes at the sum of the widths of the fields before it |
| Struct.UnpackPack | mc_bin_client.py:51-82 | unpack inverts a successful pack |
| Struct.PackUnpack | mc_bin_client.py:51-82 | pack inverts a successful unpack |
| Struct.PySlice | mc_bin_client.py:197-210 | Python slicing: within bounds it is the ordinary slice; a slice whose end runs past the sequence is the whole suffix from its start; a start past the end gives the empty sequence |
| Constants.CommandName | memcacheConstants.py:64 | `COMMAND_NAMES`: every defined opcode byte maps to its own `CMD_` name, and nothing else maps to a name |
| Constants.OpcodeTableInvertsAll | memcacheConstants.py:10-62 | looking up the byte of any opcode gives that opcode back |
| Constants.OpcodeOfNamesItsByte | memcacheConstants.py:10-62 | the opcode found for a byte has exactly that byte |
| Constants.OpcodesDistinct | memcacheConstants.py:10-62 | no two opcodes share a byte |
| Constants.StatusCodesDistinctNonZero | memcacheConstants.py:165-181 | every error status is non-zero, distinct from the others, and decodes back to itself |
| Constants.EnumerationsDistinct | memcacheConstants.py:67-85 | the attribute ids are 0..5, the item types 1..4 and the overflow actions 1..5, each code distinct and the overflow codes invertible |
| Constants.ExtraHdrSize | memcacheConstants.py:147-163 | `EXTRA_HDR_SIZES` has an entry for exactly twelve commands: set, add and replace take 8 bytes, incr and decr 20, delete 0 and flush 4. The tap mutation takes 16, and tap delete, flush, opaque and vbucket-set take 8 |
| Constants.TapLayouts | memcacheConstants.py:120-123 | the native tap layouts `HHbxxxII` and `HHbxxx` need no alignment padding, so they take 16 and 8 bytes |
| Constants.PlainLayouts | memcacheConstants.py:112-132 | the big-endian set, incr/decr, delete and flush layouts take 8, 20, 0 and 4 bytes |
| Constants.HeaderLayout | memcacheConstants.py:139-145 | request and response layouts agree and `MIN_RECV_PACKET` is their 24-byte size |
| Constants.ListSetExtraSizes | memcacheConstants.py:92-96 | the list and set insert and get layouts are 20, 12, 16 and 8 bytes, and list indices are signed |
| Constants.BTreeExtraSizes | memcacheConstants.py:97-99 | the b-tree insert and get layouts are 24 and 28 bytes, and bkeys are unsigned 64-bit |
| Codec.EncodeHeader | mc_bin_client.py:51-56 | a header packs exactly when all nine fields fit their widths, into `MIN_RECV_PACKET` bytes |
| Codec.DecodeHeader | mc_bin_client.py:66-67 | every header decoded from 24 bytes has fields within their widths |
| Codec.HeaderRoundTrip | mc_bin_client.py:51-82 | decoding an encoded header gives the header back |
| Codec.HeaderBytesRoundTrip | mc_bin_client.py:58-82 | encoding the header decoded from any 24 bytes reproduces them |
| Codec.HeaderUnpacks | mc_bin_client.py:66-67 | `struct.unpack(RES_PKT_FMT, …)` of 24 bytes is the list of the decoded header's fields |
| Codec.HeaderPacks | mc_bin_client.py:53-55 | encoding a header is `struct.pack(REQ_PKT_FMT, …)` of its nine fields |
| Codec.SendCmd | mc_bin_client.py:51-56 | the request is written exactly when opcode, key length, extras length, body length, opaque and CAS fit. It is then the header, whose body length counts extras, key and value, followed by extras, key and value |
| Codec.MutateExtras | mc_bin_client.py:94-96 | set/add/replace extras pack exactly when flags and expiry are unsigned 32-bit, into 8 bytes |
| Codec.MutateExtrasUnpack | mc_bin_client.py:94-96 | the packed extras unpack to flags then expiry |
| Codec.IncrDecrExtras | mc_bin_client.py:107-110 | incr/decr extras pack exactly when amount and initial value are unsigned 64-bit and expiry is 32-bit, into 20 bytes |
| Codec.IncrDecrExtrasUnpack | mc_bin_client.py:107-110 | the packed extras unpack to amount, initial value and expiry |
| Codec.FlushExtras | mc_bin_client.py:406-409 | flush extras pack exactly when the delay is unsigned 32-bit, into 4 bytes |
| Codec.FlushExtrasUnpack | mc_bin_client.py:406-409 | they unpack to the delay |
| Codec.LopInsertExtras | mc_bin_client.py:185-189 | list insert extras pack exactly when the index is signed 32-bit, flags, expiry and maxcount unsigned 32-bit and create a byte, into 20 bytes |
| Codec.LopInsertExtrasUnpack | mc_bin_client.py:185-189 | they unpack to index, flags, expiry, maxcount, create and three zero bytes |
| Codec.LopGetExtras | mc_bin_client.py:212-217 | list get extras pack exactly when both indices are signed 32-bit and the flags bytes fit, into 12 bytes |
| Codec.LopGetExtrasUnpack | mc_bin_client.py:212-217 | they unpack to from, to, delete, drop-if-empty and two zero bytes |
| Codec.SopInsertExtras | mc_bin_client.py:227-231 | set insert extras pack exactly when flags, expiry and maxcount are unsigned 32-bit and create a byte, into 16 bytes |
| Codec.SopInsertExtrasUnpack | mc_bin_client.py:227-231 | they unpack to flags, expiry, maxcount, create and three zero bytes |
| Codec.SopGetExtras | mc_bin_client.py:259-264 | set get extras pack exactly when count is unsigned 32-bit and the flag bytes fit, into 8 bytes |
| Codec.SopGetExtrasUnpack | mc_bin_client.py:259-264 | they unpack to count, delete, drop-if-empty and two zero bytes |
| Codec.BopInsertExtras | mc_bin_client.py:274-278 | b-tree insert extras pack exactly when the bkey is unsigned 64-bit and the rest fit, into 24 bytes |
| Codec.BopInsertExtrasUnpack | mc_bin_client.py:274-278 | they unpack to bkey, flags, expiry, maxcount, create and three zero bytes |
| Codec.BopGetExtras | mc_bin_client.py:305-310 | b-tree get extras pack exactly when both bkeys are unsigned 64-bit and offset and count unsigned 32-bit, into 28 bytes |
| Codec.BopGetExtrasUnpack | mc_bin_client.py:305-310 | they unpack to from, to, offset, count, delete, drop-if-empty and two zero bytes |
| Codec.LopDeleteExtrasAsWritten | mc_bin_client.py:191-195 | no contract of its own; see `Codec.LopDeleteAsWrittenFails` |
| Codec.BopDeleteExtrasAsWritten | mc_bin_client.py:280-284 | no contract of its own; see `Codec.BopDeleteAsWrittenFails` |
| Codec.SetAttrExtrasAsWritten | mc_bin_client.py:170-175 | no contract of its own; see `Codec.SetAttrAsWrittenFails` |
| Codec.GetAttrFieldsAsWritten | mc_bin_client.py:148-153 | no contract of its own; see `Codec.GetAttrAsWrittenFails` |
| Codec.LopDeleteAsWrittenFails | mc_bin_client.py:191-195 | as written, list delete packs six values into the two-field `LOP_DEL_PKT_FMT` and fails with an arity error for every argument |
| Codec.BopDeleteAsWrittenFails | mc_bin_client.py:280-284 | as written, b-tree delete packs seven values into the three-field `BOP_DEL_PKT_FMT` and always fails |
| Codec.SetAttrAsWrittenFails | mc_bin_client.py:170-175 | as written, setattr packs seven values into the six-field `SETATTR_PKT_FMT` and always fails |
| Codec.GetAttrAsWrittenFails | mc_bin_client.py:148-153 | as written, getattr unpacks the eight fields of `GETATTR_RES_FMT` into nine names and fails for every body |
| Codec.SopDeleteExtrasAsWritten | mc_bin_client.py:233-237 | as written, set delete names the unbound `SOP_DEL_PKT_FMT` and raises before packing |
| Codec.UnboundCallsHaveNoOpcode | mc_bin_client.py:179-183 | the opcodes the create and count methods name (`CMD_LOP_CREATE`, `CMD_SOP_CREATE`, `CMD_BOP_CREATE`, `CMD_BOP_COUNT`) belong to no defined opcode |
| Codec.LopDeleteExtras | mc_bin_client.py:191-195 | corrected list delete extras pack exactly when both indices are signed 32-bit and drop-if-empty a byte, into 12 bytes |
| Codec.LopDeleteExtrasUnpack | mc_bin_client.py:191-195 | they unpack to from, to, drop-if-empty and three zero bytes |
| Codec.SopDeleteExtras | mc_bin_client.py:233-237 | corrected set delete extras pack exactly when drop-if-empty is a byte, into 4 bytes |
| Codec.SopDeleteExtrasUnpack | mc_bin_client.py:233-237 | they unpack to drop-if-empty and three zero bytes |
| Codec.BopDeleteExtras | mc_bin_client.py:280-284 | corrected b-tree delete extras pack exactly when both bkeys are unsigned 64-bit, count 32-bit and drop-if-empty a byte, into 24 bytes |
| Codec.BopDeleteExtrasUnpack | mc_bin_client.py:280-284 | they unpack to from, to, count, drop-if-empty and three zero bytes |
| Codec.SetAttrExtras | mc_bin_client.py:170-175 | corrected setattr extras pack exactly when all seven values fit their fields, into 16 bytes |
| Codec.SetAttrExtrasUnpack | mc_bin_client.py:170-175 | they unpack to the seven values in the order the method packs them: expiry, maxcount, bkey range and action, then the three change flags |
| Codec.GetAttrFields | mc_bin_client.py:148-153 | the corrected getattr body unpacks exactly when it is 24 bytes |
| Codec.GetAttrFieldsRoundTrip | mc_bin_client.py:148-153 | reading back any packed attribute view gives the view |
| Codec.SelectAttrAsWritten | mc_bin_client.py:154-168 | no contract of its own; see `Codec.SelectAttrAsWrittenRaises` and `Codec.SelectAttrAgrees` |
| Codec.SelectAttrAsWrittenRaises | mc_bin_client.py:154-168 | as written, asking for the item type or the overflow action raises: the chain first compares the id with `ATTR_MAXBKEYRANGE`, which the constants module does not define |
| Codec.SelectAttr | mc_bin_client.py:154-168 | each attribute id selects its own field, `maxbkeyrange` selects that field, and any other id gives -1 |
| Codec.SelectAttrAgrees | mc_bin_client.py:154-168 | where the as-written selection answers (ids 1 to 4 only), it answers what the corrected one does |
| Bodies.ParseGet | mc_bin_client.py:133-135 | a get body parses exactly when it has at least 4 bytes, into the CAS, flags decoded from the first 4 bytes, and the value that follows |
| Bodies.ParseGetBody | mc_bin_client.py:133-135 | parsing a body built from flags and a value gives those flags and that value back |
| Bodies.ParseLopGet | mc_bin_client.py:197-210 | a list body parses exactly when it holds flags, count and count length fields; one value per counted element |
| Bodies.ParseLopGetBody | mc_bin_client.py:197-210 | parsing a body built from flags and values gives those flags and values back |
| Bodies.ParseSopGet | mc_bin_client.py:244-257 | a set body parses exactly when the list parse does, with the same flags and count, and its members are the values read |
| Bodies.ParseSopGetBody | mc_bin_client.py:244-257 | parsing a body built from values gives the set of those values and their count |
| Bodies.ParseBopGet | mc_bin_client.py:286-303 | a parsed b-tree reply has as many bkeys and values as its count; when it parses and what it holds are stated by `Bodies.ParseBopGetAccepts` and `Bodies.ParseBopGetBody` |
| Bodies.ParseBopGetAccepts | mc_bin_client.py:286-303 | a b-tree body parses exactly when it holds flags, count, count bkeys and count length fields, and the count is the one read |
| Bodies.ParseBopGetBody | mc_bin_client.py:286-303 | parsing a body built from flags, bkeys and values gives them back |
| Bodies.TruncatedValueStillParses | mc_bin_client.py:205-209 | the value slices are clipped, so a list body missing its last byte still parses, with a shorter last value |
| Bodies.U32AtUnpacks | mc_bin_client.py:203-205 | reading a 32-bit length at an offset is `struct.unpack` of the 4-byte slice there, its error included |
| Bodies.U64AtUnpacks | mc_bin_client.py:292-294 | reading a bkey at an offset is `struct.unpack` of the 8-byte slice there, its error included |
| Bodies.ParseLengthsFields | mc_bin_client.py:203-205 | reading back the packed length fields of some values gives their lengths |
| Bodies.ParseBkeysFields | mc_bin_client.py:292-294 | reading back packed bkeys gives the bkeys |
| Bodies.ParseValuesConcat | mc_bin_client.py:206-209 | slicing the concatenated values by their lengths gives the values back |
| Bodies.ParseCounter | mc_bin_client.py:107-110 | the incr/decr reply parses exactly when it is 8 bytes, into their big-endian value |
| Bodies.ParseCounterBody | mc_bin_client.py:107-110 | reading back a packed counter gives it |
| Bodies.ParseExist | mc_bin_client.py:239-242 | the `sop_exist` reply parses exactly when it is 4 bytes, into their value |
| Bodies.ParseExistBody | mc_bin_client.py:239-242 | a reply built from present or absent reads back as 1 or 0 |
| Transport.Recv | mc_bin_client.py:62-64 | `recv(n)` returns a non-empty prefix of what remains, of at most n bytes, exactly when anything remains, and consumes just that |
| Transport.ReadExactly | mc_bin_client.py:60-75 | the read loop yields exactly the next n bytes when that many remain, and an EOF error otherwise |
| Transport.HandleKeyedResponse | mc_bin_client.py:58-82 | success means an accepted magic, the expected opaque when one is given, a zero status and a whole body, and returns that body and the rest of the stream. Fewer than 24 bytes is EOF |
| Transport.HandleResponseFrame | mc_bin_client.py:58-82 | on a well-formed frame, a wrong opaque is an opaque mismatch, a non-zero status is a server error carrying the body, and otherwise the response is the frame's fields and the stream continues after it |
| Transport.ShortStreamIsEof | mc_bin_client.py:60-65 | a stream that closes before 24 bytes gives EOF |
| Transport.HandleSingleResponse | mc_bin_client.py:84-86 | succeeds exactly when the keyed response does, and then returns its opaque, CAS and body and has consumed input |
| Transport.Transact | mc_bin_client.py:88-92 | a successful exchange wrote `_sendCmd`'s bytes with the drawn opaque and read a reply carrying it. It fails with a pack error exactly when the request cannot be written |
| Transport.DoCmdAsWritten | mc_bin_client.py:88-92 | no contract of its own; see `Transport.OpaqueDrawAsWrittenOverflows` |
| Transport.OpaqueDrawAsWrittenOverflows | mc_bin_client.py:90 | the as-written draw can return 2^32, and then every command fails with a pack error before anything is sent |
| Transport.DoCmd | mc_bin_client.py:88-92 | with the corrected draw, a pack error means the command's own fields do not fit, and a reply always carries the drawn opaque |
| Client.RequestAsWritten | mc_bin_client.py:94-310 | no contract of its own; see `Client.RequestAsWrittenFails` and `Client.RequestAsWrittenAgrees` |
| Client.RequestOf | mc_bin_client.py:94-310 | a method's request fails only for a call the constants cannot bind or for values that do not fit; the unbound calls fail naming their opcode |
| Client.RequestAsWrittenFails | mc_bin_client.py:170-237 | the four mismatched call sites (setattr, list, set and b-tree delete) fail for every argument |
| Client.RequestAsWrittenAgrees | mc_bin_client.py:94-310 | every other method writes the same request as the corrected client |
| Client.Call | mc_bin_client.py:88-92 | a successful call sent exactly `_sendCmd` of the method's request and the drawn opaque, with the method's opcode in the header and extras, key and value after it |
| Client.CallOnFrame | mc_bin_client.py:58-92 | given a reply frame carrying the opaque: a non-zero status is a server error with the body; otherwise the call succeeds exactly when the method's reading of the body does, returns that reading, and leaves the stream after the frame |
| Client.Perform | mc_bin_client.py:88-92 | a successful exchange of a built request sent exactly `_sendCmd` of it with the drawn opaque |
| Client.PerformOnFrame | mc_bin_client.py:58-92 | the same for an already-built request |
| Client.GetRoundTrip | mc_bin_client.py:137-140 | `get` on a reply frame built from flags, CAS and value returns exactly those |
| Client.LopGetRoundTrip | mc_bin_client.py:212-217 | `lop_get` on a reply built from flags and values returns them in order |
| Client.SopGetRoundTrip | mc_bin_client.py:259-264 | `sop_get` on a reply built from values returns their set |
| Client.BopGetRoundTrip | mc_bin_client.py:305-310 | `bop_get` on a reply built from flags, bkeys and values returns them |
| Client.GetQRequests | mc_bin_client.py:364-370 | the batch of quiet gets is written exactly when every key's length fits 16 bits and each index fits the opaque |
| Client.StoreHit | mc_bin_client.py:374-380 | a hit is stored under the key its opaque indexes exactly when the body parses and the opaque is a key index, and an unknown opaque is an error naming it |
| Client.GetMultiLoop | mc_bin_client.py:372-381 | no contract of its own; see `Client.GetMultiLoopKeys`, `Client.GetMultiLoopCollects`, `Client.GetMultiTerminalStep` and `Client.GetMultiUnknownOpaque` |
| Client.GetMultiLoopKeys | mc_bin_client.py:372-381 | the read loop only ever adds requested keys to the map |
| Client.GetMulti | mc_bin_client.py:360-382 | every key in `getMulti`'s result was requested |
| Client.GetMultiLoopCollects | mc_bin_client.py:372-381 | on a stream of hit frames followed by the noop's reply, the loop returns the map of those hits, later hits overriding earlier ones, and stops right after the noop |
| Client.GetMultiTerminalStep | mc_bin_client.py:375-377 | the reply whose opaque is past the keys ends the loop with the map unchanged |
| Client.GetMultiUnknownOpaque | mc_bin_client.py:378-379 | a hit whose opaque is neither a key index nor the terminal one is an error |
| Client.StatsLoop | mc_bin_client.py:389-395 | the stats loop never drops a name it has already collected |
| Client.Stats | mc_bin_client.py:384-396 | `stats` writes a stat request, and the sub-command, sent as the key, is all that follows the header |
| Client.StatsLoopCollects | mc_bin_client.py:389-395 | on a stream of named stat frames ended by an empty-key frame, the loop returns the map of those names to values and stops right after the end frame |
| Client.StatsEndStep | mc_bin_client.py:392-393 | a frame with an empty key ends the loop with the map unchanged |
| Sequences.Reverse | testClient-CollLOPUnitTest.py:64-70 | element k of the reversal is element n-1-k of the sequence |
| Sequences.ReverseMultiset | testClient-CollBOPUnitTest.py:54-86 | reversing keeps the same elements with the same multiplicities |
| Sequences.DistinctSize | testClient-CollSOPUnitTest.py:43-64 | a sequence with no duplicates has as many members as elements |
| Lists.ResolveRange | testClient-CollLOPUnitTest.py:58-81 | a list range resolves, with negative indices counted from the end and `to` clipped, to exactly the positions between `from` and `to`, backward when `from` lies after `to`. It is INDEXOOR exactly when no position lies between them |
| Lists.Select | testClient-CollLOPUnitTest.py:58-81 | the selected elements are those of the span in order, reversed for a backward span |
| Lists.Cut | testClient-CollLOPUnitTest.py:108-122 | cutting a span keeps the elements before it and shifts those after it down |
| Lists.ListGet | testClient-CollLOPUnitTest.py:58-81 | a get fails only with INDEXOOR, and otherwise returns at least one and at most all elements |
| Lists.ListDelete | testClient-CollLOPUnitTest.py:108-122 | a delete fails only with INDEXOOR, and otherwise shortens the list |
| Lists.GetDeletePartition | testClient-CollLOPUnitTest.py:108-138 | get and delete succeed on the same ranges, and what get returns plus what delete leaves is the list, as a multiset |
| Lists.InsertPosition | testClient-CollLOPUnitTest.py:140-166 | an insert index is valid exactly from -(n+1) to n; a negative one counts from the end |
| Lists.TrimPosition | testClient-CollLOPUnitTest.py:193-213 | in a full list an index is valid exactly from -n to n-1 |
| Lists.PutAt | testClient-CollLOPUnitTest.py:94-107 | placing a value at p grows the list by one with the value at p and everything else in order |
| Lists.ListInsert | testClient-CollLOPUnitTest.py:168-245 | below maxcount the value lands at its position. At maxcount, the error action is OVERFLOW, and a trim action places the value after dropping the head or the tail, as the position decides. The list never exceeds maxcount |
| Lists.InsertThenDelete | testClient-CollLOPUnitTest.py:85-138 | deleting the position just inserted restores the list, and getting it returns the value |
| Sets.SetInsert | testClient-CollSOPUnitTest.py:113-177 | ELEM_EXISTS exactly for a member, OVERFLOW exactly for a new value into a full set, and otherwise the members gain the value and stay duplicate-free |
| Sets.SetRemove | testClient-CollSOPUnitTest.py:66-111 | ELEM_NOENT exactly for a non-member, and otherwise exactly that value leaves |
| Sets.SetExist | testClient-CollSOPUnitTest.py:58-63 | 1 exactly for members and 0 exactly for the rest |
| Sets.SetTake | testClient-CollSOPUnitTest.py:43-111 | a partial get returns `count` members, or all of them when count is 0 or covers the set |
| Sets.TakeLeavePartition | testClient-CollSOPUnitTest.py:92-111 | a get with delete splits the members into what is returned and what remains, disjointly |
| Sets.InsertThenRemove | testClient-CollSOPUnitTest.py:66-111 | removing a value just inserted restores the set |
| BTrees.Within | testClient-CollBOPUnitTest.py:54-86 | the filter keeps exactly the elements whose bkeys lie in the range |
| BTrees.WithinReverse | testClient-CollBOPUnitTest.py:54-86 | filtering a reversed tree is reversing the filtered tree |
| BTrees.WithinSorted | testClient-CollBOPUnitTest.py:54-86 | filtering a sorted tree by a range keeps it sorted |
| BTrees.Traverse | testClient-CollBOPUnitTest.py:54-86 | a range read visits exactly the elements between its ends, ascending when from ≤ to and descending otherwise |
| BTrees.Page | testClient-CollBOPUnitTest.py:54-86 | offset and count select a contiguous run, all of the rest when count is 0 |
| BTrees.PageOrder | testClient-CollBOPUnitTest.py:54-86 | a page keeps the order of what it pages |
| BTrees.BTreeGet | testClient-CollBOPUnitTest.py:54-86 | ELEM_NOENT exactly when the offset skips every match; otherwise elements of the range, at most count of them |
| BTrees.GetOrder | testClient-CollBOPUnitTest.py:54-86 | the elements come ascending for an ascending range and descending for a descending one |
| BTrees.WalkOrder | testClient-CollBOPUnitTest.py:54-86 | the traversal is the filter of the tree, or of its reverse for a descending range |
| BTrees.Walk | testClient-CollBOPUnitTest.py:54-86 | the loop that skips `offset` matches and stops after `count` returns the page of the filter |
| BTrees.WalkGet | testClient-CollBOPUnitTest.py:54-86 | the loop-based get agrees with the functional get |
| BTrees.Without | testClient-CollBOPUnitTest.py:154-237 | removing a selection keeps exactly the elements outside it |
| BTrees.WithoutSorted | testClient-CollBOPUnitTest.py:154-237 | removing a selection keeps a tree sorted |
| BTrees.SelectionPartition | testClient-CollBOPUnitTest.py:154-237 | removing a selection leaves exactly the other elements, and the counts add up |
| BTrees.BTreeDelete | testClient-CollBOPUnitTest.py:154-237 | ELEM_NOENT exactly when no bkey lies in the range; otherwise exactly the selected elements leave, and order is kept |
| BTrees.BTreeCount | testClient-CollBOPUnitTest.py:239-278 | the count is the number of elements in the range, 0 exactly when there are none |
| BTrees.CountMatchesGet | testClient-CollBOPUnitTest.py:239-278 | a count of 0 is exactly a get that finds nothing, and otherwise the whole get returns count elements |
| BTrees.InsertSorted | testClient-CollBOPUnitTest.py:88-152 | inserting a new bkey adds exactly that element and keeps the tree sorted |
| BTrees.TrimBelow | testClient-CollBOPUnitTest.py:363-424 | smallest-trim's window keeps only tree elements, and it refuses with BKEYOOR only for a bkey more than the range below the largest |
| BTrees.TrimAbove | testClient-CollBOPUnitTest.py:363-424 | largest-trim's window keeps only tree elements, and it refuses with BKEYOOR only for a bkey more than the range above the smallest |
| BTrees.TrimBelowTight | testClient-CollBOPUnitTest.py:393-397 | what smallest-trim keeps, together with the new bkey, spans at most the range |
| BTrees.TrimBelowEvicts | testClient-CollBOPUnitTest.py:393-397 | smallest-trim evicts only bkeys below the new one |
| BTrees.TrimAboveTight | testClient-CollBOPUnitTest.py:411-414 | what largest-trim keeps, together with the new bkey, spans at most the range |
| BTrees.TrimAboveEvicts | testClient-CollBOPUnitTest.py:411-414 | largest-trim evicts only bkeys above the new one |
| BTrees.FitWindow | testClient-CollBOPUnitTest.py:363-424 | a tree already within the range of the new bkey is kept whole. Otherwise the window leaves a tree within the range, sorted, having evicted only bkeys on the side the action trims. BKEYOOR only beyond the far end, OVERFLOW only for a non-trim action |
| BTrees.FitCount | testClient-CollBOPUnitTest.py:300-361 | below maxcount the tree is kept. At maxcount, smallest-trim or largest-trim evicts from its own end to make room, or is BKEYOOR for a bkey beyond that end, and any other action is OVERFLOW |
| BTrees.BTreeInsert | testClient-CollBOPUnitTest.py:280-424 | ELEM_EXISTS exactly for a present bkey. A fresh bkey within the limits adds exactly its element. Every result is sorted, contains the element, stays within maxcount, and evicts only on the trimmed side. The error action at maxcount is OVERFLOW |
| BTrees.InsertKeepsWindow | testClient-CollBOPUnitTest.py:363-424 | with a window set, the tree after an insert spans at most maxbkeyrange |
| Server.Lookup | testClient-CollLOPUnitTest.py:247-317 | NOT_FOUND exactly for a missing key, BADTYPE exactly for an item of another kind |
| Server.Create | testClient-CollBOPUnitTest.py:239-252 | EXISTS exactly for a present key, BADVALUE exactly for an overflow action the kind does not allow; otherwise an empty collection with the given attributes, maxcount normalised |
| Server.Target | testClient-CollLOPUnitTest.py:43-56 | an insert's target is the existing item, or with the create flag a new empty one with the given attributes, and NOT_FOUND without it |
| Server.PutBack | testClient-CollBOPUnitTest.py:239-278 | writing an item back changes only its key, and removes the key when asked to drop it |
| Server.LopInsert | testClient-CollLOPUnitTest.py:140-166 | NOT_FOUND exactly for a missing key without create, BADTYPE exactly for a non-list, and success leaves a list under the key and nothing else changed |
| Server.LopInsertContents | testClient-CollLOPUnitTest.py:43-107 | after an insert the value is in the list, the attributes are kept, and below maxcount the list gains exactly that value |
| Server.LopGet | testClient-CollLOPUnitTest.py:58-81 | error exactly for a missing key, a non-list, or a range with no position; a plain get changes nothing, and a get with delete changes only the key |
| Server.LopGetRemovesWhatItReturns | testClient-CollLOPUnitTest.py:123-138 | a pop returns elements that, with what remains, make up the list, and the key goes when nothing remains |
| Server.LopDelete | testClient-CollLOPUnitTest.py:108-122 | error exactly as for a get; success shrinks the list, changes nothing else, and removes the key when it empties |
| Server.LopDeleteIsGetDelete | testClient-CollLOPUnitTest.py:108-138 | a delete succeeds, fails and leaves the store exactly as a get with delete does |
| Server.SopInsert | testClient-CollSOPUnitTest.py:113-134 | NOT_FOUND, BADTYPE and ELEM_EXISTS exactly in their cases; success adds exactly the value and keeps the attributes |
| Server.SopDelete | testClient-CollSOPUnitTest.py:66-111 | NOT_FOUND, BADTYPE and ELEM_NOENT exactly in their cases; success removes exactly the value and the key when the set empties |
| Server.SopExist | testClient-CollSOPUnitTest.py:43-64 | 1 exactly for a member and 0 for a non-member of an existing set |
| Server.SopGet | testClient-CollSOPUnitTest.py:43-111 | returns members of the set, count of them or all; a get with delete removes exactly those and the key when it empties |
| Server.BopInsert | testClient-CollBOPUnitTest.py:280-298 | NOT_FOUND exactly for a missing key without create, BADTYPE exactly for a non-b-tree, and success changes only the key |
| Server.BopInsertContents | testClient-CollBOPUnitTest.py:88-152 | after an insert the element is in the tree, every element was there before or is the new one, and the attributes are kept |
| Server.BopInsertDuplicate | testClient-CollBOPUnitTest.py:280-298 | ELEM_EXISTS exactly for a bkey already in the tree |
| Server.BopGet | testClient-CollBOPUnitTest.py:54-86 | errors exactly in their cases; the elements lie in the tree and the range, at most count of them; a plain get changes nothing |
| Server.BopGetRemovesWhatItReturns | testClient-CollBOPUnitTest.py:154-237 | a get with delete leaves exactly the elements not returned, and removes the key only with drop-if-empty on an emptied tree |
| Server.BopDelete | testClient-CollBOPUnitTest.py:154-237 | ELEM_NOENT exactly when no bkey is in range; success removes the selection, with count 0 exactly the range, and drops the key only when asked and empty |
| Server.BopCount | testClient-CollBOPUnitTest.py:239-278 | returns the flags and the number of elements in the range |
| Server.Apply | testClient-CollBOPUnitTest.py:300-361 | a setattr replaces exactly the attributes it names, normalising maxcount, and keeps the flags |
| Server.SetAttr | testClient-CollLOPUnitTest.py:168-245 | NOT_FOUND for a missing key, BADATTR for an attribute the kind lacks, BADVALUE for an action the kind refuses or a maxcount below the count; success changes only the attributes |
| Server.GetAttr | testClient-CollBOPUnitTest.py:363-374 | reports the item's type, count and attributes, with no overflow action for a plain value |
| Server.SetAttrThenGetAttr | testClient-CollLOPUnitTest.py:172-176 | after a successful setattr on a collection, getattr reports the count unchanged and each attribute the change named, maxcount normalised |
| Server.KvGet | testClient-CollLOPUnitTest.py:318-362 | NOT_FOUND and BADTYPE exactly in their cases; otherwise the item's flags and value |
| Server.KvStore | testClient-CollSOPUnitTest.py:270-314 | add is EXISTS on a present key, replace NOT_FOUND on a missing one, set and replace BADTYPE on a collection; success stores exactly the flags and value |
| Server.KvConcat | testClient-CollBOPUnitTest.py:497-542 | NOT_FOUND and BADTYPE exactly in their cases; otherwise the value gains the bytes at the front or the back |
| Server.CounterGate | testClient-CollBOPUnitTest.py:497-542 | incr and decr on a collection are BADTYPE |
| Server.Delete | testClient-CollBOPUnitTest.py:423-424 | NOT_FOUND exactly for a missing key; otherwise just that key goes |
| Server.Flush | testClient-CollLOPUnitTest.py:381-399 | after a flush no key remains |
| Server.Step | mc_bin_client.py:101-322 | no contract of its own: it hands each command the client can send to the store operation above; see `Server.StepKeepsWellFormed` |
| Server.StepKeepsWellFormed | testClient-CollBOPUnitTest.py:300-424 | every command keeps each collection within maxcount, with an allowed overflow action, sets duplicate-free and b-trees sorted |
| Server.RunKeepsWellFormed | testClient-CollBOPUnitTest.py:88-424 | any sequence of commands keeps the store well formed |
| Scenarios.LopCreatingInsert | testClient-CollLOPUnitTest.py:52 | the first insert with create makes a one-element list with flags 17, maxcount 10000 and tail-trim |
| Scenarios.LopInsertSession | testClient-CollLOPUnitTest.py:53-56 | four inserts at positions 1 to 4 give the five values in order |
| Scenarios.LopReadForward | testClient-CollLOPUnitTest.py:57-71 | each forward range the test reads returns the values it expects, with flags 17, and changes nothing |
| Scenarios.LopReadBackward | testClient-CollLOPUnitTest.py:64-81 | each backward range returns the values in reverse, and the two ranges wholly outside the list are INDEXOOR |
| Scenarios.LopAlternatingInserts | testClient-CollLOPUnitTest.py:94-98 | the first inserts at -1, 1, -2 and 2 place each value at its head- or tail-relative position |
| Scenarios.LopAlternatingInsertsRest | testClient-CollLOPUnitTest.py:99-107 | the inserts at -3, 3, -4, 4 and -5 leave the ten values in order |
| Scenarios.LopDeleteSession | testClient-CollLOPUnitTest.py:108-122 | deleting 8..-3 and then 1..3 leaves the five values the test reads, and the ranges 7..9 and -9..-8 are INDEXOOR |
| Scenarios.LopPopSession | testClient-CollLOPUnitTest.py:123-138 | the two pops return the values the test expects, two out-of-range pops are INDEXOOR, and deleting 0..-1 removes the key |
| Scenarios.LopInsertBounds | testClient-CollLOPUnitTest.py:140-166 | a missing key without create is NOT_FOUND, indices 2 and -3 on a one-element list are INDEXOOR, and index 1 appends |
| Scenarios.LopOverflowSetup | testClient-CollLOPUnitTest.py:170-178 | after the creating insert, the setattr sets expiry -2 and maxcount 5 and keeps tail-trim, as getattr reports; two more values append at index -1 |
| Scenarios.LopOverflowFill | testClient-CollLOPUnitTest.py:179-192 | two more fill the list to maxcount, and indices 5 and -6 on the full list are INDEXOOR |
| Scenarios.LopTailTrimSession | testClient-CollLOPUnitTest.py:193 | under tail-trim an insert at 2 into the full list drops its last element |
| Scenarios.LopTailTrimFront | testClient-CollLOPUnitTest.py:194-195 | inserts at 0 drop the last element each time |
| Scenarios.LopTailTrimEnds | testClient-CollLOPUnitTest.py:196-204 | inserts at -1 and 4 drop the first element, and an insert at -5 drops the last, giving the lists the test reads |
| Scenarios.LopHeadTrimSession | testClient-CollLOPUnitTest.py:205-213 | after switching to head-trim, an insert at 2 drops the first element and an insert at 0 drops the last |
| Scenarios.LopErrorSession | testClient-CollLOPUnitTest.py:214-243 | after switching to the error action, inserts at 2, 0 and -1 are OVERFLOW, and smallest- and largest-trim are BADVALUE for a list |
| Scenarios.SopCreatingInsert | testClient-CollSOPUnitTest.py:52 | the first insert with create makes a one-member set with flags 13 and the error action |
| Scenarios.SopInsertSession | testClient-CollSOPUnitTest.py:53-56 | four more inserts give five members |
| Scenarios.SopReadSession | testClient-CollSOPUnitTest.py:57-64 | the count is 5, a get of 10 returns all five, the membership answers are 1, 1 and 0, and delete removes the key |
| Scenarios.SopDeleteOdds | testClient-CollSOPUnitTest.py:94-98 | deleting the five odd values one by one leaves the even ones |
| Scenarios.SopDeletePopSession | testClient-CollSOPUnitTest.py:85-111 | re-inserting a member is ELEM_EXISTS, the count is 10, deleting absent values is ELEM_NOENT, and popping all of the even values removes the key |
| Scenarios.SopOverflowFill | testClient-CollSOPUnitTest.py:145-148 | four inserts fill the set to maxcount 5 |
| Scenarios.SopOverflowSession | testClient-CollSOPUnitTest.py:139-175 | the setattr gives maxcount 5 and keeps the error action, as getattr reports; the full set reads back, a sixth value is OVERFLOW, and every trim action is BADVALUE for a set |
| Scenarios.SopLookupErrors | testClient-CollSOPUnitTest.py:179-268 | insert, delete, exist and get are NOT_FOUND on a missing key and BADTYPE on an item that is not a set |
| Scenarios.BulkInsertMaxcountRefused | testClient-CollBOPUnitTest.py:162-167 | the maxcount -1 that `testBOPInsertDeletePop` passes to `bop_insert` is refused by the client's unsigned layout, whatever the bkey |
| Scenarios.BopCreateEmpty | testClient-CollBOPUnitTest.py:244 | a create with maxcount -1 makes an empty b-tree with flags 11, maxcount 10000 and smallest-trim |
| Scenarios.BopFillSession | testClient-CollBOPUnitTest.py:245-247 | inserts in ascending bkey order append |
| Scenarios.BopFillRest | testClient-CollBOPUnitTest.py:248-249 | two more give the five-element tree |
| Scenarios.BopReadAll | testClient-CollBOPUnitTest.py:250-254 | the count of 0..40 is 5 and the read returns all five in order |
| Scenarios.BopDeleteFront | testClient-CollBOPUnitTest.py:255 | deleting bkeys 0..20 leaves 30 and 40 |
| Scenarios.BopTakeRest | testClient-CollBOPUnitTest.py:256-258 | the count of 20..40 is 2, and a get with delete returns both and leaves an empty tree under the key |
| Scenarios.BopEmptyTree | testClient-CollBOPUnitTest.py:259-270 | on the empty tree delete and get are ELEM_NOENT, and getattr reports count 0 and maxcount 10000 |
| Scenarios.BopDropSession | testClient-CollBOPUnitTest.py:271-278 | after three inserts the count is 3, and a get with delete and drop-if-empty returns them and removes the key |
| Scenarios.BopInsertFailures | testClient-CollBOPUnitTest.py:284-296 | a missing key without create is NOT_FOUND, a present bkey is ELEM_EXISTS, and a new bkey goes in |
| Scenarios.BopOverflowSetup | testClient-CollBOPUnitTest.py:304-309 | the creating insert sets maxcount 1000, and the setattr gives maxcount 5 and keeps smallest-trim, as getattr reports |
| Scenarios.BopOverflowFill | testClient-CollBOPUnitTest.py:310-313 | four inserts fill the tree |
| Scenarios.BopOverflowRead | testClient-CollBOPUnitTest.py:314-318 | the full tree counts as 5 and reads as its five elements |
| Scenarios.BopSmallestTrim | testClient-CollBOPUnitTest.py:319 | bkey 80 into the full tree evicts the smallest bkey |
| Scenarios.BopSmallestTrimAgain | testClient-CollBOPUnitTest.py:320-328 | bkey 10, below the smallest, is BKEYOOR, and bkey 60 evicts the smallest |
| Scenarios.BopLargestTrim | testClient-CollBOPUnitTest.py:329-330 | after switching to largest-trim, bkey 30 evicts the largest |
| Scenarios.BopLargestTrimAgain | testClient-CollBOPUnitTest.py:331-338 | bkey 40 evicts the largest, and bkey 90, above the largest, is BKEYOOR |
| Scenarios.BopErrorSession | testClient-CollBOPUnitTest.py:339-349 | after switching to the error action, inserts into the full tree are OVERFLOW |
| Scenarios.BopListTrimsRefused | testClient-CollBOPUnitTest.py:350-359 | head-trim and tail-trim are BADVALUE for a b-tree |
| Scenarios.BopWindowSetup | testClient-CollBOPUnitTest.py:367-375 | the setattr naming only maxbkeyrange sets the window to 80 and keeps smallest-trim, and bkey 30 goes in |
| Scenarios.BopWindowFill | testClient-CollBOPUnitTest.py:376-377 | bkeys 50 and 70 go in |
| Scenarios.BopWindowFull | testClient-CollBOPUnitTest.py:378-383 | bkey 90 spans the window exactly, and the five elements count and read back |
| Scenarios.BopWindowFits | testClient-CollBOPUnitTest.py:384-387 | bkey 80 goes in without eviction, and the six elements read back |
| Scenarios.BopWindowBelow | testClient-CollBOPUnitTest.py:388-392 | bkey 0 is BKEYOOR under smallest-trim |
| Scenarios.BopWindowEvicts | testClient-CollBOPUnitTest.py:393 | bkey 100 evicts bkey 10 |
| Scenarios.BopWindowEvictsRead | testClient-CollBOPUnitTest.py:394-397 | the tree then reads and counts as six elements from 30 to 100 |
| Scenarios.BopWindowLargest | testClient-CollBOPUnitTest.py:398-401 | the setattr naming only the action switches to largest-trim and keeps the window |
| Scenarios.BopWindowFitsLargest | testClient-CollBOPUnitTest.py:402 | bkey 40 goes in, giving the seven elements the test reads |
| Scenarios.BopWindowAbove | testClient-CollBOPUnitTest.py:406-410 | bkey 120 is BKEYOOR under largest-trim |
| Scenarios.BopWindowEvictsLargest | testClient-CollBOPUnitTest.py:411 | bkey 10 evicts bkey 100 |
| Scenarios.BopWindowEvictsLargestRead | testClient-CollBOPUnitTest.py:412-414 | the tree then reads as seven elements from 10 to 90 |
| Scenarios.BopWindowOff | testClient-CollBOPUnitTest.py:415-417 | a window of 0 switches it off, and bkey 0 goes in |
| Scenarios.BopWindowOffFill | testClient-CollBOPUnitTest.py:418 | bkey 60 goes in between 50 and 70 |
| Scenarios.BopWindowOffLast | testClient-CollBOPUnitTest.py:419-422 | bkey 120 goes last, giving the ten elements the test reads |

## Left out

- SASL (`sasl_mechanisms`, `sasl_auth_*`), the vbucket commands and the TAP commands are outside the collection client. Only the sizes of the TAP extra headers are modelled (`Constants.ExtraHdrSize`).
- Sockets, `close` and `__del__` are left out. The socket is a parameter: the bytes the peer sends before closing, and the sizes it delivers them in.
- The opaque is a parameter standing for the random draw; `Transport.DoCmd` requires it to be one the header can carry.
- Expiry and the evict tests are left out, because they depend on the clock and on server memory pressure.
- The expiry and flush unit tests, and `testClient.py`, are left out.
- The incr/decr arithmetic (wrap-around, the initial value, `INCRDECR_SPECIAL`) is left out; the reference store models only its type gating (`Server.CounterGate`).
- `lop_create`, `sop_create`, `bop_create` and `bop_count` name opcodes and layouts that the constants module never binds. The client model fails them naming the opcode. The reference store still models the server side of each (`Server.Create`, `Server.BopCount`), with no wire layout.
- The datum-length check in `testSOPInsertFailCheck` is left out. It passes a fifth positional argument that is the expiry, not a length.
- Server behaviour that the tests do not pin down is a modelling choice:
  - lists and sets are always dropped when emptied;
  - an insert checks the kind, then duplicates, then the window, then maxcount;
  - a create on an existing key is EXISTS;
  - maxcount 0, negative or above 10000 becomes 10000;
  - a setattr maxcount below the current count is BADVALUE.
- The list and set tests call `setattr` with three values, but the method takes seven. The scenarios model each such call by the attribute change the test goes on to assert.
- The b-tree tests pass `OVFL_NONE` and read `ATTR_MAXBKEYRANGE`, and the constants module defines neither. The scenarios read `OVFL_NONE` as leaving the action unchanged.
- The bulk sessions of `testBOPInsertGet` and `testBOPInsertDeletePop` (1000 and 2000 elements) are not replayed. They are covered by the general `BTrees` and `Server` contracts.
- `testBOPInsertDeletePop` passes maxcount -1 to every `bop_insert`. `BOP_INS_PKT_FMT` packs maxcount as unsigned, so as written each of those inserts raises in the client before anything is sent (`Scenarios.BulkInsertMaxcountRefused`). The session as written never reaches the server.
- `testLOPNotKVError`, `testSOPNotKVError` and `testBOPNotKVError` are not replayed. They are covered by the gating contracts of `Server.KvStore`, `Server.KvConcat` and `Server.CounterGate`.
- Client.GetMulti: its own contract states only that every returned key was requested. What it returns for a given stream of frames is stated by `Client.GetMultiLoopCollects`.
- Client.Stats: its own contract states only the request it writes. What it collects is stated by `Client.StatsLoopCollects`.
- Client.Interpret: it has no row. How each method reads a reply is stated through `Client.CallOnFrame` and the four round-trip lemmas.
- Transport.DoCmd: it does not state what is sent; `Transport.Transact` states that.
- Transport.Transact: it treats every request as written whole. `_sendCmd` (mc_bin_client.py:56) ignores what `socket.send` returns, so a real socket may write only a prefix of the request; the model does not follow a partial write. `Codec.SendCmd` gives the bytes that would be written in full.
- Client.GetQRequests: it is all-or-nothing. `getMulti` (mc_bin_client.py:367-368) writes each quiet get as soon as it is packed, so when a later key fails to pack, the earlier gets are already on the wire. The model writes no request in that case.

## Findings

| source | as written | input that shows it | evidently intended | confidence | as-written member | corrected member |
|---|---|---|---|---|---|---|
| mc_bin_client.py:90 | `randint(0, 2**32)` includes 2**32, which does not fit the header's 32-bit opaque; `stats` makes the same draw at mc_bin_client.py:386 | a draw of 2**32: `struct.pack` raises and nothing is sent | `randint(0, 2**32 - 1)` | not executed | Transport.OpaqueDrawAsWrittenOverflows | Transport.DoCmd |
| mc_bin_client.py:191-195 | six values packed into `LOP_DEL_PKT_FMT` (`>ll`) | any `lop_delete` call | a layout `>llBBBB` carrying drop-if-empty and padding | not executed | Codec.LopDeleteAsWrittenFails | Codec.LopDeleteExtrasUnpack |
| mc_bin_client.py:280-284 | seven values packed into `BOP_DEL_PKT_FMT` (`>QQL`) | any `bop_delete` call | a layout `>QQLBBBB` | not executed | Codec.BopDeleteAsWrittenFails | Codec.BopDeleteExtrasUnpack |
| mc_bin_client.py:170-175 | seven values packed into `SETATTR_PKT_FMT` (`>llBBBB`) | any `setattr` call | a layout `>llLBBBB` with the bkey range | not executed | Codec.SetAttrAsWrittenFails | Codec.SetAttrExtrasUnpack |
| mc_bin_client.py:148-153 | the eight fields of `GETATTR_RES_FMT` unpacked into nine names | any `getattr` reply | a layout `>LLllLBBBB` carrying maxbkeyrange | not executed | Codec.GetAttrAsWrittenFails | Codec.GetAttrFieldsRoundTrip |
| mc_bin_client.py:154-168 | `ATTR_MAXBKEYRANGE` is never defined, so every id past the first four raises when the chain reaches that comparison | `getattr(key, ATTR_TYPE)` with a well-formed reply | each branch returns its own field, including maxbkeyrange | not executed | Codec.SelectAttrAsWrittenRaises | Codec.SelectAttrAgrees |
| mc_bin_client.py:233-237 | `SOP_DEL_PKT_FMT` is never defined | any `sop_delete` call | a layout `>BBBB` carrying drop-if-empty | not executed | Codec.SopDeleteExtrasAsWritten | Codec.SopDeleteExtrasUnpack |
