/** rpc_db_list from one end to the other: the answer that is built, and what the client gets out of it. */
module ListAnswer {
  import opened Basics
  import opened AvpFormat
  import opened AvpRequest
  import opened AvpMessage
  import opened ListTree
  import opened ListDecode

  const CMD_DB_LIST := 302
  const AVP_RC := 1012

  /** RC_OK */
  const OK := 0

  function RcAvp(rc: int): Avp {
    Single(AVP_RC, VENDOR, U32(rc))
  }

  /** The AVPs of an answer: the result code comes first. */
  function AnswerAvps(start: Start, l: int): seq<Avp> {
    [RcAvp(OK)] + ListStart(start, l)
  }

  /** The first AVP of a packet stays where it is, whatever follows it. */
  lemma FirstSpot(rest: seq<Avp>)
    ensures var f := Bottom([RcAvp(OK)] + rest);
      && IsSpot(f, 0, [0]) && SpotAt(f, 0, [0]) == HeadLen(VENDOR) && |DataAt(FrameAt(f, 0).kids, [0])| == 4
      && WithLevel(f, 0, Patched(FrameAt(f, 0).kids, [0], U32(OK))) == f
  {
    hide EncodeAll;
    var kids := [RcAvp(OK)] + rest;
    DecodesNil([], 0, 0);
    assert kids[..0] == [] && Reaches(kids, [0]);
    assert kids[0 := RcAvp(OK)] == kids;
  }

  /** rpc_dmconfig_switch for CMD_DB_LIST: the result code is put first and filled in at the end. */
  method ListAnswer(appid: int, hopid: int, endid: int, level: nat, start: Start)
    returns (wire: seq<Byte>, ghost header: seq<Byte>)
    requires LevelsOf(start, Limit(level)) < MAX_LEVEL
    ensures |header| == HEADER && wire == Sent(header, EncodeAll(AnswerAvps(start, Limit(level))))
    ensures HEADER + |EncodeAll(AnswerAvps(start, Limit(level)))| < 0x100_0000 ==>
      Addressed(wire, CMD_DB_LIST, 0, appid, hopid, endid)
  {
    hide Holds, Bytes, Tracks, EncodeAll, N24, N32, U24, U32, PacketLength, ListStart, LevelsOf, Addressed;
    AddressedSent(CMD_DB_LIST, 0, appid, hopid, endid, EncodeAll(AnswerAvps(start, Limit(level))));
    hide IsSpot, SpotAt, DataAt, Patched, FrameAt, WithLevel;
    ghost var list := ListStart(start, Limit(level));
    var req := new Request(CMD_DB_LIST, 0, appid, hopid, endid);
    header := req.header;
    var rc, at := req.AddUint32GetPos(AVP_RC, VENDOR, OK);
    assert req.frame == Bottom([RcAvp(OK)]);
    FirstSpot([]);
    assert [RcAvp(OK)] + [] == [RcAvp(OK)];
    DbList(req, level, start);
    AddAllBottom([RcAvp(OK)], list);
    FirstSpot(list);
    req.PutUint32AtPos(at, OK, 0, [0]);
    rc := req.FinalizePacket();
    EndOfBottom([RcAvp(OK)] + list);
    wire := Wire(req, header, EncodeAll([RcAvp(OK)] + list));
  }

  /** dm_async_cb and the loop over decode_node_list: the result code, then the nodes. */
  method ListReply(wire: seq<Byte>, beyond: int -> Byte, ghost header: seq<Byte>, ghost start: Start, ghost l: int)
    returns (rc: Rc, code: seq<Byte>, calls: seq<Call>)
    requires |header| == HEADER && AllFit(AnswerAvps(start, l))
      && HEADER + |EncodeAll(AnswerAvps(start, l))| < 0x100_0000
    requires wire == Finished(header, EncodeAll(AnswerAvps(start, l)))
    ensures rc == Ok && code == U32(OK) && calls == StartGot([], start, l)
  {
    hide EncodeAll, AllFit, Decodes, Finished, PayloadSize, ListStart, StartGot, DecodeMany, Next, U32;
    FinishedSize(header, EncodeAll(AnswerAvps(start, l)));
    Transmitted(header, AnswerAvps(start, l));
    var g := new AvpGroup(wire, beyond, HEADER, PayloadSize(wire));
    NextSingle(wire, HEADER, PayloadSize(wire), 0, AVP_RC, U32(OK), ListStart(start, l));
    rc, code := ExpectNumber(g, AVP_RC, 4);
    StartDecoded(wire, HEADER, PayloadSize(wire), g.pos, [], start, l);
    calls := DecodeLoop([], g);
  }

  lemma EveryLeafAsked(nodes: seq<Node>, l: int)
    requires l >= 1
    ensures Within(DeepStart([], Everything(nodes)), l) == Leaves([], nodes, l)
  {
    hide Leaves, DeepAll, Within;
    LeavesWithin([], nodes, 1, l);
  }

  /** A listing asked for and answered: the client is called back with the leaves, in each table up to the first
      without a value. */
  method ListOverWire(appid: int, hopid: int, endid: int, level: nat, start: Start, beyond: int -> Byte)
    returns (calls: seq<Call>)
    requires LevelsOf(start, Limit(level)) < MAX_LEVEL && AllFit(AnswerAvps(start, Limit(level)))
    requires HEADER + |EncodeAll(AnswerAvps(start, Limit(level)))| < 0x100_0000
    ensures calls == StartGot([], start, Limit(level))
    ensures var asked := Within(DeepStart([], start), if level == 0 then 16 else level + 1);
      Among(calls, asked) && (Complete(calls, asked) <==> HaveValues(asked))
    ensures start.Everything? && HeightAll(start.nodes) <= (if level == 0 then 16 else level + 1) ==>
      (Complete(calls, AllLeaves([], start.nodes)) <==> HaveValues(AllLeaves([], start.nodes)))
  {
    hide EncodeAll, AllFit, Finished, Sent, ListStart, StartGot, Got, Leaves, Complete, AllValued, HeightAll, LevelsOf;
    hide Within, DeepStart, DeepAll, Among, HaveValues, Addressed;
    StartWithin([], start, level);
    var wire, rc, rcBytes;
    ghost var header;
    wire, header := ListAnswer(appid, hopid, endid, level, start);
    SentWhole(header, EncodeAll(AnswerAvps(start, Limit(level))));
    rc, rcBytes, calls := ListReply(wire, beyond, header, start, Limit(level));
    if start.Everything? && HeightAll(start.nodes) <= Limit(level) {
      LeavesComplete([], start.nodes, Limit(level), 0);
      EveryLeafAsked(start.nodes, Limit(level));
    }
  }

  // ---------- an answer, byte by byte ----------

  /** The fixed part of an AVP of the protocol's vendor, for codes below 65536 and lengths below 256. */
  function Fixed(hi: Byte, lo: Byte, len: Byte): (s: seq<Byte>)
    ensures |s| == 12
  {
    [0, 0, hi, lo, 128, 0, 0, len, 0, 0, 72, 249]
  }

  lemma FixedHead(hi: Byte, lo: Byte, len: Byte)
    ensures Head(hi * 256 + lo, VENDOR, len) == Fixed(hi, lo, len)
  {
    hide U32, U24;
    SmallBytes(hi, lo);
    SmallBytes(72, 249);
    SmallLength(len);
  }

  lemma SmallBytes(hi: Byte, lo: Byte)
    ensures U32(hi * 256 + lo) == [0, 0, hi, lo]
  {
    var n: int := hi * 256 + lo;
    assert n / 0x100_0000 == 0 && n / 0x1_0000 == 0 && n / 0x100 == hi && n % 256 == lo;
  }

  lemma SmallLength(len: Byte)
    ensures U24(len) == [0, 0, len]
  {}

  /** An AVP with four bytes of data and padding. */
  lemma SingleBytes(hi: Byte, lo: Byte, data: seq<Byte>)
    requires 1 <= |data| <= 4
    ensures Encode(Single(hi * 256 + lo, VENDOR, data)) == Fixed(hi, lo, 12 + |data|) + (data + Zeros(4 - |data|))
  {
    hide Head, Fixed;
    FixedHead(hi, lo, 12 + |data|);
    EncodeSingle(Single(hi * 256 + lo, VENDOR, data));
  }

  lemma GroupBytes(hi: Byte, lo: Byte, kids: seq<Avp>, content: seq<Byte>)
    requires EncodeAll(kids) == content && |content| < 200
    ensures Encode(Group(hi * 256 + lo, VENDOR, kids)) == Fixed(hi, lo, 12 + |content|) + content
  {
    hide EncodeAll, Head, Fixed;
    FixedHead(hi, lo, 12 + |content|);
    var z: seq<Byte> := Zeros(0);
    assert content + z == content;
  }

  lemma OneBytes(a: Avp)
    ensures EncodeAll([a]) == Encode(a)
  {
    hide Encode;
    assert [a][1..] == [];
    assert Encode(a) + [] == Encode(a);
  }

  lemma MoreBytes(a: Avp, rest: seq<Avp>)
    ensures EncodeAll([a] + rest) == Encode(a) + EncodeAll(rest)
  {
    hide Encode;
    assert ([a] + rest)[1..] == rest;
  }

  /** Names of one character, the name of instance 5, type 7, a value of type 1001, and the result code 0. */
  function NameBytes(c: Byte): (s: seq<Byte>)
    ensures |s| == 16
  {
    [0, 0, 4, 10, 128, 0, 0, 13, 0, 0, 72, 249, c, 0, 0, 0]
  }

  const FIVE_BYTES: seq<Byte> := [0, 0, 4, 10, 128, 0, 0, 14, 0, 0, 72, 249, 0, 5, 0, 0]
  const TYPE_BYTES: seq<Byte> := [0, 0, 8, 161, 128, 0, 0, 16, 0, 0, 72, 249, 0, 0, 0, 7]
  const VALUE_BYTES: seq<Byte> := [0, 0, 3, 233, 128, 0, 0, 13, 0, 0, 72, 249, 171, 0, 0, 0]
  const OK_BYTES: seq<Byte> := [0, 0, 3, 244, 128, 0, 0, 16, 0, 0, 72, 249, 0, 0, 0, 0]

  lemma NameIs(c: Byte)
    requires c != 0
    ensures Encode(NameAvp([c])) == NameBytes(c)
  {
    hide Encode;
    SingleBytes(4, 10, [c]);
  }

  lemma FiveIs()
    ensures Encode(IdAvp(5)) == FIVE_BYTES
  {
    hide Encode;
    SingleBytes(4, 10, [0, 5]);
  }

  lemma TypeIs()
    ensures Encode(Single(AVP_TYPE, VENDOR, U32(7))) == TYPE_BYTES
  {
    hide Encode;
    SingleBytes(8, 161, [0, 0, 0, 7]);
  }

  lemma ValueIs()
    ensures Encode(Single(1001, VENDOR, [171])) == VALUE_BYTES
  {
    hide Encode;
    SingleBytes(3, 233, [171]);
  }

  lemma OkIs()
    ensures Encode(RcAvp(0)) == OK_BYTES
  {
    hide Encode;
    SingleBytes(3, 244, [0, 0, 0, 0]);
  }

  /** The leaf "b" of type 7. */
  function SampleLeaf(): Node {
    Leaf(Key([98]), 7, Value(1001, [171]))
  }

  function LeafBytes(): (s: seq<Byte>)
    ensures |s| == 60
  {
    Fixed(4, 9, 60) + (NameBytes(98) + (TYPE_BYTES + VALUE_BYTES))
  }

  lemma LeafIs(l: int)
    ensures |ListNodes([SampleLeaf()], l)| == 1 && EncodeAll(ListNodes([SampleLeaf()], l)) == LeafBytes()
  {
    hide EncodeAll, Encode, Fixed, NameBytes, U32;
    var n, t, v := NameAvp([98]), Single(AVP_TYPE, VENDOR, U32(7)), Single(1001, VENDOR, [171]);
    assert [SampleLeaf()][1..] == [] && LeafAvps([98], 7, Value(1001, [171])) == [n, t, v];
    assert ListNodes([SampleLeaf()], l) == [Group(AVP_ELEMENT, VENDOR, [n, t, v])] + []
      == [Group(AVP_ELEMENT, VENDOR, [n, t, v])];
    NameIs(98);
    TypeIs();
    ValueIs();
    assert [n, t, v] == [n] + [t, v] && [t, v] == [t] + [v];
    MoreBytes(n, [t, v]);
    MoreBytes(t, [v]);
    OneBytes(v);
    assert AVP_ELEMENT == 4 * 256 + 9;
    GroupBytes(4, 9, [n, t, v], NameBytes(98) + (TYPE_BYTES + VALUE_BYTES));
    OneBytes(Group(AVP_ELEMENT, VENDOR, [n, t, v]));
  }

  /** The object "t" with this leaf in instance 5. */
  function SampleObject(): Node {
    Object(Key([116]), [Row(5, [SampleLeaf()])])
  }

  function ObjectBytes(): (s: seq<Byte>)
    ensures |s| == 116
  {
    Fixed(4, 6, 116) + (NameBytes(116) + (Fixed(4, 7, 88) + (FIVE_BYTES + LeafBytes())))
  }

  lemma ObjectIs()
    ensures |ListNodes([SampleObject()], 16)| == 1 && EncodeAll(ListNodes([SampleObject()], 16)) == ObjectBytes()
  {
    hide EncodeAll, Encode, Fixed, NameBytes, LeafBytes, ListNodes;
    LeafIs(14);
    var leaves := ListNodes([SampleLeaf()], 14);
    var row := Group(AVP_INSTANCE, VENDOR, [IdAvp(5)] + leaves);
    var whole := Group(AVP_TABLE, VENDOR, [NameAvp([116])] + [row]);
    SampleListed();
    FiveIs();
    NameIs(116);
    MoreBytes(IdAvp(5), leaves);
    GroupBytes(4, 7, [IdAvp(5)] + leaves, FIVE_BYTES + LeafBytes());
    MoreBytes(NameAvp([116]), [row]);
    OneBytes(row);
    GroupBytes(4, 6, [NameAvp([116])] + [row], NameBytes(116) + (Fixed(4, 7, 88) + (FIVE_BYTES + LeafBytes())));
    OneBytes(whole);
  }

  lemma SampleListed()
    ensures ListNodes([SampleObject()], 16) ==
      [Group(AVP_TABLE, VENDOR, [NameAvp([116])] +
        [Group(AVP_INSTANCE, VENDOR, [IdAvp(5)] + ListNodes([SampleLeaf()], 14))])]
  {
    var r := Row(5, [SampleLeaf()]);
    assert [r][1..] == [] && [SampleObject()][1..] == [];
    assert ListRows([r], 16) == [ListRow(r, 16)];
  }

  /** The AVPs of an answer that lists the tree a.t.5.b, byte by byte: codes, vendor, flags, lengths and padding as
      libdmconfig/dmconfig.xml and section 4.1 of RFC 6733 have them. */
  lemma WireBytes()
    ensures EncodeAll(AnswerAvps(Everything([Table(Key([97]), true, [SampleObject()])]), 17)) ==
      OK_BYTES + (Fixed(4, 8, 144) + (NameBytes(97) + ObjectBytes()))
  {
    hide EncodeAll, Encode, Fixed, NameBytes, ObjectBytes, ListNodes;
    ObjectIs();
    var kids := ListNodes([SampleObject()], 16);
    var group := Group(AVP_OBJECT, VENDOR, [NameAvp([97])] + kids);
    TableListed();
    OkIs();
    NameIs(97);
    MoreBytes(NameAvp([97]), kids);
    GroupBytes(4, 8, [NameAvp([97])] + kids, NameBytes(97) + ObjectBytes());
    MoreBytes(RcAvp(0), [group]);
    OneBytes(group);
    assert AnswerAvps(Everything([Table(Key([97]), true, [SampleObject()])]), 17) == [RcAvp(0)] + [group];
  }

  lemma TableListed()
    ensures ListNodes([Table(Key([97]), true, [SampleObject()])], 17) ==
      [Group(AVP_OBJECT, VENDOR, [NameAvp([97])] + ListNodes([SampleObject()], 16))]
  {
    assert [Table(Key([97]), true, [SampleObject()])][1..] == [];
  }
}
