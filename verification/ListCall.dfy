/** A listing, from the entry that awaits it to the entry's callback. */
module ListCall {
  import opened Basics
  import opened AvpFormat
  import opened AvpRequest
  import opened AvpMessage
  import opened ListTree
  import opened ListDecode
  import opened ListAnswer
  import opened PacketStream
  import Ctx = DmContext
  import Conn = DmConnection

  /** An entry of the queue has a 32-bit id. */
  lemma HopBits(all: seq<Ctx.Info>, picked: int, waiting: seq<Ctx.Info>, queue: seq<Ctx.Info>, i: int)
    requires Ctx.Queued(all, picked, waiting, queue) && 0 <= i < |queue|
    ensures queue[i].hopid % 0x1_0000_0000 == queue[i].hopid
  {
    hide PacketLength, N32;
    if i < |waiting| {
      assert Ctx.Waits(all, picked, waiting[i]);
      NumberBits(all[waiting[i].serial].packet[12..16]);
    } else {
      assert queue[i] == all[picked + i - |waiting|];
      NumberBits(queue[i].packet[12..16]);
    }
  }

  lemma NumberBits(s: seq<Byte>)
    requires |s| == 4
    ensures N32(s) % 0x1_0000_0000 == N32(s)
  {}

  /** An answer is a reply with the id of its request. */
  lemma AnswerHead(wire: seq<Byte>, appid: int, hopid: int, endid: int)
    requires Addressed(wire, CMD_DB_LIST, 0, appid, hopid, endid) && hopid % 0x1_0000_0000 == hopid
    ensures Proper(wire) && !IsRequest(wire) && HopOf(wire) == hopid
  {
    hide N24, N32;
  }

  /** One more packet at the end of a stream that is cut up to there. */
  lemma OneMore(got: seq<Byte>, delivered: seq<seq<Byte>>, wire: seq<Byte>)
    requires (forall i :: 0 <= i < |delivered| ==> Proper(delivered[i])) && Proper(wire) && got == Concat(delivered)
    ensures Framed(wire) && Framed(got + wire) && Packets(got + wire) == delivered + [wire]
  {
    hide PacketLength;
    ConcatPush(delivered, wire);
    PacketsOf(delivered + [wire], []);
    assert Concat(delivered + [wire]) + [] == got + wire;
    PacketsOf([wire], []);
    assert Concat([wire]) + [] == wire;
  }

  /** The first entry that awaits the id gets the packet. */
  lemma FirstReplied(queue: seq<Ctx.Info>, wire: seq<Byte>, i: int)
    requires |wire| >= HEADER && !IsRequest(wire) && Ctx.Awaits(queue, i, HopOf(wire))
    requires forall j :: 0 <= j < i ==> !Ctx.Awaits(queue, j, HopOf(wire))
    ensures Ctx.Replied(queue, [wire]) == (Without(queue, i), [Ctx.Answered(queue[i].serial, wire)])
  {
    hide HopOf, Ctx.Oldest;
    Ctx.RepliedOne(queue, wire);
    assert Ctx.Oldest(queue, HopOf(wire)) == i;
  }

  /** The whole way back: the server answers with the ids of the request, the packet arrives in whatever parts the reads
      take it, the entry of the request gets it, and the listing is decoded from it. */
  method ListCall(c: Conn.Connection, i: int, appid: int, endid: int, level: nat, start: Start,
    script: seq<Ctx.ReadResult>, beyond: int -> Byte)
    returns (wire: seq<Byte>, calls: seq<Call>)
    requires c.Valid() && c.open && c.missing == 0 && c.inbox == []
    requires 0 <= i < |c.queue| && Ctx.Awaits(c.queue, i, c.queue[i].hopid)
    requires forall j :: 0 <= j < i ==> !Ctx.Awaits(c.queue, j, c.queue[i].hopid)
    requires LevelsOf(start, Limit(level)) < MAX_LEVEL && AllFit(AnswerAvps(start, Limit(level)))
    requires HEADER + |EncodeAll(AnswerAvps(start, Limit(level)))| < 0x100_0000
    modifies c
    ensures c.Valid() && c.got + c.inbox == old(c.got) + wire
    ensures c.open && c.inbox == [] ==>
      && c.queue == Without(old(c.queue), i)
      && c.calls == old(c.calls) + [Ctx.Answered(old(c.queue)[i].serial, wire)]
    ensures c.open && c.inbox != [] ==> c.queue == old(c.queue) && c.calls == old(c.calls)
    ensures var asked := Within(DeepStart([], start), if level == 0 then 16 else level + 1);
      Among(calls, asked) && (Complete(calls, asked) <==> HaveValues(asked))
  {
    hide EncodeAll, AllFit, Finished, Sent, ListStart, StartGot, Complete, LevelsOf, N24, N32, HopOf;
    hide Within, DeepStart, Among, HaveValues, Without, Packets, Concat, PacketLength;
    hide Ctx.ReadsOf, Ctx.Replied, Ctx.Awaits;
    hide Conn.SendOpen, Conn.SendClosed, Conn.ReadOpen, Conn.Delivered;
    ghost var header;
    var hop := c.queue[i].hopid;
    Idle(c, i);
    wire, header := ListAnswer.ListAnswer(appid, hop, endid, level, start);
    AnswerHead(wire, appid, hop, endid);
    SentWhole(header, EncodeAll(AnswerAvps(start, Limit(level))));
    OneMore(c.got, c.delivered, wire);
    FirstReplied(c.queue, wire, i);
    assert [] + [] + wire == wire && [] + wire == wire;
    c.Arrive(wire);
    ghost var got, was := c.got, c.delivered;
    c.ReadEvent(script);
    if c.open {
      OneOrNone(got, was, wire, c.got, c.delivered, c.data, c.missing, c.inbox);
      assert c.delivered[|was|..] == if c.inbox == [] then [wire] else [];
      NoneReplied(old(c.queue));
    }
    var rc, rcBytes;
    rc, rcBytes, calls := ListReply(wire, beyond, header, start, Limit(level));
    StartWithin([], start, level);
  }

  lemma NoneReplied(queue: seq<Ctx.Info>)
    ensures Ctx.Replied(queue, []) == (queue, [])
  {}

  /** A packet that is read in part is not delivered. */
  lemma OneOrNone(got: seq<Byte>, delivered: seq<seq<Byte>>, wire: seq<Byte>,
    got': seq<Byte>, delivered': seq<seq<Byte>>, data: seq<Byte>, missing: int, inbox: seq<Byte>)
    requires got == Concat(delivered) && delivered <= delivered' && got' + inbox == got + wire
    requires (forall i :: 0 <= i < |delivered| ==> Proper(delivered[i])) && Proper(wire)
    requires Framed(got + wire) && Packets(got + wire) == delivered + [wire]
    requires Conn.ReadOpen(got', delivered', data, missing, inbox) && Conn.Delivered(got', delivered')
    ensures delivered' == if inbox == [] then delivered + [wire] else delivered
  {
    hide Framed, Packets, PacketLength, Ctx.Reading, Concat;
    ConcatPush(delivered, wire);
    if inbox == [] {
      assert got' + [] == got';
    } else {
      assert (got' + inbox)[..|got'|] == got';
      DeliveredInOrder(delivered + [wire], got');
      assert delivered' == delivered || delivered' == delivered + [wire];
    }
  }

  /** Nothing is on its way. */
  lemma Idle(c: Conn.Connection, i: int)
    requires c.Valid() && c.open && c.missing == 0 && c.inbox == [] && 0 <= i < |c.queue|
    ensures c.data == [] && c.got == Concat(c.delivered)
    ensures forall k :: 0 <= k < |c.delivered| ==> Proper(c.delivered[k])
    ensures c.queue[i].hopid % 0x1_0000_0000 == c.queue[i].hopid
  {
    hide Ctx.Conserved, Ctx.OnlyDropping, Ctx.Matched, Ctx.Writing, Ctx.Entries, Conn.Delivered, Concat, Framed, Proper;
    HopBits(c.all, c.picked, c.waiting, c.queue, i);
    assert Concat(c.delivered) + [] == Concat(c.delivered);
  }
}
