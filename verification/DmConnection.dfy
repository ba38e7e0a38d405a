/** DMCONTEXT: the queue, the packet being written and the packet being read. */
module DmConnection {
  import opened Basics
  import opened AvpFormat
  import opened PacketStream
  import opened DmContext

  datatype Rc = Enqueued | ErrConnection

  class Connection {
    var open: bool
    var queue: seq<Info>
    /** writeCtx */
    var out: Option<Bytes>
    var pos: int
    var left: int
    /** readCtx: what was read of the packet in hand, and how much of it is missing */
    var data: Bytes
    var missing: int
    /** bytes that arrived and were not read */
    var inbox: Bytes
    /** the calls of reply callbacks, and the packets handed to the request callback */
    var calls: seq<Call>
    var requests: seq<Bytes>

    /** how many entries were made: tells them apart */
    var made: int

    ghost var all: seq<Info>
    ghost var picked: int
    ghost var waiting: seq<Info>
    ghost var dropped: multiset<int>
    ghost var sent: Bytes
    ghost var delivered: seq<Bytes>

    /** all the bytes read */
    ghost var got: Bytes

    ghost predicate SendSide()
      reads this
    {
      && made == |all|
      && (open ==> SendOpen(all, picked, waiting, queue, calls, dropped, sent, out, pos, left))
      && (!open ==> queue == [] && SendClosed(all, calls, dropped, sent))
    }

    ghost predicate ReadSide()
      reads this
    {
      && Delivered(got, delivered) && requests == Requests(delivered)
      && (open ==> ReadOpen(got, delivered, data, missing, inbox))
    }

    ghost predicate Valid()
      reads this
    {
      SendSide() && ReadSide()
    }

    constructor ()
      ensures Valid() && open && all == [] && calls == [] && sent == [] && got == [] && inbox == []
      ensures queue == [] && out.None? && picked == 0 && waiting == []
    {
      hide SendOpen, ReadOpen, Delivered;
      OpenStart();
      open, queue, out, pos, left := true, [], None, 0, 0;
      data, missing, inbox := [], 0, [];
      calls, requests, made := [], [], 0;
      all, picked, waiting, dropped, sent, delivered, got := [], 0, [], multiset{}, [], [], [];
    }

    /** dm_enqueue, with the static counter of hop ids passed in and out. */
    method Enqueue(packet: Bytes, flags: Flags, hop: int, random: int) returns (rc: Rc, hop': int)
      requires Valid() && Proper(packet) && 0 <= hop <= MAX_INT && 1 <= random <= MAX_INT
      modifies this`queue, this`made, this`all
      ensures Valid()
      ensures rc == if open then Enqueued else ErrConnection
      ensures rc != Enqueued ==> queue == old(queue) && all == old(all) && hop' == hop
      ensures rc == Enqueued ==>
        |all| == |old(all)| + 1 && queue == old(queue) + [all[|old(all)|]] && all == old(all) + [all[|old(all)|]]
      ensures rc == Enqueued ==> all[|old(all)|].flags == flags && all[|old(all)|].packet[HEADER..] == packet[HEADER..]
      ensures rc == Enqueued && !GetsId(flags) ==> hop' == hop && all[|old(all)|].packet == packet
      ensures rc == Enqueued && GetsId(flags) ==> all[|old(all)|].hopid == hop'
      ensures rc == Enqueued && GetsId(flags) ==> hop' == if hop == 0 || hop == MAX_INT then random else hop + 1
      ensures rc == Enqueued && GetsId(flags) ==>
        var p := all[|old(all)|].packet;
        |p| == |packet| && p[..12] == packet[..12] && HopOf(p) == EndOf(p) == hop'
      ensures Ascending(old(all), hop) && (hop == MAX_INT ==> !GetsId(flags)) ==> Ascending(all, hop')
    {
      hide SendOpen, SendClosed, ReadOpen, Delivered, Ascending, PacketLength, HopOf, EndOf, Numbered;
      hop' := hop;
      if !open {
        return ErrConnection, hop;
      }
      var p := packet;
      if GetsId(flags) {
        hop' := NextHop(hop, random);
        NumberedHead(packet, hop', hop');
        p := Numbered(packet, hop', hop');
      }
      var x := Info(made, flags, ShallWrite, HopOf(p), p);
      AscendingPush(all, x, hop, hop');
      OpenEnqueue(all, picked, waiting, queue, calls, dropped, sent, out, pos, left, x);
      queue := queue + [x];
      all := all + [x];
      made := made + 1;
      return Enqueued, hop';
    }

    /** dm_free_requests: every queued entry fails, first to last. */
    method FailAll(event: Event)
      requires Closing(all, queue, calls, dropped, sent)
      modifies this`queue, this`calls
      ensures queue == [] && SendClosed(all, calls, dropped, sent)
      ensures calls == old(calls) + Failures(old(queue), event)
    {
      hide Closing;
      ghost var k := 0;
      while queue != []
        invariant 0 <= k <= |old(queue)| && queue == old(queue)[k..]
        invariant calls == old(calls) + Failures(old(queue)[..k], event)
        invariant Closing(all, queue, calls, dropped, sent)
        decreases |queue|
      {
        var r := queue[0];
        CloseFail(all, queue, calls, dropped, sent, event);
        FailuresPush(old(queue), k, event);
        queue := queue[1..];
        calls := calls + [Failed(r.serial, event)];
        k := k + 1;
      }
      assert old(queue)[..k] == old(queue);
    }

    /** dm_context_shutdown */
    method Shutdown(event: Event)
      requires SendSide() && Delivered(got, delivered) && requests == Requests(delivered)
      modifies this`open, this`queue, this`calls, this`out, this`data
      ensures Valid() && !open && queue == []
      ensures calls == old(calls) + Failures(old(queue), event)
    {
      hide SendOpen, Delivered, Closing;
      if open {
        CloseStart(all, picked, waiting, queue, calls, dropped, sent, out, pos, left);
      }
      FailAll(event);
      out, data := None, [];
      open := false;
    }

    // ---------- writing ----------

    /** The first entry that shall be written. */
    method NextToWrite() returns (i: int)
      requires open && SendOpen(all, picked, waiting, queue, calls, dropped, sent, out, pos, left)
      ensures 0 <= i <= |queue| && 0 <= picked <= |all| && (i < |queue| <==> picked < |all|)
      ensures i < |queue| ==> i == |waiting| && queue[i] == all[picked] && Proper(queue[i].packet)
    {
      hide SendOpen, Conserved, OnlyDropping, Matched, Writing, Entries, Proper;
      OpenFacts(all, picked, waiting, queue, calls, dropped, sent, out, pos, left);
      QueuedRuns(all, picked, waiting, queue);
      QueueParts(all, picked, waiting, queue);
      i := 0;
      while i < |queue| && queue[i].status != ShallWrite
        invariant 0 <= i <= |queue|
        invariant forall j :: 0 <= j < i ==> queue[j].status == ShallRead
      {
        i := i + 1;
      }
    }

    /** Starts on the next entry to write, if there is one: it leaves the queue, or stays to wait for its reply. */
    method Pick() returns (some: bool)
      requires open && SendOpen(all, picked, waiting, queue, calls, dropped, sent, out, pos, left) && out.None?
      modifies this`queue, this`out, this`pos, this`left, this`picked, this`waiting, this`dropped
      ensures SendOpen(all, picked, waiting, queue, calls, dropped, sent, out, pos, left)
      ensures some <==> old(picked) < |all|
      ensures !some ==> queue == old(queue) && out.None? && picked == old(picked)
      ensures some ==>
        picked == old(picked) + 1 && out == Some(all[old(picked)].packet) && pos == 0 && left == |out.value|
      ensures 0 <= old(picked) <= picked <= |all| && waiting == old(waiting) + Kept(all[old(picked)..picked])
    {
      hide SendOpen, Proper, PacketLength, Without, Kept, Drops;
      var i := NextToWrite();
      if i == |queue| {
        KeptNone(all, picked);
        return false;
      }
      Begin(i);
      return true;
    }

    /** The entry at `i` is begun. */
    method Begin(i: int)
      requires open && SendOpen(all, picked, waiting, queue, calls, dropped, sent, out, pos, left) && out.None?
      requires 0 <= i == |waiting| < |queue| && 0 <= picked < |all|
      requires queue[i] == all[picked] && Proper(queue[i].packet)
      modifies this`queue, this`out, this`pos, this`left, this`picked, this`waiting, this`dropped
      ensures SendOpen(all, picked, waiting, queue, calls, dropped, sent, out, pos, left)
      ensures picked == old(picked) + 1 && waiting == old(waiting) + Kept(all[old(picked)..picked])
      ensures out == Some(all[old(picked)].packet) && pos == 0 && left == |out.value|
    {
      hide SendOpen, Proper, PacketLength, Without, Kept, Drops;
      var req := queue[i];
      ProperLength(req.packet);
      OpenPick(all, picked, waiting, queue, calls, dropped, sent, out, pos, left);
      KeptOne(all, picked);
      out, pos, left := Some(req.packet), 0, PacketLength(req.packet);
      if Drops(req.flags) {
        queue := Without(queue, i);
        dropped := dropped + multiset{picked};
      } else {
        var x := req.(status := ShallRead);
        queue := queue[i := x];
        waiting := waiting + [x];
      }
      picked := picked + 1;
    }

    /** Writes on until the packet in hand is out, or write() has enough; the script says what each write() returns. */
    method Push(script: seq<WriteResult>, from: int, ghost next: seq<Info>) returns (at: int, end: WriteEnd)
      requires open && SendOpen(all, picked, waiting, queue, calls, dropped, sent, out, pos, left) && out.Some?
      requires 0 <= from <= |script|
      modifies this`pos, this`left, this`sent
      ensures SendOpen(all, picked, waiting, queue, calls, dropped, sent, out, pos, left)
      ensures from <= at <= |script| && old(sent) <= sent
      ensures end == Written ==> left == 0
      ensures Pushed(script, from, old(left), next, at, end, |sent| - |old(sent)|, left, next)
    {
      hide SendOpen;
      OpenHand(all, picked, waiting, queue, calls, dropped, sent, out, pos, left);
      at := from;
      while left != 0
        invariant from <= at <= |script| && old(sent) <= sent && left >= 0
        invariant SendOpen(all, picked, waiting, queue, calls, dropped, sent, out, pos, left)
        invariant Pushed(script, from, old(left), next, at, Written, |sent| - |old(sent)|, left, next)
        decreases |script| - at
      {
        assert at < |script| ==> script[at..][0] == script[at] && script[at..][1..] == script[at + 1..];
        if at == |script| {
          return at, Blocked;
        }
        var result := script[at];
        at := at + 1;
        match result
        case WriteAgain =>
          return at, Blocked;
        case WriteError =>
          return at, Broken;
        case WriteInterrupted =>
        case Wrote(n) =>
          OpenHand(all, picked, waiting, queue, calls, dropped, sent, out, pos, left);
          var k := Min(n, left);
          OpenWrote(all, picked, waiting, queue, calls, dropped, sent, out, pos, left, k);
          sent := sent + out.value[pos..pos + k];
          pos, left := pos + k, left - k;
      }
      return at, Written;
    }

    /** Writes on at the packet in hand; the results used before took what was written since `base`. */
    method WriteOne(script: seq<WriteResult>, from: int, ghost left0: int, ghost next0: seq<Info>, ghost base: Bytes)
      returns (at: int, end: WriteEnd)
      requires open && SendOpen(all, picked, waiting, queue, calls, dropped, sent, out, pos, left) && out.Some?
      requires 0 <= picked <= |all|
      requires Pushed(script, 0, left0, next0, from, Written, |sent| - |base|, left, all[picked..])
      modifies this`out, this`pos, this`left, this`sent
      ensures SendOpen(all, picked, waiting, queue, calls, dropped, sent, out, pos, left)
      ensures from <= at <= |script| && old(sent) <= sent
      ensures end == Written ==>
        out.None? && Pushed(script, 0, left0, next0, at, Written, |sent| - |base|, 0, all[picked..])
      ensures end != Written ==> WritesOf(script, left0, next0) == Writes(|sent| - |base|, end)
    {
      hide SendOpen, Pushed, WritesOf;
      ghost var next := all[picked..];
      PushedRange(script, left0, next0, from, |sent| - |base|, left, next);
      at, end := Push(script, from, next);
      PushedOn(script, left0, next0, from, |old(sent)| - |base|, old(left), next,
        at, end, |sent| - |old(sent)|, left, next);
      if end != Written {
        PushedEnd(script, left0, next0, at, end, |sent| - |base|, left, next);
        return;
      }
      OpenDone(all, picked, waiting, queue, calls, dropped, sent, out, pos, left);
      out := None;
    }

    /** Packet after packet, until all are written or write() has enough. */
    method WriteOn(script: seq<WriteResult>) returns (end: WriteEnd)
      requires open && SendOpen(all, picked, waiting, queue, calls, dropped, sent, out, pos, left)
      modifies this`queue, this`out, this`pos, this`left, this`picked, this`waiting, this`dropped, this`sent
      ensures SendOpen(all, picked, waiting, queue, calls, dropped, sent, out, pos, left) && old(sent) <= sent
      ensures end == Written ==> out.None? && sent == Concat(Payloads(all))
      ensures 0 <= old(picked) <= picked <= |all| && waiting == old(waiting) + Kept(all[old(picked)..picked])
      ensures Writes(|sent| - |old(sent)|, end) ==
        WritesOf(script, if old(out).Some? then old(left) else 0, all[old(picked)..])
    {
      hide SendOpen, Concat, Payloads, Without, Kept, Pushed, WritesOf, Drops;
      OpenBounds(all, picked, waiting, queue, calls, dropped, sent, out, pos, left);
      KeptNone(all, picked);
      ghost var left0, next0, base := if out.Some? then left else 0, all[picked..], sent;
      PushedNone(script, 0, left0, next0);
      var at := 0;
      while true
        invariant 0 <= at <= |script| && base <= sent
        invariant SendOpen(all, picked, waiting, queue, calls, dropped, sent, out, pos, left)
        invariant old(picked) <= picked <= |all| && waiting == old(waiting) + Kept(all[old(picked)..picked])
        invariant Pushed(script, 0, left0, next0, at, Written, |sent| - |base|,
          if out.Some? then left else 0, all[picked..])
        decreases 2 * (|all| - picked) + if out.Some? then 1 else 0
      {
        if out.None? {
          ghost var before := picked;
          var some := Pick();
          KeptMore(all, old(picked), before, picked);
          OpenBounds(all, picked, waiting, queue, calls, dropped, sent, out, pos, left);
          if !some {
            break;
          }
          PushedPick(script, left0, next0, at, |sent| - |base|, all[before..]);
        }
        at, end := WriteOne(script, at, left0, next0, base);
        if end != Written {
          return end;
        }
        OpenBounds(all, picked, waiting, queue, calls, dropped, sent, out, pos, left);
        if queue == [] {
          break;
        }
      }
      assert all[picked..] == [];
      PushedAll(script, left0, next0, at, |sent| - |base|);
      return Written;
    }

    /** writeEvent: the watcher is stopped (Written) only when every packet ever enqueued is written. */
    method WriteEvent(script: seq<WriteResult>) returns (end: WriteEnd)
      requires Valid() && open
      modifies this`open, this`queue, this`calls, this`out, this`data, this`pos, this`left, this`picked, this`waiting,
        this`dropped, this`sent
      ensures Valid() && old(sent) <= sent
      ensures open <==> end != Broken
      ensures open ==> calls == old(calls) && data == old(data)
      ensures end == Written ==> out.None? && sent == Concat(Payloads(all))
      ensures old(queue) == [] ==> end == Blocked && sent == old(sent) && queue == [] && out == old(out)
      ensures old(queue) != [] ==>
        Writes(|sent| - |old(sent)|, end) ==
        WritesOf(script, if old(out).Some? then old(left) else 0, all[old(picked)..])
      ensures 0 <= old(picked) <= picked <= |all| && waiting == old(waiting) + Kept(all[old(picked)..picked])
      ensures open ==> queue == waiting + all[picked..]
      ensures !open ==> calls == old(calls) + Failures(waiting + all[picked..], ErrorWriting)
    {
      hide SendOpen, SendClosed, ReadOpen, Delivered, Concat, Payloads, Kept;
      OpenQueue(all, picked, waiting, queue, calls, dropped, sent, out, pos, left);
      KeptNone(all, picked);
      if queue == [] {
        return Blocked;
      }
      end := WriteOn(script);
      OpenQueue(all, picked, waiting, queue, calls, dropped, sent, out, pos, left);
      if end == Broken {
        Shutdown(ErrorWriting);
      }
    }

    // ---------- replies ----------

    /** The first entry with the id. */
    method FindHop(hop: int) returns (i: int)
      ensures 0 <= i <= |queue| && (i < |queue| ==> queue[i].hopid == hop)
      ensures forall j :: 0 <= j < i ==> queue[j].hopid != hop
    {
      i := 0;
      while i < |queue| && queue[i].hopid != hop
        invariant 0 <= i <= |queue|
        invariant forall j :: 0 <= j < i ==> queue[j].hopid != hop
      {
        i := i + 1;
      }
    }

    /** process_reply: the reply goes to the oldest entry that awaits one with its id, and to no other. */
    method ProcessReply(reply: Bytes)
      requires SendSide() && open && Proper(reply)
      modifies this`queue, this`calls, this`waiting
      ensures SendSide()
      ensures (forall i :: !Awaits(old(queue), i, HopOf(reply))) ==> queue == old(queue) && calls == old(calls)
      ensures forall i ::
        Awaits(old(queue), i, HopOf(reply)) && (forall j :: 0 <= j < i ==> !Awaits(old(queue), j, HopOf(reply))) ==>
        queue == Without(old(queue), i) && calls == old(calls) + [Answered(old(queue)[i].serial, reply)]
    {
      hide SendOpen, SendClosed, HopOf, PacketLength, ReadThenWrite, Without;
      ProperLength(reply);
      if queue == [] {
        return;
      }
      var i := FindHop(HopOf(reply));
      if i == |queue| {
        return;
      }
      OpenRuns(all, picked, waiting, queue, calls, dropped, sent, out, pos, left);
      FirstMatch(queue, i, HopOf(reply));
      if queue[i].status != ShallRead {
        return;
      }
      OpenAnswer(all, picked, waiting, queue, calls, dropped, sent, out, pos, left, i, reply);
      calls := calls + [Answered(queue[i].serial, reply)];
      queue := Without(queue, i);
      waiting := Without(waiting, i);
    }

    // ---------- reading ----------

    /** More bytes arrive; the sender announces no packet shorter than its header. */
    method Arrive(bytes: Bytes)
      requires Valid() && (open ==> Framed(data + inbox + bytes))
      modifies this`inbox
      ensures Valid() && inbox == old(inbox) + bytes
    {
      hide SendOpen, SendClosed, ReadOpen, Delivered, Framed;
      if open {
        OpenArrive(got, delivered, data, missing, inbox, bytes);
      }
      inbox := inbox + bytes;
    }

    /** Looks at the header of the next packet, without taking it. */
    method Peek(script: seq<ReadResult>, from: int) returns (at: int, end: ReadEnd)
      requires open && ReadOpen(got, delivered, data, missing, inbox) && missing == 0 && 0 <= from <= |script|
      modifies this`missing
      ensures ReadOpen(got, delivered, data, missing, inbox)
      ensures from <= at <= |script| && (end == GoOn ==> missing > 0 && from < at)
      ensures Went(script, from, 0, inbox, at, end, 0, missing, inbox)
    {
      hide ReadOpen, PacketLength;
      at := from;
      while at < |script| && script[at] == ReadInterrupted
        invariant from <= at <= |script| && Went(script, from, 0, inbox, at, GoOn, 0, 0, inbox)
      {
        assert script[at..][1..] == script[at + 1..];
        at := at + 1;
      }
      assert at < |script| ==> script[at..][1..] == script[at + 1..];
      if at == |script| {
        return at, Wait;
      }
      var result := script[at];
      at := at + 1;
      match result
      case ReadError =>
        return at, Lost;
      case ReadEnd =>
        return at, Lost;
      case ReadInterrupted =>
        return at, Wait;
      case ReadBlock =>
        return at, Wait;
      case Got(n) =>
        if Min(n, Min(HEADER, |inbox|)) != HEADER {
          return at, Wait;
        }
        OpenHeader(got, delivered, data, inbox);
        LengthPrefix(inbox[..HEADER], inbox[HEADER..]);
        assert inbox[..HEADER] + inbox[HEADER..] == inbox;
        missing := PacketLength(inbox[..HEADER]);
        return at, GoOn;
    }

    /** Reads on until the packet in hand is whole, and hands it over. */
    method ReadPacket(script: seq<ReadResult>, from: int) returns (at: int, end: ReadEnd)
      requires open && ReadOpen(got, delivered, data, missing, inbox) && Delivered(got, delivered) && missing > 0
      requires 0 <= from <= |script|
      modifies this`data, this`missing, this`inbox, this`got
      ensures from <= at <= |script| && old(got) <= got
      ensures got + inbox == old(got + inbox)
      ensures end != GoOn ==> ReadOpen(got, delivered, data, missing, inbox) && Delivered(got, delivered)
      ensures end == GoOn ==> from < at && Whole(got, delivered, data, inbox) && missing == 0
      ensures Went(script, from, old(missing), old(inbox), at, end, |got| - |old(got)|, missing, inbox)
    {
      hide ReadOpen, Filling, Delivered, Whole, PacketLength;
      at := from;
      OpenFilling(got, delivered, data, missing, inbox);
      while missing > 0
        invariant from <= at <= |script| && old(got) <= got && got + inbox == old(got + inbox)
        invariant Filling(got, delivered, data, missing, inbox) && missing >= 0
        invariant missing == 0 ==> from < at
        invariant Went(script, from, old(missing), old(inbox), at, GoOn, |got| - |old(got)|, missing, inbox)
        decreases |script| - at
      {
        assert at < |script| ==> script[at..][1..] == script[at + 1..];
        FillingOpen(got, delivered, data, missing, inbox);
        if at == |script| {
          return at, Wait;
        }
        var result := script[at];
        at := at + 1;
        match result
        case ReadError =>
          return at, Lost;
        case ReadEnd =>
          return at, Lost;
        case ReadBlock =>
          return at, Wait;
        case ReadInterrupted =>
        case Got(n) =>
          var k := Min(n, Min(missing, |inbox|));
          if k == 0 {
            return at, Wait;
          }
          FillMore(got, delivered, data, missing, inbox, k);
          assert got + inbox[..k] + inbox[k..] == got + inbox;
          got := got + inbox[..k];
          data := data + inbox[..k];
          inbox := inbox[k..];
          missing := missing - k;
      }
      FillingWhole(got, delivered, data, inbox);
      return at, GoOn;
    }

    /** A packet goes to the request callback or to process_reply. */
    method Dispatch(packet: Bytes)
      requires SendSide() && open && Proper(packet)
      modifies this`queue, this`calls, this`waiting, this`requests
      ensures SendSide()
      ensures requests == old(requests) + if IsRequest(packet) then [packet] else []
      ensures IsRequest(packet) ==> queue == old(queue) && calls == old(calls)
      ensures !IsRequest(packet) ==>
        var i := Oldest(old(queue), HopOf(packet));
        if i == |old(queue)| then queue == old(queue) && calls == old(calls)
        else queue == Without(old(queue), i) && calls == old(calls) + [Answered(old(queue)[i].serial, packet)]
    {
      hide SendOpen, SendClosed, Proper, HopOf;
      ProperLength(packet);
      if IsRequest(packet) {
        requests := requests + [packet];
      } else {
        ProcessReply(packet);
      }
    }

    /** Hands over a whole packet, and starts afresh. */
    method Deliver()
      requires SendSide() && open && Whole(got, delivered, data, inbox) && missing == 0
        && requests == Requests(delivered)
      modifies this`queue, this`calls, this`waiting, this`data, this`delivered, this`requests
      ensures Valid() && open && delivered == old(delivered) + [old(data)] && data == []
      ensures Followed(old(queue), old(calls), [old(data)], queue, calls)
    {
      hide SendOpen, SendClosed, ReadOpen, Delivered, Whole, Proper, Requests;
      WholeOpen(got, delivered, data, inbox);
      RepliedOne(queue, data);
      Dispatch(data);
      delivered := delivered + [data];
      data := [];
    }

    /** One round of readEvent. */
    method ReadRound(script: seq<ReadResult>, from: int) returns (at: int, end: ReadEnd)
      requires Valid() && open && 0 <= from <= |script|
      modifies this`queue, this`calls, this`waiting, this`data, this`missing, this`inbox, this`got, this`delivered,
        this`requests
      ensures Valid() && from <= at <= |script| && (end == GoOn ==> from < at)
      ensures old(got) <= got && old(delivered) <= delivered && got + inbox == old(got + inbox)
      ensures Went(script, from, old(missing), old(inbox), at, end, |got| - |old(got)|, missing, inbox)
      ensures Followed(old(queue), old(calls), delivered[|old(delivered)|..], queue, calls)
    {
      hide SendOpen, SendClosed, ReadOpen, Delivered, Whole, Went, Followed;
      FollowedNone(queue, calls);
      WentNowhere(script, from, missing, inbox);
      assert delivered[|delivered|..] == [];
      at, end := from, GoOn;
      OpenMissing(got, delivered, data, missing, inbox);
      if missing == 0 {
        at, end := Peek(script, at);
        if end != GoOn {
          return;
        }
      }
      ghost var mid, m := at, missing;
      at, end := ReadPacket(script, at);
      WentOn(script, from, old(missing), old(inbox), mid, 0, m, old(inbox),
        at, end, |got| - |old(got)|, missing, inbox);
      if end == GoOn {
        Deliver();
      }
    }

    /** readEvent: packet after packet, until recv() or read() has no more. */
    method ReadEvent(script: seq<ReadResult>)
      requires Valid() && open
      modifies this`open, this`queue, this`calls, this`out, this`waiting, this`data, this`missing, this`inbox, this`got,
        this`delivered, this`requests
      ensures Valid() && old(got) <= got && old(delivered) <= delivered
      ensures got + inbox == old(got + inbox)
      ensures var r := ReadsOf(script, old(missing), old(inbox));
        |got| == |old(got)| + r.taken && missing == r.missing && (open <==> r.end != Lost)
      ensures var (q, called) := Replied(old(queue), delivered[|old(delivered)|..]);
        && queue == (if open then q else [])
        && calls == old(calls) + called + if open then [] else Failures(q, ErrorReading)
    {
      hide SendSide, ReadSide, Went;
      WentNowhere(script, 0, missing, inbox);
      FollowedNone(queue, calls);
      var at, end := 0, GoOn;
      while end == GoOn
        invariant Valid() && open && 0 <= at <= |script|
        invariant old(got) <= got && old(delivered) <= delivered
        invariant got + inbox == old(got + inbox)
        invariant Went(script, 0, old(missing), old(inbox), at, end, |got| - |old(got)|, missing, inbox)
        invariant Followed(old(queue), old(calls), delivered[|old(delivered)|..], queue, calls)
        decreases |script| - at, if end == GoOn then 1 else 0
      {
        ghost var at0, got0, missing0, inbox0, queue0, calls0, seen := at, got, missing, inbox, queue, calls, delivered;
        at, end := ReadRound(script, at);
        WentOn(script, 0, old(missing), old(inbox), at0, |got0| - |old(got)|, missing0, inbox0,
          at, end, |got| - |got0|, missing, inbox);
        FollowedOn(old(queue), old(calls), seen[|old(delivered)|..], queue0, calls0, delivered[|seen|..], queue, calls);
        Slices(old(delivered), seen, delivered);
      }
      WentAll(script, old(missing), old(inbox), at, end, |got| - |old(got)|, missing, inbox);
      if end == Lost {
        EndsReading();
        Shutdown(ErrorReading);
      }
    }

    lemma EndsReading()
      requires ReadSide()
      ensures Delivered(got, delivered) && requests == Requests(delivered)
    {}
  }

  /** From result `from` on, with `missing` and `inbox`, the results up to `at` take so many bytes. */
  ghost predicate Went(script: seq<ReadResult>, from: int, missing: int, inbox: Bytes,
    at: int, end: ReadEnd, taken: int, missing': int, inbox': Bytes)
  {
    && 0 <= from <= at <= |script|
    && ReadsOf(script[from..], missing, inbox) ==
      if end == GoOn then Plus(taken, at - from, ReadsOf(script[at..], missing', inbox'))
      else Reads(taken, missing', at - from, end)
  }

  lemma WentNowhere(script: seq<ReadResult>, from: int, missing: int, inbox: Bytes)
    requires 0 <= from <= |script|
    ensures Went(script, from, missing, inbox, from, GoOn, 0, missing, inbox)
  {}

  lemma WentAll(script: seq<ReadResult>, missing: int, inbox: Bytes, at: int, end: ReadEnd, taken: int, missing': int,
    inbox': Bytes)
    requires Went(script, 0, missing, inbox, at, end, taken, missing', inbox') && end != GoOn
    ensures ReadsOf(script, missing, inbox) == Reads(taken, missing', at, end)
  {
    assert script[0..] == script;
  }

  lemma WentOn(script: seq<ReadResult>, from: int, missing: int, inbox: Bytes, mid: int, taken: int, m: int, i: Bytes,
    at: int, end: ReadEnd, more: int, missing': int, inbox': Bytes)
    requires Went(script, from, missing, inbox, mid, GoOn, taken, m, i)
    requires Went(script, mid, m, i, at, end, more, missing', inbox')
    ensures Went(script, from, missing, inbox, at, end, taken + more, missing', inbox')
  {}

  /** From result `from` on, with `left` bytes in hand and the entries `next`, those up to `at` take so many bytes. */
  ghost predicate Pushed(script: seq<WriteResult>, from: int, left: int, next: seq<Info>,
    at: int, end: WriteEnd, taken: int, left': int, next': seq<Info>)
  {
    && 0 <= from <= at <= |script|
    && WritesOf(script[from..], left, next) ==
      if end != Written then Writes(taken, end)
      else
        var r := WritesOf(script[at..], left', next');
        r.(taken := taken + r.taken)
  }

  lemma PushedNone(script: seq<WriteResult>, from: int, left: int, next: seq<Info>)
    requires 0 <= from <= |script|
    ensures Pushed(script, from, left, next, from, Written, 0, left, next)
  {}

  lemma PushedRange(script: seq<WriteResult>, left: int, next: seq<Info>, at: int, taken: int, l: int, n: seq<Info>)
    requires Pushed(script, 0, left, next, at, Written, taken, l, n)
    ensures 0 <= at <= |script|
  {}

  lemma PushedOn(script: seq<WriteResult>, left: int, next: seq<Info>, mid: int, taken: int, l: int, n: seq<Info>,
    at: int, end: WriteEnd, more: int, left': int, next': seq<Info>)
    requires Pushed(script, 0, left, next, mid, Written, taken, l, n)
    requires Pushed(script, mid, l, n, at, end, more, left', next')
    ensures Pushed(script, 0, left, next, at, end, taken + more, left', next')
  {}

  /** With nothing left in hand the next entry is begun. */
  lemma PushedPick(script: seq<WriteResult>, left: int, next: seq<Info>, at: int, taken: int, n: seq<Info>)
    requires Pushed(script, 0, left, next, at, Written, taken, 0, n) && n != []
    ensures Pushed(script, 0, left, next, at, Written, taken, |n[0].packet|, n[1..])
  {}

  lemma PushedEnd(script: seq<WriteResult>, left: int, next: seq<Info>, at: int, end: WriteEnd, taken: int,
    left': int, next': seq<Info>)
    requires Pushed(script, 0, left, next, at, end, taken, left', next') && end != Written
    ensures WritesOf(script, left, next) == Writes(taken, end)
  {
    assert script[0..] == script;
  }

  lemma PushedAll(script: seq<WriteResult>, left: int, next: seq<Info>, at: int, taken: int)
    requires Pushed(script, 0, left, next, at, Written, taken, 0, [])
    ensures WritesOf(script, left, next) == Writes(taken, Written)
  {
    assert script[0..] == script;
  }

  lemma Slices(a: seq<Bytes>, b: seq<Bytes>, c: seq<Bytes>)
    requires a <= b <= c
    ensures c[|a|..] == b[|a|..] + c[|b|..]
  {}

  /** The replies among these packets were followed up. */
  ghost predicate Followed(queue: seq<Info>, calls: seq<Call>, packets: seq<Bytes>,
    queue': seq<Info>, calls': seq<Call>)
  {
    queue' == Replied(queue, packets).0 && calls' == calls + Replied(queue, packets).1
  }

  lemma FollowedNone(queue: seq<Info>, calls: seq<Call>)
    ensures Followed(queue, calls, [], queue, calls)
  {}

  lemma FollowedOn(queue: seq<Info>, calls: seq<Call>, packets: seq<Bytes>, q: seq<Info>, c: seq<Call>,
    more: seq<Bytes>, queue': seq<Info>, calls': seq<Call>)
    requires Followed(queue, calls, packets, q, c) && Followed(q, c, more, queue', calls')
    ensures Followed(queue, calls, packets + more, queue', calls')
  {
    hide Replied;
    RepliedMore(queue, packets, more);
  }

  /** The packets for the request callback. */
  ghost function Requests(ps: seq<Bytes>): seq<Bytes> {
    if ps == [] then []
    else
      var last := ps[|ps| - 1];
      Requests(ps[..|ps| - 1]) + if |last| >= HEADER && IsRequest(last) then [last] else []
  }

  ghost function Failures(q: seq<Info>, event: Event): (r: seq<Call>)
    ensures |r| == |q| && forall i :: 0 <= i < |q| ==> r[i] == Failed(q[i].serial, event)
  {
    seq(|q|, i requires 0 <= i < |q| => Failed(q[i].serial, event))
  }

  lemma KeptOne(all: seq<Info>, k: int)
    requires 0 <= k < |all|
    ensures Kept(all[k..k + 1]) == if Drops(all[k].flags) then [] else [all[k].(status := ShallRead)]
  {
    assert all[k..k + 1] == [all[k]];
    assert [all[k]][..0] == [];
  }

  lemma KeptNone(all: seq<Info>, k: int)
    requires 0 <= k <= |all|
    ensures Kept(all[k..k]) == []
  {}

  lemma KeptMore(all: seq<Info>, a: int, b: int, c: int)
    requires 0 <= a <= b <= c <= |all| && c <= b + 1
    ensures Kept(all[a..c]) == Kept(all[a..b]) + Kept(all[b..c])
  {
    if b < c {
      KeptOne(all, b);
      assert all[a..c][..b - a] == all[a..b];
    }
  }

  lemma ProperLength(p: Bytes)
    requires Proper(p)
    ensures |p| >= HEADER && PacketLength(p) == |p|
  {}

  lemma FailuresPush(q: seq<Info>, k: int, event: Event)
    requires 0 <= k < |q|
    ensures Failures(q[..k + 1], event) == Failures(q[..k], event) + [Failed(q[k].serial, event)]
  {}

  lemma AscendingPush(all: seq<Info>, x: Info, hop: int, hop': int)
    requires GetsId(x.flags) ==> 1 <= x.hopid == hop'
    requires !GetsId(x.flags) ==> hop' == hop
    ensures Ascending(all, hop) && hop <= hop' && (GetsId(x.flags) ==> hop < hop') ==> Ascending(all + [x], hop')
  {}

  lemma QueueParts(all: seq<Info>, picked: int, waiting: seq<Info>, queue: seq<Info>)
    requires Queued(all, picked, waiting, queue)
    ensures |queue| == |waiting| + |all| - picked && 0 <= picked <= |all|
    ensures picked < |all| ==>
      queue[|waiting|] == all[picked] && Proper(all[picked].packet) && all[picked].serial == picked
  {}

  // ---------- the sending side as a whole ----------

  /** While the connection is open. */
  ghost predicate SendOpen(all: seq<Info>, picked: int, waiting: seq<Info>, queue: seq<Info>, calls: seq<Call>,
    dropped: multiset<int>, sent: Bytes, out: Option<Bytes>, pos: int, left: int) {
    Sending(all, picked, waiting, queue, calls, dropped) && Writing(all, picked, sent, out, pos, left)
  }

  /** While dm_free_requests empties the queue. */
  ghost predicate Closing(all: seq<Info>, queue: seq<Info>, calls: seq<Call>, dropped: multiset<int>, sent: Bytes) {
    && Entries(all) && Conserved(|all|, queue, calls, dropped) && OnlyDropping(all, dropped) && Matched(all, calls)
    && sent <= Concat(Payloads(all))
  }

  ghost predicate SendClosed(all: seq<Info>, calls: seq<Call>, dropped: multiset<int>, sent: Bytes) {
    Closing(all, [], calls, dropped, sent)
  }

  lemma OpenFacts(all: seq<Info>, picked: int, waiting: seq<Info>, queue: seq<Info>, calls: seq<Call>,
    dropped: multiset<int>, sent: Bytes, out: Option<Bytes>, pos: int, left: int)
    requires SendOpen(all, picked, waiting, queue, calls, dropped, sent, out, pos, left)
    ensures Queued(all, picked, waiting, queue)
    ensures Writing(all, picked, sent, out, pos, left)
    ensures Conserved(|all|, queue, calls, dropped) && OnlyDropping(all, dropped) && Matched(all, calls)
    ensures sent <= Concat(Payloads(all))
  {
    hide Queued, Conserved, OnlyDropping, Matched, Concat, Payloads;
    PayloadsPrefix(all, picked, sent);
  }

  lemma OpenStart()
    ensures SendOpen([], 0, [], [], [], multiset{}, [], None, 0, 0)
    ensures ReadOpen([], [], [], 0, []) && Delivered([], [])
  {
    assert Payloads([]) == [];
  }

  lemma OpenEnqueue(all: seq<Info>, picked: int, waiting: seq<Info>, queue: seq<Info>, calls: seq<Call>,
    dropped: multiset<int>, sent: Bytes, out: Option<Bytes>, pos: int, left: int, x: Info)
    requires SendOpen(all, picked, waiting, queue, calls, dropped, sent, out, pos, left)
    requires x.serial == |all| && x.status == ShallWrite && Proper(x.packet) && HopOf(x.packet) == x.hopid
    ensures SendOpen(all + [x], picked, waiting, queue + [x], calls, dropped, sent, out, pos, left)
  {
    hide Sending, Concat, Payloads;
    EnqueueStep(all, picked, waiting, queue, calls, dropped, x);
    assert (all + [x])[..picked] == all[..picked];
  }

  lemma OpenPick(all: seq<Info>, picked: int, waiting: seq<Info>, queue: seq<Info>, calls: seq<Call>,
    dropped: multiset<int>, sent: Bytes, out: Option<Bytes>, pos: int, left: int)
    requires SendOpen(all, picked, waiting, queue, calls, dropped, sent, out, pos, left) && out.None?
      && 0 <= picked < |all|
    ensures |waiting| < |queue|
    ensures Drops(all[picked].flags) ==>
      SendOpen(all, picked + 1, waiting, Without(queue, |waiting|), calls, dropped + multiset{picked},
               sent, Some(all[picked].packet), 0, |all[picked].packet|)
    ensures !Drops(all[picked].flags) ==>
      var x := all[picked].(status := ShallRead);
      SendOpen(all, picked + 1, waiting + [x], queue[|waiting| := x], calls, dropped,
               sent, Some(all[picked].packet), 0, |all[picked].packet|)
  {
    hide Sending, Concat, Payloads, Without;
    PickStep(all, picked, waiting, queue, calls, dropped);
    PayloadsPush(all, picked);
    var p := all[picked].packet;
    assert p[0..] == p;
    assert sent + [] == sent;
  }

  lemma OpenBounds(all: seq<Info>, picked: int, waiting: seq<Info>, queue: seq<Info>, calls: seq<Call>,
    dropped: multiset<int>, sent: Bytes, out: Option<Bytes>, pos: int, left: int)
    requires SendOpen(all, picked, waiting, queue, calls, dropped, sent, out, pos, left)
    ensures 0 <= picked <= |all| && (queue == [] ==> picked == |all|)
    ensures picked == |all| && out.None? ==> sent == Concat(Payloads(all))
  {
    hide Conserved, OnlyDropping, Matched, Entries, Concat, Payloads;
    if picked == |all| && out.None? {
      assert all[..picked] == all;
      assert sent + [] == sent;
    }
  }

  lemma OpenQueue(all: seq<Info>, picked: int, waiting: seq<Info>, queue: seq<Info>, calls: seq<Call>,
    dropped: multiset<int>, sent: Bytes, out: Option<Bytes>, pos: int, left: int)
    requires SendOpen(all, picked, waiting, queue, calls, dropped, sent, out, pos, left)
    ensures 0 <= picked <= |all| && queue == waiting + all[picked..]
  {
    hide Conserved, OnlyDropping, Matched, Entries, Writing;
  }

  lemma OpenHand(all: seq<Info>, picked: int, waiting: seq<Info>, queue: seq<Info>, calls: seq<Call>,
    dropped: multiset<int>, sent: Bytes, out: Option<Bytes>, pos: int, left: int)
    requires SendOpen(all, picked, waiting, queue, calls, dropped, sent, out, pos, left) && out.Some?
    ensures 0 <= pos <= |out.value| && pos + left == |out.value|
  {
    hide Sending;
  }

  /** write() took `k` bytes. */
  lemma OpenWrote(all: seq<Info>, picked: int, waiting: seq<Info>, queue: seq<Info>, calls: seq<Call>,
    dropped: multiset<int>, sent: Bytes, out: Option<Bytes>, pos: int, left: int, k: int)
    requires SendOpen(all, picked, waiting, queue, calls, dropped, sent, out, pos, left) && out.Some?
    requires 0 <= pos <= |out.value| && 0 <= k <= left && pos + left == |out.value|
    ensures SendOpen(all, picked, waiting, queue, calls, dropped, sent + out.value[pos..pos + k], out, pos + k,
      left - k)
  {
    hide Sending, Concat, Payloads;
    assert out.value[pos..] == out.value[pos..pos + k] + out.value[pos + k..];
  }

  lemma OpenDone(all: seq<Info>, picked: int, waiting: seq<Info>, queue: seq<Info>, calls: seq<Call>,
    dropped: multiset<int>, sent: Bytes, out: Option<Bytes>, pos: int, left: int)
    requires SendOpen(all, picked, waiting, queue, calls, dropped, sent, out, pos, left) && left == 0
    ensures SendOpen(all, picked, waiting, queue, calls, dropped, sent, None, pos, left)
  {
    hide Sending, Concat, Payloads;
    if out.Some? {
      assert out.value[pos..] == [];
    }
  }

  lemma OpenRuns(all: seq<Info>, picked: int, waiting: seq<Info>, queue: seq<Info>, calls: seq<Call>,
    dropped: multiset<int>, sent: Bytes, out: Option<Bytes>, pos: int, left: int)
    requires SendOpen(all, picked, waiting, queue, calls, dropped, sent, out, pos, left)
    ensures ReadThenWrite(queue)
    ensures forall i :: 0 <= i < |queue| ==> (queue[i].status == ShallRead <==> i < |waiting|)
  {
    hide Conserved, OnlyDropping, Matched, Writing, Entries;
    QueuedRuns(all, picked, waiting, queue);
  }

  lemma OpenAnswer(all: seq<Info>, picked: int, waiting: seq<Info>, queue: seq<Info>, calls: seq<Call>,
    dropped: multiset<int>, sent: Bytes, out: Option<Bytes>, pos: int, left: int, i: int, reply: Bytes)
    requires SendOpen(all, picked, waiting, queue, calls, dropped, sent, out, pos, left)
    requires 0 <= i < |waiting| && i < |queue| && Proper(reply) && queue[i].hopid == HopOf(reply)
    ensures SendOpen(all, picked, Without(waiting, i), Without(queue, i), calls + [Answered(queue[i].serial, reply)],
      dropped, sent, out, pos, left)
  {
    hide Conserved, OnlyDropping, Matched, Writing, Entries, Proper, HopOf, Without;
    AnswerStep(all, picked, waiting, queue, calls, dropped, i, reply);
  }

  lemma CloseStart(all: seq<Info>, picked: int, waiting: seq<Info>, queue: seq<Info>, calls: seq<Call>,
    dropped: multiset<int>, sent: Bytes, out: Option<Bytes>, pos: int, left: int)
    requires SendOpen(all, picked, waiting, queue, calls, dropped, sent, out, pos, left)
    ensures Closing(all, queue, calls, dropped, sent)
  {
    hide Conserved, OnlyDropping, Matched, Writing, Entries, Concat, Payloads;
    OpenFacts(all, picked, waiting, queue, calls, dropped, sent, out, pos, left);
  }

  lemma CloseFail(all: seq<Info>, queue: seq<Info>, calls: seq<Call>, dropped: multiset<int>, sent: Bytes, event: Event)
    requires Closing(all, queue, calls, dropped, sent) && queue != []
    ensures Closing(all, queue[1..], calls + [Failed(queue[0].serial, event)], dropped, sent)
  {
    hide Conserved, OnlyDropping, Entries, Concat, Payloads;
    FailStep(|all|, queue, calls, dropped, event);
  }

  // ---------- the reading side as a whole ----------

  /** The packets delivered are exactly the whole packets among the bytes read. */
  ghost predicate Delivered(got: Bytes, delivered: seq<Bytes>) {
    Framed(got) && Packets(got) == delivered
  }

  ghost predicate ReadOpen(got: Bytes, delivered: seq<Bytes>, data: Bytes, missing: int, inbox: Bytes) {
    got == Concat(delivered) + data && Reading(delivered, data, missing, inbox)
  }

  /** While a packet is being read: nothing missing means that it is whole. */
  ghost predicate Filling(got: Bytes, delivered: seq<Bytes>, data: Bytes, missing: int, inbox: Bytes) {
    && got == Concat(delivered) + data
    && (forall i :: 0 <= i < |delivered| ==> Proper(delivered[i]))
    && Framed(data + inbox) && |data + inbox| >= HEADER && PacketLength(data + inbox) == |data| + missing
  }

  /** The packet in hand is whole. */
  ghost predicate Whole(got: Bytes, delivered: seq<Bytes>, data: Bytes, inbox: Bytes) {
    && got == Concat(delivered) + data
    && (forall i :: 0 <= i < |delivered| ==> Proper(delivered[i]))
    && Proper(data) && Framed(inbox)
  }

  lemma OpenArrive(got: Bytes, delivered: seq<Bytes>, data: Bytes, missing: int, inbox: Bytes, more: Bytes)
    requires ReadOpen(got, delivered, data, missing, inbox) && Framed(data + inbox + more)
    ensures ReadOpen(got, delivered, data, missing, inbox + more)
  {
    hide Framed, PacketLength, Concat;
    assert data + (inbox + more) == data + inbox + more;
    if missing > 0 { LengthPrefix(data + inbox, more); }
  }

  lemma OpenHeader(got: Bytes, delivered: seq<Bytes>, data: Bytes, inbox: Bytes)
    requires ReadOpen(got, delivered, data, 0, inbox) && |inbox| >= HEADER
    ensures PacketLength(inbox[..HEADER]) >= HEADER
    ensures ReadOpen(got, delivered, data, PacketLength(inbox[..HEADER]), inbox)
  {
    hide PacketLength, Concat;
    assert data + inbox == inbox;
    assert inbox[..HEADER] + inbox[HEADER..] == inbox;
    LengthPrefix(inbox[..HEADER], inbox[HEADER..]);
  }

  lemma OpenMissing(got: Bytes, delivered: seq<Bytes>, data: Bytes, missing: int, inbox: Bytes)
    requires ReadOpen(got, delivered, data, missing, inbox)
    ensures missing >= 0
  {}

  lemma OpenFilling(got: Bytes, delivered: seq<Bytes>, data: Bytes, missing: int, inbox: Bytes)
    requires ReadOpen(got, delivered, data, missing, inbox) && missing > 0
    ensures Filling(got, delivered, data, missing, inbox)
  {}

  lemma FillingOpen(got: Bytes, delivered: seq<Bytes>, data: Bytes, missing: int, inbox: Bytes)
    requires Filling(got, delivered, data, missing, inbox) && missing > 0
    ensures ReadOpen(got, delivered, data, missing, inbox) && Delivered(got, delivered)
  {
    hide Concat, PacketLength, Framed, Packets;
    DeliveredWhole(delivered, data, missing, inbox);
  }

  lemma FillMore(got: Bytes, delivered: seq<Bytes>, data: Bytes, missing: int, inbox: Bytes, k: int)
    requires Filling(got, delivered, data, missing, inbox) && 0 <= k <= missing && k <= |inbox|
    ensures Filling(got + inbox[..k], delivered, data + inbox[..k], missing - k, inbox[k..])
  {
    hide Concat, PacketLength, Framed;
    ReadOn(data, missing, inbox, k);
    assert Concat(delivered) + data + inbox[..k] == Concat(delivered) + (data + inbox[..k]);
  }

  lemma FillingWhole(got: Bytes, delivered: seq<Bytes>, data: Bytes, inbox: Bytes)
    requires Filling(got, delivered, data, 0, inbox)
    ensures Whole(got, delivered, data, inbox)
  {
    hide Concat, PacketLength, Framed;
    ReadWhole(data, inbox);
  }

  lemma WholeOpen(got: Bytes, delivered: seq<Bytes>, data: Bytes, inbox: Bytes)
    requires Whole(got, delivered, data, inbox)
    ensures Proper(data) && |data| >= HEADER
    ensures ReadOpen(got, delivered + [data], [], 0, inbox) && Delivered(got, delivered + [data])
    ensures Requests(delivered + [data]) == Requests(delivered) + if IsRequest(data) then [data] else []
  {
    hide Concat, PacketLength, Framed, Packets;
    ReadDelivered(delivered, data, inbox);
    DeliveredWhole(delivered + [data], [], 0, inbox);
    assert (delivered + [data])[..|delivered|] == delivered;
  }

  // ---------- what holds after any run ----------

  /** In every state: the queue is a run of entries to be read, then entries to be written, and no callback was called
      twice. */
  lemma EveryState(c: Connection, s: int)
    requires c.Valid()
    ensures ReadThenWrite(c.queue)
    ensures Called(c.calls)[s] <= 1
    ensures !c.open && 0 <= s < |c.all| && !Drops(c.all[s].flags) ==> Called(c.calls)[s] == 1
    ensures c.sent <= Concat(Payloads(c.all))
  {
    hide Entries, Conserved, OnlyDropping, Matched, Concat, Payloads, Called, Writing;
    if c.open {
      OpenRuns(c.all, c.picked, c.waiting, c.queue, c.calls, c.dropped, c.sent, c.out, c.pos, c.left);
      OpenFacts(c.all, c.picked, c.waiting, c.queue, c.calls, c.dropped, c.sent, c.out, c.pos, c.left);
    }
    CalledAtMostOnce(|c.all|, c.queue, c.calls, c.dropped, s);
    if !c.open && 0 <= s < |c.all| {
      CalledOnce(c.all, c.calls, c.dropped, s);
    }
  }

  /** An event with calls that hand over all that is there: every whole packet that arrived is delivered. */
  method ReadAll(c: Connection, script: seq<ReadResult>)
    requires c.Valid() && c.open && Eager(script, |c.inbox|) && |script| > 2 * |c.inbox| + 1
    modifies c
    ensures c.Valid() && c.open && Framed(old(c.got + c.inbox)) && c.delivered == Packets(old(c.got + c.inbox))
    ensures old(c.delivered) <= c.delivered && c.got + c.inbox == old(c.got + c.inbox) && c.all == old(c.all)
    ensures var (q, called) := Replied(old(c.queue), c.delivered[|old(c.delivered)|..]);
      c.queue == q && c.calls == old(c.calls) + called
  {
    hide SendOpen, SendClosed, Delivered, Framed, Packets, PacketLength, Eager, ReadsOf, Replied;
    ReadingFramed(c.got, c.delivered, c.data, c.missing, c.inbox);
    EagerReads(script, c.missing, c.inbox, |c.inbox|);
    c.ReadEvent(script);
    NothingLeft(c.got, c.delivered, c.data, c.missing, c.inbox);
  }

  lemma ReadingFramed(got: Bytes, delivered: seq<Bytes>, data: Bytes, missing: int, inbox: Bytes)
    requires ReadOpen(got, delivered, data, missing, inbox)
    ensures missing >= 0 && (|inbox| <= missing || Framed(inbox[missing..]))
  {
    hide PacketLength;
    if missing == 0 {
      assert data + inbox == inbox && inbox[0..] == inbox;
    } else if |inbox| > missing {
      assert (data + inbox)[|data| + missing..] == inbox[missing..];
    }
  }

  lemma NothingLeft(got: Bytes, delivered: seq<Bytes>, data: Bytes, missing: int, inbox: Bytes)
    requires ReadOpen(got, delivered, data, missing, inbox)
    requires if missing == 0 then |inbox| < HEADER else inbox == []
    ensures Framed(got + inbox) && Packets(got + inbox) == delivered
  {
    hide PacketLength, Packets;
    assert got + inbox == Concat(delivered) + (data + inbox);
    PacketsOf(delivered, data + inbox);
  }

  /** An event with calls that take all that is offered: everything is written, unless nothing but a packet in hand is
      left, because that is not in the queue any more. */
  method WriteAll(c: Connection, script: seq<WriteResult>, n: nat)
    requires c.Valid() && c.open && Taking(script, n) && |script| > |c.all|
    requires c.left <= n && forall i :: 0 <= i < |c.all| ==> |c.all[i].packet| <= n
    modifies c
    ensures c.Valid() && c.open && c.all == old(c.all)
    ensures c.sent == Concat(Payloads(c.all)) <==> !(old(c.queue) == [] && old(c.out).Some? && old(c.left) > 0)
  {
    hide SendOpen, SendClosed, ReadOpen, Delivered, Concat, Payloads, Taking, WritesOf, Kept;
    OpenQueue(c.all, c.picked, c.waiting, c.queue, c.calls, c.dropped, c.sent, c.out, c.pos, c.left);
    InHand(c.all, c.picked, c.waiting, c.queue, c.calls, c.dropped, c.sent, c.out, c.pos, c.left);
    TakingWrites(script, if c.out.Some? then c.left else 0, c.all[c.picked..], n);
    var end := c.WriteEvent(script);
  }

  lemma InHand(all: seq<Info>, picked: int, waiting: seq<Info>, queue: seq<Info>, calls: seq<Call>,
    dropped: multiset<int>, sent: Bytes, out: Option<Bytes>, pos: int, left: int)
    requires SendOpen(all, picked, waiting, queue, calls, dropped, sent, out, pos, left)
    ensures out.Some? ==> left >= 0
    ensures queue == [] ==> (sent == Concat(Payloads(all)) <==> out.None? || left == 0)
  {
    hide Conserved, OnlyDropping, Matched, Entries, Concat, Payloads;
    if queue == [] {
      assert all[..picked] == all;
      if out.Some? && left > 0 {
        assert |sent + out.value[pos..]| > |sent|;
      }
    }
  }

  lemma EmptyPacket(p: Bytes)
    requires p == [1] + U24(HEADER) + Zeros(16)
    ensures Proper(p) && |p| == 20
  {
    assert p[1..4] == U24(HEADER);
    RoundTrip24(HEADER);
  }

  lemma HalfWrites(x: Info)
    requires |x.packet| == 20
    ensures WritesOf([Wrote(10), WriteAgain], 0, [x]) == Writes(10, Blocked)
  {
    assert [x][1..] == [] && [Wrote(10), WriteAgain][1..] == [WriteAgain];
    assert WritesOf([WriteAgain], 10, []) == Writes(0, Blocked);
  }

  lemma HalfQueue(all: seq<Info>, picked: int, waiting: seq<Info>, queue: seq<Info>, calls: seq<Call>,
    dropped: multiset<int>, sent: Bytes, out: Option<Bytes>, pos: int, left: int)
    requires SendOpen(all, picked, waiting, queue, calls, dropped, sent, out, pos, left)
    requires |all| == 1 && Drops(all[0].flags) && sent != [] && waiting == Kept(all[0..picked])
    ensures queue == []
  {
    hide Conserved, OnlyDropping, Matched, Entries;
    KeptOne(all, 0);
  }

  /** A reply that write() takes in two parts: the entry is out of the queue after the first, and the second part is not
      written, however often there is room for it. */
  method HalfWritten(n: nat) returns (c: Connection)
    ensures fresh(c) && c.Valid() && c.open && |c.all| == 1 && |c.all[0].packet| == 20 && |c.sent| == 10
  {
    hide SendOpen, SendClosed, ReadOpen, Delivered, Concat, Payloads, Proper, WritesOf, Kept;
    c := new Connection();
    var packet := [1] + U24(HEADER) + Zeros(16);
    EmptyPacket(packet);
    var rc, hop := c.Enqueue(packet, Flags(false, false, true), 1, 1);
    HalfWrites(c.all[0]);
    assert c.all[0..] == [c.all[0]];
    var end := c.WriteEvent([Wrote(10), WriteAgain]);
    HalfQueue(c.all, c.picked, c.waiting, c.queue, c.calls, c.dropped, c.sent, c.out, c.pos, c.left);
    for i := 0 to n
      invariant c.Valid() && c.open && c.queue == [] && |c.sent| == 10 && |c.all| == 1 && |c.all[0].packet| == 20
    {
      end := c.WriteEvent([Wrote(10)]);
    }
  }

  /** Between two ends of a connection: the packets delivered are the packets enqueued, in that order, as far as they
      got. */
  lemma EndToEnd(c: Connection, r: Connection)
    requires c.Valid() && r.Valid() && r.got <= c.sent
    ensures r.delivered <= Payloads(c.all)
    ensures r.got == Concat(Payloads(c.all)) ==> r.delivered == Payloads(c.all)
  {
    hide Conserved, OnlyDropping, Matched, Concat, Writing, Framed, Packets, Proper, HopOf;
    EveryState(c, 0);
    assert Entries(c.all);
    DeliveredInOrder(Payloads(c.all), r.got);
  }
}
