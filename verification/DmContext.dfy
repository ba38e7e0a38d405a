/** The request protocol of one connection, with the socket as an adversary that picks every chunk size. */
module DmContext {
  import opened Basics
  import opened AvpFormat
  import opened PacketStream

  /** ONE_WAY, REQUEST, REPLY */
  datatype Flags = Flags(oneWay: bool, request: bool, reply: bool)

  /** (flags | REPLY) != REPLY: the packet gets ids of its own. */
  predicate GetsId(f: Flags) { f.oneWay || f.request }

  /** flags & (ONE_WAY | REPLY): nothing is awaited once the packet is written. */
  predicate Drops(f: Flags) { f.oneWay || f.reply }

  datatype Status = ShallWrite | ShallRead

  /** An entry of the queue. `serial` counts the entries ever made, `packet` is what is to be written. */
  datatype Info = Info(serial: int, flags: Flags, status: Status, hopid: int, packet: Bytes)

  datatype Event = ErrorWriting | ErrorReading | ErrorTimeout | Closed

  /** A call of an entry's callback. */
  datatype Call = Answered(serial: int, reply: Bytes) | Failed(serial: int, event: Event)

  const MAX_INT := 0xFFFF_FFFF

  /** The next hop id: the first one and the one after MAX_INT are drawn at random. */
  function NextHop(hop: int, random: int): int {
    if hop == 0 || hop == MAX_INT then random else hop + 1
  }

  // ---------- the queue ----------

  ghost predicate Entries(all: seq<Info>) {
    forall i :: 0 <= i < |all| ==>
      all[i].serial == i && all[i].status == ShallWrite && Proper(all[i].packet) && HopOf(all[i].packet) == all[i].hopid
  }

  /** Entry `x` is one of the first `picked` entries, written at least in part and not yet answered. */
  ghost predicate Waits(all: seq<Info>, picked: int, x: Info) {
    && 0 <= x.serial < picked <= |all|
    && x == all[x.serial].(status := ShallRead)
    && !Drops(x.flags)
  }

  /** The queue: the entries that wait for a reply, then exactly the entries not yet picked up for writing. */
  ghost predicate Queued(all: seq<Info>, picked: int, waiting: seq<Info>, queue: seq<Info>) {
    && Entries(all) && 0 <= picked <= |all|
    && queue == waiting + all[picked..]
    && (forall i :: 0 <= i < |waiting| ==> Waits(all, picked, waiting[i]))
    && (forall i, j :: 0 <= i < j < |waiting| ==> waiting[i].serial < waiting[j].serial)
  }

  /** SHALL_READ entries, then SHALL_WRITE entries. */
  ghost predicate ReadThenWrite(queue: seq<Info>) {
    forall i, j :: 0 <= i < j < |queue| && queue[j].status == ShallRead ==> queue[i].status == ShallRead
  }

  lemma QueuedRuns(all: seq<Info>, picked: int, waiting: seq<Info>, queue: seq<Info>)
    requires Queued(all, picked, waiting, queue)
    ensures ReadThenWrite(queue)
    ensures forall i :: 0 <= i < |queue| ==> (queue[i].status == ShallRead <==> i < |waiting|)
    ensures forall i, j :: 0 <= i < j < |queue| ==> queue[i].serial < queue[j].serial
  {
    forall i | |waiting| <= i < |queue|
      ensures queue[i].status == ShallWrite && queue[i].serial == picked + i - |waiting|
    {
      assert queue[i] == all[picked + i - |waiting|];
    }
    forall i | 0 <= i < |waiting| ensures queue[i].serial < picked {
      assert Waits(all, picked, waiting[i]);
    }
  }

  ghost predicate Awaits(queue: seq<Info>, i: int, hop: int) {
    0 <= i < |queue| && queue[i].status == ShallRead && queue[i].hopid == hop
  }

  /** The first entry with the id: if any entry awaits a reply with that id, it is the oldest of those. */
  lemma FirstMatch(queue: seq<Info>, i: int, hop: int)
    requires ReadThenWrite(queue) && 0 <= i < |queue| && queue[i].hopid == hop
    requires forall j :: 0 <= j < i ==> queue[j].hopid != hop
    ensures queue[i].status == ShallRead <==> exists j :: Awaits(queue, j, hop)
    ensures forall j :: Awaits(queue, j, hop) ==> i <= j
  {
    if queue[i].status == ShallRead {
      assert Awaits(queue, i, hop);
    }
  }

  /** The oldest entry that awaits a reply with the id; behind the end if there is none. */
  ghost function Oldest(queue: seq<Info>, hop: int): (i: int)
    ensures 0 <= i <= |queue| && (i < |queue| ==> Awaits(queue, i, hop))
    ensures forall j :: 0 <= j < i ==> !Awaits(queue, j, hop)
    decreases queue
  {
    if queue == [] || Awaits(queue, 0, hop) then 0
    else
      var k := Oldest(queue[1..], hop);
      assert forall j :: 0 < j < |queue| ==> (Awaits(queue, j, hop) <==> Awaits(queue[1..], j - 1, hop));
      k + 1
  }

  /** What is left of the queue when a packet has come in, and the callback that was called: a reply goes to the oldest
      entry that awaits it, if there is one. */
  ghost function RepliedTo(queue: seq<Info>, p: Bytes): (seq<Info>, seq<Call>) {
    var i := if |p| < HEADER || IsRequest(p) then |queue| else Oldest(queue, HopOf(p));
    if i == |queue| then (queue, []) else (Without(queue, i), [Answered(queue[i].serial, p)])
  }

  /** The same for packet after packet. */
  ghost function Replied(queue: seq<Info>, packets: seq<Bytes>): (seq<Info>, seq<Call>) {
    if packets == [] then (queue, [])
    else
      var (q, calls) := Replied(queue, packets[..|packets| - 1]);
      var (q', call) := RepliedTo(q, packets[|packets| - 1]);
      (q', calls + call)
  }

  lemma RepliedOne(queue: seq<Info>, p: Bytes)
    ensures Replied(queue, [p]) == RepliedTo(queue, p)
  {
    hide RepliedTo;
    assert [p][..0] == [];
    assert [] + RepliedTo(queue, p).1 == RepliedTo(queue, p).1;
  }

  lemma {:induction false} RepliedMore(queue: seq<Info>, ps: seq<Bytes>, qs: seq<Bytes>)
    ensures Replied(queue, ps + qs) ==
      var (q, calls) := Replied(queue, ps);
      (Replied(q, qs).0, calls + Replied(q, qs).1)
    decreases |qs|
  {
    hide RepliedTo;
    if qs == [] {
      assert ps + qs == ps;
      assert Replied(queue, ps).1 + [] == Replied(queue, ps).1;
    } else {
      assert (ps + qs)[..|ps + qs| - 1] == ps + qs[..|qs| - 1];
      RepliedMore(queue, ps, qs[..|qs| - 1]);
      var (q, calls) := Replied(queue, ps);
      var (q', calls') := Replied(q, qs[..|qs| - 1]);
      var call := RepliedTo(q', qs[|qs| - 1]).1;
      assert calls + calls' + call == calls + (calls' + call);
    }
  }

  lemma QueuedPush(all: seq<Info>, picked: int, waiting: seq<Info>, queue: seq<Info>, x: Info)
    requires Queued(all, picked, waiting, queue) && Entries(all + [x])
    ensures Queued(all + [x], picked, waiting, queue + [x])
  {
    assert (all + [x])[picked..] == all[picked..] + [x];
  }

  lemma QueuedPick(all: seq<Info>, picked: int, waiting: seq<Info>, queue: seq<Info>)
    requires Queued(all, picked, waiting, queue) && picked < |all|
    ensures queue[|waiting|] == all[picked]
    ensures Drops(all[picked].flags) ==> Queued(all, picked + 1, waiting, Without(queue, |waiting|))
    ensures !Drops(all[picked].flags) ==>
      var x := all[picked].(status := ShallRead);
      Queued(all, picked + 1, waiting + [x], queue[|waiting| := x])
  {
    assert all[picked..] == [all[picked]] + all[picked + 1..];
    assert Without(queue, |waiting|) == waiting + all[picked + 1..];
    var x := all[picked].(status := ShallRead);
    assert queue[|waiting| := x] == waiting + [x] + all[picked + 1..];
  }

  lemma QueuedAnswer(all: seq<Info>, picked: int, waiting: seq<Info>, queue: seq<Info>, i: int)
    requires Queued(all, picked, waiting, queue) && 0 <= i < |waiting|
    ensures queue[i] == waiting[i]
    ensures Queued(all, picked, Without(waiting, i), Without(queue, i))
  {
    assert Without(queue, i) == Without(waiting, i) + all[picked..];
  }

  // ---------- every entry is in one place ----------

  ghost function Serials(q: seq<Info>): multiset<int> {
    if q == [] then multiset{} else Serials(q[..|q| - 1]) + multiset{q[|q| - 1].serial}
  }

  ghost function Called(calls: seq<Call>): multiset<int> {
    if calls == [] then multiset{} else Called(calls[..|calls| - 1]) + multiset{calls[|calls| - 1].serial}
  }

  ghost function UpTo(n: int): (r: multiset<int>)
    ensures forall s :: r[s] == if 0 <= s < n then 1 else 0
  {
    if n <= 0 then multiset{} else UpTo(n - 1) + multiset{n - 1}
  }

  /** Every entry ever made is queued, or was dropped on writing, or had its callback called: one of these, once. */
  ghost predicate Conserved(n: int, queue: seq<Info>, calls: seq<Call>, dropped: multiset<int>) {
    Serials(queue) + Called(calls) + dropped == UpTo(n)
  }

  lemma {:induction false} SerialsAppend(q: seq<Info>, r: seq<Info>)
    ensures Serials(q + r) == Serials(q) + Serials(r)
  {
    if r == [] {
      assert q + r == q;
    } else {
      var z := r[|r| - 1];
      assert (q + r)[..|q + r| - 1] == q + r[..|r| - 1];
      SerialsAppend(q, r[..|r| - 1]);
    }
  }

  lemma SerialsOne(x: Info)
    ensures Serials([x]) == multiset{x.serial}
  {
    assert [x][..0] == [];
  }

  lemma Swapped(a: multiset<int>, b: multiset<int>, c: multiset<int>)
    ensures a + b + c == a + c + b
  {}

  lemma SerialsSplit(q: seq<Info>, i: int)
    requires 0 <= i < |q|
    ensures Serials(q) == Serials(Without(q, i)) + multiset{q[i].serial}
  {
    hide Serials;
    var x := q[i];
    var l, r := q[..i], q[i + 1..];
    calc {
      Serials(q);
      { assert q == l + [x] + r; SerialsAppend(l + [x], r); }
      Serials(l + [x]) + Serials(r);
      { SerialsAppend(l, [x]); SerialsOne(x); }
      Serials(l) + multiset{x.serial} + Serials(r);
      { Swapped(Serials(l), multiset{x.serial}, Serials(r)); }
      Serials(l) + Serials(r) + multiset{x.serial};
      { SerialsAppend(l, r); }
      Serials(Without(q, i)) + multiset{x.serial};
    }
  }

  lemma SerialsUpdate(q: seq<Info>, i: int, x: Info)
    requires 0 <= i < |q| && x.serial == q[i].serial
    ensures Serials(q[i := x]) == Serials(q)
  {
    SerialsSplit(q, i);
    SerialsSplit(q[i := x], i);
    assert Without(q[i := x], i) == Without(q, i);
  }

  lemma CalledPush(calls: seq<Call>, c: Call)
    ensures Called(calls + [c]) == Called(calls) + multiset{c.serial}
  {
    assert (calls + [c])[..|calls|] == calls;
  }

  // ---------- ids ----------

  /** The ids handed out ascend, up to the counter. */
  ghost predicate Ascending(all: seq<Info>, hop: int) {
    && (forall i :: 0 <= i < |all| && GetsId(all[i].flags) ==> 1 <= all[i].hopid <= hop)
    && (forall i, j :: 0 <= i < j < |all| && GetsId(all[i].flags) && GetsId(all[j].flags) ==>
      all[i].hopid < all[j].hopid)
  }

  /** No entry is queued twice. */
  lemma QueuedOnce(n: int, queue: seq<Info>, calls: seq<Call>, dropped: multiset<int>, i: int, j: int)
    requires Conserved(n, queue, calls, dropped) && 0 <= i < j < |queue|
    ensures queue[i].serial != queue[j].serial
  {
    hide Serials, Called;
    var rest := Without(queue, i);
    SerialsSplit(queue, i);
    assert rest[j - 1] == queue[j];
    SerialsSplit(rest, j - 1);
    var both := multiset{queue[i].serial} + multiset{queue[j].serial};
    assert Serials(queue) == Serials(Without(rest, j - 1)) + both;
    assert UpTo(n)[queue[i].serial] <= 1;
  }

  /** While the counter has not wrapped, at most one entry with an id of its own awaits a given id. */
  lemma AwaitsOne(all: seq<Info>, picked: int, waiting: seq<Info>, queue: seq<Info>,
                  calls: seq<Call>, dropped: multiset<int>, hop: int, id: int, i: int, j: int)
    requires Queued(all, picked, waiting, queue) && Conserved(|all|, queue, calls, dropped) && Ascending(all, hop)
    requires Awaits(queue, i, id) && GetsId(queue[i].flags)
    requires Awaits(queue, j, id) && GetsId(queue[j].flags)
    ensures i == j
  {
    hide Conserved;
    QueuedRuns(all, picked, waiting, queue);
    assert Waits(all, picked, waiting[i]) && Waits(all, picked, waiting[j]);
    if i < j {
      QueuedOnce(|all|, queue, calls, dropped, i, j);
    } else if j < i {
      QueuedOnce(|all|, queue, calls, dropped, j, i);
    }
  }

  // ---------- bytes ----------

  ghost function Payloads(all: seq<Info>): (ps: seq<Bytes>)
    ensures |ps| == |all| && forall i :: 0 <= i < |all| ==> ps[i] == all[i].packet
  {
    seq(|all|, i requires 0 <= i < |all| => all[i].packet)
  }

  lemma PayloadsPush(all: seq<Info>, k: int)
    requires 0 <= k < |all|
    ensures Concat(Payloads(all[..k + 1])) == Concat(Payloads(all[..k])) + all[k].packet
  {
    assert Payloads(all[..k + 1]) == Payloads(all[..k]) + [all[k].packet];
    ConcatPush(Payloads(all[..k]), all[k].packet);
  }

  lemma PayloadsPrefix(all: seq<Info>, k: int, s: Bytes)
    requires 0 <= k <= |all| && s <= Concat(Payloads(all[..k]))
    ensures s <= Concat(Payloads(all))
  {
    assert Payloads(all) == Payloads(all[..k]) + Payloads(all[k..]);
    ConcatAppend(Payloads(all[..k]), Payloads(all[k..]));
  }

  // ---------- the connection ----------

  /** What write() returns: so many bytes (at most those offered), EAGAIN, EINTR or an error. */
  datatype WriteResult = Wrote(n: nat) | WriteAgain | WriteInterrupted | WriteError

  /** What recv() and read() return: so many bytes (at most those asked for and there), EWOULDBLOCK, EINTR, an error
      or the end. */
  datatype ReadResult = Got(n: nat) | ReadBlock | ReadInterrupted | ReadError | ReadEnd

  /** What is left of the packet being written. */
  ghost function Rest(out: Option<Bytes>, pos: int): Bytes
    requires out.Some? ==> 0 <= pos <= |out.value|
  {
    if out.Some? then out.value[pos..] else []
  }

  /** Bytes written, and those of the packet in hand, are the packets picked up so far. */
  ghost predicate Writing(all: seq<Info>, picked: int, sent: Bytes, out: Option<Bytes>, pos: int, left: int) {
    && 0 <= picked <= |all|
    && (out.Some? ==> 0 <= pos <= |out.value| && pos + left == |out.value|)
    && sent + Rest(out, pos) == Concat(Payloads(all[..picked]))
  }

  /** Bytes read are the packets delivered and the part of one in hand, whose header announced `left` more. */
  ghost predicate Reading(delivered: seq<Bytes>, data: Bytes, left: int, inbox: Bytes) {
    && (forall i :: 0 <= i < |delivered| ==> Proper(delivered[i]))
    && Framed(data + inbox)
    && left >= 0
    && (left == 0 ==> data == [])
    && (left > 0 ==> |data + inbox| >= HEADER && PacketLength(data + inbox) == |data| + left)
  }

  /** Every answer carries the id of the entry it was taken for, which awaited one. */
  ghost predicate Matched(all: seq<Info>, calls: seq<Call>) {
    forall c :: 0 <= c < |calls| && calls[c].Answered? ==>
      && 0 <= calls[c].serial < |all| && !Drops(all[calls[c].serial].flags)
      && Proper(calls[c].reply) && HopOf(calls[c].reply) == all[calls[c].serial].hopid
  }

  ghost predicate OnlyDropping(all: seq<Info>, dropped: multiset<int>) {
    forall s :: s in dropped ==> 0 <= s < |all| && Drops(all[s].flags)
  }

  /** The packets delivered are exactly the whole packets among the bytes read. */
  lemma DeliveredWhole(delivered: seq<Bytes>, data: Bytes, left: int, inbox: Bytes)
    requires Reading(delivered, data, left, inbox)
    ensures Framed(Concat(delivered) + data) && Packets(Concat(delivered) + data) == delivered
  {
    hide PacketLength;
    FramedPrefix(data, inbox);
    if |data| >= HEADER { LengthPrefix(data, inbox); }
    PacketsOf(delivered, data);
  }

  /** Reading on: `k` more bytes come over from the inbox. */
  lemma ReadOn(data: Bytes, left: int, inbox: Bytes, k: int)
    requires |data + inbox| >= HEADER && PacketLength(data + inbox) == |data| + left && Framed(data + inbox)
    requires 0 <= k <= left && k <= |inbox|
    ensures var d, i := data + inbox[..k], inbox[k..];
      |d + i| >= HEADER && PacketLength(d + i) == |d| + left - k && Framed(d + i)
  {
    assert data + inbox[..k] + inbox[k..] == data + inbox;
  }

  /** With nothing missing the packet is whole, and the next one starts behind it. */
  lemma ReadWhole(data: Bytes, inbox: Bytes)
    requires |data + inbox| >= HEADER && PacketLength(data + inbox) == |data| && Framed(data + inbox)
    ensures Proper(data) && Framed(inbox)
  {
    assert |data| >= HEADER;
    LengthPrefix(data, inbox);
    assert (data + inbox)[|data|..] == inbox;
  }

  lemma ReadDelivered(delivered: seq<Bytes>, data: Bytes, inbox: Bytes)
    requires Proper(data) && Framed(inbox) && forall i :: 0 <= i < |delivered| ==> Proper(delivered[i])
    ensures Reading(delivered + [data], [], 0, inbox)
    ensures Concat(delivered + [data]) + [] == Concat(delivered) + data
  {
    ConcatPush(delivered, data);
    assert [] + inbox == inbox;
  }

  // ---------- what the results of the calls amount to ----------

  datatype WriteEnd = Written | Blocked | Broken

  /** How many bytes are written, and how it ends. */
  datatype Writes = Writes(taken: int, end: WriteEnd)

  /** With `left` bytes of a packet in hand and these entries to follow: each write() takes what is left of a packet at
      most, and the first that blocks or fails is the last. */
  ghost function WritesOf(script: seq<WriteResult>, left: int, next: seq<Info>): Writes
    decreases |script|, |next|
  {
    if left <= 0 then
      if next == [] then Writes(0, Written) else WritesOf(script, |next[0].packet|, next[1..])
    else if script == [] then Writes(0, Blocked)
    else match script[0]
      case WriteAgain => Writes(0, Blocked)
      case WriteError => Writes(0, Broken)
      case WriteInterrupted => WritesOf(script[1..], left, next)
      case Wrote(n) =>
        var r := WritesOf(script[1..], left - Min(n, left), next);
        r.(taken := r.taken + Min(n, left))
  }

  datatype ReadEnd = GoOn | Wait | Lost

  /** How many bytes are read, what is then missing of a packet, how many results were used, and how it ends. */
  datatype Reads = Reads(taken: int, missing: int, used: int, end: ReadEnd)

  /** With `missing` bytes of a packet to come, or a header to be looked at if there are none. */
  ghost function ReadsOf(script: seq<ReadResult>, missing: int, inbox: Bytes): Reads
    decreases |script|
  {
    if script == [] then Reads(0, missing, 0, Wait)
    else match script[0]
      case ReadError => Reads(0, missing, 1, Lost)
      case ReadEnd => Reads(0, missing, 1, Lost)
      case ReadBlock => Reads(0, missing, 1, Wait)
      case ReadInterrupted => Plus(0, 1, ReadsOf(script[1..], missing, inbox))
      case Got(n) =>
        if missing == 0 then
          if n < HEADER || |inbox| < HEADER then Reads(0, missing, 1, Wait)
          else Plus(0, 1, ReadsOf(script[1..], PacketLength(inbox), inbox))
        else
          var k := Min(n, Min(missing, |inbox|));
          if k <= 0 then Reads(0, missing, 1, Wait)
          else Plus(k, 1, ReadsOf(script[1..], missing - k, inbox[k..]))
  }

  ghost function Plus(taken: int, used: int, r: Reads): Reads {
    r.(taken := taken + r.taken, used := used + r.used)
  }

  /** Every call of recv() and read() hands over all that is asked for and there. */
  ghost predicate Eager(script: seq<ReadResult>, n: int) {
    forall i :: 0 <= i < |script| ==> script[i].Got? && script[i].n >= HEADER && script[i].n >= n
  }

  /** Then no whole packet is left over, if the calls do not run out. */
  lemma {:induction false} EagerReads(script: seq<ReadResult>, missing: int, inbox: Bytes, n: int)
    requires missing >= 0 && Eager(script, n) && n >= |inbox|
    requires |inbox| <= missing || Framed(inbox[missing..])
    requires |script| > 2 * |inbox| + if missing == 0 then 1 else 0
    ensures var r := ReadsOf(script, missing, inbox);
      && r.end == Wait && 0 <= r.taken <= |inbox|
      && (r.missing == 0 ==> |inbox| - r.taken < HEADER) && (r.missing != 0 ==> r.taken == |inbox|)
    decreases |script|
  {
    hide PacketLength;
    if missing == 0 {
      if |inbox| >= HEADER { assert inbox[0..] == inbox; EagerReads(script[1..], PacketLength(inbox), inbox, n); }
    } else if |inbox| > 0 {
      var k := Min(missing, |inbox|);
      if k < |inbox| { assert inbox[k..][missing - k..] == inbox[missing..]; }
      EagerReads(script[1..], missing - k, inbox[k..], n);
    }
  }

  /** Every write() takes all that is offered of a packet of up to `n` bytes. */
  ghost predicate Taking(script: seq<WriteResult>, n: int) {
    forall i :: 0 <= i < |script| ==> script[i].Wrote? && script[i].n >= n
  }

  /** Then everything is written, one packet a call. */
  lemma {:induction false} TakingWrites(script: seq<WriteResult>, left: int, next: seq<Info>, n: int)
    requires 0 <= left <= n && (forall i :: 0 <= i < |next| ==> |next[i].packet| <= n)
    requires Taking(script, n) && |script| >= |next| + if left > 0 then 1 else 0
    ensures WritesOf(script, left, next) == Writes(left + |Concat(Payloads(next))|, Written)
    decreases |next|, left
  {
    hide Concat;
    if left > 0 {
      assert script[0].Wrote? && Min(script[0].n, left) == left;
      TakingWrites(script[1..], 0, next, n);
    } else if next == [] {
      assert Payloads(next) == [];
      ConcatNone();
    } else {
      var p := next[0].packet;
      assert Payloads(next) == [p] + Payloads(next[1..]);
      ConcatFirst(Payloads(next));
      if |p| == 0 { TakingWrites(script, 0, next[1..], n); } else {
        TakingWrites(script[1..], 0, next[1..], n);
        assert WritesOf(script, |p|, next[1..]).taken == |p| + WritesOf(script[1..], 0, next[1..]).taken;
      }
    }
  }

  /** Entries that leave the queue when they are written, and those that stay to wait for a reply. */
  ghost function Kept(entries: seq<Info>): seq<Info> {
    if entries == [] then []
    else
      var x := entries[|entries| - 1];
      Kept(entries[..|entries| - 1]) + if Drops(x.flags) then [] else [x.(status := ShallRead)]
  }

  // ---------- steps of the queue ----------

  /** Everything about the sending side, while the connection is open. */
  ghost predicate Sending(all: seq<Info>, picked: int, waiting: seq<Info>, queue: seq<Info>, calls: seq<Call>,
    dropped: multiset<int>) {
    && Queued(all, picked, waiting, queue)
    && Conserved(|all|, queue, calls, dropped) && OnlyDropping(all, dropped) && Matched(all, calls)
  }

  lemma EnqueueStep(all: seq<Info>, picked: int, waiting: seq<Info>, queue: seq<Info>, calls: seq<Call>,
    dropped: multiset<int>, x: Info)
    requires Sending(all, picked, waiting, queue, calls, dropped)
    requires x.serial == |all| && x.status == ShallWrite && Proper(x.packet) && HopOf(x.packet) == x.hopid
    ensures Sending(all + [x], picked, waiting, queue + [x], calls, dropped)
  {
    hide Serials, Called, Proper, HopOf;
    QueuedPush(all, picked, waiting, queue, x);
    SerialsAppend(queue, [x]);
    SerialsOne(x);
    assert UpTo(|all| + 1) == UpTo(|all|) + multiset{|all|};
  }

  lemma PickStep(all: seq<Info>, picked: int, waiting: seq<Info>, queue: seq<Info>, calls: seq<Call>,
    dropped: multiset<int>)
    requires Sending(all, picked, waiting, queue, calls, dropped) && picked < |all|
    ensures |waiting| < |queue|
    ensures Drops(all[picked].flags) ==>
      Sending(all, picked + 1, waiting, Without(queue, |waiting|), calls, dropped + multiset{picked})
    ensures !Drops(all[picked].flags) ==>
      var x := all[picked].(status := ShallRead);
      Sending(all, picked + 1, waiting + [x], queue[|waiting| := x], calls, dropped)
  {
    hide Serials, Called, Proper, HopOf, Matched;
    QueuedPick(all, picked, waiting, queue);
    SerialsSplit(queue, |waiting|);
    SerialsUpdate(queue, |waiting|, all[picked].(status := ShallRead));
  }

  lemma AnswerStep(all: seq<Info>, picked: int, waiting: seq<Info>, queue: seq<Info>, calls: seq<Call>,
    dropped: multiset<int>, i: int, reply: Bytes)
    requires Sending(all, picked, waiting, queue, calls, dropped) && 0 <= i < |waiting|
    requires Proper(reply) && HopOf(reply) == waiting[i].hopid
    ensures i < |queue| && queue[i] == waiting[i]
    ensures Sending(all, picked, Without(waiting, i), Without(queue, i), calls + [Answered(queue[i].serial, reply)],
      dropped)
  {
    hide Serials, Called, Proper, HopOf;
    QueuedAnswer(all, picked, waiting, queue, i);
    SerialsSplit(queue, i);
    CalledPush(calls, Answered(queue[i].serial, reply));
    assert Waits(all, picked, waiting[i]);
  }

  /** dm_free_requests takes the first entry. */
  lemma FailStep(n: int, queue: seq<Info>, calls: seq<Call>, dropped: multiset<int>, event: Event)
    requires Conserved(n, queue, calls, dropped) && queue != []
    ensures Conserved(n, queue[1..], calls + [Failed(queue[0].serial, event)], dropped)
  {
    hide Serials, Called;
    SerialsSplit(queue, 0);
    assert Without(queue, 0) == queue[1..];
    CalledPush(calls, Failed(queue[0].serial, event));
  }

  /** At the end of a connection the callback of every entry was called once, unless the entry was dropped on
      writing. */
  lemma CalledOnce(all: seq<Info>, calls: seq<Call>, dropped: multiset<int>, s: int)
    requires Conserved(|all|, [], calls, dropped) && OnlyDropping(all, dropped) && 0 <= s < |all|
    ensures Called(calls)[s] <= 1
    ensures !Drops(all[s].flags) ==> Called(calls)[s] == 1
    ensures Called(calls)[s] == 0 <==> s in dropped
  {
    hide Called;
    assert (Called(calls) + dropped)[s] == UpTo(|all|)[s] == 1;
  }

  /** In any state no callback was called twice, and none of a queued entry. */
  lemma CalledAtMostOnce(n: int, queue: seq<Info>, calls: seq<Call>, dropped: multiset<int>, s: int)
    requires Conserved(n, queue, calls, dropped)
    ensures Called(calls)[s] <= 1
    ensures forall i :: 0 <= i < |queue| ==> Called(calls)[queue[i].serial] == 0
  {
    hide Called, Serials;
    assert (Serials(queue) + Called(calls) + dropped)[s] == UpTo(n)[s] <= 1;
    forall i | 0 <= i < |queue| ensures Called(calls)[queue[i].serial] == 0 {
      SerialsSplit(queue, i);
      var t := queue[i].serial;
      assert (Serials(queue) + Called(calls) + dropped)[t] == UpTo(n)[t] <= 1;
    }
  }
}
