/** Packets in a byte stream: how a receiver that knows only the headers cuts the stream up again. */
module PacketStream {
  import opened Basics
  import opened AvpFormat
  import AvpMessage

  type Bytes = seq<Byte>

  /** dm_packet_flags & CMD_FLAG_REQUEST */
  function IsRequest(h: Bytes): bool
    requires |h| >= HEADER
  {
    h[4] >= 128
  }

  /** dm_hop2hop_id */
  function HopOf(h: Bytes): int
    requires |h| >= HEADER
  {
    N32(h[12..16])
  }

  /** dm_end2end_id */
  function EndOf(h: Bytes): int
    requires |h| >= HEADER
  {
    N32(h[16..20])
  }

  /** The packet with both of its ids overwritten. */
  function Numbered(p: Bytes, hop: int, end: int): (r: Bytes)
    requires |p| >= HEADER
    ensures |r| == |p|
  {
    p[..12] + U32(hop) + U32(end) + p[20..]
  }

  lemma NumberedHead(p: Bytes, hop: int, end: int)
    requires |p| >= HEADER && 0 <= hop < 0x1_0000_0000 && 0 <= end < 0x1_0000_0000
    ensures HopOf(Numbered(p, hop, end)) == hop && EndOf(Numbered(p, hop, end)) == end
    ensures Numbered(p, hop, end)[..12] == p[..12]
    ensures PacketLength(Numbered(p, hop, end)) == PacketLength(p)
    ensures IsRequest(Numbered(p, hop, end)) == IsRequest(p)
    ensures Numbered(p, hop, end)[HEADER..] == p[HEADER..]
  {
    hide N24, N32, U32;
    RoundTrip32(hop);
    RoundTrip32(end);
    var r := Numbered(p, hop, end);
    assert r[12..16] == U32(hop) && r[16..20] == U32(end);
    assert r[1..4] == p[1..4];
  }

  /** A packet as dm_finalize_packet leaves it. */
  predicate Proper(p: Bytes) {
    |p| >= HEADER && PacketLength(p) == |p|
  }

  /** A packet that dm_finalize_packet has written its length into is one, while that fits its 24 bits. */
  lemma FinalizedProper(header: Bytes, body: Bytes)
    requires |header| == HEADER && HEADER + |body| < 0x100_0000
    ensures Proper(AvpMessage.Finished(header, body))
  {
    hide PacketLength, AvpMessage.Finished;
    AvpMessage.FinishedLength(header, body);
  }

  function Concat(ps: seq<Bytes>): Bytes {
    if ps == [] then [] else ps[0] + Concat(ps[1..])
  }

  lemma {:induction false} ConcatAppend(ps: seq<Bytes>, qs: seq<Bytes>)
    ensures Concat(ps + qs) == Concat(ps) + Concat(qs)
  {
    hide Concat;
    if ps == [] {
      assert ps + qs == qs;
      ConcatNone();
      assert [] + Concat(qs) == Concat(qs);
    } else {
      ConcatAppend(ps[1..], qs);
      assert (ps + qs)[1..] == ps[1..] + qs && (ps + qs)[0] == ps[0];
      ConcatFirst(ps);
      ConcatFirst(ps + qs);
      assert ps[0] + (Concat(ps[1..]) + Concat(qs)) == ps[0] + Concat(ps[1..]) + Concat(qs);
    }
  }

  lemma ConcatNone()
    ensures Concat([]) == []
  {}

  lemma ConcatFirst(ps: seq<Bytes>)
    requires ps != []
    ensures Concat(ps) == ps[0] + Concat(ps[1..])
  {}

  lemma ConcatPush(ps: seq<Bytes>, p: Bytes)
    ensures Concat(ps + [p]) == Concat(ps) + p
  {
    ConcatAppend(ps, [p]);
    assert Concat([p]) == p;
  }

  /** A stream in which every header met announces at least the header itself. */
  ghost predicate Framed(s: Bytes)
    decreases |s|
  {
    |s| < HEADER || (PacketLength(s) >= HEADER && (|s| < PacketLength(s) || Framed(s[PacketLength(s)..])))
  }

  /** The whole packets of a framed stream, first to last. */
  ghost function Packets(s: Bytes): seq<Bytes>
    requires Framed(s)
    decreases |s|
  {
    if |s| < HEADER || |s| < PacketLength(s) then []
    else [s[..PacketLength(s)]] + Packets(s[PacketLength(s)..])
  }

  /** The beginning of a packet of which more is to come. */
  ghost predicate Partial(s: Bytes) {
    |s| < HEADER || |s| < PacketLength(s)
  }

  lemma LengthPrefix(s: Bytes, t: Bytes)
    requires |s| >= HEADER
    ensures PacketLength(s + t) == PacketLength(s)
  {
    assert (s + t)[1..4] == s[1..4];
  }

  /** What follows whole packets decides whether the stream is framed. */
  lemma {:induction false} FramedAfter(ps: seq<Bytes>, rest: Bytes)
    requires forall i :: 0 <= i < |ps| ==> Proper(ps[i])
    ensures Framed(Concat(ps) + rest) <==> Framed(rest)
  {
    hide PacketLength;
    if ps == [] {
      assert Concat(ps) + rest == rest;
    } else {
      var s := Concat(ps) + rest;
      var t := Concat(ps[1..]) + rest;
      assert s == ps[0] + t;
      LengthPrefix(ps[0], t);
      assert s[|ps[0]|..] == t;
      FramedAfter(ps[1..], rest);
    }
  }

  /** Cutting the stream at the headers gives back the packets that were put together. */
  lemma {:induction false} PacketsOf(ps: seq<Bytes>, rest: Bytes)
    requires forall i :: 0 <= i < |ps| ==> Proper(ps[i])
    requires Partial(rest) && Framed(rest)
    ensures Framed(Concat(ps) + rest)
    ensures Packets(Concat(ps) + rest) == ps
  {
    hide PacketLength;
    FramedAfter(ps, rest);
    if ps == [] {
      assert Concat(ps) + rest == rest;
    } else {
      var s := Concat(ps) + rest;
      var t := Concat(ps[1..]) + rest;
      assert s == ps[0] + t;
      LengthPrefix(ps[0], t);
      assert s[|ps[0]|..] == t && s[..|ps[0]|] == ps[0];
      PacketsOf(ps[1..], rest);
    }
  }

  /** A prefix of packets put together consists of some of them and a partial one. */
  lemma {:induction false} PrefixCut(ps: seq<Bytes>, s: Bytes) returns (n: nat, rest: Bytes)
    requires forall i :: 0 <= i < |ps| ==> Proper(ps[i])
    requires s <= Concat(ps)
    ensures n <= |ps| && s == Concat(ps[..n]) + rest && Partial(rest) && Framed(rest)
  {
    hide PacketLength;
    if ps == [] || |s| < |ps[0]| {
      n, rest := 0, s;
      assert ps[..0] == [];
      if |s| >= HEADER {
        assert s + ps[0][|s|..] == ps[0];
        LengthPrefix(s, ps[0][|s|..]);
      }
    } else {
      assert s == ps[0] + s[|ps[0]|..];
      assert Concat(ps)[|ps[0]|..] == Concat(ps[1..]);
      var k, r := PrefixCut(ps[1..], s[|ps[0]|..]);
      n, rest := k + 1, r;
      assert ps[..n][1..] == ps[1..][..k];
    }
  }

  /** Delivery in order: from any prefix of what was sent, the receiver gets a prefix of the packets. */
  lemma DeliveredInOrder(ps: seq<Bytes>, s: Bytes)
    requires forall i :: 0 <= i < |ps| ==> Proper(ps[i])
    requires s <= Concat(ps)
    ensures Framed(s) && Packets(s) <= ps
    ensures s == Concat(ps) ==> Packets(s) == ps
  {
    var n, rest := PrefixCut(ps, s);
    PacketsOf(ps[..n], rest);
    if s == Concat(ps) {
      PacketsOf(ps, []);
      assert s + [] == s;
    }
  }

  lemma {:induction false} FramedPrefix(s: Bytes, t: Bytes)
    requires Framed(s + t)
    ensures Framed(s)
    decreases |s|
  {
    hide PacketLength;
    if |s| >= HEADER {
      LengthPrefix(s, t);
      var n := PacketLength(s);
      if |s| >= n {
        assert (s + t)[n..] == s[n..] + t;
        FramedPrefix(s[n..], t);
      }
    }
  }

  // ---------- headers that announce less than themselves ----------

  /** What one round of readEvent leaves of a stream, with all the bytes there: as many are taken as the header says. */
  function AfterRound(s: Bytes): Bytes
    requires |s| >= HEADER && |s| >= PacketLength(s) >= 0
  {
    s[PacketLength(s)..]
  }

  lemma LengthNotNegative(s: Bytes)
    requires |s| >= HEADER
    ensures PacketLength(s) >= 0
  {}

  /** A round takes nothing, so that the next one finds the same header, exactly if that says 0. */
  lemma RoundStuck(s: Bytes)
    requires |s| >= HEADER && |s| >= PacketLength(s) >= 0
    ensures AfterRound(s) == s <==> PacketLength(s) == 0
  {
    hide PacketLength;
    if PacketLength(s) > 0 { assert |AfterRound(s)| < |s|; }
  }

  /** What is left after `n` rounds. */
  ghost function AfterRounds(s: Bytes, n: nat): Option<Bytes>
    decreases n
  {
    if n == 0 then Some(s)
    else if |s| < HEADER || !(|s| >= PacketLength(s) >= 0) then None
    else AfterRounds(AfterRound(s), n - 1)
  }

  lemma {:induction false} StuckForEver(s: Bytes, n: nat)
    requires |s| >= HEADER && PacketLength(s) == 0
    ensures AfterRounds(s, n) == Some(s)
    decreases n
  {
    hide PacketLength;
    if n > 0 {
      RoundStuck(s);
      StuckForEver(s, n - 1);
    }
  }

  lemma {:induction false} RunsOut(s: Bytes, n: nat)
    requires n > |s| && NoEmpty(s)
    ensures AfterRounds(s, n) == None
    decreases |s|
  {
    hide PacketLength;
    if |s| >= HEADER {
      LengthNotNegative(s);
      if |s| >= PacketLength(s) { RunsOut(AfterRound(s), n - 1); }
    }
  }

  /** No header that is met says 0. */
  ghost predicate NoEmpty(s: Bytes)
    decreases |s|
  {
    |s| < HEADER || (PacketLength(s) != 0 && (0 < PacketLength(s) <= |s| ==> NoEmpty(AfterRound(s))))
  }

  /** The rounds come to an end exactly if no header that is met says 0; otherwise readEvent does not return. */
  lemma {:induction false} RoundsEndIff(s: Bytes)
    ensures (exists n: nat :: AfterRounds(s, n) == None) <==> NoEmpty(s)
    decreases |s|
  {
    if NoEmpty(s) {
      RunsOut(s, |s| + 1);
    } else {
      forall n: nat ensures AfterRounds(s, n) != None { NeverOut(s, n); }
    }
  }

  lemma {:induction false} NeverOut(s: Bytes, n: nat)
    requires !NoEmpty(s)
    ensures AfterRounds(s, n) != None
    decreases n
  {
    hide PacketLength;
    LengthNotNegative(s);
    if PacketLength(s) == 0 {
      StuckForEver(s, n);
    } else if n > 0 {
      NeverOut(AfterRound(s), n - 1);
    }
  }

  /** Twenty zero bytes are such a header. */
  lemma ZeroHeader(n: nat)
    ensures AfterRounds(Zeros(HEADER), n) == Some(Zeros(HEADER)) && !Framed(Zeros(HEADER))
  {
    StuckForEver(Zeros(HEADER), n);
  }
}
