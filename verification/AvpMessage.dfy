/** Whole messages: written through the building calls, read back through the decoding calls. */
module AvpMessage {
  import opened Basics
  import opened AvpFormat
  import opened AvpRequest

  // ---------- writing ----------

  function Nest(a: Avp): nat
    decreases a, 0
  {
    if a.Single? then 0 else 1 + NestAll(a.kids)
  }

  /** How many levels of groups a message needs. */
  function NestAll(avps: seq<Avp>): nat
    decreases avps, 1
  {
    if avps == [] then 0
    else
      var a, b := Nest(avps[0]), NestAll(avps[1..]);
      if a > b then a else b
  }

  function AddAll(f: Frame, avps: seq<Avp>): Frame
    decreases |avps|
  {
    if avps == [] then f else AddAll(Add(f, avps[0]), avps[1..])
  }

  lemma {:induction false} AddAllOpen(f: Frame, code: int, vendor: int, had: seq<Avp>, avps: seq<Avp>)
    ensures AddAll(Open(f, code, vendor, had), avps) == Open(f, code, vendor, had + avps)
    decreases |avps|
  {
    if avps == [] {
      assert had + avps == had;
    } else {
      AddAllOpen(f, code, vendor, had + [avps[0]], avps[1..]);
      assert had + [avps[0]] + avps[1..] == had + avps;
    }
  }

  lemma {:induction false} AddAllBottom(had: seq<Avp>, avps: seq<Avp>)
    ensures AddAll(Bottom(had), avps) == Bottom(had + avps)
    decreases |avps|
  {
    if avps == [] {
      assert had + avps == had;
    } else {
      AddAllBottom(had + [avps[0]], avps[1..]);
      assert had + [avps[0]] + avps[1..] == had + avps;
    }
  }

  /** Any tree of AVPs that fits the group stack can be written with dm_new_group, dm_put_avp and dm_finalize_group. */
  method WriteAll(req: Request, avps: seq<Avp>)
    requires req.Valid() && req.level + NestAll(avps) < MAX_LEVEL
    modifies req
    ensures req.Valid() && req.frame == AddAll(old(req.frame), avps)
    ensures req.level == old(req.level) && req.header == old(req.header)
    decreases avps
  {
    hide Holds, Bytes, Tracks;
    if avps != [] {
      var a := avps[0];
      ghost var f := req.frame;
      if a.Single? {
        var rc := req.PutAvp(a.code, a.vendor, Points(a.data), |a.data|);
        assert a.data[..|a.data|] == a.data;
      } else {
        var rc := req.NewGroup(a.code, a.vendor);
        WriteAll(req, a.kids);
        AddAllOpen(f, a.code, a.vendor, [], a.kids);
        assert [] + a.kids == a.kids;
        rc := req.FinalizeGroup();
      }
      AddLevel(f, a);
      WriteAll(req, avps[1..]);
    }
  }

  lemma AddLevel(f: Frame, a: Avp)
    ensures Depth(Add(f, a)) == Depth(f)
  {}

  // ---------- reading ----------

  /** A decoding cursor: a group of `size` bytes at offset `base` of the memory, read up to `pos`.
      Nothing is known of what lies beyond the memory. */
  class AvpGroup {
    const mem: seq<Byte>
    const beyond: int -> Byte
    const base: int
    const size: int
    var pos: int

    /** dm_init_avpgrp */
    constructor (mem: seq<Byte>, beyond: int -> Byte, base: int, size: int)
      ensures this.mem == mem && this.beyond == beyond && this.base == base && this.size == size && pos == 0
    {
      this.mem, this.beyond, this.base, this.size, pos := mem, beyond, base, size, 0;
    }

    /** dm_expect_avp */
    method ExpectAvp() returns (rc: Rc, code: int, vendor: int, off: int, len: int)
      requires Readable(mem, base, size, pos)
      modifies this`pos
      ensures Parsed(rc, code, vendor, off, len, pos) == Parse(mem, base, size, old(pos))
    {
      hide Parse, Fetch, Fetch3, Fetch4, N24, N32;
      ForeignBytes(mem, beyond, base, size, pos);
      code, vendor, off, len := 0, 0, 0, 0;
      if pos >= size {
        return AvpEnd, code, vendor, off, len;
      }
      var avp := base + pos;
      var flags := Fetch(mem, beyond, avp + 4);
      var avpLen := N24(Fetch3(mem, beyond, avp + 5));
      var padded := Pad32(avpLen);
      if avpLen < 8 || (flags >= 128 && avpLen < 12) || pos + padded > size {
        return InvalidLength, code, vendor, off, len;
      }
      pos := pos + padded;
      code := N32(Fetch4(mem, beyond, avp));
      len := avpLen - 8;
      off := avp + 8;
      if flags >= 128 {
        vendor := N32(Fetch4(mem, beyond, avp + 8));
        len := len - 4;
        off := off + 4;
      }
      return Ok, code, vendor, off, len;
    }

    /** dm_expect_raw: the AVP has been consumed even if it is not the one expected. */
    method ExpectRaw(expCode: int, expVendor: int) returns (rc: Rc, off: int, len: int)
      requires Readable(mem, base, size, pos)
      modifies this`pos
      ensures var p := Parse(mem, base, size, old(pos));
              && pos == p.next
              && rc == (if p.rc == Ok && p.code == expCode && p.vendor == expVendor then Ok else Misc)
              && (rc == Ok ==> off == p.off && len == p.len)
    {
      var r, code, vendor;
      r, code, vendor, off, len := ExpectAvp();
      if r != Ok || code != expCode || vendor != expVendor {
        return Misc, off, len;
      }
      return Ok, off, len;
    }

    /** dm_expect_group */
    method ExpectGroup(expCode: int, expVendor: int) returns (rc: Rc, obj: AvpGroup?)
      requires Readable(mem, base, size, pos)
      modifies this`pos
      ensures var p := Parse(mem, base, size, old(pos));
              && pos == p.next
              && rc == (if p.rc == Ok && p.code == expCode && p.vendor == expVendor then Ok else Misc)
              && (rc == Ok ==>
                obj != null && fresh(obj) && obj.mem == mem && obj.base == p.off && obj.size == p.len && obj.pos == 0)
              && (rc != Ok ==> obj == null)
    {
      var off, len;
      rc, off, len := ExpectRaw(expCode, expVendor);
      if rc != Ok {
        return rc, null;
      }
      obj := new AvpGroup(mem, beyond, off, len);
    }

    /** dm_expect_group_end */
    method ExpectGroupEnd() returns (rc: Rc)
      ensures rc == if pos == size then Ok else Misformed
    {
      return if pos == size then Ok else Misformed;
    }
  }

  /** Reading back with a receiver that knows where the groups are: it gets the message that was written, to its end. */
  method ReadAll(g: AvpGroup, shape: seq<Avp>, ghost avps: seq<Avp>) returns (out: seq<Avp>, rc: Rc)
    requires Decodes(g.mem, g.base, g.size, g.pos, avps) && SameShape(shape, avps)
    requires SameHeads(shape, avps)
    modifies g
    ensures out == avps && rc == Ok
    decreases shape
  {
    hide Parse;
    if shape == [] {
      rc := g.ExpectGroupEnd();
      return [], rc;
    }
    PayloadInside(g.mem, g.base, g.size, g.pos);
    var first: Avp;
    if shape[0].Single? {
      var off, len;
      rc, off, len := g.ExpectRaw(shape[0].code, shape[0].vendor);
      first := Single(shape[0].code, shape[0].vendor, g.mem[off..off + len]);
    } else {
      var obj, kids;
      rc, obj := g.ExpectGroup(shape[0].code, shape[0].vendor);
      kids, rc := ReadAll(obj, shape[0].kids, avps[0].kids);
      first := Group(shape[0].code, shape[0].vendor, kids);
    }
    assert first == avps[0];
    out, rc := ReadAll(g, shape[1..], avps[1..]);
    out := [first] + out;
    assert avps == [avps[0]] + avps[1..];
  }

  ghost predicate SameHeads(a: seq<Avp>, b: seq<Avp>)
    decreases a
  {
    |a| == |b| &&
    (a != [] ==>
       && a[0].code == b[0].code && a[0].vendor == b[0].vendor
       && (a[0].Group? && b[0].Group? ==> SameHeads(a[0].kids, b[0].kids)) && SameHeads(a[1..], b[1..]))
  }

  // ---------- from one end to the other ----------

  /** A packet as dm_finalize_packet leaves it. */
  function Finished(header: seq<Byte>, body: seq<Byte>): (packet: seq<Byte>)
    requires |header| == HEADER
    ensures |packet| == HEADER + |body|
  {
    Store(header, 1, U24(HEADER + |body|)) + body
  }

  /** How many values size_t has. */
  const SIZE_T := 0x1_0000_0000_0000_0000

  /** dm_init_packet: the size of the payload is taken from the header, and wraps if the header says less than its own
      size. */
  function PayloadSize(packet: seq<Byte>): int
    requires |packet| >= HEADER
  {
    (PacketLength(packet) - HEADER) % SIZE_T
  }

  lemma FinishedLength(header: seq<Byte>, body: seq<Byte>)
    requires |header| == HEADER
    ensures PacketLength(Finished(header, body)) == (HEADER + |body|) % 0x100_0000
  {
    hide U24, N24;
    RoundTrip24(HEADER + |body|);
    assert Finished(header, body)[1..4] == U24(HEADER + |body|);
  }

  /** The size read from the header is that of the body exactly if the whole packet fits 24 bits. */
  lemma FinishedSize(header: seq<Byte>, body: seq<Byte>)
    requires |header| == HEADER && HEADER + |body| < SIZE_T
    ensures PayloadSize(Finished(header, body)) == |body| <==> HEADER + |body| < 0x100_0000
  {
    hide PacketLength, Finished;
    FinishedLength(header, body);
  }

  /** A group that decodes to given AVPs has the size that they take. */
  lemma {:induction false} DecodesSize(mem: seq<Byte>, base: int, size: int, size': int, pos: int, avps: seq<Avp>)
    requires Decodes(mem, base, size, pos, avps) && Decodes(mem, base, size', pos, avps)
    ensures size == size'
    decreases avps
  {
    if avps != [] {
      SameNext(mem, base, size, size', pos);
      DecodesSize(mem, base, size, size', Parse(mem, base, size, pos).next, avps[1..]);
    }
  }

  lemma SameNext(mem: seq<Byte>, base: int, size: int, size': int, pos: int)
    requires Readable(mem, base, size, pos) && Readable(mem, base, size', pos)
    requires Parse(mem, base, size, pos).rc == Ok && Parse(mem, base, size', pos).rc == Ok
    ensures Parse(mem, base, size, pos) == Parse(mem, base, size', pos)
  {
    hide N24, N32;
  }

  /** What was written into a packet is what its receiver decodes, exactly if the whole packet fits its 24-bit
      length. */
  lemma Transmitted(header: seq<Byte>, avps: seq<Avp>)
    requires |header| == HEADER && AllFit(avps) && HEADER + |EncodeAll(avps)| < SIZE_T
    ensures var packet := Finished(header, EncodeAll(avps));
      Decodes(packet, HEADER, PayloadSize(packet), 0, avps) <==> |packet| < 0x100_0000
  {
    hide Decodes, EncodeAll, AllFit, Finished, PayloadSize;
    var body := EncodeAll(avps);
    var packet := Finished(header, body);
    FinishedSize(header, body);
    BodyLies(header, body);
    RoundTrip(packet, HEADER, |body|, 0, avps);
    if Decodes(packet, HEADER, PayloadSize(packet), 0, avps) {
      DecodesSize(packet, HEADER, |body|, PayloadSize(packet), 0, avps);
    }
  }

  lemma BodyLies(header: seq<Byte>, body: seq<Byte>)
    requires |header| == HEADER
    ensures LiesAt(Finished(header, body), HEADER, body)
  {
    hide U24;
  }

  lemma {:induction false} EncodeRepeated(a: Avp, n: nat, size: int)
    requires size == |Encode(a)|
    ensures |EncodeAll(Repeated(a, n))| == n * size
  {
    hide Encode, EncodeAll;
    if n == 0 {
      DecodesNil([], 0, 0);
    } else {
      var s := Repeated(a, n);
      EncodeRepeated(a, n - 1, size);
      assert s[1..] == Repeated(a, n - 1);
      EncodeCons(s);
      assert (n - 1) * size + size == n * size;
    }
  }

  /** A sixteenth of the bytes that 24 bits can count. */
  function BigAvp(): Avp {
    Single(1, 0, Zeros(0x10_0000 - 8))
  }

  /** Sixteen AVPs that fit, in a packet that does not: its header says that it is empty, and that is what is
      decoded. */
  lemma TooLong(header: seq<Byte>)
    requires |header| == HEADER
    ensures var avps := Repeated(BigAvp(), 16);
      var packet := Finished(header, EncodeAll(avps));
      && AllFit(avps) && |packet| == HEADER + 0x100_0000
      && PayloadSize(packet) == 0 && Decodes(packet, HEADER, 0, 0, [])
      && !Decodes(packet, HEADER, PayloadSize(packet), 0, avps)
  {
    hide EncodeAll, Encode, Finished, PacketLength, Decodes, Zeros;
    var avps := Repeated(BigAvp(), 16);
    BigFits();
    EncodeRepeated(BigAvp(), 16, 0x10_0000);
    FinishedLength(header, EncodeAll(avps));
    DecodesNil(Finished(header, EncodeAll(avps)), HEADER, 0);
    Transmitted(header, avps);
  }

  lemma BigFits()
    ensures Fits(BigAvp()) && |Encode(BigAvp())| == 0x10_0000
  {
    hide Head;
  }

  /** The header of a packet says its length, its flags, its command code and whom it is for; section 3 of RFC 6733. */
  ghost predicate Addressed(wire: seq<Byte>, code: int, flags: Byte, appid: int, hopid: int, endid: int) {
    && |wire| >= HEADER && wire[0] == 1 && N24(wire[1..4]) == |wire|
    && wire[4] == flags && N24(wire[5..8]) == code % 0x100_0000 && N32(wire[8..12]) == appid % 0x1_0000_0000
    && N32(wire[12..16]) == hopid % 0x1_0000_0000 && N32(wire[16..20]) == endid % 0x1_0000_0000
  }

  lemma HeaderParts(code: int, flags: Byte, appid: int, hopid: int, endid: int)
    ensures var header := [1] + U24(HEADER) + [flags] + U24(code) + U32(appid) + U32(hopid) + U32(endid);
      && |header| == HEADER && header[0] == 1 && header[4] == flags && header[5..8] == U24(code)
      && header[8..12] == U32(appid) && header[12..16] == U32(hopid) && header[16..20] == U32(endid)
  {
    hide U24, U32;
  }

  lemma FinishedParts(header: seq<Byte>, body: seq<Byte>)
    requires |header| == HEADER
    ensures var wire := Finished(header, body);
      && |wire| == HEADER + |body| && wire[0] == header[0] && wire[1..4] == U24(HEADER + |body|)
      && wire[4] == header[4] && wire[5..8] == header[5..8] && wire[8..12] == header[8..12]
      && wire[12..16] == header[12..16] && wire[16..20] == header[16..20]
  {
    hide U24;
  }

  lemma AddressedSent(code: int, flags: Byte, appid: int, hopid: int, endid: int, body: seq<Byte>)
    ensures var header := [1] + U24(HEADER) + [flags] + U24(code) + U32(appid) + U32(hopid) + U32(endid);
      |header| == HEADER && (HEADER + |body| < 0x100_0000 ==>
        Addressed(Sent(header, body), code, flags, appid, hopid, endid))
  {
    hide U24, U32, N24, N32, Sent, Finished;
    var header := [1] + U24(HEADER) + [flags] + U24(code) + U32(appid) + U32(hopid) + U32(endid);
    if HEADER + |body| < 0x100_0000 {
      RoundTrip24(HEADER + |body|);
      RoundTrip24(code);
      RoundTrip32(appid);
      RoundTrip32(hopid);
      RoundTrip32(endid);
      SentWhole(header, body);
      HeaderParts(code, flags, appid, hopid, endid);
      FinishedParts(header, body);
    }
  }

  /** A message is built, finalised, and written as far as its header says. */
  method Send(code: int, flags: Byte, appid: int, hopid: int, endid: int, avps: seq<Avp>)
    returns (wire: seq<Byte>, ghost header: seq<Byte>)
    requires NestAll(avps) < MAX_LEVEL
    ensures |header| == HEADER && wire == Sent(header, EncodeAll(avps))
    ensures HEADER + |EncodeAll(avps)| < 0x100_0000 ==> Addressed(wire, code, flags, appid, hopid, endid)
  {
    hide Holds, Bytes, Tracks, EncodeAll, NestAll, N24, U24, U32, N32;
    AddressedSent(code, flags, appid, hopid, endid, EncodeAll(avps));
    var req := new Request(code, flags, appid, hopid, endid);
    header := req.header;
    WriteAll(req, avps);
    AddAllBottom([], avps);
    assert [] + avps == avps;
    EndOfBottom(avps);
    var rc := req.FinalizePacket();
    wire := Wire(req, header, EncodeAll(avps));
  }

  /** What is written of a finalised packet: as many bytes as its header says. */
  function Sent(header: seq<Byte>, body: seq<Byte>): seq<Byte>
    requires |header| == HEADER
  {
    Finished(header, body)[..(HEADER + |body|) % 0x100_0000]
  }

  method Wire(req: Request, ghost header: seq<Byte>, ghost body: seq<Byte>) returns (wire: seq<Byte>)
    requires |header| == HEADER && HEADER + |body| <= |req.packet|
      && req.packet[..HEADER + |body|] == Finished(header, body)
    ensures wire == Sent(header, body)
  {
    hide N24, U24;
    ghost var packet := Finished(header, body);
    FinishedLength(header, body);
    assert req.packet[1..4] == packet[1..4];
    wire := req.packet[..PacketLength(req.packet)];
  }

  /** A packet that fits is sent whole; one that does not loses as many bytes as its length loses. */
  lemma SentWhole(header: seq<Byte>, body: seq<Byte>)
    requires |header| == HEADER
    ensures Sent(header, body) == Finished(header, body) <==> HEADER + |body| < 0x100_0000
  {
    hide Finished;
  }

  /** From one end to the other: sent, and read with a cursor over the payload. */
  method Transmit(code: int, flags: Byte, appid: int, hopid: int, endid: int, avps: seq<Avp>, shape: seq<Avp>,
    beyond: int -> Byte)
    returns (out: seq<Avp>, rc: Rc)
    requires NestAll(avps) < MAX_LEVEL && AllFit(avps) && HEADER + |EncodeAll(avps)| < 0x100_0000
    requires SameShape(shape, avps) && SameHeads(shape, avps)
    ensures out == avps && rc == Ok
  {
    hide EncodeAll, AllFit, NestAll, SameShape, SameHeads, Decodes, Finished, Sent, PayloadSize;
    var wire;
    ghost var header;
    wire, header := Send(code, flags, appid, hopid, endid, avps);
    SentWhole(header, EncodeAll(avps));
    Transmitted(header, avps);
    var g := new AvpGroup(wire, beyond, HEADER, PayloadSize(wire));
    out, rc := ReadAll(g, shape, avps);
  }

  lemma EndOfBottom(avps: seq<Avp>)
    ensures End(Bottom(avps)) == HEADER + |EncodeAll(avps)|
  {}
}
