/** Building a packet: a buffer that grows by blocks, and a stack of open groups. */
module AvpRequest {
  import opened Basics
  import opened AvpFormat

  const BLOCK := 2048
  const MAX_LEVEL := 16

  /** What has been written so far: the AVPs of the packet, and for each open group the AVPs in it. */
  datatype Frame =
    | Bottom(kids: seq<Avp>)
    | Open(below: Frame, code: int, vendor: int, kids: seq<Avp>)

  function Depth(f: Frame): nat {
    if f.Bottom? then 0 else 1 + Depth(f.below)
  }

  /** The bytes behind the packet header. The header of an open group still has the length of an empty one. */
  function Bytes(f: Frame): (s: seq<Byte>)
    ensures |s| % 4 == 0
  {
    match f
    case Bottom(kids) => EncodeAll(kids)
    case Open(below, code, vendor, kids) =>
      Aligned(|Bytes(below)|, HeadLen(vendor));
      Aligned(|Bytes(below)| + HeadLen(vendor), |EncodeAll(kids)|);
      Bytes(below) + Head(code, vendor, HeadLen(vendor)) + EncodeAll(kids)
  }

  function End(f: Frame): int {
    HEADER + |Bytes(f)|
  }

  function Add(f: Frame, a: Avp): Frame {
    match f
    case Bottom(kids) => Bottom(kids + [a])
    case Open(below, code, vendor, kids) => Open(below, code, vendor, kids + [a])
  }

  function Close(f: Frame): Frame
    requires f.Open?
  {
    Add(f.below, Group(f.code, f.vendor, f.kids))
  }

  /** The recorded positions of every open level are those of the frame. */
  ghost predicate Tracks(f: Frame, start: seq<int>, pos: seq<int>)
    requires |start| == |pos| == MAX_LEVEL && Depth(f) < MAX_LEVEL
  {
    && pos[Depth(f)] == End(f)
    && (f.Open? ==> start[Depth(f)] == End(f.below) && Tracks(f.below, start, pos))
  }

  lemma EncodeSingle(a: Avp)
    requires a.Single?
    ensures Encode(a) == Wrap(a.code, a.vendor, a.data)
  {
    hide Wrap;
  }

  lemma AddBytes(f: Frame, a: Avp)
    ensures Bytes(Add(f, a)) == Bytes(f) + Encode(a) && Depth(Add(f, a)) == Depth(f)
  {
    EncodeAppend(f.kids, a);
  }

  /** Closing a group writes its length; nothing else changes. */
  lemma CloseBytes(f: Frame)
    requires f.Open?
    ensures var len := HeadLen(f.vendor) + |EncodeAll(f.kids)|;
            Bytes(Close(f)) == Bytes(f.below) + Head(f.code, f.vendor, len) + EncodeAll(f.kids)
    ensures |Bytes(Close(f))| == |Bytes(f)|
  {
    hide Bytes, Head, Add;
    var g := Group(f.code, f.vendor, f.kids);
    AddBytes(f.below, g);
    OpenBytes(f);
    PadExact(HeadLen(f.vendor) + |EncodeAll(f.kids)|);
    assert Encode(g) == Head(f.code, f.vendor, HeadLen(f.vendor) + |EncodeAll(f.kids)|) + EncodeAll(f.kids) by {
      assert Zeros(0) == [];
    }
  }

  lemma {:induction false} TracksBelow(f: Frame, start: seq<int>, pos: seq<int>, start': seq<int>, pos': seq<int>,
    d: int)
    requires |start| == |pos| == |start'| == |pos'| == MAX_LEVEL && Depth(f) < d <= MAX_LEVEL
    requires forall i :: 0 <= i < d ==> start'[i] == start[i] && pos'[i] == pos[i]
    requires Tracks(f, start, pos)
    ensures Tracks(f, start', pos')
    decreases f
  {
    if f.Open? { TracksBelow(f.below, start, pos, start', pos', d); }
  }

  lemma TracksEnd(f: Frame, start: seq<int>, pos: seq<int>)
    requires |start| == |pos| == MAX_LEVEL && Depth(f) < MAX_LEVEL && Tracks(f, start, pos)
    ensures pos[Depth(f)] == HEADER + |Bytes(f)|
  {}

  lemma AddTracks(f: Frame, a: Avp, start: seq<int>, pos: seq<int>, pos': seq<int>)
    requires |start| == |pos| == MAX_LEVEL && Depth(f) < MAX_LEVEL && Tracks(f, start, pos)
    requires pos' == pos[Depth(f) := HEADER + |Bytes(f)| + |Encode(a)|]
    ensures Depth(Add(f, a)) == Depth(f) && Tracks(Add(f, a), start, pos')
  {
    hide Bytes, Encode;
    AddBytes(f, a);
    if f.Open? { TracksBelow(f.below, start, pos, start, pos', Depth(f)); }
  }

  // ---------- memory ----------

  function Store(buf: seq<Byte>, off: int, part: seq<Byte>): (r: seq<Byte>)
    requires 0 <= off && off + |part| <= |buf|
    ensures |r| == |buf|
  {
    buf[..off] + part + buf[off + |part|..]
  }

  ghost predicate ZeroFrom(buf: seq<Byte>, p: int) {
    forall i :: 0 <= i && p <= i < |buf| ==> buf[i] == 0
  }

  /** AVP_FLAG_VENDOR or-ed into a flag byte. */
  function OrVendor(flags: Byte): Byte {
    if flags >= 128 then flags else flags + 128
  }

  /** A store changes the bytes it names, and no slice beside them. */
  lemma Stored(buf: seq<Byte>, off: int, part: seq<Byte>)
    requires 0 <= off && off + |part| <= |buf|
    ensures Store(buf, off, part)[off..off + |part|] == part
    ensures forall a, b :: 0 <= a <= b <= |buf| && (b <= off || off + |part| <= a) ==>
                             Store(buf, off, part)[a..b] == buf[a..b]
  {}

  /** The writes of dm_put_avp into the buffer. */
  function Written(buf: seq<Byte>, p: int, code: int, vendor: int, content: seq<Byte>): (r: seq<Byte>)
    requires 0 <= p && p + 12 + |content| <= |buf|
    ensures |r| == |buf|
  {
    var b0 := Store(buf, p, U32(code));
    var b1 := if vendor != 0 then Store(Store(b0, p + 4, [OrVendor(b0[p + 4])]), p + 8, U32(vendor)) else b0;
    var b2 := Store(b1, p + HeadLen(vendor), content);
    Store(b2, p + 5, U24(HeadLen(vendor) + |content|))
  }

  /** Into zeroed memory they write exactly one encoded AVP: the flag byte and the padding rely on the zeros. */
  lemma WrittenWrap(buf: seq<Byte>, p: int, code: int, vendor: int, content: seq<Byte>)
    requires 0 <= p && p % 4 == 0 && |buf| % 4 == 0 && p + 12 + |content| <= |buf| && ZeroFrom(buf, p)
    ensures var w, r := Wrap(code, vendor, content), Written(buf, p, code, vendor, content);
            p + |w| <= |buf| && r[..p + |w|] == buf[..p] + w && ZeroFrom(r, p + |w|)
  {
    hide Written, Head, ZeroFrom, Pad32, Wrap, HeadLen, Zeros;
    var len, h := HeadLen(vendor) + |content|, HeadLen(vendor);
    PadFits(p, len, |buf|);
    WrittenSlices(buf, p, code, vendor, content);
    WrapIs(code, vendor, content);
    Assemble(Written(buf, p, code, vendor, content), p, p + h, p + len, p + Pad32(len));
  }

  lemma WrittenSlices(buf: seq<Byte>, p: int, code: int, vendor: int, content: seq<Byte>)
    requires 0 <= p && p + 12 + |content| <= |buf| && ZeroFrom(buf, p)
      && p + Pad32(HeadLen(vendor) + |content|) <= |buf|
    ensures var len, h, r := HeadLen(vendor) + |content|, HeadLen(vendor), Written(buf, p, code, vendor, content);
      && r[0..p] == buf[..p] && r[p..p + h] == Head(code, vendor, len) && r[p + h..p + len] == content
      && r[p + len..p + Pad32(len)] == Zeros(Pad32(len) - len) && ZeroFrom(r, p + Pad32(len))
  {
    hide U32, U24, Written, Store, Head, ZeroFrom, Pad32, HeadLen, Zeros;
    var len := HeadLen(vendor) + |content|;
    var r := Written(buf, p, code, vendor, content);
    WrittenParts(buf, p, code, vendor, content);
    HeadJoin(r, p, code, vendor, len);
    ZeroTail(buf, r, p, p + len);
    ZeroSlice(r, p + len, p + Pad32(len));
    assert buf[..p] == buf[0..p];
  }

  lemma Assemble(r: seq<Byte>, a: int, b: int, c: int, d: int)
    requires 0 <= a <= b <= c <= d <= |r|
    ensures r[..d] == r[0..a] + (r[a..b] + r[b..c] + r[c..d])
  {
    Join(r, a, b, c);
    Join(r, a, c, d);
    Join(r, 0, a, d);
    assert r[..d] == r[0..d];
  }

  lemma WrapIs(code: int, vendor: int, content: seq<Byte>)
    ensures var len := HeadLen(vendor) + |content|;
      Wrap(code, vendor, content) == Head(code, vendor, len) + content + Zeros(Pad32(len) - len)
  {}

  lemma PadFits(p: int, len: int, size: int)
    requires p % 4 == 0 && size % 4 == 0 && p + len <= size
    ensures p + Pad32(len) <= size
  {}

  lemma HeadJoin(r: seq<Byte>, p: int, code: int, vendor: int, len: int)
    requires 0 <= p && p + HeadLen(vendor) <= |r|
    requires r[p..p + 4] == U32(code) && r[p + 4..p + 5] == [if vendor != 0 then 128 else 0]
      && r[p + 5..p + 8] == U24(len)
    requires r[p + 8..p + HeadLen(vendor)] == if vendor != 0 then U32(vendor) else []
    ensures r[p..p + HeadLen(vendor)] == Head(code, vendor, len)
  {
    hide U32, U24;
    Join(r, p, p + 4, p + 5);
    Join(r, p, p + 5, p + 8);
    Join(r, p, p + 8, p + HeadLen(vendor));
  }

  lemma ZeroSlice(r: seq<Byte>, a: int, b: int)
    requires 0 <= a <= b <= |r| && ZeroFrom(r, a)
    ensures r[a..b] == Zeros(b - a) && ZeroFrom(r, b)
  {}

  lemma Join(r: seq<Byte>, a: int, b: int, c: int)
    requires 0 <= a <= b <= c <= |r|
    ensures r[a..c] == r[a..b] + r[b..c]
  {}

  lemma ZeroTail(buf: seq<Byte>, r: seq<Byte>, p: int, k: int)
    requires |r| == |buf| && 0 <= p <= k <= |buf| && ZeroFrom(buf, p) && r[k..|r|] == buf[k..|buf|]
    ensures ZeroFrom(r, k)
  {
    forall i | k <= i < |r| ensures r[i] == 0 {
      assert r[i] == r[k..|r|][i - k] == buf[k..|buf|][i - k] == buf[i];
    }
  }

  lemma WrittenParts(buf: seq<Byte>, p: int, code: int, vendor: int, content: seq<Byte>)
    requires 0 <= p && p + 12 + |content| <= |buf| && ZeroFrom(buf, p)
    ensures var h, r := HeadLen(vendor), Written(buf, p, code, vendor, content);
            var len := h + |content|;
            && r[0..p] == buf[0..p] && r[p..p + 4] == U32(code)
            && r[p + 4..p + 5] == [if vendor != 0 then 128 else 0] && r[p + 5..p + 8] == U24(len)
            && r[p + 8..p + h] == (if vendor != 0 then U32(vendor) else [])
            && r[p + h..p + len] == content && r[p + len..|r|] == buf[p + len..|buf|]
  {
    hide U32, U24, Store;
    var h, size := HeadLen(vendor), |buf|;
    var len := h + |content|;
    var b0 := Store(buf, p, U32(code));
    Stored(buf, p, U32(code));
    assert b0[p + 4] == b0[p + 4..p + 5][0] == buf[p + 4..p + 5][0] == 0;
    var b1 := b0;
    if vendor != 0 {
      var b := Store(b0, p + 4, [OrVendor(b0[p + 4])]);
      Stored(b0, p + 4, [OrVendor(b0[p + 4])]);
      b1 := Store(b, p + 8, U32(vendor));
      Stored(b, p + 8, U32(vendor));
      assert b1[p + 4..p + 5] == b[p + 4..p + 5];
    }
    assert b1[p + 4..p + 5] == [if vendor != 0 then 128 else 0];
    var b2 := Store(b1, p + h, content);
    Stored(b1, p + h, content);
    Stored(b2, p + 5, U24(len));
  }

  /** The buffer starts with the bytes `s`, is whole blocks, and is zero behind them. */
  ghost predicate Holds(packet: seq<Byte>, s: seq<Byte>) {
    |packet| % BLOCK == 0 && |s| <= |packet| && packet[..|s|] == s && ZeroFrom(packet, |s|)
  }

  /** Clearing the last part of a packet, after zeros. */
  lemma Cleared(packet: seq<Byte>, off: int, part: seq<Byte>, s: seq<Byte>)
    requires |packet| % BLOCK == 0 && |s| <= off && off + |part| == |packet|
    requires packet[..|s|] == s && forall i :: |s| <= i < off ==> packet[i] == 0
    requires forall i :: 0 <= i < |part| ==> part[i] == 0
    ensures Holds(Store(packet, off, part), s)
  {
    assert Store(packet, off, part)[..|s|] == packet[..|s|];
  }

  lemma WholeWords(n: int)
    requires n % BLOCK == 0
    ensures n % 4 == 0
  {}

  lemma PutHolds(buf: seq<Byte>, s: seq<Byte>, code: int, vendor: int, content: seq<Byte>)
    requires Holds(buf, s) && |s| % 4 == 0 && |s| + 12 + |content| <= |buf|
    ensures Holds(Written(buf, |s|, code, vendor, content), s + Wrap(code, vendor, content))
  {
    hide Written, Wrap, ZeroFrom, HeadLen, Pad32;
    var w, r := Wrap(code, vendor, content), Written(buf, |s|, code, vendor, content);
    WholeWords(|buf|);
    WrittenWrap(buf, |s|, code, vendor, content);
    assert |s + w| == |s| + |w|;
    assert buf[..|s|] == s;
  }

  /** Overwriting the length in the header of an AVP that is somewhere in the buffer. */
  lemma PatchLength(s: seq<Byte>, before: seq<Byte>, code: int, vendor: int, was: int, len: int, after: seq<Byte>)
    requires s == before + Head(code, vendor, was) + after
    ensures Store(s, |before| + 5, U24(len)) == before + Head(code, vendor, len) + after
  {
    hide U32, U24;
    var s' := before + Head(code, vendor, len) + after;
    var p := |before|;
    assert s[..p + 5] == s'[..p + 5] by {
      assert Head(code, vendor, was)[..5] == Head(code, vendor, len)[..5];
      assert s[..p + 5] == before + Head(code, vendor, was)[..5];
      assert s'[..p + 5] == before + Head(code, vendor, len)[..5];
    }
    assert s[p + 8..] == s'[p + 8..] by {
      assert Head(code, vendor, was)[8..] == Head(code, vendor, len)[8..];
      assert s[p + 8..] == Head(code, vendor, was)[8..] + after;
      assert s'[p + 8..] == Head(code, vendor, len)[8..] + after;
    }
    assert s'[p + 5..p + 8] == U24(len) by {
      assert s'[p + 5..p + 8] == Head(code, vendor, len)[5..8];
    }
    assert s' == s'[..p + 5] + s'[p + 5..p + 8] + s'[p + 8..];
  }

  /** A store into the written part changes the bytes held, and keeps the rest zero. */
  lemma StoreHolds(packet: seq<Byte>, s: seq<Byte>, off: int, part: seq<Byte>)
    requires Holds(packet, s) && 0 <= off && off + |part| <= |s|
    ensures Holds(Store(packet, off, part), Store(s, off, part))
  {
    var r := Store(packet, off, part);
    assert packet == s + packet[|s|..];
    assert r == Store(s, off, part) + packet[|s|..];
  }

  /** A C pointer to the payload: NULL, or memory that can be read. */
  datatype Pointer = Null | Points(bytes: seq<Byte>)

  class Request {
    var packet: seq<Byte>
    var start: seq<int>
    var pos: seq<int>
    var level: int
    ghost var frame: Frame
    ghost var header: seq<Byte>

    /** The buffer holds the header and all that was written, and every byte beyond is zero. */
    ghost predicate Valid()
      reads this
    {
      && |start| == |pos| == MAX_LEVEL && |header| == HEADER
      && level == Depth(frame) < MAX_LEVEL && Tracks(frame, start, pos)
      && Holds(packet, header + Bytes(frame))
    }

    /** dm_new_packet */
    constructor (code: int, flags: Byte, appid: int, hopid: int, endid: int)
      ensures Valid() && frame == Bottom([]) && level == 0
      ensures header == [1] + U24(HEADER) + [flags] + U24(code) + U32(appid) + U32(hopid) + U32(endid)
    {
      var h := [1] + U24(HEADER) + [flags] + U24(code) + U32(appid) + U32(hopid) + U32(endid);
      packet := h + Zeros(BLOCK - HEADER);
      start := seq(MAX_LEVEL, i => if i == 0 then HEADER else 0);
      pos := seq(MAX_LEVEL, i => if i == 0 then HEADER else 0);
      level := 0;
      header := h;
      frame := Bottom([]);
    }

    /** dm_packet_ensure_space: the block count is computed from the position, not from the buffer. */
    method EnsureSpace(len: int, ghost s: seq<Byte>)
      requires 0 <= level < |pos| && pos[level] == |s| && Holds(packet, s) && len >= 0
      modifies this`packet
      ensures Holds(packet, s) && |packet| >= |s| + len
    {
      hide Store;
      var have := (pos[level] + BLOCK - 1) / BLOCK;
      var want := (pos[level] + BLOCK - 1 + len) / BLOCK;
      if have == want {
        return;
      }
      var size := want * BLOCK;
      if size <= |packet| {
        packet := packet[..size];
      } else {
        var more := new Byte[size - |packet|];  // whatever realloc finds there
        packet := packet + more[..];
      }
      Cleared(packet, have * BLOCK, Zeros((want - have) * BLOCK), s);
      packet := Store(packet, have * BLOCK, Zeros((want - have) * BLOCK));
    }

    /** The writes of dm_put_avp at position `p`. */
    method Emit(p: int, code: int, vendor: int, data: Pointer, len: int) returns (avpLen: int)
      requires 0 <= p && len >= 0 && p + 12 + len <= |packet|
      requires if data.Points? then len <= |data.bytes| else len == 0
      modifies this`packet
      ensures packet == Written(old(packet), p, code, vendor, if data.Points? then data.bytes[..len] else [])
      ensures avpLen == HeadLen(vendor) + len
    {
      packet := Store(packet, p, U32(code));
      var d := p + 8;
      avpLen := len + 8;
      if vendor != 0 {
        packet := Store(packet, p + 4, [OrVendor(packet[p + 4])]);
        packet := Store(packet, p + 8, U32(vendor));
        avpLen, d := avpLen + 4, d + 4;
      }
      if data.Points? {
        packet := Store(packet, d, data.bytes[..len]);
      } else {
        assert Store(packet, d, []) == packet;
      }
      packet := Store(packet, p + 5, U24(avpLen));
    }

    /** dm_put_avp: behind the bytes `s` held so far. */
    method PutRaw(code: int, vendor: int, data: Pointer, len: int, ghost s: seq<Byte>) returns (rc: Rc)
      requires 0 <= level < |pos| && pos[level] == |s| && Holds(packet, s) && |s| % 4 == 0
      requires len >= 0 && (data.Points? ==> len <= |data.bytes|)
      modifies this`packet, this`pos
      ensures rc == if len != 0 && data.Null? then Misformed else Ok
      ensures rc != Ok ==> packet == old(packet) && pos == old(pos)
      ensures rc == Ok ==> var w := Wrap(code, vendor, if data.Points? then data.bytes[..len] else []);
                           Holds(packet, s + w) && pos == old(pos)[level := |s| + |w|]
    {
      hide Written, Holds;
      if len != 0 && data.Null? {
        return Misformed;
      }
      EnsureSpace(len + 12, s);
      PutHolds(packet, s, code, vendor, if data.Points? then data.bytes[..len] else []);
      var avpLen := Emit(pos[level], code, vendor, data, len);
      pos := pos[level := pos[level] + Pad32(avpLen)];
      return Ok;
    }

    /** dm_put_avp on a packet under construction: one more AVP in the innermost open group. */
    method PutAvp(code: int, vendor: int, data: Pointer, len: int) returns (rc: Rc)
      requires Valid() && len >= 0 && (data.Points? ==> len <= |data.bytes|)
      modifies this`packet, this`pos, this`frame
      ensures Valid()
      ensures rc == if len != 0 && data.Null? then Misformed else Ok
      ensures rc == Ok ==>
        frame == Add(old(frame), Single(code, vendor, if data.Points? then data.bytes[..len] else []))
      ensures rc != Ok ==> frame == old(frame)
    {
      hide Bytes, Holds, Tracks, Add, Encode, Wrap;
      TracksEnd(frame, start, pos);
      rc := PutRaw(code, vendor, data, len, header + Bytes(frame));
      if rc == Ok {
        ghost var a := Single(code, vendor, if data.Points? then data.bytes[..len] else []);
        AddBytes(frame, a);
        EncodeSingle(a);
        assert header + (Bytes(frame) + Encode(a)) == header + Bytes(frame) + Encode(a);
        AddTracks(frame, a, start, old(pos), pos);
        frame := Add(frame, a);
      }
    }

    /** dm_new_group: there are sixteen levels, which the caller must not exceed. */
    method NewGroup(code: int, vendor: int) returns (rc: Rc)
      requires Valid() && level + 1 < MAX_LEVEL
      modifies this`packet, this`start, this`pos, this`level, this`frame
      ensures Valid() && rc == Ok && frame == Open(old(frame), code, vendor, [])
    {
      hide Holds, Bytes, Wrap;
      ghost var f, s := frame, header + Bytes(frame);
      start := start[level + 1 := pos[level]];
      pos := pos[level + 1 := pos[level]];
      level := level + 1;
      rc := PutRaw(code, vendor, Null, 0, s);
      EmptyGroup(f, code, vendor);
      assert header + (Bytes(f) + Wrap(code, vendor, [])) == s + Wrap(code, vendor, []);
      TracksBelow(f, old(start), old(pos), start, pos, level);
      frame := Open(f, code, vendor, []);
    }

    /** dm_finalize_group: the length of the innermost open group is filled in. */
    method FinalizeGroup() returns (rc: Rc)
      requires Valid()
      modifies this`packet, this`pos, this`level, this`frame
      ensures Valid()
      ensures rc == if old(level) == 0 then Misformed else Ok
      ensures rc == Ok ==> old(frame).Open? && frame == Close(old(frame))
      ensures rc != Ok ==> frame == old(frame)
    {
      hide Holds, Store, Close, Bytes, Tracks, EncodeAll, Pad32;
      if level == 0 {
        return Misformed;
      }
      var avpLen := pos[level] - start[level];
      assert Depth(frame) > 0;
      ClosePatch(packet, header, frame);
      CloseTracks(frame, start, pos);
      packet := Store(packet, start[level] + 5, U24(avpLen));
      level := level - 1;
      pos := pos[level := pos[level] + Pad32(avpLen)];
      frame := Close(frame);
      return Ok;
    }

    /** dm_finalize_packet: only with every group closed; the packet then has its full length in its header. */
    method FinalizePacket() returns (rc: Rc)
      requires Valid()
      modifies this`packet, this`header
      ensures Valid()
      ensures rc == if level == 0 then Ok else Misformed
      ensures rc == Ok ==> header == Store(old(header), 1, U24(End(frame)))
      ensures rc == Ok ==> End(frame) <= |packet|
      ensures rc == Ok ==> packet[..End(frame)] == header + EncodeAll(frame.kids)
      ensures rc != Ok ==> packet == old(packet) && header == old(header)
    {
      if level != 0 {
        return Misformed;
      }
      StoreHolds(packet, header + Bytes(frame), 1, U24(pos[0]));
      packet := Store(packet, 1, U24(pos[0]));
      assert Store(header + Bytes(frame), 1, U24(pos[0])) == Store(header, 1, U24(pos[0])) + Bytes(frame);
      header := Store(header, 1, U24(pos[0]));
      return Ok;
    }

    /** dm_add_uint32_get_pos: an AVP whose value is to be filled in later, and where. */
    method AddUint32GetPos(code: int, vendor: int, value: int) returns (rc: Rc, at: int)
      requires Valid()
      modifies this`packet, this`pos, this`frame
      ensures Valid() && rc == Ok && frame == Add(old(frame), Single(code, vendor, U32(value)))
      ensures level == old(level) && IsSpot(frame, level, [|frame.kids| - 1])
        && at == HEADER + SpotAt(frame, level, [|frame.kids| - 1])
    {
      hide Holds, Bytes;
      at := pos[level] + 8;
      if vendor != 0 {
        at := at + 4;
      }
      assert U32(value)[..4] == U32(value);
      LastSpot(frame, Single(code, vendor, U32(value)));
      rc := PutAvp(code, vendor, Points(U32(value)), 4);
    }

    /** dm_put_uint32_at_pos: fills in the value of that AVP, at whatever level it is open or closed by now. */
    method PutUint32AtPos(at: int, value: int, ghost d: int, ghost path: seq<int>)
      requires Valid() && IsSpot(frame, d, path) && |DataAt(FrameAt(frame, d).kids, path)| == 4
      requires at == HEADER + SpotAt(frame, d, path)
      modifies this`packet, this`frame
      ensures Valid()
      ensures frame == WithLevel(old(frame), d, Patched(FrameAt(old(frame), d).kids, path, U32(value)))
      ensures |packet| == old(|packet|)
        && (forall k :: 0 <= k < |packet| && !(at <= k < at + 4) ==> packet[k] == old(packet)[k])
    {
      hide Tracks;
      PatchHolds(packet, header, frame, d, path, U32(value));
      PatchTracks(frame, d, path, U32(value), start, pos);
      packet := Store(packet, at, U32(value));
      frame := WithLevel(frame, d, Patched(FrameAt(frame, d).kids, path, U32(value)));
    }
  }

  lemma EmptyGroup(f: Frame, code: int, vendor: int)
    ensures Bytes(Open(f, code, vendor, [])) == Bytes(f) + Wrap(code, vendor, [])
  {
    assert Wrap(code, vendor, []) == Head(code, vendor, HeadLen(vendor)) + [] + Zeros(0);
    assert Zeros(0) == [];
  }

  lemma CloseTracks(f: Frame, start: seq<int>, pos: seq<int>)
    requires |start| == |pos| == MAX_LEVEL && f.Open? && Depth(f) < MAX_LEVEL && Tracks(f, start, pos)
    ensures var d, len := Depth(f) - 1, HeadLen(f.vendor) + |EncodeAll(f.kids)|;
            && pos[d + 1] - start[d + 1] == len && start[d + 1] == End(f.below)
            && Depth(Close(f)) == d && Tracks(Close(f), start, pos[d := pos[d] + Pad32(len)])
  {
    hide Bytes, EncodeAll, Pad32, Close, Tracks, Depth, Head, HeadLen, End;
    var d, len, g := Depth(f) - 1, HeadLen(f.vendor) + |EncodeAll(f.kids)|, f.below;
    TracksOne(f, start, pos);
    TracksOne(g, start, pos);
    CloseEnds(f);
    PadExact(len);
    CloseIs(f);
    var pos' := pos[d := pos[d] + Pad32(len)];
    assert pos'[d] == End(f);
    if g.Open? { TracksBelow(g.below, start, pos, start, pos', d); }
    TracksOne(Close(f), start, pos');
  }

  lemma CloseEnds(f: Frame)
    requires f.Open?
    ensures var len := HeadLen(f.vendor) + |EncodeAll(f.kids)|;
      len % 4 == 0 && End(f) == End(f.below) + len && End(Close(f)) == End(f)
  {
    hide Bytes, EncodeAll, Close, Head;
    OpenBytes(f);
    CloseBytes(f);
  }

  lemma TracksOne(f: Frame, start: seq<int>, pos: seq<int>)
    requires |start| == |pos| == MAX_LEVEL && Depth(f) < MAX_LEVEL
    ensures Depth(f) == if f.Open? then Depth(f.below) + 1 else 0
    ensures Tracks(f, start, pos) <==>
            pos[Depth(f)] == End(f) && (f.Open? ==> start[Depth(f)] == End(f.below) && Tracks(f.below, start, pos))
  {}

  lemma OpenBytes(f: Frame)
    requires f.Open?
    ensures Bytes(f) == Bytes(f.below) + Head(f.code, f.vendor, HeadLen(f.vendor)) + EncodeAll(f.kids)
  {}

  lemma CloseIs(f: Frame)
    requires f.Open?
    ensures var c, g := Close(f), f.below;
            Depth(c) == Depth(g) && (c.Open? <==> g.Open?) && (g.Open? ==> c.below == g.below)
  {}

  lemma PadExact(x: int)
    requires x % 4 == 0
    ensures Pad32(x) == x
  {}

  lemma HoldsSize(packet: seq<Byte>, s: seq<Byte>)
    requires Holds(packet, s)
    ensures |s| <= |packet|
  {}

  lemma ClosePatch(packet: seq<Byte>, header: seq<Byte>, f: Frame)
    requires f.Open? && |header| == HEADER && Holds(packet, header + Bytes(f))
    ensures var len := HeadLen(f.vendor) + |EncodeAll(f.kids)|;
            && End(f.below) + 8 <= |packet| && |Bytes(Close(f))| == |Bytes(f)|
            && Holds(Store(packet, End(f.below) + 5, U24(len)), header + Bytes(Close(f)))
  {
    hide Holds, Store, Head, Close, Bytes, EncodeAll;
    HoldsSize(packet, header + Bytes(f));
    OpenBytes(f);
    var len, before, after := HeadLen(f.vendor) + |EncodeAll(f.kids)|, header + Bytes(f.below), EncodeAll(f.kids);
    assert header + Bytes(f) == before + Head(f.code, f.vendor, HeadLen(f.vendor)) + after;
    PatchLength(header + Bytes(f), before, f.code, f.vendor, HeadLen(f.vendor), len, after);
    StoreHolds(packet, header + Bytes(f), |before| + 5, U24(len));
    CloseBytes(f);
    assert header + Bytes(Close(f)) == before + Head(f.code, f.vendor, len) + after;
  }

  // ---------- a value filled in later ----------

  /** `path` leads to an AVP with a payload: first among `kids`, then in the groups on the way. */
  ghost predicate Reaches(kids: seq<Avp>, path: seq<int>)
    decreases |path|
  {
    && path != [] && 0 <= path[0] < |kids|
    && if |path| == 1 then kids[path[0]].Single? else kids[path[0]].Group? && Reaches(kids[path[0]].kids, path[1..])
  }

  ghost function DataAt(kids: seq<Avp>, path: seq<int>): seq<Byte>
    requires Reaches(kids, path)
    decreases |path|
  {
    if |path| == 1 then kids[path[0]].data else DataAt(kids[path[0]].kids, path[1..])
  }

  /** Where its payload lies in the encoding. */
  ghost function OffsetIn(kids: seq<Avp>, path: seq<int>): int
    requires Reaches(kids, path)
    decreases |path|
  {
    |EncodeAll(kids[..path[0]])| + HeadLen(kids[path[0]].vendor)
    + if |path| == 1 then 0 else OffsetIn(kids[path[0]].kids, path[1..])
  }

  /** The same AVPs with another payload there. */
  ghost function Patched(kids: seq<Avp>, path: seq<int>, data: seq<Byte>): seq<Avp>
    requires Reaches(kids, path)
    decreases |path|
  {
    var a := kids[path[0]];
    kids[path[0] :=
      if |path| == 1 then Single(a.code, a.vendor, data) else Group(a.code, a.vendor, Patched(a.kids, path[1..], data))]
  }

  /** Overwriting a part of the content of an AVP. */
  lemma WrapStore(code: int, vendor: int, content: seq<Byte>, off: int, data: seq<Byte>)
    requires 0 <= off && off + |data| <= |content|
    ensures HeadLen(vendor) + off + |data| <= |Wrap(code, vendor, content)|
    ensures Wrap(code, vendor, Store(content, off, data))
      == Store(Wrap(code, vendor, content), HeadLen(vendor) + off, data)
  {
    hide Head, Pad32, Store;
    var len := HeadLen(vendor) + |content|;
    StoreInside(Head(code, vendor, len), content, Zeros(Pad32(len) - len), off, data);
  }

  /** Replacing a payload by one of the same length touches only its bytes. */
  lemma {:induction false} PatchPayload(kids: seq<Avp>, path: seq<int>, data: seq<Byte>)
    requires Reaches(kids, path) && |data| == |DataAt(kids, path)|
    ensures 0 <= OffsetIn(kids, path) && OffsetIn(kids, path) + |data| <= |EncodeAll(kids)|
    ensures EncodeAll(Patched(kids, path, data)) == Store(EncodeAll(kids), OffsetIn(kids, path), data)
    decreases |path|
  {
    hide EncodeAll, Wrap, Store;
    var i := path[0];
    var a, b := kids[i], Patched(kids, path, data)[i];
    var inner := if |path| == 1 then 0 else OffsetIn(a.kids, path[1..]);
    if |path| == 1 {
      StoreAll(a.data, data);
    } else {
      PatchPayload(a.kids, path[1..], data);
    }
    assert Content(b) == Store(Content(a), inner, data);
    WrapStore(a.code, a.vendor, Content(a), inner, data);
    EncodeAround(kids, i);
    EncodeAround(kids[i := b], i);
    assert kids[i := b][..i] == kids[..i] && kids[i := b][i + 1..] == kids[i + 1..];
    StoreInside(EncodeAll(kids[..i]), Encode(a), EncodeAll(kids[i + 1..]), HeadLen(a.vendor) + inner, data);
  }

  lemma StoreAll(was: seq<Byte>, data: seq<Byte>)
    requires |was| == |data|
    ensures Store(was, 0, data) == data
  {}

  lemma StoreInside(a: seq<Byte>, b: seq<Byte>, c: seq<Byte>, off: int, part: seq<Byte>)
    requires 0 <= off && off + |part| <= |b|
    ensures Store(a + b + c, |a| + off, part) == a + Store(b, off, part) + c
  {
    var s, n := a + b + c, |a| + off;
    assert s[..n] == a + b[..off];
    assert s[n + |part|..] == b[off + |part|..] + c;
    assert a + (b[..off] + part + b[off + |part|..]) + c == a + b[..off] + part + (b[off + |part|..] + c);
  }

  lemma EncodeAround(kids: seq<Avp>, i: int)
    requires 0 <= i < |kids|
    ensures EncodeAll(kids) == EncodeAll(kids[..i]) + Encode(kids[i]) + EncodeAll(kids[i + 1..])
  {
    hide EncodeAll, Encode;
    EncodeSplit(kids[..i], kids[i..]);
    assert kids == kids[..i] + kids[i..];
    EncodeCons(kids[i..]);
    assert kids[i..][1..] == kids[i + 1..];
    Assoc(EncodeAll(kids[..i]), Encode(kids[i]), EncodeAll(kids[i + 1..]));
  }

  lemma Assoc(a: seq<Byte>, b: seq<Byte>, c: seq<Byte>)
    ensures a + (b + c) == a + b + c
  {}

  // ---------- at any level of a packet under construction ----------

  /** The packet up to the group that is open at level `d`. */
  function FrameAt(f: Frame, d: int): Frame
    requires 0 <= d <= Depth(f)
  {
    if d == Depth(f) then f else FrameAt(f.below, d)
  }

  /** Other AVPs at level `d`. */
  function WithLevel(f: Frame, d: int, kids: seq<Avp>): Frame
    requires 0 <= d <= Depth(f)
  {
    match f
    case Bottom(_) => Bottom(kids)
    case Open(below, code, vendor, had) =>
      if d == Depth(f) then Open(below, code, vendor, kids) else Open(WithLevel(below, d, kids), code, vendor, had)
  }

  /** Where the AVPs of the innermost open group start, behind the packet header. */
  function KidsAt(f: Frame): int {
    if f.Bottom? then 0 else |Bytes(f.below)| + HeadLen(f.vendor)
  }

  ghost predicate IsSpot(f: Frame, d: int, path: seq<int>) {
    0 <= d <= Depth(f) && Reaches(FrameAt(f, d).kids, path)
  }

  /** Where a payload lies, behind the packet header. */
  ghost function SpotAt(f: Frame, d: int, path: seq<int>): int
    requires IsSpot(f, d, path)
  {
    KidsAt(FrameAt(f, d)) + OffsetIn(FrameAt(f, d).kids, path)
  }

  /** The bytes around the AVPs of a level do not depend on them. */
  lemma {:induction false} LevelBytes(f: Frame, d: int, kids: seq<Avp>) returns (before: seq<Byte>, after: seq<Byte>)
    requires 0 <= d <= Depth(f)
    ensures |before| == KidsAt(FrameAt(f, d)) && Depth(WithLevel(f, d, kids)) == Depth(f)
    ensures Bytes(f) == before + EncodeAll(FrameAt(f, d).kids) + after
    ensures Bytes(WithLevel(f, d, kids)) == before + EncodeAll(kids) + after
    decreases f
  {
    hide Bytes, EncodeAll, Head;
    if f.Bottom? {
      before, after := [], [];
      BottomIs(f.kids);
      BottomIs(kids);
    } else if d == Depth(f) {
      before, after := Bytes(f.below) + Head(f.code, f.vendor, HeadLen(f.vendor)), [];
      OpenBytes(f);
      OpenBytes(Open(f.below, f.code, f.vendor, kids));
    } else {
      var rest;
      before, rest := LevelBytes(f.below, d, kids);
      var head := Head(f.code, f.vendor, HeadLen(f.vendor));
      after := rest + (head + EncodeAll(f.kids));
      OpenBytes(f);
      OpenBytes(Open(WithLevel(f.below, d, kids), f.code, f.vendor, f.kids));
      Around(before, EncodeAll(FrameAt(f, d).kids), rest, head, EncodeAll(f.kids));
      Around(before, EncodeAll(kids), rest, head, EncodeAll(f.kids));
    }
  }

  lemma Around(a: seq<Byte>, b: seq<Byte>, c: seq<Byte>, d: seq<Byte>, e: seq<Byte>)
    ensures a + b + c + d + e == a + b + (c + (d + e))
  {}

  lemma BottomIs(kids: seq<Avp>)
    ensures Bytes(Bottom(kids)) == [] + EncodeAll(kids) + []
  {}

  lemma PatchHolds(packet: seq<Byte>, header: seq<Byte>, f: Frame, d: int, path: seq<int>, data: seq<Byte>)
    requires Holds(packet, header + Bytes(f)) && |header| == HEADER
    requires IsSpot(f, d, path) && |data| == |DataAt(FrameAt(f, d).kids, path)|
    ensures 0 <= SpotAt(f, d, path) && HEADER + SpotAt(f, d, path) + |data| <= |packet|
    ensures Holds(Store(packet, HEADER + SpotAt(f, d, path), data),
      header + Bytes(WithLevel(f, d, Patched(FrameAt(f, d).kids, path, data))))
  {
    hide Holds, Bytes, EncodeAll, WithLevel, Store;
    var kids := FrameAt(f, d).kids;
    var kids' := Patched(kids, path, data);
    PatchPayload(kids, path, data);
    var before, after := LevelBytes(f, d, kids');
    HoldsSize(packet, header + Bytes(f));
    var at := OffsetIn(kids, path);
    StoreHolds(packet, header + Bytes(f), HEADER + SpotAt(f, d, path), data);
    Regroup(header, before, EncodeAll(kids), after);
    Regroup(header, before, EncodeAll(kids'), after);
    StoreInside(header + before, EncodeAll(kids), after, at, data);
  }

  lemma Regroup(a: seq<Byte>, b: seq<Byte>, c: seq<Byte>, d: seq<Byte>)
    ensures a + (b + c + d) == a + b + c + d
  {}

  lemma {:induction false} SameEnds(f: Frame, d: int, kids: seq<Avp>, start: seq<int>, pos: seq<int>)
    requires |start| == |pos| == MAX_LEVEL && 0 <= d <= Depth(f) < MAX_LEVEL && Tracks(f, start, pos)
    requires |EncodeAll(kids)| == |EncodeAll(FrameAt(f, d).kids)|
    ensures Depth(WithLevel(f, d, kids)) == Depth(f) && Tracks(WithLevel(f, d, kids), start, pos)
    decreases f
  {
    hide Bytes, EncodeAll, Tracks;
    var before, after := LevelBytes(f, d, kids);
    TracksOne(f, start, pos);
    TracksOne(WithLevel(f, d, kids), start, pos);
    if d < Depth(f) {
      var b, a := LevelBytes(f.below, d, kids);
      SameEnds(f.below, d, kids, start, pos);
    }
  }

  lemma PatchTracks(f: Frame, d: int, path: seq<int>, data: seq<Byte>, start: seq<int>, pos: seq<int>)
    requires |start| == |pos| == MAX_LEVEL && Depth(f) < MAX_LEVEL && Tracks(f, start, pos)
    requires IsSpot(f, d, path) && |data| == |DataAt(FrameAt(f, d).kids, path)|
    ensures var f' := WithLevel(f, d, Patched(FrameAt(f, d).kids, path, data));
            Depth(f') == Depth(f) && Tracks(f', start, pos)
  {
    hide EncodeAll, Tracks, Store;
    PatchPayload(FrameAt(f, d).kids, path, data);
    SameEnds(f, d, Patched(FrameAt(f, d).kids, path, data), start, pos);
  }

  // ---------- a position stays that of its AVP ----------

  lemma LastSpot(f: Frame, a: Avp)
    requires a.Single?
    ensures var g := Add(f, a);
      IsSpot(g, Depth(f), [|f.kids|]) && SpotAt(g, Depth(f), [|f.kids|]) == |Bytes(f)| + HeadLen(a.vendor)
  {
    hide EncodeAll, Bytes;
    AddBytes(f, a);
    var g := Add(f, a);
    assert g.kids[..|f.kids|] == f.kids;
    if f.Open? { OpenBytes(f); } else { BottomIs(f.kids); }
  }

  /** Another AVP in the innermost group. */
  lemma SpotAfterAdd(f: Frame, d: int, path: seq<int>, a: Avp)
    requires IsSpot(f, d, path)
    ensures IsSpot(Add(f, a), d, path) && SpotAt(Add(f, a), d, path) == SpotAt(f, d, path)
  {
    hide EncodeAll, Bytes;
    AddBytes(f, a);
    if d == Depth(f) {
      KidsLonger(f.kids, a, path);
    }
  }

  lemma KidsLonger(kids: seq<Avp>, a: Avp, path: seq<int>)
    requires Reaches(kids, path)
    ensures Reaches(kids + [a], path) && OffsetIn(kids + [a], path) == OffsetIn(kids, path)
  {
    assert (kids + [a])[..path[0]] == kids[..path[0]];
  }

  /** Another group opened. */
  lemma SpotAfterOpen(f: Frame, d: int, path: seq<int>, code: int, vendor: int)
    requires IsSpot(f, d, path)
    ensures IsSpot(Open(f, code, vendor, []), d, path)
      && SpotAt(Open(f, code, vendor, []), d, path) == SpotAt(f, d, path)
  {}

  /** The innermost group closed: an AVP in it is now on a longer path one level down, at the same place. */
  lemma SpotAfterClose(f: Frame, d: int, path: seq<int>)
    requires IsSpot(f, d, path) && f.Open?
    ensures var (e, q) := if d == Depth(f) then (d - 1, [|f.below.kids|] + path) else (d, path);
      IsSpot(Close(f), e, q) && SpotAt(Close(f), e, q) == SpotAt(f, d, path)
  {
    hide EncodeAll, Bytes;
    var g := Group(f.code, f.vendor, f.kids);
    AddBytes(f.below, g);
    if d == Depth(f) {
      var q := [|f.below.kids|] + path;
      assert q[1..] == path;
      assert Close(f).kids[..|f.below.kids|] == f.below.kids;
      if f.below.Open? { OpenBytes(f.below); } else { BottomIs(f.below.kids); }
    } else {
      SpotAfterAdd(f.below, d, path, g);
    }
  }
}
