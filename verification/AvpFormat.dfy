/** The wire format of attribute-value pairs: section 4.1 of RFC 6733, grouped as in its section 4.4. */
module AvpFormat {
  import opened Basics

  // ---------- numbers in network byte order ----------

  function U32(n: int): (s: seq<Byte>)
    ensures |s| == 4
  {
    [n / 0x100_0000 % 256, n / 0x1_0000 % 256, n / 0x100 % 256, n % 256]
  }

  function N32(s: seq<Byte>): int
    requires |s| == 4
  {
    var (a: int, b: int, c: int, d: int) := (s[0], s[1], s[2], s[3]);
    a * 0x100_0000 + b * 0x1_0000 + c * 0x100 + d
  }

  /** uint32to24: the low 24 bits only. */
  function U24(n: int): (s: seq<Byte>)
    ensures |s| == 3
  {
    [n / 0x1_0000 % 256, n / 0x100 % 256, n % 256]
  }

  function N24(s: seq<Byte>): int
    requires |s| == 3
  {
    var (a: int, b: int, c: int) := (s[0], s[1], s[2]);
    a * 0x1_0000 + b * 0x100 + c
  }

  lemma RoundTrip32(n: int)
    ensures N32(U32(n)) == n % 0x1_0000_0000
  {
    var (a, r0) := (n / 0x100, n % 0x100);
    var (b, r1) := (a / 0x100, a % 0x100);
    var (c, r2) := (b / 0x100, b % 0x100);
    assert n == 0x1_0000 * b + (0x100 * r1 + r0);
    assert n == 0x100_0000 * c + (0x1_0000 * r2 + 0x100 * r1 + r0);
    assert n / 0x1_0000 == b && n / 0x100_0000 == c;
    assert n == 0x1_0000_0000 * (c / 0x100) + (0x100_0000 * (c % 0x100) + 0x1_0000 * r2 + 0x100 * r1 + r0);
  }

  lemma RoundTrip24(n: int)
    ensures N24(U24(n)) == n % 0x100_0000
  {
    var (a, r0) := (n / 0x100, n % 0x100);
    var (b, r1) := (a / 0x100, a % 0x100);
    var (c, r2) := (b / 0x100, b % 0x100);
    assert n / 0x1_0000 == b by { assert n == 0x1_0000 * b + (0x100 * r1 + r0); }
    assert n % 0x100_0000 == 0x1_0000 * r2 + 0x100 * r1 + r0 by {
      assert n == 0x100_0000 * c + (0x1_0000 * r2 + 0x100 * r1 + r0);
    }
  }

  function Pad32(x: int): (r: int)
    ensures r % 4 == 0 && x <= r < x + 4
  {
    (x + 3) / 4 * 4
  }

  lemma Aligned(a: int, b: int)
    requires a % 4 == 0 && b % 4 == 0
    ensures (a + b) % 4 == 0
  {}

  function Zeros(n: int): (s: seq<Byte>)
    requires n >= 0
    ensures |s| == n
  {
    seq(n, _ => 0)
  }

  // ---------- packets ----------

  /** The size of the packet header; section 3 of RFC 6733. */
  const HEADER := 20

  /** dm_packet_length */
  function PacketLength(packet: seq<Byte>): int
    requires |packet| >= HEADER
  {
    N24(packet[1..4])
  }

  // ---------- AVPs ----------

  datatype Avp =
    | Single(code: int, vendor: int, data: seq<Byte>)
    | Group(code: int, vendor: int, kids: seq<Avp>)

  function HeadLen(vendor: int): (n: int)
    ensures 8 <= n <= 12 && n % 4 == 0
  {
    if vendor != 0 then 12 else 8
  }

  /** Code, flags, 24-bit length and, if there is a vendor, its id. */
  function Head(code: int, vendor: int, len: int): (s: seq<Byte>)
    ensures |s| == HeadLen(vendor)
  {
    U32(code) + [if vendor != 0 then 128 else 0] + U24(len) + if vendor != 0 then U32(vendor) else []
  }

  /** One AVP; the padding is not counted in its length. */
  function Wrap(code: int, vendor: int, content: seq<Byte>): (s: seq<Byte>)
    ensures |s| == Pad32(HeadLen(vendor) + |content|)
  {
    var len := HeadLen(vendor) + |content|;
    Head(code, vendor, len) + content + Zeros(Pad32(len) - len)
  }

  function Content(a: Avp): seq<Byte>
    decreases a, 0
  {
    match a
    case Single(_, _, data) => data
    case Group(_, _, kids) => EncodeAll(kids)
  }

  function Encode(a: Avp): (s: seq<Byte>)
    ensures |s| % 4 == 0 && |s| >= 8
    decreases a, 1
  {
    Wrap(a.code, a.vendor, Content(a))
  }

  function EncodeAll(avps: seq<Avp>): (s: seq<Byte>)
    ensures |s| % 4 == 0
    decreases avps
  {
    if avps == [] then []
    else
      Aligned(|Encode(avps[0])|, |EncodeAll(avps[1..])|);
      Encode(avps[0]) + EncodeAll(avps[1..])
  }

  lemma {:induction false} EncodeAppend(avps: seq<Avp>, a: Avp)
    ensures EncodeAll(avps + [a]) == EncodeAll(avps) + Encode(a)
    decreases |avps|
  {
    if avps == [] {
      assert avps + [a] == [a];
    } else {
      assert (avps + [a])[1..] == avps[1..] + [a];
      EncodeAppend(avps[1..], a);
    }
  }

  lemma {:induction false} EncodeSplit(a: seq<Avp>, b: seq<Avp>)
    ensures EncodeAll(a + b) == EncodeAll(a) + EncodeAll(b)
    decreases |a|
  {
    if a == [] {
      assert a + b == b;
    } else {
      assert (a + b)[1..] == a[1..] + b;
      EncodeSplit(a[1..], b);
    }
  }

  /** Every length fits its 24-bit field, and codes and vendor ids are 32-bit numbers. */
  ghost predicate Fits(a: Avp)
    decreases a
  {
    && 0 <= a.code < 0x1_0000_0000 && 0 <= a.vendor < 0x1_0000_0000
    && HeadLen(a.vendor) + |Content(a)| < 0x100_0000
    && (a.Group? ==> forall k :: k in a.kids ==> Fits(k))
  }

  ghost predicate AllFit(avps: seq<Avp>) {
    forall a :: a in avps ==> Fits(a)
  }

  // ---------- decoding one AVP ----------

  datatype Rc = Ok | AvpEnd | InvalidLength | Misformed | Misc

  /** The result of dm_expect_avp: the payload is `len` bytes at offset `off` of the memory. */
  datatype Parsed = Parsed(rc: Rc, code: int, vendor: int, off: int, len: int, next: int)

  /** A group of `size` bytes at offset `base` lies in the memory. */
  ghost predicate Readable(mem: seq<Byte>, base: int, size: int, pos: int) {
    0 <= pos && 0 <= base && 0 <= size && base + size <= |mem|
  }

  /** What the group's own bytes say: less than a header is never an AVP. */
  function Parse(mem: seq<Byte>, base: int, size: int, pos: int): Parsed
    requires Readable(mem, base, size, pos)
  {
    if pos >= size then Parsed(AvpEnd, 0, 0, 0, 0, pos)
    else if pos + 8 > size then Parsed(InvalidLength, 0, 0, 0, 0, pos)
    else
      var p := base + pos;
      var len := N24(mem[p + 5..p + 8]);
      var vendored := mem[p + 4] >= 128;
      if len < 8 || (vendored && len < 12) || pos + Pad32(len) > size then Parsed(InvalidLength, 0, 0, 0, 0, pos)
      else if vendored then Parsed(Ok, N32(mem[p..p + 4]), N32(mem[p + 8..p + 12]), p + 12, len - 12, pos + Pad32(len))
      else Parsed(Ok, N32(mem[p..p + 4]), 0, p + 8, len - 8, pos + Pad32(len))
  }

  // ---------- bytes that are not the group's ----------

  /** A byte of the memory, or whatever lies beyond it. */
  function Fetch(mem: seq<Byte>, beyond: int -> Byte, i: int): Byte {
    if 0 <= i < |mem| then mem[i] else beyond(i)
  }

  function Fetch3(mem: seq<Byte>, beyond: int -> Byte, i: int): (s: seq<Byte>)
    ensures |s| == 3 && (0 <= i && i + 3 <= |mem| ==> s == mem[i..i + 3])
  {
    [Fetch(mem, beyond, i), Fetch(mem, beyond, i + 1), Fetch(mem, beyond, i + 2)]
  }

  function Fetch4(mem: seq<Byte>, beyond: int -> Byte, i: int): (s: seq<Byte>)
    ensures |s| == 4 && (0 <= i && i + 4 <= |mem| ==> s == mem[i..i + 4])
  {
    Fetch3(mem, beyond, i) + [Fetch(mem, beyond, i + 3)]
  }

  /** A result, and the bytes of the header that were read for it: from `from` up to `to`. */
  datatype Look = Look(result: Parsed, from: int, to: int)

  /** dm_expect_avp as it is written: the length is read before anything is checked but that the group goes on, then
      the flags, and the rest of the header only if it is accepted. */
  function RawRead(mem: seq<Byte>, beyond: int -> Byte, base: int, size: int, pos: int): Look {
    if pos >= size then Look(Parsed(AvpEnd, 0, 0, 0, 0, pos), 0, 0)
    else
      var p := base + pos;
      var len := N24(Fetch3(mem, beyond, p + 5));
      if len < 8 then Look(Parsed(InvalidLength, 0, 0, 0, 0, pos), 5, 8)
      else
        var vendored := Fetch(mem, beyond, p + 4) >= 128;
        if (vendored && len < 12) || pos + Pad32(len) > size then Look(Parsed(InvalidLength, 0, 0, 0, 0, pos), 4, 8)
        else
          var code := N32(Fetch4(mem, beyond, p));
          if vendored then
            Look(Parsed(Ok, code, N32(Fetch4(mem, beyond, p + 8)), p + 12, len - 12, pos + Pad32(len)), 0, 12)
          else Look(Parsed(Ok, code, 0, p + 8, len - 8, pos + Pad32(len)), 0, 8)
  }

  function RawParse(mem: seq<Byte>, beyond: int -> Byte, base: int, size: int, pos: int): Parsed {
    RawRead(mem, beyond, base, size, pos).result
  }

  /** Offset `k` of the group is read. */
  ghost predicate LooksAt(look: Look, pos: int, k: int) {
    pos + look.from <= k < pos + look.to
  }

  /** All that is read lies inside of the group exactly if the group is at its end or has room for a header. */
  lemma HeaderInside(mem: seq<Byte>, beyond: int -> Byte, base: int, size: int, pos: int)
    ensures (forall k :: LooksAt(RawRead(mem, beyond, base, size, pos), pos, k) ==> k < size) <==>
      pos >= size || pos + 8 <= size
  {
    hide N24, N32;
    var look := RawRead(mem, beyond, base, size, pos);
    assert pos < size ==> LooksAt(look, pos, pos + 7);
  }

  /** A header that is cut off is refused, whatever is found behind the group. */
  lemma CutHeader(mem: seq<Byte>, beyond: int -> Byte, base: int, size: int, pos: int)
    requires pos < size < pos + 8
    ensures RawParse(mem, beyond, base, size, pos) == Parsed(InvalidLength, 0, 0, 0, 0, pos)
  {
    hide N24, N32;
  }

  /** So the bytes that are not the group's own never matter. */
  lemma ForeignBytes(mem: seq<Byte>, beyond: int -> Byte, base: int, size: int, pos: int)
    requires Readable(mem, base, size, pos)
    ensures RawParse(mem, beyond, base, size, pos) == Parse(mem, base, size, pos)
  {
    hide N24, N32;
    if pos < size < pos + 8 {
      CutHeader(mem, beyond, base, size, pos);
    }
  }

  /** A group of four bytes at the end of memory: bytes beyond it are read, and it is refused. */
  lemma MalformedGroup(beyond: int -> Byte)
    ensures Readable([0, 0, 4, 10], 0, 4, 0) && LooksAt(RawRead([0, 0, 4, 10], beyond, 0, 4, 0), 0, 7)
    ensures RawParse([0, 0, 4, 10], beyond, 0, 4, 0).rc == InvalidLength
  {
    hide N24, N32;
    CutHeader([0, 0, 4, 10], beyond, 0, 4, 0);
  }

  /** On any input, well formed or not: a payload lies inside its group, and every AVP moves the cursor on. */
  lemma PayloadInside(mem: seq<Byte>, base: int, size: int, pos: int)
    requires Readable(mem, base, size, pos) && Parse(mem, base, size, pos).rc == Ok
    ensures var p := Parse(mem, base, size, pos);
            && base + pos + 8 <= p.off && p.len >= 0 && p.off + p.len <= base + p.next
            && pos + 8 <= p.next <= size && (pos % 4 == 0 ==> p.next % 4 == 0)
  {
    hide N24, N32;
  }

  /** `part` lies in `mem` at `pos`. */
  ghost predicate LiesAt(mem: seq<Byte>, pos: int, part: seq<Byte>) {
    0 <= pos && pos + |part| <= |mem| && mem[pos..pos + |part|] == part
  }

  lemma LiesSplit(mem: seq<Byte>, pos: int, a: seq<Byte>, b: seq<Byte>)
    requires LiesAt(mem, pos, a + b)
    ensures LiesAt(mem, pos, a) && LiesAt(mem, pos + |a|, b)
  {
    assert mem[pos..pos + |a|] == (a + b)[..|a|] == a;
    assert mem[pos + |a|..pos + |a + b|] == (a + b)[|a|..] == b;
  }

  lemma HeadFields(mem: seq<Byte>, pos: int, code: int, vendor: int, len: int)
    requires LiesAt(mem, pos, Head(code, vendor, len))
    ensures mem[pos..pos + 4] == U32(code) && mem[pos + 4] == (if vendor != 0 then 128 else 0)
    ensures mem[pos + 5..pos + 8] == U24(len)
    ensures vendor != 0 ==> mem[pos + 8..pos + 12] == U32(vendor)
  {
    var f: seq<Byte> := [if vendor != 0 then 128 else 0];
    var v := if vendor != 0 then U32(vendor) else [];
    assert Head(code, vendor, len) == U32(code) + (f + (U24(len) + v));
    LiesSplit(mem, pos, U32(code), f + (U24(len) + v));
    LiesSplit(mem, pos + 4, f, U24(len) + v);
    LiesSplit(mem, pos + 5, U24(len), v);
    assert mem[pos + 4..pos + 5][0] == mem[pos + 4];
  }

  lemma WrapParts(mem: seq<Byte>, pos: int, code: int, vendor: int, content: seq<Byte>)
    requires LiesAt(mem, pos, Wrap(code, vendor, content))
    ensures LiesAt(mem, pos, Head(code, vendor, HeadLen(vendor) + |content|))
    ensures LiesAt(mem, pos + HeadLen(vendor), content)
  {
    var len := HeadLen(vendor) + |content|;
    var pad := Zeros(Pad32(len) - len);
    assert Wrap(code, vendor, content) == Head(code, vendor, len) + (content + pad);
    hide Head, Wrap;
    LiesSplit(mem, pos, Head(code, vendor, len), content + pad);
    LiesSplit(mem, pos + HeadLen(vendor), content, pad);
  }

  /** Decoding one encoded AVP gives back its code, vendor and content, and moves to its end. */
  lemma ParseWrap(mem: seq<Byte>, base: int, size: int, pos: int, code: int, vendor: int, content: seq<Byte>)
    requires 0 <= base && 0 <= pos && base + size <= |mem|
    requires LiesAt(mem, base + pos, Wrap(code, vendor, content)) && pos + |Wrap(code, vendor, content)| <= size
    requires 0 <= code < 0x1_0000_0000 && 0 <= vendor < 0x1_0000_0000 && HeadLen(vendor) + |content| < 0x100_0000
    ensures Readable(mem, base, size, pos)
    ensures Parse(mem, base, size, pos) ==
            Parsed(Ok, code, vendor, base + pos + HeadLen(vendor), |content|, pos + |Wrap(code, vendor, content)|)
    ensures LiesAt(mem, base + pos + HeadLen(vendor), content)
  {
    hide Wrap, Head, U32, U24, N32, N24, Pad32;
    var len, p := HeadLen(vendor) + |content|, base + pos;
    RoundTrip32(code);
    RoundTrip32(vendor);
    RoundTrip24(len);
    WrapParts(mem, p, code, vendor, content);
    HeadFields(mem, p, code, vendor, len);
    assert N24(mem[p + 5..p + 8]) == len;
    assert vendor != 0 ==> N32(mem[p + 8..p + 12]) == vendor;
  }

  // ---------- decoding a whole message ----------

  /** Reading the group from `pos` on finds exactly `avps`: the same codes, vendor ids and payloads, and the end after
      them. */
  ghost predicate Decodes(mem: seq<Byte>, base: int, size: int, pos: int, avps: seq<Avp>)
    decreases avps
  {
    if avps == [] then pos == size
    else
      && Readable(mem, base, size, pos)
      && var p := Parse(mem, base, size, pos);
      && p.rc == Ok && p.code == avps[0].code && p.vendor == avps[0].vendor
      && (match avps[0]
          case Single(_, _, data) => mem[p.off..p.off + p.len] == data
          case Group(_, _, kids) => Decodes(mem, p.off, p.len, 0, kids))
      && Decodes(mem, base, size, p.next, avps[1..])
  }

  /** What was encoded is what is decoded. */
  lemma {:induction false} RoundTrip(mem: seq<Byte>, base: int, size: int, pos: int, avps: seq<Avp>)
    requires 0 <= base && 0 <= pos && base + size <= |mem| && AllFit(avps)
    requires LiesAt(mem, base + pos, EncodeAll(avps)) && pos + |EncodeAll(avps)| == size
    ensures Decodes(mem, base, size, pos, avps)
    decreases avps
  {
    hide Wrap, Parse, LiesAt, Fits, EncodeAll, Decodes;
    if avps == [] {
      DecodesNil(mem, base, size);
    } else {
      var a, rest := avps[0], avps[1..];
      FirstFits(avps);
      EncodeCons(avps);
      LiesSplit(mem, base + pos, Encode(a), EncodeAll(rest));
      ParseWrap(mem, base, size, pos, a.code, a.vendor, Content(a));
      if a.Group? {
        LiesInside(mem, base + pos + HeadLen(a.vendor), Content(a));
        RoundTrip(mem, base + pos + HeadLen(a.vendor), |Content(a)|, 0, a.kids);
      } else {
        LiesInside(mem, base + pos + HeadLen(a.vendor), Content(a));
      }
      RoundTrip(mem, base, size, pos + |Encode(a)|, rest);
      DecodesCons(mem, base, size, pos, avps);
    }
  }

  lemma LiesInside(mem: seq<Byte>, pos: int, part: seq<Byte>)
    requires LiesAt(mem, pos, part)
    ensures 0 <= pos && pos + |part| <= |mem| && mem[pos..pos + |part|] == part
  {}

  lemma EncodeCons(avps: seq<Avp>)
    requires avps != []
    ensures EncodeAll(avps) == Encode(avps[0]) + EncodeAll(avps[1..])
  {}

  lemma FirstFits(avps: seq<Avp>)
    requires avps != [] && AllFit(avps)
    ensures var a := avps[0];
            && AllFit(avps[1..]) && (a.Group? ==> AllFit(a.kids))
            && 0 <= a.code < 0x1_0000_0000 && 0 <= a.vendor < 0x1_0000_0000
            && HeadLen(a.vendor) + |Content(a)| < 0x100_0000
  {
    assert avps[0] in avps && Fits(avps[0]);
  }

  lemma DecodesNil(mem: seq<Byte>, base: int, size: int)
    ensures Decodes(mem, base, size, size, []) && EncodeAll([]) == []
  {}

  lemma DecodesCons(mem: seq<Byte>, base: int, size: int, pos: int, avps: seq<Avp>)
    requires avps != [] && Readable(mem, base, size, pos)
    requires var p, a := Parse(mem, base, size, pos), avps[0];
             && p.rc == Ok && p.code == a.code && p.vendor == a.vendor
             && 0 <= p.off <= p.off + p.len <= |mem|
             && (a.Single? ==> mem[p.off..p.off + p.len] == a.data)
             && (a.Group? ==> Decodes(mem, p.off, p.len, 0, a.kids))
             && Decodes(mem, base, size, p.next, avps[1..])
    ensures Decodes(mem, base, size, pos, avps)
  {}

  /** Two messages with groups in the same places. */
  ghost predicate SameShape(a: seq<Avp>, b: seq<Avp>)
    decreases a
  {
    |a| == |b| &&
    (a != [] ==>
       (a[0].Group? <==> b[0].Group?) && (a[0].Group? ==> SameShape(a[0].kids, b[0].kids)) && SameShape(a[1..], b[1..]))
  }

  /** No two different messages of the same shape decode from the same bytes. */
  lemma {:induction false} DecodesOne(mem: seq<Byte>, base: int, size: int, pos: int, a: seq<Avp>, b: seq<Avp>)
    requires Decodes(mem, base, size, pos, a) && Decodes(mem, base, size, pos, b) && SameShape(a, b)
    ensures a == b
    decreases a
  {
    if a != [] {
      var p := Parse(mem, base, size, pos);
      DecodesOne(mem, base, size, p.next, a[1..], b[1..]);
      if a[0].Group? {
        DecodesOne(mem, p.off, p.len, 0, a[0].kids, b[0].kids);
      }
      assert a == [a[0]] + a[1..] && b == [b[0]] + b[1..];
    }
  }
}
