/** Base64: section 4 of RFC 4648. The decoder hands out the third byte of a quad only when the next quad has begun,
    or at the end. */
module Base64 {
  import opened Basics

  type Bytes = seq<Byte>

  const PAD: Byte := 61
  const MOD := 0x1_0000_0000

  // ---------- digits ----------

  /** basis_64 */
  function Basis(v: int): Byte
    requires 0 <= v < 64
  {
    if v < 26 then 65 + v
    else if v < 52 then 97 + v - 26
    else if v < 62 then 48 + v - 52
    else if v == 62 then 43 else 47
  }

  function GetBits(c: Byte): (v: int)
    ensures 0 <= v < 64
  {
    if 65 <= c <= 90 then c - 65
    else if 97 <= c <= 122 then c - 97 + 26
    else if 48 <= c <= 57 then c - 48 + 52
    else if c == 43 then 62
    else if c == 47 then 63
    else 0
  }

  predicate White(c: Byte) {
    c == 10 || c == 13 || c == 9 || c == 32
  }

  lemma DigitRead(v: int)
    requires 0 <= v < 64
    ensures GetBits(Basis(v)) == v && Basis(v) != PAD && Basis(v) != 0 && !White(Basis(v))
  {}

  /** The alphabet in table 1 of RFC 4648, in four parts. */
  const UPPER := "ABCDEFGHIJKLMNOPQRSTUVWXYZ"
  const LOWER := "abcdefghijklmnopqrstuvwxyz"
  const DIGITS := "0123456789"
  const SIGNS := "+/"

  lemma BasisIs(v: int)
    requires 0 <= v < 64
    ensures |UPPER| == |LOWER| == 26 && |DIGITS| == 10 && |SIGNS| == 2
    ensures Basis(v) == (UPPER + LOWER + DIGITS + SIGNS)[v] as int
  {
    UpperIs(v);
    LowerIs(v);
    DigitIs(v);
    hide UPPER, LOWER, DIGITS;
    var all := UPPER + LOWER + DIGITS + SIGNS;
    assert v < 26 ==> all[v] == UPPER[v];
    assert 26 <= v < 52 ==> all[v] == LOWER[v - 26];
    assert 52 <= v < 62 ==> all[v] == DIGITS[v - 52];
    assert 62 <= v ==> all[v] == SIGNS[v - 62];
  }

  lemma UpperIs(v: int)
    ensures |UPPER| == 26 && (0 <= v < 26 ==> Basis(v) == UPPER[v] as int)
  {}

  lemma LowerIs(v: int)
    ensures |LOWER| == 26 && (26 <= v < 52 ==> Basis(v) == LOWER[v - 26] as int)
  {}

  lemma DigitIs(v: int)
    ensures |DIGITS| == 10 && (52 <= v < 62 ==> Basis(v) == DIGITS[v - 52] as int)
  {}

  /** Any other character counts as 0. */
  lemma BitsOf(c: Byte)
    ensures GetBits(c) == 0 || Basis(GetBits(c)) == c
    ensures (exists v :: 0 <= v < 64 && Basis(v) == c) ==> Basis(GetBits(c)) == c
  {}

  // ---------- what the encoding is ----------

  /** Three bytes as a 24-bit number, cut into four digits. */
  function Number(g: Bytes): (n: int)
    requires 1 <= |g| <= 3
    ensures 0 <= n < 0x100_0000
  {
    var (a: int, b: int, c: int) := (g[0], if |g| > 1 then g[1] else 0, if |g| > 2 then g[2] else 0);
    a * 65536 + b * 256 + c
  }

  function Digit(n: int, k: int): (d: int)
    requires 0 <= n < 0x100_0000 && 0 <= k < 4
    ensures 0 <= d < 64
  {
    if k == 0 then n / 262144 else if k == 1 then n / 4096 % 64 else if k == 2 then n / 64 % 64 else n % 64
  }

  function Quad(g: Bytes): (q: Bytes)
    requires 1 <= |g| <= 3
    ensures |q| == 4
  {
    var n := Number(g);
    [Basis(Digit(n, 0)), Basis(Digit(n, 1)),
     if |g| > 1 then Basis(Digit(n, 2)) else PAD,
     if |g| > 2 then Basis(Digit(n, 3)) else PAD]
  }

  function Encoded(x: Bytes): Bytes
    decreases |x|
  {
    if x == [] then [] else
      var n := Min(3, |x|);
      Quad(x[..n]) + Encoded(x[n..])
  }

  /** The size of the buffer for an encoding, with its final NUL. */
  lemma EncodedFits(x: Bytes)
    ensures |Encoded(x)| + 1 <= (|x| + 3) * 4 / 3
  {
    hide Encoded;
    EncodedLength(x);
  }

  lemma {:induction false} EncodedLength(x: Bytes)
    ensures |Encoded(x)| == (|x| + 2) / 3 * 4
    decreases |x|
  {
    hide Quad;
    if x != [] { EncodedLength(x[Min(3, |x|)..]); }
  }

  // ---------- encoding ----------

  /** output64chunk */
  function Chunk(a: Byte, b: Byte, c: Byte, pads: int): Bytes {
    [Basis(a / 4), Basis(a % 4 * 16 + b / 16)]
    + if pads == 2 then [PAD, PAD]
      else if pads != 0 then [Basis(b % 16 * 4 + c / 64), PAD]
      else [Basis(b % 16 * 4 + c / 64), Basis(c % 64)]
  }

  lemma ChunkDigits(a: int, b: int, c: int)
    requires 0 <= a < 256 && 0 <= b < 256 && 0 <= c < 256
    ensures var n := a * 65536 + b * 256 + c;
      && n / 262144 == a / 4 && n / 4096 % 64 == a % 4 * 16 + b / 16
      && n / 64 % 64 == b % 16 * 4 + c / 64 && n % 64 == c % 64
  {
    var n := a * 65536 + b * 256 + c;
    var (a1, a0) := (a / 4, a % 4);
    var (b1, b0) := (b / 16, b % 16);
    var (c1, c0) := (c / 64, c % 64);
    Divides(n, 64, a * 1024 + b * 4 + c1, c0);
    Divides(a * 1024 + b * 4 + c1, 64, a * 16 + b1, b0 * 4 + c1);
    Divides(n, 4096, a * 16 + b1, (b0 * 4 + c1) * 64 + c0);
    Divides(a * 16 + b1, 64, a1, a0 * 16 + b1);
    Divides(n, 262144, a1, (a0 * 16 + b1) * 4096 + (b0 * 4 + c1) * 64 + c0);
  }

  lemma ChunkQuad(g: Bytes, a: Byte, b: Byte, c: Byte)
    requires 1 <= |g| <= 3 && a == g[0] && b == (if |g| > 1 then g[1] else 0) && c == (if |g| > 2 then g[2] else 0)
    ensures Chunk(a, b, c, 3 - |g|) == Quad(g)
  {
    hide Basis;
    ChunkDigits(a, b, c);
  }

  lemma EncodedStart(src: Bytes)
    ensures [] + Encoded(src[0..]) == Encoded(src) && Encoded([]) == []
  {
    assert src[0..] == src;
  }

  /** dm_to64 */
  method ToBase64(src: Bytes) returns (dest: Bytes)
    ensures dest == Encoded(src)
    ensures |dest| + 1 <= (|src| + 3) * 4 / 3
  {
    hide Quad, Chunk, Encoded;
    var i := 0;
    dest := [];
    EncodedStart(src);
    while i < |src|
      invariant 0 <= i && dest + Encoded(src[Min(i, |src|)..]) == Encoded(src)
    {
      var a, b, c, j := TakeThree(src, i);
      EncodedStep(dest, src[i..], Encoded(src));
      SliceAgain(src, i, j);
      ChunkQuad(src[i..][..j], a, b, c);
      dest := dest + Chunk(a, b, c, 3 - j);
      i := i + 3;
    }
    EncodedEnd(dest, src[Min(i, |src|)..]);
    EncodedFits(src);
  }

  /** The next bytes, up to three; 0 for those that are not there. */
  method TakeThree(src: Bytes, i: int) returns (a: Byte, b: Byte, c: Byte, j: int)
    requires 0 <= i < |src|
    ensures j == Min(3, |src| - i)
    ensures a == src[i] && b == (if j > 1 then src[i + 1] else 0) && c == (if j > 2 then src[i + 2] else 0)
  {
    a, b, c, j := 0, 0, 0, 0;
    while j < 3 && i + j < |src|
      invariant 0 <= j <= 3 && i + j <= |src|
      invariant a == (if j > 0 then src[i] else 0) && b == (if j > 1 then src[i + 1] else 0)
        && c == (if j > 2 then src[i + 2] else 0)
    {
      if j == 0 { a := src[i]; } else if j == 1 { b := src[i + 1]; } else { c := src[i + 2]; }
      j := j + 1;
    }
  }

  lemma EncodedStep(dest: Bytes, x: Bytes, all: Bytes)
    requires x != [] && dest + Encoded(x) == all
    ensures var n := Min(3, |x|); dest + Quad(x[..n]) + Encoded(x[n..]) == all
  {
    hide Quad, Encoded;
    var n := Min(3, |x|);
    EncodedFirst(x);
    Assoc(dest, Quad(x[..n]), Encoded(x[n..]));
  }

  lemma EncodedEnd(dest: Bytes, x: Bytes)
    requires x == []
    ensures dest + Encoded(x) == dest
  {}

  lemma SliceAgain(s: Bytes, i: int, j: int)
    requires 0 <= i && 0 <= j && i + j <= |s|
    ensures s[i..][j..] == s[i + j..]
  {}

  lemma Assoc(a: Bytes, b: Bytes, c: Bytes)
    ensures a + (b + c) == a + b + c
  {}

  lemma EncodedFirst(x: Bytes)
    requires x != []
    ensures Encoded(x) == Quad(x[..Min(3, |x|)]) + Encoded(x[Min(3, |x|)..])
  {}

  lemma EncodedOne(x: Bytes)
    requires 1 <= |x| <= 3
    ensures Encoded(x) == Quad(x)
  {
    hide Quad;
    assert x[..|x|] == x && x[|x|..] == [];
    assert Quad(x) + [] == Quad(x);
  }

  /** Four digits that make up the number of a group. */
  lemma QuadOf(g: Bytes, d: int, e: int, f: int, h: int)
    requires 1 <= |g| <= 3 && 0 <= d < 64 && 0 <= e < 64 && 0 <= f < 64 && 0 <= h < 64
    requires Number(g) == d * 262144 + e * 4096 + f * 64 + h
    ensures Quad(g) ==
      [Basis(d), Basis(e), if |g| > 1 then Basis(f) else PAD, if |g| > 2 then Basis(h) else PAD]
  {
    hide Basis, Number;
    var n := Number(g);
    Divides(n, 64, d * 4096 + e * 64 + f, h);
    Divides(d * 4096 + e * 64 + f, 64, d * 64 + e, f);
    Divides(n, 4096, d * 64 + e, f * 64 + h);
    Divides(d * 64 + e, 64, d, e);
    Divides(n, 262144, d, e * 4096 + f * 64 + h);
  }

  /** The test vectors in section 10 of RFC 4648: "f", "fo" and "foo" are "Zg==", "Zm8=" and "Zm9v", and "bar", the
      rest of "foobar", is "YmFy". */
  lemma TestVectors()
    ensures Encoded([102]) == [90, 103, 61, 61] && Encoded([102, 111]) == [90, 109, 56, 61]
    ensures Encoded([102, 111, 111]) == [90, 109, 57, 118] && Encoded([98, 97, 114]) == [89, 109, 70, 121]
    ensures Encoded([0xFB, 0xF0, 0]) == [43, 47, 65, 65]
  {
    hide Encoded, Quad;
    EncodedOne([102]);
    QuadOf([102], 25, 32, 0, 0);
    EncodedOne([102, 111]);
    QuadOf([102, 111], 25, 38, 60, 0);
    EncodedOne([102, 111, 111]);
    QuadOf([102, 111, 111], 25, 38, 61, 47);
    EncodedOne([98, 97, 114]);
    QuadOf([98, 97, 114], 24, 38, 5, 50);
    EncodedOne([0xFB, 0xF0, 0]);
    QuadOf([0xFB, 0xF0, 0], 62, 63, 0, 0);
  }

  /** Those of six bytes: the groups are encoded one by one. */
  lemma {:induction false} EncodedJoin(x: Bytes, y: Bytes)
    requires |x| % 3 == 0
    ensures Encoded(x + y) == Encoded(x) + Encoded(y)
    decreases |x|
  {
    hide Quad, Encoded;
    if x == [] {
      assert x + y == y;
      EncodedStart([]);
    } else {
      EncodedFirst(x);
      EncodedFirst(x + y);
      assert (x + y)[..3] == x[..3] && (x + y)[3..] == x[3..] + y;
      EncodedJoin(x[3..], y);
      Assoc(Quad(x[..3]), Encoded(x[3..]), Encoded(y));
    }
  }

  // ---------- decoding ----------

  /** The decoder's state. Only the bits above the low six of `bits` are ever set between characters. */
  datatype State = State(i: int, bits: int, out: Bytes)

  ghost predicate Sane(s: State) {
    s.i in {0, 2, 4, 6, 8} && s.bits % 64 == 0 && 0 <= s.bits < MOD
  }

  function Pow2(n: nat): int {
    if n == 0 then 1 else if n == 2 then 4 else if n == 4 then 16 else if n == 6 then 64 else 256
  }

  function LowByte(n: int): Byte {
    n % 256
  }

  /** n << 6 in 32 bits */
  function Shift6(n: int): (r: int)
    ensures r % 64 == 0 && 0 <= r < MOD
  {
    n % 0x400_0000 * 64
  }

  /** One character other than '='. Or-ing the digit in is an addition, as the low six bits are clear. */
  function Step(s: State, c: Byte): (r: State)
    requires Sane(s)
    ensures Sane(r)
  {
    if s.i % 8 == 0 && White(c) then s
    else
      var b := s.bits + GetBits(c);
      var i := s.i + 6;
      if i > 8 then State(i % 8, Shift6(b), s.out + [LowByte(b / Pow2(i % 8))])
      else State(i, Shift6(b), s.out)
  }

  function Run(s: State, input: Bytes): (r: (State, bool))
    requires Sane(s)
    ensures Sane(r.0)
    decreases |input|
  {
    if input == [] then (s, false)
    else if input[0] == PAD then (s, true)
    else Run(Step(s, input[0]), input[1..])
  }

  /** What is left at the end of the input, unless padding ended it. */
  function Finish(s: State, padded: bool): Bytes
    requires Sane(s)
  {
    if s.i != 0 && !padded then s.out + [LowByte(s.bits / Pow2(s.i - 2))] else s.out
  }

  function Decoded(input: Bytes): Bytes {
    var r := Run(State(0, 0, []), input);
    Finish(r.0, r.1)
  }

  /** dm_from64, of a C string */
  method FromBase64(input: Bytes) returns (output: Bytes)
    ensures output == Decoded(input)
    ensures |output| + 1 <= (|input| + 4) * 3 / 4
  {
    hide Step;
    var s := State(0, 0, []);
    var k := 0;
    while k < |input| && input[k] != PAD
      invariant 0 <= k <= |input| && Sane(s)
      invariant Run(s, input[k..]) == Run(State(0, 0, []), input)
      invariant 8 * |s.out| + s.i <= 6 * k
    {
      StepGrows(s, input[k]);
      assert input[k..][1..] == input[k + 1..];
      s := Step(s, input[k]);
      k := k + 1;
    }
    if s.i != 0 && k == |input| {
      return s.out + [LowByte(s.bits / Pow2(s.i - 2))];
    }
    return s.out;
  }

  /** Every byte handed out costs eight bits read. */
  lemma StepGrows(s: State, c: Byte)
    requires Sane(s)
    ensures var r := Step(s, c); 8 * |r.out| + r.i <= 8 * |s.out| + s.i + 6
  {}

  // ---------- round trip ----------

  /** Between quads: all of `x` was read, and its last byte is still held back. */
  ghost predicate Boundary(s: State, x: Bytes) {
    && Sane(s)
    && (x == [] ==> s.i == 0 && s.out == [])
    && (x != [] ==> s.i == 8 && s.out == x[..|x| - 1] && LowByte(s.bits / 64) == x[|x| - 1])
  }

  lemma Multiple(d: int, k: int)
    requires d >= 1 && k >= 0
    ensures d * k >= k
  {}

  lemma Unique(k: int, q: int, r: int, p: int, m: int)
    requires 0 <= r < k && 0 <= m < k && q * k + r == p * k + m
    ensures p == q && m == r
  {
    if p > q {
      assert (p - q) * k == p * k - q * k;
      Multiple(p - q, k);
    } else if p < q {
      assert (q - p) * k == q * k - p * k;
      Multiple(q - p, k);
    }
  }

  lemma Quotient(n: int, k: int)
    requires k > 0
    ensures n == n / k * k + n % k && 0 <= n % k < k
  {}

  /** Quotient and remainder are unique. */
  lemma Divides(n: int, k: int, q: int, r: int)
    requires 0 <= r < k && n == q * k + r
    ensures n / k == q && n % k == r
  {
    Quotient(n, k);
    Unique(k, q, r, n / k, n % k);
  }

  lemma ShiftMod(b: int)
    requires b >= 0
    ensures Shift6(b) % 4096 == b % 64 * 64
    ensures Shift6(b) % 262144 == b % 4096 * 64
    ensures Shift6(b) / 64 % 256 == b % 256
  {
    var q, r := b / 0x400_0000, b % 0x400_0000;
    ModOfMod(q, r, 64, 0x10_0000);
    ModOfMod(q, r, 4096, 0x4000);
    ModOfMod(q, r, 256, 0x4_0000);
    Divides(r * 64, 64, r, 0);
    Divides(r * 64, 4096, r / 64, r % 64 * 64);
    Divides(r * 64, 262144, r / 4096, r % 4096 * 64);
  }

  lemma ModOfMod(q: int, r: int, k: int, t: int)
    requires k > 0 && t > 0
    ensures (q * (k * t) + r) % k == r % k
  {
    assert q * (k * t) == (q * t) * k;
    assert (q * t) * k + (r / k) * k == (q * t + r / k) * k;
    Divides(q * (k * t) + r, k, q * t + r / k, r % k);
  }

  lemma First(s: State, x: Bytes, d: int)
    requires Boundary(s, x) && 0 <= d < 64
    ensures var r := Step(s, Basis(d)); r.i == 6 && r.out == x && r.bits % 4096 == d * 64
  {
    hide Shift6, Basis;
    DigitRead(d);
    var b := s.bits + d;
    Divides(b, 64, s.bits / 64, d);
    ShiftMod(b);
    if x != [] {
      assert x == x[..|x| - 1] + [x[|x| - 1]];
    }
  }

  lemma Second(s: State, d: int, e: int)
    requires Sane(s) && s.i == 6 && 0 <= d < 64 && 0 <= e < 64 && s.bits % 4096 == d * 64
    ensures var r := Step(s, Basis(e));
      r.i == 4 && r.out == s.out + [(d * 64 + e) / 16] && r.bits % 262144 == (d * 64 + e) * 64
  {
    hide Shift6, Basis;
    DigitRead(e);
    var b := s.bits + e;
    Divides(b, 4096, s.bits / 4096, d * 64 + e);
    ByteAt4(b, d * 64 + e);
    ShiftMod(b);
  }

  lemma ByteAt4(b: int, v: int)
    requires b >= 0 && b % 4096 == v
    ensures b / 16 % 256 == v / 16
  {
    var q := b / 4096;
    Divides(b, 16, q * 256 + v / 16, v % 16);
    Divides(q * 256 + v / 16, 256, q, v / 16);
  }

  lemma Third(s: State, v: int, f: int)
    requires Sane(s) && s.i == 4 && 0 <= v < 4096 && 0 <= f < 64 && s.bits % 262144 == v * 64
    ensures var r := Step(s, Basis(f)); r.i == 2 && r.out == s.out + [(v % 16 * 64 + f) / 4] && r.bits % 4096 == f * 64
  {
    hide Shift6, Basis;
    DigitRead(f);
    var b := s.bits + f;
    ByteAt2(b, v, f);
    ShiftMod(b);
  }

  lemma ByteAt2(b: int, v: int, f: int)
    requires 0 <= v < 4096 && 0 <= f < 64 && (b - f) % 262144 == v * 64 && b >= f
    ensures b / 4 % 256 == (v % 16 * 64 + f) / 4 && b % 64 == f
  {
    var q, u, w := (b - f) / 262144, v / 16, v % 16 * 64 + f;
    assert b == q * 262144 + u * 1024 + w;
    Divides(b, 4, q * 65536 + u * 256 + w / 4, w % 4);
    Divides(q * 65536 + u * 256 + w / 4, 256, q * 256 + u, w / 4);
    Divides(b, 64, q * 4096 + u * 16 + v % 16, f);
  }

  lemma Fourth(s: State, x: Bytes, f: int, g: int)
    requires Sane(s) && s.i == 2 && 0 <= f < 64 && 0 <= g < 64 && s.bits % 4096 == f * 64
    requires x != [] && s.out == x[..|x| - 1] && (f * 64 + g) % 256 == x[|x| - 1]
    ensures Boundary(Step(s, Basis(g)), x)
  {
    hide Shift6, Basis;
    DigitRead(g);
    var b := s.bits + g;
    var q, w := s.bits / 4096, f * 64 + g;
    Divides(b, 256, q * 16 + w / 256, w % 256);
    ShiftMod(b);
  }

  /** The bytes that the digits of a group give back. */
  lemma BytesBack(a: int, b: int, c: int)
    requires 0 <= a < 256 && 0 <= b < 256 && 0 <= c < 256
    ensures var n := a * 65536 + b * 256 + c;
      var d, e, f, g := n / 262144, n / 4096 % 64, n / 64 % 64, n % 64;
      (d * 64 + e) / 16 == a && ((d * 64 + e) % 16 * 64 + f) / 4 == b && (f * 64 + g) % 256 == c
  {
    ChunkDigits(a, b, c);
    var (b1, b0) := (b / 16, b % 16);
    Divides(a * 16 + b1, 16, a, b1);
    Divides(b * 4 + c / 64, 4, b, c / 64);
    Divides(b0 * 256 + c, 256, b0, c);
    assert a / 4 * 64 + (a % 4 * 16 + b1) == a * 16 + b1;
    assert b1 * 64 + (b0 * 4 + c / 64) == b * 4 + c / 64;
    assert (b0 * 4 + c / 64) * 64 + c % 64 == b0 * 256 + c;
  }

  lemma GroupBack(g: Bytes)
    requires 1 <= |g| <= 3
    ensures var n := Number(g);
      var d, e, f, h := Digit(n, 0), Digit(n, 1), Digit(n, 2), Digit(n, 3);
      && (d * 64 + e) / 16 == g[0]
      && (|g| > 1 ==> ((d * 64 + e) % 16 * 64 + f) / 4 == g[1])
      && (|g| > 2 ==> (f * 64 + h) % 256 == g[2])
  {
    BytesBack(g[0], if |g| > 1 then g[1] else 0, if |g| > 2 then g[2] else 0);
  }

  lemma RunDigit(s: State, v: int, rest: Bytes)
    requires Sane(s) && 0 <= v < 64
    ensures Run(s, [Basis(v)] + rest) == Run(Step(s, Basis(v)), rest)
  {
    hide Step, Basis;
    DigitRead(v);
    assert ([Basis(v)] + rest)[1..] == rest;
  }

  ghost predicate AllWhite(w: Bytes) {
    forall i :: 0 <= i < |w| ==> White(w[i])
  }

  lemma {:induction false} WhiteSkipped(s: State, w: Bytes, rest: Bytes)
    requires Sane(s) && s.i % 8 == 0 && AllWhite(w)
    ensures Run(s, w + rest) == Run(s, rest)
    decreases |w|
  {
    if w == [] {
      assert w + rest == rest;
    } else {
      assert (w + rest)[1..] == w[1..] + rest;
      WhiteSkipped(s, w[1..], rest);
    }
  }

  /** The digits of a group, one after the other, with what follows them. */
  lemma QuadRead(s: State, x: Bytes, g: Bytes, rest: Bytes)
    requires Boundary(s, x) && 1 <= |g| <= 3
    ensures |g| == 3 ==> exists t :: Boundary(t, x + g) && Run(s, Quad(g) + rest) == Run(t, rest)
    ensures |g| < 3 ==> Run(s, Quad(g) + rest).1 && Run(s, Quad(g) + rest).0.out == x + g
  {
    hide Run, Step, Basis, Boundary, Sane, Number, Digit;
    var n := Number(g);
    var d, e, f, h := Digit(n, 0), Digit(n, 1), Digit(n, 2), Digit(n, 3);
    BoundarySane(s, x);
    GroupBack(g);
    var tail := Quad(g)[1..] + rest;
    assert Quad(g) + rest == [Basis(d)] + tail;
    RunDigit(s, d, tail);
    First(s, x, d);
    var s1 := Step(s, Basis(d));
    var tail1 := Quad(g)[2..] + rest;
    assert tail == [Basis(e)] + tail1;
    RunDigit(s1, e, tail1);
    Second(s1, d, e);
    var s2 := Step(s1, Basis(e));
    if |g| == 1 {
      RunPadded(s2, tail1);
      assert x + g == x + [g[0]];
    } else {
      var tail2 := Quad(g)[3..] + rest;
      assert tail1 == [Basis(f)] + tail2;
      RunDigit(s2, f, tail2);
      Third(s2, d * 64 + e, f);
      var s3 := Step(s2, Basis(f));
      if |g| == 2 {
        RunPadded(s3, tail2);
        assert x + g == x + [g[0]] + [g[1]];
      } else {
        assert tail2 == [Basis(h)] + rest;
        RunDigit(s3, h, rest);
        assert (x + g)[..|x + g| - 1] == x + [g[0]] + [g[1]];
        Fourth(s3, x + g, f, h);
      }
    }
  }

  lemma BoundarySane(s: State, x: Bytes)
    requires Boundary(s, x)
    ensures Sane(s) && s.i % 8 == 0
  {}

  lemma RunPadded(s: State, input: Bytes)
    requires Sane(s) && input != [] && input[0] == PAD
    ensures Run(s, input) == (s, true)
  {}

  /** An encoding with white space before, between and after its quads. */
  function Spread(x: Bytes, gaps: seq<Bytes>): Bytes
    requires |gaps| == (|x| + 2) / 3 + 1
    decreases |x|
  {
    if x == [] then gaps[0] else
      var n := Min(3, |x|);
      gaps[0] + (Quad(x[..n]) + Spread(x[n..], gaps[1..]))
  }

  /** Decoding undoes encoding, whatever white space is put between the quads. */
  lemma {:induction false} DecodeRest(s: State, x: Bytes, y: Bytes, gaps: seq<Bytes>)
    requires Boundary(s, x) && |gaps| == (|y| + 2) / 3 + 1 && forall i :: 0 <= i < |gaps| ==> AllWhite(gaps[i])
    ensures var r := Run(s, Spread(y, gaps)); Finish(r.0, r.1) == x + y
    decreases |y|
  {
    hide Run, Step, Quad, AllWhite;
    if y == [] {
      WhiteSkipped(s, gaps[0], []);
      assert gaps[0] + [] == gaps[0];
      RunEnd(s);
      assert x != [] ==> x == x[..|x| - 1] + [x[|x| - 1]];
      assert x + y == x;
    } else {
      var n := Min(3, |y|);
      var g, rest := y[..n], Spread(y[n..], gaps[1..]);
      WhiteSkipped(s, gaps[0], Quad(g) + rest);
      QuadRead(s, x, g, rest);
      if n == 3 {
        var t :| Boundary(t, x + g) && Run(s, Quad(g) + rest) == Run(t, rest);
        DecodeRest(t, x + g, y[3..], gaps[1..]);
        assert x + g + y[3..] == x + y;
      } else {
        assert g == y;
      }
    }
  }

  lemma RunEnd(s: State)
    requires Sane(s)
    ensures Run(s, []) == (s, false)
  {}

  lemma RoundTrip(x: Bytes, gaps: seq<Bytes>)
    requires |gaps| == (|x| + 2) / 3 + 1 && forall i :: 0 <= i < |gaps| ==> AllWhite(gaps[i])
    ensures Decoded(Spread(x, gaps)) == x
  {
    hide Run, Spread;
    DecodeRest(State(0, 0, []), [], x, gaps);
    assert [] + x == x;
  }

  lemma {:induction false} SpreadNothing(x: Bytes, gaps: seq<Bytes>)
    requires |gaps| == (|x| + 2) / 3 + 1 && forall i :: 0 <= i < |gaps| ==> gaps[i] == []
    ensures Spread(x, gaps) == Encoded(x)
    decreases |x|
  {
    hide Quad;
    if x != [] { SpreadNothing(x[Min(3, |x|)..], gaps[1..]); }
  }

  /** dm_from64(dm_to64(x)) == x */
  lemma RoundTripPlain(x: Bytes)
    ensures Decoded(Encoded(x)) == x
  {
    hide Run, Spread, Encoded, Decoded;
    var gaps: seq<Bytes> := seq((|x| + 2) / 3 + 1, i => []);
    SpreadNothing(x, gaps);
    RoundTrip(x, gaps);
  }

  /** Tab, line feed, carriage return and space before an encoding are skipped. */
  lemma BlanksSkipped(x: Bytes)
    ensures Decoded([9, 10, 13, 32] + Encoded(x)) == x
  {
    hide Encoded, Run;
    WhiteSkipped(State(0, 0, []), [9, 10, 13, 32], Encoded(x));
    RoundTripPlain(x);
  }

  // ---------- without the padding ----------

  /** An encoding without its padding. */
  function Unpadded(x: Bytes): Bytes {
    EncodedLength(x);
    Encoded(x)[..|Encoded(x)| - (3 - |x| % 3) % 3]
  }

  /** Whole groups, and what follows them. */
  lemma {:induction false} QuadsRead(s: State, x: Bytes, y: Bytes, rest: Bytes) returns (t: State)
    requires Boundary(s, x) && |y| % 3 == 0
    ensures Boundary(t, x + y) && Run(s, Encoded(y) + rest) == Run(t, rest)
    decreases |y|
  {
    hide Run, Quad, Encoded, LowByte;
    if y == [] {
      EncodedStart([]);
      t := s;
      assert Encoded(y) + rest == rest && x + y == x;
    } else {
      var g, z := y[..3], y[3..];
      EncodedFirst(y);
      Assoc(Quad(g), Encoded(z), rest);
      QuadRead(s, x, g, Encoded(z) + rest);
      var u :| Boundary(u, x + g) && Run(s, Quad(g) + (Encoded(z) + rest)) == Run(u, Encoded(z) + rest);
      t := QuadsRead(u, x + g, z, rest);
      assert x + g + z == x + y;
    }
  }

  /** The digits of an incomplete group: its bytes are handed out, and one more at the end. */
  lemma TailRead(s: State, x: Bytes, g: Bytes)
    requires Boundary(s, x) && Sane(s) && 1 <= |g| <= 2
    ensures var r := Run(s, Quad(g)[..|g| + 1]); |Finish(r.0, r.1)| == |x| + |g| + 1 && x + g <= Finish(r.0, r.1)
  {
    hide Run, Step, Basis, Boundary, Number, Digit;
    var n := Number(g);
    var d, e, f := Digit(n, 0), Digit(n, 1), Digit(n, 2);
    BoundarySane(s, x);
    GroupBack(g);
    var input := Quad(g)[..|g| + 1];
    assert input == [Basis(d)] + input[1..];
    RunDigit(s, d, input[1..]);
    First(s, x, d);
    var s1 := Step(s, Basis(d));
    assert input[1..] == [Basis(e)] + input[2..];
    RunDigit(s1, e, input[2..]);
    Second(s1, d, e);
    var s2 := Step(s1, Basis(e));
    if |g| == 1 {
      assert input[2..] == [];
      RunEnd(s2);
      assert x + g == x + [g[0]];
    } else {
      assert input[2..] == [Basis(f)] + [];
      RunDigit(s2, f, []);
      Third(s2, d * 64 + e, f);
      RunEnd(Step(s2, Basis(f)));
      assert x + g == x + [g[0]] + [g[1]];
    }
  }

  /** Without padding the decoder hands out what it holds back, so that a byte is added, exactly if there should be
      padding. */
  lemma UnpaddedDecoded(x: Bytes)
    ensures x <= Decoded(Unpadded(x)) && |Decoded(Unpadded(x))| == |x| + if |x| % 3 == 0 then 0 else 1
  {
    hide Run, Quad, Encoded, Finish, Boundary;
    if |x| % 3 == 0 {
      RoundTripPlain(x);
      EncodedLength(x);
      assert Unpadded(x) == Encoded(x);
    } else {
      var k := |x| - |x| % 3;
      var a, g := x[..k], x[k..];
      assert x == a + g;
      EncodedJoin(a, g);
      EncodedOne(g);
      EncodedLength(x);
      assert Unpadded(x) == Encoded(a) + Quad(g)[..|g| + 1];
      BoundaryStart();
      var t := QuadsRead(State(0, 0, []), [], a, Quad(g)[..|g| + 1]);
      assert [] + a == a;
      BoundarySane(t, a);
      TailRead(t, a, g);
    }
  }

  /** "Zg" is "f" and one more byte. */
  lemma UnpaddedOne()
    ensures [102] <= Decoded([90, 103]) && |Decoded([90, 103])| == 2
  {
    hide Decoded;
    UnpaddedDecoded([102]);
    TestVectors();
    assert [90, 103, 61, 61][..2] == [90, 103];
    assert Unpadded([102]) == [90, 103];
  }

  lemma BoundaryStart()
    ensures Boundary(State(0, 0, []), [])
  {}
}
