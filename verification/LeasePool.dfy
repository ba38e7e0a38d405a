/** The bitmap of leases: finding a free bit in a range from a hashed starting point. */
module LeasePool {

  const SIZE := 32

  /** An unsigned int, bit 0 first. */
  type Word = w: seq<bool> | |w| == SIZE witness Same(false)

  type BitMap = seq<Word>

  function Same(b: bool): (s: seq<bool>)
    ensures |s| == SIZE && forall i :: 0 <= i < SIZE ==> s[i] == b
  {
    seq(SIZE, i => b)
  }

  /** UINT_MAX */
  function Ones(): Word { Same(true) }
  function Zero(): Word { Same(false) }

  function Or(a: Word, b: Word): Word {
    seq(SIZE, i requires 0 <= i < SIZE => a[i] || b[i])
  }

  function Not(a: Word): Word {
    seq(SIZE, i requires 0 <= i < SIZE => !a[i])
  }

  /** a << n */
  function Left(a: Word, n: nat): Word {
    seq(SIZE, i requires 0 <= i < SIZE => i >= n && a[i - n])
  }

  /** a >> n */
  function Right(a: Word, n: nat): Word {
    seq(SIZE, i requires 0 <= i < SIZE => i + n < SIZE && a[i + n])
  }

  function Ror(b: Word, pos: nat): Word
    requires pos < SIZE
  {
    Or(Right(b, pos), Left(b, SIZE - pos))
  }

  /** Rotating moves bit `pos + i` to place `i`, around the end. */
  lemma RorBits(b: Word, pos: nat, i: nat)
    requires pos < SIZE && i < SIZE
    ensures Ror(b, pos)[i] == b[(i + pos) % SIZE]
  {
    if i + pos < SIZE {
      assert (i + pos) % SIZE == i + pos;
    } else {
      assert (i + pos) % SIZE == i + pos - SIZE;
    }
  }

  /** ffs: one more than the place of the first bit set, 0 if there is none. */
  method Ffs(w: Word) returns (n: nat)
    ensures n == 0 <==> w == Zero()
    ensures n > 0 ==> n <= SIZE && w[n - 1] && forall i :: 0 <= i < n - 1 ==> !w[i]
  {
    for i := 0 to SIZE
      invariant forall j :: 0 <= j < i ==> !w[j]
    {
      if w[i] {
        return i + 1;
      }
    }
    assert w == Zero();
    return 0;
  }

  predicate Bit(bm: BitMap, id: int)
    requires 0 <= id < SIZE * |bm|
  {
    bm[id / SIZE][id % SIZE]
  }

  /** map_set_bit */
  function WithBit(bm: BitMap, id: int, value: bool): (r: BitMap)
    requires 0 <= id < SIZE * |bm|
    ensures |r| == |bm|
  {
    bm[id / SIZE := bm[id / SIZE][id % SIZE := value]]
  }

  /** Setting or clearing a bit changes that bit only. */
  lemma WithBitBits(bm: BitMap, id: int, value: bool, i: int)
    requires 0 <= id < SIZE * |bm| && 0 <= i < SIZE * |bm|
    ensures Bit(WithBit(bm, id, value), i) == if i == id then value else Bit(bm, i)
  {
    if i / SIZE == id / SIZE && i % SIZE == id % SIZE {
      assert i == SIZE * (i / SIZE) + i % SIZE;
    }
  }

  /** get_mask: the bits of word `pos` outside of the range. */
  function GetMask(min: nat, max: nat, pos: nat): Word {
    var low := if pos == min / SIZE && min % SIZE != 0 then Right(Ones(), SIZE - min % SIZE) else Zero();
    var high := if pos == max / SIZE && max % SIZE + 1 != SIZE then Left(Ones(), max % SIZE + 1) else Zero();
    Or(low, high)
  }

  lemma MaskBits(min: nat, max: nat, pos: nat, j: nat)
    requires min / SIZE <= pos <= max / SIZE && j < SIZE
    ensures GetMask(min, max, pos)[j] <==> !(min <= SIZE * pos + j <= max)
  {
    assert min == SIZE * (min / SIZE) + min % SIZE;
    assert max == SIZE * (max / SIZE) + max % SIZE;
  }

  /** All the bits of a word that are in the range are set. */
  ghost predicate Taken(bm: BitMap, min: nat, max: nat, pos: nat)
    requires pos < |bm|
  {
    forall i :: min <= i <= max && i / SIZE == pos ==> Bit(bm, i)
  }

  lemma FullTaken(bm: BitMap, min: nat, max: nat, pos: nat)
    requires pos < |bm| && min / SIZE <= pos <= max / SIZE
    ensures Or(bm[pos], GetMask(min, max, pos)) == Ones() <==> Taken(bm, min, max, pos)
  {
    var w := Or(bm[pos], GetMask(min, max, pos));
    if w == Ones() {
      forall i | min <= i <= max && i / SIZE == pos ensures Bit(bm, i) {
        MaskBits(min, max, pos, i % SIZE);
        assert w[i % SIZE] == Ones()[i % SIZE];
      }
    }
    if Taken(bm, min, max, pos) {
      forall j | 0 <= j < SIZE ensures w[j] {
        MaskBits(min, max, pos, j);
        var i := SIZE * pos + j;
        assert i / SIZE == pos && i % SIZE == j;
        assert min <= i <= max ==> Bit(bm, i);
      }
      assert w == Ones();
    }
  }

  /** Inside the range nothing is masked. */
  lemma InnerMask(min: nat, max: nat, pos: nat)
    requires min / SIZE < pos < max / SIZE
    ensures GetMask(min, max, pos) == Zero()
  {}

  /** get_bit: a bit that is clear in the word and in the mask; `bit` itself if it is. */
  method GetBit(p: Word, mask: Word, bit: nat) returns (r: nat)
    requires bit < SIZE && Or(p, mask) != Ones()
    ensures r < SIZE && !p[r] && !mask[r]
    ensures !p[bit] && !mask[bit] ==> r == bit
  {
    var q := Or(p, mask);
    if !q[bit] {
      return bit;
    }
    var n := Ffs(Not(Ror(q, bit)));
    SomeClear(q, bit);
    RorBits(q, bit, n - 1);
    return (n - 1 + bit) % SIZE;
  }

  lemma SomeClear(q: Word, bit: nat)
    requires bit < SIZE && q != Ones()
    ensures Not(Ror(q, bit)) != Zero()
  {
    var k :| 0 <= k < SIZE && !q[k];
    var i := (k + SIZE - bit) % SIZE;
    RorBits(q, bit, i);
    assert (i + bit) % SIZE == k;
    assert Not(Ror(q, bit))[i];
  }

  class IpPool {
    const leases: array<Word>
    const min: nat
    const max: nat

    ghost predicate Valid()
      reads this
    {
      min <= max && max / SIZE < leases.Length
    }

    /** new_network_pool and new_ip_pool over a bitmap that may have leases already. */
    constructor (leases: array<Word>, min: nat, max: nat)
      requires min <= max && max / SIZE < leases.Length
      ensures Valid() && this.leases == leases && this.min == min && this.max == max
    {
      this.leases, this.min, this.max := leases, min, max;
    }

    /** The first word from `from` on, and below `to`, that has a free bit in the range. */
    method Scan(from: nat, to: nat) returns (pos: nat, mask: Word)
      requires Valid() && min / SIZE <= from <= to <= max / SIZE
      ensures from <= pos <= to
      ensures forall q :: from <= q < pos ==> Taken(leases[..], min, max, q)
      ensures pos < to ==> mask == GetMask(min, max, pos) && Or(leases[pos], mask) != Ones()
    {
      pos := from;
      mask := GetMask(min, max, pos);
      while pos < to && Or(leases[pos], mask) == Ones()
        invariant from <= pos <= to
        invariant forall q :: from <= q < pos ==> Taken(leases[..], min, max, q)
        invariant pos < to ==> mask == GetMask(min, max, pos)
      {
        FullTaken(leases[..], min, max, pos);
        pos := pos + 1;
        mask := Zero();
        if pos < to {
          InnerMask(min, max, pos);
        }
      }
    }

    /** A word with a free bit in the range, from word `spos` on and around the end; -1 if there is none. */
    method FindWord(spos: nat) returns (pos: int, mask: Word)
      requires Valid() && min / SIZE <= spos <= max / SIZE
      ensures pos == -1 ==> forall i :: min <= i <= max ==> Bit(leases[..], i)
      ensures pos != -1 ==>
        min / SIZE <= pos <= max / SIZE && mask == GetMask(min, max, pos) && Or(leases[pos], mask) != Ones()
      ensures pos != spos ==> Taken(leases[..], min, max, spos)
    {
      hide Taken, Or, GetMask;
      var minpos, maxpos := min / SIZE, max / SIZE;
      pos, mask := Scan(spos, maxpos);
      mask := GetMask(min, max, pos);
      FullTaken(leases[..], min, max, pos);
      if Or(leases[pos], mask) == Ones() {
        if pos == minpos {
          AllTaken(leases[..], min, max);
          return -1, mask;
        }
        pos, mask := Scan(minpos, spos);
        if pos >= spos {
          AllTaken(leases[..], min, max);
          return -1, mask;
        }
      }
    }

    /** allocate_lease: fails exactly when the whole range is taken; otherwise takes one free bit of it, the one that
        the hash asks for if that is free. */
    method AllocateLease(hash: nat) returns (lease: int)
      requires Valid()
      modifies leases
      ensures lease == -1 <==> forall i :: min <= i <= max ==> Bit(old(leases[..]), i)
      ensures lease == -1 ==> leases[..] == old(leases[..])
      ensures lease != -1 ==> min <= lease <= max && !Bit(old(leases[..]), lease)
      ensures lease != -1 ==> leases[..] == WithBit(old(leases[..]), lease, true)
      ensures var wanted := min + hash % (max - min + 1); !Bit(old(leases[..]), wanted) ==> lease == wanted
    {
      hide Or, GetMask, Ones;
      var wanted := min + hash % (max - min + 1);
      var spos, bit := wanted / SIZE, wanted % SIZE;
      var pos, mask := FindWord(spos);
      if pos == -1 {
        return -1;
      }
      if pos == spos { MaskBits(min, max, pos, bit); }
      bit := GetBit(leases[pos], mask, bit);
      MaskBits(min, max, pos, bit);
      lease := pos * SIZE + bit;
      assert lease / SIZE == pos && lease % SIZE == bit;
      assert !Bit(leases[..], lease);
      leases[pos] := leases[pos][bit := true];
    }

    /** release_lease: only leases of this pool are given back. The number is an int and compared as an unsigned one;
        a negative one must not be in the pool then, as it would be taken for a bit far outside of the map. */
    method ReleaseLease(lease: int)
      requires Valid() && -0x8000_0000 <= lease <= 0x7FFF_FFFF && (lease < 0 ==> !(min <= Unsigned(lease) <= max))
      modifies leases
      ensures leases[..] ==
        if min <= lease <= max && lease < 0x7FFF_FFFF then WithBit(old(leases[..]), lease, false) else old(leases[..])
    {
      if lease < 0x7FFF_FFFF && Unsigned(lease) >= min && Unsigned(lease) <= max {
        leases[lease / SIZE] := leases[lease / SIZE][lease % SIZE := false];
      }
    }
  }

  /** (unsigned int) */
  function Unsigned(n: int): int {
    n % 0x1_0000_0000
  }

  lemma AllTaken(bm: BitMap, min: nat, max: nat)
    requires min <= max && max / SIZE < |bm|
    requires forall q :: min / SIZE <= q <= max / SIZE ==> Taken(bm, min, max, q)
    ensures forall i :: min <= i <= max ==> Bit(bm, i)
  {
    forall i | min <= i <= max ensures Bit(bm, i) {
      assert Taken(bm, min, max, i / SIZE);
    }
  }

  /** Leasing a free bit and giving it back leaves the bitmap as it was. */
  lemma ReleaseUndoes(bm: BitMap, lease: int)
    requires 0 <= lease < SIZE * |bm| && !Bit(bm, lease)
    ensures WithBit(WithBit(bm, lease, true), lease, false) == bm
  {
    var w := bm[lease / SIZE];
    assert w[lease % SIZE := true][lease % SIZE := false] == w;
  }
}
