/** dm_compare_values: which key types compare like a total order, as an index needs it. */
module KeyOrder {
  import opened Basics
  import opened RbOrder

  // ---------- lexicographic order ----------

  function Lex(a: seq<int>, b: seq<int>): int
    decreases |a|
  {
    if a == [] && b == [] then 0
    else if a == [] then -1
    else if b == [] then 1
    else if a[0] < b[0] then -1
    else if a[0] > b[0] then 1
    else Lex(a[1..], b[1..])
  }

  lemma {:induction false} LexFlips(a: seq<int>, b: seq<int>)
    ensures Lex(b, a) == -Lex(a, b)
    decreases |a|
  {
    if a != [] && b != [] { LexFlips(a[1..], b[1..]); }
  }

  lemma {:induction false} LexTransitive(a: seq<int>, b: seq<int>, c: seq<int>)
    requires Lex(a, b) <= 0 && Lex(b, c) <= 0
    ensures Lex(a, c) <= 0
    decreases |a|
  {
    if a != [] && b != [] && c != [] && a[0] == b[0] == c[0] { LexTransitive(a[1..], b[1..], c[1..]); }
  }

  lemma {:induction false} LexEqual(a: seq<int>, b: seq<int>)
    ensures Lex(a, b) == 0 <==> a == b
    decreases |a|
  {
    if a != [] && b != [] {
      LexEqual(a[1..], b[1..]);
      assert a == [a[0]] + a[1..] && b == [b[0]] + b[1..];
    }
  }

  // ---------- the key types ----------

  /** T_INSTANCE, T_UINT, T_INT, T_UINT64, T_INT64, T_DATE and T_TICKS */
  function NumberCmp(a: int, b: int): int {
    if a > b then 1 else if a < b then -1 else 0
  }

  /** T_ENUM: less is tested by the difference. */
  function EnumCmp(a: int, b: int): int {
    if a > b then 1 else if a - b != 0 then -1 else 0
  }

  /** T_STR, with strcmp on the bytes of the strings; NULL comes first. */
  function StringCmp(a: Option<seq<int>>, b: Option<seq<int>>): int {
    if a.Some? && b.Some? then Lex(a.value, b.value)
    else if a.None? && b.Some? then -1
    else if a.Some? && b.None? then 1 else 0
  }

  /** T_IPADDR4 and T_IPADDR6, with memcmp on addresses of one size */
  function AddressCmp(a: seq<int>, b: seq<int>): int {
    Lex(a, b)
  }

  type Selector = s: seq<int> | |s| == 16 witness [0, 0, 0, 0, 0, 0, 0, 0, 0, 0, 0, 0, 0, 0, 0, 0]

  /** Up to the first 0. */
  function Steps(s: seq<int>): seq<int> {
    if s == [] || s[0] == 0 then [] else [s[0]] + Steps(s[1..])
  }

  /** The loop of dm_selcmp from place `i` on. */
  function SelectorFrom(a: Selector, b: Selector, i: int): int
    requires 0 <= i <= 16
    decreases 16 - i
  {
    if i == 16 || (a[i] == 0 && b[i] == 0) then 0
    else if a[i] < b[i] then -1
    else if a[i] > b[i] then 1
    else SelectorFrom(a, b, i + 1)
  }

  /** dm_selcmp. A NULL comes first, also before another NULL, which is why dm_compare_values does not pass them on. */
  method SelCmp(s1: Option<Selector>, s2: Option<Selector>) returns (r: int)
    requires s1.Some? ==> forall i :: 0 <= i < 16 ==> s1.value[i] >= 0
    requires s2.Some? ==> forall i :: 0 <= i < 16 ==> s2.value[i] >= 0
    ensures s1.Some? || s2.Some? ==> r == SelectorCmp(s1, s2)
    ensures s1.None? && s2.None? ==> r == -1
  {
    if s1.None? || s2.None? {
      return if s1.Some? then 1 else -1;
    }
    var a, b := s1.value, s2.value;
    SelectorLex(a, b, 0);
    assert a[0..] == a && b[0..] == b;
    for i := 0 to 16
      invariant SelectorFrom(a, b, i) == SelectorFrom(a, b, 0)
    {
      if a[i] == 0 && b[i] == 0 {
        break;
      }
      if a[i] < b[i] {
        return -1;
      } else if a[i] > b[i] {
        return 1;
      }
    }
    return 0;
  }

  /** T_SELECTOR compares the paths lexicographically, whatever stands behind their end. */
  lemma {:induction false} SelectorLex(a: Selector, b: Selector, i: int)
    requires 0 <= i <= 16 && (forall k :: 0 <= k < 16 ==> a[k] >= 0) && (forall k :: 0 <= k < 16 ==> b[k] >= 0)
    ensures SelectorFrom(a, b, i) == Lex(Steps(a[i..]), Steps(b[i..]))
    decreases 16 - i
  {
    if i < 16 {
      SelectorLex(a, b, i + 1);
      assert a[i..][1..] == a[i + 1..] && b[i..][1..] == b[i + 1..];
      if a[i] == b[i] && a[i] != 0 {
        assert ([a[i]] + Steps(a[i + 1..]))[1..] == Steps(a[i + 1..]);
        assert ([b[i]] + Steps(b[i + 1..]))[1..] == Steps(b[i + 1..]);
      }
    }
  }

  /** T_SELECTOR, of pointers; NULL comes first. */
  function SelectorCmp(a: Option<Selector>, b: Option<Selector>): int {
    if a.Some? && b.Some? then Lex(Steps(a.value), Steps(b.value))
    else if a.None? && b.Some? then -1 else if a.Some? && b.None? then 1 else 0
  }

  /** The sign is that of the difference. */
  lemma NumberSigns(a: int, b: int)
    ensures (NumberCmp(a, b) < 0 <==> a < b) && (NumberCmp(a, b) > 0 <==> a > b)
    ensures (EnumCmp(a, b) < 0 <==> a < b) && (EnumCmp(a, b) > 0 <==> a > b)
  {}

  /** `a` and `b` are the same up to place `k`, where `a` ends or has the smaller number. */
  ghost predicate BelowAt(a: seq<int>, b: seq<int>, k: int) {
    0 <= k <= |a| && k < |b| && a[..k] == b[..k] && (k == |a| || a[k] < b[k])
  }

  /** The order of a dictionary. */
  lemma {:induction false} LexMeans(a: seq<int>, b: seq<int>)
    ensures Lex(a, b) < 0 <==> exists k :: BelowAt(a, b, k)
    ensures Lex(a, b) > 0 <==> exists k :: BelowAt(b, a, k)
    decreases |a|
  {
    if a == [] || b == [] || a[0] != b[0] {
      assert BelowAt(a, b, 0) <==> b != [] && (a == [] || a[0] < b[0]);
      assert BelowAt(b, a, 0) <==> a != [] && (b == [] || b[0] < a[0]);
      forall k | BelowAt(a, b, k) ensures k == 0 {}
      forall k | BelowAt(b, a, k) ensures k == 0 {}
    } else {
      LexMeans(a[1..], b[1..]);
      BelowShift(a, b);
      BelowShift(b, a);
    }
  }

  lemma BelowShift(a: seq<int>, b: seq<int>)
    requires a != [] && b != [] && a[0] == b[0]
    ensures (exists k :: BelowAt(a, b, k)) <==> exists k :: BelowAt(a[1..], b[1..], k)
  {
    forall k | BelowAt(a, b, k) ensures BelowAt(a[1..], b[1..], k - 1) {
      assert k > 0;
      assert a[1..][..k - 1] == a[..k][1..] && b[1..][..k - 1] == b[..k][1..];
    }
    forall k | BelowAt(a[1..], b[1..], k) ensures BelowAt(a, b, k + 1) {
      assert a[..k + 1] == [a[0]] + a[1..][..k] && b[..k + 1] == [b[0]] + b[1..][..k];
    }
  }

  /** Strings, addresses and selectors compare as equal only if they are, or name the same path. */
  lemma EqualOnly(a: Option<seq<int>>, b: Option<seq<int>>, s: Option<Selector>, t: Option<Selector>)
    ensures StringCmp(a, b) == 0 <==> a == b
    ensures a.Some? && b.Some? ==> (AddressCmp(a.value, b.value) == 0 <==> a == b)
    ensures SelectorCmp(s, t) == 0 <==> s.Some? == t.Some? && (s.Some? ==> Steps(s.value) == Steps(t.value))
  {
    hide Lex, Steps;
    if a.Some? && b.Some? { LexEqual(a.value, b.value); }
    if s.Some? && t.Some? { LexEqual(Steps(s.value), Steps(t.value)); }
  }

  lemma NumbersOrdered()
    ensures TotalOrder(NumberCmp) && TotalOrder(EnumCmp)
  {}

  lemma StringsOrdered()
    ensures TotalOrder(StringCmp) && TotalOrder(AddressCmp)
  {
    hide Lex;
    forall a, b ensures Lex(b, a) == -Lex(a, b) { LexFlips(a, b); }
    forall a, b, c | Lex(a, b) <= 0 && Lex(b, c) <= 0 ensures Lex(a, c) <= 0 { LexTransitive(a, b, c); }
    forall a, b, c | StringCmp(a, b) <= 0 && StringCmp(b, c) <= 0 ensures StringCmp(a, c) <= 0 {
      if a.Some? && b.Some? && c.Some? { LexTransitive(a.value, b.value, c.value); }
    }
  }

  lemma SelectorsOrdered()
    ensures TotalOrder(SelectorCmp)
  {
    hide Lex, Steps;
    forall a, b ensures SelectorCmp(a, b) < 0 <==> SelectorCmp(b, a) > 0 {
      if a.Some? && b.Some? { LexFlips(Steps(a.value), Steps(b.value)); }
    }
    forall a, b, c | SelectorCmp(a, b) <= 0 && SelectorCmp(b, c) <= 0 ensures SelectorCmp(a, c) <= 0 {
      if a.Some? && b.Some? && c.Some? { LexTransitive(Steps(a.value), Steps(b.value), Steps(c.value)); }
    }
  }

  // ---------- the types that do not ----------

  /** T_BOOL */
  function BoolCmp(a: bool, b: bool): int {
    if a == b then 0 else 1
  }

  /** Its sign flips with the arguments only for equal values. */
  lemma BoolFlips(a: bool, b: bool)
    ensures (BoolCmp(a, b) < 0 <==> BoolCmp(b, a) > 0) && (BoolCmp(a, b) > 0 <==> BoolCmp(b, a) < 0) <==> a == b
  {}

  lemma BoolNotOrdered()
    ensures !TotalOrder(BoolCmp)
  {
    assert BoolCmp(false, true) > 0 && BoolCmp(true, false) > 0;
  }

  /** dm_binarycmp on two values: that `a` is shorter is never found. */
  function BytesCmp(a: seq<int>, b: seq<int>): int {
    var n := Min(|a|, |b|);
    var r := Lex(a[..n], b[..n]);
    if r != 0 then r else if |a| > |b| then 1 else 0
  }

  lemma {:induction false} LexCommon(a: seq<int>, b: seq<int>)
    ensures var n := Min(|a|, |b|);
      var r := Lex(a[..n], b[..n]);
      && (r != 0 ==> Lex(a, b) == r)
      && (r == 0 ==> a[..n] == b[..n] && Lex(a, b) == NumberCmp(|a|, |b|))
    decreases |a|
  {
    if a != [] && b != [] {
      var n := Min(|a|, |b|);
      LexCommon(a[1..], b[1..]);
      LexEqual(a[..n], b[..n]);
      assert a[..n][1..] == a[1..][..n - 1] && b[..n][1..] == b[1..][..n - 1];
    }
  }

  lemma BytesIff(a: seq<int>, b: seq<int>)
    ensures BytesCmp(a, b) == Lex(a, b) <==> !(a < b)
  {
    hide Lex;
    LexCommon(a, b);
    var n := Min(|a|, |b|);
    if a < b {
      assert a[..n] == a && b[..n] == a;
      LexEqual(a, a);
    } else if |a| < |b| {
      LexEqual(a[..n], b[..n]);
      assert a[..n] == a;
    }
  }

  /** dm_binarycmp, of T_BINARY and T_BASE64; NULL comes first. */
  function BinaryCmp(a: Option<seq<int>>, b: Option<seq<int>>): int {
    if a.Some? && b.Some? then BytesCmp(a.value, b.value)
    else if a.None? && b.Some? then -1
    else if a.Some? && b.None? then 1 else 0
  }

  /** It is the lexicographic order, with NULL first, except on a proper prefix, which it takes for equal. */
  lemma BinaryIff(a: Option<seq<int>>, b: Option<seq<int>>)
    ensures BinaryCmp(a, b) == StringCmp(a, b) <==> !(a.Some? && b.Some? && a.value < b.value)
  {
    hide Lex, BytesCmp;
    if a.Some? && b.Some? { BytesIff(a.value, b.value); }
  }

  lemma BinaryNotOrdered()
    ensures !TotalOrder(BinaryCmp)
  {
    assert BytesCmp([1], []) > 0 && BytesCmp([], [1]) == 0;
    assert BinaryCmp(Some([1]), Some([])) > 0 && BinaryCmp(Some([]), Some([1])) == 0;
  }
}
