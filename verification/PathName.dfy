/** Selectors and their dotted names: the printer, the parser and the lookup of the element. */
module PathName {
  import opened Basics

  type Text = seq<Byte>

  /** A schema table; elements are numbered from 1. */
  datatype Table = Table(elems: seq<Elem>)

  datatype Elem =
    | Value(key: Text)
    | Token(key: Text, table: Table)
    | Object(key: Text, table: Table)

  const LEN := 16
  const DM_ERR := 0xFFFF
  const LONG_MAX := 0x7FFF_FFFF_FFFF_FFFF

  // ---------- schemas and paths ----------

  /** Keys are distinct, not empty and without dots. */
  ghost predicate WellKeyed(t: Table)
    decreases t
  {
    && (forall i :: 0 <= i < |t.elems| ==> t.elems[i].key != [] && DOT !in t.elems[i].key)
    && (forall i, j :: 0 <= i < j < |t.elems| ==> t.elems[i].key != t.elems[j].key)
    && |t.elems| < DM_ERR
    && (forall e :: e in t.elems && !e.Value? ==> WellKeyed(e.table))
  }

  /** `p` is a path from table `kw`; after an object (`inst`) comes the id of an instance. */
  ghost predicate ValidPath(kw: Table, inst: bool, p: seq<int>)
    decreases |p|
  {
    p == [] ||
    if inst then 1 <= p[0] <= DM_ERR && ValidPath(kw, false, p[1..])
    else
      && 1 <= p[0] <= |kw.elems|
      && var e := kw.elems[p[0] - 1];
      if e.Value? then |p| == 1 else ValidPath(e.table, e.Object?, p[1..])
  }

  /** The name of the first step of a path. */
  function StepName(kw: Table, inst: bool, p: seq<int>): Text
    requires p != [] && ValidPath(kw, inst, p)
  {
    if inst then Digits(p[0]) else kw.elems[p[0] - 1].key
  }

  /** Where the rest of the path starts from. */
  function After(kw: Table, inst: bool, id: int): (r: (Table, bool))
    requires inst || 1 <= id <= |kw.elems|
  {
    if inst then (kw, false)
    else
      match kw.elems[id - 1]
      case Value(_) => (Table([]), false)
      case Token(_, t) => (t, false)
      case Object(_, t) => (t, true)
  }

  function Rest(kw: Table, inst: bool, p: seq<int>): (r: (Table, bool))
    requires p != [] && ValidPath(kw, inst, p)
    ensures r == After(kw, inst, p[0]) && ValidPath(r.0, r.1, p[1..])
  {
    After(kw, inst, p[0])
  }

  /** The dotted name. */
  function Name(kw: Table, inst: bool, p: seq<int>): Text
    requires ValidPath(kw, inst, p)
    decreases |p|
  {
    if p == [] then []
    else
      var (t, i) := Rest(kw, inst, p);
      StepName(kw, inst, p) + if |p| > 1 then [DOT] + Name(t, i, p[1..]) else []
  }

  // ---------- parsing ----------

  /** strchr for the next dot: the token, and what is behind the dot if there is one. */
  function Cut(s: Text): (r: (Text, Option<Text>))
    ensures DOT !in r.0 && r.0 <= s
    ensures r.1.Some? ==> |r.1.value| < |s|
  {
    if s == [] then ([], None)
    else if s[0] == DOT then ([], Some(s[1..]))
    else
      var (t, rest) := Cut(s[1..]);
      ([s[0]] + t, rest)
  }

  lemma {:induction false} CutLast(t: Text)
    requires DOT !in t
    ensures Cut(t) == (t, None)
  {
    if t != [] {
      CutLast(t[1..]);
      assert t == [t[0]] + t[1..];
    }
  }

  lemma {:induction false} CutDot(t: Text, rest: Text)
    requires DOT !in t
    ensures Cut(t + [DOT] + rest) == (t, Some(rest))
    decreases |t|
  {
    var s := t + [DOT] + rest;
    if t == [] {
      assert s[1..] == rest;
    } else {
      assert s[1..] == t[1..] + [DOT] + rest;
      CutDot(t[1..], rest);
      assert t == [t[0]] + t[1..];
    }
  }

  /** strtol in base 10 */
  function Number(s: Text, acc: nat): nat
    decreases |s|
  {
    if s == [] || !IsDigit(s[0]) then acc else Number(s[1..], acc * 10 + (s[0] - 48))
  }

  lemma {:induction false} NumberDigits(n: nat, rest: Text)
    ensures Number(Digits(n) + rest, 0) == Number(rest, n)
    decreases n
  {
    if n < 10 {
      assert ([48 + n] + rest)[1..] == rest;
    } else {
      var d: Byte := 48 + n % 10;
      assert Digits(n) + rest == Digits(n / 10) + ([d] + rest);
      NumberDigits(n / 10, [d] + rest);
      assert ([d] + rest)[1..] == rest;
    }
  }

  /** dm_get_element_id_by_name: the first element with the key. */
  function Lookup(elems: seq<Elem>, key: Text, from: int): (id: int)
    requires 0 <= from <= |elems|
    ensures id == DM_ERR || (from < id <= |elems| && elems[id - 1].key == key)
    decreases |elems| - from
  {
    if from == |elems| then DM_ERR else if elems[from].key == key then from + 1 else Lookup(elems, key, from + 1)
  }

  lemma {:induction false} LookupFinds(elems: seq<Elem>, k: int, from: int)
    requires 0 <= from <= k < |elems| && forall i, j :: 0 <= i < j < |elems| ==> elems[i].key != elems[j].key
    ensures Lookup(elems, elems[k].key, from) == k + 1
    decreases k - from
  {
    if from < k { LookupFinds(elems, k, from + 1); }
  }

  /** next_token: the id, 0 at the end, DM_ERR if there is no such element; strtol stops at LONG_MAX, and 16 bits of
      it are kept. */
  function NextId(s: Option<Text>, kw: Table, inst: bool): (id: int)
    ensures id >= 0 && (id != 0 && id != DM_ERR && !inst ==> id <= |kw.elems|)
  {
    if s.None? then 0
    else if inst then
      if s.value == [] || !IsDigit(s.value[0]) then DM_ERR else Min(Number(s.value, 0), LONG_MAX) % 0x1_0000
    else Lookup(kw.elems, Cut(s.value).0, 0)
  }

  function NextText(s: Option<Text>): Option<Text> {
    if s.None? then None else Cut(s.value).1
  }

  function Prepend(id: int, r: Option<seq<int>>): Option<seq<int>> {
    if r.None? then None else Some([id] + r.value)
  }

  /** The loop of dm_name2sel, with `n` places of the selector left. */
  function ParseFrom(kw: Table, inst: bool, s: Option<Text>, n: nat): Option<seq<int>>
    decreases n
  {
    if n == 0 then Some([])
    else
      var id := NextId(s, kw, inst);
      if id == 0 then Some([])
      else if id == DM_ERR then None
      else if !inst && kw.elems[id - 1].Value? then Some([id])
      else
        var (t, i) := After(kw, inst, id);
        Prepend(id, ParseFrom(t, i, NextText(s), n - 1))
  }

  /** Whatever is parsed is a path of the schema. */
  lemma {:induction false} ParsedValid(kw: Table, inst: bool, s: Option<Text>, n: nat)
    ensures var r := ParseFrom(kw, inst, s, n); r.Some? ==> ValidPath(kw, inst, r.value) && |r.value| <= n
    decreases n
  {
    hide NextId, NextText;
    if n > 0 {
      var id := NextId(s, kw, inst);
      IdRange(s, kw, inst);
      if id != 0 && id != DM_ERR && (inst || !kw.elems[id - 1].Value?) {
        var (t, i) := After(kw, inst, id);
        ParsedValid(t, i, NextText(s), n - 1);
        var r := ParseFrom(t, i, NextText(s), n - 1);
        if r.Some? {
          assert ([id] + r.value)[1..] == r.value;
        }
      }
    }
  }

  lemma IdRange(s: Option<Text>, kw: Table, inst: bool)
    ensures inst ==> 0 <= NextId(s, kw, inst) <= DM_ERR
    ensures !inst && NextId(s, kw, inst) != 0 && NextId(s, kw, inst) != DM_ERR ==>
      1 <= NextId(s, kw, inst) <= |kw.elems|
  {}

  lemma StepCut(kw: Table, inst: bool, p: seq<int>)
    requires p != [] && ValidPath(kw, inst, p) && WellKeyed(kw)
    ensures Cut(Name(kw, inst, p))
      == (StepName(kw, inst, p), if |p| > 1 then Some(Name(Rest(kw, inst, p).0, Rest(kw, inst, p).1, p[1..])) else None)
  {
    hide Name, Cut, StepName, WellKeyed;
    var step := StepName(kw, inst, p);
    NameStep(kw, inst, p);
    NoDot(kw, inst, p);
    if |p| > 1 {
      var rest := Name(Rest(kw, inst, p).0, Rest(kw, inst, p).1, p[1..]);
      CutDot(step, rest);
      assert step + ([DOT] + rest) == step + [DOT] + rest;
    } else {
      CutLast(step);
      assert step + [] == step;
    }
  }

  lemma NumberRead(n: nat, rest: Text)
    requires rest == [] || rest[0] == DOT
    ensures Number(Digits(n) + rest, 0) == n && IsDigit((Digits(n) + rest)[0])
  {
    hide Number;
    NumberDigits(n, rest);
    NumberStops(rest, n);
    assert Digits(n)[0] in Digits(n);
  }

  /** The first step of a printed path is read back, and the text moves on to the rest. */
  lemma StepRead(kw: Table, inst: bool, p: seq<int>)
    requires p != [] && ValidPath(kw, inst, p) && WellKeyed(kw)
    ensures NextId(Some(Name(kw, inst, p)), kw, inst) == p[0]
    ensures NextText(Some(Name(kw, inst, p))) ==
      if |p| > 1 then Some(Name(Rest(kw, inst, p).0, Rest(kw, inst, p).1, p[1..])) else None
  {
    hide Name, Digits, Number, Lookup, Cut, Rest, After;
    StepCut(kw, inst, p);
    if inst {
      NameStep(kw, inst, p);
      NumberRead(p[0], if |p| > 1 then [DOT] + Name(Rest(kw, inst, p).0, Rest(kw, inst, p).1, p[1..]) else []);
    } else {
      LookupFinds(kw.elems, p[0] - 1, 0);
    }
  }

  lemma NumberStops(rest: Text, acc: nat)
    requires rest == [] || rest[0] == DOT
    ensures Number(rest, acc) == acc
  {}

  lemma NameStep(kw: Table, inst: bool, p: seq<int>)
    requires p != [] && ValidPath(kw, inst, p)
    ensures Name(kw, inst, p) == StepName(kw, inst, p)
      + if |p| > 1 then [DOT] + Name(Rest(kw, inst, p).0, Rest(kw, inst, p).1, p[1..]) else []
  {}

  lemma NoDot(kw: Table, inst: bool, p: seq<int>)
    requires p != [] && ValidPath(kw, inst, p) && WellKeyed(kw)
    ensures DOT !in StepName(kw, inst, p)
  {
    assert !IsDigit(DOT);
  }

  /** Some instance has the id that the parser takes for an error. */
  ghost predicate Lost(kw: Table, inst: bool, p: seq<int>)
    requires ValidPath(kw, inst, p)
    decreases |p|
  {
    p != [] && ((inst && p[0] == DM_ERR) || Lost(Rest(kw, inst, p).0, Rest(kw, inst, p).1, p[1..]))
  }

  /** A printed path is parsed to itself, exactly if it has no instance DM_ERR. */
  lemma {:induction false} RoundTrip(kw: Table, inst: bool, p: seq<int>, n: nat)
    requires ValidPath(kw, inst, p) && WellKeyed(kw) && |p| <= n
    ensures ParseFrom(kw, inst, if p == [] then None else Some(Name(kw, inst, p)), n)
      == if Lost(kw, inst, p) then None else Some(p)
    decreases |p|
  {
    hide Name, NextId, NextText;
    if p == [] {
      EndOfText(kw, inst);
    } else {
      StepRead(kw, inst, p);
      var (t, i) := Rest(kw, inst, p);
      if inst || !kw.elems[p[0] - 1].Value? {
        RestKeyed(kw, inst, p);
        RoundTrip(t, i, p[1..], n - 1);
        assert [p[0]] + p[1..] == p;
      } else {
        assert p == [p[0]];
      }
    }
  }

  /** A table with instances, printed and not parsed: the instance has the number that means an error. */
  lemma InstanceLost()
    ensures var root := Table([Object([97], Table([Value([98])]))]);
      && WellKeyed(root) && ValidPath(root, false, [1, 0xFFFF])
      && Name(root, false, [1, 0xFFFF]) == [97, DOT] + Digits(0xFFFF)
      && ParseFrom(root, false, Some([97, DOT] + Digits(0xFFFF)), LEN) == None
  {
    hide Digits;
    var rows := Table([Value([98])]);
    var root, p := Table([Object([97], rows)]), [1, 0xFFFF];
    assert p[1..] == [0xFFFF] && p[1..][1..] == [];
    assert WellKeyed(rows) && root.elems[0].table == rows;
    assert ValidPath(rows, true, [0xFFFF]);
    NameStep(root, false, p);
    NameStep(rows, true, p[1..]);
    assert Lost(rows, true, [0xFFFF]);
    RoundTrip(root, false, p, LEN);
    assert Name(root, false, p) == [97, DOT] + Digits(0xFFFF);
  }

  lemma EndOfText(kw: Table, inst: bool)
    ensures NextId(None, kw, inst) == 0
  {}

  // ---------- dm_name2sel ----------

  /** A selector has LEN places; those behind the path are 0. */
  function Pad(p: seq<int>): (sel: seq<int>)
    requires |p| <= LEN
    ensures |sel| == LEN
  {
    p + seq(LEN - |p|, i => 0)
  }

  function Glue(done: seq<int>, r: Option<seq<int>>): Option<seq<int>> {
    if r.None? then None else Some(done + r.value)
  }

  lemma GlueStep(kw: Table, inst: bool, s: Option<Text>, n: nat, done: seq<int>)
    requires n > 0
    ensures var id, r := NextId(s, kw, inst), Glue(done, ParseFrom(kw, inst, s, n));
      && (id == 0 ==> r == Some(done))
      && (id == DM_ERR ==> r == None)
      && (id != 0 && id != DM_ERR && !inst && kw.elems[id - 1].Value? ==> r == Some(done + [id]))
      && (id != 0 && id != DM_ERR && (inst || !kw.elems[id - 1].Value?) ==>
            r == Glue(done + [id], ParseFrom(After(kw, inst, id).0, After(kw, inst, id).1, NextText(s), n - 1)))
  {
    hide NextId, NextText;
    var id := NextId(s, kw, inst);
    assert done + [] == done;
    if id != 0 && id != DM_ERR && (inst || !kw.elems[id - 1].Value?) {
      var r := ParseFrom(After(kw, inst, id).0, After(kw, inst, id).1, NextText(s), n - 1);
      if r.Some? {
        assert done + ([id] + r.value) == done + [id] + r.value;
      }
    }
  }

  method Name2Sel(root: Table, name: Option<Text>) returns (sel: Option<seq<int>>)
    ensures name == None || name == Some([]) ==> sel == Some(Pad([]))
    ensures name.Some? && name.value != [] ==>
      var r := ParseFrom(root, false, name, LEN);
      if r.None? then sel == None else |r.value| <= LEN && sel == Some(Pad(r.value))
    ensures name.Some? && name.value != [] && SmallTables(root) ==>
      if sel.None? then forall ids :: !Names(root, false, Split(name.value), 16, ids)
      else
        var ids := Steps(sel.value);
        |ids| <= |sel.value| == 16 && sel.value == Pad(ids) && Names(root, false, Split(name.value), 16, ids)
  {
    hide NextId, NextText, ParseFrom, Glue, Names, SmallTables, Split, Steps, ValidPath;
    if name.None? || name.value == [] {
      return Some(Pad([]));
    }
    if SmallTables(root) { NamesParsed(root, name.value); }
    ParsedValid(root, false, name, LEN);
    GlueStart(ParseFrom(root, false, name, LEN));
    var done: seq<int> := [];
    var kw, inst, s := root, false, name;
    while |done| < LEN
      invariant |done| <= LEN
      invariant Glue(done, ParseFrom(kw, inst, s, LEN - |done|)) == ParseFrom(root, false, name, LEN)
      decreases LEN - |done|
    {
      var id := NextId(s, kw, inst);
      GlueStep(kw, inst, s, LEN - |done|, done);
      s := NextText(s);
      if id == 0 {
        return Some(Pad(done));
      } else if id == DM_ERR {
        return None;
      }
      done := done + [id];
      if inst {
        inst := false;
      } else {
        match kw.elems[id - 1]
        case Value(_) => return Some(Pad(done));
        case Token(_, t) => kw, inst := t, false;
        case Object(_, t) => kw, inst := t, true;
      }
    }
    GlueEnd(kw, inst, s, done);
    return Some(Pad(done));
  }

  // ---------- what a name means ----------

  /** The parts of a text between its dots. */
  function Split(s: Text): (parts: seq<Text>)
    ensures |parts| >= 1
  {
    if s == [] then [[]]
    else
      var rest := Split(s[1..]);
      if s[0] == DOT then [[]] + rest else [[s[0]] + rest[0]] + rest[1..]
  }

  /** Parts with a dot between each two. */
  function Dotted(parts: seq<Text>): Text {
    if parts == [] then [] else parts[0] + if |parts| > 1 then [DOT] + Dotted(parts[1..]) else []
  }

  /** Nothing is lost, and no dot is left in a part. */
  lemma {:induction false} SplitDotted(s: Text)
    ensures Dotted(Split(s)) == s && forall i :: 0 <= i < |Split(s)| ==> DOT !in Split(s)[i]
  {
    if s != [] {
      SplitDotted(s[1..]);
      var rest := Split(s[1..]);
      assert s == [s[0]] + s[1..];
      assert Split(s)[1..] == if s[0] == DOT then rest else rest[1..];
    }
  }

  lemma {:induction false} SplitCut(s: Text)
    ensures Split(s) == [Cut(s).0] + if Cut(s).1.None? then [] else Split(Cut(s).1.value)
  {
    if s != [] && s[0] != DOT { SplitCut(s[1..]); }
  }

  /** The digits that a text starts with. */
  function Leading(s: Text): (d: Text)
    ensures d <= s && (forall i :: 0 <= i < |d| ==> IsDigit(d[i])) && (|d| < |s| ==> !IsDigit(s[|d|]))
  {
    if s == [] || !IsDigit(s[0]) then [] else [s[0]] + Leading(s[1..])
  }

  /** The number that digits stand for. */
  function Decimal(d: Text): nat
    requires forall i :: 0 <= i < |d| ==> IsDigit(d[i])
  {
    if d == [] then 0
    else
      var digit: int := d[|d| - 1];
      assert IsDigit(d[|d| - 1]);
      10 * Decimal(d[..|d| - 1]) + digit - 48
  }

  lemma DecimalLast(d: Text)
    requires d != [] && forall i :: 0 <= i < |d| ==> IsDigit(d[i])
    ensures Decimal(d) == 10 * Decimal(d[..|d| - 1]) + d[|d| - 1] - 48
  {}

  lemma NumberStep(s: Text, acc: nat)
    ensures s != [] && IsDigit(s[0]) ==> Number(s, acc) == Number(s[1..], acc * 10 + s[0] - 48)
    ensures s == [] || !IsDigit(s[0]) ==> Number(s, acc) == acc
  {}

  lemma LeadingStep(s: Text)
    ensures Leading(s) == if s != [] && IsDigit(s[0]) then [s[0]] + Leading(s[1..]) else []
  {}

  /** strtol, with the digits `d` behind it. */
  lemma {:induction false} NumberLeading(d: Text, s: Text)
    requires forall i :: 0 <= i < |d| ==> IsDigit(d[i])
    ensures Number(s, Decimal(d)) == Decimal(d + Leading(s))
    decreases |s|
  {
    hide Number, Decimal, Leading;
    NumberStep(s, Decimal(d));
    LeadingStep(s);
    if s != [] && IsDigit(s[0]) {
      var more := d + [s[0]];
      assert more[..|more| - 1] == d;
      DecimalLast(more);
      assert d + ([s[0]] + Leading(s[1..])) == more + Leading(s[1..]);
      NumberLeading(more, s[1..]);
    } else {
      assert d + [] == d;
    }
  }

  /** The instance that a part names: strtol saturates, and 16 bits are kept. */
  function InstanceOf(part: Text): int {
    if Decimal(Leading(part)) > LONG_MAX then 0xFFFF else Decimal(Leading(part)) % 0x1_0000
  }

  /** The parts, read from table `kw` on or after an object, name the steps `ids`, with `n` steps at most. Reading ends
      early at a value, and at an instance number that is 0 in 16 bits. */
  ghost predicate Names(kw: Table, inst: bool, parts: seq<Text>, n: nat, ids: seq<int>)
    decreases n
  {
    if n == 0 || parts == [] then ids == []
    else if inst then
      && parts[0] != [] && IsDigit(parts[0][0])
      && var k := InstanceOf(parts[0]);
      && k != 0xFFFF
      && if k == 0 then ids == [] else ids != [] && ids[0] == k && Names(kw, false, parts[1..], n - 1, ids[1..])
    else
      && ids != [] && 1 <= ids[0] <= |kw.elems|
      && var e := kw.elems[ids[0] - 1];
      && e.key == parts[0] && (forall i :: 0 <= i < ids[0] - 1 ==> kw.elems[i].key != parts[0])
      && if e.Value? then |ids| == 1 else Names(e.table, e.Object?, parts[1..], n - 1, ids[1..])
  }

  function PartsOf(s: Option<Text>): seq<Text> {
    if s.None? then [] else Split(s.value)
  }

  lemma PartsStep(s: Option<Text>)
    requires s.Some?
    ensures PartsOf(s) == [Cut(s.value).0] + PartsOf(NextText(s))
  {
    SplitCut(s.value);
  }

  lemma {:induction false} LeadingCut(s: Text)
    ensures Leading(Cut(s).0) == Leading(s)
    ensures (s == [] || !IsDigit(s[0])) <==> (Cut(s).0 == [] || !IsDigit(Cut(s).0[0]))
  {
    if s != [] && s[0] != DOT {
      LeadingCut(s[1..]);
      assert Cut(s).0[1..] == Cut(s[1..]).0;
    }
  }

  lemma NoDigits()
    ensures Decimal([]) == 0
  {}

  /** The id of an instance is the one that its part names. */
  lemma NextInstance(s: Text, kw: Table)
    ensures var part := Cut(s).0;
      NextId(Some(s), kw, true) == if part == [] || !IsDigit(part[0]) then DM_ERR else InstanceOf(part)
  {
    hide Cut, Leading, Number, Decimal;
    LeadingCut(s);
    NumberLeading([], s);
    NoDigits();
    assert [] + Leading(s) == Leading(s);
    assert LONG_MAX % 0x1_0000 == 0xFFFF;
  }

  lemma {:induction false} LookupFirst(elems: seq<Elem>, key: Text, from: int)
    requires 0 <= from <= |elems| < DM_ERR
    ensures var id := Lookup(elems, key, from);
      if id == DM_ERR then forall i :: from <= i < |elems| ==> elems[i].key != key
      else from < id <= |elems| && elems[id - 1].key == key && forall i :: from <= i < id - 1 ==> elems[i].key != key
    decreases |elems| - from
  {
    if from < |elems| && elems[from].key != key { LookupFirst(elems, key, from + 1); }
  }

  /** Elements have 16-bit numbers, one of which means an error. */
  ghost predicate SmallTables(t: Table)
    decreases t
  {
    |t.elems| < DM_ERR && forall e :: e in t.elems && !e.Value? ==> SmallTables(e.table)
  }

  /** Parsing gives exactly the steps that the parts name. */
  lemma {:induction false} ParseNames(kw: Table, inst: bool, s: Option<Text>, n: nat, ids: seq<int>)
    requires SmallTables(kw)
    ensures ParseFrom(kw, inst, s, n) == Some(ids) <==> Names(kw, inst, PartsOf(s), n, ids)
    decreases n
  {
    hide Cut, Lookup, NextText, PartsOf, InstanceOf;
    if n == 0 {
    } else if s.None? {
      NoParts(s);
    } else {
      var part := Cut(s.value).0;
      PartsStep(s);
      var parts := PartsOf(s);
      assert parts[0] == part && parts[1..] == PartsOf(NextText(s));
      if inst {
        NextInstance(s.value, kw);
        ParseInstance(kw, s, n, ids);
      } else {
        LookupFirst(kw.elems, part, 0);
        ParseElement(kw, s, n, ids);
      }
    }
  }

  lemma NoParts(s: Option<Text>)
    requires s.None?
    ensures PartsOf(s) == []
  {}

  lemma {:induction false} ParseInstance(kw: Table, s: Option<Text>, n: nat, ids: seq<int>)
    requires SmallTables(kw) && s.Some? && n > 0
    requires PartsOf(s) == [Cut(s.value).0] + PartsOf(NextText(s))
    requires var part := Cut(s.value).0;
      NextId(s, kw, true) == if part == [] || !IsDigit(part[0]) then DM_ERR else InstanceOf(part)
    ensures ParseFrom(kw, true, s, n) == Some(ids) <==> Names(kw, true, PartsOf(s), n, ids)
    decreases n, 0
  {
    hide NextId, NextText, PartsOf, InstanceOf, Cut;
    var k := NextId(s, kw, true);
    if k != 0 && k != DM_ERR {
      if ids != [] {
        ParseNames(kw, false, NextText(s), n - 1, ids[1..]);
        assert ids == [ids[0]] + ids[1..];
      }
      assert PartsOf(s)[1..] == PartsOf(NextText(s));
      var r := ParseFrom(kw, false, NextText(s), n - 1);
      if r.Some? { assert ([k] + r.value)[1..] == r.value; }
    }
  }

  lemma {:induction false} ParseElement(kw: Table, s: Option<Text>, n: nat, ids: seq<int>)
    requires SmallTables(kw) && s.Some? && n > 0
    requires PartsOf(s) == [Cut(s.value).0] + PartsOf(NextText(s))
    requires var id, part := NextId(s, kw, false), Cut(s.value).0;
      if id == DM_ERR then forall i :: 0 <= i < |kw.elems| ==> kw.elems[i].key != part
      else
        && 0 < id <= |kw.elems| && kw.elems[id - 1].key == part
        && forall i :: 0 <= i < id - 1 ==> kw.elems[i].key != part
    ensures ParseFrom(kw, false, s, n) == Some(ids) <==> Names(kw, false, PartsOf(s), n, ids)
    decreases n, 0
  {
    hide NextId, NextText, PartsOf, Cut;
    var id := NextId(s, kw, false);
    if id != DM_ERR {
      var e := kw.elems[id - 1];
      if e.Value? {
        assert |ids| == 1 ==> ids == [ids[0]];
      } else {
        assert e in kw.elems;
        if ids != [] {
          ParseNames(e.table, e.Object?, NextText(s), n - 1, ids[1..]);
          assert ids == [ids[0]] + ids[1..];
        }
        assert PartsOf(s)[1..] == PartsOf(NextText(s));
        var r := ParseFrom(e.table, e.Object?, NextText(s), n - 1);
        if r.Some? { assert ([id] + r.value)[1..] == r.value; }
      }
    }
  }

  lemma NamesParsed(root: Table, name: Text)
    requires SmallTables(root)
    ensures var r := ParseFrom(root, false, Some(name), LEN);
      if r.None? then forall ids :: !Names(root, false, Split(name), LEN, ids)
      else |r.value| <= LEN && Steps(Pad(r.value)) == r.value && Names(root, false, Split(name), LEN, r.value)
  {
    hide ParseFrom, Names, Split, Steps, ValidPath;
    var r := ParseFrom(root, false, Some(name), LEN);
    if r.None? {
      forall ids ensures !Names(root, false, Split(name), LEN, ids) {
        ParseNames(root, false, Some(name), LEN, ids);
      }
    } else {
      ParsedValid(root, false, Some(name), LEN);
      ValidIds(root, false, r.value);
      StepsPadded(r.value, LEN - |r.value|);
      ParseNames(root, false, Some(name), LEN, r.value);
    }
  }

  /** An element is taken by its key, and reading goes on in its table. */
  lemma NamesInto(kw: Table, k: int, parts: seq<Text>, n: nat, ids: seq<int>)
    requires n > 0 && parts != [] && 0 <= k < |kw.elems| && kw.elems[k].key == parts[0] && !kw.elems[k].Value?
    requires forall i :: 0 <= i < k ==> kw.elems[i].key != parts[0]
    ensures Names(kw, false, parts, n, ids) <==>
      (ids != [] && ids[0] == k + 1 && Names(kw.elems[k].table, kw.elems[k].Object?, parts[1..], n - 1, ids[1..]))
  {}

  /** The path ends in a value element. */
  ghost predicate EndsInValue(kw: Table, inst: bool, p: seq<int>)
    decreases |p|
  {
    p != [] &&
    if inst then EndsInValue(kw, false, p[1..])
    else
      && 1 <= p[0] <= |kw.elems|
      && var e := kw.elems[p[0] - 1];
      if e.Value? then |p| == 1 else EndsInValue(e.table, e.Object?, p[1..])
  }

  /** The path ends in an object, so that an instance is next. */
  ghost predicate EndsInObject(kw: Table, inst: bool, p: seq<int>)
    decreases |p|
  {
    if p == [] then inst
    else if inst then EndsInObject(kw, false, p[1..])
    else
      && 1 <= p[0] <= |kw.elems|
      && var e := kw.elems[p[0] - 1];
      !e.Value? && EndsInObject(e.table, e.Object?, p[1..])
  }

  /** Text is left over only where a value or an instance 0 ends the reading. */
  lemma {:induction false} LeftOver(kw: Table, inst: bool, parts: seq<Text>, n: nat, ids: seq<int>)
    requires Names(kw, inst, parts, n, ids)
    ensures |ids| <= |parts| && |ids| <= n
    ensures |ids| < |parts| && |ids| < n ==>
      EndsInValue(kw, inst, ids) || (EndsInObject(kw, inst, ids) && InstanceOf(parts[|ids|]) == 0)
    decreases n
  {
    hide InstanceOf;
    if n > 0 && parts != [] && ids != [] {
      if inst {
        LeftOver(kw, false, parts[1..], n - 1, ids[1..]);
      } else if !kw.elems[ids[0] - 1].Value? {
        var e := kw.elems[ids[0] - 1];
        LeftOver(e.table, e.Object?, parts[1..], n - 1, ids[1..]);
      }
    }
  }

  /** "a.c" where table a has the element b only: there is no such name. */
  lemma UnknownKey(ids: seq<int>)
    ensures !Names(Table([Token([97], Table([Value([98])]))]), false, Split([97, 46, 99]), LEN, ids)
  {
    var root := Table([Token([97], Table([Value([98])]))]);
    var parts: seq<Text> := [[97], [99]];
    SplitTwo(97, [99]);
    SplitOne(99);
    assert Split([97, 46, 99]) == parts by { assert [97, DOT] + [99] == [97, 46, 99]; }
    NamesInto(root, 0, parts, LEN, ids);
    assert parts[1..] == [[99]];
  }

  /** "a.b.c" is taken for "a.b", as b is a value. */
  lemma BehindValue(ids: seq<int>)
    requires ids == [1, 1]
    ensures Names(Table([Token([97], Table([Value([98])]))]), false, Split([97, 46, 98, 46, 99]), LEN, ids)
  {
    var root := Table([Token([97], Table([Value([98])]))]);
    var parts: seq<Text> := [[97], [98], [99]];
    SplitTwo(97, [98, DOT, 99]);
    SplitTwo(98, [99]);
    SplitOne(99);
    assert [97, DOT] + [98, DOT, 99] == [97, 46, 98, 46, 99] && [98, DOT] + [99] == [98, DOT, 99];
    assert Split([97, 46, 98, 46, 99]) == parts;
    NamesInto(root, 0, parts, LEN, ids);
    assert parts[1..] == [[98], [99]] && ids[1..] == [1];
  }

  /** "t.0.c" is taken for "t", as an instance 0 ends the reading. */
  lemma BehindZero(ids: seq<int>)
    requires ids == [1]
    ensures Names(Table([Object([116], Table([Value([98])]))]), false, Split([116, 46, 48, 46, 99]), LEN, ids)
  {
    var root := Table([Object([116], Table([Value([98])]))]);
    var parts: seq<Text> := [[116], [48], [99]];
    SplitTwo(116, [48, DOT, 99]);
    SplitTwo(48, [99]);
    SplitOne(99);
    assert [116, DOT] + [48, DOT, 99] == [116, 46, 48, 46, 99] && [48, DOT] + [99] == [48, DOT, 99];
    assert Split([116, 46, 48, 46, 99]) == parts;
    NamesInto(root, 0, parts, LEN, ids);
    assert parts[1..] == [[48], [99]] && ids[1..] == [];
    ZeroInstance();
  }

  lemma ZeroInstance()
    ensures InstanceOf([48]) == 0
  {
    assert Leading([48]) == [48];
    DecimalLast([48]);
    assert [48][..0] == [];
    NoDigits();
  }

  lemma SplitOne(a: Byte)
    requires a != DOT
    ensures Split([a]) == [[a]]
  {
    assert [a][1..] == [] && [a] + [] == [a] && Split([]) == [[]];
  }

  lemma SplitTwo(a: Byte, rest: Text)
    requires a != DOT
    ensures Split([a, DOT] + rest) == [[a]] + Split(rest)
  {
    var s := [a, DOT] + rest;
    assert s[1..] == [DOT] + rest && ([DOT] + rest)[1..] == rest;
    assert Split([DOT] + rest) == [[]] + Split(rest);
    assert [a] + [] == [a];
    assert Split(s) == [[a] + []] + Split(rest);
  }

  lemma GlueStart(r: Option<seq<int>>)
    ensures Glue([], r) == r
  {
    if r.Some? { assert [] + r.value == r.value; }
  }

  lemma GlueEnd(kw: Table, inst: bool, s: Option<Text>, done: seq<int>)
    ensures Glue(done, ParseFrom(kw, inst, s, 0)) == Some(done)
  {
    assert done + [] == done;
  }

  // ---------- dm_sel2name ----------

  /** The steps of a selector: up to the first 0. */
  function Steps(sel: seq<int>): (p: seq<int>)
    ensures |p| <= |sel| && 0 !in p
  {
    if sel == [] || sel[0] == 0 then [] else [sel[0]] + Steps(sel[1..])
  }

  lemma {:induction false} StepsPadded(p: seq<int>, n: nat)
    requires 0 !in p
    ensures Steps(p + seq(n, i => 0)) == p
    decreases |p|
  {
    var sel := p + seq(n, i => 0);
    if p != [] {
      assert sel[1..] == p[1..] + seq(n, i => 0);
      StepsPadded(p[1..], n);
      assert p == [p[0]] + p[1..];
    }
  }

  function Joined(a: Text, r: Option<Text>): Option<Text> {
    if r.None? then None else Some(a + r.value)
  }

  /** The loop of dm_sel2name with `size` bytes of the buffer left. */
  function PrintFrom(kw: Table, inst: bool, p: seq<int>, first: bool, size: int): Option<Text>
    requires forall i :: 0 <= i < |p| ==> p[i] >= 0
    decreases |p|
  {
    if p == [] || size <= 1 then Some([])
    else
      var dot := if first then [] else [DOT];
      var room := size - |dot|;
      if inst then
        var d := Digits(p[0]);
        Joined(dot + d[..Min(|d|, room - 1)], PrintFrom(kw, false, p[1..], false, room - |d|))
      else if !(1 <= p[0] <= |kw.elems|) then None
      else
        var key := kw.elems[p[0] - 1].key;
        if |key| >= room then None
        else if kw.elems[p[0] - 1].Value? then Some(dot + key)
        else Joined(dot + key,
          PrintFrom(After(kw, false, p[0]).0, After(kw, false, p[0]).1, p[1..], false, room - |key|))
  }

  /** What the text should be: the name, after a dot if it is not the first step. */
  function Text0(kw: Table, inst: bool, p: seq<int>, first: bool): Text
    requires ValidPath(kw, inst, p)
  {
    if p == [] then [] else (if first then [] else [DOT]) + Name(kw, inst, p)
  }

  lemma TextStep(kw: Table, inst: bool, p: seq<int>, first: bool)
    requires p != [] && ValidPath(kw, inst, p)
    ensures Text0(kw, inst, p, first) ==
      (if first then [] else [DOT]) + StepName(kw, inst, p)
      + Text0(Rest(kw, inst, p).0, Rest(kw, inst, p).1, p[1..], false)
  {
    hide Name, StepName, ValidPath;
    NameStep(kw, inst, p);
    var dot: Text := if first then [] else [DOT];
    var step := StepName(kw, inst, p);
    var rest := Text0(Rest(kw, inst, p).0, Rest(kw, inst, p).1, p[1..], false);
    assert Name(kw, inst, p) == step + rest;
    assert dot + (step + rest) == dot + step + rest;
  }

  lemma {:induction false} ValidIds(kw: Table, inst: bool, p: seq<int>)
    requires ValidPath(kw, inst, p)
    ensures forall i :: 0 <= i < |p| ==> p[i] >= 1
    decreases |p|
  {
    if p != [] {
      ValidIds(Rest(kw, inst, p).0, Rest(kw, inst, p).1, p[1..]);
      forall i | 0 <= i < |p| ensures p[i] >= 1 {
        if i > 0 { assert p[1..][i - 1] >= 1; }
      }
    }
  }

  lemma PrintStep(kw: Table, inst: bool, p: seq<int>, first: bool, size: int)
    requires ValidPath(kw, inst, p) && p != [] && size > 1 && forall i :: 0 <= i < |p| ==> p[i] >= 0
    ensures forall i :: 0 <= i < |p[1..]| ==> p[1..][i] >= 0
    ensures var dot: Text, step := if first then [] else [DOT], StepName(kw, inst, p);
      var room, whole := size - |dot|, PrintFrom(kw, inst, p, first, size);
      var rest := PrintFrom(Rest(kw, inst, p).0, Rest(kw, inst, p).1, p[1..], false, room - |step|);
      && (inst ==> whole == Joined(dot + step[..Min(|step|, room - 1)], rest))
      && (!inst && |step| >= room ==> whole == None)
      && (!inst && |step| < room && |p| == 1 && kw.elems[p[0] - 1].Value? ==> whole == Some(dot + step))
      && (!inst && |step| < room && !kw.elems[p[0] - 1].Value? ==> whole == Joined(dot + step, rest))
  {
    hide Digits;
    TailIds(p);
  }

  lemma PrefixJoined(a: Text, b: Text, c: Text)
    requires b <= c
    ensures a + b <= a + c
  {}

  /** With any buffer the text is a prefix of the name, and leaves room for its NUL, unless NULL is returned. */
  lemma {:induction false} PrintPrefix(kw: Table, inst: bool, p: seq<int>, first: bool, size: int)
    requires ValidPath(kw, inst, p) && forall i :: 0 <= i < |p| ==> p[i] >= 0
    ensures var r := PrintFrom(kw, inst, p, first, size);
      r.Some? ==> r.value <= Text0(kw, inst, p, first) && (r.value == [] || |r.value| < size)
    decreases |p|
  {
    hide Name, Digits, Text0, ValidPath, PrintFrom, StepName, Rest;
    EmptyText(kw, inst, p, first);
    if p == [] || size <= 1 {
      PrintNothing(kw, inst, p, first, size);
    } else {
      TextStep(kw, inst, p, first);
      InRange(kw, inst, p);
      PrintStep(kw, inst, p, first, size);
      var (t, i) := Rest(kw, inst, p);
      var dot: Text := if first then [] else [DOT];
      var step, room := StepName(kw, inst, p), size - |dot|;
      PrintPrefix(t, i, p[1..], false, room - |step|);
      var rest := PrintFrom(t, i, p[1..], false, room - |step|);
      EmptyText(t, i, p[1..], false);
      if inst && |step| >= room {
        PrintNothing(t, i, p[1..], false, room - |step|);
        PrefixJoined(dot, step[..room - 1], step);
        assert dot + step[..room - 1] + [] == dot + step[..room - 1];
      } else if rest.Some? {
        assert inst ==> step[..|step|] == step;
        PrefixJoined(dot + step, rest.value, Text0(t, i, p[1..], false));
      }
    }
  }

  lemma PrintNothing(kw: Table, inst: bool, p: seq<int>, first: bool, size: int)
    requires (p == [] || size <= 1) && forall i :: 0 <= i < |p| ==> p[i] >= 0
    ensures PrintFrom(kw, inst, p, first, size) == Some([])
  {}

  /** With a buffer that is large enough the text is the name. */
  lemma {:induction false} PrintFits(kw: Table, inst: bool, p: seq<int>, first: bool, size: int)
    requires ValidPath(kw, inst, p) && (forall i :: 0 <= i < |p| ==> p[i] >= 0) && WellKeyed(kw)
    requires |Text0(kw, inst, p, first)| < size
    ensures PrintFrom(kw, inst, p, first, size) == Some(Text0(kw, inst, p, first))
    decreases |p|
  {
    hide Name, Digits, Text0, ValidPath, WellKeyed, PrintFrom, StepName, Rest;
    EmptyText(kw, inst, p, first);
    if p == [] {
      PrintNothing(kw, inst, p, first, size);
    } else {
      TextStep(kw, inst, p, first);
      InRange(kw, inst, p);
      PrintStep(kw, inst, p, first, size);
      var (t, i) := Rest(kw, inst, p);
      var dot: Text := if first then [] else [DOT];
      var step, room := StepName(kw, inst, p), size - |dot|;
      if inst || !kw.elems[p[0] - 1].Value? {
        RestKeyed(kw, inst, p);
        PrintFits(t, i, p[1..], false, room - |step|);
        assert inst ==> step[..|step|] == step;
      } else {
        EmptyText(t, i, p[1..], false);
        assert dot + step + [] == dot + step;
      }
    }
  }

  lemma InRange(kw: Table, inst: bool, p: seq<int>)
    requires p != [] && ValidPath(kw, inst, p)
    ensures !inst ==> 1 <= p[0] <= |kw.elems| && (kw.elems[p[0] - 1].Value? ==> |p| == 1)
    ensures inst ==> p[0] >= 1
  {}

  lemma RestKeyed(kw: Table, inst: bool, p: seq<int>)
    requires p != [] && ValidPath(kw, inst, p) && WellKeyed(kw) && (inst || !kw.elems[p[0] - 1].Value?)
    ensures WellKeyed(Rest(kw, inst, p).0)
  {
    if !inst { assert kw.elems[p[0] - 1] in kw.elems; }
  }

  lemma TailIds(p: seq<int>)
    requires p != [] && forall i :: 0 <= i < |p| ==> p[i] >= 0
    ensures forall i :: 0 <= i < |p[1..]| ==> p[1..][i] >= 0
  {}

  lemma EmptyText(kw: Table, inst: bool, p: seq<int>, first: bool)
    requires ValidPath(kw, inst, p)
    ensures p == [] ==> Text0(kw, inst, p, first) == []
    ensures p != [] && WellKeyed(kw) ==> |Text0(kw, inst, p, first)| >= if first then 1 else 2
  {
    if p != [] { NameStep(kw, inst, p); }
  }

  method Sel2Name(root: Table, sel: seq<int>, size: int) returns (r: Option<Text>)
    requires |sel| == LEN && forall i :: 0 <= i < LEN ==> 0 <= sel[i] <= 0xFFFF
    ensures forall i :: 0 <= i < |Steps(sel)| ==> Steps(sel)[i] >= 0
    ensures r == PrintFrom(root, false, Steps(sel), true, size)
  {
    hide PrintFrom, Digits, Steps, Joined;
    StepsIds(sel);
    var text: Text := [];
    var kw, inst, room, i := root, false, size, 0;
    JoinedStart(PrintFrom(root, false, Steps(sel), true, size));
    StepsTail(sel, 0);
    assert sel[0..] == sel;
    while i < LEN && sel[i] != 0 && room > 1
      invariant 0 <= i <= LEN
      invariant forall k :: 0 <= k < |Steps(sel[i..])| ==> Steps(sel[i..])[k] >= 0
      invariant Joined(text, PrintFrom(kw, inst, Steps(sel[i..]), i == 0, room))
        == PrintFrom(root, false, Steps(sel), true, size)
    {
      StepsTail(sel, i);
      StepsIds(sel[i + 1..]);
      PrintLoop(kw, inst, Steps(sel[i..]), i == 0, room, text);
      assert Steps(sel[i..])[1..] == Steps(sel[i + 1..]);
      assert text + [] == text;
      if i != 0 {
        text := text + [DOT];
        room := room - 1;
      }
      if inst {
        var d := Digits(sel[i]);
        text := text + d[..Min(|d|, room - 1)];
        room := room - |d|;
        inst := false;
      } else {
        if sel[i] > |kw.elems| {
          return None;
        }
        var e := kw.elems[sel[i] - 1];
        if |e.key| >= room {
          return None;
        }
        text := text + e.key;
        room := room - |e.key|;
        match e
        case Value(_) => return Some(text);
        case Token(_, t) => kw, inst := t, false;
        case Object(_, t) => kw, inst := t, true;
      }
      i := i + 1;
    }
    LoopEnd(kw, inst, sel, i, room, text);
    return Some(text);
  }

  // ---------- selectors that are no path ----------

  /** Some step, before a value is reached, is the number of no element. */
  ghost predicate Astray(kw: Table, inst: bool, p: seq<int>)
    decreases |p|
  {
    p != [] &&
    if inst then Astray(kw, false, p[1..])
    else
      p[0] < 1 || p[0] > |kw.elems| ||
      var e := kw.elems[p[0] - 1];
      !e.Value? && Astray(e.table, e.Object?, p[1..])
  }

  /** The steps up to a value: nothing behind it matters. */
  ghost function Known(kw: Table, inst: bool, p: seq<int>): (q: seq<int>)
    ensures q <= p
    decreases |p|
  {
    if p == [] then []
    else if inst then [p[0]] + Known(kw, false, p[1..])
    else if p[0] < 1 || p[0] > |kw.elems| then []
    else
      var e := kw.elems[p[0] - 1];
      if e.Value? then [p[0]] else [p[0]] + Known(e.table, e.Object?, p[1..])
  }

  /** Every selector has a step that is no element, or is a path up to there. */
  lemma {:induction false} KnownValid(kw: Table, inst: bool, p: seq<int>)
    requires forall i :: 0 <= i < |p| ==> 1 <= p[i] <= DM_ERR
    ensures !Astray(kw, inst, p) ==> ValidPath(kw, inst, Known(kw, inst, p))
    ensures ValidPath(kw, inst, p) ==> !Astray(kw, inst, p) && Known(kw, inst, p) == p
    decreases |p|
  {
    if p != [] {
      assert p == [p[0]] + p[1..];
      if inst {
        KnownValid(kw, false, p[1..]);
      } else if 1 <= p[0] <= |kw.elems| && !kw.elems[p[0] - 1].Value? {
        var e := kw.elems[p[0] - 1];
        KnownValid(e.table, e.Object?, p[1..]);
      }
    }
  }

  /** A selector that goes astray is not printed, unless the buffer is full before that. */
  lemma {:induction false} AstrayNotPrinted(kw: Table, inst: bool, p: seq<int>, first: bool, size: int)
    requires Astray(kw, inst, p) && forall i :: 0 <= i < |p| ==> p[i] >= 0
    ensures var r := PrintFrom(kw, inst, p, first, size); r.Some? ==> |r.value| >= size - 1
    decreases |p|
  {
    hide Digits;
    if size > 1 {
      TailIds(p);
      var room := if first then size else size - 1;
      if inst {
        AstrayNotPrinted(kw, false, p[1..], false, room - |Digits(p[0])|);
      } else if 1 <= p[0] <= |kw.elems| && !kw.elems[p[0] - 1].Value? {
        var e := kw.elems[p[0] - 1];
        AstrayNotPrinted(e.table, e.Object?, p[1..], false, room - |e.key|);
      }
    }
  }

  lemma KnownNone(kw: Table, inst: bool)
    ensures Known(kw, inst, []) == []
  {}

  /** Of any other selector the steps up to a value are printed. */
  lemma {:induction false} KnownPrinted(kw: Table, inst: bool, p: seq<int>, first: bool, size: int)
    requires !Astray(kw, inst, p) && forall i :: 0 <= i < |p| ==> p[i] >= 1
    ensures forall i :: 0 <= i < |Known(kw, inst, p)| ==> Known(kw, inst, p)[i] >= 1
    ensures PrintFrom(kw, inst, p, first, size) == PrintFrom(kw, inst, Known(kw, inst, p), first, size)
    decreases |p|
  {
    hide Digits, Known, Astray, PrintFrom, Joined;
    KnownNone(kw, inst);
    var q := Known(kw, inst, p);
    if p == [] || size <= 1 {
      PrintNothing(kw, inst, p, first, size);
      PrintNothing(kw, inst, q, first, size);
    } else {
      AstrayStep(kw, inst, p);
      var room := if first then size else size - 1;
      PrintLoop(kw, inst, p, first, size, []);
      PrintLoop(kw, inst, q, first, size, []);
      JoinedStart(PrintFrom(kw, inst, p, first, size));
      JoinedStart(PrintFrom(kw, inst, q, first, size));
      if inst {
        KnownPrinted(kw, false, p[1..], false, room - |Digits(p[0])|);
      } else if !kw.elems[p[0] - 1].Value? {
        var e := kw.elems[p[0] - 1];
        KnownPrinted(e.table, e.Object?, p[1..], false, room - |e.key|);
      }
    }
  }

  lemma JoinedStart(r: Option<Text>)
    ensures Joined([], r) == r
  {
    if r.Some? { assert [] + r.value == r.value; }
  }

  lemma {:induction false} StepsIds(sel: seq<int>)
    requires forall i :: 0 <= i < |sel| ==> 0 <= sel[i]
    ensures forall i :: 0 <= i < |Steps(sel)| ==> Steps(sel)[i] >= 1
    decreases |sel|
  {
    if sel != [] && sel[0] != 0 { StepsIds(sel[1..]); }
  }

  lemma {:induction false} StepsAre(sel: seq<int>)
    ensures forall i :: 0 <= i < |Steps(sel)| ==> Steps(sel)[i] == sel[i]
    decreases |sel|
  {
    if sel != [] && sel[0] != 0 { StepsAre(sel[1..]); }
  }

  lemma StepsTail(sel: seq<int>, i: int)
    requires 0 <= i < |sel|
    ensures sel[i] != 0 ==> Steps(sel[i..]) == [sel[i]] + Steps(sel[i + 1..])
    ensures sel[i] == 0 ==> Steps(sel[i..]) == []
  {
    assert sel[i..][1..] == sel[i + 1..];
  }

  /** One round of the loop, with the text so far. */
  lemma PrintLoop(kw: Table, inst: bool, p: seq<int>, first: bool, size: int, text: Text)
    requires p != [] && size > 1 && (forall i :: 0 <= i < |p| ==> p[i] >= 0) && p[0] >= 1
    ensures forall i :: 0 <= i < |p[1..]| ==> p[1..][i] >= 0
    ensures var dotted := text + if first then [] else [DOT];
      var room, whole := (if first then size else size - 1), Joined(text, PrintFrom(kw, inst, p, first, size));
      if inst then
        var d := Digits(p[0]);
        whole == Joined(dotted + d[..Min(|d|, room - 1)], PrintFrom(kw, false, p[1..], false, room - |d|))
      else if p[0] > |kw.elems| then whole == None
      else
        var e := kw.elems[p[0] - 1];
        if |e.key| >= room then whole == None
        else if e.Value? then whole == Some(dotted + e.key)
        else whole == Joined(dotted + e.key, PrintFrom(e.table, e.Object?, p[1..], false, room - |e.key|))
  {
    hide Digits;
    TailIds(p);
    var dot: Text := if first then [] else [DOT];
    var room := size - |dot|;
    if inst {
      var d := Digits(p[0]);
      JoinedTwice(text, dot, d[..Min(|d|, room - 1)], PrintFrom(kw, false, p[1..], false, room - |d|));
    } else if p[0] <= |kw.elems| {
      var e := kw.elems[p[0] - 1];
      assert text + (dot + e.key) == text + dot + e.key;
      if |e.key| < room && !e.Value? {
        JoinedTwice(text, dot, e.key, PrintFrom(e.table, e.Object?, p[1..], false, room - |e.key|));
      }
    }
  }

  lemma JoinedTwice(a: Text, b: Text, c: Text, r: Option<Text>)
    ensures Joined(a, Joined(b + c, r)) == Joined(a + b + c, r)
  {
    if r.Some? { assert a + ((b + c) + r.value) == a + b + c + r.value; }
  }

  lemma LoopEnd(kw: Table, inst: bool, sel: seq<int>, i: int, room: int, text: Text)
    requires 0 <= i <= |sel| && (i == |sel| || sel[i] == 0 || room <= 1)
    requires forall k :: 0 <= k < |Steps(sel[i..])| ==> Steps(sel[i..])[k] >= 0
    ensures Joined(text, PrintFrom(kw, inst, Steps(sel[i..]), i == 0, room)) == Some(text)
  {
    assert text + [] == text;
  }

  /** What is printed of any selector, with any buffer: its steps up to a value, as far as they go into the buffer, and
      NULL or a full buffer if a step is no element. */
  lemma PrintMeans(root: Table, p: seq<int>, size: int)
    requires WellKeyed(root) && forall i :: 0 <= i < |p| ==> 1 <= p[i] <= DM_ERR
    ensures var r := PrintFrom(root, false, p, true, size);
      if Astray(root, false, p) then r.Some? ==> |r.value| >= size - 1
      else
        && ValidPath(root, false, Known(root, false, p))
        && var name := Name(root, false, Known(root, false, p));
        && (|name| < size ==> r == Some(name))
        && (r.Some? ==> r.value <= name && (r.value == [] || |r.value| < size))
  {
    hide PrintFrom, Name, Known, Astray, WellKeyed;
    if Astray(root, false, p) {
      AstrayNotPrinted(root, false, p, true, size);
    } else {
      KnownValid(root, false, p);
      KnownPrinted(root, false, p, true, size);
      var q := Known(root, false, p);
      PrintPrefix(root, false, q, true, size);
      NoName(root);
      assert Text0(root, false, q, true) == Name(root, false, q);
      if |Name(root, false, q)| < size { PrintFits(root, false, q, true, size); }
    }
  }

  lemma NoName(kw: Table)
    ensures Name(kw, false, []) == []
  {}

  /** Printing a selector into a buffer that holds its name, and parsing it, gives the selector back: exactly if no
      instance is DM_ERR. */
  lemma SelectorRoundTrip(root: Table, p: seq<int>, size: int)
    requires ValidPath(root, false, p) && WellKeyed(root) && 1 <= |p| <= LEN && |Name(root, false, p)| < size
    ensures Steps(Pad(p)) == p && (forall i :: 0 <= i < |p| ==> p[i] >= 0)
    ensures PrintFrom(root, false, p, true, size) == Some(Name(root, false, p))
    ensures ParseFrom(root, false, Some(Name(root, false, p)), LEN) == if Lost(root, false, p) then None else Some(p)
  {
    hide PrintFrom, Name, ParseFrom, Lost;
    ValidIds(root, false, p);
    StepsPadded(p, LEN - |p|);
    assert [] + Name(root, false, p) == Name(root, false, p);
    PrintFits(root, false, p, true, size);
    RoundTrip(root, false, p, LEN);
  }

  // ---------- dm_get_element_by_selector ----------

  datatype Kind = NoElement | KindValue | KindToken | KindObject

  function KindOf(e: Elem): Kind {
    match e
    case Value(_) => KindValue
    case Token(_, _) => KindToken
    case Object(_, _) => KindObject
  }

  /** The last element on a path that is not an instance id. */
  function Last(kw: Table, inst: bool, p: seq<int>, last: Option<Elem>): Option<Elem>
    requires ValidPath(kw, inst, p)
    decreases |p|
  {
    if p == [] then last
    else Last(Rest(kw, inst, p).0, Rest(kw, inst, p).1, p[1..], if inst then last else Some(kw.elems[p[0] - 1]))
  }

  /** The type that is returned: that of the last element, or a table's after an instance id. */
  function LastKind(kw: Table, inst: bool, p: seq<int>, kind: Kind): Kind
    requires ValidPath(kw, inst, p)
    decreases |p|
  {
    if p == [] then kind
    else LastKind(Rest(kw, inst, p).0, Rest(kw, inst, p).1, p[1..],
      if inst then KindToken else KindOf(kw.elems[p[0] - 1]))
  }

  /** Resolves every path of the schema to its last element and that element's type; an instance counts as a table. */
  method GetElement(root: Table, sel: seq<int>) returns (kind: Kind, elm: Option<Elem>)
    requires |sel| == LEN && forall i :: 0 <= i < LEN ==> 0 <= sel[i] <= 0xFFFF
    ensures ValidPath(root, false, Steps(sel)) ==> elm == Last(root, false, Steps(sel), None)
    ensures ValidPath(root, false, Steps(sel)) ==> kind == LastKind(root, false, Steps(sel), KindToken)
    ensures kind == NoElement <==> Astray(root, false, Steps(sel))
    ensures !Astray(root, false, Steps(sel)) ==>
      var p := Known(root, false, Steps(sel));
      && ValidPath(root, false, p) && elm == Last(root, false, p, None) && kind == LastKind(root, false, p, KindToken)
  {
    hide Steps, Last, LastKind, ValidPath, Astray, Known;
    StepsIds(sel);
    StepsAre(sel);
    KnownValid(root, false, Steps(sel));
    kind, elm := KindToken, None;
    var kw := root;
    ghost var p := Steps(sel);
    ghost var q, astray := Known(root, false, p), Astray(root, false, p);
    assert sel[0..] == sel;
    var i := 0;
    while i < LEN && sel[i] != 0
      invariant 0 <= i <= LEN && kind != NoElement && kind != KindValue
      invariant Astray(kw, kind == KindObject, Steps(sel[i..])) == astray
      invariant !astray ==>
        var k := Known(kw, kind == KindObject, Steps(sel[i..]));
        && ValidPath(kw, kind == KindObject, k)
        && Last(kw, kind == KindObject, k, elm) == Last(root, false, q, None)
        && LastKind(kw, kind == KindObject, k, kind) == LastKind(root, false, q, KindToken)
    {
      StepsTail(sel, i);
      assert Steps(sel[i..])[1..] == Steps(sel[i + 1..]);
      AstrayStep(kw, kind == KindObject, Steps(sel[i..]));
      if !astray { LastStep(kw, kind == KindObject, Known(kw, kind == KindObject, Steps(sel[i..])), elm, kind); }
      if kind == KindObject {
        kind := KindToken;
      } else {
        if sel[i] > |kw.elems| {
          return NoElement, elm;
        }
        elm := Some(kw.elems[sel[i] - 1]);
        kind := KindOf(elm.value);
        if kind == KindValue {
          return;
        }
        kw := elm.value.table;
      }
      i := i + 1;
    }
    LastEnd(kw, kind == KindObject, sel, i, elm, kind);
  }

  lemma AstrayStep(kw: Table, inst: bool, p: seq<int>)
    requires p != []
    ensures !inst && p[0] < 1 ==> Astray(kw, inst, p)
    ensures inst ==>
      (&& Astray(kw, inst, p) == Astray(kw, false, p[1..])
       && Known(kw, inst, p) != [] && Known(kw, inst, p)[0] == p[0]
       && Known(kw, inst, p)[1..] == Known(kw, false, p[1..]))
    ensures !inst && p[0] > |kw.elems| ==> Astray(kw, inst, p)
    ensures !inst && 1 <= p[0] <= |kw.elems| ==>
      (&& Known(kw, inst, p) != [] && Known(kw, inst, p)[0] == p[0]
       && var e := kw.elems[p[0] - 1];
       if e.Value? then !Astray(kw, inst, p) && Known(kw, inst, p) == [p[0]]
       else
         && Astray(kw, inst, p) == Astray(e.table, e.Object?, p[1..])
         && Known(kw, inst, p)[1..] == Known(e.table, e.Object?, p[1..]))
  {}

  lemma LastStep(kw: Table, inst: bool, p: seq<int>, last: Option<Elem>, kind: Kind)
    requires p != [] && ValidPath(kw, inst, p)
    ensures inst ==>
      (&& ValidPath(kw, false, p[1..])
       && Last(kw, inst, p, last) == Last(kw, false, p[1..], last)
       && LastKind(kw, inst, p, kind) == LastKind(kw, false, p[1..], KindToken))
    ensures !inst ==>
      (&& 1 <= p[0] <= |kw.elems|
       && var e := kw.elems[p[0] - 1];
       if e.Value? then Last(kw, inst, p, last) == Some(e) && LastKind(kw, inst, p, kind) == KindValue
       else
         && ValidPath(e.table, e.Object?, p[1..])
         && Last(kw, inst, p, last) == Last(e.table, e.Object?, p[1..], Some(e))
         && LastKind(kw, inst, p, kind) == LastKind(e.table, e.Object?, p[1..], KindOf(e)))
  {}

  lemma LastEnd(kw: Table, inst: bool, sel: seq<int>, i: int, last: Option<Elem>, kind: Kind)
    requires 0 <= i <= |sel| && (i == |sel| || sel[i] == 0)
    ensures !Astray(kw, inst, Steps(sel[i..]))
    ensures var k := Known(kw, inst, Steps(sel[i..]));
      ValidPath(kw, inst, k) && Last(kw, inst, k, last) == last && LastKind(kw, inst, k, kind) == kind
  {}

  /** The element that a path resolves to is the one whose key its printed name ends with, and its type is the one
      returned. */
  lemma {:induction false} LastNamed(kw: Table, inst: bool, p: seq<int>, last: Option<Elem>, kind: Kind)
    requires p != [] && ValidPath(kw, inst, p)
    ensures EndsInElement(kw, inst, p) ==>
      (&& Last(kw, inst, p, last).Some? && EndsWith(Name(kw, inst, p), Last(kw, inst, p, last).value.key)
       && LastKind(kw, inst, p, kind) == KindOf(Last(kw, inst, p, last).value))
    ensures !EndsInElement(kw, inst, p) ==> LastKind(kw, inst, p, kind) == KindToken
    decreases |p|
  {
    hide Name;
    var (t, i) := Rest(kw, inst, p);
    var step := StepName(kw, inst, p);
    var here := if inst then last else Some(kw.elems[p[0] - 1]);
    NameStep(kw, inst, p);
    if |p| == 1 {
      assert step + [] == step;
      assert p[1..] == [];
    } else {
      LastNamed(t, i, p[1..], here, if inst then KindToken else KindOf(kw.elems[p[0] - 1]));
      if EndsInElement(t, i, p[1..]) {
        EndsLonger(step, Name(t, i, p[1..]), Last(t, i, p[1..], here).value.key);
      }
    }
  }

  /** The last step names an element, not an instance. */
  ghost predicate EndsInElement(kw: Table, inst: bool, p: seq<int>)
    requires p != [] && ValidPath(kw, inst, p)
    decreases |p|
  {
    if |p| == 1 then !inst else EndsInElement(Rest(kw, inst, p).0, Rest(kw, inst, p).1, p[1..])
  }

  predicate EndsWith(s: Text, t: Text) {
    |t| <= |s| && s[|s| - |t|..] == t
  }

  lemma EndsLonger(a: Text, b: Text, t: Text)
    requires EndsWith(b, t)
    ensures EndsWith(a + ([DOT] + b), t)
  {
    var s := a + ([DOT] + b);
    assert s[|s| - |t|..] == b[|b| - |t|..];
  }
}
