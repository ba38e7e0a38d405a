/** decode_node_list: the leaves of a listing, with their dotted paths. */
module ListDecode {
  import opened Basics
  import opened AvpFormat
  import opened AvpRequest
  import opened AvpMessage
  import opened ListTree

  /** A call of the callback. */
  datatype Call = Call(path: seq<Byte>, code: int, vendor: int, data: seq<Byte>)

  datatype Decoded = Decoded(rc: Rc, calls: seq<Call>, next: int)

  /** strndup: up to the first NUL. */
  function CString(s: seq<Byte>): (r: seq<Byte>)
    ensures 0 !in r && r <= s
  {
    if s == [] || s[0] == 0 then [] else [s[0]] + CString(s[1..])
  }

  lemma {:induction false} CStringSame(s: seq<Byte>)
    requires 0 !in s
    ensures CString(s) == s
  {
    if s != [] {
      CStringSame(s[1..]);
      assert s == [s[0]] + s[1..];
    }
  }

  function N16(s: seq<Byte>): (r: int)
    requires |s| == 2
    ensures r >= 0
  {
    var (a: int, b: int) := (s[0], s[1]);
    a * 256 + b
  }

  lemma RoundTrip16(id: Id)
    ensures N16(U16(id)) == id
  {}

  // ---------- what decoding a listing should give ----------

  /** A leaf that is listed, with its value if it could be listed. */
  datatype Entry = Entry(path: seq<Byte>, value: Value)

  /** The leaves of a node down to `l` levels, in walk order. */
  function NodeLeaves(prefix: seq<Byte>, n: Node, l: int): seq<Entry>
    decreases n, 0
  {
    if n.key.NoKey? then []
    else
      var path := prefix + [DOT] + n.key.name;
      match n
      case Leaf(_, _, value) => [Entry(path, value)]
      case Table(_, present, kids) => if present && l != 1 then Leaves(path, kids, l - 1) else []
      case Object(_, rows) => if l != 1 then RowLeaves(path, rows, l) else []
  }

  function Leaves(prefix: seq<Byte>, nodes: seq<Node>, l: int): seq<Entry>
    decreases nodes, 1
  {
    if nodes == [] then [] else NodeLeaves(prefix, nodes[0], l) + Leaves(prefix, nodes[1..], l)
  }

  function RowLeaves(prefix: seq<Byte>, rows: seq<Row>, l: int): seq<Entry>
    decreases rows, 1
  {
    if rows == [] then []
    else
      var r := rows[0];
      (if l != 2 then Leaves(prefix + [DOT] + Digits(r.id), r.kids, l - 2) else []) + RowLeaves(prefix, rows[1..], l)
  }

  // ---------- leaves by depth ----------

  /** A leaf with the level that it is on. */
  datatype Deep = Deep(entry: Entry, depth: int)

  /** All the leaves of a node on level `d`, each with its level; the instances of an object are a level. */
  function DeepNode(prefix: seq<Byte>, n: Node, d: int): seq<Deep>
    decreases n, 0
  {
    if n.key.NoKey? then []
    else
      var path := prefix + [DOT] + n.key.name;
      match n
      case Leaf(_, _, value) => [Deep(Entry(path, value), d)]
      case Table(_, present, kids) => if present then DeepAll(path, kids, d + 1) else []
      case Object(_, rows) => DeepRows(path, rows, d + 1)
  }

  function DeepAll(prefix: seq<Byte>, nodes: seq<Node>, d: int): seq<Deep>
    decreases nodes, 1
  {
    if nodes == [] then [] else DeepNode(prefix, nodes[0], d) + DeepAll(prefix, nodes[1..], d)
  }

  function DeepRows(prefix: seq<Byte>, rows: seq<Row>, d: int): seq<Deep>
    decreases rows, 1
  {
    if rows == [] then []
    else DeepAll(prefix + [DOT] + Digits(rows[0].id), rows[0].kids, d + 1) + DeepRows(prefix, rows[1..], d)
  }

  /** Those down to level `l`, in the same order. */
  function Within(s: seq<Deep>, l: int): (r: seq<Entry>)
    ensures forall e :: e in r <==> exists i :: 0 <= i < |s| && s[i].entry == e && s[i].depth <= l
  {
    if s == [] then []
    else if s[0].depth <= l then [s[0].entry] + Within(s[1..], l)
    else Within(s[1..], l)
  }

  lemma {:induction false} WithinBoth(a: seq<Deep>, b: seq<Deep>, l: int)
    ensures Within(a + b, l) == Within(a, l) + Within(b, l)
  {
    if a == [] {
      assert a + b == b;
    } else {
      assert (a + b)[1..] == a[1..] + b;
      WithinBoth(a[1..], b, l);
    }
  }

  lemma {:induction false} WithinNone(s: seq<Deep>, l: int)
    requires forall i :: 0 <= i < |s| ==> s[i].depth > l
    ensures Within(s, l) == []
  {
    if s != [] { WithinNone(s[1..], l); }
  }

  lemma {:induction false} NodeBelow(prefix: seq<Byte>, n: Node, d: int)
    ensures forall i :: 0 <= i < |DeepNode(prefix, n, d)| ==> DeepNode(prefix, n, d)[i].depth >= d
    decreases n, 0
  {
    if n.key.Key? {
      var path := prefix + [DOT] + n.key.name;
      match n
      case Leaf(_, _, _) =>
      case Table(_, present, kids) => AllBelow(path, kids, d + 1);
      case Object(_, rows) => RowsBelow(path, rows, d + 1);
    }
  }

  lemma {:induction false} AllBelow(prefix: seq<Byte>, nodes: seq<Node>, d: int)
    ensures forall i :: 0 <= i < |DeepAll(prefix, nodes, d)| ==> DeepAll(prefix, nodes, d)[i].depth >= d
    decreases nodes, 1
  {
    hide DeepNode;
    if nodes != [] {
      NodeBelow(prefix, nodes[0], d);
      AllBelow(prefix, nodes[1..], d);
    }
  }

  lemma {:induction false} RowsBelow(prefix: seq<Byte>, rows: seq<Row>, d: int)
    ensures forall i :: 0 <= i < |DeepRows(prefix, rows, d)| ==> DeepRows(prefix, rows, d)[i].depth >= d
    decreases rows, 1
  {
    hide DeepAll;
    if rows != [] {
      AllBelow(prefix + [DOT] + Digits(rows[0].id), rows[0].kids, d + 1);
      RowsBelow(prefix, rows[1..], d);
    }
  }

  /** The leaves that a walk with a limit comes to are those on the levels down to it. */
  lemma {:induction false} NodeWithin(prefix: seq<Byte>, n: Node, d: int, l: int)
    requires d <= l
    ensures NodeLeaves(prefix, n, l - d + 1) == Within(DeepNode(prefix, n, d), l)
    decreases n, 0
  {
    hide Leaves, RowLeaves, DeepAll, DeepRows;
    if n.key.Key? {
      var path := prefix + [DOT] + n.key.name;
      match n
      case Leaf(_, _, _) =>
      case Table(_, present, kids) =>
        if d < l {
          LeavesWithin(path, kids, d + 1, l);
        } else {
          AllBelow(path, kids, d + 1);
          WithinNone(DeepAll(path, kids, d + 1), l);
        }
      case Object(_, rows) =>
        if d < l {
          RowsWithin(path, rows, d + 1, l);
        } else {
          RowsBelow(path, rows, d + 1);
          WithinNone(DeepRows(path, rows, d + 1), l);
        }
    }
  }

  lemma {:induction false} LeavesWithin(prefix: seq<Byte>, nodes: seq<Node>, d: int, l: int)
    requires d <= l
    ensures Leaves(prefix, nodes, l - d + 1) == Within(DeepAll(prefix, nodes, d), l)
    decreases nodes, 1
  {
    hide NodeLeaves, DeepNode;
    if nodes != [] {
      NodeWithin(prefix, nodes[0], d, l);
      LeavesWithin(prefix, nodes[1..], d, l);
      WithinBoth(DeepNode(prefix, nodes[0], d), DeepAll(prefix, nodes[1..], d), l);
    }
  }

  lemma {:induction false} RowsWithin(prefix: seq<Byte>, rows: seq<Row>, d: int, l: int)
    requires d <= l
    ensures RowLeaves(prefix, rows, l - d + 2) == Within(DeepRows(prefix, rows, d), l)
    decreases rows, 1
  {
    hide Leaves, DeepAll;
    if rows != [] {
      var path := prefix + [DOT] + Digits(rows[0].id);
      RowsWithin(prefix, rows[1..], d, l);
      WithinBoth(DeepAll(path, rows[0].kids, d + 1), DeepRows(prefix, rows[1..], d), l);
      if d < l {
        LeavesWithin(path, rows[0].kids, d + 1, l);
      } else {
        AllBelow(path, rows[0].kids, d + 1);
        WithinNone(DeepAll(path, rows[0].kids, d + 1), l);
      }
    }
  }

  // ---------- what it does give ----------

  /** An element that was listed without its value. */
  predicate Stops(n: Node) {
    n.key.Key? && n.Leaf? && n.value.NoValue?
  }

  function NodeGot(prefix: seq<Byte>, n: Node, l: int): seq<Call>
    decreases n, 0
  {
    if n.key.NoKey? then []
    else
      var path := prefix + [DOT] + n.key.name;
      match n
      case Leaf(_, _, value) => if value.Value? then [Call(path, value.code, VENDOR, value.data)] else []
      case Table(_, present, kids) => if present && l != 1 then Got(path, kids, l - 1) else []
      case Object(_, rows) => if l != 1 then RowsGot(path, rows, l) else []
  }

  /** In each table, up to the first element without its value: the loop over its nodes ends there. */
  function Got(prefix: seq<Byte>, nodes: seq<Node>, l: int): seq<Call>
    decreases nodes, 1
  {
    if nodes == [] || Stops(nodes[0]) then [] else NodeGot(prefix, nodes[0], l) + Got(prefix, nodes[1..], l)
  }

  function RowGot(prefix: seq<Byte>, r: Row, l: int): seq<Call>
    decreases r, 0
  {
    if l != 2 then Got(prefix + [DOT] + Digits(r.id), r.kids, l - 2) else []
  }

  function RowsGot(prefix: seq<Byte>, rows: seq<Row>, l: int): seq<Call>
    decreases rows, 1
  {
    if rows == [] then [] else RowGot(prefix, rows[0], l) + RowsGot(prefix, rows[1..], l)
  }

  // ---------- when the two agree ----------

  /** No leaf is listed without a value. */
  predicate NodeValued(n: Node, l: int)
    decreases n, 0
  {
    n.key.NoKey? ||
    match n
    case Leaf(_, _, value) => value.Value?
    case Table(_, present, kids) => present && l != 1 ==> AllValued(kids, l - 1)
    case Object(_, rows) => l != 1 ==> RowsValued(rows, l)
  }

  predicate AllValued(nodes: seq<Node>, l: int)
    decreases nodes, 1
  {
    nodes == [] || (NodeValued(nodes[0], l) && AllValued(nodes[1..], l))
  }

  predicate RowsValued(rows: seq<Row>, l: int)
    decreases rows, 1
  {
    rows == [] || ((l != 2 ==> AllValued(rows[0].kids, l - 2)) && RowsValued(rows[1..], l))
  }

  /** Every leaf came back, with its path and value, in order. */
  ghost predicate Complete(calls: seq<Call>, leaves: seq<Entry>) {
    && |calls| == |leaves|
    && forall i :: 0 <= i < |calls| ==>
      leaves[i].value.Value? && calls[i] == Call(leaves[i].path, leaves[i].value.code, VENDOR, leaves[i].value.data)
  }

  lemma CompleteBoth(a: seq<Call>, x: seq<Entry>, b: seq<Call>, y: seq<Entry>)
    requires Complete(a, x) && Complete(b, y)
    ensures Complete(a + b, x + y)
  {}

  /** There are never more calls than leaves, and as many exactly if every leaf has a value; then they agree. */
  ghost predicate Agree(calls: seq<Call>, leaves: seq<Entry>, valued: bool) {
    |calls| <= |leaves| && (|calls| == |leaves| ==> valued) && (valued ==> Complete(calls, leaves))
  }

  lemma AgreeBoth(a: seq<Call>, x: seq<Entry>, v: bool, b: seq<Call>, y: seq<Entry>, w: bool)
    requires Agree(a, x, v) && Agree(b, y, w)
    ensures Agree(a + b, x + y, v && w)
  {
    if v && w { CompleteBoth(a, x, b, y); }
  }

  lemma {:induction false} NodeAgrees(prefix: seq<Byte>, n: Node, l: int)
    ensures Agree(NodeGot(prefix, n, l), NodeLeaves(prefix, n, l), NodeValued(n, l))
    decreases n, 0
  {
    if n.key.Key? {
      var path := prefix + [DOT] + n.key.name;
      match n
      case Leaf(_, _, _) =>
      case Table(_, present, kids) => NodesAgree(path, kids, l - 1);
      case Object(_, rows) => RowsAgree(path, rows, l);
    }
  }

  lemma {:induction false} NodesAgree(prefix: seq<Byte>, nodes: seq<Node>, l: int)
    ensures Agree(Got(prefix, nodes, l), Leaves(prefix, nodes, l), AllValued(nodes, l))
    decreases nodes, 1
  {
    if nodes != [] {
      var n := nodes[0];
      NodeAgrees(prefix, n, l);
      NodesAgree(prefix, nodes[1..], l);
      if !Stops(n) {
        AgreeBoth(NodeGot(prefix, n, l), NodeLeaves(prefix, n, l), NodeValued(n, l),
                  Got(prefix, nodes[1..], l), Leaves(prefix, nodes[1..], l), AllValued(nodes[1..], l));
      }
    }
  }

  lemma {:induction false} RowsAgree(prefix: seq<Byte>, rows: seq<Row>, l: int)
    ensures Agree(RowsGot(prefix, rows, l), RowLeaves(prefix, rows, l), RowsValued(rows, l))
    decreases rows, 1
  {
    if rows != [] {
      var r := rows[0];
      var path := prefix + [DOT] + Digits(r.id);
      NodesAgree(path, r.kids, l - 2);
      RowsAgree(prefix, rows[1..], l);
      AgreeBoth(RowGot(prefix, r, l), if l != 2 then Leaves(path, r.kids, l - 2) else [],
        l != 2 ==> AllValued(r.kids, l - 2),
                RowsGot(prefix, rows[1..], l), RowLeaves(prefix, rows[1..], l), RowsValued(rows[1..], l));
    }
  }

  predicate HaveValues(s: seq<Entry>) {
    forall i :: 0 <= i < |s| ==> s[i].value.Value?
  }

  lemma HaveBoth(a: seq<Entry>, b: seq<Entry>)
    ensures HaveValues(a + b) <==> HaveValues(a) && HaveValues(b)
  {
    if HaveValues(a + b) {
      assert forall i :: 0 <= i < |a| ==> (a + b)[i] == a[i];
      assert forall i :: 0 <= i < |b| ==> (a + b)[|a| + i] == b[i];
    }
  }

  lemma {:induction false} NodeHas(prefix: seq<Byte>, n: Node, l: int)
    ensures NodeValued(n, l) <==> HaveValues(NodeLeaves(prefix, n, l))
    decreases n, 0
  {
    if n.key.Key? {
      var path := prefix + [DOT] + n.key.name;
      match n
      case Leaf(_, _, value) => assert NodeLeaves(prefix, n, l)[0].value == value;
      case Table(_, present, kids) => LeavesHave(path, kids, l - 1);
      case Object(_, rows) => RowsHave(path, rows, l);
    }
  }

  lemma {:induction false} LeavesHave(prefix: seq<Byte>, nodes: seq<Node>, l: int)
    ensures AllValued(nodes, l) <==> HaveValues(Leaves(prefix, nodes, l))
    decreases nodes, 1
  {
    hide NodeValued, NodeLeaves, HaveValues;
    if nodes == [] {
      HaveNone();
    } else {
      NodeHas(prefix, nodes[0], l);
      LeavesHave(prefix, nodes[1..], l);
      HaveBoth(NodeLeaves(prefix, nodes[0], l), Leaves(prefix, nodes[1..], l));
    }
  }

  lemma HaveNone()
    ensures HaveValues([])
  {}

  lemma {:induction false} RowsHave(prefix: seq<Byte>, rows: seq<Row>, l: int)
    ensures RowsValued(rows, l) <==> HaveValues(RowLeaves(prefix, rows, l))
    decreases rows, 1
  {
    hide AllValued, Leaves, HaveValues;
    HaveNone();
    if rows != [] {
      var path := prefix + [DOT] + Digits(rows[0].id);
      LeavesHave(path, rows[0].kids, l - 2);
      RowsHave(prefix, rows[1..], l);
      HaveBoth(if l != 2 then Leaves(path, rows[0].kids, l - 2) else [], RowLeaves(prefix, rows[1..], l));
    }
  }

  /** The call for a leaf. */
  function CallOf(e: Entry): Call
    requires e.value.Value?
  {
    Call(e.path, e.value.code, VENDOR, e.value.data)
  }

  /** Every call is for one of the leaves. */
  ghost predicate Among(calls: seq<Call>, leaves: seq<Entry>) {
    forall c :: c in calls ==> exists e :: e in leaves && e.value.Value? && c == CallOf(e)
  }

  lemma AmongBoth(a: seq<Call>, x: seq<Entry>, b: seq<Call>, y: seq<Entry>)
    requires Among(a, x) && Among(b, y)
    ensures Among(a + b, x + y)
  {
    forall c | c in a + b ensures exists e :: e in x + y && e.value.Value? && c == CallOf(e) {
      if c in a {
        var e :| e in x && e.value.Value? && c == CallOf(e);
        assert e in x + y;
      } else {
        var e :| e in y && e.value.Value? && c == CallOf(e);
        assert e in x + y;
      }
    }
  }

  lemma {:induction false} NodeAmong(prefix: seq<Byte>, n: Node, l: int)
    ensures Among(NodeGot(prefix, n, l), NodeLeaves(prefix, n, l))
    decreases n, 0
  {
    if n.key.Key? {
      var path := prefix + [DOT] + n.key.name;
      match n
      case Leaf(_, _, value) =>
        assert Entry(path, value) in NodeLeaves(prefix, n, l);
      case Table(_, present, kids) => GotAmong(path, kids, l - 1);
      case Object(_, rows) => RowsAmong(path, rows, l);
    }
  }

  lemma {:induction false} GotAmong(prefix: seq<Byte>, nodes: seq<Node>, l: int)
    ensures Among(Got(prefix, nodes, l), Leaves(prefix, nodes, l))
    decreases nodes, 1
  {
    if nodes != [] && !Stops(nodes[0]) {
      NodeAmong(prefix, nodes[0], l);
      GotAmong(prefix, nodes[1..], l);
      AmongBoth(NodeGot(prefix, nodes[0], l), NodeLeaves(prefix, nodes[0], l),
        Got(prefix, nodes[1..], l), Leaves(prefix, nodes[1..], l));
    }
  }

  lemma {:induction false} RowsAmong(prefix: seq<Byte>, rows: seq<Row>, l: int)
    ensures Among(RowsGot(prefix, rows, l), RowLeaves(prefix, rows, l))
    decreases rows, 1
  {
    if rows != [] {
      var path := prefix + [DOT] + Digits(rows[0].id);
      GotAmong(path, rows[0].kids, l - 2);
      RowsAmong(prefix, rows[1..], l);
      AmongBoth(RowGot(prefix, rows[0], l), if l != 2 then Leaves(path, rows[0].kids, l - 2) else [],
        RowsGot(prefix, rows[1..], l), RowLeaves(prefix, rows[1..], l));
    }
  }

  /** All the leaves come back exactly if no leaf is listed without a value. */
  lemma AllComeBack(prefix: seq<Byte>, nodes: seq<Node>, l: int)
    ensures Complete(Got(prefix, nodes, l), Leaves(prefix, nodes, l)) <==> AllValued(nodes, l)
  {
    hide Got, Leaves, AllValued;
    NodesAgree(prefix, nodes, l);
  }

  /** Two leaves, a date after February 2036 and a number: neither comes back. */
  lemma DateHidesNumber(l: int)
    ensures var date, number := Leaf(Key([97]), AVP_DATE, DateValue(2085978496)), Leaf(Key([98]), 0, Value(0, [1]));
      && DateValue(2085978495).Value? && date.value == NoValue
      && Got([], [date, number], l) == [] && Got([], [number], l) != []
      && |Leaves([], [date, number], l)| == 2
  {
    var date, number := Leaf(Key([97]), AVP_DATE, DateValue(2085978496)), Leaf(Key([98]), 0, Value(0, [1]));
    assert [date, number][1..] == [number] && [number][1..] == [];
    assert |NodeLeaves([], date, l)| == 1 && |NodeLeaves([], number, l)| == 1;
    assert Leaves([], [number], l) == NodeLeaves([], number, l) + Leaves([], [], l);
  }

  // ---------- decoding ----------

  /** The next AVP; its payload lies inside the group. */
  function Next(mem: seq<Byte>, base: int, size: int, pos: int): (p: Parsed)
    requires Readable(mem, base, size, pos)
    ensures p.rc == Ok ==>
      base + pos + 8 <= p.off && p.len >= 0 && p.off + p.len <= base + p.next && pos + 8 <= p.next <= size
    ensures p.rc != Ok ==> p.next == pos
    ensures p == Parse(mem, base, size, pos)
  {
    var p := Parse(mem, base, size, pos);
    assert p.rc == Ok ==>
      base + pos + 8 <= p.off && p.len >= 0 && p.off + p.len <= base + p.next && pos + 8 <= p.next <= size by {
      if p.rc == Ok { PayloadInside(mem, base, size, pos); }
    }
    p
  }

  predicate Is(p: Parsed, code: int) {
    p.rc == Ok && p.code == code && p.vendor == VENDOR
  }

  /** One node of the listing, on any input. */
  function DecodeAt(mem: seq<Byte>, base: int, size: int, pos: int, prefix: seq<Byte>): (r: Decoded)
    requires Readable(mem, base, size, pos)
    ensures r.rc == Ok ==> pos < r.next <= size
    decreases size, size - pos, 0
  {
    hide Parse;
    var p := Next(mem, base, size, pos);
    if p.rc != Ok then Decoded(p.rc, [], pos)
    else if p.vendor != VENDOR then Decoded(Misc, [], p.next)
    else if p.code == AVP_TABLE || p.code == AVP_OBJECT then
      var k := Next(mem, p.off, p.len, 0);
      if !Is(k, AVP_NAME) then Decoded(Misc, [], p.next)
      else Decoded(Ok, DecodeMany(mem, p.off, p.len, k.next, prefix + [DOT] + CString(mem[k.off..k.off + k.len])),
        p.next)
    else if p.code == AVP_INSTANCE then
      var k := Next(mem, p.off, p.len, 0);
      if !Is(k, AVP_NAME) || k.len != 2 then Decoded(Misc, [], p.next)
      else Decoded(Ok, DecodeMany(mem, p.off, p.len, k.next, prefix + [DOT] + Digits(N16(mem[k.off..k.off + 2]))),
        p.next)
    else if p.code == AVP_ELEMENT then
      DecodeLeaf(mem, p.off, p.len, p.next, prefix)
    else if p.code == AVP_ARRAY then
      DecodeArray(mem, p.off, p.len, p.next, prefix)
    else Decoded(Misc, [], p.next)
  }

  /** Nodes, until one cannot be decoded. */
  function DecodeMany(mem: seq<Byte>, base: int, size: int, pos: int, prefix: seq<Byte>): seq<Call>
    requires Readable(mem, base, size, pos)
    decreases size, size - pos, 1
  {
    var d := DecodeAt(mem, base, size, pos, prefix);
    if d.rc == Ok then d.calls + DecodeMany(mem, base, size, d.next, prefix) else d.calls
  }

  /** The content of an AVP_ELEMENT: name, type and value. */
  function DecodeLeaf(mem: seq<Byte>, base: int, size: int, next: int, prefix: seq<Byte>): (r: Decoded)
    requires Readable(mem, base, size, 0)
    ensures r.next == next
  {
    hide Parse;
    var k := Next(mem, base, size, 0);
    if !Is(k, AVP_NAME) then Decoded(Misc, [], next)
    else
      var t := Next(mem, base, size, k.next);
      if !Is(t, AVP_TYPE) || t.len != 4 then Decoded(Misc, [], next)
      else
        var v := Next(mem, base, size, t.next);
        if v.rc != Ok then Decoded(v.rc, [], next)
        else Decoded(Ok, [Call(prefix + [DOT] + CString(mem[k.off..k.off + k.len]), v.code, v.vendor,
          mem[v.off..v.off + v.len])], next)
  }

  /** The content of an AVP_ARRAY: name, type and values up to the end. */
  function DecodeArray(mem: seq<Byte>, base: int, size: int, next: int, prefix: seq<Byte>): (r: Decoded)
    requires Readable(mem, base, size, 0)
    ensures r.next == next
  {
    hide Parse;
    var k := Next(mem, base, size, 0);
    if !Is(k, AVP_NAME) then Decoded(Misc, [], next)
    else
      var t := Next(mem, base, size, k.next);
      if !Is(t, AVP_TYPE) || t.len != 4 then Decoded(Misc, [], next)
      else
        var (rc, calls) := ArrayValues(mem, base, size, t.next, prefix + [DOT] + CString(mem[k.off..k.off + k.len]));
        Decoded(rc, calls, next)
  }

  function ArrayValues(mem: seq<Byte>, base: int, size: int, pos: int, path: seq<Byte>): (Rc, seq<Call>)
    requires Readable(mem, base, size, pos)
    decreases size - pos
  {
    hide Parse;
    if pos == size then (Ok, [])
    else
      var v := Next(mem, base, size, pos);
      if v.rc != Ok then (v.rc, [])
      else
        var (rc, calls) := ArrayValues(mem, base, size, v.next, path);
        (rc, [Call(path, v.code, v.vendor, mem[v.off..v.off + v.len])] + calls)
  }

  // ---------- decoding what was listed ----------

  lemma NextGroup(mem: seq<Byte>, base: int, size: int, pos: int, code: int, kids: seq<Avp>, rest: seq<Avp>)
    requires Readable(mem, base, size, pos) && Decodes(mem, base, size, pos, [Group(code, VENDOR, kids)] + rest)
    ensures var p := Next(mem, base, size, pos);
      Is(p, code) && Decodes(mem, p.off, p.len, 0, kids) && Decodes(mem, base, size, p.next, rest)
  {
    hide Parse;
    assert ([Group(code, VENDOR, kids)] + rest)[1..] == rest;
  }

  lemma NextSingle(mem: seq<Byte>, base: int, size: int, pos: int, code: int, data: seq<Byte>, rest: seq<Avp>)
    requires Readable(mem, base, size, pos) && Decodes(mem, base, size, pos, [Single(code, VENDOR, data)] + rest)
    ensures var p := Next(mem, base, size, pos);
      Is(p, code) && mem[p.off..p.off + p.len] == data && p.len == |data| && Decodes(mem, base, size, p.next, rest)
  {
    hide Parse;
    assert ([Single(code, VENDOR, data)] + rest)[1..] == rest;
  }

  lemma NextReadable(mem: seq<Byte>, base: int, size: int, pos: int)
    requires Readable(mem, base, size, pos)
    ensures Readable(mem, base, size, Next(mem, base, size, pos).next)
  {}

  lemma NextNone(mem: seq<Byte>, base: int, size: int)
    requires Readable(mem, base, size, size)
    ensures Next(mem, base, size, size).rc == AvpEnd
  {}

  lemma LeafDecoded(mem: seq<Byte>, base: int, size: int, next: int, prefix: seq<Byte>, n: Node)
    requires Readable(mem, base, size, 0) && n.Leaf? && n.key.Key?
    requires Decodes(mem, base, size, 0, LeafAvps(n.key.name, n.kind, n.value))
    ensures DecodeLeaf(mem, base, size, next, prefix)
      == Decoded(if n.value.Value? then Ok else AvpEnd, NodeGot(prefix, n, 1), next)
  {
    hide Next, Decodes, CString, U32, Readable;
    var t := Single(AVP_TYPE, VENDOR, U32(n.kind));
    var v := if n.value.Value? then [Single(n.value.code, VENDOR, n.value.data)] + [] else [];
    assert LeafAvps(n.key.name, n.kind, n.value) == [NameAvp(n.key.name)] + ([t] + v);
    NextSingle(mem, base, size, 0, AVP_NAME, n.key.name, [t] + v);
    var k := Next(mem, base, size, 0);
    CStringSame(n.key.name);
    NextReadable(mem, base, size, 0);
    NextReadable(mem, base, size, k.next);
    NextSingle(mem, base, size, k.next, AVP_TYPE, U32(n.kind), v);
    var at := Next(mem, base, size, k.next).next;
    if n.value.Value? {
      NextSingle(mem, base, size, at, n.value.code, n.value.data, []);
    } else {
      NextEnd(mem, base, size, at);
    }
  }

  lemma NextEnd(mem: seq<Byte>, base: int, size: int, pos: int)
    requires Readable(mem, base, size, pos) && Decodes(mem, base, size, pos, [])
    ensures Next(mem, base, size, pos).rc == AvpEnd
  {}

  /** A node of a listing gives its leaves, and the cursor is behind it; an element without its value gives an error. */
  lemma {:induction false} NodeDecoded(mem: seq<Byte>, base: int, size: int, pos: int, prefix: seq<Byte>, n: Node,
    l: int, rest: seq<Avp>)
    requires Readable(mem, base, size, pos) && ListNode(n, l) != []
      && Decodes(mem, base, size, pos, ListNode(n, l) + rest)
    ensures var p := Next(mem, base, size, pos);
      && p.rc == Ok && Decodes(mem, base, size, p.next, rest)
      && DecodeAt(mem, base, size, pos, prefix)
        == Decoded(if Stops(n) then AvpEnd else Ok, NodeGot(prefix, n, l), p.next)
    decreases n, 0
  {
    hide Next, Decodes, CString, U32, ListNodes, ListRows, Got, RowsGot, DecodeMany, DecodeLeaf, LeafAvps;
    var a := ListNode(n, l)[0];
    assert ListNode(n, l) == [a];
    NextGroup(mem, base, size, pos, a.code, a.kids, rest);
    var p := Next(mem, base, size, pos);
    if n.Leaf? {
      LeafDecoded(mem, p.off, p.len, p.next, prefix, n);
    } else {
      var name := n.key.name;
      CStringSame(name);
      var kids := if l == 1 then [] else if n.Table? then ListNodes(n.kids, l - 1) else ListRows(n.rows, l);
      NextSingle(mem, p.off, p.len, 0, AVP_NAME, name, kids);
      var k := Next(mem, p.off, p.len, 0);
      if l == 1 {
        NoneDecoded(mem, p.off, p.len, k.next, prefix + [DOT] + name);
      } else if n.Table? {
        NodesDecoded(mem, p.off, p.len, k.next, prefix + [DOT] + name, n.kids, l - 1);
      } else {
        RowsDecoded(mem, p.off, p.len, k.next, prefix + [DOT] + name, n.rows, l);
      }
    }
  }

  lemma NoneDecoded(mem: seq<Byte>, base: int, size: int, pos: int, prefix: seq<Byte>)
    requires Readable(mem, base, size, pos) && Decodes(mem, base, size, pos, [])
    ensures DecodeMany(mem, base, size, pos, prefix) == []
  {
    NextNone(mem, base, size);
  }

  /** Decoding a listing, at every level limit: the leaves with dotted paths, in walk order, in each table
      up to the first element without its value. */
  lemma {:induction false} NodesDecoded(mem: seq<Byte>, base: int, size: int, pos: int, prefix: seq<Byte>,
    nodes: seq<Node>, l: int)
    requires Readable(mem, base, size, pos) && Decodes(mem, base, size, pos, ListNodes(nodes, l))
    ensures DecodeMany(mem, base, size, pos, prefix) == Got(prefix, nodes, l)
    decreases nodes, 1
  {
    hide Next, Decodes, ListNode, NodeGot, DecodeAt;
    if nodes == [] {
      NoneDecoded(mem, base, size, pos, prefix);
    } else {
      var n, rest := nodes[0], ListNodes(nodes[1..], l);
      NoLeaves(prefix, n, l);
      if ListNode(n, l) == [] {
        assert [] + rest == rest;
        NodesDecoded(mem, base, size, pos, prefix, nodes[1..], l);
      } else {
        NodeDecoded(mem, base, size, pos, prefix, n, l, rest);
        if !Stops(n) {
          NodesDecoded(mem, base, size, Next(mem, base, size, pos).next, prefix, nodes[1..], l);
        }
      }
    }
  }

  lemma NoLeaves(prefix: seq<Byte>, n: Node, l: int)
    ensures ListNode(n, l) == [] ==> NodeGot(prefix, n, l) == [] && !Stops(n)
    ensures Stops(n) ==> NodeGot(prefix, n, l) == []
  {}

  lemma {:induction false} RowsDecoded(mem: seq<Byte>, base: int, size: int, pos: int, prefix: seq<Byte>,
    rows: seq<Row>, l: int)
    requires Readable(mem, base, size, pos) && Decodes(mem, base, size, pos, ListRows(rows, l))
    ensures DecodeMany(mem, base, size, pos, prefix) == RowsGot(prefix, rows, l)
    decreases rows, 1
  {
    hide Next, Decodes, ListNodes, Got, DecodeAt, RowGot, ListRow;
    if rows == [] {
      NoneDecoded(mem, base, size, pos, prefix);
    } else {
      var r, rest := rows[0], ListRows(rows[1..], l);
      RowDecoded(mem, base, size, pos, prefix, r, l, rest);
      RowsDecoded(mem, base, size, Next(mem, base, size, pos).next, prefix, rows[1..], l);
    }
  }

  lemma {:induction false} RowDecoded(mem: seq<Byte>, base: int, size: int, pos: int, prefix: seq<Byte>, r: Row, l: int,
    rest: seq<Avp>)
    requires Readable(mem, base, size, pos) && Decodes(mem, base, size, pos, [ListRow(r, l)] + rest)
    ensures var p := Next(mem, base, size, pos);
      p.rc == Ok && Decodes(mem, base, size, p.next, rest)
      && DecodeAt(mem, base, size, pos, prefix) ==
         Decoded(Ok, RowGot(prefix, r, l), p.next)
    decreases r, 0
  {
    hide Next, Decodes, ListNodes, Got, DecodeMany, Digits, N16, U16;
    var kids := if l != 2 then ListNodes(r.kids, l - 2) else [];
    NextGroup(mem, base, size, pos, AVP_INSTANCE, [IdAvp(r.id)] + kids, rest);
    var p := Next(mem, base, size, pos);
    NextSingle(mem, p.off, p.len, 0, AVP_NAME, U16(r.id), kids);
    var k := Next(mem, p.off, p.len, 0);
    RoundTrip16(r.id);
    var path := prefix + [DOT] + Digits(r.id);
    if l != 2 {
      NodesDecoded(mem, p.off, p.len, k.next, path, r.kids, l - 2);
    } else {
      NoneDecoded(mem, p.off, p.len, k.next, path);
    }
  }

  // ---------- the decoder ----------

  /** dm_expect_string_type */
  method ExpectText(g: AvpGroup, code: int) returns (rc: Rc, text: seq<Byte>)
    requires Readable(g.mem, g.base, g.size, g.pos)
    modifies g
    ensures var p := Next(g.mem, g.base, g.size, old(g.pos));
      g.pos == p.next && rc == (if Is(p, code) then Ok else Misc)
        && (rc == Ok ==> text == CString(g.mem[p.off..p.off + p.len]))
  {
    hide Parse, CString;
    ghost var p := Next(g.mem, g.base, g.size, g.pos);
    var off, len;
    rc, off, len := g.ExpectRaw(code, VENDOR);
    if rc != Ok {
      return rc, [];
    }
    return Ok, CString(g.mem[off..off + len]);
  }

  /** dm_expect_uint16_type and dm_expect_uint32_type: the payload has the width of the number. */
  method ExpectNumber(g: AvpGroup, code: int, width: int) returns (rc: Rc, bytes: seq<Byte>)
    requires Readable(g.mem, g.base, g.size, g.pos)
    modifies g
    ensures var p := Next(g.mem, g.base, g.size, old(g.pos));
      g.pos == p.next && rc == (if Is(p, code) && p.len == width then Ok else Misc)
      && (rc == Ok ==> bytes == g.mem[p.off..p.off + p.len] && |bytes| == width)
  {
    hide Parse;
    ghost var p := Next(g.mem, g.base, g.size, g.pos);
    var off, len;
    rc, off, len := g.ExpectRaw(code, VENDOR);
    if rc != Ok || len != width {
      return Misc, [];
    }
    return Ok, g.mem[off..off + len];
  }

  /** decode_node_list: terminates on any input, as the payload shrinks. */
  method DecodeNodeList(prefix: seq<Byte>, g: AvpGroup) returns (rc: Rc, calls: seq<Call>)
    requires Readable(g.mem, g.base, g.size, g.pos)
    modifies g
    ensures Decoded(rc, calls, g.pos) == DecodeAt(g.mem, g.base, g.size, old(g.pos), prefix)
    decreases g.size, if g.pos <= g.size then g.size - g.pos else 0, 0
  {
    hide Parse, CString, Digits, N16, DecodeMany, DecodeLeaf, DecodeArray;
    ghost var p := Next(g.mem, g.base, g.size, g.pos);
    var code, vendor, off, len;
    rc, code, vendor, off, len := g.ExpectAvp();
    if rc != Ok {
      return rc, [];
    }
    if vendor != VENDOR {
      return Misc, [];
    }
    var container := new AvpGroup(g.mem, g.beyond, off, len);
    if code == AVP_TABLE || code == AVP_OBJECT {
      var name;
      rc, name := ExpectText(container, AVP_NAME);
      if rc != Ok {
        return rc, [];
      }
      calls := DecodeLoop(prefix + [DOT] + name, container);
      return Ok, calls;
    } else if code == AVP_INSTANCE {
      var id;
      rc, id := ExpectNumber(container, AVP_NAME, 2);
      if rc != Ok {
        return rc, [];
      }
      calls := DecodeLoop(prefix + [DOT] + Digits(N16(id)), container);
      return Ok, calls;
    } else if code == AVP_ELEMENT {
      rc, calls := DecodeElement(prefix, container, g.pos);
    } else if code == AVP_ARRAY {
      rc, calls := DecodeValues(prefix, container, g.pos);
    } else {
      return Misc, [];
    }
  }

  /** The loops over the nodes of a container. */
  method DecodeLoop(path: seq<Byte>, g: AvpGroup) returns (calls: seq<Call>)
    requires Readable(g.mem, g.base, g.size, g.pos)
    modifies g
    ensures calls == DecodeMany(g.mem, g.base, g.size, old(g.pos), path)
    decreases g.size, if g.pos <= g.size then g.size - g.pos else 0, 1
  {
    hide DecodeAt;
    var rc := Ok;
    calls := [];
    while rc == Ok
      invariant rc == Ok ==>
        g.pos >= old(g.pos)
        && calls + DecodeMany(g.mem, g.base, g.size, g.pos, path)
          == DecodeMany(g.mem, g.base, g.size, old(g.pos), path)
      invariant rc != Ok ==> calls == DecodeMany(g.mem, g.base, g.size, old(g.pos), path)
      decreases if rc != Ok then 0 else if g.pos > g.size then 1 else 2 + g.size - g.pos
    {
      var more;
      rc, more := DecodeNodeList(path, g);
      calls := calls + more;
    }
  }

  method DecodeElement(prefix: seq<Byte>, g: AvpGroup, ghost next: int) returns (rc: Rc, calls: seq<Call>)
    requires Readable(g.mem, g.base, g.size, 0) && g.pos == 0
    modifies g
    ensures Decoded(rc, calls, next) == DecodeLeaf(g.mem, g.base, g.size, next, prefix)
  {
    hide Parse, CString;
    var name, kind;
    rc, name := ExpectText(g, AVP_NAME);
    if rc != Ok {
      return rc, [];
    }
    rc, kind := ExpectNumber(g, AVP_TYPE, 4);
    if rc != Ok {
      return rc, [];
    }
    ghost var v := Next(g.mem, g.base, g.size, g.pos);
    var code, vendor, off, len;
    rc, code, vendor, off, len := g.ExpectAvp();
    if rc != Ok {
      return rc, [];
    }
    return Ok, [Call(prefix + [DOT] + name, code, vendor, g.mem[off..off + len])];
  }

  method DecodeValues(prefix: seq<Byte>, g: AvpGroup, ghost next: int) returns (rc: Rc, calls: seq<Call>)
    requires Readable(g.mem, g.base, g.size, 0) && g.pos == 0
    modifies g
    ensures Decoded(rc, calls, next) == DecodeArray(g.mem, g.base, g.size, next, prefix)
  {
    hide Parse, CString;
    var name, kind;
    calls := [];
    rc, name := ExpectText(g, AVP_NAME);
    if rc != Ok {
      return;
    }
    rc, kind := ExpectNumber(g, AVP_TYPE, 4);
    if rc != Ok {
      return;
    }
    rc, calls := ValueLoop(prefix + [DOT] + name, g);
  }

  /** The outcome, with what was found before. */
  ghost function ArrayFrom(mem: seq<Byte>, base: int, size: int, pos: int, path: seq<Byte>, had: seq<Call>)
    : (Rc, seq<Call>)
    requires Readable(mem, base, size, pos)
  {
    var a := ArrayValues(mem, base, size, pos, path);
    (a.0, had + a.1)
  }

  lemma ArrayStep(mem: seq<Byte>, base: int, size: int, pos: int, path: seq<Byte>, had: seq<Call>)
    requires Readable(mem, base, size, pos)
    ensures var a, v := ArrayFrom(mem, base, size, pos, path, had), Next(mem, base, size, pos);
      && (pos == size ==> a == (Ok, had))
      && (pos != size && v.rc != Ok ==> a == (v.rc, had))
      && (pos != size && v.rc == Ok ==>
            a == ArrayFrom(mem, base, size, v.next, path,
              had + [Call(path, v.code, v.vendor, mem[v.off..v.off + v.len])]))
  {
    hide Next;
    var v := Next(mem, base, size, pos);
    assert had + [] == had;
    if pos != size && v.rc == Ok {
      var c, b := Call(path, v.code, v.vendor, mem[v.off..v.off + v.len]), ArrayValues(mem, base, size, v.next, path);
      assert had + ([c] + b.1) == had + [c] + b.1;
    }
  }

  lemma ArrayStart(mem: seq<Byte>, base: int, size: int, pos: int, path: seq<Byte>)
    requires Readable(mem, base, size, pos)
    ensures ArrayFrom(mem, base, size, pos, path, []) == ArrayValues(mem, base, size, pos, path)
  {
    var a := ArrayValues(mem, base, size, pos, path);
    assert [] + a.1 == a.1;
  }

  method ValueLoop(path: seq<Byte>, g: AvpGroup) returns (rc: Rc, calls: seq<Call>)
    requires Readable(g.mem, g.base, g.size, g.pos)
    modifies g
    ensures (rc, calls) == ArrayValues(g.mem, g.base, g.size, old(g.pos), path)
  {
    hide Parse, ArrayFrom;
    calls := [];
    ArrayStart(g.mem, g.base, g.size, g.pos, path);
    var end := g.ExpectGroupEnd();
    while end != Ok
      invariant g.pos >= 0 && (end == Ok <==> g.pos == g.size)
      invariant ArrayFrom(g.mem, g.base, g.size, g.pos, path, calls)
        == ArrayFrom(g.mem, g.base, g.size, old(g.pos), path, [])
      decreases g.size - g.pos
    {
      ghost var v := Next(g.mem, g.base, g.size, g.pos);
      ArrayStep(g.mem, g.base, g.size, g.pos, path, calls);
      var code, vendor, off, len;
      rc, code, vendor, off, len := g.ExpectAvp();
      if rc != Ok {
        return;
      }
      calls := calls + [Call(path, code, vendor, g.mem[off..off + len])];
      end := g.ExpectGroupEnd();
    }
    ArrayStep(g.mem, g.base, g.size, g.pos, path, calls);
    return Ok, calls;
  }

  // ---------- listing and decoding ----------

  /** rpc_db_list: level 0 lists as many levels as a selector has. */
  function Limit(level: nat): int {
    if level != 0 then level + 1 else SELECTOR_LEN
  }

  /** Where a listing starts: the whole tree, an element, an instance, or nowhere if the path is not there. */
  datatype Start = Everything(nodes: seq<Node>) | AtElement(node: Node) | AtInstance(row: Row) | Nowhere

  function ListStart(s: Start, l: int): seq<Avp> {
    match s
    case Everything(nodes) => ListNodes(nodes, l)
    case AtElement(n) => ListNode(n, l)
    case AtInstance(r) => [ListRow(r, l + 1)]
    case Nowhere => []
  }

  method DbList(req: Request, level: nat, start: Start)
    requires req.Valid() && req.level + LevelsOf(start, Limit(level)) < MAX_LEVEL
    modifies req
    ensures req.Valid() && req.frame == AddAll(old(req.frame), ListStart(start, Limit(level)))
    ensures req.level == old(req.level) && req.header == old(req.header)
  {
    hide Holds, Bytes, Tracks, ListNode, ListRow, ListNodes;
    StartNest(start, Limit(level));
    var ctx := new Listing(req, Limit(level));
    match start
    case Everything(nodes) => ctx.WalkNodes(Limit(level), nodes);
    case AtElement(n) => ctx.WalkNode(Limit(level), n);
    case AtInstance(r) =>
      OneNest(ListRow(r, Limit(level) + 1));
      ctx.WalkInstance(Limit(level), r);
    case Nowhere =>
  }

  // ---------- how many levels a listing needs ----------

  /** The levels of a node down to `l` of them: none if it has no key or is an absent table. */
  function Levels(n: Node, l: int): nat
    decreases n, 0
  {
    if n.key.NoKey? then 0
    else
      match n
      case Leaf(_, _, _) => 1
      case Table(_, present, kids) => if present then 1 + (if l != 1 then LevelsAll(kids, l - 1) else 0) else 0
      case Object(_, rows) => 1 + if l != 1 then LevelsRows(rows, l) else 0
  }

  function LevelsAll(nodes: seq<Node>, l: int): nat
    decreases nodes, 1
  {
    if nodes == [] then 0 else Max(Levels(nodes[0], l), LevelsAll(nodes[1..], l))
  }

  function LevelsRow(r: Row, l: int): nat
    decreases r, 0
  {
    1 + if l != 2 then LevelsAll(r.kids, l - 2) else 0
  }

  function LevelsRows(rows: seq<Row>, l: int): nat
    decreases rows, 1
  {
    if rows == [] then 0 else Max(LevelsRow(rows[0], l), LevelsRows(rows[1..], l))
  }

  function LevelsOf(s: Start, l: int): nat {
    match s
    case Everything(nodes) => LevelsAll(nodes, l)
    case AtElement(n) => Levels(n, l)
    case AtInstance(r) => LevelsRow(r, l + 1)
    case Nowhere => 0
  }

  /** A listing is nested exactly as deep as the tree has levels down to the limit. */
  lemma {:induction false} ListNest(nodes: seq<Node>, l: int)
    ensures NestAll(ListNodes(nodes, l)) == LevelsAll(nodes, l)
    decreases nodes, 1
  {
    hide ListNode, Levels;
    if nodes != [] {
      NestSplit(ListNode(nodes[0], l), ListNodes(nodes[1..], l));
      NodeNest(nodes[0], l);
      ListNest(nodes[1..], l);
    }
  }

  lemma {:induction false} NodeNest(n: Node, l: int)
    ensures NestAll(ListNode(n, l)) == Levels(n, l)
    decreases n, 0
  {
    hide ListNodes, ListRows, U32, LevelsAll, LevelsRows;
    if n.key.Key? {
      match n
      case Leaf(k, kind, value) =>
        LeafNest(k.name, kind, value);
      case Table(k, present, kids) =>
        GroupNest(AVP_OBJECT, VENDOR, NameAvp(k.name), if l != 1 then ListNodes(kids, l - 1) else []);
        if l != 1 { ListNest(kids, l - 1); }
      case Object(k, rows) =>
        GroupNest(AVP_TABLE, VENDOR, NameAvp(k.name), if l != 1 then ListRows(rows, l) else []);
        if l != 1 { RowsNest(rows, l); }
    }
  }

  lemma LeafNest(name: Text, kind: int, value: Value)
    ensures NestAll([Group(AVP_ELEMENT, VENDOR, LeafAvps(name, kind, value))]) == 1
  {
    var t := Single(AVP_TYPE, VENDOR, U32(kind));
    var v := if value.Value? then [Single(value.code, VENDOR, value.data)] else [];
    GroupNest(AVP_ELEMENT, VENDOR, NameAvp(name), [t] + v);
    assert [NameAvp(name)] + ([t] + v) == LeafAvps(name, kind, value);
    NestSplit([t], v);
    assert NestAll([t]) == 0 && NestAll(v) == 0;
  }

  lemma {:induction false} RowNest(r: Row, l: int)
    ensures NestAll([ListRow(r, l)]) == LevelsRow(r, l)
    decreases r, 0
  {
    hide ListNodes, LevelsAll;
    GroupNest(AVP_INSTANCE, VENDOR, IdAvp(r.id), if l != 2 then ListNodes(r.kids, l - 2) else []);
    if l != 2 { ListNest(r.kids, l - 2); }
  }

  lemma {:induction false} RowsNest(rows: seq<Row>, l: int)
    ensures NestAll(ListRows(rows, l)) == LevelsRows(rows, l)
    decreases rows, 1
  {
    hide ListRow, LevelsRow;
    if rows != [] {
      NestSplit([ListRow(rows[0], l)], ListRows(rows[1..], l));
      RowNest(rows[0], l);
      RowsNest(rows[1..], l);
    }
  }

  lemma StartNest(s: Start, l: int)
    ensures NestAll(ListStart(s, l)) == LevelsOf(s, l)
  {
    hide ListNodes, ListNode, ListRow, LevelsAll, Levels, LevelsRow;
    match s
    case Everything(nodes) => ListNest(nodes, l);
    case AtElement(n) => NodeNest(n, l);
    case AtInstance(r) => RowNest(r, l + 1);
    case Nowhere =>
  }

  /** These are never more than the limit, nor than the tree has. */
  lemma {:induction false} LevelsBound(nodes: seq<Node>, l: int)
    requires l >= 1
    ensures LevelsAll(nodes, l) <= Min(l, HeightAll(nodes))
    decreases nodes, 1
  {
    if nodes != [] {
      match nodes[0] {
        case Leaf(_, _, _) =>
        case Table(_, _, kids) => if l != 1 { LevelsBound(kids, l - 1); }
        case Object(_, rows) => if l != 1 { RowsBound(rows, l); }
      }
      LevelsBound(nodes[1..], l);
    }
  }

  lemma {:induction false} RowsBound(rows: seq<Row>, l: int)
    requires l >= 2
    ensures LevelsRows(rows, l) <= Min(l - 1, HeightRows(rows))
    decreases rows, 1
  {
    if rows != [] {
      if l != 2 { LevelsBound(rows[0].kids, l - 2); }
      RowsBound(rows[1..], l);
    }
  }

  /** A table in a table, and so on, with a leaf at the bottom. */
  function Tower(n: nat): Node {
    if n <= 1 then Leaf(Key([97]), 0, Value(0, [])) else Table(Key([97]), true, [Tower(n - 1)])
  }

  lemma {:induction false} TowerLevels(n: nat, l: int)
    requires 1 <= n <= l
    ensures Levels(Tower(n), l) == n
  {
    if n > 1 {
      TowerLevels(n - 1, l - 1);
      assert [Tower(n - 1)][1..] == [];
      assert LevelsAll([Tower(n - 1)], l - 1) == Max(Levels(Tower(n - 1), l - 1), LevelsAll([], l - 1));
    }
  }

  /** A listing fits what is left of the group stack exactly if the tree has fewer levels down to the limit.
      A tower of sixteen does not, not even in an empty packet. */
  lemma ListFits(s: Start, level: nat, open: nat)
    ensures open + NestAll(ListStart(s, Limit(level))) < MAX_LEVEL <==> open + LevelsOf(s, Limit(level)) < MAX_LEVEL
    ensures LevelsOf(AtElement(Tower(16)), Limit(0)) == MAX_LEVEL
  {
    StartNest(s, Limit(level));
    TowerLevels(16, Limit(0));
  }

  function Height(n: Node): nat
    decreases n, 0
  {
    match n
    case Leaf(_, _, _) => 1
    case Table(_, _, kids) => 1 + HeightAll(kids)
    case Object(_, rows) => 1 + HeightRows(rows)
  }

  /** How many levels a tree has. */
  function HeightAll(nodes: seq<Node>): nat
    decreases nodes, 1
  {
    if nodes == [] then 0 else Max(Height(nodes[0]), HeightAll(nodes[1..]))
  }

  function HeightRows(rows: seq<Row>): nat
    decreases rows, 1
  {
    if rows == [] then 0 else Max(1 + HeightAll(rows[0].kids), HeightRows(rows[1..]))
  }

  /** All the leaves: a limit below 1 is never met. */
  function AllLeaves(prefix: seq<Byte>, nodes: seq<Node>): seq<Entry> {
    Leaves(prefix, nodes, 0)
  }

  /** A limit that the tree does not exceed leaves nothing out. */
  lemma {:induction false} LeavesComplete(prefix: seq<Byte>, nodes: seq<Node>, l: int, m: int)
    requires m <= 0 && HeightAll(nodes) <= l
    ensures Leaves(prefix, nodes, l) == Leaves(prefix, nodes, m)
    decreases nodes, 1
  {
    if nodes != [] {
      var n := nodes[0];
      var path := prefix + [DOT] + if n.key.Key? then n.key.name else [];
      match n {
        case Leaf(_, _, _) =>
        case Table(_, _, kids) => LeavesComplete(path, kids, l - 1, m - 1);
        case Object(_, rows) => RowsComplete(path, rows, l, m);
      }
      LeavesComplete(prefix, nodes[1..], l, m);
    }
  }

  lemma {:induction false} RowsComplete(prefix: seq<Byte>, rows: seq<Row>, l: int, m: int)
    requires m <= 0 && 1 + HeightRows(rows) <= l
    ensures RowLeaves(prefix, rows, l) == RowLeaves(prefix, rows, m)
    decreases rows, 1
  {
    if rows != [] {
      LeavesComplete(prefix + [DOT] + Digits(rows[0].id), rows[0].kids, l - 2, m - 2);
      RowsComplete(prefix, rows[1..], l, m);
    }
  }

  function StartGot(prefix: seq<Byte>, s: Start, l: int): seq<Call> {
    match s
    case Everything(nodes) => Got(prefix, nodes, l)
    case AtElement(n) => Got(prefix, [n], l)
    case AtInstance(r) => RowGot(prefix, r, l + 1)
    case Nowhere => []
  }

  /** The leaves of what is listed, with their levels. */
  function DeepStart(prefix: seq<Byte>, s: Start): seq<Deep> {
    match s
    case Everything(nodes) => DeepAll(prefix, nodes, 1)
    case AtElement(n) => DeepNode(prefix, n, 1)
    case AtInstance(r) => DeepAll(prefix + [DOT] + Digits(r.id), r.kids, 2)
    case Nowhere => []
  }

  /** A request for so many levels below the start, or for all that a selector can name if it says 0: only leaves on
      these levels come back, and all of them exactly if they all have values. */
  lemma StartWithin(prefix: seq<Byte>, s: Start, level: nat)
    ensures var asked := Within(DeepStart(prefix, s), if level == 0 then 16 else level + 1);
      var calls := StartGot(prefix, s, Limit(level));
      Among(calls, asked) && (Complete(calls, asked) <==> HaveValues(asked))
  {
    hide Got, Leaves, DeepAll, DeepNode, Complete, HaveValues, Among, AllValued;
    var l := Limit(level);
    match s
    case Everything(nodes) => TreeWithin(prefix, nodes, 1, l);
    case AtElement(n) =>
      OneWithin(prefix, n);
      TreeWithin(prefix, [n], 1, l);
    case AtInstance(r) => TreeWithin(prefix + [DOT] + Digits(r.id), r.kids, 2, l);
    case Nowhere => NothingWithin();
  }

  lemma OneWithin(prefix: seq<Byte>, n: Node)
    ensures DeepAll(prefix, [n], 1) == DeepNode(prefix, n, 1)
  {
    hide DeepNode;
    assert [n][1..] == [];
    assert DeepNode(prefix, n, 1) + [] == DeepNode(prefix, n, 1);
  }

  lemma NothingWithin()
    ensures Among([], []) && Complete([], []) && HaveValues([])
  {}

  lemma TreeWithin(prefix: seq<Byte>, nodes: seq<Node>, d: int, l: int)
    requires d <= l
    ensures var asked := Within(DeepAll(prefix, nodes, d), l);
      var calls := Got(prefix, nodes, l - d + 1);
      Among(calls, asked) && (Complete(calls, asked) <==> HaveValues(asked))
  {
    hide Got, Leaves, DeepAll, Complete, HaveValues, Among, AllValued;
    LeavesWithin(prefix, nodes, d, l);
    AllComeBack(prefix, nodes, l - d + 1);
    LeavesHave(prefix, nodes, l - d + 1);
    GotAmong(prefix, nodes, l - d + 1);
  }

  lemma StartDecoded(mem: seq<Byte>, base: int, size: int, pos: int, prefix: seq<Byte>, s: Start, l: int)
    requires Readable(mem, base, size, pos) && Decodes(mem, base, size, pos, ListStart(s, l))
    ensures DecodeMany(mem, base, size, pos, prefix) == StartGot(prefix, s, l)
  {
    hide Decodes, DecodeMany, Got, RowGot, ListNode, ListRow;
    match s
    case Everything(nodes) => NodesDecoded(mem, base, size, pos, prefix, nodes, l);
    case AtElement(n) =>
      assert [n][1..] == [] && ListNodes([n], l) == ListNode(n, l) + [];
      assert ListNode(n, l) + [] == ListNode(n, l);
      NodesDecoded(mem, base, size, pos, prefix, [n], l);
    case AtInstance(r) =>
      assert [r][1..] == [] && ListRows([r], l + 1) == [ListRow(r, l + 1)] + [];
      assert [ListRow(r, l + 1)] + [] == [ListRow(r, l + 1)];
      assert RowsGot(prefix, [r], l + 1) == RowGot(prefix, r, l + 1) + [];
      RowsDecoded(mem, base, size, pos, prefix, [r], l + 1);
    case Nowhere => NoneDecoded(mem, base, size, pos, prefix);
  }

  /** From the walk to the client, for a packet that fits its 24-bit length: what decode_node_list hands out of it. */
  lemma ListedDecoded(header: seq<Byte>, prefix: seq<Byte>, s: Start, l: int)
    requires |header| == HEADER && AllFit(ListStart(s, l)) && HEADER + |EncodeAll(ListStart(s, l))| < 0x100_0000
    ensures var packet := Finished(header, EncodeAll(ListStart(s, l)));
      && Readable(packet, HEADER, PayloadSize(packet), 0)
      && DecodeMany(packet, HEADER, PayloadSize(packet), 0, prefix) == StartGot(prefix, s, l)
  {
    hide EncodeAll, ListStart, Decodes, DecodeMany, StartGot, AllFit, Finished, PayloadSize;
    var avps := ListStart(s, l);
    FinishedSize(header, EncodeAll(avps));
    Transmitted(header, avps);
    var packet := Finished(header, EncodeAll(avps));
    StartDecoded(packet, HEADER, PayloadSize(packet), 0, prefix, s, l);
  }

  /** All the leaves of the tree come back exactly if none is without a value, when the tree is no higher than the
      limit. */
  lemma EveryLeaf(header: seq<Byte>, prefix: seq<Byte>, nodes: seq<Node>, l: int)
    requires |header| == HEADER && AllFit(ListNodes(nodes, l)) && HEADER + |EncodeAll(ListNodes(nodes, l))| < 0x100_0000
    requires HeightAll(nodes) <= l
    ensures var packet := Finished(header, EncodeAll(ListNodes(nodes, l)));
      && Readable(packet, HEADER, PayloadSize(packet), 0)
      && (Complete(DecodeMany(packet, HEADER, PayloadSize(packet), 0, prefix), AllLeaves(prefix, nodes)) <==>
        AllValued(nodes, l))
  {
    hide EncodeAll, ListNodes, DecodeMany, Got, Leaves, AllFit, Finished, PayloadSize, Readable, HeightAll, AllValued;
    ListedDecoded(header, prefix, Everything(nodes), l);
    AllComeBack(prefix, nodes, l);
    LeavesComplete(prefix, nodes, l, 0);
  }

  /** A leaf whose element takes a sixteenth of the bytes that 24 bits can count. */
  function BigLeaf(): Node {
    Leaf(Key([97]), 0, Value(1, Zeros(0x10_0000 - 56)))
  }

  lemma BigElement()
    ensures ListNode(BigLeaf(), 16) == [Group(AVP_ELEMENT, VENDOR, LeafAvps([97], 0, BigLeaf().value))]
    ensures var a := ListNode(BigLeaf(), 16)[0]; Fits(a) && |Encode(a)| == 0x10_0000
  {
    hide Head, U32, EncodeAll, Zeros;
    BigKids();
    var kids := LeafAvps([97], 0, BigLeaf().value);
    assert Content(ListNode(BigLeaf(), 16)[0]) == EncodeAll(kids);
  }

  lemma BigSizes(n: Avp, t: Avp, v: Avp)
    requires n == NameAvp([97]) && t == Single(AVP_TYPE, VENDOR, U32(0))
    requires v == Single(1, VENDOR, Zeros(0x10_0000 - 56))
    ensures |Encode(n)| == 16 && |Encode(t)| == 16 && |Encode(v)| == 0x10_0000 - 44
    ensures Fits(n) && Fits(t) && Fits(v)
  {
    hide Head, U32, EncodeAll;
  }

  lemma BigKids()
    ensures var kids := LeafAvps([97], 0, BigLeaf().value);
      |EncodeAll(kids)| == 0x10_0000 - 12 && forall k :: k in kids ==> Fits(k)
  {
    hide U32, Encode, EncodeAll, Decodes, Fits;
    var n, t, v := NameAvp([97]), Single(AVP_TYPE, VENDOR, U32(0)), Single(1, VENDOR, Zeros(0x10_0000 - 56));
    BigSizes(n, t, v);
    assert LeafAvps([97], 0, BigLeaf().value) == [n, t, v];
    assert [n, t, v][1..] == [t, v] && [t, v][1..] == [v] && [v][1..] == [];
    EncodeCons([n, t, v]);
    EncodeCons([t, v]);
    EncodeCons([v]);
    DecodesNil([], 0, 0);
  }

  lemma {:induction false} BigList(k: nat)
    ensures ListNodes(Repeated(BigLeaf(), k), 16) == Repeated(ListNode(BigLeaf(), 16)[0], k)
  {
    hide ListNode, Fits, Encode;
    BigElement();
    if k > 0 {
      var s := Repeated(BigLeaf(), k);
      assert s[1..] == Repeated(BigLeaf(), k - 1);
      BigList(k - 1);
    }
  }

  lemma {:induction false} BigLeaves(k: nat)
    ensures |Leaves([], Repeated(BigLeaf(), k), 16)| == k
  {
    if k > 0 {
      var s := Repeated(BigLeaf(), k);
      assert s[1..] == Repeated(BigLeaf(), k - 1) && s[0] == BigLeaf();
      BigLeaves(k - 1);
      assert |NodeLeaves([], BigLeaf(), 16)| == 1;
    }
  }

  /** A listing that is too long: sixteen leaves are listed, the header says that the packet is empty, and none comes
      back. */
  lemma ListTooLong(header: seq<Byte>)
    requires |header| == HEADER
    ensures var nodes := Repeated(BigLeaf(), 16);
      var packet := Finished(header, EncodeAll(ListNodes(nodes, 16)));
      && AllFit(ListNodes(nodes, 16)) && |Leaves([], nodes, 16)| == 16
      && PayloadSize(packet) == 0 && DecodeMany(packet, HEADER, 0, 0, []) == []
  {
    hide EncodeAll, ListNodes, Finished, PacketLength, Fits, Encode, Leaves, ListNode, DecodeMany, Decodes;
    BigElement();
    BigList(16);
    BigLeaves(16);
    var a := ListNode(BigLeaf(), 16)[0];
    EncodeRepeated(a, 16, 0x10_0000);
    var packet := Finished(header, EncodeAll(ListNodes(Repeated(BigLeaf(), 16), 16)));
    FinishedLength(header, EncodeAll(ListNodes(Repeated(BigLeaf(), 16), 16)));
    DecodesNil(packet, HEADER, 0);
    NoneDecoded(packet, HEADER, 0, 0, []);
  }
}
