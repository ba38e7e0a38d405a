/** Listing a value tree: the walk over tables, objects and instances, and the callback that writes it as nested
    AVPs. */
module ListTree {
  import opened Basics
  import opened AvpFormat
  import opened AvpRequest
  import opened AvpMessage

  /** A C string. */
  type Text = s: seq<Byte> | 0 !in s
  type Id = i: int | 0 <= i < 0x1_0000

  datatype Key = NoKey | Key(name: Text)

  /** The AVP that dm_add_avp makes of a value. It makes none of a date that does not fit 32 bits
      and of a selector that cannot be printed. */
  datatype Value = NoValue | Value(code: int, data: seq<Byte>)

  /** A value with its schema element: a leaf with its type, a table that may be absent, or an object with its
      instances. */
  datatype Node =
    | Leaf(key: Key, kind: int, value: Value)
    | Table(key: Key, present: bool, kids: seq<Node>)
    | Object(key: Key, rows: seq<Row>)

  datatype Row = Row(id: Id, kids: seq<Node>)

  const VENDOR := 18681
  const AVP_TABLE := 1030
  const AVP_INSTANCE := 1031
  const AVP_OBJECT := 1032
  const AVP_ELEMENT := 1033
  const AVP_NAME := 1034
  const AVP_ARRAY := 1035
  const AVP_TYPE := 2209
  const AVP_DATE := 1010

  /** DM_SELECTOR_LEN */
  const SELECTOR_LEN := 16

  function U16(n: int): (s: seq<Byte>)
    ensures |s| == 2
  {
    [n / 256 % 256, n % 256]
  }

  function NameAvp(k: Text): Avp {
    Single(AVP_NAME, VENDOR, k)
  }

  function IdAvp(id: Id): Avp {
    Single(AVP_NAME, VENDOR, U16(id))
  }

  /** TIME_SINCE_EPOCH: from 1900 to 1970 in seconds. */
  const EPOCH := 2208988800

  /** dm_add_time */
  function DateValue(time: int): Value {
    if time + EPOCH > 0xFFFF_FFFF then NoValue else Value(AVP_DATE, U32(time + EPOCH))
  }

  // ---------- what a listing is ----------

  /** The content of an element: its name, its type, and its value if there is one. */
  function LeafAvps(name: Text, kind: int, value: Value): seq<Avp> {
    [NameAvp(name), Single(AVP_TYPE, VENDOR, U32(kind))] + match value
      case NoValue => []
      case Value(code, data) => [Single(code, VENDOR, data)]
  }

  /** The AVPs for a node, down to `l` levels: none if it has no key or is an absent table, otherwise one. */
  function ListNode(n: Node, l: int): (r: seq<Avp>)
    ensures |r| <= 1
    decreases n, 0
  {
    if n.key.NoKey? then []
    else
      match n
      case Leaf(k, kind, value) =>
        [Group(AVP_ELEMENT, VENDOR, LeafAvps(k.name, kind, value))]
      case Table(k, present, kids) =>
        if !present then []
        else [Group(AVP_OBJECT, VENDOR, [NameAvp(k.name)] + if l != 1 then ListNodes(kids, l - 1) else [])]
      case Object(k, rows) =>
        [Group(AVP_TABLE, VENDOR, [NameAvp(k.name)] + if l != 1 then ListRows(rows, l) else [])]
  }

  function ListNodes(nodes: seq<Node>, l: int): seq<Avp>
    decreases nodes, 1
  {
    if nodes == [] then [] else ListNode(nodes[0], l) + ListNodes(nodes[1..], l)
  }

  function ListRow(r: Row, l: int): Avp
    decreases r, 0
  {
    Group(AVP_INSTANCE, VENDOR, [IdAvp(r.id)] + if l != 2 then ListNodes(r.kids, l - 2) else [])
  }

  function ListRows(rows: seq<Row>, l: int): seq<Avp>
    decreases rows, 1
  {
    if rows == [] then [] else [ListRow(rows[0], l)] + ListRows(rows[1..], l)
  }

  // ---------- the walk ----------

  lemma {:induction false} AddAllSplit(f: Frame, a: seq<Avp>, b: seq<Avp>)
    ensures AddAll(f, a + b) == AddAll(AddAll(f, a), b)
    decreases |a|
  {
    if a == [] {
      assert a + b == b;
    } else {
      assert (a + b)[1..] == a[1..] + b;
      AddAllSplit(Add(f, a[0]), a[1..], b);
    }
  }

  lemma {:induction false} NestSplit(a: seq<Avp>, b: seq<Avp>)
    ensures NestAll(a + b) == if NestAll(a) > NestAll(b) then NestAll(a) else NestAll(b)
    decreases |a|
  {
    if a == [] {
      assert a + b == b;
    } else {
      assert (a + b)[1..] == a[1..] + b;
      NestSplit(a[1..], b);
    }
  }

  /** struct list_ctx */
  class Listing {
    const req: Request
    var level: int
    const max: int

    constructor (req: Request, max: int)
      ensures this.req == req && level == 0 && this.max == max
    {
      this.req, this.level, this.max := req, 0, max;
    }

    /** The start events: a group, and the name in it. */
    method Start(code: int, name: seq<Byte>)
      requires req.Valid() && req.level + 1 < MAX_LEVEL
      modifies this, req
      ensures req.Valid() && req.frame == Open(old(req.frame), code, VENDOR, [Single(AVP_NAME, VENDOR, name)])
      ensures level == old(level) + 1 && req.level == old(req.level) + 1 && req.header == old(req.header)
    {
      hide Holds, Bytes, Tracks;
      var rc := req.NewGroup(code, VENDOR);
      rc := req.PutAvp(AVP_NAME, VENDOR, Points(name), |name|);
      assert name[..|name|] == name;
      level := level + 1;
    }

    /** The end events: the group is closed only inside the limit. */
    method End()
      requires req.Valid() && req.frame.Open?
      modifies this, req
      ensures level == old(level) - 1
      ensures 1 <= old(level) <= max ==>
        req.Valid() && req.frame == Close(old(req.frame)) && req.level == old(req.level) - 1
      ensures !(1 <= old(level) <= max) && old(level) >= 0 ==> req.Valid() && req.frame == old(req.frame)
      ensures req.header == old(req.header)
    {
      hide Holds, Bytes, Tracks;
      if level != 0 && level <= max {
        var rc := req.FinalizeGroup();
        AddLevel(old(req.frame).below, Group(old(req.frame).code, old(req.frame).vendor, old(req.frame).kids));
      }
      level := level - 1;
    }

    /** dm_walk_element_cb: the listing of the node is added, and the level is what it was. */
    method WalkNode(l: int, n: Node)
      requires req.Valid() && req.level + NestAll(ListNode(n, l)) < MAX_LEVEL
      requires l >= 1 && level >= 0 && level + l == max
      modifies this, req
      ensures req.Valid() && req.frame == AddAll(old(req.frame), ListNode(n, l))
      ensures level == old(level) && req.level == old(req.level) && req.header == old(req.header)
      decreases n, 0
    {
      hide Holds, Bytes, Tracks, ListNodes, ListRows;
      if n.key.NoKey? {
        return;
      }
      ghost var f := req.frame;
      match n
      case Leaf(k, kind, value) =>
        WriteLeaf(k.name, kind, value);
      case Table(k, present, kids) =>
        if present {
          GroupNest(AVP_OBJECT, VENDOR, NameAvp(k.name), if l != 1 then ListNodes(kids, l - 1) else []);
          Start(AVP_OBJECT, k.name);
          if l != 1 {
            WalkNodes(l - 1, kids);
          }
          OpenedAll(f, AVP_OBJECT, VENDOR, NameAvp(k.name), if l != 1 then ListNodes(kids, l - 1) else []);
          End();
        }
      case Object(k, rows) =>
        GroupNest(AVP_TABLE, VENDOR, NameAvp(k.name), if l != 1 then ListRows(rows, l) else []);
        Start(AVP_TABLE, k.name);
        if l != 1 {
          WalkRows(l, rows);
        }
        OpenedAll(f, AVP_TABLE, VENDOR, NameAvp(k.name), if l != 1 then ListRows(rows, l) else []);
        End();
    }

    /** dm_walk_table_cb */
    method WalkNodes(l: int, nodes: seq<Node>)
      requires req.Valid() && req.level + NestAll(ListNodes(nodes, l)) < MAX_LEVEL
      requires l >= 1 && level >= 0 && level + l == max
      modifies this, req
      ensures req.Valid() && req.frame == AddAll(old(req.frame), ListNodes(nodes, l))
      ensures level == old(level) && req.level == old(req.level) && req.header == old(req.header)
      decreases nodes, 1
    {
      hide Holds, Bytes, Tracks, ListNode;
      if nodes != [] {
        NestSplit(ListNode(nodes[0], l), ListNodes(nodes[1..], l));
        AddAllSplit(req.frame, ListNode(nodes[0], l), ListNodes(nodes[1..], l));
        WalkNode(l, nodes[0]);
        WalkNodes(l, nodes[1..]);
      }
    }

    /** The instances in dm_walk_object_cb. */
    method WalkRows(l: int, rows: seq<Row>)
      requires req.Valid() && req.level + NestAll(ListRows(rows, l)) < MAX_LEVEL
      requires l >= 2 && level >= 0 && level + l == max + 1
      modifies this, req
      ensures req.Valid() && req.frame == AddAll(old(req.frame), ListRows(rows, l))
      ensures level == old(level) && req.level == old(req.level) && req.header == old(req.header)
      decreases rows, 1
    {
      hide Holds, Bytes, Tracks, ListNodes, NestAll, AddAll;
      NoneAdded(req.frame);
      if rows != [] {
        var r := rows[0];
        ghost var f := req.frame;
        ghost var kids := if l != 2 then ListNodes(r.kids, l - 2) else [];
        NestSplit([ListRow(r, l)], ListRows(rows[1..], l));
        AddAllSplit(f, [ListRow(r, l)], ListRows(rows[1..], l));
        GroupNest(AVP_INSTANCE, VENDOR, IdAvp(r.id), kids);
        Start(AVP_INSTANCE, U16(r.id));
        NoneAdded(req.frame);
        if l != 2 {
          WalkNodes(l - 2, r.kids);
        }
        OpenedAll(f, AVP_INSTANCE, VENDOR, IdAvp(r.id), kids);
        End();
        WalkRows(l, rows[1..]);
      }
    }

    /** dm_walk_instance_cb: one instance, which is the first level. */
    method WalkInstance(l: int, r: Row)
      requires req.Valid() && req.level + Nest(ListRow(r, l + 1)) < MAX_LEVEL
      requires l >= 1 && level >= 0 && level + l == max
      modifies this, req
      ensures req.Valid() && req.frame == AddAll(old(req.frame), [ListRow(r, l + 1)])
      ensures level == old(level) && req.level == old(req.level) && req.header == old(req.header)
    {
      hide Holds, Bytes, Tracks, ListNodes, NestAll, AddAll;
      ghost var f := req.frame;
      ghost var kids := if l != 1 then ListNodes(r.kids, l - 1) else [];
      OneNest(ListRow(r, l + 1));
      GroupNest(AVP_INSTANCE, VENDOR, IdAvp(r.id), kids);
      Start(AVP_INSTANCE, U16(r.id));
      NoneAdded(req.frame);
      if l != 1 {
        WalkNodes(l - 1, r.kids);
      }
      OpenedAll(f, AVP_INSTANCE, VENDOR, IdAvp(r.id), kids);
      End();
    }

    /** CB_element: that the value could not be added goes unnoticed. */
    method WriteLeaf(name: Text, kind: int, value: Value)
      requires req.Valid() && req.level + 1 < MAX_LEVEL
      modifies req
      ensures req.Valid() && req.frame == AddAll(old(req.frame), ListNode(Leaf(Key(name), kind, value), 1))
      ensures req.level == old(req.level) && req.header == old(req.header)
    {
      hide Holds, Bytes, Tracks;
      ghost var f := req.frame;
      var rc := req.NewGroup(AVP_ELEMENT, VENDOR);
      rc := req.PutAvp(AVP_NAME, VENDOR, Points(name), |name|);
      assert name[..|name|] == name;
      rc := req.PutAvp(AVP_TYPE, VENDOR, Points(U32(kind)), 4);
      assert U32(kind)[..4] == U32(kind);
      if value.Value? {
        rc := req.PutAvp(value.code, VENDOR, Points(value.data), |value.data|);
        assert value.data[..|value.data|] == value.data;
      }
      assert req.frame.kids == LeafAvps(name, kind, value);
      rc := req.FinalizeGroup();
      AddLevel(f, Group(AVP_ELEMENT, VENDOR, LeafAvps(name, kind, value)));
    }
  }

  lemma OneNest(a: Avp)
    ensures NestAll([a]) == Nest(a)
  {}

  lemma NoneAdded(f: Frame)
    ensures AddAll(f, []) == f
  {}

  lemma GroupNest(code: int, vendor: int, name: Avp, kids: seq<Avp>)
    requires name.Single?
    ensures NestAll([Group(code, vendor, [name] + kids)]) == 1 + NestAll(kids)
  {
    NestSplit([name], kids);
    assert NestAll([name]) == 0;
  }

  /** A group that was opened with a name and filled, and what closing it gives. */
  lemma OpenedAll(f: Frame, code: int, vendor: int, name: Avp, kids: seq<Avp>)
    ensures AddAll(Open(f, code, vendor, [name]), kids) == Open(f, code, vendor, [name] + kids)
    ensures Add(f, Group(code, vendor, [name] + kids)) == AddAll(f, [Group(code, vendor, [name] + kids)])
    ensures kids == [] ==> [name] + kids == [name]
  {
    AddAllOpen(f, code, vendor, [name], kids);
  }
}
