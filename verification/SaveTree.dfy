/** Saving the changed part of a value tree: marks are passed up to the root, then the walk prunes what is not
    marked. */
module SaveTree {
  import opened Basics

  /** The DV_ marks of a value. */
  datatype Marks = Marks(notify: bool, pending: bool, updated: bool, deleted: bool)

  function Or(a: Marks, b: Marks): Marks {
    Marks(a.notify || b.notify, a.pending || b.pending, a.updated || b.updated, a.deleted || b.deleted)
  }

  const CLEAR := Marks(false, false, false, false)

  /** flags & (DV_UPDATED | DV_NOTIFY) */
  function Masked(m: Marks): Marks {
    Marks(m.notify, false, m.updated, false)
  }

  predicate Shown(m: Marks) {
    m.updated || m.notify
  }

  type Key = string
  type Value = seq<int>

  /** F_INTERNAL and F_SYSTEM of a schema element. */
  datatype Flags = Flags(internal: bool, system: bool)

  datatype Node =
    | Leaf(key: Key, flags: Flags, marks: Marks, writable: bool, value: Value)
    | Table(key: Key, flags: Flags, marks: Marks, present: bool, kids: seq<Node>)
    | Object(key: Key, flags: Flags, marks: Marks, rows: seq<Row>)

  /** dm_id */
  type Id = i: int | 0 <= i < 0x1_0000

  datatype Row = Row(id: Id, marks: Marks, kids: seq<Node>)

  /** Both bits of DM_ID_AUTO_OBJECT are set. */
  predicate Auto(id: int) {
    id / 0x4000 % 4 == 3
  }

  // ---------- dm_update_flags ----------

  function Raise(m: Marks, ret: Marks): Marks {
    if ret != CLEAR then Or(m, ret) else m
  }

  /** update_flags_element: the node with its marks, and what it passes up. */
  function UpdateNode(n: Node): (Node, Marks)
    decreases n, 0
  {
    match n
    case Leaf(key, flags, marks, writable, value) =>
      var ret := Masked(marks);
      (Leaf(key, flags, Raise(marks, ret), writable, value), ret)
    case Table(key, flags, marks, present, kids) =>
      if present then
        var (kids', up) := UpdateNodes(kids);
        var ret := Or(Masked(marks), up);
        (Table(key, flags, Raise(marks, ret), present, kids'), ret)
      else
        (Table(key, flags, Raise(marks, Masked(marks)), present, kids), Masked(marks))
    case Object(key, flags, marks, rows) =>
      var (rows', up) := UpdateRows(rows);
      var ret := Or(Masked(marks), up);
      (Object(key, flags, Raise(marks, ret), rows'), ret)
  }

  /** update_flags_table */
  function UpdateNodes(nodes: seq<Node>): (seq<Node>, Marks)
    decreases nodes, 1
  {
    if nodes == [] then ([], CLEAR)
    else
      var (n, a) := UpdateNode(nodes[0]);
      var (ns, b) := UpdateNodes(nodes[1..]);
      ([n] + ns, Or(a, b))
  }

  /** update_flags_object: an instance passes up all of its marks. */
  function UpdateRows(rows: seq<Row>): (seq<Row>, Marks)
    decreases rows, 1
  {
    if rows == [] then ([], CLEAR)
    else
      var (kids, r) := UpdateNodes(rows[0].kids);
      var row := Row(rows[0].id, Raise(rows[0].marks, r), kids);
      var (rs, b) := UpdateRows(rows[1..]);
      ([row] + rs, Or(row.marks, b))
  }

  // ---------- what is to be saved ----------

  /** A step of a path: a table, or an instance of an object. */
  datatype Name = Plain(key: Key) | Instance(key: Key, id: int)

  datatype Saved = Saved(path: seq<Name>, value: Value)

  predicate IsSaved(n: Node) {
    n.Leaf? && n.writable && Shown(n.marks) && !n.flags.internal && !n.flags.system
  }

  /** Internal elements are not a part of the path, but what is in them is saved. */
  function Inner(path: seq<Name>, flags: Flags, name: Name): seq<Name> {
    if flags.internal then path else path + [name]
  }

  /** A system element that is not internal, and an instance with an automatic number, is not saved with all that is
      in it. */
  predicate Skipped(flags: Flags, auto: bool) {
    !flags.internal && (flags.system || auto)
  }

  /** The leaves to be saved down to `l` levels, in walk order: writable, and marked as updated or with a
      notification. */
  function SavedNode(path: seq<Name>, n: Node, l: int): seq<Saved>
    decreases n, 0
  {
    match n
    case Leaf(key, _, _, _, value) => if IsSaved(n) then [Saved(path + [Plain(key)], value)] else []
    case Table(key, flags, _, present, kids) =>
      if !present || l == 1 || Skipped(flags, false) then []
      else SavedNodes(Inner(path, flags, Plain(key)), kids, l - 1)
    case Object(key, flags, _, rows) => if l != 1 then SavedRows(path, key, flags, rows, l) else []
  }

  function SavedNodes(path: seq<Name>, nodes: seq<Node>, l: int): seq<Saved>
    decreases nodes, 1
  {
    if nodes == [] then [] else SavedNode(path, nodes[0], l) + SavedNodes(path, nodes[1..], l)
  }

  function SavedRow(path: seq<Name>, key: Key, flags: Flags, r: Row, l: int): seq<Saved>
    decreases r, 0
  {
    if l == 2 || Skipped(flags, Auto(r.id)) then []
    else SavedNodes(Inner(path, flags, Instance(key, r.id)), r.kids, l - 2)
  }

  function SavedRows(path: seq<Name>, key: Key, flags: Flags, rows: seq<Row>, l: int): seq<Saved>
    decreases rows, 1
  {
    if rows == [] then [] else SavedRow(path, key, flags, rows[0], l) + SavedRows(path, key, flags, rows[1..], l)
  }

  // ---------- dm_serialize_store ----------

  datatype Tag = Open(name: Name) | Close(name: Name) | Item(key: Key, value: Value)

  /** The events of a table or an instance: nothing for an internal one itself; otherwise it must be marked, and not
      be skipped. */
  function Tagged(flags: Flags, marks: Marks, auto: bool, name: Name, inner: seq<Tag>): seq<Tag> {
    if flags.internal then inner
    else if !Shown(marks) || flags.system || auto then []
    else [Open(name)] + inner + [Close(name)]
  }

  /** dm_walk_element_cb with serialize_walk_cb, for S_CFG. */
  function SaveNode(n: Node, l: int): seq<Tag>
    decreases n, 0
  {
    match n
    case Leaf(key, flags, marks, writable, value) =>
      if flags.internal || !Shown(marks) then [] else if writable && !flags.system then [Item(key, value)] else []
    case Table(key, flags, marks, present, kids) =>
      if present then Tagged(flags, marks, false, Plain(key), if l != 1 then SaveNodes(kids, l - 1) else []) else []
    case Object(key, flags, marks, rows) =>
      if (flags.internal || Shown(marks)) && l != 1 then SaveRows(key, flags, rows, l) else []
  }

  function SaveNodes(nodes: seq<Node>, l: int): seq<Tag>
    decreases nodes, 1
  {
    if nodes == [] then [] else SaveNode(nodes[0], l) + SaveNodes(nodes[1..], l)
  }

  function SaveRows(key: Key, flags: Flags, rows: seq<Row>, l: int): seq<Tag>
    decreases rows, 1
  {
    if rows == [] then [] else SaveRow(key, flags, rows[0], l) + SaveRows(key, flags, rows[1..], l)
  }

  function SaveRow(key: Key, flags: Flags, r: Row, l: int): seq<Tag>
    decreases r, 0
  {
    Tagged(flags, r.marks, Auto(r.id), Instance(key, r.id), if l != 2 then SaveNodes(r.kids, l - 2) else [])
  }

  // ---------- reading the tags back ----------

  datatype Read = Read(ok: bool, stack: seq<Name>, found: seq<Saved>)

  /** Items under the open tags; a closing tag must match the last one opened. */
  function ReadTags(r: Read, tags: seq<Tag>): Read
    decreases |tags|
  {
    if tags == [] then r else ReadTags(ReadTag(r, tags[0]), tags[1..])
  }

  function ReadTag(r: Read, t: Tag): Read {
    match t
    case Open(name) => r.(stack := r.stack + [name])
    case Close(name) =>
      if r.stack != [] && r.stack[|r.stack| - 1] == name then r.(stack := r.stack[..|r.stack| - 1]) else r.(ok := false)
    case Item(key, value) => r.(found := r.found + [Saved(r.stack + [Plain(key)], value)])
  }

  lemma {:induction false} ReadSplit(r: Read, a: seq<Tag>, b: seq<Tag>)
    ensures ReadTags(r, a + b) == ReadTags(ReadTags(r, a), b)
    decreases |a|
  {
    if a == [] {
      assert a + b == b;
    } else {
      assert (a + b)[1..] == a[1..] + b;
      ReadSplit(ReadTag(r, a[0]), a[1..], b);
    }
  }

  /** Reading `tags` under an open path finds `what` and ends where it began. */
  ghost predicate Reads(tags: seq<Tag>, path: seq<Name>, what: seq<Saved>) {
    forall had :: ReadTags(Read(true, path, had), tags) == Read(true, path, had + what)
  }

  lemma ReadsNone(path: seq<Name>)
    ensures Reads([], path, [])
  {
    forall had: seq<Saved> ensures ReadTags(Read(true, path, had), []) == Read(true, path, had + []) {
      assert had + [] == had;
    }
  }

  lemma ReadsAppend(a: seq<Tag>, b: seq<Tag>, path: seq<Name>, x: seq<Saved>, y: seq<Saved>)
    requires Reads(a, path, x) && Reads(b, path, y)
    ensures Reads(a + b, path, x + y)
  {
    forall had: seq<Saved> ensures ReadTags(Read(true, path, had), a + b) == Read(true, path, had + (x + y)) {
      ReadSplit(Read(true, path, had), a, b);
      assert ReadTags(Read(true, path, had + x), b) == Read(true, path, had + x + y);
      assert had + x + y == had + (x + y);
    }
  }

  lemma ReadsInside(name: Name, tags: seq<Tag>, path: seq<Name>, x: seq<Saved>)
    requires Reads(tags, path + [name], x)
    ensures Reads([Open(name)] + tags + [Close(name)], path, x)
  {
    forall had: seq<Saved>
      ensures ReadTags(Read(true, path, had), [Open(name)] + tags + [Close(name)]) == Read(true, path, had + x)
    {
      var r := Read(true, path, had);
      ReadSplit(r, [Open(name)] + tags, [Close(name)]);
      ReadSplit(r, [Open(name)], tags);
      ReadOne(r, Open(name));
      var end := Read(true, path + [name], had + x);
      ReadOne(end, Close(name));
      assert (path + [name])[..|path|] == path;
    }
  }

  lemma ReadOne(r: Read, t: Tag)
    ensures ReadTags(r, [t]) == ReadTag(r, t)
  {
    assert [t][1..] == [];
  }

  // ---------- marks cover what is to be saved ----------

  predicate Has(n: Node)
    decreases n, 0
  {
    match n
    case Leaf(_, _, _, _, _) => IsSaved(n)
    case Table(_, _, _, present, kids) => present && HasAny(kids)
    case Object(_, _, _, rows) => HasRow(rows)
  }

  predicate HasAny(nodes: seq<Node>)
    decreases nodes, 1
  {
    nodes != [] && (Has(nodes[0]) || HasAny(nodes[1..]))
  }

  predicate HasRow(rows: seq<Row>)
    decreases rows, 1
  {
    rows != [] && (HasAny(rows[0].kids) || HasRow(rows[1..]))
  }

  /** Whatever holds something to be saved is marked, all the way down. */
  ghost predicate Covered(n: Node)
    decreases n, 0
  {
    && (Has(n) ==> Shown(n.marks))
    && match n
       case Leaf(_, _, _, _, _) => true
       case Table(_, _, _, present, kids) => present ==> CoveredAll(kids)
       case Object(_, _, _, rows) => CoveredRows(rows)
  }

  ghost predicate CoveredAll(nodes: seq<Node>)
    decreases nodes, 1
  {
    nodes == [] || (Covered(nodes[0]) && CoveredAll(nodes[1..]))
  }

  ghost predicate CoveredRows(rows: seq<Row>)
    decreases rows, 1
  {
    rows == [] || ((HasAny(rows[0].kids) ==> Shown(rows[0].marks)) && CoveredAll(rows[0].kids)
      && CoveredRows(rows[1..]))
  }

  /** dm_update_flags marks all that holds something to be saved, and changes nothing that is to be saved. */
  lemma {:induction false} UpdateCovers(n: Node, path: seq<Name>, l: int)
    ensures var (m, up) := UpdateNode(n);
      Covered(m) && (Has(m) ==> Shown(up)) && SavedNode(path, m, l) == SavedNode(path, n, l)
    decreases n, 0
  {
    match n
    case Leaf(_, _, _, _, _) =>
    case Table(key, flags, _, present, kids) =>
      if present { UpdateCoversAll(kids, Inner(path, flags, Plain(key)), l - 1); }
    case Object(key, flags, _, rows) =>
      UpdateCoversRows(rows, path, key, flags, l);
  }

  lemma {:induction false} UpdateCoversAll(nodes: seq<Node>, path: seq<Name>, l: int)
    ensures var (ms, up) := UpdateNodes(nodes);
      CoveredAll(ms) && (HasAny(ms) ==> Shown(up)) && SavedNodes(path, ms, l) == SavedNodes(path, nodes, l)
    decreases nodes, 1
  {
    hide UpdateNode, SavedNode, Covered, Has;
    if nodes != [] {
      UpdateCovers(nodes[0], path, l);
      UpdateCoversAll(nodes[1..], path, l);
      var (ms, up) := UpdateNodes(nodes);
      assert ms[1..] == UpdateNodes(nodes[1..]).0;
    }
  }

  lemma {:induction false} UpdateCoversRows(rows: seq<Row>, path: seq<Name>, key: Key, flags: Flags, l: int)
    ensures var (rs, up) := UpdateRows(rows);
      CoveredRows(rs) && (HasRow(rs) ==> Shown(up))
        && SavedRows(path, key, flags, rs, l) == SavedRows(path, key, flags, rows, l)
    decreases rows, 1
  {
    hide UpdateNodes, SavedNodes, CoveredAll, HasAny;
    if rows != [] {
      UpdateCoversAll(rows[0].kids, Inner(path, flags, Instance(key, rows[0].id)), l - 2);
      UpdateCoversRows(rows[1..], path, key, flags, l);
      var (rs, up) := UpdateRows(rows);
      assert rs[1..] == UpdateRows(rows[1..]).0;
    }
  }

  // ---------- the walk saves exactly that ----------

  lemma {:induction false} NothingSaved(n: Node, path: seq<Name>, l: int)
    requires !Has(n)
    ensures SavedNode(path, n, l) == []
    decreases n, 0
  {
    match n
    case Leaf(_, _, _, _, _) =>
    case Table(key, flags, _, present, kids) =>
      if present { NothingSavedAll(kids, Inner(path, flags, Plain(key)), l - 1); }
    case Object(key, flags, _, rows) => NothingSavedRows(rows, path, key, flags, l);
  }

  lemma {:induction false} NothingSavedAll(nodes: seq<Node>, path: seq<Name>, l: int)
    requires !HasAny(nodes)
    ensures SavedNodes(path, nodes, l) == []
    decreases nodes, 1
  {
    if nodes != [] {
      NothingSaved(nodes[0], path, l);
      NothingSavedAll(nodes[1..], path, l);
    }
  }

  lemma {:induction false} NothingSavedRows(rows: seq<Row>, path: seq<Name>, key: Key, flags: Flags, l: int)
    requires !HasRow(rows)
    ensures SavedRows(path, key, flags, rows, l) == []
    decreases rows, 1
  {
    if rows != [] {
      NothingSavedAll(rows[0].kids, Inner(path, flags, Instance(key, rows[0].id)), l - 2);
      NothingSavedRows(rows[1..], path, key, flags, l);
    }
  }

  /** A table or an instance, given what is in it. */
  lemma TaggedReads(flags: Flags, marks: Marks, auto: bool, name: Name, inner: seq<Tag>, path: seq<Name>,
    what: seq<Saved>)
    requires Reads(inner, Inner(path, flags, name), what) && (what != [] ==> Shown(marks))
    ensures Reads(Tagged(flags, marks, auto, name, inner), path, if Skipped(flags, auto) then [] else what)
  {
    hide Reads;
    ReadsNone(path);
    if !flags.internal && Shown(marks) && !flags.system && !auto {
      ReadsInside(name, inner, path, what);
    }
  }

  /** The pruned output of a node whose marks cover it is well nested and holds exactly what is to be saved. */
  lemma {:induction false} SaveReads(n: Node, path: seq<Name>, l: int)
    requires Covered(n)
    ensures Reads(SaveNode(n, l), path, SavedNode(path, n, l))
    decreases n, 0
  {
    hide Reads, SaveNodes, SaveRows, SavedNodes, SavedRows, Tagged;
    ReadsNone(path);
    match n
    case Leaf(key, _, _, _, value) =>
      ReadsItem(key, value, path);
    case Table(key, flags, marks, present, kids) =>
      if present {
        var deep := Inner(path, flags, Plain(key));
        var inner := if l != 1 then SaveNodes(kids, l - 1) else [];
        var what := if l != 1 then SavedNodes(deep, kids, l - 1) else [];
        ReadsNone(deep);
        if l != 1 { SaveReadsAll(kids, deep, l - 1); }
        if !HasAny(kids) { NothingSavedAll(kids, deep, l - 1); }
        TaggedReads(flags, marks, false, Plain(key), inner, path, what);
      }
    case Object(key, flags, marks, rows) =>
      if !HasRow(rows) { NothingSavedRows(rows, path, key, flags, l); }
      if l != 1 { SaveReadsRows(rows, path, key, flags, l); }
  }

  lemma ReadsItem(key: Key, value: Value, path: seq<Name>)
    ensures Reads([Item(key, value)], path, [Saved(path + [Plain(key)], value)])
  {
    forall had: seq<Saved>
      ensures ReadTags(Read(true, path, had), [Item(key, value)])
        == Read(true, path, had + [Saved(path + [Plain(key)], value)])
    {
      ReadOne(Read(true, path, had), Item(key, value));
    }
  }

  lemma {:induction false} SaveReadsAll(nodes: seq<Node>, path: seq<Name>, l: int)
    requires CoveredAll(nodes)
    ensures Reads(SaveNodes(nodes, l), path, SavedNodes(path, nodes, l))
    decreases nodes, 1
  {
    hide Reads, SaveNode, SavedNode, Covered;
    ReadsNone(path);
    if nodes != [] {
      SaveReads(nodes[0], path, l);
      SaveReadsAll(nodes[1..], path, l);
      ReadsAppend(SaveNode(nodes[0], l), SaveNodes(nodes[1..], l), path, SavedNode(path, nodes[0], l),
        SavedNodes(path, nodes[1..], l));
    }
  }

  lemma {:induction false} SaveReadsRows(rows: seq<Row>, path: seq<Name>, key: Key, flags: Flags, l: int)
    requires CoveredRows(rows)
    ensures Reads(SaveRows(key, flags, rows, l), path, SavedRows(path, key, flags, rows, l))
    decreases rows, 1
  {
    hide Reads, SaveNodes, SavedNodes, Tagged;
    ReadsNone(path);
    if rows != [] {
      var r, deep := rows[0], Inner(path, flags, Instance(key, rows[0].id));
      var inner := if l != 2 then SaveNodes(r.kids, l - 2) else [];
      var what := if l != 2 then SavedNodes(deep, r.kids, l - 2) else [];
      ReadsNone(deep);
      if l != 2 { SaveReadsAll(r.kids, deep, l - 2); }
      if !HasAny(r.kids) { NothingSavedAll(r.kids, deep, l - 2); }
      TaggedReads(flags, r.marks, Auto(r.id), Instance(key, r.id), inner, path, what);
      SaveReadsRows(rows[1..], path, key, flags, l);
      ReadsAppend(SaveRow(key, flags, r, l), SaveRows(key, flags, rows[1..], l), path,
                  SavedRow(path, key, flags, r, l), SavedRows(path, key, flags, rows[1..], l));
    }
  }

  /** DM_SELECTOR_LEN */
  const LEVELS := 16

  /** dm_serialize_store: well nested tags, and in them exactly the leaves to be saved, under their own paths. */
  lemma StoreSaved(nodes: seq<Node>)
    ensures ReadTags(Read(true, [], []), SaveNodes(UpdateNodes(nodes).0, LEVELS))
      == Read(true, [], SavedNodes([], nodes, LEVELS))
  {
    hide SaveNodes, SavedNodes, UpdateNodes, CoveredAll, ReadTags;
    UpdateCoversAll(nodes, [], LEVELS);
    var ms := UpdateNodes(nodes).0;
    SaveReadsAll(ms, [], LEVELS);
    var none: seq<Saved> := [];
    assert ReadTags(Read(true, [], none), SaveNodes(ms, LEVELS))
      == Read(true, [], none + SavedNodes([], nodes, LEVELS));
    assert none + SavedNodes([], nodes, LEVELS) == SavedNodes([], nodes, LEVELS);
  }

  // ---------- trees that are no higher than that ----------

  function Height(n: Node): nat
    decreases n, 0
  {
    match n
    case Leaf(_, _, _, _, _) => 1
    case Table(_, _, _, _, kids) => 1 + HeightAll(kids)
    case Object(_, _, _, rows) => 1 + HeightRows(rows)
  }

  function HeightAll(nodes: seq<Node>): nat
    decreases nodes, 1
  {
    if nodes == [] then 0 else Max(Height(nodes[0]), HeightAll(nodes[1..]))
  }

  function HeightRows(rows: seq<Row>): nat
    decreases rows, 1
  {
    if rows == [] then 0 else Max(1 + HeightAll(rows[0].kids), HeightRows(rows[1..]))
  }

  /** A limit that the tree does not exceed leaves nothing out; a limit below 1 is never met. */
  lemma {:induction false} SavedComplete(path: seq<Name>, nodes: seq<Node>, l: int, m: int)
    requires m <= 0 && HeightAll(nodes) <= l
    ensures SavedNodes(path, nodes, l) == SavedNodes(path, nodes, m)
    decreases nodes, 1
  {
    if nodes != [] {
      match nodes[0] {
        case Leaf(_, _, _, _, _) =>
        case Table(key, flags, _, _, kids) => SavedComplete(Inner(path, flags, Plain(key)), kids, l - 1, m - 1);
        case Object(key, flags, _, rows) => SavedRowsComplete(path, key, flags, rows, l, m);
      }
      SavedComplete(path, nodes[1..], l, m);
    }
  }

  lemma {:induction false} SavedRowsComplete(path: seq<Name>, key: Key, flags: Flags, rows: seq<Row>, l: int, m: int)
    requires m <= 0 && 1 + HeightRows(rows) <= l
    ensures SavedRows(path, key, flags, rows, l) == SavedRows(path, key, flags, rows, m)
    decreases rows, 1
  {
    if rows != [] {
      SavedComplete(Inner(path, flags, Instance(key, rows[0].id)), rows[0].kids, l - 2, m - 2);
      SavedRowsComplete(path, key, flags, rows[1..], l, m);
    }
  }

  // ---------- the same, leaf by leaf ----------

  /** A table or an instance that a leaf lies in. */
  datatype Step = Step(name: Name, flags: Flags)

  /** A leaf with all that it lies in, outermost first, and its level. */
  datatype Placed = Placed(up: seq<Step>, leaf: Node, depth: int)

  /** All the leaves of the tree. */
  function Flat(up: seq<Step>, n: Node, d: int): seq<Placed>
    decreases n, 0
  {
    match n
    case Leaf(_, _, _, _, _) => [Placed(up, n, d)]
    case Table(key, flags, _, present, kids) =>
      if present then FlatAll(up + [Step(Plain(key), flags)], kids, d + 1) else []
    case Object(key, flags, _, rows) => FlatRows(up, key, flags, rows, d + 1)
  }

  function FlatAll(up: seq<Step>, nodes: seq<Node>, d: int): seq<Placed>
    decreases nodes, 1
  {
    if nodes == [] then [] else Flat(up, nodes[0], d) + FlatAll(up, nodes[1..], d)
  }

  function FlatRows(up: seq<Step>, key: Key, flags: Flags, rows: seq<Row>, d: int): seq<Placed>
    decreases rows, 1
  {
    if rows == [] then []
    else
      FlatAll(up + [Step(Instance(key, rows[0].id), flags)], rows[0].kids, d + 1)
      + FlatRows(up, key, flags, rows[1..], d)
  }

  /** What is in a system table or an automatic instance is not saved, unless that is internal. */
  predicate Admits(s: Step) {
    s.flags.internal || (!s.flags.system && !(s.name.Instance? && 0xC000 <= s.name.id <= 0xFFFF))
  }

  /** A leaf is saved if it is writable, changed or watched, neither internal nor of the system, not too deep, and all
      that it lies in admits it. */
  predicate Keeps(p: Placed, l: int) {
    && p.leaf.Leaf? && p.leaf.writable && (p.leaf.marks.updated || p.leaf.marks.notify)
    && !p.leaf.flags.internal && !p.leaf.flags.system && p.depth <= l
    && forall i :: 0 <= i < |p.up| ==> Admits(p.up[i])
  }

  /** The names of what it lies in, without what is internal. */
  function PathOf(up: seq<Step>): seq<Name> {
    if up == [] then []
    else
      var last := up[|up| - 1];
      PathOf(up[..|up| - 1]) + if last.flags.internal then [] else [last.name]
  }

  function Picked(s: seq<Placed>, l: int): seq<Saved> {
    if s == [] then [] else PickedOne(s[0], l) + Picked(s[1..], l)
  }

  function PickedOne(p: Placed, l: int): seq<Saved> {
    if Keeps(p, l) then [Saved(PathOf(p.up) + [Plain(p.leaf.key)], p.leaf.value)] else []
  }

  lemma {:induction false} PickedBoth(a: seq<Placed>, b: seq<Placed>, l: int)
    ensures Picked(a + b, l) == Picked(a, l) + Picked(b, l)
  {
    hide PickedOne;
    if a == [] {
      assert a + b == b;
    } else {
      assert (a + b)[1..] == a[1..] + b;
      PickedBoth(a[1..], b, l);
      assert PickedOne(a[0], l) + (Picked(a[1..], l) + Picked(b, l))
        == PickedOne(a[0], l) + Picked(a[1..], l) + Picked(b, l);
    }
  }

  lemma {:induction false} PickedNone(s: seq<Placed>, l: int)
    requires forall i :: 0 <= i < |s| ==> !Keeps(s[i], l)
    ensures Picked(s, l) == []
  {
    hide Keeps, PathOf;
    if s != [] { PickedNone(s[1..], l); }
  }

  /** Every leaf of a node lies in what the node lies in, and no higher. */
  ghost predicate Below(s: seq<Placed>, up: seq<Step>, d: int) {
    forall i :: 0 <= i < |s| ==> up <= s[i].up && s[i].depth >= d
  }

  lemma {:induction false} FlatBelow(up: seq<Step>, n: Node, d: int)
    ensures Below(Flat(up, n, d), up, d)
    decreases n, 0
  {
    match n
    case Leaf(_, _, _, _, _) =>
    case Table(key, flags, _, present, kids) => FlatAllBelow(up + [Step(Plain(key), flags)], kids, d + 1);
    case Object(key, flags, _, rows) => FlatRowsBelow(up, key, flags, rows, d + 1);
  }

  lemma {:induction false} FlatAllBelow(up: seq<Step>, nodes: seq<Node>, d: int)
    ensures Below(FlatAll(up, nodes, d), up, d)
    decreases nodes, 1
  {
    if nodes != [] {
      FlatBelow(up, nodes[0], d);
      FlatAllBelow(up, nodes[1..], d);
    }
  }

  lemma {:induction false} FlatRowsBelow(up: seq<Step>, key: Key, flags: Flags, rows: seq<Row>, d: int)
    ensures Below(FlatRows(up, key, flags, rows, d), up, d)
    decreases rows, 1
  {
    if rows != [] {
      FlatAllBelow(up + [Step(Instance(key, rows[0].id), flags)], rows[0].kids, d + 1);
      FlatRowsBelow(up, key, flags, rows[1..], d);
    }
  }

  /** Nothing is picked below the limit, or in something that does not admit it. */
  lemma NothingPicked(up: seq<Step>, nodes: seq<Node>, d: int, l: int)
    requires d > l || exists i :: 0 <= i < |up| && !Admits(up[i])
    ensures Picked(FlatAll(up, nodes, d), l) == []
  {
    hide FlatAll, Admits;
    FlatAllBelow(up, nodes, d);
    var s := FlatAll(up, nodes, d);
    forall i | 0 <= i < |s| ensures !Keeps(s[i], l) {
      assert up <= s[i].up && s[i].depth >= d;
      if d <= l {
        var k :| 0 <= k < |up| && !Admits(up[k]);
        assert s[i].up[k] == up[k];
      }
    }
    PickedNone(s, l);
  }

  lemma {:induction false} NoneOfRows(up: seq<Step>, key: Key, flags: Flags, rows: seq<Row>, d: int, l: int)
    requires d >= l
    ensures Picked(FlatRows(up, key, flags, rows, d), l) == []
    decreases rows
  {
    hide FlatAll;
    if rows != [] {
      var up' := up + [Step(Instance(key, rows[0].id), flags)];
      NothingPicked(up', rows[0].kids, d + 1, l);
      NoneOfRows(up, key, flags, rows[1..], d, l);
      PickedBoth(FlatAll(up', rows[0].kids, d + 1), FlatRows(up, key, flags, rows[1..], d), l);
    }
  }

  lemma PathOfMore(up: seq<Step>, s: Step)
    ensures PathOf(up + [s]) == Inner(PathOf(up), s.flags, s.name)
  {
    assert (up + [s])[..|up|] == up;
  }

  ghost predicate AllAdmit(up: seq<Step>) {
    forall i :: 0 <= i < |up| ==> Admits(up[i])
  }

  /** One step further in: it admits what is in it, or nothing is picked there. */
  lemma {:induction false} StepPicked(up: seq<Step>, s: Step, kids: seq<Node>, d: int, l: int)
    requires AllAdmit(up) && d <= l
    requires Admits(s) ==>
      SavedNodes(PathOf(up + [s]), kids, l - d + 1) == Picked(FlatAll(up + [s], kids, d), l)
    ensures Picked(FlatAll(up + [s], kids, d), l) ==
      if Admits(s) then SavedNodes(Inner(PathOf(up), s.flags, s.name), kids, l - d + 1) else []
  {
    hide FlatAll, SavedNodes, Picked, Admits, Inner;
    PathOfMore(up, s);
    if !Admits(s) {
      assert (up + [s])[|up|] == s;
      NothingPicked(up + [s], kids, d, l);
    }
  }

  lemma AdmitMore(up: seq<Step>, s: Step)
    requires AllAdmit(up) && Admits(s)
    ensures AllAdmit(up + [s])
  {}

  /** What the walk saves are the leaves that are to be kept, one by one. */
  lemma {:induction false} NodePicked(up: seq<Step>, n: Node, d: int, l: int)
    requires AllAdmit(up) && d <= l
    ensures SavedNode(PathOf(up), n, l - d + 1) == Picked(Flat(up, n, d), l)
    decreases n, 0
  {
    hide SavedNodes, SavedRows, FlatAll, FlatRows, PathOf, Inner;
    match n
    case Leaf(_, _, _, _, _) => LeafPicked(up, n, d, l);
    case Table(key, flags, _, present, kids) =>
      if present {
        var s := Step(Plain(key), flags);
        if d == l {
          NothingPicked(up + [s], kids, d + 1, l);
        } else {
          if Admits(s) {
            AdmitMore(up, s);
            AllPicked(up + [s], kids, d + 1, l);
          }
          StepPicked(up, s, kids, d + 1, l);
        }
      }
    case Object(key, flags, _, rows) =>
      if d == l {
        NoneOfRows(up, key, flags, rows, d + 1, l);
      } else {
        RowsPicked(up, key, flags, rows, d + 1, l);
      }
  }

  lemma LeafPicked(up: seq<Step>, n: Node, d: int, l: int)
    requires n.Leaf? && AllAdmit(up) && d <= l
    ensures SavedNode(PathOf(up), n, l - d + 1) == Picked([Placed(up, n, d)], l)
  {
    assert [Placed(up, n, d)][1..] == [];
    assert Keeps(Placed(up, n, d), l) <==> IsSaved(n);
  }

  lemma {:induction false} AllPicked(up: seq<Step>, nodes: seq<Node>, d: int, l: int)
    requires AllAdmit(up) && d <= l
    ensures SavedNodes(PathOf(up), nodes, l - d + 1) == Picked(FlatAll(up, nodes, d), l)
    decreases nodes, 1
  {
    hide SavedNode, Flat, PathOf, AllAdmit;
    if nodes != [] {
      NodePicked(up, nodes[0], d, l);
      AllPicked(up, nodes[1..], d, l);
      PickedBoth(Flat(up, nodes[0], d), FlatAll(up, nodes[1..], d), l);
    }
  }

  lemma {:induction false} RowsPicked(up: seq<Step>, key: Key, flags: Flags, rows: seq<Row>, d: int, l: int)
    requires AllAdmit(up) && d <= l
    ensures SavedRows(PathOf(up), key, flags, rows, l - d + 2) == Picked(FlatRows(up, key, flags, rows, d), l)
    decreases rows, 1
  {
    hide SavedNodes, FlatAll, PathOf, AllAdmit, Inner, Auto, PickedOne;
    if rows != [] {
      var r := rows[0];
      var s := Step(Instance(key, r.id), flags);
      RowsPicked(up, key, flags, rows[1..], d, l);
      PickedBoth(FlatAll(up + [s], r.kids, d + 1), FlatRows(up, key, flags, rows[1..], d), l);
      AutoNumbers(r.id);
      if d == l {
        NothingPicked(up + [s], r.kids, d + 1, l);
      } else {
        if Admits(s) {
          AdmitMore(up, s);
          AllPicked(up + [s], r.kids, d + 1, l);
        }
        StepPicked(up, s, r.kids, d + 1, l);
      }
    }
  }

  /** Automatic numbers are the last quarter. */
  lemma AutoNumbers(id: Id)
    ensures Auto(id) <==> 0xC000 <= id <= 0xFFFF
  {}

  /** The store as a whole: the tags hold exactly the leaves to be kept. */
  lemma LeavesSaved(nodes: seq<Node>)
    ensures ReadTags(Read(true, [], []), SaveNodes(UpdateNodes(nodes).0, 16))
      == Read(true, [], Picked(FlatAll([], nodes, 1), 16))
  {
    hide SaveNodes, UpdateNodes, SavedNodes, FlatAll, Picked, ReadTags;
    StoreSaved(nodes);
    AllPicked([], nodes, 1, 16);
    assert PathOf([]) == [];
  }

  // ---------- which marks are raised ----------

  /** Something in it, or it itself, is marked as updated or with a notification. */
  predicate AnyShown(n: Node)
    decreases n, 0
  {
    n.marks.updated || n.marks.notify ||
    match n
    case Leaf(_, _, _, _, _) => false
    case Table(_, _, _, present, kids) => present && AnyShownIn(kids)
    case Object(_, _, _, rows) => AnyRowShown(rows)
  }

  predicate AnyShownIn(nodes: seq<Node>)
    decreases nodes, 1
  {
    nodes != [] && (AnyShown(nodes[0]) || AnyShownIn(nodes[1..]))
  }

  predicate AnyRowShown(rows: seq<Row>)
    decreases rows, 1
  {
    rows != [] &&
    (rows[0].marks.updated || rows[0].marks.notify || AnyShownIn(rows[0].kids) || AnyRowShown(rows[1..]))
  }

  /** `m` is `n`, but for marks, and shows a mark exactly where `n` has one at or below that place. */
  ghost predicate Raised(n: Node, m: Node)
    decreases n, 0
  {
    && ((m.marks.updated || m.marks.notify) <==> AnyShown(n))
    && match n
       case Leaf(_, _, _, _, _) => m == n
       case Table(key, flags, _, present, kids) =>
         && m.Table? && m.key == key && m.flags == flags && m.present == present
         && if present then RaisedAll(kids, m.kids) else m.kids == kids
       case Object(key, flags, _, rows) =>
         m.Object? && m.key == key && m.flags == flags && RaisedRows(rows, m.rows)
  }

  ghost predicate RaisedAll(nodes: seq<Node>, ms: seq<Node>)
    decreases nodes, 1
  {
    if nodes == [] then ms == [] else ms != [] && Raised(nodes[0], ms[0]) && RaisedAll(nodes[1..], ms[1..])
  }

  ghost predicate RaisedRows(rows: seq<Row>, rs: seq<Row>)
    decreases rows, 1
  {
    if rows == [] then rs == []
    else
      && rs != [] && rs[0].id == rows[0].id && RaisedAll(rows[0].kids, rs[0].kids)
      && ((rs[0].marks.updated || rs[0].marks.notify) <==>
          rows[0].marks.updated || rows[0].marks.notify || AnyShownIn(rows[0].kids))
      && RaisedRows(rows[1..], rs[1..])
  }

  lemma {:induction false} UpdateRaises(n: Node)
    ensures Raised(n, UpdateNode(n).0) && (Shown(UpdateNode(n).1) <==> AnyShown(n))
    decreases n, 0
  {
    match n
    case Leaf(_, _, _, _, _) =>
    case Table(_, _, _, present, kids) => if present { UpdateRaisesAll(kids); }
    case Object(_, _, _, rows) => UpdateRaisesRows(rows);
  }

  lemma {:induction false} UpdateRaisesAll(nodes: seq<Node>)
    ensures RaisedAll(nodes, UpdateNodes(nodes).0) && (Shown(UpdateNodes(nodes).1) <==> AnyShownIn(nodes))
    decreases nodes, 1
  {
    hide Raised, AnyShown, UpdateNode;
    if nodes != [] {
      UpdateRaises(nodes[0]);
      UpdateRaisesAll(nodes[1..]);
      var (n, a) := UpdateNode(nodes[0]);
      var (ns, b) := UpdateNodes(nodes[1..]);
      assert ([n] + ns)[1..] == ns;
    }
  }

  lemma {:induction false} UpdateRaisesRows(rows: seq<Row>)
    ensures RaisedRows(rows, UpdateRows(rows).0) && (Shown(UpdateRows(rows).1) <==> AnyRowShown(rows))
    decreases rows, 1
  {
    hide RaisedAll, AnyShownIn, UpdateNodes;
    if rows != [] {
      UpdateRaisesAll(rows[0].kids);
      UpdateRaisesRows(rows[1..]);
      var (rs, b) := UpdateRows(rows[1..]);
      assert UpdateRows(rows).0[1..] == rs;
    }
  }

  /** Of a tree of up to 16 levels all the leaves to be saved are saved. */
  lemma AllSaved(nodes: seq<Node>)
    requires HeightAll(nodes) <= LEVELS
    ensures ReadTags(Read(true, [], []), SaveNodes(UpdateNodes(nodes).0, LEVELS))
      == Read(true, [], SavedNodes([], nodes, 0))
  {
    StoreSaved(nodes);
    SavedComplete([], nodes, LEVELS, 0);
  }
}
