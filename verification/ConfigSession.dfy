/** Sessions and the write cache: one session may collect changes, and commit or cancel them as a whole. */
module ConfigSession {
  import opened Basics

  type Selector = seq<int>

  /** DM_VALUE of a leaf, with the marks DV_UPDATE_PENDING and DV_UPDATED. */
  datatype Leaf<V> = Leaf(value: V, pending: bool, updated: bool)

  type Store<V> = map<Selector, Leaf<V>>

  /** cache_item: the value to come, and the error code of its validation. */
  datatype Item<V> = Item(value: V, code: int)

  type Cache<V> = map<Selector, Item<V>>

  /** SOCKCONTEXT; id 0 means that no session was started. */
  datatype Session = Session(id: int, configure: bool)

  /** A connection; it carries at most one session. */
  type Conn = int

  datatype Rc = Ok | InvalidSession | CannotOpen | RequiresCfg | NotFound | InvalidType | Misc

  /** What a validate function says: accepted or not, and the code it leaves. */
  datatype Verdict = Verdict(ok: bool, code: int)

  // ---------- store and cache ----------

  /** A leaf is marked as pending exactly when its selector is cached. */
  ghost predicate Marked<V>(leaves: Store<V>, cache: Cache<V>) {
    && cache.Keys <= leaves.Keys
    && forall s :: s in leaves ==> (leaves[s].pending <==> s in cache)
  }

  /** What everyone sees. */
  ghost function Committed<V>(leaves: Store<V>): map<Selector, V> {
    map s | s in leaves :: leaves[s].value
  }

  /** What is to come. */
  ghost function Overlay<V>(cache: Cache<V>): map<Selector, V> {
    map s | s in cache :: cache[s].value
  }

  /** The entries that cache_validate has to ask about. */
  ghost predicate Accepted<V>(cache: Cache<V>, judge: (Selector, V) -> Verdict) {
    forall s :: s in cache && cache[s].code == 0 ==> judge(s, cache[s].value).ok
  }

  /** The codes that cache_validate leaves. */
  function Judged<V>(cache: Cache<V>, judge: (Selector, V) -> Verdict): Cache<V> {
    map s | s in cache ::
      if cache[s].code == 0 then Item(cache[s].value, judge(s, cache[s].value).code) else cache[s]
  }

  lemma JudgedOverlay<V>(cache: Cache<V>, judge: (Selector, V) -> Verdict)
    ensures Overlay(Judged(cache, judge)) == Overlay(cache)
  {}

  /** Validation is not repeated: some rejection that left no code is exactly what still stops the second one. */
  lemma SecondValidationIff<V>(cache: Cache<V>, judge: (Selector, V) -> Verdict)
    ensures Accepted(Judged(cache, judge), judge) <==>
      forall s :: s in cache && cache[s].code == 0 && !judge(s, cache[s].value).ok ==>
        judge(s, cache[s].value).code != 0
  {
    var j := Judged(cache, judge);
    if Accepted(j, judge) {
      forall s | s in cache && cache[s].code == 0 && !judge(s, cache[s].value).ok
        ensures judge(s, cache[s].value).code != 0
      {
        assert s in j && j[s].value == cache[s].value;
      }
    }
  }

  /** While cache_apply drains the cache: what left it has taken effect. */
  ghost predicate Applied<V>(was: Store<V>, all: Cache<V>, leaves: Store<V>, cache: Cache<V>) {
    && leaves.Keys == was.Keys && cache.Keys <= all.Keys && all.Keys <= was.Keys
    && (forall s :: s in cache ==> cache[s] == all[s])
    && (forall s :: s in leaves ==> leaves[s].value == if s in all && s !in cache then all[s].value else was[s].value)
    && (forall s :: s in leaves ==> (leaves[s].updated <==> was[s].updated || (s in all && s !in cache)))
  }

  lemma ApplyStart<V>(leaves: Store<V>, cache: Cache<V>)
    requires Marked(leaves, cache)
    ensures Applied(leaves, cache, leaves, cache)
  {}

  lemma ApplyStep<V>(was: Store<V>, all: Cache<V>, leaves: Store<V>, cache: Cache<V>, sel: Selector)
    requires Marked(leaves, cache) && Applied(was, all, leaves, cache) && sel in cache
    ensures Marked(leaves[sel := Leaf(cache[sel].value, false, true)], cache - {sel})
    ensures Applied(was, all, leaves[sel := Leaf(cache[sel].value, false, true)], cache - {sel})
  {}

  lemma AppliedAll<V>(was: Store<V>, all: Cache<V>, leaves: Store<V>)
    requires Applied(was, all, leaves, map[])
    ensures leaves.Keys == was.Keys
    ensures Committed(leaves) == Committed(was) + Overlay(all)
    ensures forall s :: s in leaves ==> (leaves[s].updated <==> was[s].updated || s in all)
  {}

  /** While cache_reset drains the cache: only marks change. */
  ghost predicate Unmarked<V>(was: Store<V>, leaves: Store<V>) {
    && leaves.Keys == was.Keys
    && forall s :: s in leaves ==> leaves[s].value == was[s].value && leaves[s].updated == was[s].updated
  }

  lemma UnmarkStep<V>(was: Store<V>, leaves: Store<V>, cache: Cache<V>, sel: Selector)
    requires Marked(leaves, cache) && Unmarked(was, leaves) && sel in cache
    ensures sel in leaves
    ensures Marked(leaves[sel := leaves[sel].(pending := false)], cache - {sel})
    ensures Unmarked(was, leaves[sel := leaves[sel].(pending := false)])
  {}

  // ---------- sessions ----------

  /** Ids of started sessions are below the counter and not shared; the one that configures is named by `cfg`. */
  ghost predicate Exclusive(sessions: map<Conn, Session>, cfg: int, counter: int) {
    && counter >= 1
    && (forall c :: c in sessions ==> 0 <= sessions[c].id < counter && (sessions[c].configure ==> sessions[c].id != 0))
    && (forall c, d :: c in sessions && d in sessions && c != d && sessions[c].id != 0 ==>
      sessions[c].id != sessions[d].id)
    && (forall c :: c in sessions && sessions[c].id != 0 ==> (sessions[c].configure <==> sessions[c].id == cfg))
    && (cfg != 0 ==> exists c :: c in sessions && sessions[c].id == cfg)
  }

  /** At most one live session configures. */
  lemma OneConfigures(sessions: map<Conn, Session>, cfg: int, counter: int, c: Conn, d: Conn)
    requires Exclusive(sessions, cfg, counter) && c in sessions && d in sessions
    requires sessions[c].configure && sessions[d].configure
    ensures c == d && sessions[c].id == cfg
  {}

  /** Nobody configures exactly when `cfg` is 0. */
  lemma NobodyConfigures(sessions: map<Conn, Session>, cfg: int, counter: int)
    requires Exclusive(sessions, cfg, counter)
    ensures cfg == 0 <==> forall c :: c in sessions ==> !sessions[c].configure
  {
    if cfg != 0 {
      var c :| c in sessions && sessions[c].id == cfg;
      assert sessions[c].configure;
    }
  }

  lemma StartExclusive(sessions: map<Conn, Session>, cfg: int, counter: int, c: Conn, configure: bool)
    requires Exclusive(sessions, cfg, counter) && c in sessions && sessions[c].id == 0 && (configure ==> cfg == 0)
    ensures Exclusive(sessions[c := Session(counter, configure)], if configure then counter else cfg, counter + 1)
  {
    var t := sessions[c := Session(counter, configure)];
    var g := if configure then counter else cfg;
    assert t[c].id == counter;
    if g != 0 && !configure {
      var e :| e in sessions && sessions[e].id == cfg;
      assert e in t && t[e].id == cfg;
    }
    forall d | d in t && t[d].id != 0 ensures t[d].configure <==> t[d].id == g {
      if d != c { assert t[d] == sessions[d]; }
    }
  }

  lemma SwitchExclusive(sessions: map<Conn, Session>, cfg: int, counter: int, c: Conn, configure: bool)
    requires Exclusive(sessions, cfg, counter) && c in sessions && sessions[c].id != 0
    requires configure ==> cfg == 0 || cfg == sessions[c].id
    ensures Exclusive(sessions[c := Session(sessions[c].id, configure)],
                      if configure then sessions[c].id else if cfg == sessions[c].id then 0 else cfg, counter)
  {
    var id := sessions[c].id;
    var t := sessions[c := Session(id, configure)];
    var g := if configure then id else if cfg == id then 0 else cfg;
    if g != 0 {
      if configure {
        assert t[c].id == g;
      } else {
        var e :| e in sessions && sessions[e].id == cfg;
        assert e in t && t[e].id == cfg;
      }
    }
    forall d | d in t && t[d].id != 0 ensures t[d].configure <==> t[d].id == g {
      if d != c { assert t[d] == sessions[d] && sessions[d].id != id; }
    }
  }

  lemma EndExclusive(sessions: map<Conn, Session>, cfg: int, counter: int, c: Conn)
    requires Exclusive(sessions, cfg, counter) && c in sessions
    ensures Exclusive(sessions - {c}, if cfg == sessions[c].id then 0 else cfg, counter)
  {
    var t := sessions - {c};
    var g := if cfg == sessions[c].id then 0 else cfg;
    if g != 0 {
      var e :| e in sessions && sessions[e].id == cfg;
      assert e in t && t[e].id == cfg;
    }
    forall d | d in t && t[d].id != 0 ensures t[d].configure <==> t[d].id == g {
      assert t[d] == sessions[d];
    }
  }

  const WRAP := 0x1_0000_0000

  class Server<V> {
    var sessions: map<Conn, Session>
    var cfg: int
    var counter: int
    var leaves: Store<V>
    var cache: Cache<V>
    /** the 32-bit counter of session ids has started over */
    ghost var wrapped: bool

    ghost predicate Valid()
      reads this
    {
      && Marked(leaves, cache)
      && 1 <= counter < WRAP
      && (!wrapped ==> Exclusive(sessions, cfg, counter) && (cache != map[] ==> cfg != 0))
    }

    /** Connection `c` configures. */
    ghost predicate Owns(c: Conn)
      reads this
    {
      c in sessions && sessions[c].configure
    }

    constructor (values: map<Selector, V>)
      ensures Valid() && !wrapped && counter == 1 && sessions == map[] && cache == map[] && Committed(leaves) == values
      ensures forall s :: s in leaves ==> leaves[s] == Leaf(values[s], false, false)
    {
      sessions, cfg, counter := map[], 0, 1;
      leaves := map s | s in values :: Leaf(values[s], false, false);
      cache := map[];
      wrapped := false;
    }

    // ---------- dm_cache.c ----------

    /** cache_reset, in whatever order the tree gives its root up. */
    method CacheReset()
      requires Marked(leaves, cache)
      modifies this`leaves, this`cache
      ensures cache == map[] && Marked(leaves, cache)
      ensures Committed(leaves) == old(Committed(leaves))
      ensures Unmarked(old(leaves), leaves)
    {
      hide Marked;
      while cache.Keys != {}
        invariant Marked(leaves, cache) && Unmarked(old(leaves), leaves)
        decreases |cache|
      {
        var sel :| sel in cache;
        UnmarkStep(old(leaves), leaves, cache, sel);
        cache := cache - {sel};
        leaves := leaves[sel := leaves[sel].(pending := false)];
      }
    }

    /** cache_apply: afterwards everyone sees what the cache held. */
    method CacheApply()
      requires Marked(leaves, cache)
      modifies this`leaves, this`cache
      ensures cache == map[] && Marked(leaves, cache)
      ensures Committed(leaves) == old(Committed(leaves)) + old(Overlay(cache))
      ensures leaves.Keys == old(leaves).Keys
      ensures forall s :: s in leaves ==> (leaves[s].updated <==> old(leaves)[s].updated || s in old(cache))
    {
      hide Marked, Applied, Committed, Overlay;
      ApplyStart(leaves, cache);
      while cache.Keys != {}
        invariant Marked(leaves, cache) && Applied(old(leaves), old(cache), leaves, cache)
        decreases |cache|
      {
        var sel :| sel in cache;
        var item := cache[sel];
        ApplyStep(old(leaves), old(cache), leaves, cache, sel);
        cache := cache - {sel};
        leaves := leaves[sel := Leaf(item.value, false, true)];
      }
      AppliedAll(old(leaves), old(cache), leaves);
    }

    /** cache_validate: every entry without a code is asked about, also after one was rejected. */
    method CacheValidate(judge: (Selector, V) -> Verdict) returns (ok: bool)
      modifies this`cache
      ensures ok <==> Accepted(old(cache), judge)
      ensures cache == Judged(old(cache), judge)
    {
      ok := true;
      var todo := cache.Keys;
      var judged := Judged(cache, judge);
      while todo != {}
        invariant todo <= old(cache).Keys && cache.Keys == old(cache).Keys
        invariant forall s :: s in cache ==> cache[s] == if s in todo then old(cache)[s] else judged[s]
        invariant ok <==> forall s :: s in old(cache) && s !in todo && old(cache)[s].code == 0 ==>
          judge(s, old(cache)[s].value).ok
        decreases |todo|
      {
        var sel :| sel in todo;
        var item := cache[sel];
        if item.code == 0 {
          var v := judge(sel, item.value);
          ok := ok && v.ok;
          cache := cache[sel := Item(item.value, v.code)];
        }
        todo := todo - {sel};
      }
    }

    /** dmconfig_set_cb of a configuring session, with cache_add. */
    method CacheSet(sel: Selector, value: V)
      requires Marked(leaves, cache) && sel in leaves
      modifies this`leaves, this`cache
      ensures Marked(leaves, cache)
      ensures leaves == old(leaves)[sel := old(leaves)[sel].(pending := true)]
      ensures Committed(leaves) == old(Committed(leaves))
      ensures Overlay(cache) == old(Overlay(cache))[sel := value] && cache == old(cache)[sel := Item(value, 0)]
    {
      leaves := leaves[sel := leaves[sel].(pending := true)];
      cache := cache[sel := Item(value, 0)];
    }

    // ---------- sessions ----------

    /** accept_cb: a connection without a session. */
    method Connect(c: Conn)
      requires Valid() && c !in sessions
      modifies this`sessions
      ensures Valid() && sessions == old(sessions)[c := Session(0, false)]
    {
      hide Marked;
      ConnectExclusive(sessions, cfg, counter, c);
      sessions := sessions[c := Session(0, false)];
    }

    /** rpc_startsession */
    method StartSession(c: Conn, configure: bool) returns (rc: Rc)
      requires Valid() && c in sessions
      modifies this`sessions, this`cfg, this`counter, this`wrapped
      ensures Valid() && wrapped == (old(wrapped) || (rc == Ok && old(counter) + 1 == WRAP))
      ensures rc == InvalidSession <==> old(sessions)[c].id != 0
      ensures rc == CannotOpen <==> old(sessions)[c].id == 0 && configure && old(cfg) != 0
      ensures rc == Ok ==> sessions == old(sessions)[c := Session(old(counter), configure)]
      ensures rc == Ok ==>
        && cfg == (if configure then old(counter) else old(cfg))
        && counter == if old(counter) == 0xFFFF_FFFF then 1 else old(counter) + 1
      ensures rc != Ok ==> sessions == old(sessions) && cfg == old(cfg) && counter == old(counter)
      ensures !old(wrapped) ==>
        (rc == CannotOpen <==> old(sessions)[c].id == 0 && configure && exists d :: old(Owns(d)))
      ensures rc in {Ok, InvalidSession, CannotOpen}
    {
      hide Marked, Exclusive;
      if sessions[c].id != 0 {
        return InvalidSession;
      }
      if !wrapped {
        NobodyConfigures(sessions, cfg, counter);
      }
      if configure && cfg != 0 {
        if !wrapped {
          var d :| d in sessions && sessions[d].configure;
          assert old(Owns(d));
        }
        return CannotOpen;
      }
      if !wrapped {
        StartExclusive(sessions, cfg, counter, c, configure);
      }
      if configure {
        cfg := counter;
      }
      sessions := sessions[c := Session(counter, configure)];
      counter := counter + 1;
      if counter == WRAP {
        counter := 1;
        wrapped := true;
      }
      return Ok;
    }

    /** rpc_switchsession: leaving the configuring mode drops the cache. */
    method SwitchSession(c: Conn, configure: bool) returns (rc: Rc)
      requires Valid() && c in sessions
      modifies this`sessions, this`cfg, this`leaves, this`cache
      ensures Valid() && Unmarked(old(leaves), leaves)
      ensures Committed(leaves) == old(Committed(leaves))
      ensures rc == InvalidSession <==> old(sessions)[c].id == 0
      ensures rc == CannotOpen <==>
        old(sessions)[c].id != 0 && configure && old(cfg) != 0 && old(cfg) != old(sessions)[c].id
      ensures rc == Ok ==>
        var mine := old(cfg) == old(sessions)[c].id;
        && cfg == (if configure then old(sessions)[c].id else if mine then 0 else old(cfg))
        && cache == if !configure && mine then map[] else old(cache)
      ensures rc == Ok ==> sessions == old(sessions)[c := old(sessions)[c].(configure := configure)]
      ensures rc != Ok ==> sessions == old(sessions) && cfg == old(cfg) && leaves == old(leaves) && cache == old(cache)
      ensures !wrapped ==>
        (rc == CannotOpen <==> old(sessions)[c].id != 0 && configure && exists d :: d != c && old(Owns(d)))
      ensures !wrapped && rc == Ok ==> cache == if !configure && old(Owns(c)) then map[] else old(cache)
      ensures rc in {Ok, InvalidSession, CannotOpen}
    {
      hide Marked, Exclusive;
      var id := sessions[c].id;
      if id == 0 {
        return InvalidSession;
      }
      if !wrapped {
        OwnerIs(sessions, cfg, counter, c);
      }
      if configure && cfg != 0 && cfg != id {
        if !wrapped {
          var d :| d != c && d in sessions && sessions[d].configure;
          assert old(Owns(d));
        }
        return CannotOpen;
      }
      if !wrapped {
        SwitchExclusive(sessions, cfg, counter, c, configure);
      }
      if configure {
        cfg := id;
      } else if cfg == id {
        cfg := 0;
        CacheReset();
      }
      sessions := sessions[c := Session(id, configure)];
      return Ok;
    }

    /** end_session, also on timeout or loss of the connection. */
    method EndSession(c: Conn)
      requires Valid() && c in sessions
      modifies this`sessions, this`cfg, this`leaves, this`cache
      ensures Valid() && sessions == old(sessions) - {c} && Unmarked(old(leaves), leaves)
      ensures Committed(leaves) == old(Committed(leaves))
      ensures var mine := old(cfg) == old(sessions)[c].id;
        cfg == (if mine then 0 else old(cfg)) && cache == if mine then map[] else old(cache)
      ensures !wrapped ==> cache == if old(Owns(c)) then map[] else old(cache)
    {
      hide Marked, Exclusive;
      if !wrapped {
        EndExclusive(sessions, cfg, counter, c);
        OwnerIs(sessions, cfg, counter, c);
      }
      if cfg == sessions[c].id {
        cfg := 0;
        CacheReset();
      }
      sessions := sessions - {c};
    }

    // ---------- values ----------

    /** dmconfig_set_cb; `value` is None if the AVP does not fit the element. */
    method Set(c: Conn, sel: Selector, value: Option<V>) returns (rc: Rc)
      requires Valid() && c in sessions
      modifies this`leaves, this`cache
      ensures Valid()
      ensures rc == SetRc(old(Committed(leaves)), sel, value)
      ensures rc != Ok ==> leaves == old(leaves) && cache == old(cache)
      ensures rc == Ok && Owns(c) ==> cache == old(cache)[sel := Item(value.value, 0)]
      ensures rc == Ok && Owns(c) ==> leaves == old(leaves)[sel := old(leaves)[sel].(pending := true)]
      ensures rc == Ok && !Owns(c) ==> leaves == old(leaves)[sel := Leaf(value.value, old(leaves)[sel].pending, true)]
      ensures rc == Ok ==> (leaves, cache) == SetOne(Owns(c), old(leaves), old(cache), sel, value.value)
      ensures rc == Ok && Owns(c) ==>
        Overlay(cache) == old(Overlay(cache))[sel := value.value] && Committed(leaves) == old(Committed(leaves))
      ensures rc == Ok && !Owns(c) ==>
        cache == old(cache) && Committed(leaves) == old(Committed(leaves))[sel := value.value]
    {
      if sel !in leaves {
        return NotFound;
      }
      if value.None? {
        return InvalidType;
      }
      if sessions[c].configure {
        if !wrapped { OwnerIs(sessions, cfg, counter, c); }
        CacheSet(sel, value.value);
      } else {
        leaves := leaves[sel := leaves[sel].(value := value.value, updated := true)];
      }
      return Ok;
    }

    /** rpc_db_set: one after the other, up to the first that fails. */
    method SetAll(c: Conn, values: seq<(Selector, Option<V>)>) returns (rc: Rc)
      requires Valid() && c in sessions
      modifies this`leaves, this`cache
      ensures Valid()
      ensures Owns(c) ==>
        Committed(leaves) == old(Committed(leaves))
        && Overlay(cache) == AfterSets(old(Committed(leaves)).Keys, old(Overlay(cache)), values)
      ensures !Owns(c) ==>
        cache == old(cache)
        && Committed(leaves) == AfterSets(old(Committed(leaves)).Keys, old(Committed(leaves)), values)
      ensures rc == Ok <==> forall i :: 0 <= i < |values| ==> values[i].0 in old(leaves) && values[i].1.Some?
      ensures rc == FirstFailure(old(leaves).Keys, values) && leaves.Keys == old(leaves).Keys
      ensures forall s :: s in leaves ==>
        (leaves[s].updated <==> old(leaves)[s].updated || (!Owns(c) && IsSet(old(leaves).Keys, values, s)))
      ensures forall s :: s in cache ==>
        if Owns(c) && IsSet(old(leaves).Keys, values, s) then cache[s].code == 0
        else s in old(cache) && cache[s] == old(cache)[s]
    {
      hide Marked, Exclusive, Overlay, Committed, IsSet, AfterSets, SetOne;
      ghost var owns := Owns(c);
      SetsDo(owns, leaves, cache, values);
      for i := 0 to |values|
        invariant Valid() && leaves.Keys == old(leaves).Keys
        invariant forall k :: 0 <= k < i ==> values[k].0 in leaves && values[k].1.Some?
        invariant FirstFailure(leaves.Keys, values[i..]) == FirstFailure(leaves.Keys, values)
        invariant SetMany(owns, leaves, cache, values[i..]) == SetMany(owns, old(leaves), old(cache), values)
      {
        assert values[i..][1..] == values[i + 1..];
        CommittedKeys(leaves);
        rc := Set(c, values[i].0, values[i].1);
        if rc != Ok {
          return;
        }
      }
      return Ok;
    }

    /** rpc_db_get: the configuring session sees its own changes, everyone else what is committed. */
    method Get(c: Conn, sel: Selector) returns (r: Option<V>)
      requires Valid() && c in sessions
      ensures r == Lookup(if cfg != 0 && sessions[c].id == cfg then Committed(leaves) + Overlay(cache)
                          else Committed(leaves), sel)
      ensures !wrapped && Owns(c) ==> r == Lookup(Committed(leaves) + Overlay(cache), sel)
      ensures !wrapped && !Owns(c) ==> r == Lookup(Committed(leaves), sel)
    {
      hide Exclusive;
      if !wrapped {
        OwnerIs(sessions, cfg, counter, c);
      }
      if sel !in leaves {
        return None;
      }
      if cfg != 0 && sessions[c].id == cfg && leaves[sel].pending {
        return if sel in cache then Some(cache[sel].value) else None;
      }
      return Some(leaves[sel].value);
    }

    /** rpc_db_commit: all the changes, or none. */
    method Commit(c: Conn, judge: (Selector, V) -> Verdict) returns (rc: Rc)
      requires Valid() && c in sessions
      modifies this`leaves, this`cache
      ensures Valid() && rc in {Ok, RequiresCfg, Misc} && (rc == RequiresCfg <==> sessions[c].id != cfg)
      ensures !wrapped ==> (rc == RequiresCfg <==> !Owns(c) && (sessions[c].id != 0 || exists d :: old(Owns(d))))
      ensures rc == RequiresCfg ==> leaves == old(leaves) && cache == old(cache)
      ensures rc == Misc <==> old(sessions[c].id == cfg) && !Accepted(old(cache), judge)
      ensures rc == Misc ==>
        leaves == old(leaves) && cache == Judged(old(cache), judge) && Overlay(cache) == old(Overlay(cache))
      ensures rc == Ok ==> cache == map[] && Committed(leaves) == old(Committed(leaves)) + old(Overlay(cache))
      ensures rc == Ok && !wrapped && !Owns(c) ==> Committed(leaves) == old(Committed(leaves))
      ensures rc == Ok ==> leaves.Keys == old(leaves).Keys
      ensures rc == Ok ==>
        forall s :: s in leaves ==> (leaves[s].updated <==> old(leaves)[s].updated || s in old(cache))
    {
      hide Exclusive, Accepted, Judged;
      if !wrapped {
        OwnerIs(sessions, cfg, counter, c);
        NobodyConfigures(sessions, cfg, counter);
      }
      if sessions[c].id != cfg {
        if !wrapped && cfg != 0 {
          var d :| d in sessions && sessions[d].configure;
          assert old(Owns(d));
        }
        return RequiresCfg;
      }
      var ok := CacheValidate(judge);
      JudgedOverlay(old(cache), judge);
      JudgedMarked(leaves, old(cache), judge);
      if !ok {
        return Misc;
      }
      CacheApply();
      return Ok;
    }

    /** rpc_db_cancel: the values stay, and no mark is left. */
    method Cancel(c: Conn) returns (rc: Rc)
      requires Valid() && c in sessions
      modifies this`leaves, this`cache
      ensures Valid() && Committed(leaves) == old(Committed(leaves)) && Unmarked(old(leaves), leaves)
      ensures rc == if sessions[c].id == cfg then Ok else RequiresCfg
      ensures rc == Ok ==> cache == map[] && forall s :: s in leaves ==> !leaves[s].pending
      ensures rc == RequiresCfg ==> leaves == old(leaves) && cache == old(cache)
    {
      hide Exclusive;
      if sessions[c].id != cfg {
        return RequiresCfg;
      }
      CacheReset();
      return Ok;
    }

    /** Two commits without a change in between: after a refusal the second is accepted exactly if every rejection
        left a code. */
    method CommitTwice(c: Conn, judge: (Selector, V) -> Verdict) returns (first: Rc, second: Rc)
      requires Valid() && c in sessions
      modifies this`leaves, this`cache
      ensures Valid()
      ensures first == Misc <==> sessions[c].id == cfg && !Accepted(old(cache), judge)
      ensures first == Misc ==> (second == Ok <==>
        forall s :: s in old(cache) && old(cache)[s].code == 0 && !judge(s, old(cache)[s].value).ok ==>
          judge(s, old(cache)[s].value).code != 0)
      ensures first == Misc && second == Ok ==>
        cache == map[] && Committed(leaves) == old(Committed(leaves)) + old(Overlay(cache))
      ensures first == Misc && second != Ok ==> second == Misc && Committed(leaves) == old(Committed(leaves))
    {
      hide Marked, Exclusive, Committed, Overlay, Accepted, Judged;
      first := Commit(c, judge);
      SecondValidationIff(old(cache), judge);
      second := Commit(c, judge);
    }

    /** What the configuring session reads before a commit is what everyone reads after it. */
    method ReadCommitRead(c: Conn, d: Conn, sel: Selector, judge: (Selector, V) -> Verdict)
      returns (mine: Option<V>, theirs: Option<V>, rc: Rc, after: Option<V>)
      requires Valid() && !wrapped && Owns(c) && d in sessions && c != d
      modifies this`leaves, this`cache
      ensures rc == Ok ==> after == mine
      ensures rc != Ok ==> after == theirs
    {
      hide Marked, Exclusive, Committed, Overlay, Accepted, Judged;
      OtherDoesNot(sessions, cfg, counter, c, d);
      mine := Get(c, sel);
      theirs := Get(d, sel);
      rc := Commit(c, judge);
      after := Get(d, sel);
    }
  }

  ghost function SetRc<V>(committed: map<Selector, V>, sel: Selector, value: Option<V>): Rc {
    if sel !in committed then NotFound else if value.None? then InvalidType else Ok
  }

  lemma ConnectExclusive(sessions: map<Conn, Session>, cfg: int, counter: int, c: Conn)
    requires c !in sessions
    ensures Exclusive(sessions, cfg, counter) ==> Exclusive(sessions[c := Session(0, false)], cfg, counter)
  {
    if Exclusive(sessions, cfg, counter) && cfg != 0 {
      var e :| e in sessions && sessions[e].id == cfg;
      assert sessions[c := Session(0, false)][e].id == cfg;
    }
  }

  /** The id that the code compares tells who configures. */
  lemma OwnerIs(sessions: map<Conn, Session>, cfg: int, counter: int, c: Conn)
    requires Exclusive(sessions, cfg, counter) && c in sessions
    ensures sessions[c].configure <==> cfg != 0 && sessions[c].id == cfg
    ensures (exists d :: d != c && d in sessions && sessions[d].configure) <==> cfg != 0 && cfg != sessions[c].id
  {
    if cfg != 0 && cfg != sessions[c].id {
      var e :| e in sessions && sessions[e].id == cfg;
      assert sessions[e].configure;
    }
  }

  lemma OtherDoesNot(sessions: map<Conn, Session>, cfg: int, counter: int, c: Conn, d: Conn)
    requires Exclusive(sessions, cfg, counter) && c in sessions && d in sessions && c != d && sessions[c].configure
    ensures !sessions[d].configure
  {}

  lemma JudgedMarked<V>(leaves: Store<V>, cache: Cache<V>, judge: (Selector, V) -> Verdict)
    requires Marked(leaves, cache)
    ensures Marked(leaves, Judged(cache, judge)) && (Judged(cache, judge) == map[] <==> cache == map[])
  {
    if cache != map[] {
      var s :| s in cache;
      assert s in Judged(cache, judge);
    }
  }

  ghost function Lookup<V>(m: map<Selector, V>, sel: Selector): Option<V> {
    if sel in m then Some(m[sel]) else None
  }

  /** Values set one after the other, up to the first that is unknown or does not fit. */
  ghost function AfterSets<V>(known: set<Selector>, m: map<Selector, V>, values: seq<(Selector, Option<V>)>)
    : map<Selector, V>
    decreases |values|
  {
    if values == [] || values[0].0 !in known || values[0].1.None? then m
    else AfterSets(known, m[values[0].0 := values[0].1.value], values[1..])
  }

  ghost function FirstFailure<V>(known: set<Selector>, values: seq<(Selector, Option<V>)>): Rc
    decreases |values|
  {
    if values == [] then Ok
    else if values[0].0 !in known then NotFound
    else if values[0].1.None? then InvalidType
    else FirstFailure(known, values[1..])
  }

  lemma CommittedKeys<V>(leaves: Store<V>)
    ensures Committed(leaves).Keys == leaves.Keys
  {}

  /** Leaf `s` is set before the first value that is unknown or does not fit. */
  ghost predicate IsSet<V>(known: set<Selector>, values: seq<(Selector, Option<V>)>, s: Selector)
    decreases |values|
  {
    values != [] && values[0].0 in known && values[0].1.Some? && (values[0].0 == s || IsSet(known, values[1..], s))
  }

  /** Store and cache after one value is set: what is to come of a configuring session, or what everyone sees. */
  ghost function SetOne<V>(owns: bool, leaves: Store<V>, cache: Cache<V>, sel: Selector, value: V): (Store<V>, Cache<V>)
    requires sel in leaves
  {
    if owns then (leaves[sel := leaves[sel].(pending := true)], cache[sel := Item(value, 0)])
    else (leaves[sel := Leaf(value, leaves[sel].pending, true)], cache)
  }

  ghost function SetMany<V>(owns: bool, leaves: Store<V>, cache: Cache<V>, values: seq<(Selector, Option<V>)>)
    : (Store<V>, Cache<V>)
    decreases |values|
  {
    if values == [] || values[0].0 !in leaves || values[0].1.None? then (leaves, cache)
    else
      var (l, k) := SetOne(owns, leaves, cache, values[0].0, values[0].1.value);
      SetMany(owns, l, k, values[1..])
  }

  lemma SetOneDoes<V>(owns: bool, leaves: Store<V>, cache: Cache<V>, sel: Selector, value: V)
    requires sel in leaves
    ensures var (l, k) := SetOne(owns, leaves, cache, sel, value);
      && l.Keys == leaves.Keys
      && (owns ==> Committed(l) == Committed(leaves) && Overlay(k) == Overlay(cache)[sel := value])
      && (!owns ==> k == cache && Committed(l) == Committed(leaves)[sel := value])
      && (forall s :: s in l ==> (l[s].updated <==> leaves[s].updated || (!owns && s == sel)))
      && (forall s :: s in k ==> if owns && s == sel then k[s].code == 0 else s in cache && k[s] == cache[s])
  {}

  /** What setting values one after the other amounts to. */
  lemma {:induction false} SetsDo<V>(owns: bool, leaves: Store<V>, cache: Cache<V>, values: seq<(Selector, Option<V>)>)
    ensures var (l, k) := SetMany(owns, leaves, cache, values);
      && l.Keys == leaves.Keys
      && (owns ==> Committed(l) == Committed(leaves))
      && (owns ==> Overlay(k) == AfterSets(Committed(leaves).Keys, Overlay(cache), values))
      && (!owns ==> k == cache && Committed(l) == AfterSets(Committed(leaves).Keys, Committed(leaves), values))
      && (forall s :: s in l ==> (l[s].updated <==> leaves[s].updated || (!owns && IsSet(leaves.Keys, values, s))))
      && (forall s :: s in k ==>
        if owns && IsSet(leaves.Keys, values, s) then k[s].code == 0 else s in cache && k[s] == cache[s])
    decreases |values|
  {
    hide Committed, Overlay, SetOne;
    CommittedKeys(leaves);
    if values != [] && values[0].0 in leaves && values[0].1.Some? {
      var (l, k) := SetOne(owns, leaves, cache, values[0].0, values[0].1.value);
      SetOneDoes(owns, leaves, cache, values[0].0, values[0].1.value);
      CommittedKeys(l);
      SetsDo(owns, l, k, values[1..]);
    }
  }

  /** A server with one leaf, and a session that has changed it from 0 to 1. */
  method OneChange() returns (server: Server<int>)
    ensures fresh(server) && server.Valid() && !server.wrapped && server.Owns(7)
    ensures server.cache == map[[1] := Item(1, 0)] && Committed(server.leaves) == map[[1] := 0]
  {
    hide Marked, Exclusive;
    server := new Server<int>(map[[1] := 0]);
    server.Connect(7);
    assert forall d :: !server.Owns(d);
    var rc := server.StartSession(7, true);
    rc := server.Set(7, [1], Some(1));
  }

  /** A value that is rejected with a code: the commit is refused, and accepted when it is repeated. */
  method RefusedThenAccepted() returns (first: Rc, second: Rc, value: Option<int>)
    ensures first == Misc && second == Ok && value == Some(1)
  {
    hide Marked, Exclusive;
    var server := OneChange();
    var judge := (s: Selector, v: int) => Verdict(false, 5);
    assert [1] in server.cache && !judge([1], server.cache[[1]].value).ok;
    OwnerIs(server.sessions, server.cfg, server.counter, 7);
    first, second := server.CommitTwice(7, judge);
    assert Overlay(map[[1] := Item(1, 0)]) == map[[1] := 1];
    value := server.Get(7, [1]);
  }

  /** A connection without a session, while nobody configures: its commit is accepted, and changes nothing. */
  method CommitWithoutSession() returns (rc: Rc, value: Option<int>)
    ensures rc == Ok && value == Some(0)
  {
    hide Marked, Exclusive;
    var server := new Server<int>(map[[1] := 0]);
    server.Connect(7);
    assert forall d :: !server.Owns(d);
    rc := server.Commit(7, (s: Selector, v: int) => Verdict(false, 5));
    value := server.Get(7, [1]);
  }
}
