/** Lua MIB groups behind the instance nodes of the tree: what the C side sees of their handlers, and when
    GETNEXT requests and walks over them are right (core/mib_tree.c:114-242, 452-471). */
module LuaAgent {
  import opened Oids
  import opened Handlers
  import opened TreeSearch
  import opened MibSearch
  import opened MultiView
  import opened Walks
  import opened Reach
  import opened Requests
  import V = Views
  import opened LuaIndex
  import opened LuaGetnext
  import opened LuaGroup
  import opened LuaSegments
  import opened LuaHandler

  // ---------------------------------------------------------------------
  // One group
  // ---------------------------------------------------------------------

  /** An answer as the C side sees it: an error leaves the instance not found. */
  ghost predicate SeenAs(group: Group, q: Oid, r: Option<Oid>) {
    if Unsortable(group) || GroupShort(group, q) then r == None else IsNextVar(group, q, r)
  }

  /** mib_instance_search for GETNEXT. */
  method InstanceSearch(group: Group, req: Oid) returns (r: Option<Oid>)
    requires GroupOk(group)
    ensures SeenAs(group, req, r)
  {
    var res := GroupGetnext(group, req);
    r := if res.Raised? then None else res.value;
  }

  /** The handler fails although the group holds a variable above the argument. */
  ghost predicate Misses(group: Group, q: Oid) {
    (Unsortable(group) || GroupShort(group, q)) && exists o :: IsVar(group, o) && Less(q, o)
  }

  /** The variable of a row, in a given column. */
  function Cell(m: Member, v: SubId, key: Oid): Oid
    requires m.kind.Table?
  {
    [m.no, m.kind.entryNo, v] + key
  }

  lemma CellIsVar(group: Group, j: nat, v: SubId, i: nat)
    requires j < |group| && group[j].kind.Table? && group[j].kind.indexes.Keys?
    requires v in group[j].kind.vars && i < |group[j].kind.indexes.keys|
    ensures IsVar(group, Cell(group[j], v, Key(group[j].kind.indexes.keys[i])))
  {
    var key := Key(group[j].kind.indexes.keys[i]);
    assert Cell(group[j], v, key)[3..] == key;
    assert MemberVar(group[j], Cell(group[j], v, key));
  }

  lemma CellExtends(q: Oid, no: SubId, entryNo: SubId, ids: Oid)
    requires |q| >= 3 && q[0] == no && q[1] == entryNo && q[3..] <= ids && q[3..] != ids
    ensures q <= [no, entryNo, q[2]] + ids && Less(q, [no, entryNo, q[2]] + ids)
  {
    assert [no, entryNo, q[2]] + ids == q + ids[|q| - 3..];
    PrefixLessEq(q, [no, entryNo, q[2]] + ids);
  }

  /** A request that stops inside an array key precedes the variable of that key. */
  lemma ShortHasMore(group: Group, q: Oid) returns (o: Oid)
    requires GroupShort(group, q)
    ensures IsVar(group, o) && q <= o && Less(q, o)
  {
    var j :| 0 <= j < |group| && MemberShort(group[j], q);
    var i :| 0 <= i < |group[j].kind.indexes.keys| && Truncates(q[3..], group[j].kind.indexes.keys[i]);
    o := Cell(group[j], q[2], group[j].kind.indexes.keys[i].ids);
    CellIsVar(group, j, q[2], i);
    CellExtends(q, group[j].no, group[j].kind.entryNo, group[j].kind.indexes.keys[i].ids);
  }

  /** Keys that never make the handler fail: no array of two or more sub-identifiers where there is a column,
      and no keys of both kinds where there is a variable. */
  ghost predicate KeysPlain(group: Group) {
    && (forall j :: 0 <= j < |group| ==> ShortKeys(group[j]))
    && (Unsortable(group) ==> forall o :: !IsVar(group, o))
  }

  ghost predicate ShortKeys(m: Member) {
    m.kind.Table? && m.kind.vars != [] && m.kind.indexes.Keys? ==>
      forall i :: 0 <= i < |m.kind.indexes.keys| ==> |Key(m.kind.indexes.keys[i])| < 2
  }

  /** A long array key is missed when the request stops after its first sub-identifier. */
  lemma LongKeyMissed(group: Group, j: nat)
    requires j < |group| && !ShortKeys(group[j])
    ensures exists q :: Misses(group, q)
  {
    var m := group[j];
    var i :| 0 <= i < |m.kind.indexes.keys| && |Key(m.kind.indexes.keys[i])| >= 2;
    var ids := m.kind.indexes.keys[i].ids;
    var q := Cell(m, m.kind.vars[0], ids[..1]);
    assert q[3..] == ids[..1];
    assert Truncates(q[3..], m.kind.indexes.keys[i]);
    assert MemberShort(m, q);
    var o := ShortHasMore(group, q);
    assert Misses(group, q);
  }

  /** The handler is right on every argument if and only if the group's keys are plain. */
  lemma PlainExactly(group: Group)
    requires GroupOk(group)
    ensures KeysPlain(group) <==> forall q :: !Misses(group, q)
  {
    if KeysPlain(group) {
      forall q ensures !Misses(group, q) {
        forall j | 0 <= j < |group| ensures !MemberShort(group[j], q) {
          assert ShortKeys(group[j]);
        }
      }
    } else if j :| 0 <= j < |group| && !ShortKeys(group[j]) {
      LongKeyMissed(group, j);
    } else {
      var o :| IsVar(group, o);
      EmptyLeast(o);
      assert Misses(group, []);
    }
  }

  /** No key of a table with a column is a proper prefix of another. */
  ghost predicate KeysApart(group: Group) {
    forall j :: 0 <= j < |group| ==> ApartIn(group[j])
  }

  ghost predicate ApartIn(m: Member) {
    m.kind.Table? && m.kind.vars != [] && m.kind.indexes.Keys? ==>
      forall a, b :: 0 <= a < |m.kind.indexes.keys| && 0 <= b < |m.kind.indexes.keys| ==>
        Key(m.kind.indexes.keys[a]) <= Key(m.kind.indexes.keys[b]) ==> a == b
  }

  lemma NestedKeyShort(group: Group, j: nat)
    requires GroupOk(group) && j < |group| && !ApartIn(group[j])
    ensures exists o :: IsVar(group, o) && GroupShort(group, o)
  {
    var m := group[j];
    var keys := m.kind.indexes.keys;
    var a, b :| 0 <= a < |keys| && 0 <= b < |keys| && Key(keys[a]) <= Key(keys[b]) && a != b;
    assert MemberOk(m);
    assert Key(keys[a]) != Key(keys[b]) && Key(keys[a]) != [];
    var o := Cell(m, m.kind.vars[0], Key(keys[a]));
    assert o[3..] == Key(keys[a]);
    assert Truncates(o[3..], keys[b]);
    assert MemberShort(m, o);
    CellIsVar(group, j, m.kind.vars[0], a);
  }

  lemma ApartNeverShort(group: Group, o: Oid)
    requires GroupOk(group) && KeysApart(group) && IsVar(group, o)
    ensures !GroupShort(group, o)
  {
    var i :| 0 <= i < |group| && MemberVar(group[i], o);
    assert ApartIn(group[i]);
    forall j | 0 <= j < |group| ensures !MemberShort(group[j], o) {
      assert i < j || j < i ==> group[i].no != group[j].no;
    }
  }

  /** Requests for what follows a variable never stop inside a key if and only if keys are apart. */
  lemma ApartExactly(group: Group)
    requires GroupOk(group)
    ensures KeysApart(group) <==> forall o :: IsVar(group, o) ==> !GroupShort(group, o)
  {
    if KeysApart(group) {
      forall o | IsVar(group, o) ensures !GroupShort(group, o) {
        ApartNeverShort(group, o);
      }
    } else {
      var j :| 0 <= j < |group| && !ApartIn(group[j]);
      NestedKeyShort(group, j);
    }
  }

  // ---------------------------------------------------------------------
  // Handlers
  // ---------------------------------------------------------------------

  /** Every callback serves a group. */
  ghost predicate GroupHandlers(h: Handlers, groups: int -> Group) {
    && (forall c :: GroupOk(groups(c)))
    && (forall c, o :: o in h.vars(c) <==> IsVar(groups(c), o))
    && (forall c, q :: SeenAs(groups(c), q, h.next(c, q)))
  }

  lemma GroupVars(h: Handlers, groups: int -> Group, c: int, o: Oid)
    requires GroupHandlers(h, groups)
    ensures o in h.vars(c) <==> IsVar(groups(c), o)
  {
  }

  /** The answer is right unless the group fails and has something left to answer with. */
  lemma RightExactly(h: Handlers, groups: int -> Group, c: int, q: Oid)
    requires GroupHandlers(h, groups)
    ensures Right(h, c, q) <==> !Misses(groups(c), q)
    ensures Right(h, c, q) || h.next(c, q) == None
  {
    assert SeenAs(groups(c), q, h.next(c, q));
    assert forall o :: o in h.vars(c) <==> IsVar(groups(c), o);
  }

  /** What the search through the tree asks of handlers holds of every agent. */
  lemma GroupsServe(h: Handlers, groups: int -> Group)
    requires GroupHandlers(h, groups)
    ensures HandlersOk(h)
  {
    forall c, s | s in h.vars(c) ensures s != [] {
      VarLength(groups(c), s);
    }
    forall c, q ensures Right(h, c, q) || h.next(c, q) == None {
      RightExactly(h, groups, c, q);
    }
  }

  /** Handlers never miss an answer if and only if all keys are plain. */
  lemma GroupsDischarge(h: Handlers, groups: int -> Group)
    requires GroupHandlers(h, groups)
    ensures HandlersRight(h) <==> forall c :: KeysPlain(groups(c))
  {
    GroupsServe(h, groups);
    forall c ensures KeysPlain(groups(c)) <==> forall q :: Right(h, c, q) {
      PlainExactly(groups(c));
      forall q ensures Right(h, c, q) <==> !Misses(groups(c), q) {
        RightExactly(h, groups, c, q);
      }
    }
  }

  // ---------------------------------------------------------------------
  // Requests
  // ---------------------------------------------------------------------

  /** The identifier stops inside an array key of the group registered above it. */
  ghost predicate StopsInside(reg: map<Oid, int>, groups: int -> Group, q: Oid) {
    exists p :: p in reg && p <= q && GroupShort(groups(reg[p]), q[|p|..])
  }

  /** Registered groups can be sorted unless they are empty, and views are neither variables nor stop inside
      an array key. */
  ghost predicate PlainViews(reg: map<Oid, int>, h: Handlers, groups: int -> Group, granted: set<Oid>) {
    && (forall p, o :: p in reg && Unsortable(groups(reg[p])) ==> !IsVar(groups(reg[p]), o))
    && (forall v :: Minimal(granted, v) ==> v !in Instances(reg, h.vars) && !StopsInside(reg, groups, v))
  }

  /** What a group is asked is right when the identifier sought does not stop inside one of its keys. */
  lemma AskedRight(reg: map<Oid, int>, h: Handlers, groups: int -> Group, granted: set<Oid>, q: Oid, p: Oid)
    requires GroupHandlers(h, groups) && PlainViews(reg, h, groups, granted) && p in reg && !StopsInside(reg, groups, q)
    ensures Right(h, reg[p], AskArg(p, q))
  {
    RightExactly(h, groups, reg[p], AskArg(p, q));
  }

  /** A readable variable is reached unless the request stops inside a key, in a view. */
  lemma NextReached(reg: map<Oid, int>, h: Handlers, groups: int -> Group, granted: set<Oid>, req: Oid, o: Oid)
    requires GroupHandlers(h, groups) && Leaves(reg) && PlainViews(reg, h, groups, granted)
    requires !(V.Granted(granted, req) && StopsInside(reg, groups, req))
    requires o in Readable(Instances(reg, h.vars), granted)
    ensures o in Reachable(reg, h, granted, req)
  {
    var g :| g in granted && g <= o;
    var v := MinimalBelow(granted, g);
    var p := LeafAbove(reg, h, o);
    AskedRight(reg, h, groups, granted, Sought(v, req), p);
    AnsweredAt(reg, h, Sought(v, req), p, o);
    assert Offers(reg, h, v, req, o);
  }

  /** The variable after a request that stops inside a key, in a view. */
  lemma ReadableAfter(reg: map<Oid, int>, h: Handlers, groups: int -> Group, granted: set<Oid>, req: Oid, p: Oid)
      returns (o: Oid)
    requires GroupHandlers(h, groups) && V.Granted(granted, req)
    requires p in reg && p <= req && GroupShort(groups(reg[p]), req[|p|..])
    ensures IsNext(Readable(Instances(reg, h.vars), granted), req, Some(o)) && req <= o
  {
    var readable := Readable(Instances(reg, h.vars), granted);
    var s := ShortHasMore(groups(reg[p]), req[|p|..]);
    var x := p + s;
    assert req == p + req[|p|..];
    LessConcat(p, req[|p|..], s);
    assert x == req + s[|req| - |p|..];
    assert V.Granted(granted, x);
    GroupVars(h, groups, reg[p], s);
    assert p + s in Instances(reg, h.vars);
    NextOfIs(readable);
    var r := NextOf(readable)(req);
    assert IsNext(readable, req, r);
    o := r.value;
    Between(req, req, o, x);
  }

  lemma StoppedNotAnswered(reg: map<Oid, int>, h: Handlers, groups: int -> Group, req: Oid, o: Oid, p: Oid)
    requires GroupHandlers(h, groups) && p in reg && p <= req && req <= o && GroupShort(groups(reg[p]), req[|p|..])
    ensures !Answered(reg, h, req, o)
  {
    var s := ShortHasMore(groups(reg[p]), req[|p|..]);
    RightExactly(h, groups, reg[p], AskArg(p, req));
    assert p <= o;
  }

  /** A request in a view that stops inside an array key is not answered with the variable that follows. */
  lemma StoppedMisses(reg: map<Oid, int>, h: Handlers, granted: set<Oid>, req: Oid, o: Oid)
    requires V.Granted(granted, req) && !Answered(reg, h, req, o) && req <= o
    ensures o !in Reachable(reg, h, granted, req)
  {
    var g :| g in granted && g <= req;
    var v := MinimalBelow(granted, g);
    forall w | Minimal(granted, w) ensures !Offers(reg, h, w, req, o) {
      if w <= o { OneView(granted, v, w, o); }
    }
  }

  /** So it is not answered with the least readable variable. */
  lemma StoppedWrong(reg: map<Oid, int>, h: Handlers, groups: int -> Group, granted: set<Oid>, req: Oid, r: Option<Oid>)
    requires GroupHandlers(h, groups) && AnsweredRight(reg, h, granted, req, r)
    requires V.Granted(granted, req) && StopsInside(reg, groups, req)
    ensures !IsNext(Readable(Instances(reg, h.vars), granted), req, r)
  {
    var p :| p in reg && p <= req && GroupShort(groups(reg[p]), req[|p|..]);
    var o := ReadableAfter(reg, h, groups, granted, req, p);
    StoppedNotAnswered(reg, h, groups, req, o, p);
    StoppedMisses(reg, h, granted, req, o);
  }

  /** Over Lua groups, GETNEXT answers with the least readable variable above the request if and only if the
      request does not stop inside an array key, in a view. */
  lemma RequestExactly(reg: map<Oid, int>, h: Handlers, groups: int -> Group, granted: set<Oid>, req: Oid, r: Option<Oid>)
    requires GroupHandlers(h, groups) && Leaves(reg) && PlainViews(reg, h, groups, granted)
    requires AnsweredRight(reg, h, granted, req, r)
    ensures IsNext(Readable(Instances(reg, h.vars), granted), req, r) <==>
            !(V.Granted(granted, req) && StopsInside(reg, groups, req))
  {
    if V.Granted(granted, req) && StopsInside(reg, groups, req) {
      StoppedWrong(reg, h, groups, granted, req, r);
    } else {
      forall o | o in Readable(Instances(reg, h.vars), granted) ensures o in Reachable(reg, h, granted, req) {
        NextReached(reg, h, groups, granted, req, o);
      }
    }
  }

  // ---------------------------------------------------------------------
  // Walks
  // ---------------------------------------------------------------------

  /** The handler answers requests for what follows each of its variables. */
  ghost predicate Resumes(group: Group) {
    KeysApart(group) && (Unsortable(group) ==> forall o, x :: IsVar(group, o) && IsVar(group, x) ==> !Less(o, x))
  }

  lemma ResumesExactly(h: Handlers, groups: int -> Group, c: int)
    requires GroupHandlers(h, groups)
    ensures Resumes(groups(c)) <==> forall s :: s in h.vars(c) ==> Right(h, c, s)
  {
    var group := groups(c);
    ApartExactly(group);
    forall s | s in h.vars(c) ensures Right(h, c, s) <==> !Misses(group, s) {
      RightExactly(h, groups, c, s);
    }
    forall s | IsVar(group, s) && GroupShort(group, s) ensures Misses(group, s) {
      var o := ShortHasMore(group, s);
    }
  }

  /** When no key is a proper prefix of another, walks over Lua groups visit everything that is reachable from
      where they start exactly once, in ascending order, and then stay where they are. */
  lemma WalkOverGroups(reg: map<Oid, int>, h: Handlers, groups: int -> Group, granted: set<Oid>, q: Oid)
    requires GroupHandlers(h, groups) && Leaves(reg) && forall p :: p in reg ==> Resumes(groups(reg[p]))
    ensures Clear(reg, h, granted, q) && Completes(Reachable(reg, h, granted, q), Step(reg, h, granted), q)
  {
    forall p, s | p in reg && s in h.vars(reg[p]) ensures Right(h, reg[p], s) {
      ResumesExactly(h, groups, reg[p]);
    }
    ResumableClear(reg, h, granted, q);
    WalkExactly(reg, h, granted, q);
  }

  // ---------------------------------------------------------------------
  // Groups with array keys
  // ---------------------------------------------------------------------

  /** The address table of the ip group (mibs/ip.lua:26-35, 173-180). */
  const IP_ADDRESSES: Group :=
    [Member(20, Table(1, [1, 3, 4], Keys([Tab([10, 2, 12, 229]), Tab([127, 0, 0, 1])])))]

  lemma IpAddressesOk()
    ensures GroupOk(IP_ADDRESSES) && Resumes(IP_ADDRESSES)
  {
    var m := IP_ADDRESSES[0];
    assert m.kind.indexes.keys[0].ids[0] != m.kind.indexes.keys[1].ids[0];
    assert MemberOk(m) && ApartIn(m) && !MixedKeys(m);
  }

  /** A request that names only the start of an address finds no instance, though addresses follow; walks
      over the table are complete all the same. */
  lemma IpAddressesMissed()
    ensures GroupOk(IP_ADDRESSES) && Misses(IP_ADDRESSES, [20, 1, 1, 10]) && !KeysPlain(IP_ADDRESSES)
    ensures Resumes(IP_ADDRESSES)
  {
    IpAddressesOk();
    AddressCut(IP_ADDRESSES[0], [20, 1, 1, 10]);
    var o := ShortHasMore(IP_ADDRESSES, [20, 1, 1, 10]);
    PlainExactly(IP_ADDRESSES);
  }

  lemma AddressCut(m: Member, q: Oid)
    requires m == IP_ADDRESSES[0] && q == [20, 1, 1, 10]
    ensures MemberShort(m, q)
  {
    assert q[3..] == [10];
    assert Truncates(q[3..], m.kind.indexes.keys[0]);
  }

  /** A table in which one key continues another. */
  const NESTED_KEYS: Group := [Member(1, Table(1, [1], Keys([Tab([1, 2]), Tab([1, 2, 3])])))]

  lemma NestedKeysOk()
    ensures GroupOk(NESTED_KEYS)
  {
    var m := NESTED_KEYS[0];
    assert |m.kind.indexes.keys[0].ids| != |m.kind.indexes.keys[1].ids|;
    assert MemberOk(m);
  }

  /** Even the request for what follows its first variable finds no instance. */
  lemma NestedKeysMissed()
    ensures GroupOk(NESTED_KEYS) && IsVar(NESTED_KEYS, [1, 1, 1, 1, 2]) && Misses(NESTED_KEYS, [1, 1, 1, 1, 2])
    ensures !Resumes(NESTED_KEYS)
  {
    var m, q := NESTED_KEYS[0], [1, 1, 1, 1, 2];
    NestedKeysOk();
    NestedCut(m, q);
    var o := ShortHasMore(NESTED_KEYS, q);
    CellIsVar(NESTED_KEYS, 0, 1, 0);
    assert Cell(m, 1, [1, 2]) == q;
    ApartExactly(NESTED_KEYS);
  }

  lemma NestedCut(m: Member, q: Oid)
    requires m == NESTED_KEYS[0] && q == [1, 1, 1, 1, 2]
    ensures MemberShort(m, q)
  {
    assert q[3..] == [1, 2];
    assert Truncates(q[3..], m.kind.indexes.keys[1]);
  }
}
