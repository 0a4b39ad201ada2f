/** Views, communities and what they were granted (core/mib_view.c:30-225). */
module Views {
  import opened Oids
  import opened ViewLists

  datatype Attr = READ | WRITE

  datatype Community = Community(name: string, ro: seq<ViewId>, rw: seq<ViewId>)

  /** What a community was registered for. */
  datatype Grants = Grants(ro: set<Oid>, rw: set<Oid>)

  datatype ViewOp = Register(oid: Oid, name: string, attr: Attr) | UnregisterRead(name: string)

  ghost function GrantsOf(grants: map<string, Grants>, name: string): Grants {
    if name in grants then grants[name] else Grants({}, {})
  }

  ghost function Apply(grants: map<string, Grants>, op: ViewOp): map<string, Grants> {
    match op
    case Register(oid, name, attr) =>
      var g := GrantsOf(grants, name);
      grants[name := Grants(g.ro + {oid}, if attr == WRITE then g.rw + {oid} else g.rw)]
    case UnregisterRead(name) => grants - {name}
  }

  ghost function Run(ops: seq<ViewOp>): map<string, Grants> {
    if ops == [] then map[] else Apply(Run(ops[..|ops| - 1]), ops[|ops| - 1])
  }

  ghost predicate Granted(granted: set<Oid>, o: Oid) {
    exists g :: g in granted && g <= o
  }

  /** The list is a chain that covers exactly the granted subtrees. */
  ghost predicate ListOk(views: seq<Oid>, list: seq<ViewId>, granted: set<Oid>) {
    && InRange(views, list) && Chain(views, list)
    && forall o :: Covers(views, list, o) <==> Granted(granted, o)
  }

  ghost predicate Distinct(views: seq<Oid>) {
    forall i, j :: 0 <= i < j < |views| ==> views[i] != views[j]
  }

  ghost predicate CommunityOk(views: seq<Oid>, c: Community, g: Grants) {
    ListOk(views, c.ro, g.ro) && ListOk(views, c.rw, g.rw) && g.rw <= g.ro && g.ro != {}
  }

  lemma ListOkExtends(views: seq<Oid>, more: seq<Oid>, list: seq<ViewId>, granted: set<Oid>)
    requires ListOk(views, list, granted)
    ensures ListOk(views + more, list, granted)
  {
    forall o ensures Covers(views + more, list, o) <==> Covers(views, list, o) {
      if Covers(views + more, list, o) {
        var i :| 0 <= i < |list| && (views + more)[list[i]] <= o;
        assert views[list[i]] <= o;
      }
      if Covers(views, list, o) {
        var i :| 0 <= i < |list| && views[list[i]] <= o;
        assert (views + more)[list[i]] <= o;
      }
    }
  }

  /** An already covered subtree changes nothing. */
  lemma BindCovered(views: seq<Oid>, list: seq<ViewId>, granted: set<Oid>, oid: Oid)
    requires ListOk(views, list, granted) && Covers(views, list, oid)
    ensures ListOk(views, list, granted + {oid})
  {
    forall o ensures Granted(granted + {oid}, o) <==> Granted(granted, o) {
      if oid <= o {
        var i :| 0 <= i < |list| && views[list[i]] <= oid;
        assert views[list[i]] <= o;
        assert Covers(views, list, o);
      }
    }
  }

  /** The list without the covered views and with the new one covers one more subtree. */
  lemma BindAdded(views: seq<Oid>, list: seq<ViewId>, granted: set<Oid>, id: ViewId, k: nat)
    requires ListOk(views, list, granted) && id < |views| && !Covers(views, list, views[id])
    requires InRange(views, Uncovered(views, list, views[id])) && k <= |Uncovered(views, list, views[id])|
    requires var kept := Uncovered(views, list, views[id]); var r := kept[..k] + [id] + kept[k..];
      InRange(views, r) && Chain(views, r)
    ensures var kept := Uncovered(views, list, views[id]);
      ListOk(views, kept[..k] + [id] + kept[k..], granted + {views[id]})
  {
    var kept := Uncovered(views, list, views[id]);
    var r := kept[..k] + [id] + kept[k..];
    UncoveredMembers(views, list, views[id]);
    assert forall v :: v in r <==> v == id || v in kept;
    forall o ensures Covers(views, r, o) <==> Granted(granted + {views[id]}, o) {
      AddedCovers(views, list, r, id, o);
      assert Granted(granted + {views[id]}, o) <==> Granted(granted, o) || views[id] <= o;
    }
  }

  lemma AddedCovers(views: seq<Oid>, list: seq<ViewId>, r: seq<ViewId>, id: ViewId, o: Oid)
    requires InRange(views, list) && InRange(views, r) && id < |views|
    requires forall v :: v in r <==> v == id || (v in list && !(views[id] <= views[v]))
    ensures Covers(views, r, o) <==> Covers(views, list, o) || views[id] <= o
  {
    if Covers(views, r, o) {
      var i :| 0 <= i < |r| && views[r[i]] <= o;
      assert r[i] in r;
    }
    if Covers(views, list, o) {
      var i :| 0 <= i < |list| && views[list[i]] <= o;
      if !(views[id] <= views[list[i]]) {
        assert list[i] in r;
      }
    }
    if views[id] <= o {
      assert id in r;
    }
  }

  ghost predicate TableOk(views: seq<Oid>, communities: seq<Community>, grants: map<string, Grants>) {
    && Distinct(views) && AllSmall(views)
    && NamesDiffer(communities)
    && (forall i :: 0 <= i < |communities| ==>
          communities[i].name in grants && CommunityOk(views, communities[i], grants[communities[i].name]))
    && (forall n :: n in grants ==> exists i :: 0 <= i < |communities| && communities[i].name == n)
  }

  lemma CommunityOkExtends(views: seq<Oid>, more: seq<Oid>, c: Community, g: Grants)
    requires CommunityOk(views, c, g)
    ensures CommunityOk(views + more, c, g)
  {
    ListOkExtends(views, more, c.ro, g.ro);
    ListOkExtends(views, more, c.rw, g.rw);
  }

  lemma TableExtends(views: seq<Oid>, more: seq<Oid>, communities: seq<Community>, grants: map<string, Grants>)
    requires TableOk(views, communities, grants) && Distinct(views + more) && AllSmall(views + more)
    ensures TableOk(views + more, communities, grants)
  {
    forall i | 0 <= i < |communities| ensures CommunityOk(views + more, communities[i], grants[communities[i].name]) {
      CommunityOkExtends(views, more, communities[i], grants[communities[i].name]);
    }
  }

  /** A new community goes to the front of the list. */
  lemma TablePrepended(views: seq<Oid>, communities: seq<Community>, grants: map<string, Grants>, c: Community, g: Grants)
    requires TableOk(views, communities, grants) && CommunityOk(views, c, g) && c.name !in grants
    ensures TableOk(views, [c] + communities, grants[c.name := g])
  {
    var communities', grants' := [c] + communities, grants[c.name := g];
    forall n | n in grants' ensures exists i :: 0 <= i < |communities'| && communities'[i].name == n {
      if n == c.name {
        assert communities'[0].name == n;
      } else {
        var i :| 0 <= i < |communities| && communities[i].name == n;
        assert communities'[i + 1].name == n;
      }
    }
  }

  /** A known community is updated in place. */
  lemma TableReplaced(views: seq<Oid>, communities: seq<Community>, grants: map<string, Grants>, k: nat, c: Community, g: Grants)
    requires TableOk(views, communities, grants) && CommunityOk(views, c, g)
    requires k < |communities| && c.name == communities[k].name
    ensures TableOk(views, communities[k := c], grants[c.name := g])
  {
    var communities', grants' := communities[k := c], grants[c.name := g];
    forall n | n in grants' ensures exists i :: 0 <= i < |communities'| && communities'[i].name == n {
      var i :| 0 <= i < |communities| && communities[i].name == n;
      assert communities'[i].name == n;
    }
  }

  ghost predicate NamesDiffer(communities: seq<Community>) {
    forall i, j :: 0 <= i < j < |communities| ==> communities[i].name != communities[j].name
  }

  lemma NamesDifferRemoved(communities: seq<Community>, k: nat)
    requires k < |communities| && NamesDiffer(communities)
    ensures NamesDiffer(communities[..k] + communities[k + 1..])
  {
  }

  lemma StillThere(communities: seq<Community>, k: nat, i: nat)
    requires k < |communities| && i < |communities| && i != k
    ensures (communities[..k] + communities[k + 1..])[if i < k then i else i - 1] == communities[i]
  {
  }

  /** A community taken out of the list. */
  lemma TableRemoved(views: seq<Oid>, communities: seq<Community>, grants: map<string, Grants>, k: nat)
    requires TableOk(views, communities, grants) && k < |communities|
    ensures TableOk(views, communities[..k] + communities[k + 1..], grants - {communities[k].name})
  {
    var communities', grants' := communities[..k] + communities[k + 1..], grants - {communities[k].name};
    NamesDifferRemoved(communities, k);
    forall i | 0 <= i < |communities'|
      ensures communities'[i].name in grants' && CommunityOk(views, communities'[i], grants'[communities'[i].name])
    {
      RemovedAt(communities, k, i);
    }
    forall n | n in grants' ensures exists i :: 0 <= i < |communities'| && communities'[i].name == n {
      var i :| 0 <= i < |communities| && communities[i].name == n;
      StillThere(communities, k, i);
    }
  }

  lemma RemovedAt(communities: seq<Community>, k: nat, i: nat)
    requires k < |communities| && i < |communities| - 1 && NamesDiffer(communities)
    ensures (communities[..k] + communities[k + 1..])[i] == communities[if i < k then i else i + 1]
    ensures (communities[..k] + communities[k + 1..])[i].name != communities[k].name
  {
  }

  lemma NoneNamed(views: seq<Oid>, communities: seq<Community>, grants: map<string, Grants>, name: string)
    requires TableOk(views, communities, grants) && forall j :: 0 <= j < |communities| ==> communities[j].name != name
    ensures name !in grants
  {
  }

  // ---------------------------------------------------------------------
  // What the stored lists allow
  // ---------------------------------------------------------------------

  ghost predicate Known(communities: seq<Community>, name: string) {
    exists i :: 0 <= i < |communities| && communities[i].name == name
  }

  /** A view in the read list of the community covers the identifier; */
  ghost predicate CanRead(views: seq<Oid>, communities: seq<Community>, name: string, o: Oid) {
    exists i :: 0 <= i < |communities| && communities[i].name == name && InRange(views, communities[i].ro) && Covers(views, communities[i].ro, o)
  }

  /** one in the write list does. */
  ghost predicate CanWrite(views: seq<Oid>, communities: seq<Community>, name: string, o: Oid) {
    exists i :: 0 <= i < |communities| && communities[i].name == name && InRange(views, communities[i].rw) && Covers(views, communities[i].rw, o)
  }

  lemma ListsAgree(views: seq<Oid>, communities: seq<Community>, grants: map<string, Grants>, name: string, o: Oid)
    requires TableOk(views, communities, grants)
    ensures Known(communities, name) <==> name in grants
    ensures CanRead(views, communities, name, o) <==> Granted(GrantsOf(grants, name).ro, o)
    ensures CanWrite(views, communities, name, o) <==> Granted(GrantsOf(grants, name).rw, o)
  {
    if name in grants {
      var i :| 0 <= i < |communities| && communities[i].name == name;
      assert CommunityOk(views, communities[i], grants[name]);
      forall j | 0 <= j < |communities| && communities[j].name == name ensures j == i {
      }
    }
  }

  /** The table after a registration, against the table before. */
  ghost predicate RegisteredIn(views: seq<Oid>, communities: seq<Community>, views': seq<Oid>, communities': seq<Community>,
                               oid: Oid, name: string, attr: Attr) {
    && Known(communities', name)
    && (forall o :: CanRead(views', communities', name, o) <==> CanRead(views, communities, name, o) || oid <= o)
    && (forall o :: CanWrite(views', communities', name, o) <==> CanWrite(views, communities, name, o) || (attr == WRITE && oid <= o))
    && OthersKept(views, communities, views', communities', name)
  }

  /** All other communities are as they were. */
  ghost predicate OthersKept(views: seq<Oid>, communities: seq<Community>, views': seq<Oid>, communities': seq<Community>, name: string) {
    forall n, o :: n != name ==> SameFor(views, communities, views', communities', n, o)
  }

  ghost predicate SameFor(views: seq<Oid>, communities: seq<Community>, views': seq<Oid>, communities': seq<Community>, n: string, o: Oid) {
    && (Known(communities', n) <==> Known(communities, n))
    && (CanRead(views', communities', n, o) <==> CanRead(views, communities, n, o))
    && (CanWrite(views', communities', n, o) <==> CanWrite(views, communities, n, o))
  }

  lemma RegistrationIs(views: seq<Oid>, communities: seq<Community>, grants: map<string, Grants>,
                       views': seq<Oid>, communities': seq<Community>, oid: Oid, name: string, attr: Attr)
    requires TableOk(views, communities, grants)
    requires TableOk(views', communities', Apply(grants, Register(oid, name, attr)))
    ensures RegisteredIn(views, communities, views', communities', oid, name, attr)
  {
    var g, grants' := GrantsOf(grants, name), Apply(grants, Register(oid, name, attr));
    forall o
      ensures Known(communities', name)
      ensures CanRead(views', communities', name, o) <==> CanRead(views, communities, name, o) || oid <= o
      ensures CanWrite(views', communities', name, o) <==> CanWrite(views, communities, name, o) || (attr == WRITE && oid <= o)
    {
      ListsAgree(views, communities, grants, name, o);
      ListsAgree(views', communities', grants', name, o);
      GrantedMore(g.ro, oid, o);
      GrantedMore(g.rw, oid, o);
    }
    forall n, o | n != name ensures SameFor(views, communities, views', communities', n, o) {
      ListsAgree(views, communities, grants, n, o);
      ListsAgree(views', communities', grants', n, o);
    }
    ListsAgree(views', communities', grants', name, []);
  }

  lemma GrantedMore(granted: set<Oid>, oid: Oid, o: Oid)
    ensures Granted(granted + {oid}, o) <==> Granted(granted, o) || oid <= o
  {
  }

  lemma RemovalIs(views: seq<Oid>, communities: seq<Community>, grants: map<string, Grants>,
                  views': seq<Oid>, communities': seq<Community>, name: string)
    requires TableOk(views, communities, grants) && TableOk(views', communities', grants - {name})
    ensures !Known(communities', name) && OthersKept(views, communities, views', communities', name)
  {
    ListsAgree(views', communities', grants - {name}, name, []);
    forall n, o | n != name ensures SameFor(views, communities, views', communities', n, o) {
      ListsAgree(views, communities, grants, n, o);
      ListsAgree(views', communities', grants - {name}, n, o);
    }
  }

  // ---------------------------------------------------------------------
  // What a run of registrations allows
  // ---------------------------------------------------------------------

  /** The community is not unregistered from operation `i` on. */
  ghost predicate Kept(ops: seq<ViewOp>, i: nat, name: string) {
    forall j :: i <= j < |ops| ==> ops[j] != UnregisterRead(name)
  }

  /** Operation `i` registers the subtree for the community, which is not unregistered later. */
  ghost predicate Stands(ops: seq<ViewOp>, i: nat, name: string, g: Oid) {
    i < |ops| && ops[i].Register? && ops[i].name == name && ops[i].oid == g && Kept(ops, i, name)
  }

  /** What was registered for reading, or for writing only, and not unregistered later. */
  ghost predicate GrantedBy(ops: seq<ViewOp>, name: string, g: Oid, writing: bool) {
    exists i :: 0 <= i < |ops| && Stands(ops, i, name, g) && (writing ==> ops[i].attr == WRITE)
  }

  lemma GrantedByNext(ops: seq<ViewOp>, op: ViewOp, name: string, g: Oid, writing: bool)
    ensures GrantedBy(ops + [op], name, g, writing) <==>
      match op
      case Register(oid, n, attr) => GrantedBy(ops, name, g, writing) || (n == name && oid == g && (writing ==> attr == WRITE))
      case UnregisterRead(n) => n != name && GrantedBy(ops, name, g, writing)
  {
    var all := ops + [op];
    if GrantedBy(ops, name, g, writing) && op != UnregisterRead(name) {
      var i :| 0 <= i < |ops| && Stands(ops, i, name, g) && (writing ==> ops[i].attr == WRITE);
      assert Stands(all, i, name, g);
    }
    if GrantedBy(all, name, g, writing) {
      var i :| 0 <= i < |all| && Stands(all, i, name, g) && (writing ==> all[i].attr == WRITE);
      assert all[|ops|] == op;
      if i < |ops| {
        forall j | i <= j < |ops| ensures ops[j] != UnregisterRead(name) { assert all[j] == ops[j]; }
        assert Stands(ops, i, name, g);
      }
    }
    if op.Register? && op.name == name && op.oid == g && (writing ==> op.attr == WRITE) {
      assert Stands(all, |ops|, name, g);
    }
  }

  /** The grants of a run are what it registered and did not unregister later. */
  lemma {:induction false} RunGrants(ops: seq<ViewOp>, name: string, g: Oid)
    ensures g in GrantsOf(Run(ops), name).ro <==> GrantedBy(ops, name, g, false)
    ensures g in GrantsOf(Run(ops), name).rw <==> GrantedBy(ops, name, g, true)
  {
    if ops != [] {
      var front, op := ops[..|ops| - 1], ops[|ops| - 1];
      assert ops == front + [op];
      RunGrants(front, name, g);
      GrantedByNext(front, op, name, g, false);
      GrantedByNext(front, op, name, g, true);
    }
  }

  class ViewTable {
    /** All views ever created, oldest first. */
    var views: seq<Oid>
    /** The communities, newest first. */
    var communities: seq<Community>
    ghost var grants: map<string, Grants>

    ghost predicate Valid()
      reads this
    {
      TableOk(views, communities, grants)
    }

    constructor ()
      ensures Valid() && grants == map[]
    {
      views, communities, grants := [], [], map[];
    }

    /** mib_view_search, from the newest view on. */
    method ViewSearch(oid: Oid) returns (r: Option<ViewId>)
      ensures r.Some? ==> r.value < |views| && views[r.value] == oid
      ensures r.None? ==> oid !in views
    {
      var i := |views|;
      while i > 0
        invariant 0 <= i <= |views| && oid !in views[i..]
      {
        i := i - 1;
        var cmp := OidCmp(views[i], oid);
        CmpOrders(views[i], oid);
        if cmp == 0 {
          return Some(i);
        }
      }
      r := None;
    }

    /** view_create: interns the identifier. */
    method ViewCreate(oid: Oid) returns (id: ViewId, ghost more: seq<Oid>)
      requires Distinct(views) && AllSmall(views) && Small(oid)
      modifies `views
      ensures views == old(views) + more && Distinct(views) && AllSmall(views)
      ensures id < |views| && views[id] == oid
    {
      var v := ViewSearch(oid);
      if v.None? {
        id, more := |views|, [oid];
        views := views + [oid];
      } else {
        id, more := v.value, [];
      }
    }

    /** community_view_bind on one of the two lists. */
    method Bind(list: seq<ViewId>, oid: Oid, ghost granted: set<Oid>) returns (r: seq<ViewId>, ghost more: seq<Oid>)
      requires Distinct(views) && AllSmall(views) && Small(oid) && ListOk(views, list, granted)
      modifies `views
      ensures views == old(views) + more && Distinct(views) && AllSmall(views)
      ensures ListOk(views, r, granted + {oid})
    {
      var filtered;
      filtered, r := Filter(views, list, oid);
      more := [];
      if filtered {
        BindCovered(views, list, granted, oid);
      } else {
        UncoveredChain(views, list, oid);
        var id;
        id, more := ViewCreate(oid);
        Rebase(old(views), more, list, granted, oid);
        ApartFromKept(views, list, id);
        var kept := r;
        r := Add(views, kept, id);
        ghost var k :| 0 <= k <= |kept| && r == kept[..k] + [id] + kept[k..];
        BindAdded(views, list, granted, id, k);
      }
    }

    /** mib_community_search: position of the community, or -1. */
    method CommunitySearch(name: string) returns (r: int)
      requires Valid()
      ensures -1 <= r < |communities|
      ensures r >= 0 ==> communities[r].name == name
      ensures r >= 0 <==> name in grants
    {
      for i := 0 to |communities|
        invariant forall j :: 0 <= j < i ==> communities[j].name != name
      {
        if communities[i].name == name {
          return i;
        }
      }
      r := -1;
    }

    /** The two bindings of mib_community_reg: the write list when asked for, then the read list. */
    method BindBoth(c: Community, oid: Oid, attr: Attr, ghost g: Grants) returns (ro: seq<ViewId>, rw: seq<ViewId>, ghost more: seq<Oid>)
      requires Distinct(views) && AllSmall(views) && Small(oid) && ListOk(views, c.ro, g.ro) && ListOk(views, c.rw, g.rw)
      modifies `views
      ensures views == old(views) + more && Distinct(views) && AllSmall(views)
      ensures ListOk(views, ro, g.ro + {oid}) && ListOk(views, rw, if attr == WRITE then g.rw + {oid} else g.rw)
    {
      rw := c.rw;
      ghost var more1 := [];
      if attr == WRITE {
        rw, more1 := Bind(rw, oid, g.rw);
      }
      assert views == old(views) + more1;
      ListOkExtends(old(views), more1, c.ro, g.ro);
      ghost var views1 := views;
      ghost var more2;
      ro, more2 := Bind(c.ro, oid, g.ro);
      ListOkExtends(views1, more2, rw, if attr == WRITE then g.rw + {oid} else g.rw);
      more := more1 + more2;
      assert views == old(views) + more;
    }

    /** mib_community_reg. */
    method CommunityReg(oid: Oid, name: string, attr: Attr)
      requires Valid() && Small(oid)
      modifies this
      ensures Valid() && grants == Apply(old(grants), Register(oid, name, attr))
      ensures RegisteredIn(old(views), old(communities), views, communities, oid, name, attr)
    {
      var k := CommunitySearch(name);
      var c := if k >= 0 then communities[k] else Community(name, [], []);
      ghost var g := GrantsOf(grants, name);
      ghost var g' := Grants(g.ro + {oid}, if attr == WRITE then g.rw + {oid} else g.rw);
      var ro, rw;
      ghost var more;
      ro, rw, more := BindBoth(c, oid, attr, g);
      TableExtends(old(views), more, communities, grants);
      c := Community(name, ro, rw);
      if k >= 0 {
        TableReplaced(views, communities, grants, k, c, g');
        communities := communities[k := c];
      } else {
        TablePrepended(views, communities, grants, c, g');
        communities := [c] + communities;
      }
      grants := grants[name := g'];
      RegistrationIs(old(views), old(communities), old(grants), views, communities, oid, name, attr);
    }

    /** mib_community_unreg with the READ attribute: both lists are emptied, so the community goes. */
    method CommunityUnregRead(name: string)
      requires Valid()
      modifies this
      ensures Valid() && grants == Apply(old(grants), UnregisterRead(name))
      ensures !Known(communities, name) && OthersKept(old(views), old(communities), views, communities, name)
    {
      var i := 0;
      while i < |communities|
        invariant 0 <= i <= |communities| && Valid()
        invariant grants == old(grants) || grants == old(grants) - {name}
        invariant forall j :: 0 <= j < i ==> communities[j].name != name
        decreases |communities| - i
      {
        if communities[i].name == name {
          TableRemoved(views, communities, grants, i);
          communities := communities[..i] + communities[i + 1..];
          grants := grants - {name};
        } else {
          i := i + 1;
        }
      }
      NoneNamed(views, communities, grants, name);
      assert grants == old(grants) - {name};
      RemovalIs(old(views), old(communities), old(grants), views, communities, name);
    }

    /** A whole run of registrations and unregistrations on an empty table. */
    method Replay(ops: seq<ViewOp>)
      requires Valid() && grants == map[]
      requires forall k :: 0 <= k < |ops| && ops[k].Register? ==> Small(ops[k].oid)
      modifies this
      ensures Valid() && grants == Run(ops)
      ensures forall n, o :: CanRead(views, communities, n, o) <==> exists g :: g <= o && GrantedBy(ops, n, g, false)
      ensures forall n, o :: CanWrite(views, communities, n, o) <==> exists g :: g <= o && GrantedBy(ops, n, g, true)
    {
      for k := 0 to |ops|
        invariant Valid() && grants == Run(ops[..k])
      {
        assert ops[..k + 1][..k] == ops[..k];
        match ops[k]
        case Register(oid, name, attr) => CommunityReg(oid, name, attr);
        case UnregisterRead(name) => CommunityUnregRead(name);
      }
      assert ops[..|ops|] == ops;
      forall n, o
        ensures CanRead(views, communities, n, o) <==> exists g :: g <= o && GrantedBy(ops, n, g, false)
        ensures CanWrite(views, communities, n, o) <==> exists g :: g <= o && GrantedBy(ops, n, g, true)
      {
        RunAllows(views, communities, ops, n, o);
      }
    }
  }

  /** After a run, an identifier can be read or written exactly below what was registered for that. */
  lemma RunAllows(views: seq<Oid>, communities: seq<Community>, ops: seq<ViewOp>, name: string, o: Oid)
    requires TableOk(views, communities, Run(ops))
    ensures CanRead(views, communities, name, o) <==> exists g :: g <= o && GrantedBy(ops, name, g, false)
    ensures CanWrite(views, communities, name, o) <==> exists g :: g <= o && GrantedBy(ops, name, g, true)
  {
    ListsAgree(views, communities, Run(ops), name, o);
    forall g
      ensures g in GrantsOf(Run(ops), name).ro <==> GrantedBy(ops, name, g, false)
      ensures g in GrantsOf(Run(ops), name).rw <==> GrantedBy(ops, name, g, true)
    {
      RunGrants(ops, name, g);
    }
  }

  /** The list and its filtered form are the same after interning a view. */
  lemma Rebase(views: seq<Oid>, more: seq<Oid>, list: seq<ViewId>, granted: set<Oid>, oid: Oid)
    requires ListOk(views, list, granted) && !Covers(views, list, oid)
    ensures ListOk(views + more, list, granted) && !Covers(views + more, list, oid)
    ensures Uncovered(views + more, list, oid) == Uncovered(views, list, oid)
    ensures InRange(views + more, Uncovered(views, list, oid)) && Chain(views + more, Uncovered(views, list, oid))
  {
    ListOkExtends(views, more, list, granted);
    assert Granted(granted, oid) <==> Covers(views, list, oid);
    UncoveredExtends(views, more, list, oid);
    UncoveredChain(views + more, list, oid);
  }

  lemma {:induction false} UncoveredExtends(views: seq<Oid>, more: seq<Oid>, list: seq<ViewId>, oid: Oid)
    requires InRange(views, list)
    ensures Uncovered(views + more, list, oid) == Uncovered(views, list, oid)
  {
    if list != [] {
      assert (views + more)[list[0]] == views[list[0]];
      UncoveredExtends(views, more, list[1..], oid);
    }
  }

  lemma ApartFromKept(views: seq<Oid>, list: seq<ViewId>, id: ViewId)
    requires InRange(views, list) && id < |views| && !Covers(views, list, views[id])
    ensures InRange(views, Uncovered(views, list, views[id])) && Apart(views, Uncovered(views, list, views[id]), id)
  {
    var kept := Uncovered(views, list, views[id]);
    UncoveredMembers(views, list, views[id]);
    forall i | 0 <= i < |kept| ensures !(views[kept[i]] <= views[id]) && !(views[id] <= views[kept[i]]) {
      assert kept[i] in kept;
    }
  }

  /** What may be written may be read. */
  lemma WriteWithinRead(views: seq<Oid>, c: Community, g: Grants, o: Oid)
    requires CommunityOk(views, c, g) && Covers(views, c.rw, o)
    ensures Covers(views, c.ro, o)
  {
    assert Granted(g.rw, o);
    assert Granted(g.ro, o);
  }

  // ---------------------------------------------------------------------
  // The loop of mib_community_unreg with either attribute
  // ---------------------------------------------------------------------

  datatype UnregState = UnregState(communities: seq<Community>, i: nat)

  /** One turn: a match is emptied and, if nothing is left of it, unlinked; the loop moves on only past non-matches. */
  function UnregTurn(s: UnregState, name: string, attr: Attr): UnregState
    requires s.i < |s.communities|
  {
    var c := s.communities[s.i];
    if c.name != name then s.(i := s.i + 1)
    else
      var ro := if attr == READ then [] else c.ro;
      if ro == [] then s.(communities := s.communities[..s.i] + s.communities[s.i + 1..])
      else s.(communities := s.communities[s.i := Community(c.name, ro, [])])
  }

  function UnregAfter(s: UnregState, name: string, attr: Attr, turns: nat): UnregState
    decreases turns
  {
    if turns == 0 || s.i >= |s.communities| then s else UnregAfter(UnregTurn(s, name, attr), name, attr, turns - 1)
  }

  ghost predicate UnregReturns(communities: seq<Community>, name: string, attr: Attr) {
    exists turns :: var s := UnregAfter(UnregState(communities, 0), name, attr, turns); s.i >= |s.communities|
  }

  /** A match with read views lies ahead. */
  ghost predicate Blocked(s: UnregState, name: string) {
    exists j :: s.i <= j < |s.communities| && s.communities[j].name == name && s.communities[j].ro != []
  }

  lemma {:induction false} BlockedForever(s: UnregState, name: string, turns: nat)
    requires Blocked(s, name)
    ensures Blocked(UnregAfter(s, name, WRITE, turns), name)
    decreases turns
  {
    if turns > 0 {
      var s' := UnregTurn(s, name, WRITE);
      var j :| s.i <= j < |s.communities| && s.communities[j].name == name && s.communities[j].ro != [];
      assert s'.communities[if |s'.communities| < |s.communities| then j - 1 else j].name == name;
      BlockedForever(s', name, turns - 1);
    }
  }

  lemma BlockedBefore(s: UnregState, name: string, attr: Attr)
    requires s.i < |s.communities|
    ensures Blocked(UnregTurn(s, name, attr), name) ==> Blocked(s, name)
  {
    var s' := UnregTurn(s, name, attr);
    if Blocked(s', name) {
      var j :| s'.i <= j < |s'.communities| && s'.communities[j].name == name && s'.communities[j].ro != [];
      var k := if |s'.communities| < |s.communities| then j + 1 else j;
      assert s.communities[k].name == name && s.communities[k].ro != [];
    }
  }

  lemma {:induction false} UnblockedReturns(s: UnregState, name: string, attr: Attr)
    requires attr == READ || !Blocked(s, name)
    requires s.i <= |s.communities|
    ensures var e := UnregAfter(s, name, attr, |s.communities| - s.i); e.i >= |e.communities|
    decreases |s.communities| - s.i
  {
    if s.i < |s.communities| {
      var s' := UnregTurn(s, name, attr);
      BlockedBefore(s, name, attr);
      UnblockedReturns(s', name, attr);
    }
  }

  /** Unregistering returns exactly when it is for READ or no community of that name has a read view. */
  lemma UnregReturnsExactly(communities: seq<Community>, name: string, attr: Attr)
    ensures UnregReturns(communities, name, attr) <==>
      attr == READ || forall j :: 0 <= j < |communities| && communities[j].name == name ==> communities[j].ro == []
  {
    var s := UnregState(communities, 0);
    if attr == READ || !Blocked(s, name) {
      UnblockedReturns(s, name, attr);
    } else {
      forall turns ensures UnregAfter(s, name, attr, turns).i < |UnregAfter(s, name, attr, turns).communities| {
        BlockedForever(s, name, turns);
      }
    }
  }

  /** In any table that registrations can produce, unregistering a known community for WRITE never returns. */
  lemma WriteUnregHangs(views: seq<Oid>, communities: seq<Community>, grants: map<string, Grants>, name: string)
    requires TableOk(views, communities, grants)
    ensures UnregReturns(communities, name, WRITE) <==> name !in grants
  {
    UnregReturnsExactly(communities, name, WRITE);
    forall j | 0 <= j < |communities| ensures communities[j].ro != [] {
      var g := grants[communities[j].name];
      var o :| o in g.ro;
      assert Granted(g.ro, o);
      assert Covers(views, communities[j].ro, o);
    }
  }
}
