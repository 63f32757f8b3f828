/** Records of different connections may arrive in either order: the verdict and the selected objects do
    not change, and the generations of the selected objects only follow the records that made them. */
module ServerSurfaceSwap {
  import opened Options
  import opened ServerSurface

  function Ren(i: nat, g: nat): nat { if g == i then i + 1 else if g == i + 1 then i else g }

  function RenOption(i: nat, g: Option<nat>): Option<nat> { if g.None? then None else Some(Ren(i, g.value)) }

  function RenRole(i: nat, r: Role): Role {
    r.(surfaceGen := Ren(i, r.surfaceGen), xdgGen := RenOption(i, r.xdgGen),
       toplevelGen := RenOption(i, r.toplevelGen), requestIndex := Ren(i, r.requestIndex))
  }

  function RenResources(i: nat, m: map<(Interface, int), nat>): map<(Interface, int), nat> {
    map k | k in m :: Ren(i, m[k])
  }

  function RenRoles(i: nat, m: map<int, Role>): map<int, Role> { map x | x in m :: RenRole(i, m[x]) }

  function RenConn(i: nat, conn: Conn): Conn {
    conn.(resources := RenResources(i, conn.resources), roles := RenRoles(i, conn.roles))
  }

  function RenIdentity(i: nat, id: Identity): Identity { id.(role := RenRole(i, id.role)) }

  function RenState(i: nat, s: State): State {
    s.(conns := map c | c in s.conns :: RenConn(i, s.conns[c]),
       activations := seq(|s.activations|, j requires 0 <= j < |s.activations| => RenIdentity(i, s.activations[j])))
  }

  /** What one connection step returns, renamed. */
  function RenNext(i: nat, o: Option<(Conn, Option<Role>)>): Option<(Conn, Option<Role>)> {
    if o.None? then None
    else Some((RenConn(i, o.value.0), if o.value.1.None? then None else Some(RenRole(i, o.value.1.value))))
  }

  function RenRun(i: nat, o: Option<State>): Option<State> { if o.None? then None else Some(RenState(i, o.value)) }

  function RenSelect(i: nat, o: Option<Selection>): Option<Selection> {
    if o.None? then None else Some(o.value.(role := RenRole(i, o.value.role)))
  }

  // ----- steps do not look inside a generation -----

  lemma LiveRoleRenamed(i: nat, conn: Conn, r: Role)
    ensures LiveRole(RenConn(i, conn), RenRole(i, r)) == LiveRole(conn, r)
  {
  }

  lemma LiveOnRenamed(i: nat, conn: Conn, s: int)
    ensures LiveOn(RenConn(i, conn), s) == LiveOn(conn, s)
  {
    forall x | x in conn.roles ensures x in LiveOn(RenConn(i, conn), s) <==> x in LiveOn(conn, s) {
      LiveRoleRenamed(i, conn, conn.roles[x]);
    }
  }

  lemma AwaitingRenamed(i: nat, roles: map<int, Role>, o: int)
    ensures Awaiting(RenRoles(i, roles), o) == Awaiting(roles, o)
  {
    forall x ensures x in Awaiting(RenRoles(i, roles), o) <==> x in Awaiting(roles, o) {
      if x in roles { assert RenRoles(i, roles)[x] == RenRole(i, roles[x]); }
    }
  }

  lemma CreatedRenamed(i: nat, conn: Conn, index: nat, iface: Interface, o: int)
    ensures Created(RenConn(i, conn), Ren(i, index), iface, o) == RenNext(i, Created(conn, index, iface, o))
  {
    var conn' := RenConn(i, conn);
    AwaitingRenamed(i, conn.roles, o);
    assert RenResources(i, conn.resources[(iface, o) := index]) == conn'.resources[(iface, o) := Ren(i, index)];
    if o in conn.roles {
      UpdateRenamed(i, conn.roles, o, conn.roles[o].(xdgGen := Some(index)));
    }
    if |Awaiting(conn.roles, o)| == 1 {
      var x := Only(Awaiting(conn.roles, o));
      UpdateRenamed(i, conn.roles, x, conn.roles[x].(toplevelGen := Some(index)));
    }
  }

  lemma UpdateRenamed(i: nat, roles: map<int, Role>, x: int, r: Role)
    ensures RenRoles(i, roles[x := r]) == RenRoles(i, roles)[x := RenRole(i, r)]
  {
  }

  lemma StepConnRenamed(cfg: Config, i: nat, conn: Conn, index: nat, row: Row)
    requires !row.Malformed? && !row.Ready? && !row.Fault? && !row.Connection?
    ensures StepConn(cfg, RenConn(i, conn), Ren(i, index), row) == RenNext(i, StepConn(cfg, conn, index, row))
  {
    match row
    case ResourceLive(_, iface, o) => CreatedRenamed(i, conn, index, iface, o);
    case ResourceDestroy(_, iface, o) =>
      assert RenResources(i, conn.resources - {(iface, o)}) == RenResources(i, conn.resources) - {(iface, o)};
    case XdgSurfaceRequest(_, x, s) =>
      if (WlSurface, s) in conn.resources {
        UpdateRenamed(i, conn.roles, x, Role(s, conn.resources[(WlSurface, s)], x, None, None, None, index));
      }
    case ToplevelRequest(_, x, v) =>
      if x in conn.roles { UpdateRenamed(i, conn.roles, x, conn.roles[x].(toplevel := Some(v))); }
    case Activate(_, s, _) => LiveOnRenamed(i, conn, s);
    case _ =>
  }

  lemma CommitRenamed(i: nat, s: State, c: int, creates: bool, next: Option<(Conn, Option<Role>)>)
    requires c in s.conns
    ensures Commit(RenState(i, s), c, creates, RenNext(i, next)) == RenRun(i, Commit(s, c, creates, next))
  {
    if Commit(s, c, creates, next).Some? {
      var s1, s2 := Commit(RenState(i, s), c, creates, RenNext(i, next)).value,
          RenState(i, Commit(s, c, creates, next).value);
      assert s1.conns == s2.conns;
      assert s1.activations == s2.activations;
    }
  }

  lemma AnnounceRenamed(cfg: Config, i: nat, s: State, row: Row)
    requires row.Connection?
    ensures Announce(cfg, RenState(i, s), row) == RenRun(i, Announce(cfg, s, row))
  {
    assert RenState(i, s).conns.Keys == s.conns.Keys;
    if Announce(cfg, s, row).Some? {
      var s1, s2 := Announce(cfg, RenState(i, s), row).value, RenState(i, Announce(cfg, s, row).value);
      var newcomer := Conn(Peer(row.pid, row.birth, row.pidfd, true), map[], map[]);
      assert RenConn(i, newcomer) == newcomer;
      assert s1.conns == s2.conns;
    }
  }

  lemma StepRenamed(cfg: Config, i: nat, s: State, index: nat, row: Row)
    requires !row.Ready?
    ensures Step(cfg, RenState(i, s), Ren(i, index), row) == RenRun(i, Step(cfg, s, index, row))
  {
    if IntegersOk(row) {
      if row.Connection? {
        AnnounceRenamed(cfg, i, s, row);
      } else if row.connection in s.conns {
        StepConnRenamed(cfg, i, s.conns[row.connection], index, row);
        CommitRenamed(i, s, row.connection, row.ResourceLive?, StepConn(cfg, s.conns[row.connection], index, row));
      }
    }
  }

  // ----- a run only holds generations below its length -----

  ghost predicate Below(n: nat, g: Option<nat>) { g.None? || g.value < n }

  ghost predicate RoleBelow(n: nat, r: Role) {
    r.surfaceGen < n && Below(n, r.xdgGen) && Below(n, r.toplevelGen) && r.requestIndex < n
  }

  ghost predicate ConnBelow(n: nat, conn: Conn) {
    && (forall k :: k in conn.resources ==> conn.resources[k] < n)
    && (forall x :: x in conn.roles ==> RoleBelow(n, conn.roles[x]))
  }

  ghost predicate StateBelow(n: nat, s: State) {
    && (forall c :: c in s.conns ==> ConnBelow(n, s.conns[c]))
    && (forall j :: 0 <= j < |s.activations| ==> RoleBelow(n, s.activations[j].role))
  }

  lemma CreatedBelow(conn: Conn, n: nat, m: nat, iface: Interface, o: int)
    requires ConnBelow(n, conn) && m == n + 1 && Created(conn, n, iface, o).Some?
    ensures ConnBelow(m, Created(conn, n, iface, o).value.0) && Created(conn, n, iface, o).value.1.None?
  {
    assert forall x :: x in conn.roles ==> RoleBelow(m, conn.roles[x]);
  }

  lemma StepConnBelow(cfg: Config, conn: Conn, n: nat, m: nat, row: Row)
    requires !row.Malformed? && !row.Ready? && !row.Fault? && !row.Connection?
    requires ConnBelow(n, conn) && m == n + 1 && StepConn(cfg, conn, n, row).Some?
    ensures ConnBelow(m, StepConn(cfg, conn, n, row).value.0)
    ensures StepConn(cfg, conn, n, row).value.1.Some? ==> RoleBelow(m, StepConn(cfg, conn, n, row).value.1.value)
  {
    assert forall x :: x in conn.roles ==> RoleBelow(m, conn.roles[x]);
    if row.ResourceLive? {
      if StepConn(cfg, conn, n, row) == Created(conn, n, row.iface, row.obj) {
        CreatedBelow(conn, n, m, row.iface, row.obj);
      }
    }
  }

  lemma StepBelow(cfg: Config, s: State, n: nat, m: nat, row: Row)
    requires StateBelow(n, s) && m == n + 1 && Step(cfg, s, n, row).Some?
    ensures StateBelow(m, Step(cfg, s, n, row).value)
  {
    forall c | c in s.conns ensures ConnBelow(m, s.conns[c]) { assert ConnBelow(n, s.conns[c]); }
    assert forall j :: 0 <= j < |s.activations| ==> RoleBelow(m, s.activations[j].role);
    if !row.Ready? && !row.Connection? {
      StepConnBelow(cfg, s.conns[row.connection], n, m, row);
    }
  }

  lemma {:induction false} RunBelow(cfg: Config, t: seq<Row>, n: nat)
    requires n <= |t| && Run(cfg, t, n).Some?
    ensures StateBelow(n, Run(cfg, t, n).value)
  {
    if n > 0 {
      RunBelow(cfg, t, n - 1);
      StepBelow(cfg, Run(cfg, t, n - 1).value, n - 1, n, t[n - 1]);
    }
  }

  lemma BelowFixed(i: nat, s: State)
    requires StateBelow(i, s)
    ensures RenState(i, s) == s
  {
    forall c | c in s.conns ensures RenConn(i, s.conns[c]) == s.conns[c] {
      assert ConnBelow(i, s.conns[c]);
      assert RenResources(i, s.conns[c].resources) == s.conns[c].resources;
      forall x | x in s.conns[c].roles ensures RenRole(i, s.conns[c].roles[x]) == s.conns[c].roles[x] {
        assert RoleBelow(i, s.conns[c].roles[x]);
      }
      assert RenRoles(i, s.conns[c].roles) == s.conns[c].roles;
    }
  }

  // ----- steps of different connections commute -----

  ghost predicate Independent(a: Row, b: Row) {
    && !a.Ready? && !b.Ready? && !(a.Connection? && b.Connection?)
    && forall c :: !(Concerns(a, c) && Concerns(b, c))
  }

  /** Equal but for the order of two or more activations, which the decoder refuses anyway. */
  ghost predicate Same(s: State, s': State) {
    && s.(activations := []) == s'.(activations := [])
    && |s.activations| == |s'.activations|
    && (|s.activations| <= 1 ==> s.activations == s'.activations)
  }

  ghost predicate SameRun(o: Option<State>, o': Option<State>) {
    o.Some? == o'.Some? && (o.Some? ==> Same(o.value, o'.value))
  }

  function Steps(cfg: Config, s: State, i: nat, a: Row, j: nat, b: Row): Option<State> {
    var o := Step(cfg, s, i, a);
    if o.None? then None else Step(cfg, o.value, j, b)
  }

  function CommitRun(o: Option<State>, c: int, creates: bool, next: Option<(Conn, Option<Role>)>): Option<State> {
    if o.None? then None else Commit(o.value, c, creates, next)
  }

  lemma CommitsCommute(s: State, c: int, k: bool, x: Option<(Conn, Option<Role>)>, d: int, l: bool,
                       y: Option<(Conn, Option<Role>)>)
    requires c != d
    ensures SameRun(CommitRun(Commit(s, c, k, x), d, l, y), CommitRun(Commit(s, d, l, y), c, k, x))
  {
    if x.Some? && y.Some? {
      assert s.conns[c := x.value.0][d := y.value.0] == s.conns[d := y.value.0][c := x.value.0];
    }
  }

  lemma AnnounceCommutes(cfg: Config, s: State, a: Row, d: int, l: bool, y: Option<(Conn, Option<Role>)>)
    requires a.Connection? && a.connection != d && d in s.conns
    ensures CommitRun(Announce(cfg, s, a), d, l, y)
         == if Commit(s, d, l, y).None? then None else Announce(cfg, Commit(s, d, l, y).value, a)
  {
    if y.Some? {
      var newcomer := Conn(Peer(a.pid, a.birth, a.pidfd, true), map[], map[]);
      assert s.conns[d := y.value.0].Keys == s.conns.Keys;
      assert s.conns[d := y.value.0][a.connection := newcomer] == s.conns[a.connection := newcomer][d := y.value.0];
    }
  }

  lemma AnnouncedCommutes(cfg: Config, s: State, i: nat, a: Row, j: nat, b: Row)
    requires Independent(a, b) && a.Connection?
    ensures Steps(cfg, s, i, a, j, b) == Steps(cfg, s, j, b, i, a)
  {
    hide StepConn;
    if IntegersOk(a) && IntegersOk(b) && s.ready {
      assert Concerns(a, a.connection) && Concerns(b, b.connection);
      if b.connection in s.conns {
        AnnounceCommutes(cfg, s, a, b.connection, b.ResourceLive?, StepConn(cfg, s.conns[b.connection], j, b));
      }
    }
  }

  /** Two records of different connections are two commits of steps taken where the first stands. */
  lemma StepsAreCommits(cfg: Config, s: State, i: nat, a: Row, j: nat, b: Row)
    requires IntegersOk(a) && IntegersOk(b) && s.ready && !a.Ready? && !b.Ready? && !a.Connection? && !b.Connection?
    requires a.connection != b.connection && a.connection in s.conns && b.connection in s.conns
    ensures Steps(cfg, s, i, a, j, b)
            == CommitRun(Commit(s, a.connection, a.ResourceLive?, StepConn(cfg, s.conns[a.connection], i, a)),
                         b.connection, b.ResourceLive?, StepConn(cfg, s.conns[b.connection], j, b))
  {
    hide StepConn, IntegersOk;
  }

  /** A record of an unknown connection, or a malformed one, is refused before or after another connection's. */
  lemma StepsRefused(cfg: Config, s: State, i: nat, a: Row, j: nat, b: Row)
    requires Independent(a, b) && !a.Connection? && !b.Connection?
    requires !IntegersOk(a) || !IntegersOk(b) || !s.ready || a.connection !in s.conns || b.connection !in s.conns
    ensures Steps(cfg, s, i, a, j, b).None?
  {
    hide StepConn;
    if IntegersOk(a) && IntegersOk(b) {
      assert Concerns(a, a.connection) && Concerns(b, b.connection);
    }
  }

  lemma RequestsCommute(cfg: Config, s: State, i: nat, a: Row, j: nat, b: Row)
    requires Independent(a, b) && !a.Connection? && !b.Connection?
    ensures SameRun(Steps(cfg, s, i, a, j, b), Steps(cfg, s, j, b, i, a))
  {
    hide StepConn, Commit, Step, Steps, Same, CommitRun;
    if IntegersOk(a) && IntegersOk(b) && s.ready && a.connection in s.conns && b.connection in s.conns {
      assert Concerns(a, a.connection) && Concerns(b, b.connection);
      StepsAreCommits(cfg, s, i, a, j, b);
      StepsAreCommits(cfg, s, j, b, i, a);
      CommitsCommute(s, a.connection, a.ResourceLive?, StepConn(cfg, s.conns[a.connection], i, a),
                     b.connection, b.ResourceLive?, StepConn(cfg, s.conns[b.connection], j, b));
    } else {
      StepsRefused(cfg, s, i, a, j, b);
      StepsRefused(cfg, s, j, b, i, a);
    }
  }

  lemma StepsCommute(cfg: Config, s: State, i: nat, a: Row, j: nat, b: Row)
    requires Independent(a, b)
    ensures SameRun(Steps(cfg, s, i, a, j, b), Steps(cfg, s, j, b, i, a))
  {
    if a.Connection? {
      AnnouncedCommutes(cfg, s, i, a, j, b);
    } else if b.Connection? {
      AnnouncedCommutes(cfg, s, j, b, i, a);
    } else {
      RequestsCommute(cfg, s, i, a, j, b);
    }
  }

  // ----- the rest of the run -----

  function Swapped(t: seq<Row>, i: nat): seq<Row>
    requires i + 1 < |t|
  {
    t[i := t[i + 1]][i + 1 := t[i]]
  }

  lemma {:induction false} PrefixSame(cfg: Config, t: seq<Row>, i: nat, n: nat)
    requires i + 1 < |t| && n <= i
    ensures Run(cfg, Swapped(t, i), n) == Run(cfg, t, n)
  {
    if n > 0 { PrefixSame(cfg, t, i, n - 1); }
  }

  lemma StepSame(cfg: Config, s: State, s': State, index: nat, row: Row)
    requires Same(s, s')
    ensures SameRun(Step(cfg, s, index, row), Step(cfg, s', index, row))
  {
  }

  lemma RunTwice(cfg: Config, t: seq<Row>, i: nat)
    requires i + 1 < |t|
    ensures Run(cfg, t, i + 2) ==
            if Run(cfg, t, i).None? then None else Steps(cfg, Run(cfg, t, i).value, i, t[i], i + 1, t[i + 1])
  {
    assert Run(cfg, t, i + 1) == if Run(cfg, t, i).None? then None else Step(cfg, Run(cfg, t, i).value, i, t[i]);
  }

  lemma StepsRenamed(cfg: Config, i: nat, s: State, a: Row, b: Row)
    requires !a.Ready? && !b.Ready? && RenState(i, s) == s
    ensures Steps(cfg, s, i + 1, b, i, a) == RenRun(i, Steps(cfg, s, i, b, i + 1, a))
  {
    hide Step, RenState;
    StepRenamed(cfg, i, s, i, b);
    var o := Step(cfg, s, i, b);
    if o.Some? { StepRenamed(cfg, i, o.value, i + 1, a); }
  }

  /** Right after the two records the runs agree up to the renaming of their two indices. */
  lemma SwapPoint(cfg: Config, t: seq<Row>, i: nat)
    requires i + 1 < |t| && Independent(t[i], t[i + 1])
    ensures SameRun(Run(cfg, t, i + 2), RenRun(i, Run(cfg, Swapped(t, i), i + 2)))
  {
    hide Step;
    PrefixSame(cfg, t, i, i);
    RunTwice(cfg, t, i);
    RunTwice(cfg, Swapped(t, i), i);
    if Run(cfg, t, i).Some? {
      var s := Run(cfg, t, i).value;
      RunBelow(cfg, t, i);
      BelowFixed(i, s);
      StepsCommute(cfg, s, i, t[i], i + 1, t[i + 1]);
      StepsRenamed(cfg, i, s, t[i], t[i + 1]);
    }
  }

  function StepRun(cfg: Config, o: Option<State>, index: nat, row: Row): Option<State> {
    if o.None? then None else Step(cfg, o.value, index, row)
  }

  lemma SwapNext(cfg: Config, i: nat, o: Option<State>, o': Option<State>, k: nat, row: Row)
    requires SameRun(o, RenRun(i, o')) && k > i + 1
    ensures SameRun(StepRun(cfg, o, k, row), RenRun(i, StepRun(cfg, o', k, row)))
  {
    if o.Some? {
      StepSame(cfg, o.value, RenState(i, o'.value), k, row);
      if !row.Ready? { StepRenamed(cfg, i, o'.value, k, row); }
    }
  }

  lemma {:induction false} SwapRun(cfg: Config, t: seq<Row>, i: nat, n: nat)
    requires i + 2 <= n <= |t| && Independent(t[i], t[i + 1])
    ensures SameRun(Run(cfg, t, n), RenRun(i, Run(cfg, Swapped(t, i), n)))
  {
    hide Step;
    if n == i + 2 {
      SwapPoint(cfg, t, i);
    } else {
      SwapRun(cfg, t, i, n - 1);
      var t' := Swapped(t, i);
      assert t'[n - 1] == t[n - 1];
      assert Run(cfg, t, n) == StepRun(cfg, Run(cfg, t, n - 1), n - 1, t[n - 1]);
      assert Run(cfg, t', n) == StepRun(cfg, Run(cfg, t', n - 1), n - 1, t[n - 1]);
      SwapNext(cfg, i, Run(cfg, t, n - 1), Run(cfg, t', n - 1), n - 1, t[n - 1]);
    }
  }

  lemma CandidatesRenamed(cfg: Config, i: nat, s: State)
    ensures Candidates(cfg, RenState(i, s).conns) == Candidates(cfg, s.conns)
  {
    var s' := RenState(i, s);
    forall c, x | c in s.conns && x in s.conns[c].roles
      ensures (c, x) in Candidates(cfg, s'.conns) <==> (c, x) in Candidates(cfg, s.conns)
    {
      LiveRoleRenamed(i, s.conns[c], s.conns[c].roles[x]);
    }
  }

  lemma FinishRenamed(cfg: Config, i: nat, s: State)
    ensures Finish(cfg, RenState(i, s)) == RenSelect(i, Finish(cfg, s))
  {
    CandidatesRenamed(cfg, i, s);
    RenInjective(i);
    hide LiveRole;
  }

  lemma RenInjective(i: nat)
    ensures forall r: Role :: RenRole(i, RenRole(i, r)) == r
  {
  }

  /** Swapping two adjacent independent records keeps the verdict and, on acceptance, the connection,
      pidfd and every object id; generations follow the swapped records. */
  lemma SwapAdjacent(cfg: Config, t: seq<Row>, i: nat)
    requires i + 1 < |t| && Independent(t[i], t[i + 1])
    ensures Select(cfg, t) == RenSelect(i, Select(cfg, Swapped(t, i)))
    ensures Select(cfg, t).Some? ==>
      var sel, sel' := Select(cfg, t).value, Select(cfg, Swapped(t, i)).value;
      && sel'.connection == sel.connection && sel'.pidfd == sel.pidfd && sel'.role.surface == sel.role.surface
      && sel'.role.xdgSurface == sel.role.xdgSurface && sel'.role.toplevel == sel.role.toplevel
  {
    if |t| <= 512 {
      SwapRun(cfg, t, i, |t|);
      var o' := Run(cfg, Swapped(t, i), |t|);
      if o'.Some? { FinishRenamed(cfg, i, o'.value); }
    }
  }
}
