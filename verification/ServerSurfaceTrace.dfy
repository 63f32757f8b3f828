/** What the decoder's dictionaries mean, said over the records alone.

    Every predicate here speaks of the first `n` records of a trace `t`; none of them mentions the decoder's
    state. `RunFaithful` ties each dictionary entry to the trace in both directions. */
module ServerSurfaceTrace {
  import opened Options
  import opened ServerSurface

  /** Record `g` created this object and no record before `n` destroyed it since. */
  ghost predicate LiveAt(t: seq<Row>, n: nat, c: int, iface: Interface, o: int, g: nat) {
    && g < n <= |t| && t[g] == ResourceLive(c, iface, o)
    && forall j :: g < j < n ==> t[j] != ResourceDestroy(c, iface, o)
  }

  ghost predicate AnnouncedAt(t: seq<Row>, n: nat, c: int, p: nat) {
    p < n <= |t| && t[p].Connection? && t[p].connection == c
  }

  ghost predicate Connected(t: seq<Row>, n: nat, c: int)
    requires n <= |t|
  {
    forall j :: 0 <= j < n ==> t[j] != ClientDestroy(c)
  }

  predicate AsksFor(row: Row, c: int, x: int) {
    row.XdgSurfaceRequest? && row.connection == c && row.xdgSurface == x
  }

  /** Record `q` is the latest role request for xdg_surface id `x`. */
  ghost predicate RequestedAt(t: seq<Row>, n: nat, c: int, x: int, q: nat) {
    q < n <= |t| && AsksFor(t[q], c, x) && forall j :: q < j < n ==> !AsksFor(t[j], c, x)
  }

  ghost predicate Named(t: seq<Row>, n: nat, c: int, x: int, q: nat, k: nat, v: int) {
    q < k < n <= |t| && t[k] == ToplevelRequest(c, x, v)
  }

  ghost predicate Unmade(t: seq<Row>, n: nat, c: int, iface: Interface, o: int, after: nat)
    requires n <= |t|
  {
    forall j :: after < j < n ==> t[j] != ResourceLive(c, iface, o)
  }

  /** Record `g` is the first creation of the object after record `after`. */
  ghost predicate MadeAt(t: seq<Row>, n: nat, c: int, iface: Interface, o: int, after: nat, g: nat) {
    after < g < n <= |t| && t[g] == ResourceLive(c, iface, o) && Unmade(t, g, c, iface, o, after)
  }

  // ----- what a state entry claims about the trace -----

  ghost predicate ResourcesFaithful(t: seq<Row>, n: nat, c: int, conn: Conn) {
    forall iface, o, g: nat :: Holds(conn.resources, iface, o, g) <==> LiveAt(t, n, c, iface, o, g)
  }

  ghost predicate RequestFaithful(t: seq<Row>, n: nat, c: int, x: int, r: Role) {
    && r.xdgSurface == x
    && RequestedAt(t, n, c, x, r.requestIndex)
    && t[r.requestIndex].surface == r.surface
    && LiveAt(t, r.requestIndex, c, WlSurface, r.surface, r.surfaceGen)
  }

  ghost predicate XdgFaithful(t: seq<Row>, n: nat, c: int, x: int, r: Role)
    requires n <= |t|
  {
    match r.xdgGen
    case Some(g) => MadeAt(t, n, c, XdgSurface, x, r.requestIndex, g) && Unmade(t, n, c, XdgSurface, x, g)
    case None => Unmade(t, n, c, XdgSurface, x, r.requestIndex)
  }

  ghost predicate ToplevelFaithful(t: seq<Row>, n: nat, c: int, x: int, r: Role)
    requires n <= |t|
  {
    match r.toplevel
    case None => r.toplevelGen.None? && forall k: nat, v :: !Named(t, n, c, x, r.requestIndex, k, v)
    case Some(v) => exists k: nat :: NamedFaithful(t, n, c, x, r, k, v)
  }

  ghost predicate NamedFaithful(t: seq<Row>, n: nat, c: int, x: int, r: Role, k: nat, v: int)
    requires n <= |t|
  {
    && Named(t, n, c, x, r.requestIndex, k, v)
    && (forall k': nat, v' :: Named(t, n, c, x, r.requestIndex, k', v') ==> k' == k)
    && match r.toplevelGen
       case Some(g) => MadeAt(t, n, c, XdgToplevel, v, k, g)
       case None => Unmade(t, n, c, XdgToplevel, v, k)
  }

  ghost predicate RoleFaithful(t: seq<Row>, n: nat, c: int, x: int, r: Role) {
    && n <= |t|
    && RequestFaithful(t, n, c, x, r)
    && XdgFaithful(t, n, c, x, r)
    && ToplevelFaithful(t, n, c, x, r)
  }

  ghost predicate RolesFaithful(t: seq<Row>, n: nat, c: int, conn: Conn) {
    && (forall x, q: nat :: RequestedAt(t, n, c, x, q) ==> x in conn.roles)
    && (forall x :: x in conn.roles ==> RoleFaithful(t, n, c, x, conn.roles[x]))
  }

  /** No two roles were completed by the same toplevel creation. */
  ghost predicate GenerationsDistinct(roles: map<int, Role>) {
    forall x, y :: x in roles && y in roles && roles[x].toplevelGen.Some? && x != y
                   ==> roles[x].toplevelGen != roles[y].toplevelGen
  }

  ghost predicate PeerFaithful(t: seq<Row>, n: nat, c: int, conn: Conn)
    requires n <= |t|
  {
    && conn.peer.alive == Connected(t, n, c)
    && (exists p: nat :: AnnouncedAt(t, n, c, p))
    && (forall p: nat :: AnnouncedAt(t, n, c, p) ==> Announces(t[p], conn.peer))
  }

  predicate Announces(row: Row, peer: Peer) {
    row.Connection? && row.pid == peer.pid && row.birth == peer.birth && row.pidfd == peer.pidfd
  }

  ghost predicate ConnFaithful(t: seq<Row>, n: nat, c: int, conn: Conn) {
    && n <= |t|
    && PeerFaithful(t, n, c, conn)
    && ResourcesFaithful(t, n, c, conn)
    && RolesFaithful(t, n, c, conn)
    && GenerationsDistinct(conn.roles)
  }

  // ----- each record keeps every claim -----

  lemma ResourceStep(cfg: Config, t: seq<Row>, n: nat, c: int, conn: Conn, conn': Conn)
    requires n < |t| && Concerns(t[n], c) && !t[n].Connection?
    requires ResourcesFaithful(t, n, c, conn)
    requires StepConn(cfg, conn, n, t[n]).Some? && StepConn(cfg, conn, n, t[n]).value.0 == conn'
    ensures ResourcesFaithful(t, n + 1, c, conn')
  {
    forall iface, o, g: nat
      ensures Holds(conn'.resources, iface, o, g) <==> LiveAt(t, n + 1, c, iface, o, g)
    {
      assert Holds(conn.resources, iface, o, g) <==> LiveAt(t, n, c, iface, o, g);
      if g < n {
        assert LiveAt(t, n + 1, c, iface, o, g)
            <==> LiveAt(t, n, c, iface, o, g) && t[n] != ResourceDestroy(c, iface, o);
      }
    }
  }

  lemma RoleKept(t: seq<Row>, n: nat, c: int, x: int, r: Role)
    requires n < |t| && RoleFaithful(t, n, c, x, r)
    requires !AsksFor(t[n], c, x)
    requires t[n] != ResourceLive(c, XdgSurface, x)
    requires t[n].ToplevelRequest? ==> !(t[n].connection == c && t[n].xdgSurface == x)
    requires r.toplevel.Some? && r.toplevelGen.None? ==> t[n] != ResourceLive(c, XdgToplevel, r.toplevel.value)
    ensures RoleFaithful(t, n + 1, c, x, r)
  {
    NamesKept(t, n, n + 1, c, x, r.requestIndex);
    if r.toplevel.Some? {
      var k: nat :| NamedFaithful(t, n, c, x, r, k, r.toplevel.value);
      NamedKept(t, n, n + 1, c, x, r, r, k, r.toplevel.value);
    }
  }

  lemma NamesKept(t: seq<Row>, n: nat, m: nat, c: int, x: int, q: nat)
    requires n < |t| && m == n + 1
    requires t[n].ToplevelRequest? ==> !(t[n].connection == c && t[n].xdgSurface == x)
    ensures forall k: nat, v :: Named(t, m, c, x, q, k, v) <==> Named(t, n, c, x, q, k, v)
  {
  }

  lemma RoleRequested(cfg: Config, t: seq<Row>, n: nat, c: int, conn: Conn, conn': Conn)
    requires n < |t| && t[n].XdgSurfaceRequest? && t[n].connection == c
    requires ConnFaithful(t, n, c, conn)
    requires StepConn(cfg, conn, n, t[n]).Some? && StepConn(cfg, conn, n, t[n]).value.0 == conn'
    ensures RolesFaithful(t, n + 1, c, conn')
  {
    var m := n + 1;
    forall x, q: nat | RequestedAt(t, m, c, x, q) ensures x in conn'.roles {
      if q < n { assert RequestedAt(t, n, c, x, q); }
    }
    forall x | x in conn'.roles ensures RoleFaithful(t, n + 1, c, x, conn'.roles[x]) {
      if x == t[n].xdgSurface {
        var r := conn'.roles[x];
        assert Holds(conn.resources, WlSurface, r.surface, r.surfaceGen);
        assert LiveAt(t, n, c, WlSurface, r.surface, r.surfaceGen);
      } else {
        RoleKept(t, n, c, x, conn.roles[x]);
      }
    }
  }

  /** What an accepted toplevel request does to the roles. */
  lemma NamingStep(cfg: Config, n: nat, row: Row, conn: Conn)
    requires row.ToplevelRequest? && StepConn(cfg, conn, n, row).Some?
    ensures var x := row.xdgSurface;
      && x in conn.roles && conn.roles[x].toplevel.None?
      && StepConn(cfg, conn, n, row).value.0.roles
         == conn.roles[x := conn.roles[x].(toplevel := Some(row.toplevel))]
  {
    hide Holds;
  }

  lemma RoleNamed(cfg: Config, t: seq<Row>, n: nat, c: int, conn: Conn, conn': Conn)
    requires n < |t| && t[n].ToplevelRequest? && t[n].connection == c
    requires RolesFaithful(t, n, c, conn)
    requires StepConn(cfg, conn, n, t[n]).Some? && StepConn(cfg, conn, n, t[n]).value.0 == conn'
    ensures RolesFaithful(t, n + 1, c, conn')
  {
    hide StepConn, RoleFaithful, RequestedAt;
    NamingStep(cfg, n, t[n], conn);
    RequestsUnchanged(t, n, n + 1, c, conn);
    forall x | x in conn'.roles ensures RoleFaithful(t, n + 1, c, x, conn'.roles[x]) {
      if x == t[n].xdgSurface {
        ToplevelNamed(t, n, n + 1, c, x, conn.roles[x], t[n].toplevel);
      } else {
        RoleKept(t, n, c, x, conn.roles[x]);
      }
    }
  }

  lemma ToplevelNamed(t: seq<Row>, n: nat, m: nat, c: int, x: int, r: Role, v: int)
    requires n < |t| && m == n + 1 && RoleFaithful(t, n, c, x, r)
    requires t[n] == ToplevelRequest(c, x, v) && r.toplevel.None?
    ensures RoleFaithful(t, m, c, x, r.(toplevel := Some(v)))
  {
    var r' := r.(toplevel := Some(v));
    forall k: nat, v' | Named(t, m, c, x, r.requestIndex, k, v') ensures k == n {
      assert !Named(t, n, c, x, r.requestIndex, k, v');
    }
    assert NamedFaithful(t, m, c, x, r', n, v);
  }

  lemma RequestsUnchanged(t: seq<Row>, n: nat, m: nat, c: int, conn: Conn)
    requires n < |t| && m == n + 1 && RolesFaithful(t, n, c, conn)
    requires !(t[n].XdgSurfaceRequest? && t[n].connection == c)
    ensures forall x, q: nat :: RequestedAt(t, m, c, x, q) ==> x in conn.roles
  {
    forall x, q: nat | RequestedAt(t, m, c, x, q) ensures x in conn.roles {
      assert RequestedAt(t, n, c, x, q);
    }
  }

  /** What an accepted creation does to the roles: at most one is completed by it. */
  lemma CreationStep(cfg: Config, n: nat, row: Row, conn: Conn)
    requires row.ResourceLive? && StepConn(cfg, conn, n, row).Some?
    ensures var roles, roles' := conn.roles, StepConn(cfg, conn, n, row).value.0.roles;
      && roles'.Keys == roles.Keys
      && (forall x :: x in roles ==> roles'[x].toplevelGen == roles[x].toplevelGen
                                     || (AwaitsToplevel(roles[x], row.obj) && roles'[x].toplevelGen == Some(n)))
      && (forall x, y :: x in roles && y in roles && x != y && roles'[x].toplevelGen != roles[x].toplevelGen
                         ==> roles'[y] == roles[y])
  {
  }

  lemma RoleCreated(cfg: Config, t: seq<Row>, n: nat, c: int, conn: Conn, conn': Conn)
    requires n < |t| && t[n].ResourceLive? && t[n].connection == c
    requires ConnFaithful(t, n, c, conn)
    requires StepConn(cfg, conn, n, t[n]).Some? && StepConn(cfg, conn, n, t[n]).value.0 == conn'
    ensures RolesFaithful(t, n + 1, c, conn')
  {
    hide StepConn, RoleFaithful, RequestedAt, Holds, ResourcesFaithful, PeerFaithful;
    CreationStep(cfg, n, t[n], conn);
    RequestsUnchanged(t, n, n + 1, c, conn);
    forall x | x in conn'.roles ensures RoleFaithful(t, n + 1, c, x, conn'.roles[x]) {
      CreatedRole(cfg, t, n, c, conn, x);
    }
  }

  lemma RequestDistinct(cfg: Config, t: seq<Row>, n: nat, conn: Conn, conn': Conn)
    requires n < |t| && (t[n].XdgSurfaceRequest? || t[n].ToplevelRequest?)
    requires GenerationsDistinct(conn.roles)
    requires StepConn(cfg, conn, n, t[n]).Some? && StepConn(cfg, conn, n, t[n]).value.0 == conn'
    ensures GenerationsDistinct(conn'.roles)
  {
  }

  lemma GenerationsBefore(t: seq<Row>, n: nat, c: int, x: int, r: Role)
    requires RoleFaithful(t, n, c, x, r)
    ensures r.toplevelGen != Some(n)
  {
  }

  lemma CreatedDistinct(cfg: Config, t: seq<Row>, n: nat, c: int, conn: Conn, conn': Conn)
    requires n < |t| && t[n].ResourceLive? && t[n].connection == c
    requires RolesFaithful(t, n, c, conn) && GenerationsDistinct(conn.roles)
    requires StepConn(cfg, conn, n, t[n]).Some? && StepConn(cfg, conn, n, t[n]).value.0 == conn'
    ensures GenerationsDistinct(conn'.roles)
  {
    hide StepConn, RoleFaithful, RequestedAt, AwaitsToplevel;
    CreationStep(cfg, n, t[n], conn);
    forall x | x in conn.roles ensures conn.roles[x].toplevelGen != Some(n) {
      GenerationsBefore(t, n, c, x, conn.roles[x]);
    }
  }

  lemma CreatedRole(cfg: Config, t: seq<Row>, n: nat, c: int, conn: Conn, x: int)
    requires n < |t| && t[n].ResourceLive? && t[n].connection == c
    requires x in conn.roles && RoleFaithful(t, n, c, x, conn.roles[x])
    requires StepConn(cfg, conn, n, t[n]).Some?
    ensures var roles' := StepConn(cfg, conn, n, t[n]).value.0.roles;
      x in roles' && RoleFaithful(t, n + 1, c, x, roles'[x])
  {
    var r, o := conn.roles[x], t[n].obj;
    if t[n].iface == XdgSurface && x == o {
      XdgCompleted(t, n, c, x, r);
    } else if t[n].iface == XdgToplevel && AwaitsToplevel(r, o) {
      SingletonMembers(Awaiting(conn.roles, o), x, Only(Awaiting(conn.roles, o)));
      ToplevelCompleted(t, n, c, x, r);
    } else {
      RoleKept(t, n, c, x, r);
    }
  }

  lemma XdgCompleted(t: seq<Row>, n: nat, c: int, x: int, r: Role)
    requires n < |t| && RoleFaithful(t, n, c, x, r)
    requires t[n] == ResourceLive(c, XdgSurface, x) && r.xdgGen.None?
    ensures RoleFaithful(t, n + 1, c, x, r.(xdgGen := Some(n)))
  {
    NamesKept(t, n, n + 1, c, x, r.requestIndex);
    if r.toplevel.Some? {
      var k: nat :| NamedFaithful(t, n, c, x, r, k, r.toplevel.value);
      NamedKept(t, n, n + 1, c, x, r, r.(xdgGen := Some(n)), k, r.toplevel.value);
    }
  }

  lemma NamedKept(t: seq<Row>, n: nat, m: nat, c: int, x: int, r: Role, r': Role, k: nat, v: int)
    requires n < |t| && m == n + 1 && NamedFaithful(t, n, c, x, r, k, v)
    requires r'.requestIndex == r.requestIndex
    requires t[n].ToplevelRequest? ==> !(t[n].connection == c && t[n].xdgSurface == x)
    requires
      || (r'.toplevelGen == r.toplevelGen && (r.toplevelGen.None? ==> t[n] != ResourceLive(c, XdgToplevel, v)))
      || (r.toplevelGen.None? && r'.toplevelGen == Some(n) && t[n] == ResourceLive(c, XdgToplevel, v))
    ensures NamedFaithful(t, m, c, x, r', k, v)
  {
    NamesKept(t, n, m, c, x, r.requestIndex);
  }

  lemma ToplevelCompleted(t: seq<Row>, n: nat, c: int, x: int, r: Role)
    requires n < |t| && RoleFaithful(t, n, c, x, r)
    requires r.toplevel.Some? && r.toplevelGen.None? && t[n] == ResourceLive(c, XdgToplevel, r.toplevel.value)
    ensures RoleFaithful(t, n + 1, c, x, r.(toplevelGen := Some(n)))
  {
    var k: nat :| NamedFaithful(t, n, c, x, r, k, r.toplevel.value);
    NamedKept(t, n, n + 1, c, x, r, r.(toplevelGen := Some(n)), k, r.toplevel.value);
  }

  lemma PeerKept(t: seq<Row>, n: nat, m: nat, c: int, conn: Conn, conn': Conn)
    requires n < |t| && m == n + 1 && PeerFaithful(t, n, c, conn)
    requires !(t[n].Connection? && t[n].connection == c)
    requires conn'.peer == conn.peer.(alive := conn.peer.alive && t[n] != ClientDestroy(c))
    ensures PeerFaithful(t, m, c, conn')
  {
    var p: nat :| AnnouncedAt(t, n, c, p);
    assert AnnouncedAt(t, m, c, p);
    forall p: nat | AnnouncedAt(t, m, c, p) ensures Announces(t[p], conn'.peer) {
      assert AnnouncedAt(t, n, c, p);
    }
    assert Connected(t, m, c) == (Connected(t, n, c) && t[n] != ClientDestroy(c));
  }

  /** What every accepted record does to the peer, and which records leave the roles alone. */
  lemma PeerStep(cfg: Config, n: nat, row: Row, c: int, conn: Conn)
    requires Concerns(row, c) && !row.Connection? && StepConn(cfg, conn, n, row).Some?
    ensures var conn' := StepConn(cfg, conn, n, row).value.0;
      && conn'.peer == conn.peer.(alive := conn.peer.alive && row != ClientDestroy(c))
      && (row.XdgSurfaceRequest? || row.ToplevelRequest? || row.ResourceLive? || conn'.roles == conn.roles)
  {
    hide Holds, Awaiting, LiveOn, TokenEncoded;
  }

  lemma ConnStep(cfg: Config, t: seq<Row>, n: nat, c: int, conn: Conn, conn': Conn)
    requires n < |t| && Concerns(t[n], c) && !t[n].Connection?
    requires ConnFaithful(t, n, c, conn)
    requires StepConn(cfg, conn, n, t[n]).Some? && StepConn(cfg, conn, n, t[n]).value.0 == conn'
    ensures ConnFaithful(t, n + 1, c, conn')
  {
    hide StepConn, PeerFaithful, ResourcesFaithful, RolesFaithful, GenerationsDistinct;
    PeerStep(cfg, n, t[n], c, conn);
    PeerKept(t, n, n + 1, c, conn, conn');
    ResourceStep(cfg, t, n, c, conn, conn');
    match t[n]
    case XdgSurfaceRequest(_, _, _) =>
      RoleRequested(cfg, t, n, c, conn, conn');
      RequestDistinct(cfg, t, n, conn, conn');
    case ToplevelRequest(_, _, _) =>
      RoleNamed(cfg, t, n, c, conn, conn');
      RequestDistinct(cfg, t, n, conn, conn');
    case ResourceLive(_, _, _) =>
      RoleCreated(cfg, t, n, c, conn, conn');
      CreatedDistinct(cfg, t, n, c, conn, conn');
    case _ => OtherRowKeepsRoles(t, n, c, conn, conn');
  }

  lemma OtherRowKeepsRoles(t: seq<Row>, n: nat, c: int, conn: Conn, conn': Conn)
    requires n < |t| && RolesFaithful(t, n, c, conn) && conn'.roles == conn.roles
    requires Concerns(t[n], c) ==> !t[n].XdgSurfaceRequest? && !t[n].ToplevelRequest? && !t[n].ResourceLive?
    ensures RolesFaithful(t, n + 1, c, conn')
  {
    hide RoleFaithful, RequestedAt;
    RequestsUnchanged(t, n, n + 1, c, conn);
    forall x | x in conn.roles ensures RoleFaithful(t, n + 1, c, x, conn.roles[x]) {
      RoleKept(t, n, c, x, conn.roles[x]);
    }
  }

  lemma ConnFrame(t: seq<Row>, n: nat, c: int, conn: Conn)
    requires n < |t| && ConnFaithful(t, n, c, conn) && !Concerns(t[n], c)
    ensures ConnFaithful(t, n + 1, c, conn)
  {
    OtherRowKeepsRoles(t, n, c, conn, conn);
    PeerKept(t, n, n + 1, c, conn, conn);
    forall iface, o, g: nat
      ensures Holds(conn.resources, iface, o, g) <==> LiveAt(t, n + 1, c, iface, o, g)
    {
      assert Holds(conn.resources, iface, o, g) <==> LiveAt(t, n, c, iface, o, g);
    }
  }
}
