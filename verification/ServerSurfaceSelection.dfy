/** Which traces the decoder accepts and what it selects, both directions, without its state. */
module ServerSurfaceSelection {
  import opened Options
  import opened ServerSurface
  import opened ServerSurfaceRecords
  import opened ServerSurfaceTrace

  /** At prefix `n` this incarnation of surface, xdg_surface and toplevel is complete and alive. */
  ghost predicate LiveRoleAt(t: seq<Row>, n: nat, c: int, r: Role) {
    && n <= |t| && Connected(t, n, c)
    && r.xdgGen.Some? && r.toplevel.Some? && r.toplevelGen.Some?
    && RequestFaithful(t, n, c, r.xdgSurface, r)
    && MadeAt(t, n, c, XdgSurface, r.xdgSurface, r.requestIndex, r.xdgGen.value)
    && (exists k: nat :: Named(t, n, c, r.xdgSurface, r.requestIndex, k, r.toplevel.value)
                         && MadeAt(t, n, c, XdgToplevel, r.toplevel.value, k, r.toplevelGen.value))
    && LiveAt(t, n, c, WlSurface, r.surface, r.surfaceGen)
    && LiveAt(t, n, c, XdgSurface, r.xdgSurface, r.xdgGen.value)
    && LiveAt(t, n, c, XdgToplevel, r.toplevel.value, r.toplevelGen.value)
  }

  /** The role requested at `q` has asked for toplevel object `o`, which has not been created since. */
  ghost predicate AwaitingAt(t: seq<Row>, n: nat, c: int, o: int, x: int, q: nat) {
    && n <= |t| && RequestedAt(t, n, c, x, q)
    && exists k: nat :: Named(t, n, c, x, q, k, o) && Unmade(t, n, c, XdgToplevel, o, k)
  }

  function ConnectionCount(t: seq<Row>, n: nat): nat
    requires n <= |t|
  {
    if n == 0 then 0 else ConnectionCount(t, n - 1) + if t[n - 1].Connection? then 1 else 0
  }

  function CreationCount(t: seq<Row>, n: nat): nat
    requires n <= |t|
  {
    if n == 0 then 0 else CreationCount(t, n - 1) + if t[n - 1].ResourceLive? then 1 else 0
  }

  predicate IsTokenRow(cfg: Config, row: Row) { row.Activate? && cfg.isToken(row.tokenHex) }

  function TokenRows(cfg: Config, t: seq<Row>, n: nat): seq<nat>
    requires n <= |t|
  {
    if n == 0 then [] else TokenRows(cfg, t, n - 1) + if IsTokenRow(cfg, t[n - 1]) then [n - 1] else []
  }

  ghost predicate PeerExpected(cfg: Config, t: seq<Row>, n: nat, c: int)
    requires n <= |t|
  {
    exists p: nat :: AnnouncedAt(t, n, c, p) && t[p].pid == cfg.pid && t[p].birth == cfg.birth
  }

  ghost predicate SoleLiveRoleOn(t: seq<Row>, n: nat, c: int, s: int) {
    exists r :: LiveRoleAt(t, n, c, r) && r.surface == s && forall r' :: LiveRoleAt(t, n, c, r') && r'.surface == s
                                                                         ==> r' == r
  }

  ghost predicate SoleAwaiting(t: seq<Row>, n: nat, c: int, o: int) {
    exists x, q: nat :: AwaitingAt(t, n, c, o, x, q) && forall x', q': nat :: AwaitingAt(t, n, c, o, x', q') ==> x' == x
  }

  ghost predicate Absent(t: seq<Row>, n: nat, c: int, iface: Interface, o: int) {
    forall g: nat :: !LiveAt(t, n, c, iface, o, g)
  }

  /** Record `n` may follow the `n` records before it. */
  ghost predicate Admissible(cfg: Config, t: seq<Row>, n: nat)
    requires n < |t|
  {
    var row := t[n];
    Sound(row) && row.Ready? == (n == 0) &&
    if row.Ready? then row.compositorPID == cfg.compositorPID
    else if row.Connection? then
      && row.connection == ConnectionCount(t, n) + 1 <= 128
      && row.uid == 1000 && row.gid == 1000 && row.pid != cfg.compositorPID && row.pidfd >= 3
    else
      && (exists p: nat :: AnnouncedAt(t, n, row.connection, p))
      && (row.ResourceDestroy? || Connected(t, n, row.connection))
      && RequestAdmissible(cfg, t, n)
  }

  ghost predicate RequestAdmissible(cfg: Config, t: seq<Row>, n: nat)
    requires n < |t|
  {
    match t[n]
    case ResourceLive(c, iface, o) =>
      && !iface.OtherInterface? && CreationCount(t, n) < 256 && Absent(t, n, c, iface, o)
      && (iface.XdgSurface? ==> forall q: nat :: RequestedAt(t, n, c, o, q) ==> Unmade(t, n, c, XdgSurface, o, q))
      && (iface.XdgToplevel? ==> SoleAwaiting(t, n, c, o))
    case ResourceDestroy(c, iface, o) => !iface.OtherInterface? && !Absent(t, n, c, iface, o)
    case Destroy(c, iface, o) => !iface.OtherInterface? && !Absent(t, n, c, iface, o)
    case XdgSurfaceRequest(c, x, s) => !Absent(t, n, c, WlSurface, s) && Absent(t, n, c, XdgSurface, x)
    case ToplevelRequest(c, x, _) =>
      exists q: nat, g: nat :: ReadyForToplevel(t, n, c, x, q, g)
    case Activate(c, s, token) =>
      HexToken(token) && (cfg.isToken(token) ==> PeerExpected(cfg, t, n, c) && SoleLiveRoleOn(t, n, c, s))
    case _ => true
  }

  ghost predicate ReadyForToplevel(t: seq<Row>, n: nat, c: int, x: int, q: nat, g: nat) {
    && RequestedAt(t, n, c, x, q)
    && MadeAt(t, n, c, XdgSurface, x, q, g) && LiveAt(t, n, c, XdgSurface, x, g)
    && forall k: nat, v :: !Named(t, n, c, x, q, k, v)
  }

  ghost predicate AllAdmissible(cfg: Config, t: seq<Row>, n: nat)
    requires n <= |t|
  {
    forall j :: 0 <= j < n ==> Admissible(cfg, t, j)
  }

  ghost predicate ActivationFaithful(t: seq<Row>, a: nat, id: Identity) {
    a < |t| && t[a].Activate? && t[a].connection == id.connection && id.role.surface == t[a].surface
    && LiveRoleAt(t, a, id.connection, id.role)
  }

  ghost predicate ActivationsFaithful(cfg: Config, t: seq<Row>, n: nat, acts: seq<Identity>)
    requires n <= |t|
  {
    |acts| == |TokenRows(cfg, t, n)| && forall i :: 0 <= i < |acts|
                                                    ==> ActivationFaithful(t, TokenRows(cfg, t, n)[i], acts[i])
  }

  ghost predicate ConnsFaithful(t: seq<Row>, n: nat, conns: map<int, Conn>)
    requires n <= |t|
  {
    && |conns| == ConnectionCount(t, n)
    && (forall c :: c in conns <==> 1 <= c <= |conns|)
    && (forall c, p: nat :: AnnouncedAt(t, n, c, p) ==> c in conns)
    && (forall c :: c in conns ==> ConnFaithful(t, n, c, conns[c]))
  }

  ghost predicate StateFaithful(cfg: Config, t: seq<Row>, n: nat, s: State) {
    && n <= |t|
    && s.ready == (n > 0)
    && s.creations == CreationCount(t, n) <= 256
    && ConnsFaithful(t, n, s.conns)
    && ActivationsFaithful(cfg, t, n, s.activations)
  }

  // ----- meaning of the derived sets -----

  lemma SingletonIff<T>(s: set<T>)
    ensures |s| == 1 <==> exists x :: x in s && forall y :: y in s ==> y == x
  {
    if |s| == 1 {
      var x := Only(s);
      forall y | y in s ensures y == x { SingletonMembers(s, x, y); }
    }
    if exists x :: x in s && forall y :: y in s ==> y == x {
      var x :| x in s && forall y :: y in s ==> y == x;
      assert s == {x};
    }
  }

  lemma EarlierGone(cfg: Config, t: seq<Row>, n: nat, c: int, iface: Interface, o: int, g: nat, g': nat)
    requires n <= |t| && AllAdmissible(cfg, t, n) && g < g' && LiveAt(t, n, c, iface, o, g')
    ensures !LiveAt(t, n, c, iface, o, g)
  {
    assert Admissible(cfg, t, g');
    assert !LiveAt(t, g', c, iface, o, g);
  }

  lemma LiveUnique(cfg: Config, t: seq<Row>, n: nat, c: int, iface: Interface, o: int, g: nat, g': nat)
    requires n <= |t| && AllAdmissible(cfg, t, n)
    requires LiveAt(t, n, c, iface, o, g) && LiveAt(t, n, c, iface, o, g')
    ensures g == g'
  {
    if g < g' { EarlierGone(cfg, t, n, c, iface, o, g, g'); }
    if g' < g { EarlierGone(cfg, t, n, c, iface, o, g', g); }
  }

  lemma LiveRoleSound(t: seq<Row>, n: nat, c: int, conn: Conn, x: int)
    requires ConnFaithful(t, n, c, conn) && x in conn.roles && LiveRole(conn, conn.roles[x])
    ensures LiveRoleAt(t, n, c, conn.roles[x]) && conn.roles[x].xdgSurface == x
  {
    var r := conn.roles[x];
    assert RoleFaithful(t, n, c, x, r);
    var k: nat :| NamedFaithful(t, n, c, x, r, k, r.toplevel.value);
    assert Named(t, n, c, r.xdgSurface, r.requestIndex, k, r.toplevel.value);
  }

  lemma AdmissiblePrefix(cfg: Config, t: seq<Row>, m: nat, n: nat)
    requires m <= n <= |t| && AllAdmissible(cfg, t, n)
    ensures AllAdmissible(cfg, t, m)
  {
    hide Admissible;
  }

  lemma LiveRoleComplete(cfg: Config, t: seq<Row>, n: nat, c: int, conn: Conn, r: Role)
    requires ConnFaithful(t, n, c, conn) && AllAdmissible(cfg, t, n) && LiveRoleAt(t, n, c, r)
    ensures r.xdgSurface in conn.roles && conn.roles[r.xdgSurface] == r && LiveRole(conn, r)
  {
    var x, q := r.xdgSurface, r.requestIndex;
    assert RequestedAt(t, n, c, x, q);
    AdmissiblePrefix(cfg, t, q, n);
    hide AllAdmissible, Admissible;
    var r0 := conn.roles[x];
    assert RoleFaithful(t, n, c, x, r0) && r0.requestIndex == q;
    LiveUnique(cfg, t, q, c, WlSurface, r.surface, r.surfaceGen, r0.surfaceGen);
    assert r0.xdgGen == r.xdgGen;
    var k: nat :| Named(t, n, c, x, q, k, r.toplevel.value)
        && MadeAt(t, n, c, XdgToplevel, r.toplevel.value, k, r.toplevelGen.value);
    assert r0.toplevel.Some?;
    var k0: nat :| NamedFaithful(t, n, c, x, r0, k0, r0.toplevel.value);
    assert k == k0;
  }

  lemma SoleLiveMeaning(cfg: Config, t: seq<Row>, n: nat, c: int, conn: Conn, s: int)
    requires ConnFaithful(t, n, c, conn) && AllAdmissible(cfg, t, n)
    ensures |LiveOn(conn, s)| == 1 <==> SoleLiveRoleOn(t, n, c, s)
  {
    var live := LiveOn(conn, s);
    SingletonIff(live);
    forall x | x in live ensures LiveRoleAt(t, n, c, conn.roles[x]) && conn.roles[x].xdgSurface == x {
      LiveRoleSound(t, n, c, conn, x);
    }
    forall r | LiveRoleAt(t, n, c, r) && r.surface == s ensures r.xdgSurface in live && conn.roles[r.xdgSurface] == r {
      LiveRoleComplete(cfg, t, n, c, conn, r);
    }
    if |live| == 1 {
      var x := Only(live);
      assert LiveRoleAt(t, n, c, conn.roles[x]);
    }
    if SoleLiveRoleOn(t, n, c, s) {
      var r :| LiveRoleAt(t, n, c, r) && r.surface == s && forall r' :: LiveRoleAt(t, n, c, r') && r'.surface == s
                                                                        ==> r' == r;
      assert r.xdgSurface in live;
    }
  }

  lemma AwaitingSound(t: seq<Row>, n: nat, c: int, conn: Conn, o: int, x: int)
    requires ConnFaithful(t, n, c, conn) && x in Awaiting(conn.roles, o)
    ensures AwaitingAt(t, n, c, o, x, conn.roles[x].requestIndex)
  {
    var r := conn.roles[x];
    assert RoleFaithful(t, n, c, x, r);
    var k: nat :| NamedFaithful(t, n, c, x, r, k, o);
    assert Named(t, n, c, x, r.requestIndex, k, o);
  }

  lemma AwaitingComplete(t: seq<Row>, n: nat, c: int, conn: Conn, o: int, x: int, q: nat)
    requires ConnFaithful(t, n, c, conn) && AwaitingAt(t, n, c, o, x, q)
    ensures x in Awaiting(conn.roles, o)
  {
    assert RequestedAt(t, n, c, x, q);
    var r := conn.roles[x];
    assert RoleFaithful(t, n, c, x, r) && r.requestIndex == q;
    var k: nat :| Named(t, n, c, x, q, k, o) && Unmade(t, n, c, XdgToplevel, o, k);
    var k0: nat :| NamedFaithful(t, n, c, x, r, k0, r.toplevel.value);
    assert k == k0;
  }

  lemma AwaitingMeaning(t: seq<Row>, n: nat, c: int, conn: Conn, o: int)
    requires ConnFaithful(t, n, c, conn)
    ensures |Awaiting(conn.roles, o)| == 1 <==> SoleAwaiting(t, n, c, o)
  {
    hide ConnFaithful, AwaitingAt, AwaitsToplevel;
    var waiting := Awaiting(conn.roles, o);
    SingletonIff(waiting);
    forall x, q: nat | AwaitingAt(t, n, c, o, x, q) ensures x in waiting { AwaitingComplete(t, n, c, conn, o, x, q); }
    if |waiting| == 1 {
      AwaitingSound(t, n, c, conn, o, Only(waiting));
    }
    if SoleAwaiting(t, n, c, o) {
      var x, q: nat :| AwaitingAt(t, n, c, o, x, q) && forall x', q': nat :: AwaitingAt(t, n, c, o, x', q') ==> x' == x;
      forall y | y in waiting ensures y == x { AwaitingSound(t, n, c, conn, o, y); }
    }
  }

  lemma PeerMeaning(cfg: Config, t: seq<Row>, n: nat, c: int, conn: Conn)
    requires ConnFaithful(t, n, c, conn)
    ensures PeerExpected(cfg, t, n, c) <==> conn.peer.pid == cfg.pid && conn.peer.birth == cfg.birth
  {
    var p: nat :| AnnouncedAt(t, n, c, p);
  }

  lemma PresenceMeaning(t: seq<Row>, n: nat, c: int, conn: Conn, iface: Interface, o: int)
    requires ConnFaithful(t, n, c, conn)
    ensures Absent(t, n, c, iface, o) <==> (iface, o) !in conn.resources
  {
    if (iface, o) in conn.resources {
      assert Holds(conn.resources, iface, o, conn.resources[(iface, o)]);
    } else {
      forall g: nat ensures !LiveAt(t, n, c, iface, o, g) { assert !Holds(conn.resources, iface, o, g); }
    }
  }

  // ----- one record -----

  /** An xdg_surface id may be created when no role request waits under it that was completed before. */
  lemma XdgMeaning(t: seq<Row>, n: nat, c: int, conn: Conn, o: int)
    requires ConnFaithful(t, n, c, conn)
    ensures (forall q: nat :: RequestedAt(t, n, c, o, q) ==> Unmade(t, n, c, XdgSurface, o, q))
            <==> (o in conn.roles ==> conn.roles[o].xdgGen.None?)
  {
    if o in conn.roles {
      assert RoleFaithful(t, n, c, o, conn.roles[o]);
      assert RequestedAt(t, n, c, o, conn.roles[o].requestIndex);
    }
  }

  /** The decoder's own conditions for a creation. */
  lemma CreationGuard(cfg: Config, n: nat, row: Row, conn: Conn)
    requires row.ResourceLive?
    ensures StepConn(cfg, conn, n, row).Some? <==>
            && conn.peer.alive && !row.iface.OtherInterface? && (row.iface, row.obj) !in conn.resources
            && (row.iface.XdgSurface? ==> row.obj in conn.roles ==> conn.roles[row.obj].xdgGen.None?)
            && (row.iface.XdgToplevel? ==> |Awaiting(conn.roles, row.obj)| == 1)
  {
    hide Awaiting;
  }

  lemma CreationExact(cfg: Config, t: seq<Row>, n: nat, c: int, conn: Conn)
    requires n < |t| && ConnFaithful(t, n, c, conn)
    requires t[n].ResourceLive? && t[n].connection == c && CreationCount(t, n) < 256
    ensures StepConn(cfg, conn, n, t[n]).Some? <==> Connected(t, n, c) && RequestAdmissible(cfg, t, n)
  {
    PeerAlive(t, n, c, conn);
    hide StepConn, ConnFaithful, Connected, Absent, SoleAwaiting, RequestedAt, Unmade, Awaiting;
    var o := t[n].obj;
    PresenceMeaning(t, n, c, conn, t[n].iface, o);
    AwaitingMeaning(t, n, c, conn, o);
    XdgMeaning(t, n, c, conn, o);
    CreationGuard(cfg, n, t[n], conn);
  }

  lemma PeerAlive(t: seq<Row>, n: nat, c: int, conn: Conn)
    requires ConnFaithful(t, n, c, conn)
    ensures n <= |t| && conn.peer.alive == Connected(t, n, c)
  {
  }

  lemma ToplevelExact(cfg: Config, t: seq<Row>, n: nat, c: int, conn: Conn)
    requires n < |t| && ConnFaithful(t, n, c, conn)
    requires t[n].ToplevelRequest? && t[n].connection == c
    ensures StepConn(cfg, conn, n, t[n]).Some? <==> Connected(t, n, c) && RequestAdmissible(cfg, t, n)
  {
    hide HexToken, TokenEncoded, LiveOn, Created;
    var x := t[n].xdgSurface;
    if x in conn.roles {
      var r := conn.roles[x];
      assert RoleFaithful(t, n, c, x, r);
      if r.xdgGen.Some? {
        assert Holds(conn.resources, XdgSurface, x, r.xdgGen.value) <==> LiveAt(t, n, c, XdgSurface, x, r.xdgGen.value);
        if r.toplevel.None? && Holds(conn.resources, XdgSurface, x, r.xdgGen.value) {
          assert ReadyForToplevel(t, n, c, x, r.requestIndex, r.xdgGen.value);
        }
      }
      if r.toplevel.Some? {
        var k: nat :| NamedFaithful(t, n, c, x, r, k, r.toplevel.value);
        assert Named(t, n, c, x, r.requestIndex, k, r.toplevel.value);
      }
    }
  }

  lemma RequestExact(cfg: Config, t: seq<Row>, n: nat, c: int, conn: Conn)
    requires n < |t| && AllAdmissible(cfg, t, n) && ConnFaithful(t, n, c, conn)
    requires Concerns(t[n], c) && !t[n].Connection?
    requires t[n].ResourceLive? ==> CreationCount(t, n) < 256
    ensures StepConn(cfg, conn, n, t[n]).Some? <==>
            (t[n].ResourceDestroy? || Connected(t, n, c)) && RequestAdmissible(cfg, t, n)
  {
    hide HexToken, TokenEncoded, AllAdmissible, LiveRole, LiveOn, Created;
    match t[n]
    case ResourceLive(_, _, _) => CreationExact(cfg, t, n, c, conn);
    case ToplevelRequest(_, _, _) => ToplevelExact(cfg, t, n, c, conn);
    case ResourceDestroy(_, iface, o) => PresenceMeaning(t, n, c, conn, iface, o);
    case Destroy(_, iface, o) => PresenceMeaning(t, n, c, conn, iface, o);
    case XdgSurfaceRequest(_, x, s) =>
      PresenceMeaning(t, n, c, conn, WlSurface, s);
      PresenceMeaning(t, n, c, conn, XdgSurface, x);
    case Activate(_, s, token) =>
      TokenExactly(token);
      SoleLiveMeaning(cfg, t, n, c, conn, s);
      PeerMeaning(cfg, t, n, c, conn);
    case _ =>
  }

  lemma StepExact(cfg: Config, t: seq<Row>, n: nat, s: State)
    requires n < |t| && AllAdmissible(cfg, t, n) && StateFaithful(cfg, t, n, s)
    ensures Step(cfg, s, n, t[n]).Some? <==> Admissible(cfg, t, n)
  {
    hide HexToken;
    var row := t[n];
    SoundExactly(row);
    if IntegersOk(row) && n > 0 && !row.Ready? && !row.Connection? {
      var c := row.connection;
      if c in s.conns && (row.ResourceLive? ==> CreationCount(t, n) < 256) {
        assert Concerns(row, c);
        RequestExact(cfg, t, n, c, s.conns[c]);
        assert exists p: nat :: AnnouncedAt(t, n, c, p);
      }
    }
  }

  lemma FreshConn(t: seq<Row>, n: nat, m: nat, c: int, conn: Conn)
    requires n < |t| && m == n + 1 && t[n].Connection? && t[n].connection == c
    requires conn == Conn(Peer(t[n].pid, t[n].birth, t[n].pidfd, true), map[], map[])
    requires forall j :: 0 <= j < n ==> !Concerns(t[j], c)
    ensures ConnFaithful(t, m, c, conn)
  {
    assert AnnouncedAt(t, m, c, n);
    assert forall p: nat :: AnnouncedAt(t, m, c, p) ==> Announces(t[p], conn.peer);
    assert Connected(t, m, c);
    forall iface, o, g: nat ensures Holds(conn.resources, iface, o, g) <==> LiveAt(t, m, c, iface, o, g) {
      if g < m { assert !Concerns(t[g], c) || t[g].Connection?; }
    }
    forall x, q: nat ensures !RequestedAt(t, m, c, x, q) {
      if q < m { assert !Concerns(t[q], c) || t[q].Connection?; }
    }
  }

  /** Connections a record does not concern keep their claims. */
  lemma OthersKept(t: seq<Row>, n: nat, m: nat, conns: map<int, Conn>)
    requires n < |t| && m == n + 1 && ConnsFaithful(t, n, conns)
    ensures forall c :: c in conns && !Concerns(t[n], c) ==> ConnFaithful(t, m, c, conns[c])
    ensures forall c, p: nat :: AnnouncedAt(t, m, c, p) ==> c in conns || (t[n].Connection? && t[n].connection == c)
  {
    forall c | c in conns && !Concerns(t[n], c) ensures ConnFaithful(t, m, c, conns[c]) {
      ConnFrame(t, n, c, conns[c]);
    }
    forall c, p: nat | AnnouncedAt(t, m, c, p) ensures c in conns || (t[n].Connection? && t[n].connection == c) {
      if p < n { assert AnnouncedAt(t, n, c, p); }
    }
  }

  lemma ConnsAnnounce(t: seq<Row>, n: nat, m: nat, conns: map<int, Conn>, conn: Conn)
    requires n < |t| && m == n + 1 && ConnsFaithful(t, n, conns)
    requires t[n].Connection? && t[n].connection == |conns| + 1
    requires ConnFaithful(t, m, t[n].connection, conn)
    ensures ConnsFaithful(t, m, conns[t[n].connection := conn])
  {
    hide ConnFaithful, AnnouncedAt;
    OthersKept(t, n, m, conns);
    assert forall c :: c in conns ==> !Concerns(t[n], c);
  }

  lemma ConnsUpdate(t: seq<Row>, n: nat, m: nat, conns: map<int, Conn>, c: int, conn: Conn)
    requires n < |t| && m == n + 1 && ConnsFaithful(t, n, conns)
    requires c in conns && Concerns(t[n], c) && !t[n].Connection? && ConnFaithful(t, m, c, conn)
    ensures ConnsFaithful(t, m, conns[c := conn])
  {
    hide ConnFaithful, AnnouncedAt;
    OthersKept(t, n, m, conns);
    assert conns[c := conn].Keys == conns.Keys;
  }

  /** A record can only name a connection that an earlier record announced. */
  lemma NamedConnectionsKnown(cfg: Config, t: seq<Row>, n: nat, conns: map<int, Conn>, c: int)
    requires n <= |t| && AllAdmissible(cfg, t, n) && ConnsFaithful(t, n, conns) && c !in conns
    ensures forall j :: 0 <= j < n ==> !Concerns(t[j], c)
  {
    forall j | 0 <= j < n ensures !Concerns(t[j], c) {
      assert Admissible(cfg, t, j);
      assert !AnnouncedAt(t, n, c, j);
      assert forall p: nat :: AnnouncedAt(t, j, c, p) ==> AnnouncedAt(t, n, c, p);
    }
  }

  lemma ReadyStep(t: seq<Row>, n: nat, m: nat, conns: map<int, Conn>)
    requires n < |t| && m == n + 1 && t[n].Ready? && ConnsFaithful(t, n, conns)
    ensures ConnsFaithful(t, m, conns)
  {
    OthersKept(t, n, m, conns);
  }

  lemma ActivationStep(cfg: Config, t: seq<Row>, n: nat, s: State)
    requires n < |t| && AllAdmissible(cfg, t, n) && StateFaithful(cfg, t, n, s) && Step(cfg, s, n, t[n]).Some?
    ensures ActivationsFaithful(cfg, t, n + 1, Step(cfg, s, n, t[n]).value.activations)
  {
    ActivationIs(cfg, s, n, t[n]);
    hide Step, AllAdmissible, LiveRoleAt, LiveOn, ConnFaithful, CreationCount;
    if IsTokenRow(cfg, t[n]) {
      var c := t[n].connection;
      LiveRoleSound(t, n, c, s.conns[c], Only(LiveOn(s.conns[c], t[n].surface)));
    }
  }

  lemma ActivationIs(cfg: Config, s: State, n: nat, row: Row)
    requires Step(cfg, s, n, row).Some?
    ensures var acts := Step(cfg, s, n, row).value.activations;
      if IsTokenRow(cfg, row) then
        && row.connection in s.conns
        && var conn := s.conns[row.connection];
           && |LiveOn(conn, row.surface)| == 1
           && var x := Only(LiveOn(conn, row.surface));
              && x in conn.roles && conn.roles[x].surface == row.surface && LiveRole(conn, conn.roles[x])
              && acts == s.activations + [Identity(row.connection, conn.roles[x])]
      else acts == s.activations
  {
    hide TokenEncoded, LiveRole;
    assert s.activations + [] == s.activations;
  }

  lemma StepFaithful(cfg: Config, t: seq<Row>, n: nat, s: State)
    requires n < |t| && AllAdmissible(cfg, t, n) && StateFaithful(cfg, t, n, s) && Step(cfg, s, n, t[n]).Some?
    ensures StateFaithful(cfg, t, n + 1, Step(cfg, s, n, t[n]).value)
  {
    hide Sound, HexToken;
    ActivationStep(cfg, t, n, s);
    hide ActivationsFaithful, ConnsFaithful, ConnFaithful, StepConn, AllAdmissible, Concerns;
    if t[n].Ready? {
      ReadyStep(t, n, n + 1, s.conns);
    } else if t[n].Connection? {
      NamedConnectionsKnown(cfg, t, n, s.conns, t[n].connection);
      var conn := Conn(Peer(t[n].pid, t[n].birth, t[n].pidfd, true), map[], map[]);
      FreshConn(t, n, n + 1, t[n].connection, conn);
      ConnsAnnounce(t, n, n + 1, s.conns, conn);
    } else {
      var c := t[n].connection;
      var conn' := StepConn(cfg, s.conns[c], n, t[n]).value.0;
      ConnStep(cfg, t, n, c, s.conns[c], conn');
      ConnsUpdate(t, n, n + 1, s.conns, c, conn');
    }
  }

  // ----- whole traces -----

  lemma AdmissibleSplit(cfg: Config, t: seq<Row>, n: nat)
    requires 0 < n <= |t|
    ensures AllAdmissible(cfg, t, n) <==> AllAdmissible(cfg, t, n - 1) && Admissible(cfg, t, n - 1)
  {
  }

  /** The record loop refuses a prefix exactly when one of its records is inadmissible after its
      predecessors; otherwise every dictionary entry is the trace fact it stands for. */
  lemma {:induction false} RunFaithful(cfg: Config, t: seq<Row>, n: nat)
    requires n <= |t|
    ensures Run(cfg, t, n).Some? <==> AllAdmissible(cfg, t, n)
    ensures Run(cfg, t, n).Some? ==> StateFaithful(cfg, t, n, Run(cfg, t, n).value)
  {
    hide Step, StateFaithful, Admissible, AllAdmissible;
    if n == 0 {
      NothingYet(cfg, t);
    } else {
      RunFaithful(cfg, t, n - 1);
      AdmissibleSplit(cfg, t, n);
      if AllAdmissible(cfg, t, n - 1) {
        var s := Run(cfg, t, n - 1).value;
        StepExact(cfg, t, n - 1, s);
        if Step(cfg, s, n - 1, t[n - 1]).Some? { StepFaithful(cfg, t, n - 1, s); }
      }
    }
  }

  lemma NothingYet(cfg: Config, t: seq<Row>)
    ensures StateFaithful(cfg, t, 0, INITIAL) && AllAdmissible(cfg, t, 0)
  {
  }

  /** What an accepted trace is, and which surface it selects. */
  ghost predicate Selected(cfg: Config, t: seq<Row>, sel: Selection) {
    && 0 < |t| <= 512 && AllAdmissible(cfg, t, |t|)
    && (exists a: nat :: SoleActivation(cfg, t, a, sel))
    && LiveRoleAt(t, |t|, sel.connection, sel.role)
    && (exists p: nat :: AnnouncedAt(t, |t|, sel.connection, p) && t[p].pidfd == sel.pidfd)
    && PeerExpected(cfg, t, |t|, sel.connection)
    && (forall c, r :: LiveRoleAt(t, |t|, c, r) && PeerExpected(cfg, t, |t|, c)
                       ==> c == sel.connection && r == sel.role)
  }

  /** Record `a` is the only activation with the token and the selected incarnation was already the
      live role of its surface when it arrived. */
  ghost predicate SoleActivation(cfg: Config, t: seq<Row>, a: nat, sel: Selection) {
    && a < |t| && IsTokenRow(cfg, t[a])
    && (forall j :: 0 <= j < |t| && IsTokenRow(cfg, t[j]) ==> j == a)
    && t[a].connection == sel.connection && t[a].surface == sel.role.surface
    && LiveRoleAt(t, a, sel.connection, sel.role)
  }

  lemma {:induction false} TokenRowsMeaning(cfg: Config, t: seq<Row>, n: nat)
    requires n <= |t|
    ensures var rows := TokenRows(cfg, t, n);
      && (forall i :: 0 <= i < |rows| ==> rows[i] < n && IsTokenRow(cfg, t[rows[i]]))
      && (|rows| > 1 ==> rows[0] < rows[1])
      && (forall j: nat :: j < n && IsTokenRow(cfg, t[j]) ==> j in rows)
  {
    hide IsTokenRow;
    if n > 0 {
      TokenRowsMeaning(cfg, t, n - 1);
      var before, rows := TokenRows(cfg, t, n - 1), TokenRows(cfg, t, n);
      assert rows == if IsTokenRow(cfg, t[n - 1]) then before + [n - 1] else before;
      hide TokenRows;
      assert forall j: nat :: j in before ==> j in rows;
    }
  }

  lemma CandidatesMeaning(cfg: Config, t: seq<Row>, n: nat, conns: map<int, Conn>)
    requires n <= |t| && AllAdmissible(cfg, t, n) && ConnsFaithful(t, n, conns)
    ensures forall c, x :: (c, x) in Candidates(cfg, conns) ==>
      PeerExpected(cfg, t, n, c) && LiveRoleAt(t, n, c, conns[c].roles[x]) && conns[c].roles[x].xdgSurface == x
    ensures forall c, r :: LiveRoleAt(t, n, c, r) && PeerExpected(cfg, t, n, c) ==>
      (c, r.xdgSurface) in Candidates(cfg, conns) && conns[c].roles[r.xdgSurface] == r
  {
    forall c, x | (c, x) in Candidates(cfg, conns)
      ensures PeerExpected(cfg, t, n, c) && LiveRoleAt(t, n, c, conns[c].roles[x]) && conns[c].roles[x].xdgSurface == x
    {
      PeerMeaning(cfg, t, n, c, conns[c]);
      LiveRoleSound(t, n, c, conns[c], x);
    }
    forall c, r | LiveRoleAt(t, n, c, r) && PeerExpected(cfg, t, n, c)
      ensures (c, r.xdgSurface) in Candidates(cfg, conns) && conns[c].roles[r.xdgSurface] == r
    {
      PeerMeaning(cfg, t, n, c, conns[c]);
      LiveRoleComplete(cfg, t, n, c, conns[c], r);
    }
  }

  lemma OneActivation(cfg: Config, t: seq<Row>, acts: seq<Identity>, sel: Selection)
    requires ActivationsFaithful(cfg, t, |t|, acts) && acts == [Identity(sel.connection, sel.role)]
    ensures exists a: nat :: SoleActivation(cfg, t, a, sel)
  {
    hide LiveRoleAt, IsTokenRow, TokenRows;
    TokenRowsMeaning(cfg, t, |t|);
    var rows := TokenRows(cfg, t, |t|);
    var a := rows[0];
    assert rows == [a];
    assert ActivationFaithful(t, a, acts[0]);
    assert SoleActivation(cfg, t, a, sel);
  }

  lemma SoleCandidate(cfg: Config, t: seq<Row>, conns: map<int, Conn>, c: int, x: int)
    requires AllAdmissible(cfg, t, |t|) && ConnsFaithful(t, |t|, conns) && Candidates(cfg, conns) == {(c, x)}
    ensures c in conns && x in conns[c].roles
    ensures LiveRoleAt(t, |t|, c, conns[c].roles[x]) && PeerExpected(cfg, t, |t|, c)
    ensures forall c', r :: LiveRoleAt(t, |t|, c', r) && PeerExpected(cfg, t, |t|, c')
                            ==> c' == c && r == conns[c].roles[x]
  {
    CandidatesMeaning(cfg, t, |t|, conns);
    assert (c, x) in Candidates(cfg, conns);
    forall c', r | LiveRoleAt(t, |t|, c', r) && PeerExpected(cfg, t, |t|, c')
        ensures c' == c && r == conns[c].roles[x] {
      assert (c', r.xdgSurface) in Candidates(cfg, conns);
    }
  }

  lemma FinishSound(cfg: Config, t: seq<Row>, s: State, sel: Selection)
    requires 0 < |t| <= 512 && AllAdmissible(cfg, t, |t|) && StateFaithful(cfg, t, |t|, s)
    requires Finish(cfg, s) == Some(sel)
    ensures Selected(cfg, t, sel)
  {
    hide AllAdmissible, LiveRoleAt, SoleActivation, ConnFaithful, ActivationsFaithful, PeerExpected, Candidates;
    var (c, x) := Only(Candidates(cfg, s.conns));
    assert Candidates(cfg, s.conns) == {(c, x)} by { SingletonIff(Candidates(cfg, s.conns)); }
    SoleCandidate(cfg, t, s.conns, c, x);
    assert s.activations == [Identity(c, s.conns[c].roles[x])];
    OneActivation(cfg, t, s.activations, sel);
    PidfdMeaning(t, |t|, c, s.conns[c]);
  }

  lemma SelectedCandidate(cfg: Config, t: seq<Row>, conns: map<int, Conn>, sel: Selection)
    requires ConnsFaithful(t, |t|, conns) && Selected(cfg, t, sel)
    ensures Candidates(cfg, conns) == {(sel.connection, sel.role.xdgSurface)}
    ensures conns[sel.connection].roles[sel.role.xdgSurface] == sel.role
  {
    CandidatesMeaning(cfg, t, |t|, conns);
    var key := (sel.connection, sel.role.xdgSurface);
    assert key in Candidates(cfg, conns);
    forall other | other in Candidates(cfg, conns) ensures other == key {
      assert LiveRoleAt(t, |t|, other.0, conns[other.0].roles[other.1]);
    }
  }

  lemma SelectedActivation(cfg: Config, t: seq<Row>, acts: seq<Identity>, sel: Selection)
    requires ActivationsFaithful(cfg, t, |t|, acts) && Selected(cfg, t, sel)
    ensures acts == [Identity(sel.connection, sel.role)]
  {
    hide LiveRoleAt, SoleLiveRoleOn, IsTokenRow, TokenRows, Admissible;
    TokenRowsMeaning(cfg, t, |t|);
    var rows := TokenRows(cfg, t, |t|);
    var a: nat :| SoleActivation(cfg, t, a, sel);
    assert a in rows;
    assert |rows| == 1;
    assert ActivationFaithful(t, a, acts[0]);
    TokenRowSole(cfg, t, a);
    SoleIsSame(t, a, sel.connection, t[a].surface, sel.role, acts[0].role);
  }

  lemma FinishComplete(cfg: Config, t: seq<Row>, s: State, sel: Selection)
    requires StateFaithful(cfg, t, |t|, s) && Selected(cfg, t, sel)
    ensures Finish(cfg, s) == Some(sel)
  {
    SelectedCandidate(cfg, t, s.conns, sel);
    SelectedActivation(cfg, t, s.activations, sel);
    assert Only(Candidates(cfg, s.conns)) == (sel.connection, sel.role.xdgSurface);
    PidfdMeaning(t, |t|, sel.connection, s.conns[sel.connection]);
  }

  lemma PidfdMeaning(t: seq<Row>, n: nat, c: int, conn: Conn)
    requires ConnFaithful(t, n, c, conn)
    ensures exists p: nat :: AnnouncedAt(t, n, c, p)
    ensures forall p: nat :: AnnouncedAt(t, n, c, p) ==> t[p].pidfd == conn.peer.pidfd
  {
  }

  lemma TokenRowSole(cfg: Config, t: seq<Row>, a: nat)
    requires a < |t| && Admissible(cfg, t, a) && IsTokenRow(cfg, t[a])
    ensures SoleLiveRoleOn(t, a, t[a].connection, t[a].surface)
  {
  }

  lemma SoleIsSame(t: seq<Row>, a: nat, c: int, s: int, r: Role, r': Role)
    requires SoleLiveRoleOn(t, a, c, s) && LiveRoleAt(t, a, c, r) && LiveRoleAt(t, a, c, r')
    requires r.surface == r'.surface == s
    ensures r == r'
  {
  }

  /** The decoder selects `sel` exactly when the trace says so: both directions, every trace. */
  lemma SelectExactly(cfg: Config, t: seq<Row>, sel: Selection)
    ensures Select(cfg, t) == Some(sel) <==> Selected(cfg, t, sel)
  {
    RunFaithful(cfg, t, |t|);
    if Run(cfg, t, |t|).Some? {
      var s := Run(cfg, t, |t|).value;
      if Select(cfg, t) == Some(sel) { FinishSound(cfg, t, s, sel); }
      if Selected(cfg, t, sel) { FinishComplete(cfg, t, s, sel); }
    }
  }
}
