/** `selected_server_surface` in the program's own form: one loop over the records that updates
    dictionaries keyed by (connection, interface, object) and (connection, xdg_surface). */
module ServerSurfaceMethod {
  import opened Options
  import opened ServerSurface
  import opened ServerSurfaceSelection

  type Resources = map<(int, Interface, int), nat>
  type Roles = map<(int, int), Role>

  // ----- the dictionaries and the connections they spread out -----

  ghost predicate PeersMatch(connections: map<int, Peer>, conns: map<int, Conn>) {
    connections.Keys == conns.Keys && forall c :: c in conns ==> conns[c].peer == connections[c]
  }

  ghost predicate ResourcesMatch(resources: Resources, conns: map<int, Conn>) {
    forall k: (int, Interface, int) ::
      && (k in resources <==> k.0 in conns && (k.1, k.2) in conns[k.0].resources)
      && (k in resources ==> resources[k] == conns[k.0].resources[(k.1, k.2)])
  }

  ghost predicate RolesMatch(roles: Roles, conns: map<int, Conn>) {
    forall k: (int, int) ::
      && (k in roles <==> k.0 in conns && k.1 in conns[k.0].roles)
      && (k in roles ==> roles[k] == conns[k.0].roles[k.1])
  }

  ghost predicate Represents(connections: map<int, Peer>, resources: Resources, roles: Roles, conns: map<int, Conn>) {
    PeersMatch(connections, conns) && ResourcesMatch(resources, conns) && RolesMatch(roles, conns)
  }

  function Resource(resources: Resources, c: int, iface: Interface, o: int): Option<nat> {
    if (c, iface, o) in resources then Some(resources[(c, iface, o)]) else None
  }

  predicate LiveFlat(connections: map<int, Peer>, resources: Resources, c: int, role: Role)
    requires c in connections
  {
    && connections[c].alive && role.xdgGen.Some? && role.toplevelGen.Some? && role.toplevel.Some?
    && Resource(resources, c, WlSurface, role.surface) == Some(role.surfaceGen)
    && Resource(resources, c, XdgSurface, role.xdgSurface) == role.xdgGen
    && Resource(resources, c, XdgToplevel, role.toplevel.value) == role.toplevelGen
  }

  lemma LiveMatch(connections: map<int, Peer>, resources: Resources, conns: map<int, Conn>, c: int, role: Role)
    requires PeersMatch(connections, conns) && ResourcesMatch(resources, conns) && c in conns
    ensures LiveFlat(connections, resources, c, role) == LiveRole(conns[c], role)
  {
  }

  /** Keys of one connection and the members they stand for. */
  lemma PairSet(c: int, flat: set<(int, int)>, xs: set<int>)
    requires forall k :: k in flat <==> k.0 == c && k.1 in xs
    ensures |flat| == 1 <==> |xs| == 1
    ensures |flat| == 1 ==> Only(flat) == (c, Only(xs))
  {
    SingletonIff(flat);
    SingletonIff(xs);
    if |flat| == 1 {
      forall x | x in xs ensures x == Only(flat).1 {
        assert (c, x) in flat;
        SingletonMembers(flat, (c, x), Only(flat));
      }
    }
    if |xs| == 1 {
      assert (c, Only(xs)) in flat;
      forall k | k in flat ensures k == (c, Only(xs)) { SingletonMembers(xs, k.1, Only(xs)); }
    }
  }

  function AwaitingFlat(roles: Roles, c: int, o: int): set<(int, int)> {
    set k | k in roles && k.0 == c && AwaitsToplevel(roles[k], o)
  }

  lemma AwaitingMatch(connections: map<int, Peer>, resources: Resources, roles: Roles, conns: map<int, Conn>, c: int,
                      o: int)
    requires Represents(connections, resources, roles, conns) && c in conns
    ensures |AwaitingFlat(roles, c, o)| == 1 <==> |Awaiting(conns[c].roles, o)| == 1
    ensures |AwaitingFlat(roles, c, o)| == 1
        ==> Only(AwaitingFlat(roles, c, o)) == (c, Only(Awaiting(conns[c].roles, o)))
  {
    forall k ensures k in AwaitingFlat(roles, c, o) <==> k.0 == c && k.1 in Awaiting(conns[c].roles, o) {
      assert k in roles <==> k.0 in conns && k.1 in conns[k.0].roles;
    }
    PairSet(c, AwaitingFlat(roles, c, o), Awaiting(conns[c].roles, o));
  }

  function LiveOnFlat(connections: map<int, Peer>, resources: Resources, roles: Roles, c: int, s: int): set<(int, int)>
    requires c in connections
  {
    set k | k in roles && k.0 == c && roles[k].surface == s && LiveFlat(connections, resources, c, roles[k])
  }

  lemma LiveOnMatch(connections: map<int, Peer>, resources: Resources, roles: Roles, conns: map<int, Conn>, c: int,
                    s: int)
    requires Represents(connections, resources, roles, conns) && c in conns
    ensures var flat, live := LiveOnFlat(connections, resources, roles, c, s), LiveOn(conns[c], s);
      (|flat| == 1 <==> |live| == 1) && (|flat| == 1 ==> Only(flat) == (c, Only(live)))
  {
    var flat, live := LiveOnFlat(connections, resources, roles, c, s), LiveOn(conns[c], s);
    forall k ensures k in flat <==> k.0 == c && k.1 in live {
      assert k in roles <==> k.0 in conns && k.1 in conns[k.0].roles;
      if k in roles && k.0 == c { LiveMatch(connections, resources, conns, c, roles[k]); }
    }
    PairSet(c, flat, live);
  }

  function CandidatesFlat(cfg: Config, connections: map<int, Peer>, resources: Resources, roles: Roles)
      : set<(int, int)>
  {
    set k | k in roles && k.0 in connections && connections[k.0].pid == cfg.pid && connections[k.0].birth == cfg.birth
            && LiveFlat(connections, resources, k.0, roles[k])
  }

  lemma CandidatesMatch(cfg: Config, connections: map<int, Peer>, resources: Resources, roles: Roles,
                        conns: map<int, Conn>)
    requires Represents(connections, resources, roles, conns)
    ensures CandidatesFlat(cfg, connections, resources, roles) == Candidates(cfg, conns)
  {
    forall c, x
        ensures (c, x) in CandidatesFlat(cfg, connections, resources, roles) <==> (c, x) in Candidates(cfg, conns) {
      assert (c, x) in roles <==> c in conns && x in conns[c].roles;
      if (c, x) in roles { LiveMatch(connections, resources, conns, c, roles[(c, x)]); }
    }
    forall k: (int, int)
        ensures k in CandidatesFlat(cfg, connections, resources, roles) <==> k in Candidates(cfg, conns) {
      assert k == (k.0, k.1);
    }
  }

  lemma NothingRepresented()
    ensures Represents(map[], map[], map[], map[])
  {
  }

  lemma KeysMeaning(connections: map<int, Peer>, resources: Resources, roles: Roles, conns: map<int, Conn>)
    requires Represents(connections, resources, roles, conns)
    ensures connections.Keys == conns.Keys
  {
  }

  lemma ResourceMeaning(connections: map<int, Peer>, resources: Resources, roles: Roles, conns: map<int, Conn>, c: int,
                        iface: Interface, o: int)
    requires Represents(connections, resources, roles, conns) && c in conns
    ensures Resource(resources, c, iface, o) == if (iface, o) in conns[c].resources
        then Some(conns[c].resources[(iface, o)]) else None
  {
  }

  lemma RoleMeaning(connections: map<int, Peer>, resources: Resources, roles: Roles, conns: map<int, Conn>, c: int,
                    x: int)
    requires Represents(connections, resources, roles, conns) && c in conns
    ensures (c, x) in roles <==> x in conns[c].roles
    ensures (c, x) in roles ==> roles[(c, x)] == conns[c].roles[x]
    ensures c in connections && connections[c] == conns[c].peer
  {
  }

  lemma ResourceSet(connections: map<int, Peer>, resources: Resources, roles: Roles, conns: map<int, Conn>,
                    c: int, iface: Interface, o: int, g: nat)
    requires Represents(connections, resources, roles, conns) && c in conns
    ensures Represents(connections, resources[(c, iface, o) := g], roles,
                       conns[c := conns[c].(resources := conns[c].resources[(iface, o) := g])])
  {
  }

  lemma ResourceDropped(connections: map<int, Peer>, resources: Resources, roles: Roles, conns: map<int, Conn>,
                        c: int, iface: Interface, o: int)
    requires Represents(connections, resources, roles, conns) && c in conns
    ensures Represents(connections, resources - {(c, iface, o)}, roles,
                       conns[c := conns[c].(resources := conns[c].resources - {(iface, o)})])
  {
  }

  lemma RoleSet(connections: map<int, Peer>, resources: Resources, roles: Roles, conns: map<int, Conn>, c: int, x: int,
                r: Role)
    requires Represents(connections, resources, roles, conns) && c in conns
    ensures Represents(connections, resources, roles[(c, x) := r],
        conns[c := conns[c].(roles := conns[c].roles[x := r])])
  {
  }

  lemma PeerGone(connections: map<int, Peer>, resources: Resources, roles: Roles, conns: map<int, Conn>, c: int,
                 p: Peer)
    requires Represents(connections, resources, roles, conns) && c in conns
    ensures Represents(connections[c := p], resources, roles, conns[c := conns[c].(peer := p)])
  {
  }

  lemma PeerAnnounced(connections: map<int, Peer>, resources: Resources, roles: Roles, conns: map<int, Conn>, c: int,
                      p: Peer)
    requires Represents(connections, resources, roles, conns) && c !in connections
    ensures Represents(connections[c := p], resources, roles, conns[c := Conn(p, map[], map[])])
  {
  }

  lemma {:induction false} RefusalSticks(cfg: Config, t: seq<Row>, n: nat, m: nat)
    requires n <= m <= |t| && Run(cfg, t, n).None?
    ensures Run(cfg, t, m).None?
  {
    if n < m { RefusalSticks(cfg, t, n, m - 1); }
  }

  lemma StepRefused(cfg: Config, t: seq<Row>, n: nat, s: State)
    requires n < |t| <= 512 && Run(cfg, t, n) == Some(s) && Step(cfg, s, n, t[n]).None?
    ensures Select(cfg, t).None?
  {
    RefusalSticks(cfg, t, n + 1, |t|);
  }

  lemma RunOn(cfg: Config, t: seq<Row>, n: nat, s: State)
    requires n < |t| && Run(cfg, t, n) == Some(s)
    ensures Run(cfg, t, n + 1) == Step(cfg, s, n, t[n])
  {
  }

  // ----- the loop -----

  /** A resource creation: `resources[key] = index`, then the role that was waiting for it. */
  method CreateResource(resources: Resources, roles: Roles, index: nat, row: Row,
                        ghost connections: map<int, Peer>, ghost conns: map<int, Conn>)
    returns (ok: bool, resources': Resources, roles': Roles)
    requires row.ResourceLive? && row.connection in conns && conns[row.connection].peer.alive
    requires !row.iface.OtherInterface? && Represents(connections, resources, roles, conns)
    ensures ok <==> (row.iface, row.obj) !in conns[row.connection].resources
                    && Created(conns[row.connection], index, row.iface, row.obj).Some?
    ensures ok ==> Represents(connections, resources', roles',
      conns[row.connection := Created(conns[row.connection], index, row.iface, row.obj).value.0])
  {
    hide Represents;
    var c, o := row.connection, row.obj;
    ResourceMeaning(connections, resources, roles, conns, c, row.iface, o);
    RoleMeaning(connections, resources, roles, conns, c, o);
    ResourceSet(connections, resources, roles, conns, c, row.iface, o, index);
    resources', roles' := resources, roles;
    if Resource(resources, c, row.iface, o).Some? { return false, resources, roles; }
    resources' := resources[(c, row.iface, o) := index];
    ghost var made := conns[c].(resources := conns[c].resources[(row.iface, o) := index]);
    if row.iface == XdgSurface && (c, o) in roles {
      if roles[(c, o)].xdgGen.Some? { return false, resources, roles; }
      roles' := roles[(c, o) := roles[(c, o)].(xdgGen := Some(index))];
      RoleSet(connections, resources', roles, conns[c := made], c, o, roles[(c, o)].(xdgGen := Some(index)));
    }
    if row.iface == XdgToplevel {
      AwaitingMatch(connections, resources, roles, conns, c, o);
      var matches := AwaitingFlat(roles, c, o);
      if |matches| != 1 { return false, resources, roles; }
      var k := Only(matches);
      RoleMeaning(connections, resources, roles, conns, c, k.1);
      roles' := roles[k := roles[k].(toplevelGen := Some(index))];
      RoleSet(connections, resources', roles, conns[c := made], c, k.1, roles[k].(toplevelGen := Some(index)));
    }
    ok := true;
    assert conns[c := made][c := Created(conns[c], index, row.iface, o).value.0]
        == conns[c := Created(conns[c], index, row.iface, o).value.0];
  }

  /** The request, resource and disconnect records of one connection. */
  method ReadRequest(cfg: Config, index: nat, row: Row, connections: map<int, Peer>, resources: Resources, roles: Roles,
                     ghost conns: map<int, Conn>)
    returns (ok: bool, connections': map<int, Peer>, resources': Resources, roles': Roles, activated: Option<Role>)
    requires !row.Malformed? && !row.Ready? && !row.Fault? && !row.Connection?
    requires row.connection in connections && row.connection in conns
        && Represents(connections, resources, roles, conns)
    ensures ok <==> StepConn(cfg, conns[row.connection], index, row).Some?
    ensures ok ==> activated == StepConn(cfg, conns[row.connection], index, row).value.1
    ensures ok ==> Represents(connections', resources', roles',
                              conns[row.connection := StepConn(cfg, conns[row.connection], index, row).value.0])
  {
    hide Represents, Created;
    var c := row.connection;
    RoleMeaning(connections, resources, roles, conns, c, 0);
    var peer := connections[c];
    ok, connections', resources', roles', activated := false, connections, resources, roles, None;
    if row.ClientDestroy? {
      if peer.alive {
        ok, connections' := true, connections[c := peer.(alive := false)];
        PeerGone(connections, resources, roles, conns, c, peer.(alive := false));
      }
      return;
    }
    // On a disconnect the resources go after the client does.
    if !peer.alive && !row.ResourceDestroy? { return; }
    assert conns[c := conns[c]] == conns;
    match row
    case ResourceLive(_, iface, o) =>
      if iface.OtherInterface? { return; }
      ok, resources', roles' := CreateResource(resources, roles, index, row, connections, conns);
      CreationActivatesNothing(conns[c], index, iface, o);
    case ResourceDestroy(_, iface, o) =>
      ResourceMeaning(connections, resources, roles, conns, c, iface, o);
      if iface.OtherInterface? || Resource(resources, c, iface, o).None? { return; }
      ok, resources' := true, resources - {(c, iface, o)};
      ResourceDropped(connections, resources, roles, conns, c, iface, o);
    case Destroy(_, iface, o) =>
      ResourceMeaning(connections, resources, roles, conns, c, iface, o);
      ok := !iface.OtherInterface? && Resource(resources, c, iface, o).Some?;
    case XdgSurfaceRequest(_, x, surface) =>
      ResourceMeaning(connections, resources, roles, conns, c, WlSurface, surface);
      ResourceMeaning(connections, resources, roles, conns, c, XdgSurface, x);
      var generation := Resource(resources, c, WlSurface, surface);
      if generation.None? || Resource(resources, c, XdgSurface, x).Some? { return; }
      ok, roles' := true, roles[(c, x) := Role(surface, generation.value, x, None, None, None, index)];
      RoleSet(connections, resources, roles, conns, c, x, roles'[(c, x)]);
    case ToplevelRequest(_, x, toplevel) =>
      RoleMeaning(connections, resources, roles, conns, c, x);
      ResourceMeaning(connections, resources, roles, conns, c, XdgSurface, x);
      if (c, x) !in roles { return; }
      var role := roles[(c, x)];
      if role.xdgGen.None? || Resource(resources, c, XdgSurface, x) != role.xdgGen || role.toplevel.Some? { return; }
      ok, roles' := true, roles[(c, x) := role.(toplevel := Some(toplevel))];
      RoleSet(connections, resources, roles, conns, c, x, roles'[(c, x)]);
    case Activate(_, surface, token) =>
      if !TokenEncoded(token) { return; }
      ok := true;
      if cfg.isToken(token) {
        LiveOnMatch(connections, resources, roles, conns, c, surface);
        var candidates := LiveOnFlat(connections, resources, roles, c, surface);
        ok := peer.pid == cfg.pid && peer.birth == cfg.birth && |candidates| == 1;
        if ok {
          activated := Some(roles[Only(candidates)]);
          RoleMeaning(connections, resources, roles, conns, c, Only(candidates).1);
        }
      }
  }

  lemma CreationActivatesNothing(conn: Conn, index: nat, iface: Interface, o: int)
    ensures Created(conn, index, iface, o).Some? ==> Created(conn, index, iface, o).value.1.None?
  {
  }

  /** The join of the sole activation with the sole live role of the expected peer. */
  method Conclude(cfg: Config, connections: map<int, Peer>, resources: Resources, roles: Roles,
                  activations: seq<Identity>, ready: bool, ghost creations: nat, ghost conns: map<int, Conn>)
      returns (r: Option<Selection>)
    requires Represents(connections, resources, roles, conns)
    ensures r == Finish(cfg, State(ready, conns, activations, creations))
  {
    hide Represents;
    CandidatesMatch(cfg, connections, resources, roles, conns);
    KeysMeaning(connections, resources, roles, conns);
    var candidates := CandidatesFlat(cfg, connections, resources, roles);
    if !ready || |activations| != 1 || |candidates| != 1 { return None; }
    var k := Only(candidates);
    RoleMeaning(connections, resources, roles, conns, k.0, k.1);
    if Identity(k.0, roles[k]) != activations[0] { return None; }
    return Some(Selection(k.0, connections[k.0].pidfd, roles[k]));
  }

  /** A new connection record. */
  method ReadConnection(cfg: Config, row: Row, connections: map<int, Peer>, ghost resources: Resources,
                        ghost roles: Roles, ghost s: State)
    returns (ok: bool, connections': map<int, Peer>)
    requires row.Connection? && Represents(connections, resources, roles, s.conns)
    requires forall c :: c in s.conns <==> 1 <= c <= |s.conns|
    ensures ok <==> Announce(cfg, s, row).Some?
    ensures ok ==> var conns' := Announce(cfg, s, row).value.conns;
      && Announce(cfg, s, row).value == s.(conns := conns')
      && Represents(connections', resources, roles, conns')
      && forall c :: c in conns' <==> 1 <= c <= |conns'|
  {
    hide Represents;
    KeysMeaning(connections, resources, roles, s.conns);
    assert |connections| == |connections.Keys| == |s.conns.Keys| == |s.conns|;
    if row.connection != |connections| + 1 || |connections| >= 128 || row.uid != 1000 || row.gid != 1000
       || row.pid == cfg.compositorPID || row.pidfd < 3 {
      return false, connections;
    }
    var peer := Peer(row.pid, row.birth, row.pidfd, true);
    PeerAnnounced(connections, resources, roles, s.conns, row.connection, peer);
    return true, connections[row.connection := peer];
  }

  /** The decoder's loop. Every `return None` is one of the program's refusals. */
  method SelectedServerSurface(records: seq<Row>, cfg: Config) returns (r: Option<Selection>)
    ensures r == Select(cfg, records)
    ensures forall sel :: r == Some(sel) <==> Selected(cfg, records, sel)
  {
    hide Selected, StepConn, Represents, Finish, Announce;
    forall sel ensures Select(cfg, records) == Some(sel) <==> Selected(cfg, records, sel) {
      SelectExactly(cfg, records, sel);
    }
    if !(0 < |records| <= 512) { return None; }
    var connections: map<int, Peer>, resources: Resources, roles: Roles := map[], map[], map[];
    var activations: seq<Identity>, ready, creations: nat := [], false, 0;
    ghost var conns: map<int, Conn> := map[];
    NothingRepresented();
    for index := 0 to |records|
      invariant Run(cfg, records, index) == Some(State(ready, conns, activations, creations))
      invariant Represents(connections, resources, roles, conns)
      invariant forall c :: c in conns <==> 1 <= c <= |conns|
    {
      KeysMeaning(connections, resources, roles, conns);
      var row := records[index];
      ghost var s := State(ready, conns, activations, creations);
      if Step(cfg, s, index, row).None? { StepRefused(cfg, records, index, s); }
      RunOn(cfg, records, index, s);
      if !IntegersOk(row) { return None; }
      if row.Ready? {
        if index != 0 || ready || row.compositorPID != cfg.compositorPID { return None; }
        ready := true;
        continue;
      }
      if !ready { return None; }
      var c := row.connection;
      if row.Connection? {
        var ok, connections' := ReadConnection(cfg, row, connections, resources, roles, s);
        if !ok { return None; }
        connections := connections';
        conns := Announce(cfg, s, row).value.conns;
        continue;
      }
      if c !in connections { return None; }
      if row.ResourceLive? {
        creations := creations + 1;
        if creations > 256 { return None; }
      }
      var ok, connections', resources', roles', activated :=
        ReadRequest(cfg, index, row, connections, resources, roles, conns);
      if !ok { return None; }
      assert conns[c := StepConn(cfg, conns[c], index, row).value.0].Keys == conns.Keys;
      conns := conns[c := StepConn(cfg, conns[c], index, row).value.0];
      connections, resources, roles := connections', resources', roles';
      activations := activations + if activated.Some? then [Identity(c, activated.value)] else [];
    }
    r := Conclude(cfg, connections, resources, roles, activations, ready, creations, conns);
  }
}
