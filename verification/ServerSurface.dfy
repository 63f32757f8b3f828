/** The compositor-record decoder of scripts/navigation-linux-server-surface-observation.py.

    `Step` and `Run` give the meaning of the record loop connection by connection. `ServerSurfaceMethod`
    holds the loop in the form the program has it, over dictionaries keyed by tuples; `ServerSurfaceTrace`
    says what an accepted trace is without mentioning any dictionary; `ServerSurfaceSwap` reorders rows. */
module ServerSurface {
  import opened Options

  datatype Interface = WlSurface | XdgSurface | XdgToplevel | OtherInterface

  /** One record. A value that is not a dictionary of exactly the expected fields, or carries a
      field of the wrong type, is `Malformed`. */
  datatype Row =
    | Malformed
    | Ready(compositorPID: int)
    | Fault
    | Connection(connection: int, pid: int, uid: int, gid: int, birth: int, pidfd: int)
    | ClientDestroy(connection: int)
    | ResourceLive(connection: int, iface: Interface, obj: int)
    | ResourceDestroy(connection: int, iface: Interface, obj: int)
    | Destroy(connection: int, iface: Interface, obj: int)
    | XdgSurfaceRequest(connection: int, xdgSurface: int, surface: int)
    | ToplevelRequest(connection: int, xdgSurface: int, toplevel: int)
    | Activate(connection: int, surface: int, tokenHex: string)

  /** `isToken` stands for "the SHA-256 of the bytes this hex text denotes is the expected one". */
  datatype Config = Config(compositorPID: int, pid: int, birth: int, isToken: string -> bool)

  datatype Role = Role(surface: int, surfaceGen: nat, xdgSurface: int, xdgGen: Option<nat>,
                       toplevel: Option<int>, toplevelGen: Option<nat>, requestIndex: nat)

  datatype Identity = Identity(connection: int, role: Role)

  datatype Peer = Peer(pid: int, birth: int, pidfd: int, alive: bool)

  /** Everything the decoder knows about one connection. */
  datatype Conn = Conn(peer: Peer, resources: map<(Interface, int), nat>, roles: map<int, Role>)

  datatype State = State(ready: bool, conns: map<int, Conn>, activations: seq<Identity>, creations: nat)

  datatype Selection = Selection(connection: int, pidfd: int, role: Role)

  const INITIAL := State(false, map[], [], 0)

  predicate Bounded(x: int) { 0 < x < 0x1_0000_0000_0000_0000 }

  predicate IntegersOk(row: Row) {
    match row
    case Malformed => false
    case Fault => false
    case Ready(p) => Bounded(p)
    case Connection(c, p, u, g, b, f) =>
      Bounded(c) && Bounded(p) && Bounded(u) && Bounded(g) && Bounded(b) && Bounded(f)
    case ClientDestroy(c) => Bounded(c)
    case ResourceLive(c, _, o) => Bounded(c) && Bounded(o)
    case ResourceDestroy(c, _, o) => Bounded(c) && Bounded(o)
    case Destroy(c, _, o) => Bounded(c) && Bounded(o)
    case XdgSurfaceRequest(c, x, s) => Bounded(c) && Bounded(x) && Bounded(s)
    case ToplevelRequest(c, x, t) => Bounded(c) && Bounded(x) && Bounded(t)
    case Activate(c, s, _) => Bounded(c) && Bounded(s)
  }

  predicate IsHexDigit(c: char) { '0' <= c <= '9' || 'a' <= c <= 'f' }

  predicate TokenEncoded(v: string) {
    0 < |v| <= 8192 && |v| % 2 == 0 && forall i :: 0 <= i < |v| ==> IsHexDigit(v[i])
  }

  predicate Concerns(row: Row, c: int) {
    !row.Malformed? && !row.Ready? && !row.Fault? && row.connection == c
  }

  predicate Holds(resources: map<(Interface, int), nat>, iface: Interface, o: int, g: nat) {
    (iface, o) in resources && resources[(iface, o)] == g
  }

  predicate LiveRole(conn: Conn, role: Role) {
    && conn.peer.alive
    && role.xdgGen.Some? && role.toplevelGen.Some? && role.toplevel.Some?
    && Holds(conn.resources, WlSurface, role.surface, role.surfaceGen)
    && Holds(conn.resources, XdgSurface, role.xdgSurface, role.xdgGen.value)
    && Holds(conn.resources, XdgToplevel, role.toplevel.value, role.toplevelGen.value)
  }

  /** Roles still waiting for the creation of toplevel object `o`. */
  predicate AwaitsToplevel(role: Role, o: int) { role.toplevel == Some(o) && role.toplevelGen.None? }

  function Awaiting(roles: map<int, Role>, o: int): set<int> {
    set x | x in roles && AwaitsToplevel(roles[x], o)
  }

  function LiveOn(conn: Conn, surface: int): set<int> {
    set x | x in conn.roles && conn.roles[x].surface == surface && LiveRole(conn, conn.roles[x])
  }

  lemma SingletonMembers<T>(s: set<T>, x: T, y: T)
    requires |s| == 1 && x in s && y in s
    ensures x == y
  {
    assert |s - {x}| == 0;
  }

  /** The member of a one-element set. */
  function Only<T>(s: set<T>): (x: T)
    requires |s| == 1
    ensures x in s
  {
    assert forall x, y | x in s && y in s :: x == y by {
      forall x, y | x in s && y in s ensures x == y { SingletonMembers(s, x, y); }
    }
    var x :| x in s;
    x
  }

  /** One record applied to the connection it names. */
  function StepConn(cfg: Config, conn: Conn, index: nat, row: Row): Option<(Conn, Option<Role>)>
    requires !row.Malformed? && !row.Ready? && !row.Fault? && !row.Connection?
  {
    match row
    case ClientDestroy(_) =>
      if conn.peer.alive then Some((conn.(peer := conn.peer.(alive := false)), None)) else None
    case ResourceLive(_, iface, o) =>
      if !conn.peer.alive || iface.OtherInterface? || (iface, o) in conn.resources then None
      else Created(conn, index, iface, o)
    case ResourceDestroy(_, iface, o) =>
      // Resource destruction may follow the client's own destruction.
      if iface.OtherInterface? || (iface, o) !in conn.resources then None
      else Some((conn.(resources := conn.resources - {(iface, o)}), None))
    case Destroy(_, iface, o) =>
      if !conn.peer.alive || iface.OtherInterface? || (iface, o) !in conn.resources then None
      else Some((conn, None))
    case XdgSurfaceRequest(_, x, s) =>
      if !conn.peer.alive || (WlSurface, s) !in conn.resources || (XdgSurface, x) in conn.resources then None
      else Some((conn.(roles := conn.roles[x := Role(s, conn.resources[(WlSurface, s)], x, None, None, None, index)]),
          None))
    case ToplevelRequest(_, x, t) =>
      if !conn.peer.alive || x !in conn.roles then None
      else
        var role := conn.roles[x];
        if role.xdgGen.None? || !Holds(conn.resources, XdgSurface, x, role.xdgGen.value)
           || role.toplevel.Some?
        then None
        else Some((conn.(roles := conn.roles[x := role.(toplevel := Some(t))]), None))
    case Activate(_, s, token) =>
      if !conn.peer.alive || !TokenEncoded(token) then None
      else if !cfg.isToken(token) then Some((conn, None))
      else if conn.peer.pid != cfg.pid || conn.peer.birth != cfg.birth || |LiveOn(conn, s)| != 1 then None
      else Some((conn, Some(conn.roles[Only(LiveOn(conn, s))])))
  }

  /** A resource creation also completes the role request that was waiting for it. */
  function Created(conn: Conn, index: nat, iface: Interface, o: int): Option<(Conn, Option<Role>)> {
    var made := conn.(resources := conn.resources[(iface, o) := index]);
    match iface
    case XdgSurface =>
      if o !in conn.roles then Some((made, None))
      else if conn.roles[o].xdgGen.Some? then None
      else Some((made.(roles := conn.roles[o := conn.roles[o].(xdgGen := Some(index))]), None))
    case XdgToplevel =>
      var waiting := Awaiting(conn.roles, o);
      if |waiting| != 1 then None
      else
        var x := Only(waiting);
        Some((made.(roles := conn.roles[x := conn.roles[x].(toplevelGen := Some(index))]), None))
    case _ => Some((made, None))
  }

  /** A new connection; epochs count up from 1. */
  function Announce(cfg: Config, s: State, row: Row): Option<State>
    requires row.Connection?
  {
    if row.connection != |s.conns| + 1 || |s.conns| >= 128 || row.uid != 1000 || row.gid != 1000
       || row.pid == cfg.compositorPID || row.pidfd < 3 then None
    else Some(s.(conns := s.conns[row.connection := Conn(Peer(row.pid, row.birth, row.pidfd, true), map[], map[])]))
  }

  /** The result of a connection's step, put back into the whole state. */
  function Commit(s: State, c: int, creates: bool, next: Option<(Conn, Option<Role>)>): Option<State> {
    var creations := if creates then s.creations + 1 else s.creations;
    if creations > 256 || next.None? then None
    else Some(s.(conns := s.conns[c := next.value.0], creations := creations,
                 activations := s.activations +
                   if next.value.1.Some? then [Identity(c, next.value.1.value)] else []))
  }

  /** One record applied to the whole decoder; `None` is a refusal. */
  function Step(cfg: Config, s: State, index: nat, row: Row): Option<State> {
    if !IntegersOk(row) then None
    else if row.Ready? then
      if index == 0 && !s.ready && row.compositorPID == cfg.compositorPID then Some(s.(ready := true)) else None
    else if !s.ready then None
    else if row.Connection? then Announce(cfg, s, row)
    else if row.connection !in s.conns then None
    else Commit(s, row.connection, row.ResourceLive?, StepConn(cfg, s.conns[row.connection], index, row))
  }

  /** The decoder after the first `n` records. */
  function Run(cfg: Config, t: seq<Row>, n: nat): Option<State>
    requires n <= |t|
  {
    if n == 0 then Some(INITIAL)
    else match Run(cfg, t, n - 1)
      case None => None
      case Some(s) => Step(cfg, s, n - 1, t[n - 1])
  }

  /** Live roles of the expected peer, each with its connection. */
  function Candidates(cfg: Config, conns: map<int, Conn>): set<(int, int)> {
    set c, x | c in conns && x in conns[c].roles
               && conns[c].peer.pid == cfg.pid && conns[c].peer.birth == cfg.birth
               && LiveRole(conns[c], conns[c].roles[x]) :: (c, x)
  }

  function Finish(cfg: Config, s: State): Option<Selection> {
    var candidates := Candidates(cfg, s.conns);
    if !s.ready || |s.activations| != 1 || |candidates| != 1 then None
    else
      var (c, x) := Only(candidates);
      var role := s.conns[c].roles[x];
      if Identity(c, role) != s.activations[0] then None
      else Some(Selection(c, s.conns[c].peer.pidfd, role))
  }

  function Select(cfg: Config, t: seq<Row>): Option<Selection> {
    if !(0 < |t| <= 512) then None
    else match Run(cfg, t, |t|)
      case None => None
      case Some(s) => Finish(cfg, s)
  }
}
