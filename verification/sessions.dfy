/**
 * What each message to the server does (server/main.py, server/hypervisor.py,
 * server/users.py), as functions from state to state. The objects that are
 * updated in place are in module ServerObjects, which refers to these functions.
 */
module Sessions {
  import opened Text
  import opened GamingNames

  /** A DomainStatus. `user` is the name of the user, when there is one. */
  datatype Domain = Domain(name: string, using: bool, user: Option<string>, booting: bool)

  datatype Kind = Gaming | Work

  datatype UserState = LoggedIn | UsesGaming | UsesWork | UsesBoth

  /** A User; a held domain is given by its name. */
  datatype Session = Session(
    id: int, username: string, ip: string, state: UserState,
    gaming: Option<string>, work: Option<string>)

  /**
   * `crashed` is set where the source lets an exception escape from the
   * dispatcher loop, which ends it.
   */
  datatype Server = Server(
    gaming: seq<Domain>, work: seq<Domain>, sessions: seq<Session>, userCount: int, crashed: bool)

  /** What the hypervisor driver answers while one domain is being started. */
  datatype Driver = Driver(running: bool, creates: bool)

  datatype DbAnswer = Row(id: int) | NoRow | DbError

  datatype Message =
    | Login(username: string, db: DbAnswer, ip: string, workDriver: Driver, gamingDriver: Driver)
    | Logout(id: int)
    | UseGaming(id: int)
    | LeaveGaming(id: int)
    | UseWork(id: int)
    | BootFinished(name: string)

  // ----- pools of running domains -----

  function Names(pool: seq<Domain>): (names: seq<string>)
    ensures |names| == |pool|
    ensures forall i {:trigger names[i]} :: 0 <= i < |pool| ==> names[i] == pool[i].name
  {
    seq(|pool|, i requires 0 <= i < |pool| => pool[i].name)
  }

  /** The first index of `x`, or the length when there is none. */
  function Find<T(==)>(xs: seq<T>, x: T): (i: nat)
    ensures i <= |xs|
    ensures i < |xs| ==> xs[i] == x
    ensures forall k :: 0 <= k < i ==> xs[k] != x
  {
    if xs == [] || xs[0] == x then 0 else 1 + Find(xs[1..], x)
  }

  function NewDomain(name: string, kind: Kind): Domain {
    Domain(name, false, None, kind == Gaming)
  }

  function Listed(pool: seq<Domain>, d: Domain): seq<Domain> {
    Inserted(pool, InsertPos(Names(pool), d.name), d)
  }

  datatype Outcome = AlreadyRunning | Added | CreateFailed | Restarted | Escapes

  /** startup_name, with `pool` the list of its kind. */
  function Startup(pool: seq<Domain>, name: string, kind: Kind, d: Driver): (Outcome, seq<Domain>) {
    if name in Names(pool) then
      if d.running then (AlreadyRunning, pool)
      else if !d.creates || kind == Gaming then (Escapes, pool)
      else (Restarted, pool)
    else if d.running || d.creates then (Added, Listed(pool, NewDomain(name, kind)))
    else (CreateFailed, pool)
  }

  /** The first domain neither in use nor booting, or the length when there is none. */
  function FirstEmpty(pool: seq<Domain>): (j: nat)
    ensures j <= |pool|
    ensures j < |pool| ==> !pool[j].using && !pool[j].booting
    ensures forall k :: 0 <= k < j ==> pool[k].using || pool[k].booting
  {
    if pool == [] || (!pool[0].using && !pool[0].booting) then 0 else 1 + FirstEmpty(pool[1..])
  }

  /** shutdown_name without force: a domain in use stays. */
  function Shutdown(pool: seq<Domain>, name: string): seq<Domain> {
    var j := Find(Names(pool), name);
    if j < |pool| && !pool[j].using then Removed(pool, j) else pool
  }

  function ShutdownEmpty(pool: seq<Domain>): seq<Domain> {
    var j := FirstEmpty(pool);
    if j < |pool| then Shutdown(pool, pool[j].name) else pool
  }

  function Booted(pool: seq<Domain>, name: string): (r: seq<Domain>)
    ensures |r| == |pool|
  {
    seq(|pool|, i requires 0 <= i < |pool| => if pool[i].name == name then pool[i].(booting := false) else pool[i])
  }

  function Leased(pool: seq<Domain>, j: nat, username: string): seq<Domain>
    requires j < |pool|
  {
    pool[j := pool[j].(using := true, user := Some(username))]
  }

  /** The object a user lets go of is reset; it is looked up here by its name. */
  function Released(pool: seq<Domain>, name: string): (r: seq<Domain>)
    ensures |r| == |pool|
  {
    var j := Find(Names(pool), name);
    if j < |pool| then pool[j := pool[j].(using := false, user := None)] else pool
  }

  // ----- the user state machine -----

  predicate Busy(state: UserState, kind: Kind) {
    state == UsesBoth || (if kind == Gaming then state == UsesGaming else state == UsesWork)
  }

  function Entered(state: UserState, kind: Kind): (r: UserState)
    ensures Busy(r, kind)
    ensures forall other: Kind :: other != kind ==> (Busy(r, other) <==> Busy(state, other))
  {
    if kind == Gaming then (if Busy(state, Work) then UsesBoth else UsesGaming)
    else (if Busy(state, Gaming) then UsesBoth else UsesWork)
  }

  function Left(state: UserState, kind: Kind): (r: UserState)
    ensures !Busy(r, kind)
    ensures forall other: Kind :: other != kind ==> (Busy(r, other) <==> Busy(state, other))
  {
    if kind == Gaming then (if Busy(state, Work) then UsesWork else LoggedIn)
    else (if Busy(state, Gaming) then UsesGaming else LoggedIn)
  }

  function Held(u: Session, kind: Kind): Option<string> {
    if kind == Gaming then u.gaming else u.work
  }

  function Holding(u: Session, kind: Kind, held: Option<string>, state: UserState): (r: Session)
    ensures r.id == u.id && r.username == u.username && r.ip == u.ip && r.state == state
    ensures Held(r, kind) == held
    ensures forall other: Kind :: other != kind ==> Held(r, other) == Held(u, other)
  {
    if kind == Gaming then u.(gaming := held, state := state) else u.(work := held, state := state)
  }

  function WorkName(username: string): string {
    "win-work-" + username
  }

  // ----- the two lists together -----

  function PoolOf(s: Server, kind: Kind): seq<Domain> {
    if kind == Gaming then s.gaming else s.work
  }

  function WithPool(s: Server, kind: Kind, pool: seq<Domain>): (r: Server)
    ensures PoolOf(r, kind) == pool
    ensures forall other: Kind :: other != kind ==> PoolOf(r, other) == PoolOf(s, other)
    ensures r.sessions == s.sessions && r.userCount == s.userCount && r.crashed == s.crashed
  {
    if kind == Gaming then s.(gaming := pool) else s.(work := pool)
  }

  /** use_gaming_domain and use_work_domain, of session i on domain j. */
  function Take(s: Server, i: nat, j: nat, kind: Kind): Server
    requires i < |s.sessions| && j < |PoolOf(s, kind)|
  {
    var u := s.sessions[i];
    var d := PoolOf(s, kind)[j];
    WithPool(s, kind, Leased(PoolOf(s, kind), j, u.username))
      .(sessions := s.sessions[i := Holding(u, kind, Some(d.name), Entered(u.state, kind))])
  }

  /** left_gaming_domain and left_work_domain; UserError when the user is not in one. */
  function Leave(s: Server, i: nat, kind: Kind): (r: Server)
    requires i < |s.sessions|
    ensures |r.sessions| == |s.sessions|
  {
    var u := s.sessions[i];
    if Busy(u.state, kind) && Held(u, kind).Some? then
      WithPool(s, kind, Released(PoolOf(s, kind), Held(u, kind).value))
        .(sessions := s.sessions[i := Holding(u, kind, None, Left(u.state, kind))])
    else s
  }

  function PrepareLogout(s: Server, i: nat): (r: Server)
    requires i < |s.sessions|
    ensures |r.sessions| == |s.sessions|
  {
    Leave(Leave(s, i, Gaming), i, Work)
  }

  // ----- sessions -----

  function Ids(us: seq<Session>): (ids: seq<int>)
    ensures |ids| == |us|
    ensures forall i :: 0 <= i < |us| ==> ids[i] == us[i].id
  {
    seq(|us|, i requires 0 <= i < |us| => us[i].id)
  }

  function Usernames(us: seq<Session>): (names: seq<string>)
    ensures |names| == |us|
    ensures forall i {:trigger names[i]} :: 0 <= i < |us| ==> names[i] == us[i].username
  {
    seq(|us|, i requires 0 <= i < |us| => us[i].username)
  }

  function IndexOfId(s: Server, id: int): (i: nat)
    ensures i <= |s.sessions|
    ensures i < |s.sessions| ==> s.sessions[i].id == id
    ensures i == |s.sessions| ==> forall k :: 0 <= k < |s.sessions| ==> s.sessions[k].id != id
  {
    Find(Ids(s.sessions), id)
  }

  datatype Seen = Back(index: nat) | Elsewhere | Nowhere

  /** The walk over the logged-in users at a login. */
  function Recognise(us: seq<Session>, id: int, ip: string): (r: Seen)
    ensures r.Back? ==> r.index < |us| && us[r.index].id == id && us[r.index].ip == ip
    ensures r.Nowhere? <==> id !in Ids(us)
  {
    if us == [] then Nowhere
    else
      assert Ids(us) == [us[0].id] + Ids(us[1..]);
      if us[0].id == id && us[0].ip == ip then Back(0)
      else match Recognise(us[1..], id, ip)
           case Back(k) => Back(k + 1)
           case Elsewhere => Elsewhere
           case Nowhere => if us[0].id == id then Elsewhere else Nowhere
  }

  function Entering(s: Server, username: string, id: int, ip: string): Server {
    var u := Session(id, username, ip, LoggedIn, None, None);
    s.(userCount := s.userCount + 1,
       sessions := Inserted(s.sessions, InsertPos(Usernames(s.sessions), username), u))
  }

  function StartWork(s: Server, username: string, d: Driver): Server {
    var (o, pool) := Startup(s.work, WorkName(username), Work, d);
    s.(work := pool, crashed := o == Escapes)
  }

  function StartGaming(s: Server, d: Driver, maxGaming: int): Server {
    if s.userCount > maxGaming then s
    else
      match FindDown(Names(s.gaming), maxGaming, s.userCount)
      case Enough => s
      case NoneDown => s
      case BadName => s.(crashed := true)
      case Boot(name) =>
        var (o, pool) := Startup(s.gaming, name, Gaming, d);
        s.(gaming := pool, crashed := o == Escapes)
  }

  function Admitted(
      s: Server, username: string, id: int, ip: string,
      workDriver: Driver, gamingDriver: Driver, maxGaming: int): Server
  {
    var s1 := StartWork(Entering(s, username, id, ip), username, workDriver);
    if s1.crashed then s1 else StartGaming(s1, gamingDriver, maxGaming)
  }

  function LogUserIn(s: Server, m: Message, maxGaming: int): Server
    requires m.Login?
  {
    if !m.db.Row? then s
    else
      match Recognise(s.sessions, m.db.id, m.ip)
      case Back(i) => PrepareLogout(s, i)
      case Elsewhere => s
      case Nowhere =>
        Admitted(s, m.username, m.db.id, m.ip, m.workDriver, m.gamingDriver, maxGaming)
  }

  /** The user's domains are left and its work domain is shut down. */
  function LeftAll(s: Server, i: nat): (r: Server)
    requires i < |s.sessions|
    ensures |r.sessions| == |s.sessions|
  {
    var s1 := PrepareLogout(s, i);
    s1.(work := Shutdown(s1.work, WorkName(s.sessions[i].username)))
  }

  /** One gaming domain is shut down unless the remaining users need them all. */
  function Trimmed(s: Server, maxGaming: int): (r: Server)
    ensures r.sessions == s.sessions
  {
    if s.userCount - 1 < maxGaming then s.(gaming := ShutdownEmpty(s.gaming)) else s
  }

  function Departed(s: Server, i: nat): Server
    requires i < |s.sessions|
  {
    s.(userCount := s.userCount - 1, sessions := Removed(s.sessions, i))
  }

  function LogUserOut(s: Server, id: int, maxGaming: int): Server {
    var i := IndexOfId(s, id);
    if i == |s.sessions| then s else Departed(Trimmed(LeftAll(s, i), maxGaming), i)
  }

  function RequestGaming(s: Server, id: int): Server {
    var i := IndexOfId(s, id);
    if i == |s.sessions| || Busy(s.sessions[i].state, Gaming) then s
    else
      var j := FirstEmpty(s.gaming);
      if j < |s.gaming| then Take(s, i, j, Gaming) else s
  }

  function GiveBackGaming(s: Server, id: int): Server {
    var i := IndexOfId(s, id);
    if i == |s.sessions| then s else Leave(s, i, Gaming)
  }

  /**
   * A work domain that is not running stays so: the handler compares the method
   * get_code, not its value, and never reaches the startup.
   */
  function RequestWorkOf(s: Server, i: nat): Server
    requires i < |s.sessions|
  {
    var j := Find(Names(s.work), WorkName(s.sessions[i].username));
    if j < |s.work| && !s.work[j].using && !Busy(s.sessions[i].state, Work) then Take(s, i, j, Work) else s
  }

  /** A message with an unknown id dereferences None. */
  function RequestWork(s: Server, id: int): Server {
    var i := IndexOfId(s, id);
    if i == |s.sessions| then s.(crashed := true) else RequestWorkOf(s, i)
  }

  function Step(s: Server, m: Message, maxGaming: int): Server {
    if s.crashed then s
    else
      match m
      case Login(_, _, _, _, _) => LogUserIn(s, m, maxGaming)
      case Logout(id) => LogUserOut(s, id, maxGaming)
      case UseGaming(id) => RequestGaming(s, id)
      case LeaveGaming(id) => GiveBackGaming(s, id)
      case UseWork(id) => RequestWork(s, id)
      case BootFinished(name) => s.(gaming := Booted(s.gaming, name))
  }

  function Run(s: Server, ms: seq<Message>, maxGaming: int): Server
    decreases |ms|
  {
    if ms == [] then s else Run(Step(s, ms[0], maxGaming), ms[1..], maxGaming)
  }
}
