/**
 * The exact account of the gaming domains over whole runs: what is listed is
 * what the users need, plus what was there, up to the starts that failed or hit a
 * running domain, the logins that found enough domains and the logouts that found
 * none to stop.
 */
module SessionBalance {
  import opened Text
  import opened GamingNames
  import opened Sessions
  import opened SessionInvariants
  import opened SessionRuns

  /** The login as far as the start of its work domain. */
  function Admitting(s: Server, m: Message): Server
    requires m.Login? && m.db.Row?
  {
    StartWork(Entering(s, m.username, m.db.id, m.ip), m.username, m.workDriver)
  }

  predicate Admits(s: Server, m: Message) {
    !s.crashed && m.Login? && m.db.Row? && m.db.id !in Ids(s.sessions) && !Admitting(s, m).crashed
  }

  /** 1 when the domains that run are enough for one user more. */
  function SparedStart(s: Server, m: Message, maxGaming: int): nat {
    if Admits(s, m) && s.userCount + 1 <= maxGaming && s.userCount + 1 <= |s.gaming| then 1 else 0
  }

  /** 1 when the domain chosen to boot is listed and runs already; never with at most ten. */
  function IdleStart(s: Server, m: Message, maxGaming: int): nat {
    if !Admits(s, m) || s.userCount + 1 > maxGaming then 0
    else
      match FindDown(Names(s.gaming), maxGaming, s.userCount + 1)
      case Boot(name) => if Startup(s.gaming, name, Gaming, m.gamingDriver).0 == AlreadyRunning then 1 else 0
      case _ => 0
  }

  ghost predicate AllBusy(pool: seq<Domain>) {
    forall j :: 0 <= j < |pool| ==> pool[j].using || pool[j].booting
  }

  /** 1 when a domain could go with its user, but each is in use or booting. */
  ghost function KeptDomain(s: Server, m: Message, maxGaming: int): nat {
    if s.crashed || !m.Logout? || IndexOfId(s, m.id) == |s.sessions| || s.userCount > maxGaming then 0
    else if AllBusy(PrepareLogout(s, IndexOfId(s, m.id)).gaming) then 1 else 0
  }

  function SparedStarts(s: Server, ms: seq<Message>, maxGaming: int): nat
    decreases |ms|
  {
    if ms == [] then 0
    else SparedStart(s, ms[0], maxGaming) + SparedStarts(Step(s, ms[0], maxGaming), ms[1..], maxGaming)
  }

  function IdleStarts(s: Server, ms: seq<Message>, maxGaming: int): nat
    decreases |ms|
  {
    if ms == [] then 0
    else IdleStart(s, ms[0], maxGaming) + IdleStarts(Step(s, ms[0], maxGaming), ms[1..], maxGaming)
  }

  ghost function KeptDomains(s: Server, ms: seq<Message>, maxGaming: int): nat
    decreases |ms|
  {
    if ms == [] then 0
    else KeptDomain(s, ms[0], maxGaming) + KeptDomains(Step(s, ms[0], maxGaming), ms[1..], maxGaming)
  }

  /** How many more gaming domains are listed than the users need. */
  function Surplus(s: Server, maxGaming: int): int {
    |s.gaming| - Min(s.userCount, maxGaming)
  }

  lemma AdmitBalance(s: Server, m: Message, maxGaming: int)
    requires Admits(s, m) && !Step(s, m, maxGaming).crashed
    ensures Surplus(Step(s, m, maxGaming), maxGaming)
            == Surplus(s, maxGaming) - FailedStart(s, m, maxGaming) - IdleStart(s, m, maxGaming)
               - SparedStart(s, m, maxGaming)
  {
    var s1 := Admitting(s, m);
    assert Recognise(s.sessions, m.db.id, m.ip).Nowhere?;
    assert Step(s, m, maxGaming) == StartGaming(s1, m.gamingDriver, maxGaming);
    BootCount(s1, m.gamingDriver, maxGaming);
  }

  /** What a login's gaming start adds to the list. */
  lemma BootCount(s: Server, d: Driver, maxGaming: int)
    requires !s.crashed && !StartGaming(s, d, maxGaming).crashed
    ensures var r := StartGaming(s, d, maxGaming);
            var c := FindDown(Names(s.gaming), maxGaming, s.userCount);
            && r.userCount == s.userCount
            && (s.userCount > maxGaming || s.userCount <= |s.gaming| ==> r.gaming == s.gaming)
            && (s.userCount <= |s.gaming| ==> c == Enough)
            && (|s.gaming| < s.userCount <= maxGaming ==>
                  c.Boot? && var o := Startup(s.gaming, c.name, Gaming, d).0;
                  && (o == Added || o == CreateFailed || o == AlreadyRunning)
                  && |r.gaming| == |s.gaming| + if o == Added then 1 else 0)
  {
    var c := FindDown(Names(s.gaming), maxGaming, s.userCount);
    if s.userCount <= maxGaming {
      NoneDownUnreachable(Names(s.gaming), maxGaming, s.userCount);
      if c.Boot? { StartupLength(s.gaming, c.name, Gaming, d); }
    }
  }

  lemma LogoutBalance(s: Server, id: int, maxGaming: int)
    requires Inv(s) && !s.crashed
    ensures Surplus(LogUserOut(s, id, maxGaming), maxGaming)
            == Surplus(s, maxGaming) + KeptDomain(s, Logout(id), maxGaming)
  {
    var i := IndexOfId(s, id);
    if i < |s.sessions| {
      PrepareLogoutInv(s, i);
      PrepareLogoutNames(s, i);
      PrepareLogoutLength(s, i);
      var pool := PrepareLogout(s, i).gaming;
      ShutdownEmptyRemoves(pool);
      assert AllBusy(pool) <==> FirstEmpty(pool) == |pool|;
    }
  }

  lemma RefusedBalance(s: Server, m: Message, maxGaming: int)
    requires !s.crashed && m.Login? && !Admits(s, m)
    ensures FailedStart(s, m, maxGaming) == 0
    ensures Step(s, m, maxGaming).crashed || Surplus(Step(s, m, maxGaming), maxGaming) == Surplus(s, maxGaming)
  {
    if m.db.Row? {
      match Recognise(s.sessions, m.db.id, m.ip)
      case Back(i) =>
        PrepareLogoutNames(s, i);
        PrepareLogoutLength(s, i);
      case Elsewhere =>
      case Nowhere =>
    }
  }

  lemma StepBalance(s: Server, m: Message, maxGaming: int)
    requires Inv(s)
    ensures !Step(s, m, maxGaming).crashed ==>
              Surplus(Step(s, m, maxGaming), maxGaming)
              == Surplus(s, maxGaming) - FailedStart(s, m, maxGaming) - IdleStart(s, m, maxGaming)
                 - SparedStart(s, m, maxGaming) + KeptDomain(s, m, maxGaming)
  {
    if !Step(s, m, maxGaming).crashed {
      match m
      case Login(_, _, _, _, _) =>
        if Admits(s, m) {
          AdmitBalance(s, m, maxGaming);
        } else {
          RefusedBalance(s, m, maxGaming);
        }
      case Logout(id) => LogoutBalance(s, id, maxGaming);
      case UseGaming(id) =>
      case LeaveGaming(id) =>
      case UseWork(id) =>
      case BootFinished(name) =>
    }
  }

  lemma {:induction false} CrashedForGood(s: Server, ms: seq<Message>, maxGaming: int)
    requires s.crashed
    ensures Run(s, ms, maxGaming) == s
    decreases |ms|
  {
    if ms != [] {
      CrashedForGood(s, ms[1..], maxGaming);
    }
  }

  /**
   * In every run that no exception ends, whatever is listed and however many domains
   * there are, the listed gaming domains are exactly accounted for.
   */
  lemma {:induction false} RunBalance(s: Server, ms: seq<Message>, maxGaming: int)
    requires Inv(s) && !Run(s, ms, maxGaming).crashed
    ensures Surplus(Run(s, ms, maxGaming), maxGaming)
            == Surplus(s, maxGaming) - FailedStarts(s, ms, maxGaming) - IdleStarts(s, ms, maxGaming)
               - SparedStarts(s, ms, maxGaming) + KeptDomains(s, ms, maxGaming)
    decreases |ms|
  {
    if ms != [] {
      var s1 := Step(s, ms[0], maxGaming);
      if s1.crashed {
        CrashedForGood(s1, ms[1..], maxGaming);
      }
      StepInv(s, ms[0], maxGaming);
      StepBalance(s, ms[0], maxGaming);
      RunBalance(s1, ms[1..], maxGaming);
    }
  }
}
