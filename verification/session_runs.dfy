/**
 * Safety of whole runs of the server: any messages in any order, with the
 * hypervisor driver and the database answering anything.
 */
module SessionRuns {
  import opened Text
  import opened GamingNames
  import opened Sessions
  import opened SessionInvariants

  lemma StepInv(s: Server, m: Message, maxGaming: int)
    requires Inv(s)
    ensures Inv(Step(s, m, maxGaming))
  {
    if !s.crashed {
      match m
      case Login(_, _, _, _, _) => LogUserInInv(s, m, maxGaming);
      case Logout(id) => LogUserOutInv(s, id, maxGaming);
      case UseGaming(id) =>
        var i, j := IndexOfId(s, id), FirstEmpty(s.gaming);
        if i < |s.sessions| && !Busy(s.sessions[i].state, Gaming) && j < |s.gaming| {
          TakeInv(s, i, j, Gaming);
        }
      case LeaveGaming(id) =>
        if IndexOfId(s, id) < |s.sessions| { LeaveInv(s, IndexOfId(s, id), Gaming); }
      case UseWork(id) => RequestWorkInv(s, id);
      case BootFinished(name) => BootedKeeps(s.gaming, s.sessions, name, Gaming);
    }
  }

  /** Exclusive ownership and the counts hold in every reachable state. */
  lemma {:induction false} RunInv(s: Server, ms: seq<Message>, maxGaming: int)
    requires Inv(s)
    ensures Inv(Run(s, ms, maxGaming))
    decreases |ms|
  {
    if ms != [] {
      StepInv(s, ms[0], maxGaming);
      RunInv(Step(s, ms[0], maxGaming), ms[1..], maxGaming);
    }
  }

  // ----- a holder keeps its domain -----

  ghost predicate Plays(us: seq<Session>, id: int, ip: string, name: string) {
    exists k :: 0 <= k < |us| && PlaysAs(us[k], id, ip, name)
  }

  predicate PlaysAs(u: Session, id: int, ip: string, name: string) {
    u.id == id && u.ip == ip && Held(u, Gaming) == Some(name)
  }

  /** The three messages by which a user gives a gaming domain back. */
  predicate GivesBack(m: Message, id: int, ip: string) {
    || m == Logout(id)
    || m == LeaveGaming(id)
    || (m.Login? && m.db == Row(id) && m.ip == ip)
  }

  lemma PlaysAfter(us: seq<Session>, us': seq<Session>, id: int, ip: string, name: string)
    requires Plays(us, id, ip, name)
    requires forall k :: 0 <= k < |us| && PlaysAs(us[k], id, ip, name) ==> us[k] in us'
    ensures Plays(us', id, ip, name)
  {
    var k :| 0 <= k < |us| && PlaysAs(us[k], id, ip, name);
    var l :| 0 <= l < |us'| && us'[l] == us[k];
    assert PlaysAs(us'[l], id, ip, name);
  }

  lemma ReplacedKeepsPlayer(us: seq<Session>, i: nat, u: Session, id: int, ip: string, name: string)
    requires i < |us| && Plays(us, id, ip, name)
    requires us[i].id != id || (u.id == us[i].id && u.ip == us[i].ip && Held(u, Gaming) == Held(us[i], Gaming))
    ensures Plays(us[i := u], id, ip, name)
  {
    var k :| 0 <= k < |us| && PlaysAs(us[k], id, ip, name);
    assert PlaysAs(us[i := u][k], id, ip, name);
  }

  lemma LeaveKeepsOthers(s: Server, i: nat, kind: Kind, id: int, ip: string, name: string)
    requires i < |s.sessions| && Plays(s.sessions, id, ip, name)
    requires s.sessions[i].id != id || kind == Work
    ensures Plays(Leave(s, i, kind).sessions, id, ip, name)
    ensures Leave(s, i, kind).sessions[i].id == s.sessions[i].id
  {
    ReplacedKeepsPlayer(s.sessions, i, Leave(s, i, kind).sessions[i], id, ip, name);
  }

  lemma LogoutKeepsOthers(s: Server, i: nat, id: int, ip: string, name: string)
    requires i < |s.sessions| && Plays(s.sessions, id, ip, name) && s.sessions[i].id != id
    ensures Plays(PrepareLogout(s, i).sessions, id, ip, name)
    ensures PrepareLogout(s, i).sessions[i].id == s.sessions[i].id
  {
    LeaveKeepsOthers(s, i, Gaming, id, ip, name);
    LeaveKeepsOthers(Leave(s, i, Gaming), i, Work, id, ip, name);
  }

  lemma TakeKeepsOthers(s: Server, i: nat, j: nat, kind: Kind, id: int, ip: string, name: string)
    requires i < |s.sessions| && j < |PoolOf(s, kind)| && Plays(s.sessions, id, ip, name)
    requires s.sessions[i].id != id || kind == Work
    ensures Plays(Take(s, i, j, kind).sessions, id, ip, name)
  {
    ReplacedKeepsPlayer(s.sessions, i, Take(s, i, j, kind).sessions[i], id, ip, name);
  }

  lemma OneSessionAnId(us: seq<Session>, i: nat, k: nat)
    requires Distinct(Ids(us)) && i < |us| && k < |us|
    ensures us[i].id == us[k].id ==> i == k
  {
    assert Ids(us)[i] == us[i].id && Ids(us)[k] == us[k].id;
  }

  lemma InsertedKeepsPlayer(us: seq<Session>, p: nat, u: Session, id: int, ip: string, name: string)
    requires p <= |us| && Plays(us, id, ip, name)
    ensures Plays(Inserted(us, p, u), id, ip, name)
  {
    forall k | 0 <= k < |us|
      ensures us[k] in Inserted(us, p, u)
    {
      assert Inserted(us, p, u)[if k < p then k else k + 1] == us[k];
    }
    PlaysAfter(us, Inserted(us, p, u), id, ip, name);
  }

  lemma RemovedKeepsPlayer(us: seq<Session>, p: nat, id: int, ip: string, name: string)
    requires p < |us| && Plays(us, id, ip, name) && us[p].id != id
    ensures Plays(Removed(us, p), id, ip, name)
  {
    forall k | 0 <= k < |us| && k != p
      ensures us[k] in Removed(us, p)
    {
      assert Removed(us, p)[if k < p then k else k - 1] == us[k];
    }
    PlaysAfter(us, Removed(us, p), id, ip, name);
  }

  lemma AdmittedSessions(s: Server, m: Message, maxGaming: int)
    requires m.Login? && m.db.Row?
    ensures Admitted(s, m.username, m.db.id, m.ip, m.workDriver, m.gamingDriver, maxGaming).sessions
            == Entering(s, m.username, m.db.id, m.ip).sessions
  {
  }

  lemma LogUserInKeepsHolder(s: Server, m: Message, maxGaming: int, id: int, ip: string, name: string)
    requires Inv(s) && Plays(s.sessions, id, ip, name) && m.Login? && !GivesBack(m, id, ip)
    ensures Plays(LogUserIn(s, m, maxGaming).sessions, id, ip, name)
  {
    var us := s.sessions;
    if m.db.Row? {
      match Recognise(us, m.db.id, m.ip)
      case Back(i) =>
        var k :| 0 <= k < |us| && PlaysAs(us[k], id, ip, name);
        OneSessionAnId(us, i, k);
        LogoutKeepsOthers(s, i, id, ip, name);
      case Elsewhere =>
      case Nowhere =>
        AdmittedSessions(s, m, maxGaming);
        InsertedKeepsPlayer(us, InsertPos(Usernames(us), m.username),
                            Session(m.db.id, m.username, m.ip, LoggedIn, None, None), id, ip, name);
    }
  }

  lemma LogUserOutKeepsHolder(s: Server, out: int, maxGaming: int, id: int, ip: string, name: string)
    requires Plays(s.sessions, id, ip, name) && out != id
    ensures Plays(LogUserOut(s, out, maxGaming).sessions, id, ip, name)
  {
    var i := IndexOfId(s, out);
    if i < |s.sessions| {
      LogoutKeepsOthers(s, i, id, ip, name);
      RemovedKeepsPlayer(PrepareLogout(s, i).sessions, i, id, ip, name);
    }
  }

  lemma StepKeepsHolder(s: Server, m: Message, maxGaming: int, id: int, ip: string, name: string)
    requires Inv(s) && Plays(s.sessions, id, ip, name) && !GivesBack(m, id, ip)
    ensures Plays(Step(s, m, maxGaming).sessions, id, ip, name)
  {
    var us := s.sessions;
    var k :| 0 <= k < |us| && PlaysAs(us[k], id, ip, name);
    if !s.crashed {
      match m
      case Login(_, _, _, _, _) =>
        LogUserInKeepsHolder(s, m, maxGaming, id, ip, name);
      case Logout(other) =>
        LogUserOutKeepsHolder(s, other, maxGaming, id, ip, name);
      case UseGaming(other) =>
        var i, j := IndexOfId(s, other), FirstEmpty(s.gaming);
        if i < |us| && !Busy(us[i].state, Gaming) && j < |s.gaming| {
          OneSessionAnId(us, i, k);
          TakeKeepsOthers(s, i, j, Gaming, id, ip, name);
        }
      case LeaveGaming(other) =>
        if IndexOfId(s, other) < |us| { LeaveKeepsOthers(s, IndexOfId(s, other), Gaming, id, ip, name); }
      case UseWork(other) =>
        var i := IndexOfId(s, other);
        if i < |us| {
          var j := Find(Names(s.work), WorkName(us[i].username));
          if j < |s.work| { TakeKeepsOthers(s, i, j, Work, id, ip, name); }
        }
      case BootFinished(_) =>
    }
  }

  ghost predicate InUse(pool: seq<Domain>, name: string) {
    exists j :: 0 <= j < |pool| && pool[j].name == name && pool[j].using && !pool[j].booting
  }

  /**
   * Whatever the others do, a player keeps the same domain, listed and marked as
   * in use, until it leaves, logs out or logs in again from the same address.
   */
  lemma {:induction false} RunKeepsHolder(
      s: Server, ms: seq<Message>, maxGaming: int, id: int, ip: string, name: string)
    requires Inv(s) && Plays(s.sessions, id, ip, name)
    requires forall k :: 0 <= k < |ms| ==> !GivesBack(ms[k], id, ip)
    ensures Plays(Run(s, ms, maxGaming).sessions, id, ip, name)
    ensures InUse(Run(s, ms, maxGaming).gaming, name)
    decreases |ms|
  {
    if ms == [] {
      var k :| 0 <= k < |s.sessions| && PlaysAs(s.sessions[k], id, ip, name);
      assert HoldsListed(s.gaming, s.sessions[k], Gaming);
    } else {
      StepInv(s, ms[0], maxGaming);
      StepKeepsHolder(s, ms[0], maxGaming, id, ip, name);
      RunKeepsHolder(Step(s, ms[0], maxGaming), ms[1..], maxGaming, id, ip, name);
    }
  }

  // ----- the pool ledger -----

  function Min(a: int, b: int): int { if a < b then a else b }
  function Max(a: int, b: int): int { if a < b then b else a }

  /** 1 when this message asked the driver for a gaming domain in vain. */
  function FailedStart(s: Server, m: Message, maxGaming: int): nat {
    if s.crashed || !m.Login? || !m.db.Row? || !Recognise(s.sessions, m.db.id, m.ip).Nowhere? then 0
    else
      var s1 := StartWork(Entering(s, m.username, m.db.id, m.ip), m.username, m.workDriver);
      if s1.crashed || s1.userCount > maxGaming then 0
      else
        match FindDown(Names(s1.gaming), maxGaming, s1.userCount)
        case Boot(name) => if Startup(s1.gaming, name, Gaming, m.gamingDriver).0 == CreateFailed then 1 else 0
        case _ => 0
  }

  function FailedStarts(s: Server, ms: seq<Message>, maxGaming: int): nat
    decreases |ms|
  {
    if ms == [] then 0
    else FailedStart(s, ms[0], maxGaming) + FailedStarts(Step(s, ms[0], maxGaming), ms[1..], maxGaming)
  }

  /** Domains and failed starts together cover the users, as far as there are domains. */
  ghost predicate Ledger(s: Server, failed: int, maxGaming: nat) {
    && Indexed(Names(s.gaming), maxGaming)
    && (!s.crashed ==> |s.gaming| + failed >= Min(s.userCount, maxGaming))
  }

  lemma IndexedSubset(names: seq<string>, more: seq<string>, maxGaming: nat)
    requires Indexed(more, maxGaming) && Sorted(names) && Distinct(names)
    requires forall k :: 0 <= k < |names| ==> names[k] in more
    ensures Indexed(names, maxGaming)
  {
  }

  lemma ShutdownByName(pool: seq<Domain>, j: nat)
    requires Distinct(Names(pool)) && j < |pool| && !pool[j].using
    ensures Shutdown(pool, pool[j].name) == Removed(pool, j)
  {
    var names := Names(pool);
    FindIsUnique(names, j);
    assert names[j] == pool[j].name;
  }

  /** Just one domain goes, when one is idle. */
  lemma ShutdownEmptyRemoves(pool: seq<Domain>)
    requires Distinct(Names(pool))
    ensures var j := FirstEmpty(pool); ShutdownEmpty(pool) == if j < |pool| then Removed(pool, j) else pool
  {
    var j := FirstEmpty(pool);
    if j < |pool| {
      ShutdownByName(pool, j);
    }
  }

  lemma ShutdownEmptyLedger(s: Server, maxGaming: nat)
    requires Inv(s) && Indexed(Names(s.gaming), maxGaming)
    ensures Indexed(Names(ShutdownEmpty(s.gaming)), maxGaming)
    ensures |ShutdownEmpty(s.gaming)| >= |s.gaming| - 1
  {
    var j := FirstEmpty(s.gaming);
    ShutdownEmptyRemoves(s.gaming);
    if j < |s.gaming| {
      NamesOfRemoved(s.gaming, j);
      RemovedKeepsOrder(Names(s.gaming), j);
      IndexedSubset(Removed(Names(s.gaming), j), Names(s.gaming), maxGaming);
    }
  }

  lemma ListedNames(pool: seq<Domain>, d: Domain)
    ensures Names(Listed(pool, d)) == Inserted(Names(pool), InsertPos(Names(pool), d.name), d.name)
  {
  }

  lemma InsertedIndexed(names: seq<string>, p: nat, name: string, maxGaming: nat)
    requires p <= |names| && IndexBelow(name, maxGaming)
    requires forall k :: 0 <= k < |names| ==> IndexBelow(names[k], maxGaming)
    ensures forall k :: 0 <= k < |names| + 1 ==> IndexBelow(Inserted(names, p, name)[k], maxGaming)
  {
    var r := Inserted(names, p, name);
    forall k | 0 <= k < |r|
      ensures IndexBelow(r[k], maxGaming)
    {
      if k < p {
        assert r[k] == names[k];
      } else if k == p {
        assert r[k] == name;
      } else {
        assert r[k] == names[k - 1];
      }
    }
  }

  lemma ListedIndexed(pool: seq<Domain>, name: string, maxGaming: nat)
    requires Indexed(Names(pool), maxGaming) && IndexBelow(name, maxGaming) && name !in Names(pool)
    ensures Indexed(Names(Listed(pool, NewDomain(name, Gaming))), maxGaming)
    ensures |Listed(pool, NewDomain(name, Gaming))| == |pool| + 1
  {
    var names := Names(pool);
    var p := InsertPos(names, name);
    ListedNames(pool, NewDomain(name, Gaming));
    InsertKeepsSorted(names, name);
    InsertedKeepsDistinct(names, p, name);
    InsertedIndexed(names, p, name, maxGaming);
  }

  /** With at most ten domains, booting the least free index never escapes and fails only by the driver. */
  lemma StartGamingLedger(s: Server, d: Driver, maxGaming: nat)
    requires Inv(s) && !s.crashed && Indexed(Names(s.gaming), maxGaming) && maxGaming <= 10
    ensures var r := StartGaming(s, d, maxGaming);
            && !r.crashed && Indexed(Names(r.gaming), maxGaming) && r.userCount == s.userCount
            && var c := FindDown(Names(s.gaming), maxGaming, s.userCount);
               if s.userCount > maxGaming || s.userCount <= |s.gaming| then r.gaming == s.gaming
               else c.Boot? && c.name !in Names(s.gaming)
                    && |r.gaming| == |s.gaming|
                                     + if Startup(s.gaming, c.name, Gaming, d).0 == CreateFailed then 0 else 1
  {
    if |s.gaming| < s.userCount <= maxGaming {
      var name := BootedName(s, maxGaming);
      ListedIndexed(s.gaming, name, maxGaming);
      var (o, pool) := Startup(s.gaming, name, Gaming, d);
      assert StartGaming(s, d, maxGaming) == s.(gaming := pool, crashed := o == Escapes);
    }
  }

  lemma BootedName(s: Server, maxGaming: nat) returns (name: string)
    requires Indexed(Names(s.gaming), maxGaming) && maxGaming <= 10 && |s.gaming| < s.userCount <= maxGaming
    ensures FindDown(Names(s.gaming), maxGaming, s.userCount) == Boot(name)
    ensures IndexBelow(name, maxGaming) && name !in Names(s.gaming)
  {
    BootsLeastFree(Names(s.gaming), maxGaming, s.userCount);
    name := FindDown(Names(s.gaming), maxGaming, s.userCount).name;
  }

  lemma StepLedger(s: Server, m: Message, failed: nat, maxGaming: nat)
    requires Inv(s) && Ledger(s, failed, maxGaming) && maxGaming <= 10
    ensures Ledger(Step(s, m, maxGaming), failed + FailedStart(s, m, maxGaming), maxGaming)
  {
    if !s.crashed {
      match m
      case Login(_, _, _, _, _) => LogUserInLedger(s, m, failed, maxGaming);
      case Logout(id) =>
        var i := IndexOfId(s, id);
        if i < |s.sessions| {
          PrepareLogoutInv(s, i);
          var s1 := PrepareLogout(s, i);
          PrepareLogoutNames(s, i);
          ShutdownEmptyLedger(s1, maxGaming);
        }
      case UseGaming(id) =>
        var i, j := IndexOfId(s, id), FirstEmpty(s.gaming);
        if i < |s.sessions| && j < |s.gaming| {
          SameNames(s.gaming, Leased(s.gaming, j, s.sessions[i].username));
        }
      case LeaveGaming(id) =>
        if IndexOfId(s, id) < |s.sessions| { LeaveNames(s, IndexOfId(s, id), Gaming); }
      case UseWork(id) =>
      case BootFinished(name) => SameNames(s.gaming, Booted(s.gaming, name));
    }
  }

  lemma LeaveNames(s: Server, i: nat, kind: Kind)
    requires i < |s.sessions|
    ensures Names(Leave(s, i, kind).gaming) == Names(s.gaming)
    ensures Leave(s, i, kind).userCount == s.userCount && Leave(s, i, kind).crashed == s.crashed
  {
    SameNames(s.gaming, Leave(s, i, kind).gaming);
  }

  lemma PrepareLogoutNames(s: Server, i: nat)
    requires i < |s.sessions|
    ensures Names(PrepareLogout(s, i).gaming) == Names(s.gaming)
    ensures PrepareLogout(s, i).userCount == s.userCount && PrepareLogout(s, i).crashed == s.crashed
  {
    LeaveNames(s, i, Gaming);
    LeaveNames(Leave(s, i, Gaming), i, Work);
  }

  lemma LogUserInLedger(s: Server, m: Message, failed: nat, maxGaming: nat)
    requires Inv(s) && Ledger(s, failed, maxGaming) && maxGaming <= 10 && m.Login? && !s.crashed
    ensures Ledger(LogUserIn(s, m, maxGaming), failed + FailedStart(s, m, maxGaming), maxGaming)
  {
    if m.db.Row? {
      match Recognise(s.sessions, m.db.id, m.ip)
      case Back(i) => PrepareLogoutNames(s, i);
      case Elsewhere =>
      case Nowhere =>
        EnteringInv(s, m.username, m.db.id, m.ip);
        var s0 := Entering(s, m.username, m.db.id, m.ip);
        StartWorkInv(s0, m.username, m.workDriver);
        var s1 := StartWork(s0, m.username, m.workDriver);
        if !s1.crashed { StartGamingLedger(s1, m.gamingDriver, maxGaming); }
    }
  }

  /** The ledger over whole runs; the list never outgrows the pool. */
  lemma {:induction false} RunLedger(s: Server, ms: seq<Message>, failed: nat, maxGaming: nat)
    requires Inv(s) && Ledger(s, failed, maxGaming) && maxGaming <= 10
    ensures Ledger(Run(s, ms, maxGaming), failed + FailedStarts(s, ms, maxGaming), maxGaming)
    ensures |Run(s, ms, maxGaming).gaming| <= maxGaming
    decreases |ms|
  {
    if ms == [] {
      IndexedFits(Names(s.gaming), maxGaming);
    } else {
      StepInv(s, ms[0], maxGaming);
      StepLedger(s, ms[0], failed, maxGaming);
      RunLedger(Step(s, ms[0], maxGaming), ms[1..], failed + FailedStart(s, ms[0], maxGaming), maxGaming);
    }
  }

  function IndexNames(n: nat): (names: seq<string>)
    ensures |names| == n && forall i {:trigger names[i]} :: 0 <= i < n ==> names[i] == IndexName(i)
  {
    seq(n, i requires 0 <= i < n => IndexName(i))
  }

  lemma IndexedFits(names: seq<string>, maxGaming: nat)
    requires Indexed(names, maxGaming)
    ensures |names| <= maxGaming
  {
    var all := IndexNames(maxGaming);
    forall k | 0 <= k < |names|
      ensures names[k] in all
    {
      var n: nat :| n < maxGaming && names[k] == IndexName(n);
      assert all[n] == names[k];
    }
    Pigeonhole(names, all);
  }

  // ----- how long the list can get, whatever is listed -----

  lemma StartupLength(pool: seq<Domain>, name: string, kind: Kind, d: Driver)
    ensures |Startup(pool, name, kind, d).1| == |pool| + if Startup(pool, name, kind, d).0 == Added then 1 else 0
  {
  }

  lemma StepLength(s: Server, m: Message, maxGaming: int)
    ensures |Step(s, m, maxGaming).gaming| <= Max(|s.gaming|, maxGaming)
  {
    if !s.crashed {
      match m
      case Login(_, _, _, _, _) => LoginLength(s, m, maxGaming);
      case Logout(id) =>
        if IndexOfId(s, id) < |s.sessions| { PrepareLogoutLength(s, IndexOfId(s, id)); }
      case UseGaming(_) =>
      case LeaveGaming(_) =>
      case UseWork(_) =>
      case BootFinished(_) =>
    }
  }

  lemma PrepareLogoutLength(s: Server, i: nat)
    requires i < |s.sessions|
    ensures |PrepareLogout(s, i).gaming| == |s.gaming|
  {
    PrepareLogoutNames(s, i);
    assert |Names(s.gaming)| == |s.gaming|;
  }

  lemma LoginLength(s: Server, m: Message, maxGaming: int)
    requires m.Login?
    ensures |LogUserIn(s, m, maxGaming).gaming| <= Max(|s.gaming|, maxGaming)
  {
    if m.db.Row? {
      match Recognise(s.sessions, m.db.id, m.ip)
      case Back(i) => PrepareLogoutLength(s, i);
      case Elsewhere =>
      case Nowhere =>
        var s1 := StartWork(Entering(s, m.username, m.db.id, m.ip), m.username, m.workDriver);
        var c := FindDown(Names(s1.gaming), maxGaming, s1.userCount);
        if c.Boot? { StartupLength(s1.gaming, c.name, Gaming, m.gamingDriver); }
    }
  }

  /** For every pool size and whatever is listed at first. */
  lemma {:induction false} RunLength(s: Server, ms: seq<Message>, maxGaming: int)
    ensures |Run(s, ms, maxGaming).gaming| <= Max(|s.gaming|, maxGaming)
    decreases |ms|
  {
    if ms != [] {
      StepLength(s, ms[0], maxGaming);
      RunLength(Step(s, ms[0], maxGaming), ms[1..], maxGaming);
    }
  }

  lemma {:induction false} ScanCountsUp(names: seq<string>, i: nat, maxGaming: int)
    requires i + |names| < maxGaming
    ensures Scan(names, i, maxGaming) != NoneDown
  {
    if names != [] {
      ScanCountsUp(names[1..], i + 1, maxGaming);
    }
  }

  /** A login never finds that no gaming domain is down, whatever is listed. */
  lemma NoneDownUnreachable(names: seq<string>, maxGaming: int, userCount: int)
    requires userCount <= maxGaming
    ensures FindDown(names, maxGaming, userCount) != NoneDown
  {
    if userCount > |names| {
      ScanCountsUp(names, 0, maxGaming);
    }
  }

  // ----- exceptions that end the dispatcher -----

  predicate NewLogin(s: Server, m: Message) {
    m.Login? && m.db.Row? && m.db.id !in Ids(s.sessions)
  }

  /** The user's work domain is listed, but down, and the driver refuses to start it. */
  predicate WorkRefused(s: Server, m: Message) {
    NewLogin(s, m) && WorkName(m.username) in Names(s.work) && !m.workDriver.running && !m.workDriver.creates
  }

  /** The scan meets a name that is no number, or skips a listed domain that is down. */
  ghost predicate GamingConfused(s: Server, m: Message, maxGaming: int) {
    NewLogin(s, m) && |s.gaming| <= s.userCount < maxGaming
    && (MeetsForeignName(Names(s.gaming)) || (SkipsListed(Names(s.gaming)) && !m.gamingDriver.running))
  }

  lemma StartGamingEscapes(s: Server, d: Driver, maxGaming: int)
    requires !s.crashed
    ensures StartGaming(s, d, maxGaming).crashed <==>
            && |s.gaming| < s.userCount <= maxGaming
            && (MeetsForeignName(Names(s.gaming)) || (SkipsListed(Names(s.gaming)) && !d.running))
  {
    BadNameExactly(Names(s.gaming), maxGaming, s.userCount);
    PicksListedExactly(Names(s.gaming), maxGaming, s.userCount);
  }

  lemma LoginEscapes(s: Server, m: Message, maxGaming: int)
    requires !s.crashed && m.Login?
    ensures Step(s, m, maxGaming).crashed <==> WorkRefused(s, m) || GamingConfused(s, m, maxGaming)
  {
    if m.db.Row? {
      match Recognise(s.sessions, m.db.id, m.ip)
      case Back(i) =>
        assert Ids(s.sessions)[i] == m.db.id;
        PrepareLogoutNames(s, i);
      case Elsewhere =>
      case Nowhere =>
        var s1 := StartWork(Entering(s, m.username, m.db.id, m.ip), m.username, m.workDriver);
        assert s1.crashed <==> WorkRefused(s, m);
        if !s1.crashed {
          StartGamingEscapes(s1, m.gamingDriver, maxGaming);
        }
    }
  }

  /**
   * In every reachable state an exception leaves the dispatcher exactly at a request for
   * a work domain under an unknown id, and at a new login whose work domain is refused or
   * whose choice of a gaming domain is confused by what is listed. In other states the
   * source has further exceptions, as for a domain in use that names no user.
   */
  lemma EscapesExactly(s: Server, m: Message, maxGaming: int)
    requires !s.crashed
    ensures Step(s, m, maxGaming).crashed <==>
            || (m.UseWork? && m.id !in Ids(s.sessions))
            || WorkRefused(s, m)
            || GamingConfused(s, m, maxGaming)
  {
    match m
    case Login(_, _, _, _, _) => LoginEscapes(s, m, maxGaming);
    case Logout(id) =>
      if IndexOfId(s, id) < |s.sessions| { PrepareLogoutNames(s, IndexOfId(s, id)); }
    case LeaveGaming(id) =>
      if IndexOfId(s, id) < |s.sessions| { LeaveNames(s, IndexOfId(s, id), Gaming); }
    case UseGaming(id) =>
    case UseWork(id) =>
      assert IndexOfId(s, id) == |s.sessions| <==> id !in Ids(s.sessions);
    case BootFinished(name) =>
  }

  lemma IndexedIsNotForeign(names: seq<string>, maxGaming: nat)
    requires Indexed(names, maxGaming)
    ensures !MeetsForeignName(names)
  {
    forall k | 0 <= k < |names|
      ensures IndexOf(names[k]) != None
    {
      var n: nat :| n < maxGaming && names[k] == IndexName(n);
      IndexOfIndexName(n);
    }
  }

  /** With at most ten domains and only their indices listed, the choice is never confused. */
  lemma NeverConfused(s: Server, m: Message, maxGaming: nat)
    requires Indexed(Names(s.gaming), maxGaming) && maxGaming <= 10
    ensures !GamingConfused(s, m, maxGaming)
  {
    IndexedIsNotForeign(Names(s.gaming), maxGaming);
    if |s.gaming| <= s.userCount < maxGaming {
      var name := BootedName(s.(userCount := s.userCount + 1), maxGaming);
      PicksListedExactly(Names(s.gaming), maxGaming, s.userCount + 1);
    }
  }

  lemma EscapesWithinTen(s: Server, m: Message, maxGaming: nat)
    requires !s.crashed && Indexed(Names(s.gaming), maxGaming) && maxGaming <= 10
    ensures Step(s, m, maxGaming).crashed <==> (m.UseWork? && m.id !in Ids(s.sessions)) || WorkRefused(s, m)
  {
    EscapesExactly(s, m, maxGaming);
    NeverConfused(s, m, maxGaming);
  }

  // ----- availability -----

  /** Pigeonhole: a duplicate-free list inside another is no longer. */
  lemma {:induction false} Pigeonhole<T>(xs: seq<T>, ys: seq<T>)
    requires Distinct(xs) && forall k :: 0 <= k < |xs| ==> xs[k] in ys
    ensures |xs| <= |ys|
  {
    if xs != [] {
      var p :| 0 <= p < |ys| && ys[p] == xs[0];
      var rest := Removed(ys, p);
      forall k | 0 <= k < |xs[1..]|
        ensures xs[1..][k] in rest
      {
        var q :| 0 <= q < |ys| && ys[q] == xs[k + 1];
        assert rest[if q < p then q else q - 1] == xs[k + 1];
      }
      Pigeonhole(xs[1..], rest);
    }
  }

  lemma SomeDomainIsFree(s: Server, i: nat)
    requires Inv(s) && i < |s.sessions| && !Busy(s.sessions[i].state, Gaming)
    requires |s.gaming| >= |s.sessions|
    ensures exists j :: 0 <= j < |s.gaming| && !s.gaming[j].using
  {
    if forall j :: 0 <= j < |s.gaming| ==> s.gaming[j].using {
      var hs := Helds(s.sessions, Gaming);
      var others := Removed(hs, i);
      var ds := seq(|s.gaming|, j requires 0 <= j < |s.gaming| => Some(s.gaming[j].name));
      forall j | 0 <= j < |ds|
        ensures ds[j] in others
      {
        assert InUseBySome(s.sessions, s.gaming[j], Gaming);
        var k :| 0 <= k < |s.sessions| && Holds(s.sessions[k], s.gaming[j], Gaming);
        assert k != i && others[if k < i then k else k - 1] == hs[k];
      }
      forall a, b | 0 <= a < b < |ds|
        ensures ds[a] != ds[b]
      {
        assert Names(s.gaming)[a] != Names(s.gaming)[b];
      }
      Pigeonhole(ds, others);
      assert false;
    }
  }

  /** A user who is not playing, in a server of at most maxGaming users where nothing boots. */
  ghost predicate MayAsk(s: Server, id: int, maxGaming: int) {
    && !s.crashed && s.userCount <= maxGaming
    && (forall j :: 0 <= j < |s.gaming| ==> !s.gaming[j].booting)
    && IndexOfId(s, id) < |s.sessions| && !Busy(s.sessions[IndexOfId(s, id)].state, Gaming)
  }

  ghost predicate Served(s: Server, id: int, maxGaming: int)
    requires IndexOfId(s, id) < |s.sessions|
  {
    var r := Step(s, UseGaming(id), maxGaming);
    var i := IndexOfId(s, id);
    i < |r.sessions| && exists name :: name in Names(s.gaming) && r.sessions[i].gaming == Some(name)
  }

  /** As long as the ledger shows no failed start, whoever may ask is served. */
  lemma LedgerServes(s: Server, id: int, maxGaming: nat)
    requires Inv(s) && Ledger(s, 0, maxGaming) && MayAsk(s, id, maxGaming)
    ensures Served(s, id, maxGaming)
  {
    var i := IndexOfId(s, id);
    SomeDomainIsFree(s, i);
    var j := FirstEmpty(s.gaming);
    assert s.gaming[j].name == Names(s.gaming)[j];
    assert Held(Take(s, i, j, Gaming).sessions[i], Gaming) == Some(s.gaming[j].name);
  }

  /**
   * After any run in which no gaming start failed, with at most as many users as
   * domains and none of the listed domains booting, a user who is not playing and
   * asks for a gaming domain gets one.
   */
  lemma RequestIsServed(s: Server, ms: seq<Message>, maxGaming: nat, id: int)
    requires Inv(s) && Ledger(s, 0, maxGaming) && maxGaming <= 10
    requires FailedStarts(s, ms, maxGaming) == 0 && MayAsk(Run(s, ms, maxGaming), id, maxGaming)
    ensures Served(Run(s, ms, maxGaming), id, maxGaming)
  {
    RunInv(s, ms, maxGaming);
    RunLedger(s, ms, 0, maxGaming);
    LedgerServes(Run(s, ms, maxGaming), id, maxGaming);
  }
}
