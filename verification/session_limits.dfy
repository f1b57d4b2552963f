/**
 * How far the promises about gaming domains reach: up to ten domains, and not
 * further. The runs that break them start from a server nobody is logged in to.
 */
module SessionLimits {
  import opened Text
  import opened GamingNames
  import opened Sessions
  import opened SessionInvariants
  import opened SessionRuns

  // ----- putting runs together -----

  lemma {:induction false} RunConcat(s: Server, ms: seq<Message>, ns: seq<Message>, maxGaming: int)
    ensures Run(s, ms + ns, maxGaming) == Run(Run(s, ms, maxGaming), ns, maxGaming)
    ensures FailedStarts(s, ms + ns, maxGaming)
            == FailedStarts(s, ms, maxGaming) + FailedStarts(Run(s, ms, maxGaming), ns, maxGaming)
    decreases |ms|
  {
    if ms == [] {
      assert ms + ns == ns;
    } else {
      assert (ms + ns)[1..] == ms[1..] + ns;
      RunConcat(Step(s, ms[0], maxGaming), ms[1..], ns, maxGaming);
    }
  }

  lemma RunOne(s: Server, m: Message, maxGaming: int)
    ensures Run(s, [m], maxGaming) == Step(s, m, maxGaming)
    ensures FailedStarts(s, [m], maxGaming) == FailedStart(s, m, maxGaming)
  {
    assert [m][1..] == [];
  }

  lemma RunHead(s: Server, m: Message, ms: seq<Message>, maxGaming: int)
    ensures Run(s, [m] + ms, maxGaming) == Run(Step(s, m, maxGaming), ms, maxGaming)
  {
    assert ([m] + ms)[1..] == ms;
  }

  // ----- logins of different users, each domain in question running already -----

  function Visit(id: nat): Message {
    Login(Decimal(id), Row(id), "10.0.0.1", Driver(true, true), Driver(true, true))
  }

  function Visits(k: nat, n: nat): seq<Message>
    requires k <= n
    decreases n - k
  {
    if k == n then [] else [Visit(k)] + Visits(k + 1, n)
  }

  predicate HasId(us: seq<Session>, id: int) {
    id in Ids(us)
  }

  function IdSet(us: seq<Session>): (ids: set<int>)
    ensures forall id :: id in ids <==> HasId(us, id)
  {
    set id | id in Ids(us)
  }

  function IdsBelow(n: nat): (ids: set<int>)
    ensures forall id :: id in ids <==> 0 <= id < n
  {
    if n == 0 then {} else IdsBelow(n - 1) + {n - 1}
  }

  /** The first n users, each logged in and not playing. */
  ghost predicate Visited(us: seq<Session>, n: nat) {
    IdSet(us) == IdsBelow(n) && forall k :: 0 <= k < |us| ==> us[k].state == LoggedIn
  }

  /** The next user's login starts no domain: there are enough, or the one chosen runs. */
  ghost predicate StartsNone(names: seq<string>, users: nat, maxGaming: int) {
    users < maxGaming
    && var c := FindDown(names, maxGaming, users + 1); c == Enough || (c.Boot? && c.name in names)
  }

  lemma VisitStep(s: Server, n: nat, maxGaming: int)
    requires !s.crashed && Visited(s.sessions, n) && StartsNone(Names(s.gaming), n, maxGaming)
    requires s.userCount == n
    ensures var r := Step(s, Visit(n), maxGaming);
            && !r.crashed && r.gaming == s.gaming && r.userCount == n + 1
            && Visited(r.sessions, n + 1)
  {
    var m := Visit(n);
    assert !HasId(s.sessions, n);
    assert Recognise(s.sessions, n, m.ip).Nowhere?;
    var s1 := StartWork(Entering(s, m.username, n, m.ip), m.username, m.workDriver);
    assert Step(s, m, maxGaming) == StartGaming(s1, m.gamingDriver, maxGaming);
    EnteredVisited(s.sessions, InsertPos(Usernames(s.sessions), m.username),
                   Session(n, m.username, m.ip, LoggedIn, None, None), n);
  }

  lemma EnteredVisited(us: seq<Session>, p: nat, u: Session, n: nat)
    requires p <= |us| && Visited(us, n) && u.id == n && u.state == LoggedIn
    ensures Visited(Inserted(us, p, u), n + 1)
  {
    var r := Inserted(us, p, u);
    assert forall k :: 0 <= k < |r| ==> r[k] == if k < p then us[k] else if k == p then u else us[k - 1];
    assert Ids(r) == Inserted(Ids(us), p, n);
    forall id: int
      ensures HasId(r, id) <==> HasId(us, id) || id == n
    {
      InsertedHas(Ids(us), p, n, id);
    }
    assert IdSet(r) == IdsBelow(n + 1);
  }

  lemma InsertedHas<T>(xs: seq<T>, p: nat, x: T, y: T)
    requires p <= |xs|
    ensures y in Inserted(xs, p, x) <==> y in xs || y == x
  {
    InInserted(xs, p, x);
    assert Inserted(xs, p, x)[p] == x;
  }

  /** A run so far in which the users up to k logged in and nothing else changed. */
  ghost predicate After(s: Server, t: Server, k: nat) {
    !t.crashed && t.gaming == s.gaming && t.userCount == k && Visited(t.sessions, k)
  }

  lemma VisitNext(s: Server, t: Server, k: nat, ms: seq<Message>, maxGaming: int) returns (u: Server)
    requires After(s, t, k) && StartsNone(Names(s.gaming), k, maxGaming)
    ensures After(s, u, k + 1) && Run(t, [Visit(k)] + ms, maxGaming) == Run(u, ms, maxGaming)
  {
    u := Step(t, Visit(k), maxGaming);
    VisitStep(t, k, maxGaming);
    RunHead(t, Visit(k), ms, maxGaming);
  }

  lemma {:induction false} VisitRun(s: Server, t: Server, k: nat, n: nat, maxGaming: int) returns (r: Server)
    requires After(s, t, k) && k <= n
    requires forall l :: k <= l < n ==> StartsNone(Names(s.gaming), l, maxGaming)
    ensures After(s, r, n) && Run(t, Visits(k, n), maxGaming) == r
    decreases n - k
  {
    if k == n {
      r := t;
    } else {
      var u := VisitNext(s, t, k, Visits(k + 1, n), maxGaming);
      r := VisitRun(s, u, k + 1, n, maxGaming);
    }
  }

  lemma {:induction false} VisitsNeverFail(s: Server, k: nat, n: nat, maxGaming: int)
    requires k <= n
    ensures FailedStarts(s, Visits(k, n), maxGaming) == 0
    decreases n - k
  {
    if k < n {
      assert Visits(k, n)[1..] == Visits(k + 1, n);
      assert FailedStart(s, Visit(k), maxGaming) == 0;
      VisitsNeverFail(Step(s, Visit(k), maxGaming), k + 1, n, maxGaming);
    }
  }

  // ----- eleven domains and more: g10 stands before g2 -----

  const FOUR: seq<string> := ["g0", "g1", "g10", "g2"]

  function NewDomains(names: seq<string>): (pool: seq<Domain>)
    ensures |pool| == |names|
    ensures forall i {:trigger pool[i]} :: 0 <= i < |names| ==> pool[i] == NewDomain(names[i], Gaming)
  {
    seq(|names|, i requires 0 <= i < |names| => NewDomain(names[i], Gaming))
  }

  /** A server started while those domains run. */
  function Started(names: seq<string>): Server {
    Server(NewDomains(names), [], [], 0, false)
  }

  lemma FourStarted(maxGaming: nat)
    requires maxGaming > 10
    ensures var s := Started(FOUR);
            && Initial(s) && Inv(s) && Names(s.gaming) == FOUR && Indexed(FOUR, maxGaming)
            && FindDown(FOUR, maxGaming, 5) == Boot("g2")
            && forall k :: 0 <= k < 5 ==> StartsNone(FOUR, k, maxGaming)
  {
    var s := Started(FOUR);
    TenSortsBeforeTwo(maxGaming);
    assert Names(s.gaming) == FOUR;
    InitialInv(s);
    assert FOUR[3] == "g2";
  }

  /** Five users, four domains, and no start failed. */
  lemma FiveShareFour(maxGaming: nat)
    requires maxGaming > 10
    ensures var r := Run(Started(FOUR), Visits(0, 5), maxGaming);
            && !r.crashed && FailedStarts(Started(FOUR), Visits(0, 5), maxGaming) == 0
            && r.userCount == 5 && |r.gaming| == 4
  {
    FourStarted(maxGaming);
    var r := VisitRun(Started(FOUR), Started(FOUR), 0, 5, maxGaming);
    VisitsNeverFail(Started(FOUR), 0, 5, maxGaming);
  }

  /** The ledger holds over all runs of a server started with indexed domains. */
  ghost predicate LedgerOverRuns(maxGaming: nat) {
    forall s: Server, ms: seq<Message> :: Initial(s) && Indexed(Names(s.gaming), maxGaming)
      ==> Ledger(Run(s, ms, maxGaming), FailedStarts(s, ms, maxGaming), maxGaming)
  }

  lemma LedgerExactly(maxGaming: nat)
    ensures LedgerOverRuns(maxGaming) <==> maxGaming <= 10
  {
    if maxGaming <= 10 {
      forall s: Server, ms: seq<Message> | Initial(s) && Indexed(Names(s.gaming), maxGaming)
        ensures Ledger(Run(s, ms, maxGaming), FailedStarts(s, ms, maxGaming), maxGaming)
      {
        InitialInv(s);
        RunLedger(s, ms, 0, maxGaming);
      }
    } else {
      FourStarted(maxGaming);
      FiveShareFour(maxGaming);
    }
  }

  // ----- availability -----

  /** Whoever may ask after a run without failed starts is served. */
  ghost predicate AlwaysServed(maxGaming: nat) {
    forall s: Server, ms: seq<Message>, id: int ::
      Initial(s) && Indexed(Names(s.gaming), maxGaming) && FailedStarts(s, ms, maxGaming) == 0
      && MayAsk(Run(s, ms, maxGaming), id, maxGaming)
      ==> Served(Run(s, ms, maxGaming), id, maxGaming)
  }

  function Boots(names: seq<string>): seq<Message> {
    if names == [] then [] else [BootFinished(names[0])] + Boots(names[1..])
  }

  /** The end of every listed domain's boot. */
  lemma {:induction false} BootRun(s: Server, names: seq<string>, maxGaming: int)
    requires Inv(s) && !s.crashed
    ensures var r := Run(s, Boots(names), maxGaming);
            && r == s.(gaming := r.gaming) && Inv(r) && |r.gaming| == |s.gaming|
            && FailedStarts(s, Boots(names), maxGaming) == 0
            && forall j :: 0 <= j < |s.gaming| ==>
                 r.gaming[j] == if s.gaming[j].name in names then s.gaming[j].(booting := false) else s.gaming[j]
    decreases |names|
  {
    if names != [] {
      var m := BootFinished(names[0]);
      StepInv(s, m, maxGaming);
      assert Boots(names)[0] == m && Boots(names)[1..] == Boots(names[1..]);
      BootRun(Step(s, m, maxGaming), names[1..], maxGaming);
    }
  }

  function Uses(k: nat, n: nat): seq<Message>
    requires k <= n
    decreases n - k
  {
    if k == n then [] else [UseGaming(k)] + Uses(k + 1, n)
  }

  /** The first n users play on the first n domains; the others are not playing. */
  ghost predicate Playing(s: Server, n: nat, total: nat) {
    && (forall k :: 0 <= k < |s.sessions| && s.sessions[k].id >= n ==> s.sessions[k].state == LoggedIn)
    && (forall id: nat :: id < total ==> HasId(s.sessions, id))
    && (forall j :: 0 <= j < |s.gaming| ==> !s.gaming[j].booting && (s.gaming[j].using <==> j < n))
  }

  lemma FirstEmptyIs(pool: seq<Domain>, n: nat)
    requires n <= |pool| && (forall k :: 0 <= k < n ==> pool[k].using || pool[k].booting)
    requires n < |pool| ==> !pool[n].using && !pool[n].booting
    ensures FirstEmpty(pool) == n
  {
  }

  lemma IndexOfHad(s: Server, id: int)
    requires HasId(s.sessions, id)
    ensures IndexOfId(s, id) < |s.sessions| && s.sessions[IndexOfId(s, id)].id == id
  {
    var k :| 0 <= k < |s.sessions| && Ids(s.sessions)[k] == id;
    assert s.sessions[k].id == id;
  }

  lemma TakenPlaying(s: Server, i: nat, n: nat, total: nat)
    requires Playing(s, n, total) && i < |s.sessions| && n < |s.gaming| && s.sessions[i].id == n
    ensures Playing(Take(s, i, n, Gaming), n + 1, total)
  {
    var r := Take(s, i, n, Gaming);
    assert Ids(r.sessions) == Ids(s.sessions);
    assert forall id :: HasId(r.sessions, id) <==> HasId(s.sessions, id);
  }

  lemma UseStep(s: Server, n: nat, total: nat, maxGaming: int)
    requires !s.crashed && Playing(s, n, total) && n < total && n < |s.gaming|
    ensures var r := Step(s, UseGaming(n), maxGaming);
            && !r.crashed && r.userCount == s.userCount && |r.gaming| == |s.gaming|
            && Playing(r, n + 1, total)
  {
    var i := IndexOfId(s, n);
    assert HasId(s.sessions, n);
    IndexOfHad(s, n);
    FirstEmptyIs(s.gaming, n);
    assert Step(s, UseGaming(n), maxGaming) == Take(s, i, n, Gaming);
    TakenPlaying(s, i, n, total);
  }

  lemma {:induction false} UseRun(s: Server, k: nat, n: nat, total: nat, maxGaming: int)
    requires !s.crashed && Playing(s, k, total) && k <= n <= total && n <= |s.gaming|
    ensures var r := Run(s, Uses(k, n), maxGaming);
            && !r.crashed && r.userCount == s.userCount && |r.gaming| == |s.gaming|
            && Playing(r, n, total)
    decreases n - k
  {
    if k < n {
      UseStep(s, k, total, maxGaming);
      assert Uses(k, n)[1..] == Uses(k + 1, n);
      UseRun(Step(s, UseGaming(k), maxGaming), k + 1, n, total, maxGaming);
    }
  }

  lemma {:induction false} UsesNeverFail(s: Server, k: nat, n: nat, maxGaming: int)
    requires k <= n
    ensures FailedStarts(s, Uses(k, n), maxGaming) == 0
    decreases n - k
  {
    if k < n {
      assert Uses(k, n)[1..] == Uses(k + 1, n);
      UsesNeverFail(Step(s, UseGaming(k), maxGaming), k + 1, n, maxGaming);
    }
  }

  /** All domains boot, one user more than there are domains logs in, and all but the last play. */
  function BusyRun(names: seq<string>): seq<Message> {
    Boots(names) + (Visits(0, |names| + 1) + Uses(0, |names|))
  }

  lemma AllBoot(names: seq<string>, maxGaming: nat) returns (r: Server)
    requires Inv(Started(names))
    ensures r == Run(Started(names), Boots(names), maxGaming)
    ensures FailedStarts(Started(names), Boots(names), maxGaming) == 0
    ensures Inv(r) && After(r, r, 0) && Names(r.gaming) == names && Playing(r, 0, 0)
  {
    BootRun(Started(names), names, maxGaming);
    r := Run(Started(names), Boots(names), maxGaming);
    assert Names(r.gaming) == names;
  }

  /** The logins and requests of that run, once the domains have booted. */
  lemma AllButOnePlay(s: Server, n: nat, maxGaming: nat) returns (r: Server)
    requires Inv(s) && After(s, s, 0) && |s.gaming| == n && Playing(s, 0, 0)
    requires forall k :: 0 <= k <= n ==> StartsNone(Names(s.gaming), k, maxGaming)
    ensures r == Run(s, Visits(0, n + 1) + Uses(0, n), maxGaming)
    ensures FailedStarts(s, Visits(0, n + 1) + Uses(0, n), maxGaming) == 0
    ensures Inv(r) && !r.crashed && r.userCount == n + 1 && |r.gaming| == n && Playing(r, n, n + 1)
  {
    var s' := VisitRun(s, s, 0, n + 1, maxGaming);
    VisitsNeverFail(s, 0, n + 1, maxGaming);
    RunInv(s, Visits(0, n + 1), maxGaming);
    UseRun(s', 0, n, n + 1, maxGaming);
    UsesNeverFail(s', 0, n, maxGaming);
    RunInv(s', Uses(0, n), maxGaming);
    RunConcat(s, Visits(0, n + 1), Uses(0, n), maxGaming);
    r := Run(s', Uses(0, n), maxGaming);
  }

  /** The last user may ask, and is not served, if no login found a domain to start. */
  lemma LastIsNotServed(names: seq<string>, maxGaming: nat)
    requires Inv(Started(names)) && |names| < maxGaming
    requires forall k :: 0 <= k <= |names| ==> StartsNone(names, k, maxGaming)
    ensures var s, r := Started(names), Run(Started(names), BusyRun(names), maxGaming);
            && FailedStarts(s, BusyRun(names), maxGaming) == 0
            && MayAsk(r, |names|, maxGaming) && !Served(r, |names|, maxGaming)
  {
    var s, n := Started(names), |names|;
    var s1 := AllBoot(names, maxGaming);
    var r := AllButOnePlay(s1, n, maxGaming);
    RunConcat(s, Boots(names), Visits(0, n + 1) + Uses(0, n), maxGaming);
    NotServed(r, n, n + 1, maxGaming);
  }

  lemma NotServed(r: Server, n: nat, total: nat, maxGaming: int)
    requires !r.crashed && r.userCount <= maxGaming && Playing(r, n, total) && n < total && |r.gaming| == n
    requires Inv(r)
    ensures MayAsk(r, n, maxGaming) && !Served(r, n, maxGaming)
  {
    assert HasId(r.sessions, n);
    IndexOfHad(r, n);
    FirstEmptyIs(r.gaming, n);
    assert Step(r, UseGaming(n), maxGaming) == r;
    assert Held(r.sessions[IndexOfId(r, n)], Gaming) == None;
  }

  /** Five users, four domains, four of them playing: the fifth may ask and gets nothing. */
  lemma FifthIsNotServed(maxGaming: nat)
    requires maxGaming > 10
    ensures var s, r := Started(FOUR), Run(Started(FOUR), BusyRun(FOUR), maxGaming);
            && Initial(s) && Indexed(Names(s.gaming), maxGaming) && FailedStarts(s, BusyRun(FOUR), maxGaming) == 0
            && MayAsk(r, 4, maxGaming) && !Served(r, 4, maxGaming)
  {
    FourStarted(maxGaming);
    LastIsNotServed(FOUR, maxGaming);
  }

  lemma AvailabilityExactly(maxGaming: nat)
    ensures AlwaysServed(maxGaming) <==> maxGaming <= 10
  {
    if maxGaming <= 10 {
      forall s: Server, ms: seq<Message>, id: int | Initial(s) && Indexed(Names(s.gaming), maxGaming)
          && FailedStarts(s, ms, maxGaming) == 0 && MayAsk(Run(s, ms, maxGaming), id, maxGaming)
        ensures Served(Run(s, ms, maxGaming), id, maxGaming)
      {
        InitialInv(s);
        RequestIsServed(s, ms, maxGaming, id);
      }
    } else {
      FifthIsNotServed(maxGaming);
    }
  }

  // ----- exceptions -----

  /** One login more, of a user whose gaming domain is found down. */
  function Unlucky(id: nat): Message {
    Login(Decimal(id), Row(id), "10.0.0.1", Driver(true, true), Driver(false, true))
  }

  lemma LastLoginEscapes(names: seq<string>, n: nat, maxGaming: int)
    requires Inv(Started(names)) && |names| <= n < maxGaming
    requires forall k :: 0 <= k < n ==> StartsNone(names, k, maxGaming)
    requires MeetsForeignName(names) || SkipsListed(names)
    ensures Run(Started(names), Visits(0, n) + [Unlucky(n)], maxGaming).crashed
  {
    var s := Started(names);
    assert Names(s.gaming) == names;
    var r := VisitRun(s, s, 0, n, maxGaming);
    RunConcat(s, Visits(0, n), [Unlucky(n)], maxGaming);
    UnluckyEscapes(Run(s, Visits(0, n), maxGaming), names, n, maxGaming);
  }

  lemma UnluckyEscapes(r: Server, names: seq<string>, n: nat, maxGaming: int)
    requires !r.crashed && r.userCount == n && Visited(r.sessions, n) && Names(r.gaming) == names
    requires |names| <= n < maxGaming
    requires MeetsForeignName(names) || SkipsListed(names)
    ensures Run(r, [Unlucky(n)], maxGaming).crashed
  {
    RunOne(r, Unlucky(n), maxGaming);
    assert |r.gaming| == |names| && !HasId(r.sessions, n);
    EscapesExactly(r, Unlucky(n), maxGaming);
  }

  /** A domain called gx runs when the server starts: the second login ends the dispatcher. */
  lemma ForeignNameEscapes(maxGaming: nat)
    requires maxGaming > 1
    ensures Initial(Started(["gx"])) && Run(Started(["gx"]), Visits(0, 1) + [Unlucky(1)], maxGaming).crashed
  {
    var names := ["gx"];
    InitialInv(Started(names));
    assert "gx"[1..] == "x" && IndexOf(names[0]) == None;
    assert MeetsForeignName(names);
    LastLoginEscapes(names, 1, maxGaming);
  }

  /** Eleven domains: the fifth login picks g2, which is listed and went down, and ends the dispatcher. */
  lemma StaleDomainEscapes(maxGaming: nat)
    requires maxGaming > 10
    ensures Initial(Started(FOUR)) && Indexed(Names(Started(FOUR).gaming), maxGaming)
    ensures Run(Started(FOUR), Visits(0, 4) + [Unlucky(4)], maxGaming).crashed
  {
    FourStarted(maxGaming);
    assert FOUR[3] == "g2";
    PicksListedExactly(FOUR, maxGaming, 5);
    LastLoginEscapes(FOUR, 4, maxGaming);
  }
}
