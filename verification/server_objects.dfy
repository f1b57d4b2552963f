/**
 * The server's objects, updated in place as the source updates them. Every
 * method is proved against the functions of module Sessions.
 */
module ServerObjects {
  import opened Text
  import opened GamingNames
  import opened Sessions
  import opened SessionInvariants

  class DomainStatus {
    const name: string
    const gaming: bool
    var using: bool
    var user: Option<string>
    var bootingUp: bool

    constructor (name: string, gaming: bool)
      ensures this.name == name && this.gaming == gaming
      ensures Value() == NewDomain(name, if gaming then Gaming else Work)
    {
      this.name := name;
      this.gaming := gaming;
      using := false;
      user := None;
      bootingUp := gaming;
    }

    ghost function Value(): Domain
      reads this
    {
      Domain(name, using, user, bootingUp)
    }
  }

  class User {
    const username: string
    const userId: int
    const ip: string
    var state: UserState
    var usingWorkStatus: DomainStatus?
    var usingGamingStatus: DomainStatus?
    var timeoutCounter: nat

    constructor (username: string, userId: int, ip: string)
      ensures Value() == Session(userId, username, ip, LoggedIn, None, None)
      ensures this.userId == userId && this.username == username && this.ip == ip
      ensures usingWorkStatus == usingGamingStatus == null && timeoutCounter == 0
    {
      this.username, this.userId, this.ip := username, userId, ip;
      state := LoggedIn;
      usingWorkStatus, usingGamingStatus := null, null;
      timeoutCounter := 0;
    }

    ghost function Value(): Session
      reads this
    {
      Session(userId, username, ip, state, HeldName(usingGamingStatus), HeldName(usingWorkStatus))
    }

    /** A status object is referred to exactly while its kind is in use. */
    ghost predicate Referring()
      reads this
    {
      && (usingGamingStatus != null <==> Busy(state, Gaming))
      && (usingWorkStatus != null <==> Busy(state, Work))
    }

    /** False stands for the UserError IS_WORKING. */
    method UseWorkDomain(status: DomainStatus) returns (ok: bool)
      requires Referring()
      modifies this`state, this`usingWorkStatus, status`using, status`user
      ensures Referring()
      ensures ok <==> !old(Busy(state, Work))
      ensures !ok ==> Value() == old(Value()) && status.Value() == old(status.Value())
                      && usingWorkStatus == old(usingWorkStatus)
      ensures ok ==> Value() == Holding(old(Value()), Work, Some(status.name), Entered(old(state), Work))
                     && status.Value() == old(status.Value()).(using := true, user := Some(username))
                     && usingWorkStatus == status
    {
      if state == UsesGaming {
        state := UsesBoth;
      } else if state == LoggedIn {
        state := UsesWork;
      } else {
        return false;
      }
      usingWorkStatus := status;
      status.user := Some(username);
      status.using := true;
      return true;
    }

    /** False stands for the UserError IS_PLAYING. */
    method UseGamingDomain(status: DomainStatus) returns (ok: bool)
      requires Referring()
      modifies this`state, this`usingGamingStatus, status`using, status`user
      ensures Referring()
      ensures ok <==> !old(Busy(state, Gaming))
      ensures !ok ==> Value() == old(Value()) && status.Value() == old(status.Value())
                      && usingGamingStatus == old(usingGamingStatus)
      ensures ok ==> Value() == Holding(old(Value()), Gaming, Some(status.name), Entered(old(state), Gaming))
                     && status.Value() == old(status.Value()).(using := true, user := Some(username))
                     && usingGamingStatus == status
    {
      if state == UsesWork {
        state := UsesBoth;
      } else if state == LoggedIn {
        state := UsesGaming;
      } else {
        return false;
      }
      usingGamingStatus := status;
      status.user := Some(username);
      status.using := true;
      return true;
    }

    /** False stands for the UserError IS_NOT_PLAYING. */
    method LeftGamingDomain() returns (ok: bool)
      requires Referring()
      modifies this`state, this`usingGamingStatus, Referred(usingGamingStatus)
      ensures Referring()
      ensures ok <==> old(Busy(state, Gaming))
      ensures usingGamingStatus == null
      ensures Value() == if ok then Holding(old(Value()), Gaming, None, Left(old(state), Gaming)) else old(Value())
      ensures ok ==> old(usingGamingStatus).Value()
                     == old(usingGamingStatus.Value()).(using := false, user := None)
    {
      if state == UsesBoth {
        state := UsesWork;
      } else if state == UsesGaming {
        state := LoggedIn;
      } else {
        return false;
      }
      usingGamingStatus.using := false;
      usingGamingStatus.user := None;
      usingGamingStatus := null;
      return true;
    }

    /** False stands for the UserError IS_NOT_WORKING. */
    method LeftWorkDomain() returns (ok: bool)
      requires Referring()
      modifies this`state, this`usingWorkStatus, Referred(usingWorkStatus)
      ensures Referring()
      ensures ok <==> old(Busy(state, Work))
      ensures usingWorkStatus == null
      ensures Value() == if ok then Holding(old(Value()), Work, None, Left(old(state), Work)) else old(Value())
      ensures ok ==> old(usingWorkStatus).Value()
                     == old(usingWorkStatus.Value()).(using := false, user := None)
    {
      if state == UsesBoth {
        state := UsesGaming;
      } else if state == UsesWork {
        state := LoggedIn;
      } else {
        return false;
      }
      usingWorkStatus.using := false;
      usingWorkStatus.user := None;
      usingWorkStatus := null;
      return true;
    }
  }

  ghost function Referred(status: DomainStatus?): set<object> {
    if status == null then {} else {status}
  }

  function HeldName(status: DomainStatus?): Option<string> {
    if status == null then None else Some(status.name)
  }

  ghost function Values(ds: seq<DomainStatus>): (vs: seq<Domain>)
    reads ds
    ensures |vs| == |ds| && forall i {:trigger vs[i]} :: 0 <= i < |ds| ==> vs[i] == ds[i].Value()
  {
    seq(|ds|, i requires 0 <= i < |ds| reads ds => ds[i].Value())
  }

  ghost function UserValues(us: seq<User>): (vs: seq<Session>)
    reads us
    ensures |vs| == |us| && forall i {:trigger vs[i]} :: 0 <= i < |us| ==> vs[i] == us[i].Value()
  {
    seq(|us|, i requires 0 <= i < |us| reads us => us[i].Value())
  }

  // ----- lists of status objects -----

  /** A status object stands in the list its name's first letter selects. */
  ghost predicate Named(d: DomainStatus) {
    d.name != "" && (d.gaming <==> d.name[0] == 'g')
  }

  ghost predicate WellKept(ds: seq<DomainStatus>, gaming: bool) {
    Distinct(StatusNames(ds)) && forall d :: d in ds ==> Named(d) && d.gaming == gaming
  }

  ghost predicate Grown(ds: seq<DomainStatus>, ds': seq<DomainStatus>) {
    forall d :: d in ds ==> d in ds'
  }

  /** Only objects not in use left the list. */
  ghost predicate Shrunk(ds: seq<DomainStatus>, ds': seq<DomainStatus>)
    reads ds
  {
    (forall d :: d in ds' ==> d in ds) && (forall d :: d in ds && d.using ==> d in ds')
  }

  function StatusNames(ds: seq<DomainStatus>): (names: seq<string>)
    ensures |names| == |ds| && forall i {:trigger names[i]} :: 0 <= i < |ds| ==> names[i] == ds[i].name
  {
    seq(|ds|, i requires 0 <= i < |ds| => ds[i].name)
  }

  function ListedObjects(ds: seq<DomainStatus>, status: DomainStatus): seq<DomainStatus> {
    Inserted(ds, InsertPos(StatusNames(ds), status.name), status)
  }

  lemma ObjectsDistinct(ds: seq<DomainStatus>, gaming: bool)
    requires WellKept(ds, gaming)
    ensures Distinct(ds)
  {
    forall i, k | 0 <= i < k < |ds|
      ensures ds[i] != ds[k]
    {
      assert StatusNames(ds)[i] != StatusNames(ds)[k];
    }
  }

  lemma ListedMembers(ds: seq<DomainStatus>, status: DomainStatus)
    ensures Grown(ds, ListedObjects(ds, status))
    ensures forall d :: d in ListedObjects(ds, status) ==> d in ds || d == status
  {
    InInserted(ds, InsertPos(StatusNames(ds), status.name), status);
  }

  lemma ListedStatusNames(ds: seq<DomainStatus>, status: DomainStatus)
    ensures StatusNames(ListedObjects(ds, status))
            == Inserted(StatusNames(ds), InsertPos(StatusNames(ds), status.name), status.name)
  {
  }

  lemma ListedValues(ds: seq<DomainStatus>, status: DomainStatus)
    requires WellKept(ds, status.gaming) && Named(status)
    ensures status.name !in StatusNames(ds) ==> WellKept(ListedObjects(ds, status), status.gaming)
    ensures Values(ListedObjects(ds, status)) == Listed(Values(ds), status.Value())
    ensures Grown(ds, ListedObjects(ds, status))
    ensures forall d :: d in ListedObjects(ds, status) ==> d in ds || d == status
  {
    assert StatusNames(ds) == Names(Values(ds));
    ListedStatusNames(ds, status);
    if status.name !in StatusNames(ds) {
      InsertedKeepsDistinct(StatusNames(ds), InsertPos(StatusNames(ds), status.name), status.name);
    }
    ListedMembers(ds, status);
  }

  lemma RemovedValues(ds: seq<DomainStatus>, j: nat, gaming: bool)
    requires WellKept(ds, gaming) && j < |ds| && !ds[j].using
    ensures WellKept(Removed(ds, j), gaming) && Values(Removed(ds, j)) == Removed(Values(ds), j)
    ensures Shrunk(ds, Removed(ds, j))
  {
    var r := Removed(ds, j);
    assert StatusNames(r) == Removed(StatusNames(ds), j);
    RemovedKeepsDistinct(StatusNames(ds), j);
    forall d | d in ds && d.using
      ensures d in r
    {
      var i :| 0 <= i < |ds| && ds[i] == d;
      assert r[if i < j then i else i - 1] == d;
    }
  }

  class Hypervisor {
    var gamingDomainsWorking: seq<DomainStatus>
    var workDomainsWorking: seq<DomainStatus>

    ghost predicate Valid()
      reads this
    {
      WellKept(gamingDomainsWorking, true) && WellKept(workDomainsWorking, false)
    }

    ghost function GamingPool(): seq<Domain>
      reads this, gamingDomainsWorking
    {
      Values(gamingDomainsWorking)
    }

    ghost function WorkPool(): seq<Domain>
      reads this, workDomainsWorking
    {
      Values(workDomainsWorking)
    }

    constructor ()
      ensures Valid() && gamingDomainsWorking == workDomainsWorking == []
    {
      gamingDomainsWorking, workDomainsWorking := [], [];
    }

    /** __find_running: every domain the driver reports is listed, unused. */
    method FindRunning(names: seq<string>)
      requires Valid() && gamingDomainsWorking == workDomainsWorking == []
      requires Distinct(names) && forall k :: 0 <= k < |names| ==> names[k] != ""
      modifies this
      ensures Valid()
      ensures forall d :: d in gamingDomainsWorking ==> fresh(d)
      ensures forall d :: d in workDomainsWorking ==> fresh(d)
      ensures AllNew(GamingPool(), Gaming, names) && AllNew(WorkPool(), Work, names)
      ensures AllFound(GamingPool(), Gaming, names) && AllFound(WorkPool(), Work, names)
    {
      for i := 0 to |names|
        invariant Valid()
        invariant forall d :: d in gamingDomainsWorking ==> fresh(d)
        invariant forall d :: d in workDomainsWorking ==> fresh(d)
        invariant AllNew(GamingPool(), Gaming, names[..i]) && AllNew(WorkPool(), Work, names[..i])
        invariant AllFound(GamingPool(), Gaming, names[..i]) && AllFound(WorkPool(), Work, names[..i])
      {
        ListRunning(names[i], names[..i]);
        assert names[..i + 1] == names[..i] + [names[i]];
      }
      assert names[..|names|] == names;
    }

    method ListRunning(name: string, ghost known: seq<string>)
      requires Valid() && name != "" && name !in known
      requires AllNew(GamingPool(), Gaming, known) && AllNew(WorkPool(), Work, known)
      requires AllFound(GamingPool(), Gaming, known) && AllFound(WorkPool(), Work, known)
      modifies this
      ensures Valid()
      ensures forall d :: d in gamingDomainsWorking ==> d in old(gamingDomainsWorking) || fresh(d)
      ensures forall d :: d in workDomainsWorking ==> d in old(workDomainsWorking) || fresh(d)
      ensures AllNew(GamingPool(), Gaming, known + [name]) && AllNew(WorkPool(), Work, known + [name])
      ensures AllFound(GamingPool(), Gaming, known + [name]) && AllFound(WorkPool(), Work, known + [name])
    {
      var status := new DomainStatus(name, name[0] == 'g');
      ghost var gaming, work, kind := GamingPool(), WorkPool(), if status.gaming then Gaming else Work;
      assert status.Value() == NewDomain(name, kind);
      assert StatusNames(gamingDomainsWorking) == Names(gaming) && StatusNames(workDomainsWorking) == Names(work);
      AddToWorkingStatuses(status);
      if status.gaming {
        ListedAllNew(gaming, Gaming, known, name);
        ListedAllFound(gaming, Gaming, known, name);
        StillAllNew(work, Work, known, name);
      } else {
        ListedAllNew(work, Work, known, name);
        ListedAllFound(work, Work, known, name);
        StillAllNew(gaming, Gaming, known, name);
      }
    }

    method FindWorkStatus(name: string) returns (j: nat)
      ensures j == Find(Names(WorkPool()), name)
    {
      j := FindStatus(workDomainsWorking, name);
    }

    /** The scan of find_gaming_status and find_work_status; the length stands for IS_NOT_RUNNING. */
    static method FindStatus(ds: seq<DomainStatus>, name: string) returns (j: nat)
      ensures j == Find(Names(Values(ds)), name)
    {
      ghost var names := Names(Values(ds));
      for i := 0 to |ds|
        invariant forall k :: 0 <= k < i ==> names[k] != name
      {
        assert names[i] == Values(ds)[i].name;
        if ds[i].name == name {
          return i;
        }
      }
      return |ds|;
    }

    method FindEmptyGamingStatus() returns (j: nat)
      ensures j == FirstEmpty(GamingPool())
    {
      ghost var pool := GamingPool();
      for i := 0 to |gamingDomainsWorking|
        invariant forall k :: 0 <= k < i ==> pool[k].using || pool[k].booting
      {
        assert pool[i] == gamingDomainsWorking[i].Value();
        if !gamingDomainsWorking[i].using && !gamingDomainsWorking[i].bootingUp {
          return i;
        }
      }
      return |gamingDomainsWorking|;
    }

    /** Also when a domain of that name is listed already. */
    method AddToWorkingStatuses(status: DomainStatus)
      requires Valid() && Named(status)
      modifies this
      ensures gamingDomainsWorking
              == if status.gaming then ListedObjects(old(gamingDomainsWorking), status) else old(gamingDomainsWorking)
      ensures workDomainsWorking
              == if status.gaming then old(workDomainsWorking) else ListedObjects(old(workDomainsWorking), status)
      ensures status.name !in StatusNames(if status.gaming then old(gamingDomainsWorking) else old(workDomainsWorking))
              ==> Valid()
      ensures forall d :: d in gamingDomainsWorking ==> d in old(gamingDomainsWorking) || d == status
      ensures forall d :: d in workDomainsWorking ==> d in old(workDomainsWorking) || d == status
      ensures Grown(old(gamingDomainsWorking), gamingDomainsWorking)
      ensures Grown(old(workDomainsWorking), workDomainsWorking)
      ensures GamingPool() == if status.gaming then Listed(old(GamingPool()), status.Value()) else old(GamingPool())
      ensures WorkPool() == if status.gaming then old(WorkPool()) else Listed(old(WorkPool()), status.Value())
    {
      if status.gaming {
        ListedValues(gamingDomainsWorking, status);
        gamingDomainsWorking := ListedObjects(gamingDomainsWorking, status);
      } else {
        ListedValues(workDomainsWorking, status);
        workDomainsWorking := ListedObjects(workDomainsWorking, status);
      }
    }

    /** startup_name, including what __find_mendacity finds out. */
    method StartupName(name: string, driver: Driver) returns (o: Outcome)
      requires Valid() && name != ""
      modifies this
      ensures Valid()
      ensures Grown(old(gamingDomainsWorking), gamingDomainsWorking)
      ensures Grown(old(workDomainsWorking), workDomainsWorking)
      ensures forall d :: d in gamingDomainsWorking ==> d in old(gamingDomainsWorking) || fresh(d)
      ensures forall d :: d in workDomainsWorking ==> d in old(workDomainsWorking) || fresh(d)
      ensures name[0] == 'g' ==> (o, GamingPool()) == Startup(old(GamingPool()), name, Gaming, driver)
      ensures name[0] == 'g' ==> workDomainsWorking == old(workDomainsWorking)
      ensures name[0] != 'g' ==> (o, WorkPool()) == Startup(old(WorkPool()), name, Work, driver)
      ensures name[0] != 'g' ==> gamingDomainsWorking == old(gamingDomainsWorking)
    {
      var gaming := name[0] == 'g';
      var list := if gaming then gamingDomainsWorking else workDomainsWorking;
      var j := FindStatus(list, name);
      var statusFound := j < |list|;
      assert StatusNames(list) == Names(Values(list));
      assert statusFound <==> name in Names(Values(list));
      if statusFound && driver.running {
        return AlreadyRunning;
      }
      var mendacity := statusFound != driver.running;
      if !mendacity {
        if !driver.creates {
          return CreateFailed;
        }
      } else if statusFound {
        return if !driver.creates || gaming then Escapes else Restarted;
      }
      var status := new DomainStatus(name, gaming);
      AddToWorkingStatuses(status);
      return Added;
    }

    /** shutdown_name without force; a domain in use or not listed stays as it is. */
    method ShutdownName(name: string)
      requires Valid() && name != ""
      modifies this
      ensures Valid()
      ensures Shrunk(old(gamingDomainsWorking), gamingDomainsWorking)
      ensures Shrunk(old(workDomainsWorking), workDomainsWorking)
      ensures name[0] == 'g' ==> workDomainsWorking == old(workDomainsWorking)
      ensures name[0] != 'g' ==> gamingDomainsWorking == old(gamingDomainsWorking)
      ensures GamingPool() == if name[0] == 'g' then Shutdown(old(GamingPool()), name) else old(GamingPool())
      ensures WorkPool() == if name[0] == 'g' then old(WorkPool()) else Shutdown(old(WorkPool()), name)
    {
      if name[0] == 'g' {
        gamingDomainsWorking := Without(gamingDomainsWorking, name, true);
      } else {
        workDomainsWorking := Without(workDomainsWorking, name, false);
      }
    }

    static method Without(ds: seq<DomainStatus>, name: string, ghost gaming: bool) returns (r: seq<DomainStatus>)
      requires WellKept(ds, gaming)
      ensures WellKept(r, gaming) && Shrunk(ds, r) && Values(r) == Shutdown(Values(ds), name)
    {
      var j := FindStatus(ds, name);
      if j < |ds| && !ds[j].using {
        RemovedValues(ds, j, gaming);
        return Removed(ds, j);
      }
      return ds;
    }

    /** The end of a gaming domain's startup thread. */
    method FinishGamingStartup(name: string)
      requires Valid()
      modifies gamingDomainsWorking
      ensures GamingPool() == Booted(old(GamingPool()), name)
      ensures forall d :: d in gamingDomainsWorking ==> d.using == old(d.using) && d.user == old(d.user)
    {
      ObjectsDistinct(gamingDomainsWorking, true);
      for i := 0 to |gamingDomainsWorking|
        invariant forall k :: 0 <= k < i ==>
                    gamingDomainsWorking[k].Value() == Booted(old(GamingPool()), name)[k]
        invariant forall k :: i <= k < |gamingDomainsWorking| ==>
                    gamingDomainsWorking[k].Value() == old(gamingDomainsWorking[k].Value())
      {
        if gamingDomainsWorking[i].name == name {
          gamingDomainsWorking[i].bootingUp := false;
        }
      }
    }
  }

  /** A list as __find_running leaves it: of the right kind, unused, from the given names. */
  ghost predicate AllNew(pool: seq<Domain>, kind: Kind, names: seq<string>) {
    && WellListed(pool)
    && forall j :: 0 <= j < |pool| ==>
         pool[j] == NewDomain(pool[j].name, kind) && pool[j].name in names
  }

  predicate OfKind(name: string, kind: Kind) {
    (name != "" && name[0] == 'g') <==> kind == Gaming
  }

  /** Every given name of the kind is listed. */
  ghost predicate AllFound(pool: seq<Domain>, kind: Kind, names: seq<string>) {
    forall k :: 0 <= k < |names| && OfKind(names[k], kind) ==> names[k] in Names(pool)
  }

  lemma StillAllNew(pool: seq<Domain>, kind: Kind, names: seq<string>, name: string)
    requires AllNew(pool, kind, names) && AllFound(pool, kind, names) && !OfKind(name, kind)
    ensures AllNew(pool, kind, names + [name]) && AllFound(pool, kind, names + [name])
  {
  }

  lemma ListedAllFound(pool: seq<Domain>, kind: Kind, names: seq<string>, name: string)
    requires AllFound(pool, kind, names)
    ensures AllFound(Listed(pool, NewDomain(name, kind)), kind, names + [name])
  {
    var p := InsertPos(Names(pool), name);
    var r := Names(Listed(pool, NewDomain(name, kind)));
    assert r == Inserted(Names(pool), p, name);
    InInserted(Names(pool), p, name);
    assert r[p] == name;
  }

  lemma ListedAllNew(pool: seq<Domain>, kind: Kind, names: seq<string>, name: string)
    requires AllNew(pool, kind, names) && name !in names
    ensures AllNew(Listed(pool, NewDomain(name, kind)), kind, names + [name])
  {
    var r := Listed(pool, NewDomain(name, kind));
    ListedKeeps(pool, [], name, kind);
    var p := InsertPos(Names(pool), name);
    assert forall j :: 0 <= j < |r| ==>
                         r[j] == if j < p then pool[j] else if j == p then NewDomain(name, kind) else pool[j - 1];
  }

  // ----- the effect of an object update on the list it stands in -----

  lemma ReleasedAt(pool: seq<Domain>, pool': seq<Domain>, j: nat)
    requires Distinct(Names(pool)) && |pool'| == |pool| && j < |pool|
    requires pool'[j] == pool[j].(using := false, user := None)
    requires forall k :: 0 <= k < |pool| && k != j ==> pool'[k] == pool[k]
    ensures pool' == Released(pool, pool[j].name)
  {
    FindIsUnique(Names(pool), j);
  }

  function ReleasedIf(pool: seq<Domain>, held: Option<string>): seq<Domain> {
    if held == None then pool else Released(pool, held.value)
  }

  /** The list of objects after at most one of them was released. */
  lemma Unaffected(ds: seq<DomainStatus>, held: DomainStatus?, pool: seq<Domain>)
    requires |pool| == |ds| && Distinct(StatusNames(ds))
    requires forall k :: 0 <= k < |ds| ==> pool[k].name == ds[k].name
    requires forall k :: 0 <= k < |ds| && ds[k] != held ==> ds[k].Value() == pool[k]
    requires forall k :: 0 <= k < |ds| && ds[k] == held ==> ds[k].Value() == pool[k].(using := false, user := None)
    requires held != null ==> held in ds
    ensures Values(ds) == ReleasedIf(pool, HeldName(held))
  {
    assert Names(pool) == StatusNames(ds);
    if held == null {
      assert Values(ds) == pool;
    } else {
      var j :| 0 <= j < |ds| && ds[j] == held;
      forall k | 0 <= k < |ds| && k != j
        ensures ds[k] != ds[j]
      {
        assert StatusNames(ds)[k] != StatusNames(ds)[j];
      }
      ReleasedAt(pool, Values(ds), j);
    }
  }

  // ----- references from users to status objects -----

  ghost function GamingRefs(us: seq<User>): (refs: seq<DomainStatus?>)
    reads us
    ensures |refs| == |us| && forall i {:trigger refs[i]} :: 0 <= i < |us| ==> refs[i] == us[i].usingGamingStatus
  {
    seq(|us|, i requires 0 <= i < |us| reads us => us[i].usingGamingStatus)
  }

  ghost function WorkRefs(us: seq<User>): (refs: seq<DomainStatus?>)
    reads us
    ensures |refs| == |us| && forall i {:trigger refs[i]} :: 0 <= i < |us| ==> refs[i] == us[i].usingWorkStatus
  {
    seq(|us|, i requires 0 <= i < |us| reads us => us[i].usingWorkStatus)
  }

  /** References lead to listed objects marked as in use. */
  ghost predicate Marked(refs: seq<DomainStatus?>, ds: seq<DomainStatus>)
    reads ds
  {
    forall i :: 0 <= i < |refs| && refs[i] != null ==> refs[i] in ds && refs[i].using
  }

  /** No two references lead to the same object. */
  ghost predicate NoneTwice(refs: seq<DomainStatus?>) {
    forall i, k :: 0 <= i < k < |refs| && refs[i] != null ==> refs[i] != refs[k]
  }

  ghost predicate Leases(refs: seq<DomainStatus?>, ds: seq<DomainStatus>)
    reads ds
  {
    Marked(refs, ds) && NoneTwice(refs)
  }

  lemma LeasesWithout(refs: seq<DomainStatus?>, i: nat, ds: seq<DomainStatus>)
    requires Leases(refs, ds) && i < |refs|
    ensures Leases(Removed(refs, i), ds)
  {
    var r := Removed(refs, i);
    assert forall k :: 0 <= k < |r| ==> r[k] == refs[if k < i then k else k + 1];
  }

  lemma LeasesWith(refs: seq<DomainStatus?>, p: nat, ds: seq<DomainStatus>)
    requires Leases(refs, ds) && p <= |refs|
    ensures Leases(Inserted(refs, p, null), ds)
  {
    var r := Inserted(refs, p, null);
    assert forall k :: 0 <= k < |r| ==> r[k] == if k < p then refs[k] else if k == p then null else refs[k - 1];
  }

  ghost predicate Linking(us: seq<User>, gaming: seq<DomainStatus>, work: seq<DomainStatus>)
    reads us, gaming, work
  {
    && Distinct(us)
    && (forall i :: 0 <= i < |us| ==> us[i].Referring())
    && Leases(GamingRefs(us), gaming)
    && Leases(WorkRefs(us), work)
  }

  lemma LinkedUser(us: seq<User>, i: nat, gaming: seq<DomainStatus>, work: seq<DomainStatus>)
    requires Linking(us, gaming, work) && i < |us|
    ensures us[i].usingGamingStatus != null ==> us[i].usingGamingStatus in gaming
    ensures us[i].usingWorkStatus != null ==> us[i].usingWorkStatus in work
    ensures forall k :: 0 <= k < |us| && k != i ==> us[k] != us[i]
    ensures us[i].usingGamingStatus != null ==>
              forall k :: 0 <= k < |us| && k != i ==> us[k].usingGamingStatus != us[i].usingGamingStatus
    ensures us[i].usingWorkStatus != null ==>
              forall k :: 0 <= k < |us| && k != i ==> us[k].usingWorkStatus != us[i].usingWorkStatus
  {
    assert GamingRefs(us)[i] == us[i].usingGamingStatus && WorkRefs(us)[i] == us[i].usingWorkStatus;
    forall k | 0 <= k < |us| && k != i
      ensures us[i].usingGamingStatus != null ==> us[k].usingGamingStatus != us[i].usingGamingStatus
      ensures us[i].usingWorkStatus != null ==> us[k].usingWorkStatus != us[i].usingWorkStatus
    {
      assert GamingRefs(us)[k] == us[k].usingGamingStatus && WorkRefs(us)[k] == us[k].usingWorkStatus;
    }
  }

  lemma LinkingWithout(us: seq<User>, i: nat, gaming: seq<DomainStatus>, work: seq<DomainStatus>)
    requires Linking(us, gaming, work) && i < |us|
    ensures Linking(Removed(us, i), gaming, work)
    ensures UserValues(Removed(us, i)) == Removed(UserValues(us), i)
  {
    RemovedKeepsDistinct(us, i);
    var r := Removed(us, i);
    assert forall k :: 0 <= k < |r| ==> r[k] == us[if k < i then k else k + 1];
    assert GamingRefs(r) == Removed(GamingRefs(us), i) && WorkRefs(r) == Removed(WorkRefs(us), i);
    LeasesWithout(GamingRefs(us), i, gaming);
    LeasesWithout(WorkRefs(us), i, work);
  }

  function EnteredUsers(us: seq<User>, usr: User): seq<User> {
    Inserted(us, InsertPos(UserNames(us), usr.username), usr)
  }

  function UserNames(us: seq<User>): (names: seq<string>)
    ensures |names| == |us| && forall i {:trigger names[i]} :: 0 <= i < |us| ==> names[i] == us[i].username
  {
    seq(|us|, i requires 0 <= i < |us| => us[i].username)
  }

  lemma LinkingWith(us: seq<User>, usr: User, gaming: seq<DomainStatus>, work: seq<DomainStatus>)
    requires Linking(us, gaming, work) && usr !in us && usr.Referring()
    requires usr.usingGamingStatus == usr.usingWorkStatus == null
    ensures Linking(EnteredUsers(us, usr), gaming, work)
    ensures forall u :: u in EnteredUsers(us, usr) ==> u in us || u == usr
  {
    var p := InsertPos(UserNames(us), usr.username);
    InsertedKeepsDistinct(us, p, usr);
    var r := EnteredUsers(us, usr);
    assert forall k :: 0 <= k < |r| ==> r[k] == if k < p then us[k] else if k == p then usr else us[k - 1];
    assert GamingRefs(r) == Inserted(GamingRefs(us), p, null) && WorkRefs(r) == Inserted(WorkRefs(us), p, null);
    LeasesWith(GamingRefs(us), p, gaming);
    LeasesWith(WorkRefs(us), p, work);
  }

  lemma EnteredValues(us: seq<User>, usr: User)
    ensures UserValues(EnteredUsers(us, usr))
            == Inserted(UserValues(us), InsertPos(Usernames(UserValues(us)), usr.username), usr.Value())
  {
    assert UserNames(us) == Usernames(UserValues(us));
  }

  lemma LeasesReset(refs: seq<DomainStatus?>, i: nat, ds: seq<DomainStatus>)
    requires i < |refs| && NoneTwice(refs)
    requires forall k :: 0 <= k < |refs| && k != i && refs[k] != null ==> refs[k] in ds && refs[k].using
    ensures Leases(refs[i := null], ds)
  {
  }

  lemma LeasesShrunk(refs: seq<DomainStatus?>, ds: seq<DomainStatus>, ds': seq<DomainStatus>)
    requires Leases(refs, ds) && Shrunk(ds, ds')
    ensures Leases(refs, ds')
  {
  }

  lemma LeasesGrown(refs: seq<DomainStatus?>, ds: seq<DomainStatus>, ds': seq<DomainStatus>)
    requires Leases(refs, ds) && Grown(ds, ds')
    ensures Leases(refs, ds')
  {
  }

  /** One user's change, seen from the lists of values and references. */
  lemma OneUserChanged(
      us: seq<User>, i: nat, was: seq<Session>, refs: seq<DomainStatus?>, workRefs: seq<DomainStatus?>)
    requires i < |us| == |was| == |refs| == |workRefs|
    requires forall k :: 0 <= k < |us| && k != i ==>
               us[k].Value() == was[k] && us[k].usingGamingStatus == refs[k] && us[k].usingWorkStatus == workRefs[k]
    ensures UserValues(us) == was[i := us[i].Value()]
    ensures GamingRefs(us) == refs[i := us[i].usingGamingStatus]
    ensures WorkRefs(us) == workRefs[i := us[i].usingWorkStatus]
  {
  }

  function TakenBy(u: Session, name: string, kind: Kind): Session {
    Holding(u, kind, Some(name), Entered(u.state, kind))
  }

  function LeftBy(u: Session, kind: Kind): Session {
    if Busy(u.state, kind) then Holding(u, kind, None, Left(u.state, kind)) else u
  }

  class Dispatcher {
    const hyper: Hypervisor
    const maxGaming: int
    var userStatus: seq<User>
    var userCount: int
    /** Set where an exception escapes and ends the dispatcher's loop. */
    var crashed: bool

    ghost function State(): Server
      reads this, hyper, userStatus, hyper.gamingDomainsWorking, hyper.workDomainsWorking
    {
      Server(hyper.GamingPool(), hyper.WorkPool(), UserValues(userStatus), userCount, crashed)
    }

    ghost predicate Valid()
      reads this, hyper, userStatus, hyper.gamingDomainsWorking, hyper.workDomainsWorking
    {
      hyper.Valid() && Linking(userStatus, hyper.gamingDomainsWorking, hyper.workDomainsWorking)
    }

    /** The server as it starts, after __find_running. */
    constructor (hyper: Hypervisor, maxGaming: int)
      requires hyper.Valid()
      requires AllNew(hyper.GamingPool(), Gaming, Names(hyper.GamingPool()))
      requires AllNew(hyper.WorkPool(), Work, Names(hyper.WorkPool()))
      ensures Valid() && Initial(State())
      ensures this.hyper == hyper && this.maxGaming == maxGaming
    {
      this.hyper, this.maxGaming := hyper, maxGaming;
      userStatus, userCount, crashed := [], 0, false;
    }

    method GetUserObj(userId: int) returns (i: nat)
      ensures i == IndexOfId(State(), userId)
    {
      ghost var ids := Ids(UserValues(userStatus));
      for k := 0 to |userStatus|
        invariant forall l :: 0 <= l < k ==> ids[l] != userId
      {
        assert ids[k] == userStatus[k].userId;
        if userStatus[k].userId == userId {
          return k;
        }
      }
      return |userStatus|;
    }

    /** left_gaming_domain of the i-th user, seen from the server's state. */
    method LeaveGamingOf(i: nat)
      requires Valid() && i < |userStatus|
      modifies userStatus[i], Referred(userStatus[i].usingGamingStatus)
      ensures Valid() && State() == Leave(old(State()), i, Gaming)
      ensures userStatus[i].usingWorkStatus == old(userStatus[i].usingWorkStatus)
    {
      ghost var s := State();
      assert s.sessions[i] == userStatus[i].Value();
      DropGaming(i);
    }

    method DropGaming(i: nat)
      requires Valid() && i < |userStatus|
      modifies userStatus[i], Referred(userStatus[i].usingGamingStatus)
      ensures Valid() && hyper.WorkPool() == old(hyper.WorkPool())
      ensures hyper.GamingPool() == ReleasedIf(old(hyper.GamingPool()), HeldName(old(userStatus[i].usingGamingStatus)))
      ensures UserValues(userStatus) == old(UserValues(userStatus))[i := userStatus[i].Value()]
      ensures userStatus[i].usingWorkStatus == old(userStatus[i].usingWorkStatus)
      ensures userStatus[i].Value() == LeftBy(old(userStatus[i].Value()), Gaming)
    {
      ghost var refs := GamingRefs(userStatus);
      LinkedUser(userStatus, i, hyper.gamingDomainsWorking, hyper.workDomainsWorking);
      ResetGaming(i);
      LeasesReset(refs, i, hyper.gamingDomainsWorking);
    }

    /** What that does to the values and the references. */
    method ResetGaming(i: nat)
      requires Valid() && i < |userStatus|
      modifies userStatus[i], Referred(userStatus[i].usingGamingStatus)
      ensures hyper.GamingPool() == ReleasedIf(old(hyper.GamingPool()), HeldName(old(userStatus[i].usingGamingStatus)))
      ensures hyper.WorkPool() == old(hyper.WorkPool())
      ensures UserValues(userStatus) == old(UserValues(userStatus))[i := userStatus[i].Value()]
      ensures GamingRefs(userStatus) == old(GamingRefs(userStatus))[i := null]
      ensures WorkRefs(userStatus) == old(WorkRefs(userStatus))
      ensures userStatus[i].usingWorkStatus == old(userStatus[i].usingWorkStatus) && userStatus[i].Referring()
      ensures userStatus[i].Value() == LeftBy(old(userStatus[i].Value()), Gaming)
    {
      var usr := userStatus[i];
      ghost var held, pool, us := usr.usingGamingStatus, hyper.GamingPool(), UserValues(userStatus);
      ghost var refs, workRefs := GamingRefs(userStatus), WorkRefs(userStatus);
      LinkedUser(userStatus, i, hyper.gamingDomainsWorking, hyper.workDomainsWorking);
      assert held != null ==> held !in hyper.workDomainsWorking;
      var _ := usr.LeftGamingDomain();
      Unaffected(hyper.gamingDomainsWorking, held, pool);
      OneUserChanged(userStatus, i, us, refs, workRefs);
    }

    /** left_work_domain of the i-th user, seen from the server's state. */
    method LeaveWorkOf(i: nat)
      requires Valid() && i < |userStatus|
      modifies userStatus[i], Referred(userStatus[i].usingWorkStatus)
      ensures Valid() && State() == Leave(old(State()), i, Work)
      ensures userStatus[i].usingGamingStatus == old(userStatus[i].usingGamingStatus)
    {
      ghost var s := State();
      assert s.sessions[i] == userStatus[i].Value();
      DropWork(i);
    }

    method DropWork(i: nat)
      requires Valid() && i < |userStatus|
      modifies userStatus[i], Referred(userStatus[i].usingWorkStatus)
      ensures Valid() && hyper.GamingPool() == old(hyper.GamingPool())
      ensures hyper.WorkPool() == ReleasedIf(old(hyper.WorkPool()), HeldName(old(userStatus[i].usingWorkStatus)))
      ensures UserValues(userStatus) == old(UserValues(userStatus))[i := userStatus[i].Value()]
      ensures userStatus[i].usingGamingStatus == old(userStatus[i].usingGamingStatus)
      ensures userStatus[i].Value() == LeftBy(old(userStatus[i].Value()), Work)
    {
      ghost var refs := WorkRefs(userStatus);
      LinkedUser(userStatus, i, hyper.gamingDomainsWorking, hyper.workDomainsWorking);
      ResetWork(i);
      LeasesReset(refs, i, hyper.workDomainsWorking);
    }

    /** What that does to the values and the references. */
    method ResetWork(i: nat)
      requires Valid() && i < |userStatus|
      modifies userStatus[i], Referred(userStatus[i].usingWorkStatus)
      ensures hyper.WorkPool() == ReleasedIf(old(hyper.WorkPool()), HeldName(old(userStatus[i].usingWorkStatus)))
      ensures hyper.GamingPool() == old(hyper.GamingPool())
      ensures UserValues(userStatus) == old(UserValues(userStatus))[i := userStatus[i].Value()]
      ensures WorkRefs(userStatus) == old(WorkRefs(userStatus))[i := null]
      ensures GamingRefs(userStatus) == old(GamingRefs(userStatus))
      ensures userStatus[i].usingGamingStatus == old(userStatus[i].usingGamingStatus) && userStatus[i].Referring()
      ensures userStatus[i].Value() == LeftBy(old(userStatus[i].Value()), Work)
    {
      var usr := userStatus[i];
      ghost var held, pool, us := usr.usingWorkStatus, hyper.WorkPool(), UserValues(userStatus);
      ghost var refs, workRefs := GamingRefs(userStatus), WorkRefs(userStatus);
      LinkedUser(userStatus, i, hyper.gamingDomainsWorking, hyper.workDomainsWorking);
      assert held != null ==> held !in hyper.gamingDomainsWorking;
      var _ := usr.LeftWorkDomain();
      Unaffected(hyper.workDomainsWorking, held, pool);
      OneUserChanged(userStatus, i, us, refs, workRefs);
    }

    /** prepare_logout of the i-th user: each kind it is in is left. */
    method PrepareUserLogout(i: nat)
      requires Valid() && i < |userStatus|
      modifies userStatus[i], Referred(userStatus[i].usingGamingStatus) + Referred(userStatus[i].usingWorkStatus)
      ensures Valid() && State() == PrepareLogout(old(State()), i)
    {
      var state := userStatus[i].state;
      if state == UsesBoth {
        LeaveGamingOf(i);
        LeaveWorkOf(i);
      } else if state == UsesGaming {
        LeaveGamingOf(i);
      } else if state == UsesWork {
        LeaveWorkOf(i);
      }
    }

    /** The same, with the frame stated by the lists the objects stand in. */
    method PrepareLogoutOf(i: nat)
      requires Valid() && i < |userStatus|
      modifies userStatus, hyper.gamingDomainsWorking, hyper.workDomainsWorking
      ensures Valid() && State() == PrepareLogout(old(State()), i)
    {
      LinkedUser(userStatus, i, hyper.gamingDomainsWorking, hyper.workDomainsWorking);
      PrepareUserLogout(i);
    }

    /** The walk over the logged-in users at a login. */
    method RecogniseUser(id: int, ip: string) returns (r: Seen)
      ensures r == Recognise(UserValues(userStatus), id, ip)
    {
      ghost var us := UserValues(userStatus);
      var again := false;
      for k := 0 to |userStatus|
        invariant forall l :: 0 <= l < k ==> us[l].id != id || us[l].ip != ip
        invariant again <==> exists l :: 0 <= l < k && us[l].id == id
      {
        assert us[k] == userStatus[k].Value();
        if userStatus[k].userId == id && userStatus[k].ip == ip {
          RecogniseFirst(us, id, ip, k);
          return Back(k);
        } else if userStatus[k].userId == id {
          again := true;
        }
      }
      RecogniseNobody(us, id, ip);
      return if again then Elsewhere else Nowhere;
    }

    method EnterUser(usr: User)
      requires Valid() && usr !in userStatus && usr.Referring() && usr.usingGamingStatus == usr.usingWorkStatus == null
      requires usr.Value() == Session(usr.userId, usr.username, usr.ip, LoggedIn, None, None)
      modifies this`userStatus, this`userCount
      ensures Valid() && State() == Entering(old(State()), usr.username, usr.userId, usr.ip)
      ensures forall u :: u in userStatus ==> u in old(userStatus) || u == usr
    {
      ghost var session := usr.Value();
      LinkingWith(userStatus, usr, hyper.gamingDomainsWorking, hyper.workDomainsWorking);
      EnteredValues(userStatus, usr);
      userCount, userStatus := userCount + 1, EnteredUsers(userStatus, usr);
      assert usr.Value() == session;
    }

    method StartUserWork(username: string, driver: Driver)
      requires Valid()
      modifies this`crashed, hyper
      ensures Valid() && State() == StartWork(old(State()), username, driver)
      ensures hyper.gamingDomainsWorking == old(hyper.gamingDomainsWorking)
      ensures forall d :: d in hyper.workDomainsWorking ==> d in old(hyper.workDomainsWorking) || fresh(d)
    {
      var o := hyper.StartupName(WorkName(username), driver);
      LeasesGrown(WorkRefs(userStatus), old(hyper.workDomainsWorking), hyper.workDomainsWorking);
      crashed := o == Escapes;
    }

    method BootGaming(name: string, driver: Driver)
      requires Valid() && name != "" && name[0] == 'g'
      modifies this`crashed, hyper
      ensures Valid()
      ensures State() == var (o, pool) := Startup(old(State()).gaming, name, Gaming, driver);
                         old(State()).(gaming := pool, crashed := o == Escapes)
      ensures hyper.workDomainsWorking == old(hyper.workDomainsWorking)
      ensures forall d :: d in hyper.gamingDomainsWorking ==> d in old(hyper.gamingDomainsWorking) || fresh(d)
    {
      var o := hyper.StartupName(name, driver);
      LeasesGrown(GamingRefs(userStatus), old(hyper.gamingDomainsWorking), hyper.gamingDomainsWorking);
      crashed := o == Escapes;
    }

    method StartUserGaming(driver: Driver)
      requires Valid() && !crashed
      modifies this`crashed, hyper
      ensures Valid() && State() == StartGaming(old(State()), driver, maxGaming)
      ensures hyper.workDomainsWorking == old(hyper.workDomainsWorking)
      ensures forall d :: d in hyper.gamingDomainsWorking ==> d in old(hyper.gamingDomainsWorking) || fresh(d)
    {
      if userCount <= maxGaming {
        var names := StatusNames(hyper.gamingDomainsWorking);
        assert names == Names(hyper.GamingPool());
        var c := FindGamingDomainDown(names, maxGaming, userCount);
        match c {
          case Boot(name) =>
            BootsGaming(names, maxGaming, userCount);
            BootGaming(name, driver);
          case BadName =>
            crashed := true;
          case _ =>
        }
      }
    }

    method LogUserIn(username: string, db: DbAnswer, ip: string, workDriver: Driver, gamingDriver: Driver)
      requires Valid() && !crashed
      modifies this, hyper, userStatus, hyper.gamingDomainsWorking, hyper.workDomainsWorking
      ensures Valid()
      ensures State() == Step(old(State()), Login(username, db, ip, workDriver, gamingDriver), maxGaming)
      ensures forall u :: u in userStatus ==> u in old(userStatus) || fresh(u)
      ensures forall d :: d in hyper.gamingDomainsWorking ==> d in old(hyper.gamingDomainsWorking) || fresh(d)
      ensures forall d :: d in hyper.workDomainsWorking ==> d in old(hyper.workDomainsWorking) || fresh(d)
    {
      if db.Row? {
        var seen := RecogniseUser(db.id, ip);
        AnswerLogin(seen, username, db.id, ip, workDriver, gamingDriver);
      }
    }

    method AnswerLogin(seen: Seen, username: string, id: int, ip: string, workDriver: Driver, gamingDriver: Driver)
      requires Valid() && !crashed && (seen.Back? ==> seen.index < |userStatus|)
      modifies this, hyper, userStatus, hyper.gamingDomainsWorking, hyper.workDomainsWorking
      ensures Valid()
      ensures State() == match seen
                         case Back(i) => PrepareLogout(old(State()), i)
                         case Elsewhere => old(State())
                         case Nowhere => Admitted(old(State()), username, id, ip, workDriver, gamingDriver, maxGaming)
      ensures forall u :: u in userStatus ==> u in old(userStatus) || fresh(u)
      ensures forall d :: d in hyper.gamingDomainsWorking ==> d in old(hyper.gamingDomainsWorking) || fresh(d)
      ensures forall d :: d in hyper.workDomainsWorking ==> d in old(hyper.workDomainsWorking) || fresh(d)
    {
      match seen {
        case Back(i) =>
          PrepareLogoutOf(i);
        case Elsewhere =>
        case Nowhere =>
          AdmitUser(username, id, ip, workDriver, gamingDriver);
      }
    }

    method AdmitUser(username: string, id: int, ip: string, workDriver: Driver, gamingDriver: Driver)
      requires Valid() && !crashed
      modifies this`userStatus, this`userCount, this`crashed, hyper
      ensures Valid()
      ensures State() == Admitted(old(State()), username, id, ip, workDriver, gamingDriver, maxGaming)
      ensures forall u :: u in userStatus ==> u in old(userStatus) || fresh(u)
      ensures forall d :: d in hyper.gamingDomainsWorking ==> d in old(hyper.gamingDomainsWorking) || fresh(d)
      ensures forall d :: d in hyper.workDomainsWorking ==> d in old(hyper.workDomainsWorking) || fresh(d)
    {
      var usr := new User(username, id, ip);
      EnterUser(usr);
      StartUserWork(username, workDriver);
      if !crashed {
        StartUserGaming(gamingDriver);
      }
    }

    method ShutdownEmptyDomain()
      requires hyper.Valid()
      modifies hyper
      ensures hyper.Valid() && hyper.GamingPool() == ShutdownEmpty(old(hyper.GamingPool()))
      ensures hyper.workDomainsWorking == old(hyper.workDomainsWorking)
      ensures Shrunk(old(hyper.gamingDomainsWorking), hyper.gamingDomainsWorking)
    {
      var j := hyper.FindEmptyGamingStatus();
      if j < |hyper.gamingDomainsWorking| {
        var status := hyper.gamingDomainsWorking[j];
        assert status in hyper.gamingDomainsWorking;
        assert hyper.GamingPool()[j] == status.Value();
        hyper.ShutdownName(status.name);
      }
    }

    method ShutdownUserWork(username: string)
      requires Valid()
      modifies hyper
      ensures Valid() && State() == old(State()).(work := Shutdown(old(State()).work, WorkName(username)))
      ensures hyper.gamingDomainsWorking == old(hyper.gamingDomainsWorking)
      ensures forall d :: d in hyper.workDomainsWorking ==> d in old(hyper.workDomainsWorking)
    {
      var name := WorkName(username);
      assert name[0] == 'w';
      ghost var us := UserValues(userStatus);
      hyper.ShutdownName(name);
      assert UserValues(userStatus) == us;
      LeasesShrunk(WorkRefs(userStatus), old(hyper.workDomainsWorking), hyper.workDomainsWorking);
    }

    method ShutdownOneGaming()
      requires Valid()
      modifies hyper
      ensures Valid() && State() == Trimmed(old(State()), maxGaming)
      ensures hyper.workDomainsWorking == old(hyper.workDomainsWorking)
      ensures forall d :: d in hyper.gamingDomainsWorking ==> d in old(hyper.gamingDomainsWorking)
    {
      if userCount - 1 >= maxGaming {
        return;
      }
      ghost var us := UserValues(userStatus);
      ShutdownEmptyDomain();
      assert UserValues(userStatus) == us;
      LeasesShrunk(GamingRefs(userStatus), old(hyper.gamingDomainsWorking), hyper.gamingDomainsWorking);
    }

    method RemoveUser(i: nat)
      requires Valid() && i < |userStatus|
      modifies this`userStatus, this`userCount
      ensures Valid() && State() == Departed(old(State()), i)
      ensures forall u :: u in userStatus ==> u in old(userStatus)
    {
      userCount := userCount - 1;
      LinkingWithout(userStatus, i, hyper.gamingDomainsWorking, hyper.workDomainsWorking);
      userStatus := Removed(userStatus, i);
    }

    method LeaveAllAndShutDown(i: nat)
      requires Valid() && i < |userStatus|
      modifies hyper, userStatus, hyper.gamingDomainsWorking, hyper.workDomainsWorking
      ensures Valid() && State() == LeftAll(old(State()), i)
      ensures hyper.gamingDomainsWorking == old(hyper.gamingDomainsWorking)
      ensures forall d :: d in hyper.workDomainsWorking ==> d in old(hyper.workDomainsWorking)
    {
      var username := userStatus[i].username;
      assert username == UserValues(userStatus)[i].username;
      PrepareLogoutOf(i);
      ShutdownUserWork(username);
    }

    method LogUserOut(userId: int)
      requires Valid() && !crashed
      modifies this, hyper, userStatus, hyper.gamingDomainsWorking, hyper.workDomainsWorking
      ensures Valid() && State() == Step(old(State()), Logout(userId), maxGaming)
      ensures forall u :: u in userStatus ==> u in old(userStatus)
      ensures forall d :: d in hyper.gamingDomainsWorking ==> d in old(hyper.gamingDomainsWorking)
      ensures forall d :: d in hyper.workDomainsWorking ==> d in old(hyper.workDomainsWorking)
    {
      var i := GetUserObj(userId);
      if i < |userStatus| {
        LogUserOutAt(i);
      }
    }

    method LogUserOutAt(i: nat)
      requires Valid() && i < |userStatus|
      modifies this, hyper, userStatus, hyper.gamingDomainsWorking, hyper.workDomainsWorking
      ensures Valid() && State() == Departed(Trimmed(LeftAll(old(State()), i), maxGaming), i)
      ensures forall u :: u in userStatus ==> u in old(userStatus)
      ensures forall d :: d in hyper.gamingDomainsWorking ==> d in old(hyper.gamingDomainsWorking)
      ensures forall d :: d in hyper.workDomainsWorking ==> d in old(hyper.workDomainsWorking)
    {
      LeaveAllAndShutDown(i);
      ShutdownOneGaming();
      RemoveUser(i);
    }

    /** Dispatcher case 3. */
    method UseGamingDomain(userId: int)
      requires Valid() && !crashed
      modifies userStatus, hyper.gamingDomainsWorking
      ensures Valid() && State() == Step(old(State()), UseGaming(userId), maxGaming)
    {
      var i := GetUserObj(userId);
      if i == |userStatus| {
        return;
      }
      var usr := userStatus[i];
      if usr.state == UsesGaming || usr.state == UsesBoth {
        return;
      }
      var j := hyper.FindEmptyGamingStatus();
      if j < |hyper.gamingDomainsWorking| {
        TakeGaming(i, j);
      }
    }

    method TakeGaming(i: nat, j: nat)
      requires Valid() && i < |userStatus| && j < |hyper.gamingDomainsWorking|
      requires !Busy(userStatus[i].state, Gaming) && !hyper.gamingDomainsWorking[j].using
      modifies userStatus[i], hyper.gamingDomainsWorking[j]
      ensures Valid() && State() == Take(old(State()), i, j, Gaming)
    {
      ghost var s := State();
      assert s.sessions[i] == userStatus[i].Value() && PoolOf(s, Gaming)[j] == hyper.gamingDomainsWorking[j].Value();
      LinkedUser(userStatus, i, hyper.gamingDomainsWorking, hyper.workDomainsWorking);
      LeaseGaming(i, j);
    }

    /** What that does to the values and the references. */
    method LeaseGaming(i: nat, j: nat)
      requires Valid() && i < |userStatus| && j < |hyper.gamingDomainsWorking|
      requires !Busy(userStatus[i].state, Gaming) && !hyper.gamingDomainsWorking[j].using
      modifies userStatus[i], hyper.gamingDomainsWorking[j]
      ensures hyper.GamingPool() == Leased(old(hyper.GamingPool()), j, userStatus[i].username)
      ensures hyper.WorkPool() == old(hyper.WorkPool())
      ensures UserValues(userStatus) == old(UserValues(userStatus))[i := userStatus[i].Value()]
      ensures GamingRefs(userStatus) == old(GamingRefs(userStatus))[i := hyper.gamingDomainsWorking[j]]
      ensures WorkRefs(userStatus) == old(WorkRefs(userStatus))
      ensures userStatus[i].Referring() && hyper.gamingDomainsWorking[j].using
      ensures userStatus[i].Value() == TakenBy(old(userStatus[i].Value()), hyper.gamingDomainsWorking[j].name, Gaming)
    {
      var usr, status := userStatus[i], hyper.gamingDomainsWorking[j];
      assert status in hyper.gamingDomainsWorking && status !in hyper.workDomainsWorking;
      ghost var us, refs, workRefs := UserValues(userStatus), GamingRefs(userStatus), WorkRefs(userStatus);
      ObjectsDistinct(hyper.gamingDomainsWorking, true);
      LinkedUser(userStatus, i, hyper.gamingDomainsWorking, hyper.workDomainsWorking);
      var _ := usr.UseGamingDomain(status);
      OneUserChanged(userStatus, i, us, refs, workRefs);
    }

    /** Dispatcher case 4. */
    method LeaveGamingDomain(userId: int)
      requires Valid() && !crashed
      modifies userStatus, hyper.gamingDomainsWorking
      ensures Valid() && State() == Step(old(State()), LeaveGaming(userId), maxGaming)
    {
      var i := GetUserObj(userId);
      if i < |userStatus| {
        LinkedUser(userStatus, i, hyper.gamingDomainsWorking, hyper.workDomainsWorking);
        LeaveGamingOf(i);
      }
    }

    /** Dispatcher case 5. */
    method UseWorkDomain(userId: int)
      requires Valid() && !crashed
      modifies this`crashed, userStatus, hyper.workDomainsWorking
      ensures Valid() && State() == Step(old(State()), UseWork(userId), maxGaming)
    {
      var i := GetUserObj(userId);
      if i == |userStatus| {
        crashed := true;
        return;
      }
      UseWorkOf(i);
    }

    method UseWorkOf(i: nat)
      requires Valid() && i < |userStatus|
      modifies userStatus[i], hyper.workDomainsWorking
      ensures Valid() && State() == RequestWorkOf(old(State()), i)
    {
      ghost var s := State();
      assert s.sessions[i] == userStatus[i].Value();
      var j := hyper.FindWorkStatus(WorkName(userStatus[i].username));
      if j == |hyper.workDomainsWorking| {
        return;
      }
      assert s.work[j] == hyper.workDomainsWorking[j].Value();
      if !hyper.workDomainsWorking[j].using && userStatus[i].state != UsesWork && userStatus[i].state != UsesBoth {
        TakeWork(i, j);
      }
    }

    method TakeWork(i: nat, j: nat)
      requires Valid() && i < |userStatus| && j < |hyper.workDomainsWorking|
      requires !Busy(userStatus[i].state, Work) && !hyper.workDomainsWorking[j].using
      modifies userStatus[i], hyper.workDomainsWorking[j]
      ensures Valid() && State() == Take(old(State()), i, j, Work)
    {
      ghost var s := State();
      assert s.sessions[i] == userStatus[i].Value() && PoolOf(s, Work)[j] == hyper.workDomainsWorking[j].Value();
      LinkedUser(userStatus, i, hyper.gamingDomainsWorking, hyper.workDomainsWorking);
      LeaseWork(i, j);
    }

    /** What that does to the values and the references. */
    method LeaseWork(i: nat, j: nat)
      requires Valid() && i < |userStatus| && j < |hyper.workDomainsWorking|
      requires !Busy(userStatus[i].state, Work) && !hyper.workDomainsWorking[j].using
      modifies userStatus[i], hyper.workDomainsWorking[j]
      ensures hyper.WorkPool() == Leased(old(hyper.WorkPool()), j, userStatus[i].username)
      ensures hyper.GamingPool() == old(hyper.GamingPool())
      ensures UserValues(userStatus) == old(UserValues(userStatus))[i := userStatus[i].Value()]
      ensures WorkRefs(userStatus) == old(WorkRefs(userStatus))[i := hyper.workDomainsWorking[j]]
      ensures GamingRefs(userStatus) == old(GamingRefs(userStatus))
      ensures userStatus[i].Referring() && hyper.workDomainsWorking[j].using
      ensures userStatus[i].Value() == TakenBy(old(userStatus[i].Value()), hyper.workDomainsWorking[j].name, Work)
    {
      var usr, status := userStatus[i], hyper.workDomainsWorking[j];
      assert status in hyper.workDomainsWorking && status !in hyper.gamingDomainsWorking;
      ghost var us, refs, workRefs := UserValues(userStatus), GamingRefs(userStatus), WorkRefs(userStatus);
      ObjectsDistinct(hyper.workDomainsWorking, false);
      LinkedUser(userStatus, i, hyper.gamingDomainsWorking, hyper.workDomainsWorking);
      var _ := usr.UseWorkDomain(status);
      OneUserChanged(userStatus, i, us, refs, workRefs);
    }

    method FinishBoot(name: string)
      requires Valid() && !crashed
      modifies hyper.gamingDomainsWorking
      ensures Valid() && State() == Step(old(State()), BootFinished(name), maxGaming)
    {
      ghost var ds, us, work := hyper.workDomainsWorking, UserValues(userStatus), hyper.WorkPool();
      hyper.FinishGamingStartup(name);
      forall k | 0 <= k < |ds|
        ensures Values(ds)[k] == work[k]
      {
        assert ds[k] in ds && ds[k] !in hyper.gamingDomainsWorking;
      }
      assert UserValues(userStatus) == us && hyper.WorkPool() == work;
    }

    /** One turn of the dispatcher's loop. */
    method Handle(m: Message)
      requires Valid()
      modifies this, hyper, userStatus, hyper.gamingDomainsWorking, hyper.workDomainsWorking
      ensures Valid() && State() == Step(old(State()), m, maxGaming)
      ensures forall u :: u in userStatus ==> u in old(userStatus) || fresh(u)
      ensures forall d :: d in hyper.gamingDomainsWorking ==> d in old(hyper.gamingDomainsWorking) || fresh(d)
      ensures forall d :: d in hyper.workDomainsWorking ==> d in old(hyper.workDomainsWorking) || fresh(d)
    {
      if crashed {
        return;
      }
      match m {
        case Login(username, db, ip, workDriver, gamingDriver) => LogUserIn(username, db, ip, workDriver, gamingDriver);
        case Logout(id) => LogUserOut(id);
        case UseGaming(id) => UseGamingDomain(id);
        case LeaveGaming(id) => LeaveGamingDomain(id);
        case UseWork(id) => UseWorkDomain(id);
        case BootFinished(name) => FinishBoot(name);
      }
    }

    /** The loop over the messages that come in. */
    method Dispatch(ms: seq<Message>)
      requires Valid()
      modifies this, hyper, userStatus, hyper.gamingDomainsWorking, hyper.workDomainsWorking
      ensures Valid() && State() == Run(old(State()), ms, maxGaming)
    {
      for k := 0 to |ms|
        invariant Valid()
        invariant forall u :: u in userStatus ==> u in old(userStatus) || fresh(u)
        invariant forall d :: d in hyper.gamingDomainsWorking ==> d in old(hyper.gamingDomainsWorking) || fresh(d)
        invariant forall d :: d in hyper.workDomainsWorking ==> d in old(hyper.workDomainsWorking) || fresh(d)
        invariant Run(State(), ms[k..], maxGaming) == Run(old(State()), ms, maxGaming)
      {
        assert ms[k..][1..] == ms[k + 1..];
        assert forall i :: 0 <= i < |userStatus| ==> userStatus[i] in old(userStatus) || fresh(userStatus[i]);
        assert forall i :: 0 <= i < |hyper.gamingDomainsWorking| ==>
                 var d := hyper.gamingDomainsWorking[i]; d in old(hyper.gamingDomainsWorking) || fresh(d);
        assert forall i :: 0 <= i < |hyper.workDomainsWorking| ==>
                 var d := hyper.workDomainsWorking[i]; d in old(hyper.workDomainsWorking) || fresh(d);
        Handle(ms[k]);
      }
    }
  }

  lemma {:induction false} RecogniseFirst(us: seq<Session>, id: int, ip: string, k: nat)
    requires k < |us| && us[k].id == id && us[k].ip == ip
    requires forall l :: 0 <= l < k ==> us[l].id != id || us[l].ip != ip
    ensures Recognise(us, id, ip) == Back(k)
  {
    if k > 0 {
      RecogniseFirst(us[1..], id, ip, k - 1);
    }
  }

  lemma RecogniseNobody(us: seq<Session>, id: int, ip: string)
    requires forall l :: 0 <= l < |us| ==> us[l].id != id || us[l].ip != ip
    ensures Recognise(us, id, ip) == if exists l :: 0 <= l < |us| && us[l].id == id then Elsewhere else Nowhere
  {
    assert id in Ids(us) <==> exists l :: 0 <= l < |us| && us[l].id == id by {
      assert forall l :: 0 <= l < |us| ==> Ids(us)[l] == us[l].id;
    }
  }

  lemma {:induction false} ScanBootsGaming(names: seq<string>, i: nat, maxGaming: int)
    ensures var c := Scan(names, i, maxGaming); c.Boot? ==> c.name != "" && c.name[0] == 'g'
  {
    if names != [] {
      ScanBootsGaming(names[1..], i + 1, maxGaming);
    }
  }

  lemma BootsGaming(names: seq<string>, maxGaming: int, userCount: int)
    ensures var c := FindDown(names, maxGaming, userCount); c.Boot? ==> c.name != "" && c.name[0] == 'g'
  {
    ScanBootsGaming(names, 0, maxGaming);
  }
}
