/**
 * What each message does to users and domains, told from the outside: by the fields
 * of the sessions and of the listed domains, in every state of the invariant.
 */
module SessionEffects {
  import opened Text
  import opened GamingNames
  import opened Sessions
  import opened SessionInvariants
  import opened SessionRuns
  import opened SessionBalance

  // ----- words for what changes -----

  /** The list once nobody uses the domain of that name any more. */
  function FreedOf(pool: seq<Domain>, held: Option<string>): (r: seq<Domain>)
    ensures |r| == |pool|
    ensures forall j {:trigger r[j]} :: 0 <= j < |pool| ==>
              r[j] == if Some(pool[j].name) == held then pool[j].(using := false, user := None) else pool[j]
  {
    seq(|pool|, j requires 0 <= j < |pool| =>
      if Some(pool[j].name) == held then pool[j].(using := false, user := None) else pool[j])
  }

  function NotPlaying(state: UserState): UserState {
    match state
    case UsesBoth => UsesWork
    case UsesGaming => LoggedIn
    case _ => state
  }

  function NotWorking(state: UserState): UserState {
    match state
    case UsesBoth => UsesGaming
    case UsesWork => LoggedIn
    case _ => state
  }

  /** One domain more, and the others as they were. */
  ghost predicate GainsJust(pool: seq<Domain>, pool': seq<Domain>, d: Domain) {
    exists p :: 0 <= p <= |pool| && pool' == Inserted(pool, p, d)
  }

  /** One domain less, and the others as they were. */
  ghost predicate LosesJust(pool: seq<Domain>, pool': seq<Domain>, name: string) {
    exists j :: 0 <= j < |pool| && pool[j].name == name && pool' == Removed(pool, j)
  }

  /** The user stands behind those whose names are not above its own, and before the others. */
  ghost predicate Joins(us: seq<Session>, us': seq<Session>, u: Session) {
    exists p :: 0 <= p <= |us| && us' == Inserted(us, p, u)
                && (forall k :: 0 <= k < p ==> !Less(u.username, us[k].username))
                && (forall k :: p <= k < |us| ==> Less(u.username, us[k].username))
  }

  lemma KnownId(s: Server, i: nat)
    requires Inv(s) && i < |s.sessions|
    ensures IndexOfId(s, s.sessions[i].id) == i
  {
    FindIsUnique(Ids(s.sessions), i);
  }

  // ----- leaving domains -----

  lemma ReleasedFrees(pool: seq<Domain>, name: string)
    requires Distinct(Names(pool))
    ensures Released(pool, name) == FreedOf(pool, Some(name))
  {
    var j := Find(Names(pool), name);
    forall k | 0 <= k < |pool| && k != j
      ensures pool[k].name != name
    {
      assert Names(pool)[k] == pool[k].name;
      if k > j { assert Names(pool)[k] != Names(pool)[j]; }
    }
    assert j < |pool| ==> pool[j].name == Names(pool)[j];
  }

  lemma NobodyFreed(pool: seq<Domain>)
    ensures FreedOf(pool, None) == pool
  {
  }

  /** Who is not in a domain of the kind holds none. */
  lemma IdleHoldsNone(s: Server, i: nat)
    requires Inv(s) && i < |s.sessions|
    ensures s.sessions[i].gaming.Some? <==> s.sessions[i].state == UsesGaming || s.sessions[i].state == UsesBoth
    ensures s.sessions[i].work.Some? <==> s.sessions[i].state == UsesWork || s.sessions[i].state == UsesBoth
  {
    assert Held(s.sessions[i], Gaming).Some? <==> Busy(s.sessions[i].state, Gaming);
    assert Held(s.sessions[i], Work).Some? <==> Busy(s.sessions[i].state, Work);
  }

  /** The session of a user who stopped playing. */
  function StoppedPlaying(u: Session): Session {
    u.(gaming := None, state := NotPlaying(u.state))
  }

  function StoppedWorking(u: Session): Session {
    u.(work := None, state := NotWorking(u.state))
  }

  lemma LeaveGamingFrees(s: Server, i: nat)
    requires Inv(s) && i < |s.sessions|
    ensures var u := s.sessions[i];
            Leave(s, i, Gaming)
            == s.(gaming := FreedOf(s.gaming, u.gaming), sessions := s.sessions[i := StoppedPlaying(u)])
  {
    var u := s.sessions[i];
    IdleHoldsNone(s, i);
    if u.gaming.Some? {
      ReleasedFrees(s.gaming, u.gaming.value);
    } else {
      NobodyFreed(s.gaming);
      assert s.sessions[i := u] == s.sessions;
    }
  }

  lemma LeaveWorkFrees(s: Server, i: nat)
    requires Inv(s) && i < |s.sessions|
    ensures var u := s.sessions[i];
            Leave(s, i, Work)
            == s.(work := FreedOf(s.work, u.work), sessions := s.sessions[i := StoppedWorking(u)])
  {
    var u := s.sessions[i];
    IdleHoldsNone(s, i);
    if u.work.Some? {
      ReleasedFrees(s.work, u.work.value);
    } else {
      NobodyFreed(s.work);
      assert s.sessions[i := u] == s.sessions;
    }
  }

  /** Message 4, of a known user. */
  lemma LeavingFrees(s: Server, i: nat, maxGaming: int)
    requires Inv(s) && !s.crashed && i < |s.sessions|
    ensures var u := s.sessions[i];
            Step(s, LeaveGaming(u.id), maxGaming)
            == s.(gaming := FreedOf(s.gaming, u.gaming), sessions := s.sessions[i := StoppedPlaying(u)])
  {
    KnownId(s, i);
    LeaveGamingFrees(s, i);
  }

  /** The domain a player leaves is its own, and stays listed. */
  lemma LeftDomainStays(s: Server, i: nat, maxGaming: int)
    requires Inv(s) && !s.crashed && i < |s.sessions|
    requires s.sessions[i].state == UsesGaming || s.sessions[i].state == UsesBoth
    ensures var u, r := s.sessions[i], Step(s, LeaveGaming(s.sessions[i].id), maxGaming);
            && r.sessions[i].gaming == None && r.sessions[i].work == u.work
            && exists j :: 0 <= j < |s.gaming| && u.gaming == Some(s.gaming[j].name)
                 && s.gaming[j] == Domain(s.gaming[j].name, true, Some(u.username), false)
                 && r.gaming == s.gaming[j := Domain(s.gaming[j].name, false, None, false)]
  {
    var u, r := s.sessions[i], Step(s, LeaveGaming(s.sessions[i].id), maxGaming);
    IdleHoldsNone(s, i);
    LeavingFrees(s, i, maxGaming);
    assert HoldsListed(s.gaming, u, Gaming);
    var j :| 0 <= j < |s.gaming| && Holds(u, s.gaming[j], Gaming)
             && s.gaming[j].using && s.gaming[j].user == Some(u.username) && !s.gaming[j].booting;
    FreedAt(s.gaming, j);
  }

  lemma FreedAt(pool: seq<Domain>, j: nat)
    requires Distinct(Names(pool)) && j < |pool|
    ensures FreedOf(pool, Some(pool[j].name)) == pool[j := pool[j].(using := false, user := None)]
  {
    forall k | 0 <= k < |pool| && k != j
      ensures pool[k].name != pool[j].name
    {
      assert Names(pool)[k] != Names(pool)[j];
    }
  }

  // ----- asking for domains -----

  /** Message 3: the first domain that is neither in use nor booting, for a user who is not playing. */
  lemma AskingTakes(s: Server, i: nat, j: nat, maxGaming: int)
    requires Inv(s) && !s.crashed && i < |s.sessions| && j < |s.gaming|
    requires s.sessions[i].state == LoggedIn || s.sessions[i].state == UsesWork
    requires !s.gaming[j].using && !s.gaming[j].booting
    requires forall k :: 0 <= k < j ==> s.gaming[k].using || s.gaming[k].booting
    ensures var u, name := s.sessions[i], s.gaming[j].name;
            Step(s, UseGaming(u.id), maxGaming)
            == s.(gaming := s.gaming[j := Domain(name, true, Some(u.username), false)],
                  sessions := s.sessions[i := u.(gaming := Some(name),
                                                 state := if u.state == UsesWork then UsesBoth else UsesGaming)])
  {
    KnownId(s, i);
    assert FirstEmpty(s.gaming) == j;
  }

  /** It changes nothing for a user who plays already, or while no domain is ready. */
  lemma AskingInVain(s: Server, i: nat, maxGaming: int)
    requires Inv(s) && !s.crashed && i < |s.sessions|
    requires s.sessions[i].state == UsesGaming || s.sessions[i].state == UsesBoth
             || forall k :: 0 <= k < |s.gaming| ==> s.gaming[k].using || s.gaming[k].booting
    ensures Step(s, UseGaming(s.sessions[i].id), maxGaming) == s
  {
    KnownId(s, i);
  }

  /** Message 5: the user's own work domain, if it is listed and nobody uses it. */
  lemma WorkTaken(s: Server, i: nat, j: nat, maxGaming: int)
    requires Inv(s) && !s.crashed && i < |s.sessions| && j < |s.work|
    requires s.sessions[i].state == LoggedIn || s.sessions[i].state == UsesGaming
    requires s.work[j].name == "win-work-" + s.sessions[i].username && !s.work[j].using
    ensures var u, name := s.sessions[i], s.work[j].name;
            Step(s, UseWork(u.id), maxGaming)
            == s.(work := s.work[j := Domain(name, true, Some(u.username), false)],
                  sessions := s.sessions[i := u.(work := Some(name),
                                                 state := if u.state == UsesGaming then UsesBoth else UsesWork)])
  {
    KnownId(s, i);
    FindIsUnique(Names(s.work), j);
    assert Names(s.work)[j] == WorkName(s.sessions[i].username);
  }

  /** It changes nothing for a user who works already, or whose domain is in use or not listed. */
  lemma WorkInVain(s: Server, i: nat, maxGaming: int)
    requires Inv(s) && !s.crashed && i < |s.sessions|
    requires s.sessions[i].state == UsesWork || s.sessions[i].state == UsesBoth
             || forall k :: 0 <= k < |s.work| && s.work[k].name == "win-work-" + s.sessions[i].username
                            ==> s.work[k].using
    ensures Step(s, UseWork(s.sessions[i].id), maxGaming) == s
  {
    KnownId(s, i);
    var j := Find(Names(s.work), WorkName(s.sessions[i].username));
    assert j < |s.work| ==> s.work[j].name == Names(s.work)[j];
  }

  /** Messages under an unknown id change nothing, except that message 5 ends the dispatcher. */
  lemma UnknownId(s: Server, id: int, maxGaming: int)
    requires !s.crashed && id !in Ids(s.sessions)
    ensures Step(s, Logout(id), maxGaming) == Step(s, UseGaming(id), maxGaming) == s
    ensures Step(s, LeaveGaming(id), maxGaming) == s
    ensures Step(s, UseWork(id), maxGaming) == s.(crashed := true)
  {
    assert IndexOfId(s, id) == |s.sessions|;
  }

  /** The end of a boot makes the domains of that name ready, and changes nothing else. */
  lemma BootEnds(s: Server, name: string, maxGaming: int)
    requires !s.crashed
    ensures var r := Step(s, BootFinished(name), maxGaming);
            && r == s.(gaming := r.gaming) && |r.gaming| == |s.gaming|
            && forall j :: 0 <= j < |s.gaming| ==>
                 r.gaming[j] == Domain(s.gaming[j].name, s.gaming[j].using, s.gaming[j].user,
                                       s.gaming[j].booting && s.gaming[j].name != name)
  {
  }

  // ----- logout -----

  ghost predicate OtherHolds(us: seq<Session>, i: nat, name: string) {
    exists k :: 0 <= k < |us| && k != i && us[k].work == Some(name)
  }

  lemma BothLeft(s: Server, i: nat)
    requires Inv(s) && i < |s.sessions|
    ensures var u := s.sessions[i];
            PrepareLogout(s, i)
            == s.(gaming := FreedOf(s.gaming, u.gaming), work := FreedOf(s.work, u.work),
                  sessions := s.sessions[i := u.(gaming := None, work := None, state := LoggedIn)])
  {
    var s1 := Leave(s, i, Gaming);
    LeaveGamingFrees(s, i);
    LeaveInv(s, i, Gaming);
    LeaveWorkFrees(s1, i);
    assert s.sessions[i := s1.sessions[i]][i := StoppedWorking(s1.sessions[i])]
        == s.sessions[i := StoppedWorking(s1.sessions[i])];
  }

  /** After the user left, its work domain is in use only if another session holds it. */
  lemma WorkStillUsed(s: Server, i: nat, j: nat)
    requires Inv(s) && i < |s.sessions| && j < |s.work|
    ensures FreedOf(s.work, s.sessions[i].work)[j].using <==> OtherHolds(s.sessions, i, s.work[j].name)
  {
    var us, d := s.sessions, s.work[j];
    if OtherHolds(us, i, d.name) {
      var k :| 0 <= k < |us| && k != i && us[k].work == Some(d.name);
      assert HoldsListed(s.work, us[k], Work);
      var l :| 0 <= l < |s.work| && Holds(us[k], s.work[l], Work)
               && s.work[l].using && s.work[l].user == Some(us[k].username) && !s.work[l].booting;
      assert Names(s.work)[l] == Names(s.work)[j];
      assert Helds(us, Work)[k] == Held(us[k], Work) && Helds(us, Work)[i] == Held(us[i], Work);
    } else if d.using {
      assert InUseBySome(us, d, Work);
      var k :| 0 <= k < |us| && Holds(us[k], d, Work);
    }
  }

  lemma ShutdownOf(pool: seq<Domain>, name: string)
    requires Distinct(Names(pool))
    ensures name !in Names(pool) ==> Shutdown(pool, name) == pool
    ensures forall j :: 0 <= j < |pool| && pool[j].name == name ==>
              Shutdown(pool, name) == if pool[j].using then pool else Removed(pool, j)
  {
    forall j | 0 <= j < |pool| && pool[j].name == name
      ensures Find(Names(pool), name) == j
    {
      FindIsUnique(Names(pool), j);
    }
  }

  /** A logout takes exactly this user away, whatever the size of the pool. */
  lemma LogoutRemovesUser(s: Server, i: nat, maxGaming: int)
    requires Inv(s) && !s.crashed && i < |s.sessions|
    ensures var r := Step(s, Logout(s.sessions[i].id), maxGaming);
            && r.sessions == Removed(s.sessions, i) && s.sessions[i].id !in Ids(r.sessions)
            && r.userCount == s.userCount - 1 && !r.crashed
  {
    KnownId(s, i);
    BothLeft(s, i);
    var r := Removed(s.sessions, i);
    assert Removed(s.sessions[i := PrepareLogout(s, i).sessions[i]], i) == r;
    forall k | 0 <= k < |r|
      ensures Ids(r)[k] != s.sessions[i].id
    {
      assert Ids(s.sessions)[if k < i then k else k + 1] != Ids(s.sessions)[i];
    }
  }

  /** What a logout does to the two lists. */
  lemma LogoutLists(s: Server, i: nat, maxGaming: int)
    requires Inv(s) && !s.crashed && i < |s.sessions|
    ensures var u, r := s.sessions[i], Step(s, Logout(s.sessions[i].id), maxGaming);
            && r.work == Shutdown(FreedOf(s.work, u.work), WorkName(u.username))
            && r.gaming == if s.userCount <= maxGaming then ShutdownEmpty(FreedOf(s.gaming, u.gaming))
                           else FreedOf(s.gaming, u.gaming)
  {
    KnownId(s, i);
    BothLeft(s, i);
  }

  /** Its work domain is unlisted, unless another session of that name holds it. */
  lemma LogoutStopsWork(s: Server, i: nat, maxGaming: int)
    requires Inv(s) && !s.crashed && i < |s.sessions|
    ensures var r, name := Step(s, Logout(s.sessions[i].id), maxGaming), "win-work-" + s.sessions[i].username;
            && (OtherHolds(s.sessions, i, name) || name !in Names(s.work) ==> r.work == s.work)
            && (!OtherHolds(s.sessions, i, name) && name in Names(s.work) ==> LosesJust(s.work, r.work, name))
  {
    LogoutLists(s, i, maxGaming);
    FreedStopsWork(s, i);
  }

  lemma FreedStopsWork(s: Server, i: nat)
    requires Inv(s) && i < |s.sessions|
    ensures var name := WorkName(s.sessions[i].username);
            var work := Shutdown(FreedOf(s.work, s.sessions[i].work), name);
            && (OtherHolds(s.sessions, i, name) || name !in Names(s.work) ==> work == s.work)
            && (!OtherHolds(s.sessions, i, name) && name in Names(s.work) ==> LosesJust(s.work, work, name))
  {
    var u, name := s.sessions[i], WorkName(s.sessions[i].username);
    var freed := FreedOf(s.work, u.work);
    SameNames(s.work, freed);
    ShutdownOf(freed, name);
    if name in Names(s.work) {
      var j :| 0 <= j < |s.work| && Names(s.work)[j] == name;
      WorkStillUsed(s, i, j);
      OnlyOwnFreed(s, i, j);
    } else {
      NothingFreed(s.work, u.work, name);
    }
  }

  /** A work domain the user leaves is the one of its name. */
  lemma OnlyOwnFreed(s: Server, i: nat, j: nat)
    requires Inv(s) && i < |s.sessions| && j < |s.work| && s.work[j].name == WorkName(s.sessions[i].username)
    ensures Removed(FreedOf(s.work, s.sessions[i].work), j) == Removed(s.work, j)
    ensures OtherHolds(s.sessions, i, s.work[j].name) ==> FreedOf(s.work, s.sessions[i].work) == s.work
  {
    var u := s.sessions[i];
    forall k | 0 <= k < |s.work| && k != j
      ensures FreedOf(s.work, u.work)[k] == s.work[k]
    {
      assert Names(s.work)[k] != Names(s.work)[j];
    }
    if OtherHolds(s.sessions, i, s.work[j].name) {
      var k :| 0 <= k < |s.sessions| && k != i && s.sessions[k].work == Some(s.work[j].name);
      assert Helds(s.sessions, Work)[k] == Held(s.sessions[k], Work) && Helds(s.sessions, Work)[i] == Held(u, Work);
      assert u.work == None;
      NobodyFreed(s.work);
    }
  }

  lemma NothingFreed(pool: seq<Domain>, held: Option<string>, name: string)
    requires held == None || held == Some(name)
    requires name !in Names(pool)
    ensures FreedOf(pool, held) == pool
  {
    forall j | 0 <= j < |pool|
      ensures pool[j].name != name
    {
      assert Names(pool)[j] == pool[j].name;
    }
  }

  /** One ready gaming domain goes exactly when there is one and the other users do not need them all. */
  lemma LogoutStopsGaming(s: Server, i: nat, maxGaming: int)
    requires Inv(s) && !s.crashed && i < |s.sessions|
    ensures var r, left := Step(s, Logout(s.sessions[i].id), maxGaming), FreedOf(s.gaming, s.sessions[i].gaming);
            && (s.userCount > maxGaming || (forall j :: 0 <= j < |left| ==> left[j].using || left[j].booting)
                ==> r.gaming == left)
            && forall j :: 0 <= j < |left| && s.userCount <= maxGaming && !left[j].using && !left[j].booting
                           && (forall k :: 0 <= k < j ==> left[k].using || left[k].booting)
                           ==> r.gaming == Removed(left, j)
  {
    LogoutLists(s, i, maxGaming);
    FreedStopsGaming(s.gaming, s.sessions[i].gaming);
  }

  lemma FreedStopsGaming(pool: seq<Domain>, held: Option<string>)
    requires Distinct(Names(pool))
    ensures var left := FreedOf(pool, held);
            && ((forall j :: 0 <= j < |left| ==> left[j].using || left[j].booting) ==> ShutdownEmpty(left) == left)
            && forall j :: 0 <= j < |left| && !left[j].using && !left[j].booting
                           && (forall k :: 0 <= k < j ==> left[k].using || left[k].booting)
                           ==> ShutdownEmpty(left) == Removed(left, j)
  {
    SameNames(pool, FreedOf(pool, held));
    ShutdownEmptyRemoves(FreedOf(pool, held));
  }

  // ----- login -----

  /** A login that the database refuses, or of a user logged in elsewhere, changes nothing. */
  lemma RefusedLogin(s: Server, m: Message, maxGaming: int)
    requires !s.crashed && m.Login?
    requires !m.db.Row? || (m.db.id in Ids(s.sessions)
                            && forall k :: 0 <= k < |s.sessions| && s.sessions[k].id == m.db.id
                                           ==> s.sessions[k].ip != m.ip)
    ensures Step(s, m, maxGaming) == s
  {
  }

  /** A login from the address the user is logged in from gives both domains back. */
  lemma LoginBackFrees(s: Server, i: nat, m: Message, maxGaming: int)
    requires Inv(s) && !s.crashed && i < |s.sessions|
    requires m.Login? && m.db == Row(s.sessions[i].id) && m.ip == s.sessions[i].ip
    ensures var u := s.sessions[i];
            Step(s, m, maxGaming)
            == s.(gaming := FreedOf(s.gaming, u.gaming), work := FreedOf(s.work, u.work),
                  sessions := s.sessions[i := u.(gaming := None, work := None, state := LoggedIn)])
  {
    RecogniseOwn(s.sessions, i);
    BothLeft(s, i);
  }

  lemma {:induction false} RecogniseOwn(us: seq<Session>, i: nat)
    requires Distinct(Ids(us)) && i < |us|
    ensures Recognise(us, us[i].id, us[i].ip) == Back(i)
  {
    if i > 0 {
      assert Ids(us)[0] != Ids(us)[i];
      assert Ids(us) == [us[0].id] + Ids(us[1..]);
      assert Distinct(Ids(us[1..])) by { assert Ids(us[1..]) == Ids(us)[1..]; }
      RecogniseOwn(us[1..], i - 1);
    }
  }

  /** The parts of the state after a new login. */
  lemma NewLoginParts(s: Server, m: Message, maxGaming: int)
    requires !s.crashed && NewLogin(s, m)
    ensures var r, s1 := Step(s, m, maxGaming), Admitting(s, m);
            && r.work == Startup(s.work, WorkName(m.username), Work, m.workDriver).1
            && r.sessions == Entering(s, m.username, m.db.id, m.ip).sessions && r.userCount == s.userCount + 1
            && (s1.crashed ==> r.crashed && r.gaming == s.gaming)
            && (!s1.crashed ==> r == StartGaming(s1, m.gamingDriver, maxGaming))
  {
    assert Recognise(s.sessions, m.db.id, m.ip).Nowhere?;
  }

  /** A new login adds the user, who is in no domain, in the order of the names. */
  lemma LoginAddsUser(s: Server, m: Message, maxGaming: int)
    requires Inv(s) && !s.crashed && NewLogin(s, m)
    ensures var r := Step(s, m, maxGaming);
            && Joins(s.sessions, r.sessions, Session(m.db.id, m.username, m.ip, LoggedIn, None, None))
            && r.userCount == s.userCount + 1
  {
    NewLoginParts(s, m, maxGaming);
    EnteringJoins(s, m.username, m.db.id, m.ip);
  }

  lemma EnteringJoins(s: Server, username: string, id: int, ip: string)
    requires Sorted(Usernames(s.sessions))
    ensures Joins(s.sessions, Entering(s, username, id, ip).sessions, Session(id, username, ip, LoggedIn, None, None))
  {
    var names := Usernames(s.sessions);
    var p := InsertPos(names, username);
    InsertPosIsBetween(names, username);
    forall k | 0 <= k < |s.sessions|
      ensures Less(username, s.sessions[k].username) <==> p <= k
    {
      assert names[k] == s.sessions[k].username;
    }
  }

  /** What a start does to the list of its kind. */
  lemma StartupGains(pool: seq<Domain>, name: string, kind: Kind, d: Driver)
    ensures var r := Startup(pool, name, kind, d).1;
            if name !in Names(pool) && (d.running || d.creates)
            then GainsJust(pool, r, Domain(name, false, None, kind == Gaming)) && name in Names(r)
            else r == pool
  {
    var p, domain := InsertPos(Names(pool), name), Domain(name, false, None, kind == Gaming);
    assert Listed(pool, NewDomain(name, kind)) == Inserted(pool, p, domain);
    assert Names(Inserted(pool, p, domain))[p] == name;
  }

  /** Its work domain gets listed exactly when it was not, and runs already or is started. */
  lemma LoginListsWork(s: Server, m: Message, maxGaming: int)
    requires Inv(s) && !s.crashed && NewLogin(s, m)
    ensures var r, name := Step(s, m, maxGaming), "win-work-" + m.username;
            && (if name !in Names(s.work) && (m.workDriver.running || m.workDriver.creates)
                then GainsJust(s.work, r.work, Domain(name, false, None, false))
                else r.work == s.work)
            && (name in Names(r.work) <==> name in Names(s.work) || m.workDriver.running || m.workDriver.creates)
  {
    NewLoginParts(s, m, maxGaming);
    StartupGains(s.work, WorkName(m.username), Work, m.workDriver);
  }

  /** The listed names read as 0, 1, ... up to the k-th, and no further. */
  ghost predicate CountsUpTo(names: seq<string>, k: nat) {
    k <= |names|
    && (forall j :: 0 <= j < k ==> IndexOf(names[j]) == Some(j))
    && (k < |names| ==> IndexOf(names[k]) != Some(k))
  }

  lemma {:induction false} ScanCounts(names: seq<string>, i: nat, k: nat, maxGaming: int)
    requires i <= k && CountsUpTo(names, k)
    ensures Scan(names[i..], i, maxGaming)
            == if k < |names| && IndexOf(names[k]) == None then BadName
               else if k < |names| || k < maxGaming then Boot("g" + Decimal(k)) else NoneDown
    decreases k - i
  {
    if i < |names| {
      assert names[i..][0] == names[i] && names[i..][1..] == names[i + 1..];
      if i < k {
        ScanCounts(names, i + 1, k, maxGaming);
      }
    }
  }

  /** While the domains are enough for one user more, or there are more users than domains, none is started. */
  lemma LoginSparesGaming(s: Server, m: Message, maxGaming: int)
    requires Inv(s) && !s.crashed && NewLogin(s, m)
    requires s.userCount >= maxGaming || |s.gaming| > s.userCount
    ensures Step(s, m, maxGaming).gaming == s.gaming
  {
    NewLoginParts(s, m, maxGaming);
  }

  /**
   * Otherwise the domain of the first number missing from the count is started and listed
   * as booting, unless the driver refuses, or it is listed already, or the work domain was refused.
   */
  lemma LoginBootsGaming(s: Server, m: Message, k: nat, maxGaming: int)
    requires Inv(s) && !s.crashed && NewLogin(s, m)
    requires |s.gaming| <= s.userCount < maxGaming && CountsUpTo(Names(s.gaming), k)
    ensures var r, name := Step(s, m, maxGaming), "g" + Decimal(k);
            if !r.crashed && name !in Names(s.gaming) && (m.gamingDriver.running || m.gamingDriver.creates)
            then GainsJust(s.gaming, r.gaming, Domain(name, false, None, true))
            else r.gaming == s.gaming
  {
    NewLoginParts(s, m, maxGaming);
    if !Admitting(s, m).crashed {
      StartBootsGaming(Admitting(s, m), m.gamingDriver, k, maxGaming);
    }
  }

  lemma StartBootsGaming(s: Server, d: Driver, k: nat, maxGaming: int)
    requires |s.gaming| < s.userCount <= maxGaming && CountsUpTo(Names(s.gaming), k)
    ensures var r, name := StartGaming(s, d, maxGaming), "g" + Decimal(k);
            if !r.crashed && name !in Names(s.gaming) && (d.running || d.creates)
            then GainsJust(s.gaming, r.gaming, Domain(name, false, None, true))
            else r.gaming == s.gaming
  {
    assert Names(s.gaming)[0..] == Names(s.gaming);
    ScanCounts(Names(s.gaming), 0, k, maxGaming);
    StartupGains(s.gaming, IndexName(k), Gaming, d);
  }

  /** With at most ten indexed domains that is the least free index, and no exception interferes. */
  lemma LoginBootsLeastFree(s: Server, m: Message, maxGaming: nat)
    requires Inv(s) && !s.crashed && NewLogin(s, m) && !WorkRefused(s, m)
    requires Indexed(Names(s.gaming), maxGaming) && maxGaming <= 10 && |s.gaming| <= s.userCount < maxGaming
    requires m.gamingDriver.running || m.gamingDriver.creates
    ensures exists name :: LeastFree(Names(s.gaming), name, maxGaming)
                           && GainsJust(s.gaming, Step(s, m, maxGaming).gaming, Domain(name, false, None, true))
  {
    NewLoginParts(s, m, maxGaming);
    EscapesWithinTen(s, m, maxGaming);
    StartBootsLeastFree(Admitting(s, m), m.gamingDriver, maxGaming);
  }

  lemma StartBootsLeastFree(s: Server, d: Driver, maxGaming: nat)
    requires Indexed(Names(s.gaming), maxGaming) && maxGaming <= 10 && |s.gaming| < s.userCount <= maxGaming
    requires d.running || d.creates
    ensures exists name :: LeastFree(Names(s.gaming), name, maxGaming)
                           && GainsJust(s.gaming, StartGaming(s, d, maxGaming).gaming, Domain(name, false, None, true))
  {
    BootsLeastFree(Names(s.gaming), maxGaming, s.userCount);
    var name := FindDown(Names(s.gaming), maxGaming, s.userCount).name;
    StartupGains(s.gaming, name, Gaming, d);
  }

  // ----- what the accounts count -----

  /** A new login that is to start a domain, for which the choice is not confused. */
  ghost predicate ToStart(s: Server, m: Message, maxGaming: int) {
    && !s.crashed && NewLogin(s, m) && !WorkRefused(s, m)
    && |s.gaming| <= s.userCount < maxGaming && !MeetsForeignName(Names(s.gaming))
  }

  /** A failed start is a domain that is down and that the driver does not start. */
  lemma FailedStartExactly(s: Server, m: Message, maxGaming: int)
    ensures FailedStart(s, m, maxGaming) == 1 <==>
            && ToStart(s, m, maxGaming) && !SkipsListed(Names(s.gaming))
            && !m.gamingDriver.running && !m.gamingDriver.creates
  {
    if !s.crashed && NewLogin(s, m) {
      assert Recognise(s.sessions, m.db.id, m.ip).Nowhere?;
      ChoiceExactly(s, m, maxGaming);
    }
  }

  /** An idle start is one of a domain that is listed and runs. */
  lemma IdleStartExactly(s: Server, m: Message, maxGaming: int)
    ensures IdleStart(s, m, maxGaming) == 1 <==>
            ToStart(s, m, maxGaming) && SkipsListed(Names(s.gaming)) && m.gamingDriver.running
  {
    if !s.crashed && NewLogin(s, m) {
      ChoiceExactly(s, m, maxGaming);
    }
  }

  lemma ChoiceExactly(s: Server, m: Message, maxGaming: int)
    requires !s.crashed && NewLogin(s, m)
    ensures Admitting(s, m).crashed <==> WorkRefused(s, m)
    ensures var c := FindDown(Names(s.gaming), maxGaming, s.userCount + 1);
            && (c == Enough <==> s.userCount < |s.gaming|)
            && (s.userCount < maxGaming ==>
                  && (c == BadName <==> s.userCount >= |s.gaming| && MeetsForeignName(Names(s.gaming)))
                  && (PicksListed(Names(s.gaming), c) <==> s.userCount >= |s.gaming| && SkipsListed(Names(s.gaming)))
                  && c != NoneDown)
  {
    var names := Names(s.gaming);
    BadNameExactly(names, maxGaming, s.userCount + 1);
    PicksListedExactly(names, maxGaming, s.userCount + 1);
    if s.userCount < maxGaming {
      NoneDownUnreachable(names, maxGaming, s.userCount + 1);
    }
  }

  lemma SparedStartExactly(s: Server, m: Message, maxGaming: int)
    ensures SparedStart(s, m, maxGaming) == 1 <==>
            !s.crashed && NewLogin(s, m) && !WorkRefused(s, m) && s.userCount < maxGaming && s.userCount < |s.gaming|
  {
    if !s.crashed && NewLogin(s, m) {
      ChoiceExactly(s, m, maxGaming);
    }
  }

  /** A domain is kept when the user is not playing and every domain is in use or booting. */
  lemma KeptDomainExactly(s: Server, i: nat, maxGaming: int)
    requires Inv(s) && !s.crashed && i < |s.sessions|
    ensures KeptDomain(s, Logout(s.sessions[i].id), maxGaming) == 1 <==>
            && s.userCount <= maxGaming
            && (s.sessions[i].state == LoggedIn || s.sessions[i].state == UsesWork)
            && forall j :: 0 <= j < |s.gaming| ==> s.gaming[j].using || s.gaming[j].booting
  {
    var u := s.sessions[i];
    KnownId(s, i);
    BothLeft(s, i);
    IdleHoldsNone(s, i);
    if u.gaming.Some? {
      assert HoldsListed(s.gaming, u, Gaming);
      var j :| 0 <= j < |s.gaming| && Holds(u, s.gaming[j], Gaming)
               && s.gaming[j].using && s.gaming[j].user == Some(u.username) && !s.gaming[j].booting;
      assert !FreedOf(s.gaming, u.gaming)[j].using;
    } else {
      NobodyFreed(s.gaming);
    }
  }
}
