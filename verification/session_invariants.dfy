/**
 * What every message keeps: exclusive ownership of domains, and the bookkeeping
 * of the logged-in users.
 */
module SessionInvariants {
  import opened Text
  import opened GamingNames
  import opened Sessions

  /** u holds exactly the domain d. */
  ghost predicate Holds(u: Session, d: Domain, kind: Kind) {
    Held(u, kind) == Some(d.name)
  }

  ghost predicate HoldsListed(pool: seq<Domain>, u: Session, kind: Kind) {
    exists j :: 0 <= j < |pool| && Holds(u, pool[j], kind)
                && pool[j].using && pool[j].user == Some(u.username) && !pool[j].booting
  }

  ghost predicate InUseBySome(us: seq<Session>, d: Domain, kind: Kind) {
    exists i :: 0 <= i < |us| && Holds(us[i], d, kind)
  }

  function Helds(us: seq<Session>, kind: Kind): (hs: seq<Option<string>>)
    ensures |hs| == |us|
    ensures forall i {:trigger hs[i]} :: 0 <= i < |us| ==> hs[i] == Held(us[i], kind)
  {
    seq(|us|, i requires 0 <= i < |us| => Held(us[i], kind))
  }

  ghost predicate NoneShared(hs: seq<Option<string>>) {
    forall i, k :: 0 <= i < k < |hs| && hs[i].Some? ==> hs[i] != hs[k]
  }

  /** The list of one kind is sorted and free of duplicates. */
  ghost predicate WellListed(pool: seq<Domain>) {
    Sorted(Names(pool)) && Distinct(Names(pool))
  }

  /**
   * The users' held domains and the listed domains in use are in one-to-one
   * correspondence, recorded on both sides.
   */
  ghost predicate Exclusive(pool: seq<Domain>, us: seq<Session>, kind: Kind) {
    && (forall i :: 0 <= i < |us| ==> (Held(us[i], kind).Some? <==> Busy(us[i].state, kind)))
    && (forall i {:trigger HoldsListed(pool, us[i], kind)} ::
          0 <= i < |us| && Held(us[i], kind).Some? ==> HoldsListed(pool, us[i], kind))
    && NoneShared(Helds(us, kind))
    && (forall j {:trigger InUseBySome(us, pool[j], kind)} ::
          0 <= j < |pool| && pool[j].using ==> InUseBySome(us, pool[j], kind))
    && (forall j :: 0 <= j < |pool| && !pool[j].using ==> pool[j].user == None)
    && (kind == Work ==> forall j :: 0 <= j < |pool| ==> !pool[j].booting)
  }

  /** Users are sorted by name, have distinct ids, and are counted by userCount. */
  ghost predicate Counted(s: Server) {
    && Sorted(Usernames(s.sessions))
    && Distinct(Ids(s.sessions))
    && s.userCount == |s.sessions|
  }

  /** A held work domain is the user's own. */
  ghost predicate OwnWork(us: seq<Session>) {
    forall i :: 0 <= i < |us| && us[i].work.Some? ==> us[i].work == Some(WorkName(us[i].username))
  }

  ghost predicate Owned(s: Server, kind: Kind) {
    WellListed(PoolOf(s, kind)) && Exclusive(PoolOf(s, kind), s.sessions, kind)
  }

  ghost predicate Inv(s: Server) {
    Owned(s, Gaming) && Owned(s, Work) && Counted(s) && OwnWork(s.sessions)
  }

  /** After __find_running: nobody is logged in and nothing is in use. */
  ghost predicate Initial(s: Server) {
    && s.sessions == [] && s.userCount == 0 && !s.crashed
    && WellListed(s.gaming) && WellListed(s.work)
    && (forall j :: 0 <= j < |s.gaming| ==> s.gaming[j] == NewDomain(s.gaming[j].name, Gaming))
    && (forall j :: 0 <= j < |s.work| ==> s.work[j] == NewDomain(s.work[j].name, Work))
  }

  lemma InitialInv(s: Server)
    requires Initial(s)
    ensures Inv(s)
  {
  }

  // ----- lists -----

  lemma FindIsUnique<T>(xs: seq<T>, j: nat)
    requires Distinct(xs) && j < |xs|
    ensures Find(xs, xs[j]) == j
  {
  }

  lemma NamesOfRemoved(pool: seq<Domain>, j: nat)
    requires j < |pool|
    ensures Names(Removed(pool, j)) == Removed(Names(pool), j)
  {
  }

  lemma RemovedKeepsOrder(names: seq<string>, j: nat)
    requires j < |names|
    ensures Sorted(names) ==> Sorted(Removed(names, j))
    ensures Distinct(names) ==> Distinct(Removed(names, j))
  {
    var r := Removed(names, j);
    assert forall i :: 0 <= i < |r| ==> r[i] == names[if i < j then i else i + 1];
  }

  lemma InsertedKeepsDistinct<T>(xs: seq<T>, p: nat, x: T)
    requires Distinct(xs) && p <= |xs| && x !in xs
    ensures Distinct(Inserted(xs, p, x))
  {
    var r := Inserted(xs, p, x);
    assert forall i :: 0 <= i < |r| ==> r[i] == if i < p then xs[i] else if i == p then x else xs[i - 1];
  }

  lemma SameNames(pool: seq<Domain>, pool': seq<Domain>)
    requires |pool| == |pool'| && forall j :: 0 <= j < |pool| ==> pool[j].name == pool'[j].name
    ensures Names(pool) == Names(pool')
  {
  }

  // ----- what the moves on one list keep -----

  /** Holders do not notice changes to domains that are not in use. */
  lemma StillHolds(pool: seq<Domain>, pool': seq<Domain>, u: Session, kind: Kind)
    requires HoldsListed(pool, u, kind)
    requires forall j :: 0 <= j < |pool| && pool[j].using ==> pool[j] in pool'
    ensures HoldsListed(pool', u, kind)
  {
    var j :| 0 <= j < |pool| && Holds(u, pool[j], kind)
             && pool[j].using && pool[j].user == Some(u.username) && !pool[j].booting;
    var k :| 0 <= k < |pool'| && pool'[k] == pool[j];
    assert Holds(u, pool'[k], kind);
  }

  lemma InInserted<T>(xs: seq<T>, p: nat, x: T)
    requires p <= |xs|
    ensures forall i :: 0 <= i < |xs| ==> xs[i] in Inserted(xs, p, x)
  {
    forall i | 0 <= i < |xs|
      ensures xs[i] in Inserted(xs, p, x)
    {
      assert Inserted(xs, p, x)[if i < p then i else i + 1] == xs[i];
    }
  }

  lemma ListedKeepsOrder(pool: seq<Domain>, name: string, kind: Kind)
    requires WellListed(pool) && name !in Names(pool)
    ensures WellListed(Listed(pool, NewDomain(name, kind)))
  {
    var p := InsertPos(Names(pool), name);
    assert Names(Listed(pool, NewDomain(name, kind))) == Inserted(Names(pool), p, name);
    InsertKeepsSorted(Names(pool), name);
    InsertedKeepsDistinct(Names(pool), p, name);
  }

  lemma OfInserted<T>(xs: seq<T>, p: nat, x: T)
    requires p <= |xs|
    ensures forall y :: y in Inserted(xs, p, x) ==> y == x || y in xs
  {
  }

  lemma InsertedUnused(pool: seq<Domain>, us: seq<Session>, p: nat, d: Domain, kind: Kind)
    requires Exclusive(pool, us, kind) && p <= |pool|
    requires !d.using && d.user == None && (kind == Work ==> !d.booting)
    ensures Exclusive(Inserted(pool, p, d), us, kind)
  {
    InInserted(pool, p, d);
    OfInserted(pool, p, d);
    SameUsed(pool, Inserted(pool, p, d), us, kind);
  }

  /** Lists with the same domains in use have the same holders. */
  lemma SameUsed(pool: seq<Domain>, pool': seq<Domain>, us: seq<Session>, kind: Kind)
    requires Exclusive(pool, us, kind)
    requires forall j :: 0 <= j < |pool| && pool[j].using ==> pool[j] in pool'
    requires forall d :: d in pool' ==> d in pool || (!d.using && d.user == None && (kind == Work ==> !d.booting))
    ensures Exclusive(pool', us, kind)
  {
    forall i | 0 <= i < |us| && Held(us[i], kind).Some?
      ensures HoldsListed(pool', us[i], kind)
    {
      StillHolds(pool, pool', us[i], kind);
    }
    forall j | 0 <= j < |pool'|
      ensures if pool'[j].using then InUseBySome(us, pool'[j], kind) else pool'[j].user == None
      ensures kind == Work ==> !pool'[j].booting
    {
      if d :| d in pool && d == pool'[j] {
        var k :| 0 <= k < |pool| && pool[k] == d;
        assert d.using ==> InUseBySome(us, pool[k], kind);
      }
    }
  }

  lemma ListedKeeps(pool: seq<Domain>, us: seq<Session>, name: string, kind: Kind)
    requires WellListed(pool) && Exclusive(pool, us, kind) && name !in Names(pool)
    ensures WellListed(Listed(pool, NewDomain(name, kind)))
    ensures Exclusive(Listed(pool, NewDomain(name, kind)), us, kind)
  {
    ListedKeepsOrder(pool, name, kind);
    InsertedUnused(pool, us, InsertPos(Names(pool), name), NewDomain(name, kind), kind);
  }

  lemma RemovedKeeps(pool: seq<Domain>, us: seq<Session>, j: nat, kind: Kind)
    requires WellListed(pool) && Exclusive(pool, us, kind) && j < |pool| && !pool[j].using
    ensures WellListed(Removed(pool, j)) && Exclusive(Removed(pool, j), us, kind)
  {
    var r := Removed(pool, j);
    NamesOfRemoved(pool, j);
    RemovedKeepsOrder(Names(pool), j);
    forall k | 0 <= k < |pool| && pool[k].using
      ensures pool[k] in r
    {
      assert r[if k < j then k else k - 1] == pool[k];
    }
    SameUsed(pool, r, us, kind);
  }

  lemma ShutdownKeeps(pool: seq<Domain>, us: seq<Session>, name: string, kind: Kind)
    requires WellListed(pool) && Exclusive(pool, us, kind)
    ensures WellListed(Shutdown(pool, name)) && Exclusive(Shutdown(pool, name), us, kind)
  {
    var j := Find(Names(pool), name);
    if j < |pool| && !pool[j].using {
      RemovedKeeps(pool, us, j, kind);
    }
  }

  lemma BootedHolds(pool: seq<Domain>, name: string, u: Session, kind: Kind)
    requires HoldsListed(pool, u, kind)
    ensures HoldsListed(Booted(pool, name), u, kind)
  {
    var j :| 0 <= j < |pool| && Holds(u, pool[j], kind)
             && pool[j].using && pool[j].user == Some(u.username) && !pool[j].booting;
    assert Holds(u, Booted(pool, name)[j], kind);
  }

  lemma BootedKeeps(pool: seq<Domain>, us: seq<Session>, name: string, kind: Kind)
    requires WellListed(pool) && Exclusive(pool, us, kind)
    ensures WellListed(Booted(pool, name)) && Exclusive(Booted(pool, name), us, kind)
  {
    var r := Booted(pool, name);
    SameNames(pool, r);
    forall i | 0 <= i < |us| && Held(us[i], kind).Some?
      ensures HoldsListed(r, us[i], kind)
    {
      BootedHolds(pool, name, us[i], kind);
    }
    forall j | 0 <= j < |r| && r[j].using
      ensures InUseBySome(us, r[j], kind)
    {
      assert InUseBySome(us, pool[j], kind);
      var i :| 0 <= i < |us| && Holds(us[i], pool[j], kind);
      assert Holds(us[i], r[j], kind);
    }
  }

  lemma StartupKeeps(pool: seq<Domain>, us: seq<Session>, name: string, kind: Kind, d: Driver)
    requires WellListed(pool) && Exclusive(pool, us, kind)
    ensures WellListed(Startup(pool, name, kind, d).1) && Exclusive(Startup(pool, name, kind, d).1, us, kind)
  {
    if name !in Names(pool) {
      ListedKeeps(pool, us, name, kind);
    }
  }

  // ----- what the moves on the users keep -----

  lemma InsertedNone(us: seq<Session>, p: nat, u: Session, kind: Kind)
    requires p <= |us| && Held(u, kind) == None && NoneShared(Helds(us, kind))
    ensures NoneShared(Helds(Inserted(us, p, u), kind))
  {
    var hs := Helds(us, kind);
    var r := Inserted(hs, p, None);
    assert Helds(Inserted(us, p, u), kind) == r;
    assert forall i :: 0 <= i < |r| ==> r[i] == if i < p then hs[i] else if i == p then None else hs[i - 1];
  }

  lemma ReplacedByNone(us: seq<Session>, i: nat, u: Session, kind: Kind)
    requires i < |us| && Held(u, kind) == None && NoneShared(Helds(us, kind))
    ensures NoneShared(Helds(us[i := u], kind))
  {
    assert Helds(us[i := u], kind) == Helds(us, kind)[i := None];
  }

  lemma RemovedShared(us: seq<Session>, i: nat, kind: Kind)
    requires i < |us| && NoneShared(Helds(us, kind))
    ensures NoneShared(Helds(Removed(us, i), kind))
  {
    var hs := Helds(us, kind);
    var r := Removed(hs, i);
    assert Helds(Removed(us, i), kind) == r;
    assert forall k :: 0 <= k < |r| ==> r[k] == hs[if k < i then k else k + 1];
  }

  lemma ReplacedByFresh(us: seq<Session>, i: nat, u: Session, kind: Kind)
    requires i < |us| && NoneShared(Helds(us, kind)) && Held(u, kind).Some?
    requires forall k :: 0 <= k < |us| && k != i ==> Held(us[k], kind) != Held(u, kind)
    ensures NoneShared(Helds(us[i := u], kind))
  {
    var hs := Helds(us, kind);
    assert forall k :: 0 <= k < |us| && k != i ==> hs[k] != Held(u, kind);
    assert Helds(us[i := u], kind) == hs[i := Held(u, kind)];
  }

  lemma EnteredKeeps(pool: seq<Domain>, us: seq<Session>, p: nat, u: Session, kind: Kind)
    requires Exclusive(pool, us, kind) && p <= |us|
    requires u.state == LoggedIn && u.gaming == u.work == None
    ensures Exclusive(pool, Inserted(us, p, u), kind)
  {
    var r := Inserted(us, p, u);
    InsertedNone(us, p, u, kind);
    forall i | 0 <= i < |r|
      ensures Held(r[i], kind).Some? <==> Busy(r[i].state, kind)
      ensures Held(r[i], kind).Some? ==> HoldsListed(pool, r[i], kind)
    {
      if i != p {
        var k := if i < p then i else i - 1;
        assert r[i] == us[k] && (Held(us[k], kind).Some? ==> HoldsListed(pool, us[k], kind));
      }
    }
    forall j | 0 <= j < |pool| && pool[j].using
      ensures InUseBySome(r, pool[j], kind)
    {
      assert InUseBySome(us, pool[j], kind);
      var i :| 0 <= i < |us| && Holds(us[i], pool[j], kind);
      assert Holds(r[if i < p then i else i + 1], pool[j], kind);
    }
  }

  lemma GoneKeeps(pool: seq<Domain>, us: seq<Session>, i: nat, kind: Kind)
    requires Exclusive(pool, us, kind) && i < |us| && Held(us[i], kind) == None
    ensures Exclusive(pool, Removed(us, i), kind)
  {
    var r := Removed(us, i);
    RemovedShared(us, i, kind);
    assert forall k :: 0 <= k < |r| ==> r[k] == us[if k < i then k else k + 1];
    forall j | 0 <= j < |pool| && pool[j].using
      ensures InUseBySome(r, pool[j], kind)
    {
      assert InUseBySome(us, pool[j], kind);
      var k :| 0 <= k < |us| && Holds(us[k], pool[j], kind);
      assert Holds(r[if k < i then k else k - 1], pool[j], kind);
    }
  }

  /** A change to the other kind's holding leaves this kind alone. */
  lemma OtherKindKeeps(pool: seq<Domain>, us: seq<Session>, i: nat, u: Session, kind: Kind)
    requires Exclusive(pool, us, kind) && i < |us|
    requires u.username == us[i].username && Held(u, kind) == Held(us[i], kind)
    requires Busy(u.state, kind) <==> Busy(us[i].state, kind)
    ensures Exclusive(pool, us[i := u], kind)
  {
    var r := us[i := u];
    assert Helds(r, kind) == Helds(us, kind);
    forall k | 0 <= k < |r| && Held(r[k], kind).Some?
      ensures HoldsListed(pool, r[k], kind)
    {
      assert HoldsListed(pool, us[k], kind);
      var j :| 0 <= j < |pool| && Holds(us[k], pool[j], kind)
               && pool[j].using && pool[j].user == Some(us[k].username) && !pool[j].booting;
      assert Holds(r[k], pool[j], kind);
    }
    forall j | 0 <= j < |pool| && pool[j].using
      ensures InUseBySome(r, pool[j], kind)
    {
      assert InUseBySome(us, pool[j], kind);
      var k :| 0 <= k < |us| && Holds(us[k], pool[j], kind);
      assert Holds(r[k], pool[j], kind);
    }
  }

  lemma LeasedKeeps(pool: seq<Domain>, us: seq<Session>, i: nat, j: nat, u: Session, kind: Kind)
    requires WellListed(pool) && Exclusive(pool, us, kind) && i < |us| && j < |pool|
    requires Held(us[i], kind) == None && !pool[j].using && !pool[j].booting
    requires u.username == us[i].username && Held(u, kind) == Some(pool[j].name) && Busy(u.state, kind)
    ensures WellListed(Leased(pool, j, u.username)) && Exclusive(Leased(pool, j, u.username), us[i := u], kind)
  {
    var p := Leased(pool, j, u.username);
    var r := us[i := u];
    SameNames(pool, p);
    forall k | 0 <= k < |us| && k != i && Held(us[k], kind).Some?
      ensures HoldsListed(p, r[k], kind) && Held(us[k], kind) != Some(pool[j].name)
    {
      assert HoldsListed(pool, us[k], kind);
      var l :| 0 <= l < |pool| && Holds(us[k], pool[l], kind)
               && pool[l].using && pool[l].user == Some(us[k].username) && !pool[l].booting;
      assert l != j && p[l] == pool[l];
      assert Names(pool)[l] != Names(pool)[j];
    }
    ReplacedByFresh(us, i, u, kind);
    assert Holds(u, p[j], kind);
    assert HoldsListed(p, r[i], kind);
    forall l | 0 <= l < |p| && p[l].using
      ensures InUseBySome(r, p[l], kind)
    {
      if l == j {
        assert Holds(r[i], p[l], kind);
      } else {
        assert InUseBySome(us, pool[l], kind);
        var k :| 0 <= k < |us| && Holds(us[k], pool[l], kind);
        assert k != i;
        assert Holds(r[k], p[l], kind);
      }
    }
  }

  lemma NoOtherHolds(us: seq<Session>, i: nat, kind: Kind)
    requires i < |us| && Held(us[i], kind).Some? && NoneShared(Helds(us, kind))
    ensures forall k :: 0 <= k < |us| && k != i ==> Held(us[k], kind) != Held(us[i], kind)
  {
    forall k | 0 <= k < |us| && k != i
      ensures Held(us[k], kind) != Held(us[i], kind)
    {
      assert Helds(us, kind)[k] != Helds(us, kind)[i];
    }
  }

  lemma ReleasedKeeps(pool: seq<Domain>, us: seq<Session>, i: nat, u: Session, kind: Kind)
    requires WellListed(pool) && Exclusive(pool, us, kind) && i < |us|
    requires Held(us[i], kind).Some?
    requires u.username == us[i].username && Held(u, kind) == None && !Busy(u.state, kind)
    ensures WellListed(Released(pool, Held(us[i], kind).value))
    ensures Exclusive(Released(pool, Held(us[i], kind).value), us[i := u], kind)
  {
    assert HoldsListed(pool, us[i], kind);
    var j :| 0 <= j < |pool| && Holds(us[i], pool[j], kind);
    FindIsUnique(Names(pool), j);
    ReleasedAtKeeps(pool, us, i, j, u, kind);
  }

  lemma ReleasedAtKeeps(pool: seq<Domain>, us: seq<Session>, i: nat, j: nat, u: Session, kind: Kind)
    requires WellListed(pool) && Exclusive(pool, us, kind) && i < |us| && j < |pool|
    requires Holds(us[i], pool[j], kind)
    requires u.username == us[i].username && Held(u, kind) == None && !Busy(u.state, kind)
    ensures WellListed(pool[j := pool[j].(using := false, user := None)])
    ensures Exclusive(pool[j := pool[j].(using := false, user := None)], us[i := u], kind)
  {
    var p := pool[j := pool[j].(using := false, user := None)];
    var r := us[i := u];
    SameNames(pool, p);
    ReplacedByNone(us, i, u, kind);
    NoOtherHolds(us, i, kind);
    forall k | 0 <= k < |r| && Held(r[k], kind).Some?
      ensures HoldsListed(p, r[k], kind)
    {
      assert k != i && HoldsListed(pool, us[k], kind);
      var l :| 0 <= l < |pool| && Holds(us[k], pool[l], kind)
               && pool[l].using && pool[l].user == Some(us[k].username) && !pool[l].booting;
      assert l != j && Holds(r[k], p[l], kind);
    }
    forall l | 0 <= l < |p| && p[l].using
      ensures InUseBySome(r, p[l], kind)
    {
      assert l != j && InUseBySome(us, pool[l], kind);
      var k :| 0 <= k < |us| && Holds(us[k], pool[l], kind);
      assert k != i by { assert Names(pool)[l] != Names(pool)[j]; }
      assert Holds(r[k], p[l], kind);
    }
  }

  // ----- what the handlers keep -----

  lemma ReplacedKeepsCounts(us: seq<Session>, i: nat, u: Session)
    requires i < |us| && u.id == us[i].id && u.username == us[i].username
    ensures Ids(us[i := u]) == Ids(us) && Usernames(us[i := u]) == Usernames(us)
  {
  }

  lemma TakeInv(s: Server, i: nat, j: nat, kind: Kind)
    requires Inv(s) && i < |s.sessions| && j < |PoolOf(s, kind)|
    requires !Busy(s.sessions[i].state, kind) && !PoolOf(s, kind)[j].using && !PoolOf(s, kind)[j].booting
    requires kind == Work ==> s.work[j].name == WorkName(s.sessions[i].username)
    ensures Inv(Take(s, i, j, kind))
  {
    var u := s.sessions[i];
    var u' := Holding(u, kind, Some(PoolOf(s, kind)[j].name), Entered(u.state, kind));
    var other := if kind == Gaming then Work else Gaming;
    LeasedKeeps(PoolOf(s, kind), s.sessions, i, j, u', kind);
    OtherKindKeeps(PoolOf(s, other), s.sessions, i, u', other);
    ReplacedKeepsCounts(s.sessions, i, u');
  }

  lemma LeaveInv(s: Server, i: nat, kind: Kind)
    requires Inv(s) && i < |s.sessions|
    ensures Inv(Leave(s, i, kind))
    ensures Held(Leave(s, i, kind).sessions[i], kind) == None
    ensures forall other: Kind :: other != kind ==>
              Held(Leave(s, i, kind).sessions[i], other) == Held(s.sessions[i], other)
  {
    var u := s.sessions[i];
    if Busy(u.state, kind) {
      var u' := Holding(u, kind, None, Left(u.state, kind));
      var other := if kind == Gaming then Work else Gaming;
      ReleasedKeeps(PoolOf(s, kind), s.sessions, i, u', kind);
      OtherKindKeeps(PoolOf(s, other), s.sessions, i, u', other);
      ReplacedKeepsCounts(s.sessions, i, u');
    }
  }

  lemma PrepareLogoutInv(s: Server, i: nat)
    requires Inv(s) && i < |s.sessions|
    ensures Inv(PrepareLogout(s, i))
    ensures PrepareLogout(s, i).sessions[i].gaming == None
    ensures PrepareLogout(s, i).sessions[i].work == None
  {
    LeaveInv(s, i, Gaming);
    LeaveInv(Leave(s, i, Gaming), i, Work);
    assert Held(PrepareLogout(s, i).sessions[i], Gaming) == None;
  }

  lemma EnteringInv(s: Server, username: string, id: int, ip: string)
    requires Inv(s) && id !in Ids(s.sessions)
    ensures Inv(Entering(s, username, id, ip))
  {
    var p := InsertPos(Usernames(s.sessions), username);
    var u := Session(id, username, ip, LoggedIn, None, None);
    EnteredKeeps(s.gaming, s.sessions, p, u, Gaming);
    EnteredKeeps(s.work, s.sessions, p, u, Work);
    EnteringCounted(s, username, id, ip);
  }

  lemma EnteringCounted(s: Server, username: string, id: int, ip: string)
    requires Counted(s) && OwnWork(s.sessions) && id !in Ids(s.sessions)
    ensures Counted(Entering(s, username, id, ip)) && OwnWork(Entering(s, username, id, ip).sessions)
  {
    var us := s.sessions;
    var p := InsertPos(Usernames(us), username);
    var r := Entering(s, username, id, ip).sessions;
    assert Usernames(r) == Inserted(Usernames(us), p, username);
    assert Ids(r) == Inserted(Ids(us), p, id);
    InsertKeepsSorted(Usernames(us), username);
    InsertedKeepsDistinct(Ids(us), p, id);
    assert forall i :: 0 <= i < |r| && i != p ==> r[i] == us[if i < p then i else i - 1];
  }

  lemma StartWorkInv(s: Server, username: string, d: Driver)
    requires Inv(s)
    ensures Inv(StartWork(s, username, d))
  {
    StartupKeeps(s.work, s.sessions, WorkName(username), Work, d);
  }

  lemma StartGamingInv(s: Server, d: Driver, maxGaming: int)
    requires Inv(s)
    ensures Inv(StartGaming(s, d, maxGaming))
  {
    var c := FindDown(Names(s.gaming), maxGaming, s.userCount);
    if s.userCount <= maxGaming && c.Boot? {
      StartupKeeps(s.gaming, s.sessions, c.name, Gaming, d);
    }
  }

  lemma LogUserInInv(s: Server, m: Message, maxGaming: int)
    requires Inv(s) && m.Login?
    ensures Inv(LogUserIn(s, m, maxGaming))
  {
    if m.db.Row? {
      match Recognise(s.sessions, m.db.id, m.ip)
      case Back(i) =>
        PrepareLogoutInv(s, i);
      case Elsewhere =>
      case Nowhere =>
        EnteringInv(s, m.username, m.db.id, m.ip);
        var s0 := Entering(s, m.username, m.db.id, m.ip);
        StartWorkInv(s0, m.username, m.workDriver);
        StartGamingInv(StartWork(s0, m.username, m.workDriver), m.gamingDriver, maxGaming);
    }
  }

  lemma LogUserOutInv(s: Server, id: int, maxGaming: int)
    requires Inv(s)
    ensures Inv(LogUserOut(s, id, maxGaming))
  {
    var i := IndexOfId(s, id);
    if i < |s.sessions| {
      PrepareLogoutInv(s, i);
      var s1 := PrepareLogout(s, i);
      var us := s1.sessions;
      ShutdownKeeps(s1.work, us, WorkName(s.sessions[i].username), Work);
      var j := FirstEmpty(s1.gaming);
      if j < |s1.gaming| {
        ShutdownKeeps(s1.gaming, us, s1.gaming[j].name, Gaming);
      }
      GoneInv(Trimmed(LeftAll(s, i), maxGaming), i);
    }
  }

  lemma RemovedKeepsDistinct<T>(xs: seq<T>, j: nat)
    requires Distinct(xs) && j < |xs|
    ensures Distinct(Removed(xs, j))
  {
    var r := Removed(xs, j);
    assert forall i :: 0 <= i < |r| ==> r[i] == xs[if i < j then i else i + 1];
  }

  lemma GoneCounted(s: Server, i: nat)
    requires Counted(s) && OwnWork(s.sessions) && i < |s.sessions|
    ensures Counted(Departed(s, i)) && OwnWork(Departed(s, i).sessions)
  {
    var us, r := s.sessions, Removed(s.sessions, i);
    assert Ids(r) == Removed(Ids(us), i);
    assert Usernames(r) == Removed(Usernames(us), i);
    RemovedKeepsOrder(Usernames(us), i);
    RemovedKeepsDistinct(Ids(us), i);
    assert forall k :: 0 <= k < |r| ==> r[k] == us[if k < i then k else k + 1];
  }

  lemma GoneInv(s: Server, i: nat)
    requires Inv(s) && i < |s.sessions| && s.sessions[i].gaming == s.sessions[i].work == None
    ensures Inv(Departed(s, i))
  {
    GoneKeeps(s.gaming, s.sessions, i, Gaming);
    GoneKeeps(s.work, s.sessions, i, Work);
    GoneCounted(s, i);
  }

  lemma RequestWorkInv(s: Server, id: int)
    requires Inv(s)
    ensures Inv(RequestWork(s, id))
  {
    var i := IndexOfId(s, id);
    if i < |s.sessions| {
      var j := Find(Names(s.work), WorkName(s.sessions[i].username));
      if j < |s.work| && !s.work[j].using && !Busy(s.sessions[i].state, Work) {
        TakeInv(s, i, j, Work);
      }
    }
  }
}
