/**
 * Logging out users that no longer answer (server/users.py).
 */
module Timeout {
  import opened Text
  import opened ServerObjects

  const MAX_COUNT := 10

  /** What the feedback list holds: ids of users that answered, or the word "close". */
  datatype Feed = Answer(userId: int) | Close

  predicate Answered(userId: int, feedback: seq<Feed>) {
    Answer(userId) in feedback
  }

  predicate Closing(feedback: seq<Feed>) {
    feedback != [] && feedback[0] == Close
  }

  function NextCounter(counter: nat, answered: bool): nat {
    (if answered then 0 else counter) + 1
  }

  // ----- one user over many rounds -----

  /** The counter after the rounds since login, each given by whether the user answered. */
  function CounterAfter(rounds: seq<bool>): nat {
    if rounds == [] then 0 else NextCounter(CounterAfter(rounds[..|rounds| - 1]), rounds[|rounds| - 1])
  }

  /** The last answered round, or -1. */
  function LastAnswered(rounds: seq<bool>): (k: int)
    ensures -1 <= k < |rounds|
    ensures k >= 0 ==> rounds[k]
    ensures forall j :: k < j < |rounds| ==> !rounds[j]
  {
    if rounds == [] then -1
    else if rounds[|rounds| - 1] then |rounds| - 1 else LastAnswered(rounds[..|rounds| - 1])
  }

  /** The counter is the number of rounds from the last answered one on, or since login. */
  lemma {:induction false} CounterCountsSilence(rounds: seq<bool>)
    ensures CounterAfter(rounds)
            == if LastAnswered(rounds) >= 0 then |rounds| - LastAnswered(rounds) else |rounds|
    decreases |rounds|
  {
    if rounds != [] {
      CounterCountsSilence(rounds[..|rounds| - 1]);
    }
  }

  /** Silent in the current round and in the eight before it, ten rounds or more after login. */
  predicate Silent(rounds: seq<bool>) {
    |rounds| >= 10 && forall k :: |rounds| - 9 <= k < |rounds| ==> !rounds[k]
  }

  /** A logout is requested in exactly those rounds. */
  lemma RequestedExactlyWhenSilent(rounds: seq<bool>)
    ensures CounterAfter(rounds) >= MAX_COUNT <==> Silent(rounds)
  {
    CounterCountsSilence(rounds);
    var last := LastAnswered(rounds);
    if last >= 0 && |rounds| - last < MAX_COUNT {
      assert rounds[last];
    }
  }

  ghost function Counters(us: seq<User>): (cs: seq<nat>)
    reads us
    ensures |cs| == |us| && forall k {:trigger cs[k]} :: 0 <= k < |us| ==> cs[k] == us[k].timeoutCounter
  {
    seq(|us|, k requires 0 <= k < |us| reads us => us[k].timeoutCounter)
  }

  /** The counters after one round. */
  function Counted(us: seq<User>, cs: seq<nat>, feedback: seq<Feed>): (r: seq<nat>)
    requires |us| == |cs|
    ensures |r| == |us|
    ensures forall k {:trigger r[k]} :: 0 <= k < |us| ==> r[k] == NextCounter(cs[k], Answered(us[k].userId, feedback))
  {
    seq(|us|, k requires 0 <= k < |us| => NextCounter(cs[k], Answered(us[k].userId, feedback)))
  }

  /** The users whose counter has reached the limit, in list order. */
  function Overdue(us: seq<User>, cs: seq<nat>): seq<int>
    requires |us| == |cs|
  {
    if us == [] then []
    else
      var n := |us| - 1;
      Overdue(us[..n], cs[..n]) + if cs[n] >= MAX_COUNT then [us[n].userId] else []
  }

  lemma OverdueNext(us: seq<User>, cs: seq<nat>, i: nat)
    requires |us| == |cs| && i < |us|
    ensures Overdue(us[..i + 1], cs[..i + 1])
            == Overdue(us[..i], cs[..i]) + if cs[i] >= MAX_COUNT then [us[i].userId] else []
  {
    assert us[..i + 1][..i] == us[..i] && cs[..i + 1][..i] == cs[..i];
  }

  // ----- many users over many rounds -----

  /** One turn of the thread: who is logged in, and what was fed back since the last turn. */
  datatype Turn = Turn(users: seq<User>, answers: seq<Feed>)

  predicate Stops(t: Turn) {
    Closing(t.answers)
  }

  /** The turns up to the one that finds the word close. */
  function Executed(turns: seq<Turn>): (r: seq<Turn>)
    ensures r <= turns
    ensures forall k :: 0 <= k < |r| ==> !Stops(r[k])
    ensures |r| < |turns| ==> Stops(turns[|r|])
  {
    if turns == [] || Stops(turns[0]) then [] else [turns[0]] + Executed(turns[1..])
  }

  /** Whether this user answered, for every turn in which it was logged in. */
  function History(turns: seq<Turn>, u: User): seq<bool> {
    if turns == [] then []
    else
      var t := turns[|turns| - 1];
      History(turns[..|turns| - 1], u) + if u in t.users then [Answered(u.userId, t.answers)] else []
  }

  /** The users whose time is out after these turns, in list order. */
  function TimedOut(us: seq<User>, turns: seq<Turn>): seq<int> {
    if us == [] then []
    else
      var u := us[|us| - 1];
      TimedOut(us[..|us| - 1], turns) + if Silent(History(turns, u)) then [u.userId] else []
  }

  /** Every counter is the one its user's answers in these turns call for. */
  ghost predicate Counting(all: set<User>, turns: seq<Turn>)
    reads all
  {
    forall u {:trigger CounterAfter(History(turns, u))} :: u in all ==>
      u.timeoutCounter == CounterAfter(History(turns, u))
  }

  /** None of these turns stopped the thread, and each sent the messages for the users timed out in it. */
  ghost predicate Reported(logouts: seq<seq<int>>, turns: seq<Turn>) {
    && |logouts| == |turns|
    && (forall k :: 0 <= k < |turns| ==> !Stops(turns[k]))
    && (forall k {:trigger logouts[k]} :: 0 <= k < |turns| ==>
          logouts[k] == TimedOut(turns[k].users, turns[..k + 1]))
  }

  lemma SameTurns(turns: seq<Turn>, t: Turn, k: nat)
    requires k < |turns|
    ensures (turns + [t])[k] == turns[k] && (turns + [t])[..k + 1] == turns[..k + 1]
  {
  }

  lemma ReportedNext(logouts: seq<seq<int>>, turns: seq<Turn>, t: Turn, sent: seq<int>)
    requires Reported(logouts, turns) && !Stops(t) && sent == TimedOut(t.users, turns + [t])
    ensures Reported(logouts + [sent], turns + [t])
  {
    var more, all := turns + [t], logouts + [sent];
    forall k | 0 <= k < |all|
      ensures all[k] == TimedOut(more[k].users, more[..k + 1])
    {
      if k < |turns| {
        SameTurns(turns, t, k);
      } else {
        assert more[..|more|] == more;
      }
    }
  }

  lemma {:induction false} ExecutedIs(turns: seq<Turn>, n: nat)
    requires n <= |turns| && (forall k :: 0 <= k < n ==> !Stops(turns[k])) && (n < |turns| ==> Stops(turns[n]))
    ensures Executed(turns) == turns[..n]
  {
    if n > 0 {
      ExecutedIs(turns[1..], n - 1);
      assert turns[..n] == [turns[0]] + turns[1..][..n - 1];
    }
  }

  lemma HistoryNext(turns: seq<Turn>, t: Turn, u: User)
    ensures History(turns + [t], u) == History(turns, u) + if u in t.users then [Answered(u.userId, t.answers)] else []
  {
    assert (turns + [t])[..|turns|] == turns;
  }

  lemma CounterNext(rounds: seq<bool>, answered: bool)
    ensures CounterAfter(rounds + [answered]) == NextCounter(CounterAfter(rounds), answered)
  {
    assert (rounds + [answered])[..|rounds|] == rounds;
  }

  /** The overdue users are those that were silent, if the counters count the turns. */
  lemma {:induction false} OverdueAreTimedOut(us: seq<User>, cs: seq<nat>, turns: seq<Turn>)
    requires |us| == |cs| && forall k :: 0 <= k < |us| ==> cs[k] == CounterAfter(History(turns, us[k]))
    ensures Overdue(us, cs) == TimedOut(us, turns)
    decreases |us|
  {
    if us != [] {
      var n := |us| - 1;
      OverdueAreTimedOut(us[..n], cs[..n], turns);
      RequestedExactlyWhenSilent(History(turns, us[n]));
    }
  }

  // ----- the thread -----

  class TimeoutCheck {
    var feedback: seq<Feed>
    var shutdown: bool

    constructor ()
      ensures feedback == [] && !shutdown
    {
      feedback, shutdown := [], false;
    }

    /** The loop over the users; the ids of the logout messages it sends are returned. */
    method CheckUsers(users: seq<User>) returns (logouts: seq<int>)
      requires Distinct(users)
      modifies users`timeoutCounter
      ensures Counters(users) == Counted(users, old(Counters(users)), feedback)
      ensures logouts == Overdue(users, Counters(users))
    {
      logouts := [];
      ghost var before := Counters(users);
      ghost var after := Counted(users, before, feedback);
      for i := 0 to |users|
        invariant forall k :: 0 <= k < i ==> users[k].timeoutCounter == after[k]
        invariant forall k :: i <= k < |users| ==> users[k].timeoutCounter == before[k]
        invariant logouts == Overdue(users[..i], after[..i])
      {
        CheckUser(users[i]);
        OverdueNext(users, after, i);
        if users[i].timeoutCounter >= MAX_COUNT {
          logouts := logouts + [users[i].userId];
        }
      }
      assert Counters(users) == after && users[..|users|] == users && after[..|users|] == after;
    }

    /** One turn of the loop in run. */
    method Round(users: seq<User>) returns (logouts: seq<int>)
      requires Distinct(users)
      modifies this, users`timeoutCounter
      ensures shutdown == (old(shutdown) || Closing(old(feedback)))
      ensures Closing(old(feedback)) ==>
                feedback == old(feedback) && logouts == [] && Counters(users) == old(Counters(users))
      ensures !Closing(old(feedback)) ==>
                && feedback == [] && logouts == Overdue(users, Counters(users))
                && Counters(users) == Counted(users, old(Counters(users)), old(feedback))
    {
      if |feedback| > 0 && feedback[0] == Close {
        shutdown := true;
        return [];
      }
      logouts := CheckUsers(users);
      ghost var cs := Counters(users);
      feedback := [];
      assert Counters(users) == cs;
    }

    /**
     * The loop in run, with `all` the users that are ever logged in. One that logs in
     * later is an object that no earlier turn lists. The logout messages of each turn
     * are returned.
     */
    method Run(turns: seq<Turn>, ghost all: set<User>) returns (logouts: seq<seq<int>>)
      requires feedback == [] && !shutdown
      requires forall k :: 0 <= k < |turns| ==> Distinct(turns[k].users) && forall u :: u in turns[k].users ==> u in all
      requires forall u :: u in all ==> u.timeoutCounter == 0
      modifies this, all`timeoutCounter
      ensures shutdown <==> |Executed(turns)| < |turns|
      ensures Counting(all, Executed(turns))
      ensures Reported(logouts, Executed(turns))
    {
      logouts := [];
      ghost var done: seq<Turn> := [];
      while |logouts| < |turns| && !shutdown
        invariant |logouts| <= |turns| && done == turns[..|logouts|] && Reported(logouts, done) && Counting(all, done)
        invariant if shutdown then |done| < |turns| && Stops(turns[|done|]) else feedback == []
        decreases |turns| - |logouts|, !shutdown
      {
        var t := turns[|logouts|];
        var sent := Turning(t, all, done);
        if !shutdown {
          ReportedNext(logouts, done, t, sent);
          logouts, done := logouts + [sent], done + [t];
        }
      }
      ExecutedIs(turns, |done|);
    }

    /** One turn: what was fed back arrives, and the round is made. */
    method Turning(t: Turn, ghost all: set<User>, ghost before: seq<Turn>) returns (sent: seq<int>)
      requires feedback == [] && !shutdown && Distinct(t.users) && (forall u :: u in t.users ==> u in all)
      requires Counting(all, before)
      modifies this, all`timeoutCounter
      ensures shutdown <==> Stops(t)
      ensures shutdown ==> Counting(all, before)
      ensures !shutdown ==> feedback == [] && Counting(all, before + [t]) && sent == TimedOut(t.users, before + [t])
    {
      feedback := feedback + t.answers;
      assert feedback == t.answers && forall k :: 0 <= k < |t.users| ==> t.users[k] in all;
      sent := Round(t.users);
      if !shutdown {
        ghost var cs := Counters(t.users);
        forall u | u in all
          ensures u.timeoutCounter == CounterAfter(History(before + [t], u))
        {
          HistoryNext(before, t, u);
          CounterNext(History(before, u), Answered(u.userId, t.answers));
          assert old(u.timeoutCounter) == CounterAfter(History(before, u));
          if u in t.users {
            var k :| 0 <= k < |t.users| && t.users[k] == u;
            assert cs[k] == NextCounter(old(Counters(t.users))[k], Answered(u.userId, t.answers));
          } else {
            assert History(before, u) + [] == History(before, u);
          }
        }
        OverdueAreTimedOut(t.users, cs, before + [t]);
      } else {
        forall u | u in all
          ensures u.timeoutCounter == old(u.timeoutCounter)
        {
          if u in t.users {
            var k :| 0 <= k < |t.users| && t.users[k] == u;
            assert Counters(t.users)[k] == old(Counters(t.users))[k];
          }
        }
      }
    }

    /** The body for one user: reset when it answered, then count the round. */
    method CheckUser(usr: User)
      modifies usr`timeoutCounter
      ensures usr.timeoutCounter == NextCounter(old(usr.timeoutCounter), Answered(usr.userId, feedback))
    {
      for k := 0 to |feedback|
        invariant usr.timeoutCounter == old(usr.timeoutCounter)
        invariant Answer(usr.userId) !in feedback[..k]
      {
        if feedback[k] == Answer(usr.userId) {
          usr.timeoutCounter := 0;
          break;
        }
      }
      assert feedback[..|feedback|] == feedback;
      usr.timeoutCounter := usr.timeoutCounter + 1;
    }
  }
}
