/**
 * Controller ids of the connected gamepads
 * (client/moonlight-embedded-mod/src/input/evdev.c).
 */
module ControllerIds {
  import opened Text

  /** The part of a struct input_device that matters here; the id is -1 until one is needed. */
  datatype Device = Device(fd: int, controllerId: int, gamepadModified: bool)

  datatype State = State(devices: seq<Device>, mask: bv8)

  datatype Event =
    | Create(fd: int)
    | Input(index: nat)   // an event that changes the gamepad's state
    | Sync(index: nat)    // EV_SYN
    | Remove(index: nat)

  // ----- the bitmask -----

  /** 1 << i */
  function Bit(i: nat): (b: bv8)
    requires i < 4
    ensures b == (1 as bv8) << i
  {
    if i == 0 then 1 else if i == 1 then 2 else if i == 2 then 4 else 8
  }

  predicate Taken(mask: bv8, i: nat)
    requires i < 4
  {
    mask & Bit(i) != 0
  }

  function WithId(mask: bv8, i: nat): bv8
    requires i < 4
  {
    mask | Bit(i)
  }

  function WithoutId(mask: bv8, i: nat): bv8
    requires i < 4
  {
    mask & !Bit(i)
  }

  predicate LowBits(mask: bv8) { mask & 0xf0 == 0 }

  predicate IdBit(b: bv8) { b == 1 || b == 2 || b == 4 || b == 8 }

  lemma SetBit(mask: bv8, a: bv8, b: bv8)
    requires IdBit(a) && IdBit(b)
    ensures (mask | a) & b != 0 <==> a == b || mask & b != 0
    ensures mask & 0xf0 == 0 ==> (mask | a) & 0xf0 == 0
  {
  }

  lemma ClearBit(mask: bv8, a: bv8, b: bv8)
    requires IdBit(a) && IdBit(b)
    ensures (mask & !a) & b != 0 <==> a != b && mask & b != 0
    ensures mask & 0xf0 == 0 ==> (mask & !a) & 0xf0 == 0
  {
  }

  lemma BitsDiffer(i: nat, j: nat)
    requires i < 4 && j < 4
    ensures IdBit(Bit(i)) && IdBit(Bit(j)) && (Bit(i) == Bit(j) <==> i == j)
  {
  }

  lemma TakenAfterSet(mask: bv8, i: nat, j: nat)
    requires i < 4 && j < 4
    ensures Taken(WithId(mask, i), j) <==> i == j || Taken(mask, j)
    ensures LowBits(mask) ==> LowBits(WithId(mask, i))
  {
    BitsDiffer(i, j);
    SetBit(mask, Bit(i), Bit(j));
  }

  lemma TakenAfterClear(mask: bv8, i: nat, j: nat)
    requires i < 4 && j < 4
    ensures Taken(WithoutId(mask, i), j) <==> i != j && Taken(mask, j)
    ensures LowBits(mask) ==> LowBits(WithoutId(mask, i))
  {
    BitsDiffer(i, j);
    ClearBit(mask, Bit(i), Bit(j));
  }

  // ----- the steps -----

  /** The lowest free id, or 4 when all are taken. */
  function LowestFree(mask: bv8): (i: nat)
    ensures i <= 4 && (i < 4 ==> !Taken(mask, i))
    ensures forall k :: 0 <= k < i ==> Taken(mask, k)
  {
    if !Taken(mask, 0) then 0 else if !Taken(mask, 1) then 1 else if !Taken(mask, 2) then 2
    else if !Taken(mask, 3) then 3 else 4
  }

  predicate NeedsId(d: Device) { d.gamepadModified && d.controllerId < 0 }

  function Synced(s: State, i: nat): State
    requires i < |s.devices|
  {
    var d := s.devices[i];
    if !d.gamepadModified then s
    else if d.controllerId >= 0 then s.(devices := s.devices[i := d.(gamepadModified := false)])
    else
      var id := LowestFree(s.mask);
      if id < 4 then
        State(s.devices[i := d.(controllerId := id, gamepadModified := false)], WithId(s.mask, id))
      else s.(devices := s.devices[i := d.(controllerId := 0, gamepadModified := false)])
  }

  /** The last device takes the place of the removed one. */
  function Without(ds: seq<Device>, i: nat): seq<Device>
    requires i < |ds|
  {
    var n := |ds| - 1;
    (if i != n && n > 0 then ds[i := ds[n]] else ds)[..n]
  }

  function Unplugged(s: State, i: nat): State
    requires i < |s.devices|
  {
    var id := s.devices[i].controllerId;
    State(Without(s.devices, i), if 0 <= id < 4 then WithoutId(s.mask, id) else s.mask)
  }

  predicate Enabled(s: State, e: Event) {
    e.Create? || e.index < |s.devices|
  }

  function Step(s: State, e: Event): State
    requires Enabled(s, e)
  {
    match e
    case Create(fd) => s.(devices := s.devices + [Device(fd, -1, false)])
    case Input(i) => s.(devices := s.devices[i := s.devices[i].(gamepadModified := true)])
    case Sync(i) => Synced(s, i)
    case Remove(i) => Unplugged(s, i)
  }

  predicate Possible(s: State, es: seq<Event>)
    decreases |es|
  {
    es == [] || (Enabled(s, es[0]) && Possible(Step(s, es[0]), es[1..]))
  }

  /** The state after the first k events. */
  function After(s: State, es: seq<Event>, k: nat): State
    requires Possible(s, es) && k <= |es|
    decreases k
  {
    if k == 0 then s else After(Step(s, es[0]), es[1..], k - 1)
  }

  // ----- the invariant -----

  ghost predicate Holder(ds: seq<Device>, id: int) {
    exists i :: 0 <= i < |ds| && ds[i].controllerId == id
  }

  /** Held ids are distinct, and the mask is exactly the set of them. */
  ghost predicate Inv(s: State) {
    && (forall i :: 0 <= i < |s.devices| ==> -1 <= s.devices[i].controllerId < 4)
    && (forall i, j :: 0 <= i < j < |s.devices| && s.devices[i].controllerId >= 0 ==>
          s.devices[i].controllerId != s.devices[j].controllerId)
    && (forall id: nat :: id < 4 ==> (Taken(s.mask, id) <==> Holder(s.devices, id)))
    && LowBits(s.mask)
  }

  /** All ids are taken when one is needed: the source then shares id 0. */
  predicate FallsBack(s: State, e: Event)
    requires Enabled(s, e)
  {
    e.Sync? && NeedsId(s.devices[e.index]) && LowestFree(s.mask) == 4
  }

  lemma SyncedInv(s: State, i: nat)
    requires Inv(s) && i < |s.devices| && !FallsBack(s, Sync(i))
    ensures Inv(Synced(s, i))
  {
    var d := s.devices[i];
    var t := Synced(s, i);
    var id := LowestFree(s.mask);
    if NeedsId(d) {
      forall k: nat | k < 4
        ensures Taken(t.mask, k) <==> Holder(t.devices, k)
      {
        TakenAfterSet(s.mask, id, k);
        HolderAfterUpdate(s.devices, i, t.devices[i], k);
      }
      TakenAfterSet(s.mask, id, 0);
    } else {
      forall k: nat | k < 4
        ensures Holder(t.devices, k) <==> Holder(s.devices, k)
      {
        HolderAfterUpdate(s.devices, i, t.devices[i], k);
      }
    }
  }

  lemma HolderAfterUpdate(ds: seq<Device>, i: nat, d: Device, id: nat)
    requires i < |ds| && (ds[i].controllerId == -1 || ds[i].controllerId == d.controllerId)
    ensures Holder(ds[i := d], id) <==> d.controllerId == id || Holder(ds, id)
  {
    var r := ds[i := d];
    assert r[i] == d;
    if Holder(ds, id) {
      var k :| 0 <= k < |ds| && ds[k].controllerId == id;
      assert r[k].controllerId == id;
    }
  }

  lemma HolderAfterAppend(ds: seq<Device>, d: Device, id: nat)
    requires d.controllerId == -1
    ensures Holder(ds + [d], id) <==> Holder(ds, id)
  {
    var r := ds + [d];
    if Holder(ds, id) {
      var k :| 0 <= k < |ds| && ds[k].controllerId == id;
      assert r[k].controllerId == id;
    }
  }

  /** Positions after the swap: the last device moves to place i, the others stay. */
  lemma WithoutPositions(ds: seq<Device>, i: nat)
    requires i < |ds|
    ensures |Without(ds, i)| == |ds| - 1
    ensures forall k :: 0 <= k < |ds| - 1 ==> Without(ds, i)[k] == if k == i then ds[|ds| - 1] else ds[k]
  {
  }

  /** Removal takes away exactly the removed device. */
  lemma RemovalKeepsOthers(ds: seq<Device>, i: nat)
    requires i < |ds|
    ensures multiset(Without(ds, i)) == multiset(ds) - multiset{ds[i]}
  {
    var n := |ds| - 1;
    assert ds == ds[..n] + [ds[n]];
    if i < n {
      var m := ds[..n];
      assert Without(ds, i) == m[i := ds[n]];
      assert m == m[..i] + [ds[i]] + m[i + 1..];
      assert m[i := ds[n]] == m[..i] + [ds[n]] + m[i + 1..];
    } else {
      assert Without(ds, i) == ds[..n];
    }
  }

  /** The ids of the devices that stay. */
  lemma HolderAfterRemoval(ds: seq<Device>, i: nat, id: nat)
    requires i < |ds|
    requires forall j, k :: 0 <= j < k < |ds| && ds[j].controllerId >= 0 ==> ds[j].controllerId != ds[k].controllerId
    ensures Holder(Without(ds, i), id) <==> Holder(ds, id) && ds[i].controllerId != id
  {
    var r, n := Without(ds, i), |ds| - 1;
    WithoutPositions(ds, i);
    if Holder(r, id) {
      var j :| 0 <= j < n && r[j].controllerId == id;
      assert ds[if j == i then n else j].controllerId == id;
    }
    if Holder(ds, id) && ds[i].controllerId != id {
      var j :| 0 <= j <= n && ds[j].controllerId == id;
      assert r[if j == n then i else j].controllerId == id;
    }
  }

  lemma UnpluggedInv(s: State, i: nat)
    requires Inv(s) && i < |s.devices|
    ensures Inv(Unplugged(s, i))
  {
    var ds, t := s.devices, Unplugged(s, i);
    var gone := ds[i].controllerId;
    WithoutPositions(ds, i);
    forall k: nat | k < 4
      ensures Taken(t.mask, k) <==> Holder(t.devices, k)
    {
      if gone >= 0 { TakenAfterClear(s.mask, gone, k); }
      HolderAfterRemoval(ds, i, k);
    }
    if gone >= 0 { TakenAfterClear(s.mask, gone, 0); }
  }

  lemma StepInv(s: State, e: Event)
    requires Inv(s) && Enabled(s, e) && !FallsBack(s, e)
    ensures Inv(Step(s, e))
  {
    match e
    case Create(fd) =>
      forall k: nat | k < 4
        ensures Holder(Step(s, e).devices, k) <==> Holder(s.devices, k)
      {
        HolderAfterAppend(s.devices, Step(s, e).devices[|s.devices|], k);
      }
    case Input(i) =>
      forall k: nat | k < 4
        ensures Holder(Step(s, e).devices, k) <==> Holder(s.devices, k)
      {
        HolderAfterUpdate(s.devices, i, Step(s, e).devices[i], k);
      }
    case Sync(i) => SyncedInv(s, i);
    case Remove(i) => UnpluggedInv(s, i);
  }

  // ----- what an event does to the devices -----

  /** A gamepad that needs an id gets the lowest that no device holds, and nothing else changes. */
  lemma SyncGivesLowest(s: State, i: nat, id: nat)
    requires Inv(s) && i < |s.devices| && s.devices[i].gamepadModified && s.devices[i].controllerId < 0
    requires id < 4 && !Holder(s.devices, id) && forall k: nat :: k < id ==> Holder(s.devices, k)
    ensures Step(s, Sync(i)).devices == s.devices[i := Device(s.devices[i].fd, id, false)]
  {
    LowestUnheld(s, id);
  }

  lemma LowestUnheld(s: State, id: nat)
    requires Inv(s) && id <= 4 && (id < 4 ==> !Holder(s.devices, id))
    requires forall k: nat :: k < id ==> Holder(s.devices, k)
    ensures LowestFree(s.mask) == id
  {
    assert (id < 4 ==> !Taken(s.mask, id)) && forall k: nat :: k < id ==> Taken(s.mask, k);
  }

  /** While all four are held it shares id 0. */
  lemma SyncSharesZero(s: State, i: nat)
    requires Inv(s) && i < |s.devices| && s.devices[i].gamepadModified && s.devices[i].controllerId < 0
    requires forall k: nat :: k < 4 ==> Holder(s.devices, k)
    ensures Step(s, Sync(i)) == s.(devices := s.devices[i := Device(s.devices[i].fd, 0, false)])
  {
    LowestUnheld(s, 4);
  }

  /** One that has an id keeps it, and one that was not used gets none. */
  lemma SyncKeepsId(s: State, i: nat)
    requires i < |s.devices| && (s.devices[i].gamepadModified ==> s.devices[i].controllerId >= 0)
    ensures var d := s.devices[i];
            Step(s, Sync(i)) == s.(devices := s.devices[i := Device(d.fd, d.controllerId, false)])
  {
    assert !s.devices[i].gamepadModified ==> s.devices[i := s.devices[i]] == s.devices;
  }

  /** A removed device's id can be given again, and every other device keeps its own. */
  lemma RemovalFreesId(s: State, i: nat, id: nat)
    requires Inv(s) && i < |s.devices| && id < 4
    ensures Holder(Step(s, Remove(i)).devices, id) <==> Holder(s.devices, id) && s.devices[i].controllerId != id
  {
    HolderAfterRemoval(s.devices, i, id);
  }

  /** Sharing id 0 gives one id to two devices. */
  lemma FallbackBreaksInv(s: State, e: Event)
    requires Inv(s) && Enabled(s, e) && FallsBack(s, e)
    ensures !Inv(Step(s, e))
  {
    assert Taken(s.mask, 0) && Holder(s.devices, 0);
    var j :| 0 <= j < |s.devices| && s.devices[j].controllerId == 0;
    var ds := Step(s, e).devices;
    assert ds[j].controllerId == ds[e.index].controllerId == 0;
  }

  // ----- whole runs -----

  ghost predicate AlwaysInv(s: State, es: seq<Event>)
    requires Possible(s, es)
  {
    forall k :: 0 <= k <= |es| ==> Inv(After(s, es, k))
  }

  predicate NeverFallsBack(s: State, es: seq<Event>)
    requires Possible(s, es)
    decreases |es|
  {
    es == [] || (!FallsBack(s, es[0]) && NeverFallsBack(Step(s, es[0]), es[1..]))
  }

  /** The invariant holds throughout a run exactly when the fallback is never taken in it. */
  lemma {:induction false} InvariantExactly(s: State, es: seq<Event>)
    requires Inv(s) && Possible(s, es)
    ensures AlwaysInv(s, es) <==> NeverFallsBack(s, es)
    decreases |es|
  {
    if es != [] {
      var t := Step(s, es[0]);
      assert forall k :: 0 < k <= |es| ==> After(s, es, k) == After(t, es[1..], k - 1);
      if FallsBack(s, es[0]) {
        FallbackBreaksInv(s, es[0]);
        assert After(s, es, 1) == t;
      } else {
        StepInv(s, es[0]);
        InvariantExactly(t, es[1..]);
        if AlwaysInv(s, es) {
          forall k | 0 <= k <= |es[1..]|
            ensures Inv(After(t, es[1..], k))
          {
            assert After(s, es, k + 1) == After(t, es[1..], k);
          }
        }
      }
    }
  }

  /** The devices that hold an id or need one. */
  ghost function Wanting(ds: seq<Device>): set<int> {
    set i | 0 <= i < |ds| && (ds[i].controllerId >= 0 || NeedsId(ds[i]))
  }

  lemma FourHoldersAndOneMore(s: State, i: nat)
    requires Inv(s) && i < |s.devices| && FallsBack(s, Sync(i))
    ensures |Wanting(s.devices)| > 4
  {
    var ds := s.devices;
    var a := HolderOf(s, 0);
    var b := HolderOf(s, 1);
    var c := HolderOf(s, 2);
    var d := HolderOf(s, 3);
    var five := {i, a, b, c, d};
    assert five <= Wanting(ds);
    assert |five| == 5;
    SubsetSize(five, Wanting(ds));
  }

  lemma HolderOf(s: State, id: nat) returns (k: int)
    requires Inv(s) && id < 4 && LowestFree(s.mask) == 4
    ensures 0 <= k < |s.devices| && s.devices[k].controllerId == id
  {
    assert Taken(s.mask, id) && Holder(s.devices, id);
    k :| 0 <= k < |s.devices| && s.devices[k].controllerId == id;
  }

  lemma SubsetSize(a: set<int>, b: set<int>)
    requires a <= b
    ensures |a| <= |b|
  {
    assert b == a + (b - a) && a !! (b - a);
  }

  ghost predicate AtMostFour(s: State, es: seq<Event>)
    requires Possible(s, es)
  {
    forall k :: 0 <= k <= |es| ==> |Wanting(After(s, es, k).devices)| <= 4
  }

  /** While at most four devices hold or need an id at once, the invariant never fails. */
  lemma {:induction false} FourDevicesAreServed(s: State, es: seq<Event>)
    requires Inv(s) && Possible(s, es) && AtMostFour(s, es)
    ensures NeverFallsBack(s, es) && AlwaysInv(s, es)
    decreases |es|
  {
    if es != [] {
      assert After(s, es, 0) == s;
      if FallsBack(s, es[0]) {
        FourHoldersAndOneMore(s, es[0].index);
      }
      var t := Step(s, es[0]);
      StepInv(s, es[0]);
      forall k | 0 <= k <= |es[1..]|
        ensures |Wanting(After(t, es[1..], k).devices)| <= 4
      {
        assert After(s, es, k + 1) == After(t, es[1..], k);
      }
      FourDevicesAreServed(t, es[1..]);
    }
    InvariantExactly(s, es);
  }

  // ----- five gamepads -----

  /** n gamepads with the ids 0 .. n-1. */
  function Filled(n: nat): State
    requires n <= 4
  {
    State(seq(n, i => Device(i, i, false)),
          if n == 0 then 0 else if n == 1 then 1 else if n == 2 then 3 else if n == 3 then 7 else 15)
  }

  /** Gamepads k .. 4 are plugged in and used, one after the other. */
  function Arrivals(k: nat): seq<Event>
    requires k <= 5
    decreases 5 - k
  {
    if k == 5 then [] else [Create(k), Input(k), Sync(k)] + Arrivals(k + 1)
  }

  lemma FilledFree(n: nat)
    requires n <= 4
    ensures LowestFree(Filled(n).mask) == n && (n < 4 ==> WithId(Filled(n).mask, n) == Filled(n + 1).mask)
  {
  }

  /** The three events of one arrival. */
  lemma Arrival(k: nat)
    requires k <= 4
    ensures var s := Filled(k);
            var t := Step(Step(s, Create(k)), Input(k));
            && Enabled(t, Sync(k)) && (FallsBack(t, Sync(k)) <==> k == 4)
            && (k < 4 ==> Step(t, Sync(k)) == Filled(k + 1))
  {
    var s := Filled(k);
    var t := Step(Step(s, Create(k)), Input(k));
    assert t.devices == s.devices + [Device(k, -1, true)];
    FilledFree(k);
    if k < 4 {
      assert Step(t, Sync(k)).devices == Filled(k + 1).devices;
    }
  }

  lemma {:induction false} FifthArrivalFallsBack(k: nat)
    requires k <= 4
    ensures Possible(Filled(k), Arrivals(k)) && !NeverFallsBack(Filled(k), Arrivals(k))
    decreases 5 - k
  {
    var s, es := Filled(k), Arrivals(k);
    var s1 := Step(s, Create(k));
    var s2 := Step(s1, Input(k));
    Arrival(k);
    assert es[1..][1..][1..] == Arrivals(k + 1);
    var rest := es[1..][1..];
    assert rest[0] == Sync(k) && es[1..][0] == Input(k);
    if k < 4 {
      FifthArrivalFallsBack(k + 1);
    } else {
      assert rest[1..] == [];
    }
    assert Possible(s2, rest) && !NeverFallsBack(s2, rest);
    assert Possible(s1, es[1..]) && !NeverFallsBack(s1, es[1..]);
  }

  /** Five gamepads in use: the fifth shares id 0 with the first. */
  lemma FiveDevicesBreakInv()
    ensures var s := State([], 0);
            Inv(s) && Possible(s, Arrivals(0)) && !AlwaysInv(s, Arrivals(0))
  {
    assert Filled(0) == State([], 0);
    FifthArrivalFallsBack(0);
    EmptyInv();
    InvariantExactly(State([], 0), Arrivals(0));
  }

  lemma EmptyInv()
    ensures Inv(State([], 0))
  {
  }

  // ----- the code -----

  class InputDevices {
    var devices: seq<Device>
    var assignedControllerIds: bv8

    constructor ()
      ensures Value() == State([], 0) && Inv(Value())
    {
      devices, assignedControllerIds := [], 0;
    }

    ghost function Value(): State
      reads this
    {
      State(devices, assignedControllerIds)
    }

    method EvdevCreate(fd: int)
      modifies this
      ensures Value() == Step(old(Value()), Create(fd))
    {
      devices := devices + [Device(fd, -1, false)];
    }

    /** The EV_SYN part of evdev_handle_event. */
    method HandleSync(i: nat)
      requires i < |devices|
      modifies this
      ensures Value() == Step(old(Value()), Sync(i))
    {
      var dev := devices[i];
      if dev.gamepadModified {
        if dev.controllerId < 0 {
          for id := 0 to 4
            invariant forall k :: 0 <= k < id ==> Taken(assignedControllerIds, k)
            invariant Value() == old(Value()) && dev == devices[i]
          {
            if !Taken(assignedControllerIds, id) {
              assignedControllerIds := WithId(assignedControllerIds, id);
              dev := dev.(controllerId := id);
              break;
            }
          }
          if dev.controllerId < 0 {
            dev := dev.(controllerId := 0);
          }
        }
        dev := dev.(gamepadModified := false);
        devices := devices[i := dev];
      }
    }

    method EvdevRemove(devindex: nat)
      requires devindex < |devices| && devices[devindex].controllerId < 4
      modifies this
      ensures Value() == Step(old(Value()), Remove(devindex))
    {
      var numDevices := |devices| - 1;
      if devices[devindex].controllerId >= 0 {
        assignedControllerIds := WithoutId(assignedControllerIds, devices[devindex].controllerId);
      }
      if devindex != numDevices && numDevices > 0 {
        devices := devices[devindex := devices[numDevices]];
      }
      devices := devices[..numDevices];
    }
  }
}
