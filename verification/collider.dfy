/**
 * The hit-test index of the console interface (client/systems_components.py).
 *
 * Every cell of the screen lists the entities whose rectangle covers it; the last
 * one is on top.
 */
module Collider {
  import opened Text

  /** A registered collider: its entity and its rectangle. */
  datatype Area = Area(entity: nat, y: int, x: int, height: int, width: int)

  datatype Screen = Screen(height: nat, width: nat)

  /** The cell that Python finds at an index: negative ones count from the end. */
  function Wrap(i: int, n: int): int {
    if i < 0 then i + n else i
  }

  /** A range of indices that a list of n elements has, each element once at most. */
  predicate InSpan(start: int, length: int, n: nat) {
    0 <= length <= n && 0 <= start + n && start + length <= n
  }

  /** How far behind the start the cell i is met. */
  function Offset(i: int, start: int, n: int): int {
    if i - n >= start then i - n - start else i - start
  }

  lemma MeetsOnce(start: int, length: int, n: nat, d: int, i: int)
    requires InSpan(start, length, n) && 0 <= d < length && 0 <= i < n
    ensures 0 <= Wrap(start + d, n) < n
    ensures Offset(i, start, n) == d <==> i == Wrap(start + d, n)
  {
  }

  /** The cells of the matrix that the loops over a collider's rectangle meet. */
  predicate Covers(sc: Screen, a: Area, y: int, x: int) {
    0 <= Offset(y, a.y, sc.height) < a.height && 0 <= Offset(x, a.x, sc.width) < a.width
  }

  predicate Fits(sc: Screen, a: Area) {
    InSpan(a.y, a.height, sc.height) && InSpan(a.x, a.width, sc.width)
  }

  /** The points of the rectangle itself. */
  predicate Drawn(a: Area, y: int, x: int) {
    a.y <= y < a.y + a.height && a.x <= x < a.x + a.width
  }

  ghost predicate CoversDrawn(sc: Screen, a: Area) {
    forall y, x :: 0 <= y < sc.height && 0 <= x < sc.width ==> (Covers(sc, a, y, x) <==> Drawn(a, y, x))
  }

  /** An area covers just its points on the screen exactly when it starts there, or is empty. */
  lemma CoversDrawnExactly(sc: Screen, a: Area)
    requires Fits(sc, a)
    ensures CoversDrawn(sc, a) <==> a.height == 0 || a.width == 0 || (a.y >= 0 && a.x >= 0)
  {
    if a.height > 0 && a.width > 0 && (a.y < 0 || a.x < 0) {
      var y, x := Wrap(a.y, sc.height), Wrap(a.x, sc.width);
      MeetsOnce(a.y, a.height, sc.height, 0, y);
      MeetsOnce(a.x, a.width, sc.width, 0, x);
      assert Covers(sc, a, y, x) && !Drawn(a, y, x);
    }
  }

  /** The entities that cover a point, in the order of registration. */
  function Cover(sc: Screen, areas: seq<Area>, y: int, x: int): seq<nat> {
    if areas == [] then []
    else (if Covers(sc, areas[0], y, x) then [areas[0].entity] else []) + Cover(sc, areas[1..], y, x)
  }

  /** The topmost entity at a point, found by going through all areas from the last. */
  function Topmost(sc: Screen, areas: seq<Area>, y: int, x: int): Option<nat> {
    if areas == [] then None
    else if Covers(sc, areas[|areas| - 1], y, x) then Some(areas[|areas| - 1].entity)
    else Topmost(sc, areas[..|areas| - 1], y, x)
  }

  function TopmostDrawn(areas: seq<Area>, y: int, x: int): Option<nat> {
    if areas == [] then None
    else if Drawn(areas[|areas| - 1], y, x) then Some(areas[|areas| - 1].entity)
    else TopmostDrawn(areas[..|areas| - 1], y, x)
  }

  /** While all areas start on the screen, the topmost one at a point is the topmost that is drawn there. */
  lemma {:induction false} TopmostIsDrawn(sc: Screen, areas: seq<Area>, y: int, x: int)
    requires forall k :: 0 <= k < |areas| ==> Fits(sc, areas[k]) && areas[k].y >= 0 && areas[k].x >= 0
    requires 0 <= y < sc.height && 0 <= x < sc.width
    ensures Topmost(sc, areas, y, x) == TopmostDrawn(areas, y, x)
  {
    if areas != [] {
      CoversDrawnExactly(sc, areas[|areas| - 1]);
      TopmostIsDrawn(sc, areas[..|areas| - 1], y, x);
    }
  }

  /** A window in the corner with an outline of 1: a press at the far edge of the screen hits it. */
  lemma CornerOutlineWraps()
    ensures var sc, a := Screen(9, 9), Area(1, -1, -1, 3, 3);
            Fits(sc, a) && Topmost(sc, [a], 8, 8) == Some(1) && TopmostDrawn([a], 8, 8) == None
  {
    var a := Area(1, -1, -1, 3, 3);
    assert [a][..0] == [];
  }

  /** list.remove(x): the first occurrence goes. */
  function WithoutFirst<T(==)>(xs: seq<T>, x: T): seq<T> {
    if xs == [] then [] else if xs[0] == x then xs[1..] else [xs[0]] + WithoutFirst(xs[1..], x)
  }

  function Entities(areas: seq<Area>): (es: seq<nat>)
    ensures |es| == |areas|
    ensures forall i {:trigger es[i]} :: 0 <= i < |areas| ==> es[i] == areas[i].entity
  {
    seq(|areas|, i requires 0 <= i < |areas| => areas[i].entity)
  }

  lemma {:induction false} CoverAppend(sc: Screen, areas: seq<Area>, a: Area, y: int, x: int)
    ensures Cover(sc, areas + [a], y, x) == Cover(sc, areas, y, x) + if Covers(sc, a, y, x) then [a.entity] else []
  {
    if areas == [] {
      assert areas + [a] == [a] && [a][1..] == [];
    } else {
      var rest := areas[1..];
      assert areas + [a] == [areas[0]] + (rest + [a]) && (areas + [a])[1..] == rest + [a];
      CoverAppend(sc, rest, a, y, x);
    }
  }

  lemma WithoutFirstCons<T>(x: T, xs: seq<T>, e: T)
    ensures WithoutFirst([x] + xs, e) == if x == e then xs else [x] + WithoutFirst(xs, e)
  {
    assert ([x] + xs)[1..] == xs;
  }

  /** The last entry of a cell is what the linear scan finds. */
  lemma {:induction false} LastIsTopmost(sc: Screen, areas: seq<Area>, y: int, x: int)
    ensures var c := Cover(sc, areas, y, x);
            Topmost(sc, areas, y, x) == if c == [] then None else Some(c[|c| - 1])
    decreases |areas|
  {
    if areas != [] {
      var init := areas[..|areas| - 1];
      assert areas == init + [areas[|areas| - 1]];
      CoverAppend(sc, init, areas[|areas| - 1], y, x);
      LastIsTopmost(sc, init, y, x);
    }
  }

  lemma {:induction false} CoverConcat(sc: Screen, a: seq<Area>, b: seq<Area>, y: int, x: int)
    ensures Cover(sc, a + b, y, x) == Cover(sc, a, y, x) + Cover(sc, b, y, x)
  {
    if b == [] {
      assert a + b == a && Cover(sc, a, y, x) + [] == Cover(sc, a, y, x);
    } else {
      var c := b[|b| - 1];
      assert a + b == (a + b[..|b| - 1]) + [c] && b == b[..|b| - 1] + [c];
      CoverConcat(sc, a, b[..|b| - 1], y, x);
      CoverAppend(sc, a + b[..|b| - 1], c, y, x);
      CoverAppend(sc, b[..|b| - 1], c, y, x);
    }
  }

  lemma CoverOne(sc: Screen, a: Area, y: int, x: int)
    ensures Cover(sc, [a], y, x) == if Covers(sc, a, y, x) then [a.entity] else []
  {
    assert [a][1..] == [];
  }

  /** From its first occurrence on, the list holds nothing but e. */
  predicate OnlyFrom(xs: seq<nat>, e: nat) {
    xs == [] || (if xs[0] == e then forall i :: 0 <= i < |xs| ==> xs[i] == e else OnlyFrom(xs[1..], e))
  }

  lemma SameEnds(a: seq<nat>, b: seq<nat>, ys: seq<nat>)
    requires |a| == |b|
    ensures a + ys == b + ys <==> a == b
  {
    assert (a + ys)[..|a|] == a && (b + ys)[..|b|] == b;
  }

  lemma SameHead(x: nat, a: seq<nat>, b: seq<nat>)
    ensures [x] + a == [x] + b <==> a == b
  {
    assert ([x] + a)[1..] == a && ([x] + b)[1..] == b;
  }

  lemma Rotated(xs: seq<nat>, e: nat)
    requires xs != [] && xs[0] == e
    ensures xs[1..] + [e] == xs <==> forall i :: 0 <= i < |xs| ==> xs[i] == e
  {
    if xs[1..] + [e] == xs {
      var i := 1;
      while i < |xs|
        invariant 1 <= i <= |xs| && forall j :: 0 <= j < i ==> xs[j] == e
      {
        assert xs[i - 1] == (xs[1..] + [e])[i - 1] == xs[i];
        i := i + 1;
      }
    }
  }

  lemma {:induction false} WithoutFirstBefore(xs: seq<nat>, e: nat, ys: seq<nat>)
    ensures WithoutFirst(xs + ([e] + ys), e) == xs + ys <==> OnlyFrom(xs, e)
  {
    var zs := [e] + ys;
    if xs == [] {
      assert xs + zs == zs && zs[1..] == ys && xs + ys == ys;
    } else {
      var rest := xs[1..];
      assert xs + zs == [xs[0]] + (rest + zs) && xs + ys == [xs[0]] + (rest + ys);
      WithoutFirstCons(xs[0], rest + zs, e);
      if xs[0] == e {
        assert rest + zs == (rest + [e]) + ys;
        SameEnds(rest + [e], xs, ys);
        Rotated(xs, e);
      } else {
        SameHead(xs[0], WithoutFirst(rest + zs, e), rest + ys);
        WithoutFirstBefore(rest, e, ys);
      }
    }
  }

  /**
   * Whatever is registered: removing an area from a cell by its entity removes that very
   * area exactly when no other entity lies between an older area of the same entity
   * and it.
   */
  lemma RemovalExactly(sc: Screen, areas: seq<Area>, k: nat, y: int, x: int)
    requires k < |areas| && Covers(sc, areas[k], y, x)
    ensures WithoutFirst(Cover(sc, areas, y, x), areas[k].entity) == Cover(sc, Removed(areas, k), y, x)
            <==> OnlyFrom(Cover(sc, areas[..k], y, x), areas[k].entity)
  {
    var below, above := areas[..k], areas[k + 1..];
    assert areas == below + ([areas[k]] + above);
    CoverConcat(sc, below, [areas[k]] + above, y, x);
    CoverConcat(sc, [areas[k]], above, y, x);
    CoverOne(sc, areas[k], y, x);
    CoverConcat(sc, below, above, y, x);
    WithoutFirstBefore(Cover(sc, below, y, x), areas[k].entity, Cover(sc, above, y, x));
  }

  lemma {:induction false} NotCovered(sc: Screen, areas: seq<Area>, e: nat, y: int, x: int)
    requires forall k :: 0 <= k < |areas| ==> areas[k].entity != e
    ensures e !in Cover(sc, areas, y, x)
  {
    if areas != [] {
      NotCovered(sc, areas[1..], e, y, x);
    }
  }

  lemma {:induction false} OnlyFromNowhere(xs: seq<nat>, e: nat)
    requires e !in xs
    ensures OnlyFrom(xs, e)
  {
    if xs != [] {
      OnlyFromNowhere(xs[1..], e);
    }
  }

  /** With one collider for each entity, removing it from a cell is removing its area. */
  lemma CoverRemoved(sc: Screen, areas: seq<Area>, k: nat, y: int, x: int)
    requires k < |areas| && Distinct(Entities(areas))
    ensures Cover(sc, Removed(areas, k), y, x)
            == var cell := Cover(sc, areas, y, x);
               if Covers(sc, areas[k], y, x) then WithoutFirst(cell, areas[k].entity) else cell
  {
    var e, below, above := areas[k].entity, areas[..k], areas[k + 1..];
    if Covers(sc, areas[k], y, x) {
      forall j | 0 <= j < k
        ensures below[j].entity != e
      {
        assert Entities(areas)[j] != Entities(areas)[k];
      }
      NotCovered(sc, below, e, y, x);
      OnlyFromNowhere(Cover(sc, below, y, x), e);
      RemovalExactly(sc, areas, k, y, x);
    } else {
      assert areas == below + ([areas[k]] + above);
      CoverConcat(sc, below, [areas[k]] + above, y, x);
      CoverConcat(sc, [areas[k]], above, y, x);
      CoverOne(sc, areas[k], y, x);
      CoverConcat(sc, below, above, y, x);
      assert [] + Cover(sc, above, y, x) == Cover(sc, above, y, x);
    }
  }

  /** Two colliders of one entity with another between them: the wrong occurrence goes. */
  lemma OneColliderEachNeeded(sc: Screen)
    ensures var areas := [Area(1, 0, 0, 1, 1), Area(2, 0, 0, 1, 1), Area(1, 0, 0, 1, 1)];
            Cover(sc, Removed(areas, 2), 0, 0) != WithoutFirst(Cover(sc, areas, 0, 0), 1)
  {
    var a, b := Area(1, 0, 0, 1, 1), Area(2, 0, 0, 1, 1);
    assert [a, b, a][..2] == [a] + [b];
    CoverOne(sc, a, 0, 0);
    CoverOne(sc, b, 0, 0);
    CoverConcat(sc, [a], [b], 0, 0);
    assert !OnlyFrom([1, 2], 1) by { assert [1, 2][1] == 2; }
    RemovalExactly(sc, [a, b, a], 2, 0, 0);
  }

  // ----- whole runs, at one point of the screen -----

  datatype Op =
    | Register(area: Area)
    | Unregister(entity: nat)
    | Reinitialize(area: Area)  // the collider at its new place

  /** The registered areas and the list of one cell. */
  datatype Index = Index(areas: seq<Area>, cell: seq<nat>)

  function PositionOf(areas: seq<Area>, entity: nat): (k: nat)
    ensures k <= |areas| && (k < |areas| ==> areas[k].entity == entity)
  {
    if areas == [] || areas[0].entity == entity then 0 else 1 + PositionOf(areas[1..], entity)
  }

  function Added(sc: Screen, s: Index, a: Area, y: int, x: int): Index {
    Index(s.areas + [a], if Covers(sc, a, y, x) then s.cell + [a.entity] else s.cell)
  }

  function Dropped(sc: Screen, s: Index, k: nat, y: int, x: int): Index
    requires k < |s.areas|
  {
    Index(Removed(s.areas, k),
          if Covers(sc, s.areas[k], y, x) then WithoutFirst(s.cell, s.areas[k].entity) else s.cell)
  }

  /**
   * register and unregister do nothing for a collider that is, or is not, registered;
   * reinitialize leaves it registered in any case.
   */
  function Apply(sc: Screen, s: Index, op: Op, y: int, x: int): Index {
    match op
    case Register(a) => if PositionOf(s.areas, a.entity) < |s.areas| then s else Added(sc, s, a, y, x)
    case Unregister(e) => DroppedIf(sc, s, e, y, x)
    case Reinitialize(a) => Added(sc, DroppedIf(sc, s, a.entity, y, x), a, y, x)
  }

  function DroppedIf(sc: Screen, s: Index, e: nat, y: int, x: int): Index {
    var k := PositionOf(s.areas, e);
    if k < |s.areas| then Dropped(sc, s, k, y, x) else s
  }

  function ApplyAll(sc: Screen, s: Index, ops: seq<Op>, y: int, x: int): Index
    decreases |ops|
  {
    if ops == [] then s else ApplyAll(sc, Apply(sc, s, ops[0], y, x), ops[1..], y, x)
  }

  /** The areas alone, which no point of the screen enters into. */
  function Arranged(areas: seq<Area>, op: Op): seq<Area> {
    Apply(Screen(0, 0), Index(areas, []), op, 0, 0).areas
  }

  function ArrangedAll(areas: seq<Area>, ops: seq<Op>): seq<Area>
    decreases |ops|
  {
    if ops == [] then areas else ArrangedAll(Arranged(areas, ops[0]), ops[1..])
  }

  lemma {:induction false} AreasOfApplyAll(sc: Screen, s: Index, ops: seq<Op>, y: int, x: int)
    ensures ApplyAll(sc, s, ops, y, x).areas == ArrangedAll(s.areas, ops)
    decreases |ops|
  {
    if ops != [] {
      AreasOfApplyAll(sc, Apply(sc, s, ops[0], y, x), ops[1..], y, x);
    }
  }

  ghost predicate Agrees(sc: Screen, s: Index, y: int, x: int) {
    Distinct(Entities(s.areas)) && s.cell == Cover(sc, s.areas, y, x)
  }

  lemma AddedAgrees(sc: Screen, s: Index, a: Area, y: int, x: int)
    requires Agrees(sc, s, y, x) && a.entity !in Entities(s.areas)
    ensures Agrees(sc, Added(sc, s, a, y, x), y, x)
  {
    CoverAppend(sc, s.areas, a, y, x);
    assert Entities(s.areas + [a]) == Entities(s.areas) + [a.entity];
  }

  lemma DroppedAgrees(sc: Screen, s: Index, k: nat, y: int, x: int)
    requires Agrees(sc, s, y, x) && k < |s.areas|
    ensures Agrees(sc, Dropped(sc, s, k, y, x), y, x)
    ensures s.areas[k].entity !in Entities(Removed(s.areas, k))
  {
    CoverRemoved(sc, s.areas, k, y, x);
    EntitiesRemoved(s.areas, k);
  }

  lemma EntitiesRemoved(areas: seq<Area>, k: nat)
    requires Distinct(Entities(areas)) && k < |areas|
    ensures Distinct(Entities(Removed(areas, k))) && areas[k].entity !in Entities(Removed(areas, k))
  {
    var es, rs := Entities(areas), Entities(Removed(areas, k));
    assert forall i :: 0 <= i < |rs| ==> rs[i] == es[if i < k then i else i + 1];
    assert es[k] == areas[k].entity;
  }

  lemma {:induction false} PositionFindsAll(areas: seq<Area>, e: nat)
    ensures PositionOf(areas, e) == |areas| <==> e !in Entities(areas)
  {
    if areas != [] {
      PositionFindsAll(areas[1..], e);
      assert Entities(areas) == [areas[0].entity] + Entities(areas[1..]);
    }
  }

  lemma ApplyAgrees(sc: Screen, s: Index, op: Op, y: int, x: int)
    requires Agrees(sc, s, y, x)
    ensures Agrees(sc, Apply(sc, s, op, y, x), y, x)
  {
    match op
    case Register(a) =>
      PositionFindsAll(s.areas, a.entity);
      if a.entity !in Entities(s.areas) { AddedAgrees(sc, s, a, y, x); }
    case Unregister(e) => DroppedIfAgrees(sc, s, e, y, x);
    case Reinitialize(a) =>
      DroppedIfAgrees(sc, s, a.entity, y, x);
      AddedAgrees(sc, DroppedIf(sc, s, a.entity, y, x), a, y, x);
  }

  lemma DroppedIfAgrees(sc: Screen, s: Index, e: nat, y: int, x: int)
    requires Agrees(sc, s, y, x)
    ensures Agrees(sc, DroppedIf(sc, s, e, y, x), y, x) && e !in Entities(DroppedIf(sc, s, e, y, x).areas)
  {
    PositionFindsAll(s.areas, e);
    if e in Entities(s.areas) { DroppedAgrees(sc, s, PositionOf(s.areas, e), y, x); }
  }

  /**
   * After any sequence of registrations and moves, the cell of every point lists
   * exactly the covering entities in order of their latest registration, and its
   * last entry is the topmost of them.
   */
  lemma {:induction false} IndexAgrees(sc: Screen, s: Index, ops: seq<Op>, y: int, x: int)
    requires Agrees(sc, s, y, x)
    ensures var r := ApplyAll(sc, s, ops, y, x);
            && r.cell == Cover(sc, r.areas, y, x)
            && Topmost(sc, r.areas, y, x) == (if r.cell == [] then None else Some(r.cell[|r.cell| - 1]))
    decreases |ops|
  {
    if ops == [] {
      LastIsTopmost(sc, s.areas, y, x);
    } else {
      ApplyAgrees(sc, s, ops[0], y, x);
      IndexAgrees(sc, Apply(sc, s, ops[0], y, x), ops[1..], y, x);
    }
  }

  // ----- the objects -----

  class ColliderComponent {
    const entity: nat
    const outline: int
    const height: int
    const width: int
    var startY: int
    var startX: int
    var registered: bool

    constructor (entity: nat, y: int, x: int, rows: int, cols: int, outline: int)
      ensures Value() == Area(entity, y - outline, x - outline, rows + 2 * outline, cols + 2 * outline)
      ensures this.outline == outline && !registered
    {
      this.entity, this.outline := entity, outline;
      height, width := rows + 2 * outline, cols + 2 * outline;
      startY, startX := y - outline, x - outline;
      registered := false;
    }

    ghost function Value(): Area
      reads this
    {
      At(startY, startX)
    }

    function At(y: int, x: int): Area {
      Area(entity, y, x, height, width)
    }
  }

  datatype Call =
    | RegisterIt(c: ColliderComponent)
    | UnregisterIt(c: ColliderComponent)
    | ReinitializeIt(c: ColliderComponent, y: int, x: int)  // the entity stands at (y, x) now
  {
    function NewArea(): Area
      requires ReinitializeIt?
    {
      c.At(y - c.outline, x - c.outline)
    }

    /** The operation on the areas, for a collider whose rectangle is `area` before the call. */
    function Operation(area: Area): Op {
      match this
      case RegisterIt(_) => Register(area)
      case UnregisterIt(_) => Unregister(c.entity)
      case ReinitializeIt(_, _, _) => Reinitialize(NewArea())
    }

    /** The collider's rectangle after the call. */
    function Place(area: Area): Area {
      if ReinitializeIt? then NewArea() else area
    }
  }

  /** The operations of some calls, for colliders that start out at these places. */
  function OpsOf(calls: seq<Call>, places: map<ColliderComponent, Area>): seq<Op>
    requires forall i :: 0 <= i < |calls| ==> calls[i].c in places
  {
    if calls == [] then []
    else
      var call := calls[0];
      [call.Operation(places[call.c])] + OpsOf(calls[1..], places[call.c := call.Place(places[call.c])])
  }

  lemma OpsOfNext(calls: seq<Call>, i: nat, places: map<ColliderComponent, Area>)
    requires i < |calls| && forall k :: 0 <= k < |calls| ==> calls[k].c in places
    ensures var call, ops := calls[i], OpsOf(calls[i..], places);
            && ops != [] && ops[0] == call.Operation(places[call.c])
            && ops[1..] == OpsOf(calls[i + 1..], places[call.c := call.Place(places[call.c])])
  {
    assert calls[i..][1..] == calls[i + 1..];
  }

  ghost predicate Placed(all: set<ColliderComponent>, places: map<ColliderComponent, Area>)
    reads all
  {
    forall c :: c in all ==> c in places && places[c] == c.Value()
  }

  /** The loops over an area have met the cell by turn (dy, dx). */
  predicate Met(sc: Screen, a: Area, y: int, x: int, dy: int, dx: int) {
    Covers(sc, a, y, x)
    && (Offset(y, a.y, sc.height) < dy || (Offset(y, a.y, sc.height) == dy && Offset(x, a.x, sc.width) < dx))
  }

  /** One turn of the inner loop meets one cell more, one that was not met before. */
  lemma MetNext(sc: Screen, a: Area, dy: int, dx: int)
    requires Fits(sc, a) && 0 <= dy < a.height && 0 <= dx < a.width
    ensures var y0, x0 := Wrap(a.y + dy, sc.height), Wrap(a.x + dx, sc.width);
            && 0 <= y0 < sc.height && 0 <= x0 < sc.width && !Met(sc, a, y0, x0, dy, dx)
            && forall y, x :: 0 <= y < sc.height && 0 <= x < sc.width ==>
                 (Met(sc, a, y, x, dy, dx + 1) <==> Met(sc, a, y, x, dy, dx) || (y == y0 && x == x0))
  {
    var y0, x0 := Wrap(a.y + dy, sc.height), Wrap(a.x + dx, sc.width);
    MeetsOnce(a.y, a.height, sc.height, dy, y0);
    MeetsOnce(a.x, a.width, sc.width, dx, x0);
    forall y, x | 0 <= y < sc.height && 0 <= x < sc.width
      ensures Met(sc, a, y, x, dy, dx + 1) <==> Met(sc, a, y, x, dy, dx) || (y == y0 && x == x0)
    {
      MeetsOnce(a.y, a.height, sc.height, dy, y);
      MeetsOnce(a.x, a.width, sc.width, dx, x);
    }
  }

  /** The end of a row. */
  lemma MetRow(sc: Screen, a: Area, dy: int)
    ensures forall y, x :: Met(sc, a, y, x, dy, a.width) <==> Met(sc, a, y, x, dy + 1, 0)
  {
  }

  ghost function Areas(cs: seq<ColliderComponent>): (areas: seq<Area>)
    reads cs
    ensures |areas| == |cs| && forall i {:trigger areas[i]} :: 0 <= i < |cs| ==> areas[i] == cs[i].Value()
  {
    seq(|cs|, i requires 0 <= i < |cs| reads cs => cs[i].Value())
  }

  class ColliderSystem {
    const matrix: array2<seq<nat>>
    var components: seq<ColliderComponent>

    constructor (height: nat, width: nat)
      ensures Valid() && components == [] && fresh(matrix)
      ensures matrix.Length0 == height && matrix.Length1 == width
    {
      matrix := new seq<nat>[height, width]((i, j) => []);
      components := [];
    }

    function Size(): Screen {
      Screen(matrix.Length0, matrix.Length1)
    }

    ghost predicate Inside(c: ColliderComponent)
      reads c
    {
      Fits(Size(), c.Value())
    }

    /** The matrix is the index of the listed areas. */
    ghost predicate Matched()
      reads this, matrix, components
    {
      && (forall i :: 0 <= i < |components| ==> Inside(components[i]))
      && (forall y, x :: 0 <= y < matrix.Length0 && 0 <= x < matrix.Length1 ==>
            matrix[y, x] == Cover(Size(), Areas(components), y, x))
    }

    ghost predicate Valid()
      reads this, matrix, components
    {
      && Matched()
      && Distinct(Entities(Areas(components)))
      && (forall i :: 0 <= i < |components| ==> components[i].registered)
    }

    /** Also when the entity has a collider already. */
    method AddComponent(comp: ColliderComponent)
      requires Matched() && Inside(comp)
      modifies this, matrix
      ensures Matched() && components == old(components) + [comp]
      ensures old(Distinct(Entities(Areas(components))) && comp.entity !in Entities(Areas(components)))
              ==> Distinct(Entities(Areas(components)))
    {
      ghost var areas, a := Areas(components), comp.Value();
      AppendCells(comp);
      components := components + [comp];
      assert Areas(components) == areas + [a];
      assert Entities(areas + [a]) == Entities(areas) + [a.entity];
      forall y, x | 0 <= y < matrix.Length0 && 0 <= x < matrix.Length1
        ensures matrix[y, x] == Cover(Size(), areas + [a], y, x)
      {
        CoverAppend(Size(), areas, a, y, x);
      }
    }

    /** The loops of add_component. */
    method AppendCells(comp: ColliderComponent)
      requires Inside(comp)
      modifies matrix
      ensures forall y, x :: 0 <= y < matrix.Length0 && 0 <= x < matrix.Length1 ==>
                matrix[y, x]
                == old(matrix[y, x]) + if Covers(Size(), comp.Value(), y, x) then [comp.entity] else []
    {
      ghost var sc, a := Size(), comp.Value();
      for dy := 0 to comp.height
        invariant forall y, x :: 0 <= y < matrix.Length0 && 0 <= x < matrix.Length1 ==>
                    matrix[y, x] == old(matrix[y, x]) + if Met(sc, a, y, x, dy, 0) then [comp.entity] else []
      {
        for dx := 0 to comp.width
          invariant forall y, x :: 0 <= y < matrix.Length0 && 0 <= x < matrix.Length1 ==>
                      matrix[y, x] == old(matrix[y, x]) + if Met(sc, a, y, x, dy, dx) then [comp.entity] else []
        {
          var y, x := Wrap(comp.startY + dy, matrix.Length0), Wrap(comp.startX + dx, matrix.Length1);
          MetNext(sc, a, dy, dx);
          matrix[y, x] := matrix[y, x] + [comp.entity];
        }
        MetRow(sc, a, dy);
      }
    }

    /** Also when the entity has other colliders; then the matrix need not match any more. */
    method RemoveComponent(ghost k: nat, comp: ColliderComponent)
      requires Matched() && k < |components| && comp == components[k]
      requires forall i :: 0 <= i < k ==> components[i] != comp
      modifies this, matrix
      ensures components == Removed(old(components), k) && forall i :: 0 <= i < |components| ==> Inside(components[i])
      ensures forall y, x :: 0 <= y < matrix.Length0 && 0 <= x < matrix.Length1 ==>
                matrix[y, x] == if Covers(Size(), comp.Value(), y, x) then WithoutFirst(old(matrix[y, x]), comp.entity)
                                else old(matrix[y, x])
      ensures old(Distinct(Entities(Areas(components)))) ==> Matched() && Distinct(Entities(Areas(components)))
    {
      ghost var sc, areas, cs := Size(), Areas(components), components;
      FirstIndex(components, comp, k);
      AreasOfRemoved(components, k);
      RemoveCells(comp);
      components := WithoutFirst(components, comp);
      assert forall i :: 0 <= i < |components| ==> components[i] == cs[if i < k then i else i + 1];
      if Distinct(Entities(areas)) {
        EntitiesRemoved(areas, k);
        forall y, x | 0 <= y < matrix.Length0 && 0 <= x < matrix.Length1
          ensures matrix[y, x] == Cover(sc, Removed(areas, k), y, x)
        {
          CoverRemoved(sc, areas, k, y, x);
        }
      }
    }

    /** The loops of remove_component. */
    method RemoveCells(comp: ColliderComponent)
      requires Inside(comp)
      modifies matrix
      ensures forall y, x :: 0 <= y < matrix.Length0 && 0 <= x < matrix.Length1 ==>
                matrix[y, x] == if Covers(Size(), comp.Value(), y, x) then WithoutFirst(old(matrix[y, x]), comp.entity)
                                else old(matrix[y, x])
    {
      ghost var sc, a := Size(), comp.Value();
      for dy := 0 to comp.height
        invariant forall y, x :: 0 <= y < matrix.Length0 && 0 <= x < matrix.Length1 ==>
                    matrix[y, x] == if Met(sc, a, y, x, dy, 0) then WithoutFirst(old(matrix[y, x]), comp.entity)
                                    else old(matrix[y, x])
      {
        for dx := 0 to comp.width
          invariant forall y, x :: 0 <= y < matrix.Length0 && 0 <= x < matrix.Length1 ==>
                      matrix[y, x] == if Met(sc, a, y, x, dy, dx) then WithoutFirst(old(matrix[y, x]), comp.entity)
                                      else old(matrix[y, x])
        {
          var y, x := Wrap(comp.startY + dy, matrix.Length0), Wrap(comp.startX + dx, matrix.Length1);
          MetNext(sc, a, dy, dx);
          matrix[y, x] := WithoutFirst(matrix[y, x], comp.entity);
        }
        MetRow(sc, a, dy);
      }
    }

    /** basic_component.register; an entity has one collider. */
    method Register(comp: ColliderComponent)
      requires Valid() && Inside(comp) && (comp.registered <==> comp in components)
      requires comp.registered || comp.entity !in Entities(Areas(components))
      modifies this, matrix, comp`registered
      ensures Valid() && comp in components && comp.registered && comp.Value() == old(comp.Value())
      ensures components == if old(comp.registered) then old(components) else old(components) + [comp]
      ensures Areas(components) == if old(comp.registered) then old(Areas(components))
                                   else old(Areas(components)) + [comp.Value()]
    {
      if !comp.registered {
        comp.registered := true;
        assert Areas(components) == old(Areas(components));
        AddComponent(comp);
        assert components[|components| - 1] == comp;
      }
    }

    /** basic_component.unregister. */
    method Unregister(ghost k: nat, comp: ColliderComponent)
      requires Valid() && (comp.registered <==> comp in components)
      requires comp.registered ==> k < |components| && components[k] == comp
      modifies this, matrix, comp`registered
      ensures Valid() && !comp.registered && comp !in components && comp.Value() == old(comp.Value())
      ensures old(comp.registered) ==> components == Removed(old(components), k)
      ensures old(comp.registered) ==> Areas(components) == Removed(old(Areas(components)), k)
      ensures old(comp.registered) ==> comp.entity !in Entities(Areas(components))
      ensures !old(comp.registered) ==> components == old(components) && Areas(components) == old(Areas(components))
    {
      if comp.registered {
        ghost var areas := Areas(components);
        EntitiesRemoved(areas, k);
        NotBefore(components, k);
        AreasOfRemoved(components, k);
        assert areas[k] == comp.Value();
        RemoveComponent(k, comp);
        assert Areas(components) == Removed(areas, k);
        NotListed(components, comp);
        comp.registered := false;
        assert Areas(components) == Removed(areas, k);
      }
    }

    /** Collider_component.reinitialize, with the entity's new position. */
    method Reinitialize(ghost k: nat, comp: ColliderComponent, y: int, x: int)
      requires Valid() && (comp.registered <==> comp in components)
      requires if comp.registered then k < |components| && components[k] == comp
               else comp.entity !in Entities(Areas(components))
      requires Fits(Size(), comp.At(y - comp.outline, x - comp.outline))
      modifies this, matrix, comp
      ensures Valid() && comp.registered
      ensures components == (if old(comp.registered) then Removed(old(components), k) else old(components)) + [comp]
      ensures comp.Value() == comp.At(y - comp.outline, x - comp.outline)
      ensures Areas(components)
              == (if old(comp.registered) then Removed(old(Areas(components)), k) else old(Areas(components)))
                 + [comp.Value()]
    {
      Unregister(k, comp);
      ghost var areas := Areas(components);
      comp.startY := y - comp.outline;
      comp.startX := x - comp.outline;
      assert Areas(components) == areas;
      Register(comp);
    }

    /** All colliders there are: one for each entity, their flags telling which are listed. */
    ghost predicate World(all: set<ColliderComponent>)
      reads this, all
    {
      && (forall c :: c in all ==> (c.registered <==> c in components))
      && (forall c :: c in components ==> c in all)
      && (forall c, d :: c in all && d in all && c.entity == d.entity ==> c == d)
    }

    /** One call of one of the three methods, for a collider whose rectangle is `area`. */
    method PerformAt(call: Call, ghost all: set<ColliderComponent>, ghost area: Area)
      requires Valid() && World(all) && call.c in all && call.c.Value() == area
      requires Fit([call.Operation(area)])
      modifies this, matrix, call.c
      ensures Valid() && World(all) && call.c.Value() == call.Place(area)
      ensures Areas(components) == Arranged(old(Areas(components)), call.Operation(area))
    {
      ghost var k := Place(all, call.c);
      assert [call.Operation(area)][0] == call.Operation(area);
      match call {
        case RegisterIt(comp) => Register(comp);
        case UnregisterIt(comp) => Unregister(k, comp);
        case ReinitializeIt(comp, y, x) => Reinitialize(k, comp, y, x);
      }
    }

    /** The same among colliders whose rectangles are known; the others keep theirs. */
    method Perform(call: Call, ghost all: set<ColliderComponent>, ghost places: map<ColliderComponent, Area>)
      requires Valid() && World(all) && Placed(all, places) && call.c in all
      requires Fit([call.Operation(places[call.c])])
      modifies this, matrix, all
      ensures Valid() && World(all) && Placed(all, places[call.c := call.Place(places[call.c])])
      ensures Areas(components) == Arranged(old(Areas(components)), call.Operation(places[call.c]))
    {
      PerformAt(call, all, places[call.c]);
    }

    predicate Fit(ops: seq<Op>) {
      forall k :: 0 <= k < |ops| && !ops[k].Unregister? ==> Fits(Size(), ops[k].area)
    }

    /** Any calls one after the other: the areas and every cell of the matrix follow the operations. */
    method PerformAll(calls: seq<Call>, ghost all: set<ColliderComponent>, ghost places: map<ColliderComponent, Area>)
      requires Valid() && World(all) && Placed(all, places)
      requires forall i :: 0 <= i < |calls| ==> calls[i].c in all
      requires Fit(OpsOf(calls, places))
      modifies this, matrix, all
      ensures Valid() && World(all)
      ensures Areas(components) == ArrangedAll(old(Areas(components)), OpsOf(calls, places))
      ensures forall y, x :: 0 <= y < matrix.Length0 && 0 <= x < matrix.Length1 ==>
                matrix[y, x]
                == ApplyAll(Size(), Index(old(Areas(components)), old(matrix[y, x])), OpsOf(calls, places), y, x).cell
    {
      ghost var ops, areas := OpsOf(calls, places), Areas(components);
      PerformCalls(calls, all, places);
      forall y, x | 0 <= y < matrix.Length0 && 0 <= x < matrix.Length1
        ensures matrix[y, x] == ApplyAll(Size(), Index(areas, old(matrix[y, x])), ops, y, x).cell
      {
        IndexAgrees(Size(), Index(areas, old(matrix[y, x])), ops, y, x);
        AreasOfApplyAll(Size(), Index(areas, old(matrix[y, x])), ops, y, x);
      }
    }

    method PerformCalls(calls: seq<Call>, ghost all: set<ColliderComponent>, ghost places: map<ColliderComponent, Area>)
      requires Valid() && World(all) && Placed(all, places)
      requires forall i :: 0 <= i < |calls| ==> calls[i].c in all
      requires Fit(OpsOf(calls, places))
      modifies this, matrix, all
      ensures Valid() && World(all)
      ensures Areas(components) == ArrangedAll(old(Areas(components)), OpsOf(calls, places))
    {
      ghost var now: map<ColliderComponent, Area>, rest := places, OpsOf(calls, places);
      ghost var final := ArrangedAll(Areas(components), rest);
      assert calls[0..] == calls;
      for i := 0 to |calls|
        invariant Valid() && World(all) && Placed(all, now)
        invariant rest == OpsOf(calls[i..], now) && Fit(rest)
        invariant ArrangedAll(Areas(components), rest) == final
      {
        OpsOfNext(calls, i, now);
        Perform(calls[i], all, now);
        now, rest := now[calls[i].c := calls[i].Place(now[calls[i].c])], rest[1..];
      }
    }

    /** Where a collider stands in the list, if it does. */
    lemma Place(all: set<ColliderComponent>, c: ColliderComponent) returns (k: nat)
      requires World(all) && c in all
      ensures k == PositionOf(Areas(components), c.entity)
      ensures if c in components then k < |components| && components[k] == c
              else k == |components| && c.entity !in Entities(Areas(components))
    {
      var areas := Areas(components);
      k := PositionOf(areas, c.entity);
      PositionFindsAll(areas, c.entity);
      if c in components {
        var i :| 0 <= i < |components| && components[i] == c;
        assert Entities(areas)[i] == c.entity;
      }
      if k < |areas| {
        assert components[k] in components && areas[k].entity == components[k].entity;
      }
    }

    /** The entity that a press at the point clicks. */
    method CheckClick(my: int, mx: int) returns (hit: Option<nat>)
      requires Valid() && 0 <= my < matrix.Length0 && 0 <= mx < matrix.Length1
      ensures hit == Topmost(Size(), Areas(components), my, mx)
    {
      LastIsTopmost(Size(), Areas(components), my, mx);
      var cell := matrix[my, mx];
      hit := if |cell| > 0 then Some(cell[|cell| - 1]) else None;
    }
  }

  lemma NotBefore(cs: seq<ColliderComponent>, k: nat)
    requires k < |cs| && Distinct(Entities(Areas(cs)))
    ensures forall i :: 0 <= i < k ==> cs[i] != cs[k]
  {
    var es := Entities(Areas(cs));
    forall i | 0 <= i < k
      ensures cs[i] != cs[k]
    {
      assert es[i] == cs[i].entity && es[k] == cs[k].entity;
    }
  }

  lemma AreasOfRemoved(cs: seq<ColliderComponent>, k: nat)
    requires k < |cs|
    ensures Areas(Removed(cs, k)) == Removed(Areas(cs), k)
  {
    var rs := Removed(cs, k);
    assert forall i :: 0 <= i < |rs| ==> rs[i] == cs[if i < k then i else i + 1];
  }

  lemma NotListed(cs: seq<ColliderComponent>, c: ColliderComponent)
    requires c.entity !in Entities(Areas(cs))
    ensures c !in cs
  {
    forall i | 0 <= i < |cs|
      ensures cs[i] != c
    {
      assert Entities(Areas(cs))[i] == Areas(cs)[i].entity;
    }
  }

  lemma {:induction false} FirstIndex<T>(xs: seq<T>, x: T, k: nat)
    requires k < |xs| && xs[k] == x && forall i :: 0 <= i < k ==> xs[i] != x
    ensures WithoutFirst(xs, x) == Removed(xs, k)
  {
    if k > 0 {
      FirstIndex(xs[1..], x, k - 1);
      assert Removed(xs, k) == [xs[0]] + Removed(xs[1..], k - 1);
    }
  }
}
