/**
 * Choosing the next gaming domain to boot (server/hypervisor.py).
 *
 * Gaming domains are named g0, g1, ... and the list of running ones is kept
 * sorted by name, which is the order of the numbers only below g10.
 */
module GamingNames {
  import opened Text

  function IndexName(i: nat): string {
    "g" + Decimal(i)
  }

  /** int(name[1:]); None stands for the ValueError. */
  function IndexOf(name: string): Option<int> {
    PyInt(if name == "" then "" else name[1..])
  }

  datatype Choice =
    | Enough              // DomainError: as many gaming domains run as there are users
    | Boot(name: string)  // the domain to start
    | NoneDown            // DomainError: every gaming domain runs
    | BadName             // ValueError of int()

  /** The scan of the sorted names, with i names already matched. */
  function Scan(names: seq<string>, i: nat, maxGaming: int): (c: Choice)
    ensures !c.Enough?
  {
    if names == [] then
      if i < maxGaming then Boot(IndexName(i)) else NoneDown
    else
      match IndexOf(names[0])
      case None => BadName
      case Some(n) => if n != i then Boot(IndexName(i)) else Scan(names[1..], i + 1, maxGaming)
  }

  function FindDown(names: seq<string>, maxGaming: int, userCount: int): Choice {
    if userCount <= |names| then Enough else Scan(names, 0, maxGaming)
  }

  /** The scan as the source runs it. */
  method FindGamingDomainDown(names: seq<string>, maxGaming: int, userCount: int) returns (c: Choice)
    ensures c == FindDown(names, maxGaming, userCount)
  {
    if userCount <= |names| {
      return Enough;
    }
    var i := 0;
    assert names[0..] == names;
    for k := 0 to |names|
      invariant i == k
      invariant FindDown(names, maxGaming, userCount) == Scan(names[k..], i, maxGaming)
    {
      assert names[k..][1..] == names[k + 1..];
      match IndexOf(names[k]) {
        case None => return BadName;
        case Some(num) =>
          if num != i {
            return Boot(IndexName(i));
          }
          i := i + 1;
      }
    }
    if i < maxGaming {
      return Boot(IndexName(i));
    }
    return NoneDown;
  }

  /** int() fails exactly where the list starts with g0, g1, ... up to a name that is no index. */
  ghost predicate MeetsForeignName(names: seq<string>) {
    exists k :: 0 <= k < |names| && IndexOf(names[k]) == None
                && forall j :: 0 <= j < k ==> IndexOf(names[j]) == Some(j)
  }

  lemma {:induction false} ScanMeetsBadName(names: seq<string>, i: nat, maxGaming: int)
    requires i <= |names| && forall j :: 0 <= j < i ==> IndexOf(names[j]) == Some(j)
    ensures Scan(names[i..], i, maxGaming) == BadName <==> MeetsForeignName(names)
    decreases |names| - i
  {
    if i < |names| {
      assert names[i..][1..] == names[i + 1..];
      if IndexOf(names[i]) == Some(i) {
        ScanMeetsBadName(names, i + 1, maxGaming);
      }
    }
  }

  lemma BadNameExactly(names: seq<string>, maxGaming: int, userCount: int)
    ensures FindDown(names, maxGaming, userCount) == BadName <==> userCount > |names| && MeetsForeignName(names)
  {
    assert names[0..] == names;
    ScanMeetsBadName(names, 0, maxGaming);
  }

  /** The list starts with g0, g1, ... up to a name of another index, and the one skipped is listed all the same. */
  ghost predicate SkipsListed(names: seq<string>) {
    exists k :: 0 <= k < |names| && IndexName(k) in names
                && IndexOf(names[k]) != None && IndexOf(names[k]) != Some(k)
                && forall j :: 0 <= j < k ==> IndexOf(names[j]) == Some(j)
  }

  predicate PicksListed(names: seq<string>, c: Choice) {
    c.Boot? && c.name in names
  }

  lemma {:induction false} ScanPicksListed(names: seq<string>, i: nat, maxGaming: int)
    requires i <= |names| && forall j :: 0 <= j < i ==> IndexOf(names[j]) == Some(j)
    ensures PicksListed(names, Scan(names[i..], i, maxGaming)) <==> SkipsListed(names)
    decreases |names| - i
  {
    if i < |names| {
      assert names[i..][1..] == names[i + 1..];
      if IndexOf(names[i]) == Some(i) {
        ScanPicksListed(names, i + 1, maxGaming);
      }
    } else if IndexName(i) in names {
      var j :| 0 <= j < |names| && names[j] == IndexName(i);
      IndexOfIndexName(i);
      assert false;
    }
  }

  /** A listed domain is chosen exactly for those lists, when users outnumber domains. */
  lemma PicksListedExactly(names: seq<string>, maxGaming: int, userCount: int)
    ensures PicksListed(names, FindDown(names, maxGaming, userCount))
            <==> userCount > |names| && SkipsListed(names)
  {
    assert names[0..] == names;
    ScanPicksListed(names, 0, maxGaming);
  }

  /** A domain called g-1 is taken for a number other than 0, and g0 is booted. */
  lemma SignsAreNumbers(maxGaming: int)
    ensures FindDown(["g-1"], maxGaming, 2) == Boot("g0")
  {
    assert "g-1"[1..] == Printed(-1) by { assert Decimal(1) == "1"; }
    PyIntOfPrinted(-1);
    assert IndexName(0) == "g0" by { assert Decimal(0) == "0"; }
  }

  // ----- when the scan finds the least free index -----

  ghost predicate IndexBelow(name: string, maxGaming: nat) {
    exists n: nat :: n < maxGaming && name == IndexName(n)
  }

  /** Only g0 .. g(maxGaming-1) are listed, each once, in the list's order. */
  ghost predicate Indexed(names: seq<string>, maxGaming: nat) {
    && Sorted(names)
    && Distinct(names)
    && forall k :: 0 <= k < |names| ==> IndexBelow(names[k], maxGaming)
  }

  ghost predicate LeastFree(names: seq<string>, name: string, maxGaming: nat) {
    exists m: nat :: m < maxGaming && name == IndexName(m) && name !in names
                     && forall k: nat :: k < m ==> IndexName(k) in names
  }

  ghost predicate FindsLeastFree(names: seq<string>, maxGaming: nat, userCount: nat) {
    var c := FindDown(names, maxGaming, userCount);
    c.Boot? && LeastFree(names, c.name, maxGaming)
  }

  ghost predicate ScansIndexedLists(maxGaming: nat) {
    forall names: seq<string>, userCount: nat ::
      Indexed(names, maxGaming) && |names| < userCount <= maxGaming
      ==> FindsLeastFree(names, maxGaming, userCount)
  }

  lemma IndexOfIndexName(i: nat)
    ensures IndexOf(IndexName(i)) == Some(i)
  {
    assert IndexName(i)[1..] == Printed(i);
    PyIntOfPrinted(i);
  }

  lemma IndexNameInjective(i: nat, j: nat)
    requires IndexName(i) == IndexName(j)
    ensures i == j
  {
    IndexOfIndexName(i);
    IndexOfIndexName(j);
  }

  lemma IndexNamesDiffer(i: nat, j: nat)
    requires i != j
    ensures IndexName(i) != IndexName(j)
  {
    if IndexName(i) == IndexName(j) {
      IndexNameInjective(i, j);
    }
  }

  /** One-digit names are ordered as their numbers are. */
  lemma OneDigitOrder(i: nat, j: nat)
    requires i < 10 && j < 10
    ensures Less(IndexName(i), IndexName(j)) <==> i < j
  {
    assert IndexName(i)[1..] == [DigitChar(i)];
    assert IndexName(j)[1..] == [DigitChar(j)];
    assert Less([DigitChar(i)], [DigitChar(j)]) <==> i < j by {
      assert [DigitChar(i)][1..] == "" && [DigitChar(j)][1..] == "";
    }
    assert IndexName(i)[0] == IndexName(j)[0] == 'g';
  }

  lemma ScanAt(names: seq<string>, i: nat, n: nat, maxGaming: int)
    requires i < |names| && names[i] == IndexName(n)
    ensures Scan(names[i..], i, maxGaming)
            == if n == i then Scan(names[i + 1..], i + 1, maxGaming) else Boot(IndexName(i))
  {
    IndexOfIndexName(n);
    assert names[i..][1..] == names[i + 1..];
  }

  lemma {:induction false} ScanFindsLeastFree(names: seq<string>, i: nat, maxGaming: nat)
    requires Indexed(names, maxGaming) && maxGaming <= 10
    requires i <= |names| < maxGaming
    requires forall k :: 0 <= k < i ==> names[k] == IndexName(k)
    ensures Scan(names[i..], i, maxGaming).Boot?
    ensures LeastFree(names, Scan(names[i..], i, maxGaming).name, maxGaming)
    decreases |names| - i
  {
    if i == |names| {
      assert IndexName(i) !in names by {
        if IndexName(i) in names {
          var k :| 0 <= k < |names| && names[k] == IndexName(i);
          IndexNameInjective(i, k);
        }
      }
    } else {
      var n: nat :| n < maxGaming && names[i] == IndexName(n);
      ScanAt(names, i, n, maxGaming);
      if n == i {
        ScanFindsLeastFree(names, i + 1, maxGaming);
      } else {
        NotListed(names, i, n, maxGaming);
      }
    }
  }

  /** Past the first mismatch every name is above the skipped index. */
  lemma NotListed(names: seq<string>, i: nat, n: nat, maxGaming: nat)
    requires Indexed(names, maxGaming) && maxGaming <= 10
    requires i < |names| && n < maxGaming && n != i
    requires forall k :: 0 <= k < i ==> names[k] == IndexName(k)
    requires names[i] == IndexName(n)
    ensures i < maxGaming && IndexName(i) !in names
  {
    assert n > i;
    if IndexName(i) in names {
      var k :| 0 <= k < |names| && names[k] == IndexName(i);
      if k < i {
        IndexNameInjective(i, k);
      } else if k == i {
        IndexNameInjective(i, n);
      } else {
        OneDigitOrder(i, n);
      }
      assert false;
    }
  }

  /** With at most ten gaming domains the scan boots the least index not running. */
  lemma BootsLeastFree(names: seq<string>, maxGaming: nat, userCount: nat)
    requires Indexed(names, maxGaming) && maxGaming <= 10
    requires |names| < userCount <= maxGaming
    ensures FindsLeastFree(names, maxGaming, userCount)
  {
    assert names[0..] == names;
    ScanFindsLeastFree(names, 0, maxGaming);
  }

  /**
   * Ten is exact: from eleven gaming domains on, "g10" sorts before "g2" and the
   * scan can name a domain that is listed already.
   */
  lemma LeastFreeExactly(maxGaming: nat)
    ensures ScansIndexedLists(maxGaming) <==> maxGaming <= 10
  {
    if maxGaming <= 10 {
      forall names: seq<string>, userCount: nat | Indexed(names, maxGaming) && |names| < userCount <= maxGaming
        ensures FindsLeastFree(names, maxGaming, userCount)
      {
        BootsLeastFree(names, maxGaming, userCount);
      }
    } else {
      TenSortsBeforeTwo(maxGaming);
    }
  }

  lemma TenSortsBeforeTwo(maxGaming: nat)
    requires maxGaming > 10
    ensures var names := ["g0", "g1", "g10", "g2"];
            Indexed(names, maxGaming) && FindDown(names, maxGaming, 5) == Boot("g2")
            && !FindsLeastFree(names, maxGaming, 5)
  {
    var names := ["g0", "g1", "g10", "g2"];
    SmallNames();
    FourIndexed(names, maxGaming);
    PicksTwo(names, maxGaming);
    assert names[3] == "g2";
  }

  lemma FourIndexed(names: seq<string>, maxGaming: nat)
    requires maxGaming > 10 && names == ["g0", "g1", "g10", "g2"]
    ensures Indexed(names, maxGaming)
  {
    SmallNames();
    SmallOrder();
    assert names[0] == IndexName(0) && names[1] == IndexName(1);
    assert names[2] == IndexName(10) && names[3] == IndexName(2);
    FourDistinct(names);
  }

  lemma FourDistinct(names: seq<string>)
    requires |names| == 4 && names[0] == IndexName(0) && names[1] == IndexName(1)
    requires names[2] == IndexName(10) && names[3] == IndexName(2)
    ensures Distinct(names)
  {
    IndexNamesDiffer(0, 1);
    IndexNamesDiffer(0, 10);
    IndexNamesDiffer(0, 2);
    IndexNamesDiffer(1, 10);
    IndexNamesDiffer(1, 2);
    IndexNamesDiffer(10, 2);
  }

  lemma PicksTwo(names: seq<string>, maxGaming: nat)
    requires |names| == 4 && names[0] == IndexName(0) && names[1] == IndexName(1) && names[2] == IndexName(10)
    ensures FindDown(names, maxGaming, 5) == Boot(IndexName(2))
  {
    assert names[0..] == names;
    ScanAt(names, 0, 0, maxGaming);
    ScanAt(names, 1, 1, maxGaming);
    ScanAt(names, 2, 10, maxGaming);
  }

  lemma SmallNames()
    ensures IndexName(0) == "g0" && IndexName(1) == "g1" && IndexName(2) == "g2" && IndexName(10) == "g10"
  {
    assert Decimal(0) == "0" && Decimal(1) == "1" && Decimal(2) == "2";
    assert Decimal(10) == Decimal(1) + "0";
  }

  lemma SmallOrder()
    ensures !Less("g1", "g0") && !Less("g10", "g0") && !Less("g2", "g0")
    ensures !Less("g10", "g1") && !Less("g2", "g1") && !Less("g2", "g10")
  {
    assert "g0"[1..] == "0" && "g1"[1..] == "1" && "g10"[1..] == "10" && "g2"[1..] == "2";
    assert "1"[1..] == "" && "10"[1..] == "0";
  }
}
