/** Strings as the C library and Python's str order and number them. */
module Text {

  datatype Option<+T> = None | Some(value: T)

  // ----- lexicographic order on code points (Python's str.__lt__) -----

  predicate Less(a: string, b: string) {
    b != "" && (a == "" || a[0] < b[0] || (a[0] == b[0] && Less(a[1..], b[1..])))
  }

  lemma {:induction false} LessTransitive(a: string, b: string, c: string)
    requires Less(a, b) && Less(b, c)
    ensures Less(a, c)
  {
    if a != "" && a[0] == b[0] == c[0] {
      LessTransitive(a[1..], b[1..], c[1..]);
    }
  }

  lemma {:induction false} LessTotal(a: string, b: string)
    ensures Less(a, b) || a == b || Less(b, a)
  {
    if a != "" && b != "" && a[0] == b[0] {
      LessTotal(a[1..], b[1..]);
      if a[1..] == b[1..] {
        assert a == [a[0]] + a[1..];
        assert b == [b[0]] + b[1..];
      }
    }
  }

  lemma {:induction false} LessAsymmetric(a: string, b: string)
    requires Less(a, b)
    ensures !Less(b, a)
  {
    if a != "" && a[0] == b[0] {
      LessAsymmetric(a[1..], b[1..]);
    }
  }

  /** Strings are compared at the first character in which they differ; a prefix comes first. */
  lemma {:induction false} LessAtDifference(a: string, b: string, k: nat)
    requires k <= |a| && k <= |b| && a[..k] == b[..k]
    ensures k < |a| && k < |b| && a[k] < b[k] ==> Less(a, b) && !Less(b, a)
    ensures k == |a| < |b| ==> Less(a, b) && !Less(b, a)
    ensures k == |a| == |b| ==> !Less(a, b)
  {
    if k > 0 {
      assert a[0] == a[..k][0] == b[..k][0] == b[0];
      assert a[1..][..k - 1] == a[..k][1..] == b[..k][1..] == b[1..][..k - 1];
      LessAtDifference(a[1..], b[1..], k - 1);
    }
  }

  /** Nondecreasing, as a list kept by bisect.insort_right is. */
  predicate Sorted(names: seq<string>) {
    forall i, j :: 0 <= i < j < |names| ==> !Less(names[j], names[i])
  }

  predicate Distinct<T(==)>(xs: seq<T>) {
    forall i, j :: 0 <= i < j < |xs| ==> xs[i] != xs[j]
  }

  /** Where bisect.insort_right puts `key`: the end of its binary search. */
  function InsertPos(names: seq<string>, key: string): (p: nat)
    ensures p <= |names|
  {
    BisectRight(names, key, 0, |names|)
  }

  function BisectRight(names: seq<string>, key: string, lo: nat, hi: nat): (p: nat)
    requires lo <= hi <= |names|
    ensures lo <= p <= hi
    decreases hi - lo
  {
    if lo == hi then lo
    else
      var mid := (lo + hi) / 2;
      if Less(key, names[mid]) then BisectRight(names, key, lo, mid) else BisectRight(names, key, mid + 1, hi)
  }

  function Inserted<T>(xs: seq<T>, p: nat, x: T): (ys: seq<T>)
    requires p <= |xs|
    ensures |ys| == |xs| + 1
  {
    xs[..p] + [x] + xs[p..]
  }

  function Removed<T>(xs: seq<T>, p: nat): (ys: seq<T>)
    requires p < |xs|
    ensures |ys| == |xs| - 1
  {
    xs[..p] + xs[p + 1..]
  }

  /** In a sorted list whatever is above one element is above those before it. */
  lemma AboveAll(names: seq<string>, key: string, mid: nat)
    requires Sorted(names) && mid < |names|
    ensures !Less(key, names[mid]) ==> forall i :: 0 <= i <= mid ==> !Less(key, names[i])
    ensures Less(key, names[mid]) ==> forall i :: mid <= i < |names| ==> Less(key, names[i])
  {
    forall i | 0 <= i < mid && Less(key, names[i])
      ensures Less(key, names[mid])
    {
      LessTotal(names[i], names[mid]);
      if names[i] != names[mid] {
        LessTransitive(key, names[i], names[mid]);
      }
    }
    forall i | mid < i < |names| && Less(key, names[mid])
      ensures Less(key, names[i])
    {
      LessTotal(names[mid], names[i]);
      if names[mid] != names[i] {
        LessTransitive(key, names[mid], names[i]);
      }
    }
  }

  lemma {:induction false} BisectRightIsBetween(names: seq<string>, key: string, lo: nat, hi: nat)
    requires Sorted(names) && lo <= hi <= |names|
    requires forall i :: 0 <= i < lo ==> !Less(key, names[i])
    requires forall i :: hi <= i < |names| ==> Less(key, names[i])
    ensures var p := BisectRight(names, key, lo, hi);
            && (forall i :: 0 <= i < p ==> !Less(key, names[i]))
            && (forall i :: p <= i < |names| ==> Less(key, names[i]))
    decreases hi - lo
  {
    if lo < hi {
      var mid := (lo + hi) / 2;
      AboveAll(names, key, mid);
      if Less(key, names[mid]) {
        BisectRightIsBetween(names, key, lo, mid);
      } else {
        BisectRightIsBetween(names, key, mid + 1, hi);
      }
    }
  }

  /** On a sorted list that is behind every element not above `key`, and before all others. */
  lemma InsertPosIsBetween(names: seq<string>, key: string)
    requires Sorted(names)
    ensures var p := InsertPos(names, key);
            && (forall i :: 0 <= i < p ==> !Less(key, names[i]))
            && (forall i :: p <= i < |names| ==> Less(key, names[i]))
  {
    BisectRightIsBetween(names, key, 0, |names|);
  }

  lemma InsertKeepsSorted(names: seq<string>, key: string)
    requires Sorted(names)
    ensures Sorted(Inserted(names, InsertPos(names, key), key))
  {
    var p := InsertPos(names, key);
    var r := Inserted(names, p, key);
    InsertPosIsBetween(names, key);
    forall i, j | 0 <= i < j < |r|
      ensures !Less(r[j], r[i])
    {
      if i == p {
        assert r[j] == names[j - 1];
        LessAsymmetric(key, names[j - 1]);
      } else if j == p {
        assert r[i] == names[i];
      }
    }
  }

  // ----- lists built at their head -----

  function Reversed<T>(xs: seq<T>): (r: seq<T>)
    ensures |r| == |xs|
  {
    if xs == [] then [] else Reversed(xs[1..]) + [xs[0]]
  }

  lemma {:induction false} ReversedAppend<T>(xs: seq<T>, x: T)
    ensures Reversed(xs + [x]) == [x] + Reversed(xs)
  {
    if xs == [] {
      assert xs + [x] == [x];
    } else {
      assert (xs + [x])[1..] == xs[1..] + [x];
      ReversedAppend(xs[1..], x);
    }
  }

  lemma {:induction false} ReversedTwice<T>(xs: seq<T>)
    ensures Reversed(Reversed(xs)) == xs
  {
    if xs != [] {
      ReversedTwice(xs[1..]);
      ReversedAppend(Reversed(xs[1..]), xs[0]);
    }
  }

  // ----- decimal integers: str(), printf %d, scanf %d, atoi -----

  predicate IsDigit(c: char) { '0' <= c <= '9' }

  predicate IsSpace(c: char) {
    c == ' ' || '\t' <= c <= '\r'
  }

  function DigitChar(d: nat): (c: char)
    requires d < 10
    ensures IsDigit(c) && DigitValue(c) == d
  {
    '0' + d as char
  }

  function DigitValue(c: char): (d: nat)
    requires IsDigit(c)
    ensures d < 10
  {
    (c - '0') as int
  }

  function Decimal(n: nat): (s: string)
    ensures s != "" && forall i :: 0 <= i < |s| ==> IsDigit(s[i])
  {
    (if n < 10 then "" else Decimal(n / 10)) + [DigitChar(n % 10)]
  }

  function Printed(n: int): string {
    if n < 0 then "-" + Decimal(-n) else Decimal(n)
  }

  function DigitRun(s: string): (n: nat)
    ensures n <= |s|
    ensures forall i :: 0 <= i < n ==> IsDigit(s[i])
    ensures n < |s| ==> !IsDigit(s[n])
  {
    if s == "" || !IsDigit(s[0]) then 0 else 1 + DigitRun(s[1..])
  }

  function Value(s: string): nat
    requires forall i :: 0 <= i < |s| ==> IsDigit(s[i])
  {
    if s == "" then 0 else 10 * Value(s[..|s| - 1]) + DigitValue(s[|s| - 1])
  }

  function SkipSpace(s: string): string {
    if s != "" && IsSpace(s[0]) then SkipSpace(s[1..]) else s
  }

  datatype Scanned = NoInt | Int(value: int, rest: string)

  /** The unsigned number a string starts with. */
  function ScanDigits(s: string): Scanned {
    var n := DigitRun(s);
    if n == 0 then NoInt else Int(Value(s[..n]), s[n..])
  }

  /** The conversion %d of scanf: blanks, an optional sign, at least one digit. */
  function ScanInt(s: string): Scanned {
    var t := SkipSpace(s);
    if t != "" && t[0] == '-' then
      match ScanDigits(t[1..])
      case NoInt => NoInt
      case Int(v, rest) => Int(-v, rest)
    else if t != "" && t[0] == '+' then ScanDigits(t[1..])
    else ScanDigits(t)
  }

  /** atoi: like %d, but 0 where there is no number. */
  function Atoi(s: string): int {
    match ScanInt(s)
    case NoInt => 0
    case Int(v, _) => v
  }

  // ----- int() of Python -----

  function StripRight(s: string): string {
    if s != "" && IsSpace(s[|s| - 1]) then StripRight(s[..|s| - 1]) else s
  }

  /** Digits, between any two of which one underscore may stand. */
  predicate Grouped(s: string) {
    s != "" && IsDigit(s[0])
    && (|s| == 1 || (if s[1] == '_' then Grouped(s[2..]) else Grouped(s[1..])))
  }

  function Ungrouped(s: string): (r: string)
    requires Grouped(s)
    ensures forall i :: 0 <= i < |r| ==> IsDigit(r[i])
  {
    if |s| == 1 then s
    else [s[0]] + if s[1] == '_' then Ungrouped(s[2..]) else Ungrouped(s[1..])
  }

  function UnsignedInt(s: string): Option<int> {
    if Grouped(s) then Some(Value(Ungrouped(s))) else None
  }

  function SignedInt(s: string): Option<int> {
    if s != "" && s[0] == '-' then
      match UnsignedInt(s[1..])
      case None => None
      case Some(n) => Some(-n)
    else if s != "" && s[0] == '+' then UnsignedInt(s[1..])
    else UnsignedInt(s)
  }

  /** Blanks around an optional sign and grouped digits; None stands for the ValueError. */
  function PyInt(s: string): Option<int> {
    SignedInt(StripRight(SkipSpace(s)))
  }

  lemma {:induction false} GroupedDigits(s: string)
    requires s != "" && forall i :: 0 <= i < |s| ==> IsDigit(s[i])
    ensures Grouped(s) && Ungrouped(s) == s
  {
    if |s| > 1 {
      GroupedDigits(s[1..]);
      assert s == [s[0]] + s[1..];
    }
  }

  lemma NothingToStrip(s: string)
    requires s != "" && !IsSpace(s[0]) && !IsSpace(s[|s| - 1])
    ensures StripRight(SkipSpace(s)) == s
  {
  }

  lemma UnsignedDecimal(n: nat)
    ensures UnsignedInt(Decimal(n)) == Some(n)
  {
    GroupedDigits(Decimal(n));
    ValueOfDecimal(n);
  }

  lemma SignedMinus(u: string)
    ensures SignedInt("-" + u) == match UnsignedInt(u) case None => None case Some(n) => Some(-n)
  {
    assert ("-" + u)[1..] == u;
  }

  lemma SignedPlain(u: string)
    requires u != "" && IsDigit(u[0])
    ensures SignedInt(u) == UnsignedInt(u)
  {
  }

  lemma SignedPrinted(n: int)
    ensures SignedInt(Printed(n)) == Some(n)
  {
    if n < 0 {
      UnsignedDecimal(-n);
      SignedMinus(Decimal(-n));
    } else {
      UnsignedDecimal(n);
      SignedPlain(Decimal(n));
    }
  }

  /** int() of a printed number is that number. */
  lemma PyIntOfPrinted(n: int)
    ensures PyInt(Printed(n)) == Some(n)
  {
    NothingToStrip(Printed(n));
    SignedPrinted(n);
  }

  lemma {:induction false} BackStripped(t: string, back: string)
    requires t != "" && !IsSpace(t[|t| - 1]) && forall i :: 0 <= i < |back| ==> IsSpace(back[i])
    ensures StripRight(t + back) == t
    decreases |back|
  {
    if back == "" {
      assert t + back == t;
    } else {
      assert (t + back)[..|t + back| - 1] == t + back[..|back| - 1];
      BackStripped(t, back[..|back| - 1]);
    }
  }

  /** Blanks around the number do not matter. */
  lemma PyIntStrips(front: string, t: string, back: string)
    requires t != "" && !IsSpace(t[0]) && !IsSpace(t[|t| - 1])
    requires forall i :: 0 <= i < |front| ==> IsSpace(front[i])
    requires forall i :: 0 <= i < |back| ==> IsSpace(back[i])
    ensures PyInt(front + (t + back)) == SignedInt(t)
  {
    BlanksSkipped(front, t + back);
    BackStripped(t, back);
  }

  /** Nor do single underscores inside. */
  lemma UnderscoreIsSkipped()
    ensures SignedInt("+1_0") == Some(10)
  {
    assert "+1_0"[1..] == "1_0" && "1_0"[2..] == "0";
    assert "10"[..1] == "1" && "1"[..0] == "" && Value("1") == 1;
  }

  /** Underscores at an end or next to each other are not, nor a blank behind the sign. */
  lemma PyIntRefuses()
    ensures PyInt("1__0") == None && PyInt("1_") == None && PyInt("_1") == None
    ensures PyInt("- 1") == None && PyInt("x") == None && PyInt("") == None
  {
    NothingToStrip("1__0");
    NothingToStrip("1_");
    NothingToStrip("_1");
    NothingToStrip("- 1");
    NothingToStrip("x");
    assert "1__0"[2..] == "_0" && "- 1"[1..] == " 1";
  }

  lemma {:induction false} ValueOfDecimal(n: nat)
    ensures Value(Decimal(n)) == n
  {
    var s := Decimal(n);
    if n < 10 {
      assert s[..|s| - 1] == "";
    } else {
      ValueOfDecimal(n / 10);
      assert s[..|s| - 1] == Decimal(n / 10);
    }
  }

  lemma {:induction false} DigitRunStops(digits: string, rest: string)
    requires forall i :: 0 <= i < |digits| ==> IsDigit(digits[i])
    requires rest != "" ==> !IsDigit(rest[0])
    ensures DigitRun(digits + rest) == |digits|
  {
    if digits == "" {
      assert digits + rest == rest;
    } else {
      assert (digits + rest)[1..] == digits[1..] + rest;
      DigitRunStops(digits[1..], rest);
    }
  }

  lemma ScanDecimal(n: nat, rest: string)
    requires rest != "" ==> !IsDigit(rest[0])
    ensures ScanDigits(Decimal(n) + rest) == Int(n, rest)
  {
    var digits := Decimal(n);
    DigitRunStops(digits, rest);
    assert (digits + rest)[..|digits|] == digits && (digits + rest)[|digits|..] == rest;
    ValueOfDecimal(n);
  }

  lemma ScanUnsigned(s: string)
    requires s != "" && IsDigit(s[0])
    ensures ScanInt(s) == ScanDigits(s)
  {
  }

  lemma ScanNegative(u: string)
    ensures ScanInt("-" + u) == match ScanDigits(u) case NoInt => NoInt case Int(v, rest) => Int(-v, rest)
  {
    assert ("-" + u)[1..] == u;
  }

  lemma ScanMinus(n: int, rest: string)
    requires n > 0 && (rest != "" ==> !IsDigit(rest[0]))
    ensures ScanInt(Printed(-n) + rest) == Int(-n, rest)
  {
    var digits := Decimal(n);
    assert Printed(-n) + rest == "-" + (digits + rest);
    ScanNegative(digits + rest);
    ScanDecimal(n, rest);
  }

  /** What printf's %d wrote, scanf's %d reads back, leaving what follows. */
  lemma ScanPrinted(n: int, rest: string)
    requires rest != "" ==> !IsDigit(rest[0])
    ensures ScanInt(Printed(n) + rest) == Int(n, rest)
  {
    if n < 0 {
      ScanMinus(-n, rest);
    } else {
      var digits := Decimal(n);
      assert (digits + rest)[0] == digits[0];
      ScanUnsigned(digits + rest);
      ScanDecimal(n, rest);
    }
  }

  lemma {:induction false} BlanksSkipped(blanks: string, s: string)
    requires (forall i :: 0 <= i < |blanks| ==> IsSpace(blanks[i])) && (s != "" ==> !IsSpace(s[0]))
    ensures SkipSpace(blanks + s) == s
  {
    if blanks == "" {
      assert blanks + s == s;
    } else {
      assert (blanks + s)[1..] == blanks[1..] + s;
      BlanksSkipped(blanks[1..], s);
    }
  }

  lemma DigitsScan(digits: string, rest: string)
    requires digits != "" && (forall i :: 0 <= i < |digits| ==> IsDigit(digits[i]))
    requires rest != "" ==> !IsDigit(rest[0])
    ensures ScanDigits(digits + rest) == Int(Value(digits), rest) && IsDigit((digits + rest)[0])
  {
    DigitRunStops(digits, rest);
    assert (digits + rest)[..|digits|] == digits && (digits + rest)[|digits|..] == rest;
  }

  lemma ScanSkips(blanks: string, s: string)
    requires (forall i :: 0 <= i < |blanks| ==> IsSpace(blanks[i])) && (s != "" ==> !IsSpace(s[0]))
    ensures ScanInt(blanks + s) == ScanInt(s)
  {
    BlanksSkipped(blanks, s);
  }

  lemma ScanPositive(u: string)
    ensures ScanInt("+" + u) == ScanDigits(u)
  {
    assert ("+" + u)[1..] == u;
  }

  predicate IsSign(sign: string) {
    sign == "" || sign == "+" || sign == "-"
  }

  lemma ScanSigned(sign: string, s: string, v: int, rest: string)
    requires IsSign(sign) && s != "" && IsDigit(s[0]) && ScanDigits(s) == Int(v, rest)
    ensures ScanInt(sign + s) == Int(if sign == "-" then -v else v, rest) && !IsSpace((sign + s)[0])
  {
    if sign == "" {
      assert sign + s == s;
      ScanUnsigned(s);
    } else if sign == "+" {
      ScanPositive(s);
    } else {
      ScanNegative(s);
    }
  }

  /** Any digits behind blanks and a sign are a number, leading zeros included. */
  lemma ScanForms(blanks: string, sign: string, digits: string, rest: string)
    requires (forall i :: 0 <= i < |blanks| ==> IsSpace(blanks[i])) && IsSign(sign)
    requires digits != "" && (forall i :: 0 <= i < |digits| ==> IsDigit(digits[i]))
    requires rest != "" ==> !IsDigit(rest[0])
    ensures var v: int := Value(digits);
            ScanInt(blanks + (sign + (digits + rest))) == Int(if sign == "-" then -v else v, rest)
  {
    DigitsScan(digits, rest);
    ScanSigned(sign, digits + rest, Value(digits), rest);
    ScanSkips(blanks, sign + (digits + rest));
  }

  /** Without a digit there is no number. */
  lemma ScanNothing(blanks: string, s: string)
    requires (forall i :: 0 <= i < |blanks| ==> IsSpace(blanks[i])) && (s != "" ==> !IsSpace(s[0]))
    requires s != "" ==> !IsDigit(s[0]) && (s[0] == '-' || s[0] == '+' ==> |s| == 1 || !IsDigit(s[1]))
    ensures ScanInt(blanks + s) == NoInt
  {
    BlanksSkipped(blanks, s);
  }
}
