/**
 * What one entry of a mapping's text does to the parsed mapping, wherever it stands
 * (client/moonlight-embedded-mod/src/input/mapping.c).
 */
module MappingOptions {
  import opened Text
  import opened Mappings
  import opened MappingRoundTrip
  import AxisScaling

  // ----- the names of the format -----

  predicate NamesButton(key: string, b: Button) {
    match b
    case A => key == "a" case B => key == "b" case X => key == "x" case Y => key == "y"
    case Start => key == "start" case Guide => key == "guide" case Back => key == "back"
    case LeftStick => key == "leftstick" case RightStick => key == "rightstick"
    case LeftShoulder => key == "leftshoulder" case RightShoulder => key == "rightshoulder"
    case DpUp => key == "dpup" case DpDown => key == "dpdown"
    case DpLeft => key == "dpleft" case DpRight => key == "dpright"
    case LeftTriggerButton => key == "lefttrigger" case RightTriggerButton => key == "righttrigger"
  }

  predicate NamesStick(key: string, a: Axis) {
    || (key == "leftx" && a == LeftX) || (key == "lefty" && a == LeftY)
    || (key == "rightx" && a == RightX) || (key == "righty" && a == RightY)
  }

  predicate NamesTrigger(key: string, a: Axis) {
    (key == "lefttrigger" && a == LeftTrigger) || (key == "righttrigger" && a == RightTrigger)
  }

  predicate NamesPad(key: string, d: Pad) {
    || (key == "dpup" && d == Up) || (key == "dpdown" && d == Down)
    || (key == "dpleft" && d == Left) || (key == "dpright" && d == Right)
  }

  lemma ButtonNamed(key: string, b: Button)
    requires NamesButton(key, b)
    ensures ButtonOf(key) == Some(b) && NameOnly(key)
  {
    assert key == ButtonKey(b);
    ButtonKeyIsName(b);
    ButtonKeyIsFound(b);
  }

  lemma AxisNamed(key: string, a: Axis)
    requires NamesStick(key, a) || NamesTrigger(key, a)
    ensures AxisOf(key) == Some(a) && NameOnly(key) && (IsStick(a) <==> NamesStick(key, a))
  {
  }

  lemma PadNamed(key: string, d: Pad)
    requires NamesPad(key, d)
    ensures PadOf(key) == Some(d) && NameOnly(key)
  {
  }

  /** No two names stand for the same field. */
  lemma OneButtonName(key: string)
    ensures ButtonOf(key).Some? ==> key == ButtonKey(ButtonOf(key).value)
  {
    match ButtonOf(key)
    case None =>
    case Some(b) =>
      match b
      case A => case B => case X => case Y => case Start => case Guide => case Back =>
      case LeftStick => case RightStick => case LeftShoulder => case RightShoulder =>
      case DpUp => case DpDown => case DpLeft => case DpRight =>
      case LeftTriggerButton => case RightTriggerButton =>
  }

  lemma OneAxisName(key: string)
    ensures AxisOf(key).Some? ==> key == AxisKey(AxisOf(key).value)
  {
  }

  lemma OnePadName(key: string)
    ensures PadOf(key).Some? ==> key == PadKey(PadOf(key).value)
  {
  }

  // ----- tokens of any text -----

  lemma {:induction false} OnlyCommasSkipped(s: string)
    ensures |SkipCommas(s)| <= |s| && SkipCommas(s) == s[|s| - |SkipCommas(s)|..]
    ensures forall i :: 0 <= i < |s| - |SkipCommas(s)| ==> s[i] == ','
  {
    if s != "" && s[0] == ',' {
      OnlyCommasSkipped(s[1..]);
    }
  }

  lemma SkippedTo(s: string, n: nat)
    requires n <= |s| && (forall i :: 0 <= i < n ==> s[i] == ',') && (n < |s| ==> s[n] != ',')
    ensures SkipCommas(s) == s[n..]
  {
    OnlyCommasSkipped(s);
  }

  lemma CommaAt(u: string, i: nat)
    requires i <= |u| && ',' !in u[..i] && (i < |u| ==> u[i] == ',')
    ensures IndexOf(u, ',') == i
  {
    assert forall j :: 0 <= j < i ==> u[j] in u[..i];
  }

  /** The token is what stands between the commas in front of it and the next one; the rest follows that. */
  lemma TokenExactly(s: string, n: nat, i: nat)
    requires n < i <= |s| && ',' !in s[n..i] && (i < |s| ==> s[i] == ',')
    requires forall k :: 0 <= k < n ==> s[k] == ','
    ensures NextToken(s) == Token(s[n..i], if i < |s| then s[i + 1..] else "")
  {
    assert s[n] in s[n..i];
    SkippedTo(s, n);
    assert s[n..][..i - n] == s[n..i];
    CommaAt(s[n..], i - n);
    assert i < |s| ==> s[n..][i - n + 1..] == s[i + 1..];
  }

  lemma OnlyCommas(s: string)
    requires forall k :: 0 <= k < |s| ==> s[k] == ','
    ensures NextToken(s) == End
  {
    SkippedTo(s, |s|);
  }

  // ----- one entry -----

  /** What may follow a number of an entry. */
  predicate Follows(flag: string) {
    (forall i :: 0 <= i < |flag| ==> !IsSpace(flag[i]) && flag[i] != ',') && (flag != "" ==> !IsDigit(flag[0]))
  }

  lemma NumberReads(c: char, n: int, flag: string)
    requires Follows(flag) && (c == 'a' || c == 'b')
    ensures ReadValue([c] + (Printed(n) + flag))
            == if c == 'b' then ButtonCode(n) else AxisCode(n, flag != "" && flag[0] == '~')
  {
    assert ([c] + (Printed(n) + flag))[1..] == Printed(n) + flag;
    ScanPrinted(n, flag);
  }

  lemma NumberIsSolid(c: char, n: int, flag: string)
    requires Follows(flag) && !IsSpace(c) && c != ','
    ensures Solid([c] + (Printed(n) + flag)) && ',' !in [c] + (Printed(n) + flag)
  {
    PrintedIsNumeric(n);
  }

  function ButtonEntry(key: string, n: int, flag: string): string {
    key + ":" + ("b" + (Printed(n) + flag))
  }

  function AxisEntry(key: string, n: int, flag: string): string {
    key + ":" + ("a" + (Printed(n) + flag))
  }

  function HatEntry(key: string, n: int, direction: int): string {
    key + ":" + HatText(n, direction)
  }

  lemma NumberEntryIsToken(key: string, c: char, n: int, flag: string)
    requires NameOnly(key) && Follows(flag) && !IsSpace(c) && c != ','
    ensures var entry := key + ":" + ([c] + (Printed(n) + flag)); entry != "" && ',' !in entry
  {
    NumberIsSolid(c, n, flag);
  }

  lemma ButtonStored(m: Mapping, key: string, b: Button, n: int, flag: string)
    requires ButtonOf(key) == Some(b) && NameOnly(key) && Follows(flag)
    ensures Apply(m, ButtonEntry(key, n, flag)) == m.(button := m.button[b := AxisScaling.ToShort(n)])
  {
    NumberReads('b', n, flag);
    NumberIsSolid('b', n, flag);
    ApplyPair(m, key, "b" + (Printed(n) + flag));
  }

  /** Without the tilde a stick is not reversed. */
  lemma AxisStored(m: Mapping, key: string, a: Axis, n: int, flag: string)
    requires AxisOf(key) == Some(a) && NameOnly(key) && Follows(flag)
    ensures var axis := m.axis[a := AxisScaling.ToShort(n)];
            Apply(m, AxisEntry(key, n, flag))
            == if IsStick(a) then m.(axis := axis, reversed := m.reversed[a := flag != "" && flag[0] == '~'])
               else m.(axis := axis)
  {
    NumberReads('a', n, flag);
    NumberIsSolid('a', n, flag);
    ApplyPair(m, key, "a" + (Printed(n) + flag));
  }

  function HatText(n: int, direction: int): string {
    "h" + (Printed(n) + ("." + Printed(direction)))
  }

  lemma HatIsSolid(n: int, direction: int)
    ensures Solid(HatText(n, direction)) && ',' !in HatText(n, direction)
  {
    PrintedIsNumeric(n);
    PrintedIsNumeric(direction);
    NumericIsSolid('h', Printed(n) + ("." + Printed(direction)));
  }

  lemma HatStored(m: Mapping, key: string, d: Pad, n: int, direction: int)
    requires PadOf(key) == Some(d) && NameOnly(key)
    ensures Apply(m, HatEntry(key, n, direction))
            == m.(hat := m.hat[d := AxisScaling.ToShort(n)],
                  direction := m.direction[d := AxisScaling.ToShort(direction)])
  {
    HatIsSolid(n, direction);
    ReadHat(n, direction);
    ApplyPair(m, key, HatText(n, direction));
  }

  lemma HatEntryIsToken(key: string, n: int, direction: int)
    requires NameOnly(key)
    ensures HatEntry(key, n, direction) != "" && ',' !in HatEntry(key, n, direction)
  {
    HatIsSolid(n, direction);
  }

  /** A value that is no button, axis or hat changes nothing. */
  lemma ForeignValue(m: Mapping, key: string, value: string)
    requires NameOnly(key) && Solid(value) && value[0] != 'a' && value[0] != 'b' && value[0] != 'h'
    ensures Apply(m, key + ":" + value) == m
  {
    ApplyPair(m, key, value);
  }

  /** Blanks behind the colon are skipped, and the value ends at the next one. */
  lemma OptionSplits(key: string, blanks: string, value: string, rest: string)
    requires key != "" && ':' !in key && Solid(value) && (rest != "" ==> IsSpace(rest[0]))
    requires forall i :: 0 <= i < |blanks| ==> IsSpace(blanks[i])
    ensures SplitOption(key + ":" + (blanks + (value + rest))) == Pair(key, value)
  {
    var s := key + ":" + (blanks + (value + rest));
    assert s == key + (":" + (blanks + (value + rest)));
    IndexOfFirst(key, ':', ":" + (blanks + (value + rest)));
    assert s[..|key|] == key && s[|key| + 1..] == blanks + (value + rest);
    assert (value + rest)[0] == value[0];
    BlanksSkipped(blanks, value + rest);
    WordStops(value, rest);
  }

  /** An option without a name, a colon or a value changes nothing. */
  lemma OptionIgnored(m: Mapping, option: string)
    requires ':' in option && option[0] != ':' ==>
               exists i :: 0 < i < |option| && option[i] == ':' && ':' !in option[..i]
                           && forall j :: i < j < |option| ==> IsSpace(option[j])
    ensures Apply(m, option) == m
  {
    var k := IndexOf(option, ':');
    if ':' in option && option[0] != ':' {
      var i :| 0 < i < |option| && option[i] == ':' && ':' !in option[..i]
               && forall j :: i < j < |option| ==> IsSpace(option[j]);
      assert k == i;
      BlanksSkipped(option[i + 1..], "");
      assert option[i + 1..] + "" == option[i + 1..];
    }
  }

  // ----- texts in front of an entry and behind it -----

  /** A text that ends where a token may start. */
  predicate Ends(front: string) {
    front != "" ==> front[|front| - 1] == ','
  }

  /** No token of the text gives a value to the name. */
  predicate Silent(text: string, key: string)
    decreases |text|
  {
    match NextToken(text)
    case End => true
    case Token(option, rest) => !(key + ":" <= option) && Silent(rest, key)
  }

  lemma KeyInFront(option: string)
    ensures SplitOption(option).Pair? ==> SplitOption(option).key + ":" <= option
  {
    var i := IndexOf(option, ':');
    if SplitOption(option).Pair? {
      assert option[..i + 1] == option[..i] + ":";
    }
  }

  lemma CommaSkipped(s: string)
    ensures NextToken("," + s) == NextToken(s)
  {
    assert ("," + s)[1..] == s;
  }

  lemma FirstPiece(front: string) returns (t: string, rest: string)
    requires Ends(front) && front != "" && front[0] != ','
    ensures t != "" && ',' !in t && front == t + "," + rest && Ends(rest)
  {
    var i := IndexOf(front, ',');
    assert i < |front| by { assert front[|front| - 1] in front; }
    t, rest := front[..i], front[i + 1..];
    assert front == front[..i] + front[i..] && front[i..] == "," + rest;
  }

  lemma PieceThenTail(t: string, rest: string, tail: string)
    ensures t + "," + rest + tail == t + "," + (rest + tail)
  {
  }

  /** A text in front starts with a comma or with an option. */
  lemma FrontStep(m: Mapping, front: string, tail: string) returns (m': Mapping, rest: string)
    requires Ends(front) && front != ""
    ensures Ends(rest) && |rest| < |front| && ApplyAll(m, front + tail) == ApplyAll(m', rest + tail)
  {
    if front[0] == ',' {
      m', rest := m, front[1..];
      assert front + tail == "," + (rest + tail);
      CommaSkipped(rest + tail);
    } else {
      var t;
      t, rest := FirstPiece(front);
      PieceThenTail(t, rest, tail);
      ApplyNext(m, t, rest + tail);
      m' := Apply(m, t);
    }
  }

  /** Whatever stands in front, what follows is applied to some mapping. */
  lemma {:induction false} FrontApplied(m: Mapping, front: string, tail: string) returns (m': Mapping)
    requires Ends(front)
    ensures ApplyAll(m, front + tail) == ApplyAll(m', tail)
    decreases |front|
  {
    if front == "" {
      m' := m;
      assert front + tail == tail;
    } else {
      var next, rest := FrontStep(m, front, tail);
      m' := FrontApplied(next, rest, tail);
    }
  }

  /** Where an entry ends: at the end of the text, or at a comma behind which its name has no other value. */
  predicate EndsEntry(tail: string, key: string) {
    tail == "" || (tail[0] == ',' && Silent(tail[1..], key))
  }

  lemma EntryThenTail(m: Mapping, entry: string, tail: string)
    requires entry != "" && ',' !in entry && (tail == "" || tail[0] == ',')
    ensures ApplyAll(m, entry + tail) == ApplyAll(Apply(m, entry), if tail == "" then "" else tail[1..])
  {
    if tail == "" {
      assert entry + tail == entry;
      ApplyLast(m, entry);
    } else {
      assert entry + tail == entry + "," + tail[1..];
      ApplyNext(m, entry, tail[1..]);
    }
  }

  lemma SilentRest(tail: string, key: string)
    requires EndsEntry(tail, key)
    ensures Silent(if tail == "" then "" else tail[1..], key)
  {
    assert NextToken("") == End;
  }

  lemma {:induction false} ButtonKept(m: Mapping, text: string, key: string, b: Button)
    requires Silent(text, key) && ButtonOf(key) == Some(b) && b in m.button
    ensures b in ApplyAll(m, text).button && ApplyAll(m, text).button[b] == m.button[b]
    decreases |text|
  {
    match NextToken(text)
    case End =>
    case Token(option, rest) =>
      KeyInFront(option);
      OtherKeyKeeps(m, option, key);
      ButtonKept(Apply(m, option), rest, key, b);
  }

  lemma {:induction false} AxisKept(m: Mapping, text: string, key: string, a: Axis)
    requires Silent(text, key) && AxisOf(key) == Some(a) && a in m.axis
    ensures a in ApplyAll(m, text).axis && ApplyAll(m, text).axis[a] == m.axis[a]
    ensures a in m.reversed ==> a in ApplyAll(m, text).reversed && ApplyAll(m, text).reversed[a] == m.reversed[a]
    decreases |text|
  {
    match NextToken(text)
    case End =>
    case Token(option, rest) =>
      KeyInFront(option);
      OtherKeyKeeps(m, option, key);
      AxisKept(Apply(m, option), rest, key, a);
  }

  lemma {:induction false} HatKept(m: Mapping, text: string, key: string, d: Pad)
    requires Silent(text, key) && PadOf(key) == Some(d) && d in m.hat && d in m.direction
    ensures d in ApplyAll(m, text).hat && ApplyAll(m, text).hat[d] == m.hat[d]
    ensures d in ApplyAll(m, text).direction && ApplyAll(m, text).direction[d] == m.direction[d]
    decreases |text|
  {
    match NextToken(text)
    case End =>
    case Token(option, rest) =>
      KeyInFront(option);
      OtherKeyKeeps(m, option, key);
      HatKept(Apply(m, option), rest, key, d);
  }

  /** The fields a name stands for are the same in both. */
  ghost predicate SameAt(m: Mapping, m': Mapping, key: string) {
    && (forall b :: ButtonOf(key) == Some(b) && b in m.button ==> b in m'.button && m'.button[b] == m.button[b])
    && (forall a :: AxisOf(key) == Some(a) && a in m.axis ==> a in m'.axis && m'.axis[a] == m.axis[a])
    && (forall a :: AxisOf(key) == Some(a) && a in m.reversed
                    ==> a in m'.reversed && m'.reversed[a] == m.reversed[a])
    && (forall d :: PadOf(key) == Some(d) && d in m.hat ==> d in m'.hat && m'.hat[d] == m.hat[d])
    && (forall d :: PadOf(key) == Some(d) && d in m.direction
                    ==> d in m'.direction && m'.direction[d] == m.direction[d])
  }

  lemma OtherKeyStores(m: Mapping, other: string, value: Value, key: string)
    requires other != key
    ensures SameAt(m, Stored(m, other, value), key)
  {
    match value
    case ButtonCode(_) =>
      OneButtonName(key);
      OneButtonName(other);
    case AxisCode(_, _) =>
      OneAxisName(key);
      OneAxisName(other);
    case HatCode(_, _) =>
      OnePadName(key);
      OnePadName(other);
    case Unknown =>
  }

  lemma OtherKeyKeeps(m: Mapping, option: string, key: string)
    requires SplitOption(option).Pair? ==> SplitOption(option).key != key
    ensures SameAt(m, Apply(m, option), key)
  {
    match SplitOption(option)
    case NoPair =>
    case Pair(other, value) => OtherKeyStores(m, other, ReadValue(value), key);
  }

  // ----- whole lines -----

  predicate Field(s: string) {
    s != "" && ',' !in s
  }

  lemma ParseOptions(guid: string, name: string, options: string, junk: Mapping)
    requires Field(guid) && Field(name)
    ensures Parse(guid + "," + (name + "," + options), junk)
            == Some(ApplyAll(Mappings.Cleared(guid, name, junk), options))
  {
    TokenThen(guid, name + "," + options);
    TokenThen(name, options);
  }

  /** The header of any line: at most 32 and 256 characters are kept. */
  lemma HeaderRead(guid: string, name: string, options: string, junk: Mapping)
    requires Field(guid) && Field(name)
    ensures var r := Parse(guid + "," + (name + "," + options), junk);
            && r.Some?
            && r.value.guid == (if |guid| <= 32 then guid else guid[..32])
            && r.value.name == (if |name| <= 256 then name else name[..256])
  {
    ParseOptions(guid, name, options, junk);
    HeaderAfterParse(Mappings.Cleared(guid, name, junk), options);
  }

  /** The last entry of a button's name decides, whatever stands in front of it. */
  lemma ButtonRead(
      guid: string, name: string, front: string, key: string, b: Button, n: int, flag: string, tail: string,
      junk: Mapping)
    requires Field(guid) && Field(name) && Ends(front) && NamesButton(key, b) && Follows(flag) && EndsEntry(tail, key)
    ensures var r := Parse(guid + "," + (name + "," + (front + (ButtonEntry(key, n, flag) + tail))), junk);
            r.Some? && b in r.value.button && r.value.button[b] == AxisScaling.ToShort(n)
  {
    var entry := ButtonEntry(key, n, flag);
    ParseOptions(guid, name, front + (entry + tail), junk);
    var m := FrontApplied(Mappings.Cleared(guid, name, junk), front, entry + tail);
    ButtonNamed(key, b);
    NumberEntryIsToken(key, 'b', n, flag);
    ButtonStored(m, key, b, n, flag);
    EntryThenTail(m, entry, tail);
    SilentRest(tail, key);
    ButtonKept(Apply(m, entry), if tail == "" then "" else tail[1..], key, b);
  }

  /** So does that of a stick, which is reversed exactly when a tilde follows the number. */
  lemma StickRead(
      guid: string, name: string, front: string, key: string, a: Axis, n: int, flag: string, tail: string,
      junk: Mapping)
    requires Field(guid) && Field(name) && Ends(front) && NamesStick(key, a) && Follows(flag) && EndsEntry(tail, key)
    ensures var r := Parse(guid + "," + (name + "," + (front + (AxisEntry(key, n, flag) + tail))), junk);
            && r.Some? && a in r.value.axis && a in r.value.reversed
            && r.value.axis[a] == AxisScaling.ToShort(n)
            && (r.value.reversed[a] <==> flag != "" && flag[0] == '~')
  {
    var entry := AxisEntry(key, n, flag);
    ParseOptions(guid, name, front + (entry + tail), junk);
    var m := FrontApplied(Mappings.Cleared(guid, name, junk), front, entry + tail);
    AxisNamed(key, a);
    NumberEntryIsToken(key, 'a', n, flag);
    AxisStored(m, key, a, n, flag);
    EntryThenTail(m, entry, tail);
    SilentRest(tail, key);
    AxisKept(Apply(m, entry), if tail == "" then "" else tail[1..], key, a);
  }

  lemma TriggerRead(
      guid: string, name: string, front: string, key: string, a: Axis, n: int, flag: string, tail: string,
      junk: Mapping)
    requires Field(guid) && Field(name) && Ends(front) && NamesTrigger(key, a) && Follows(flag) && EndsEntry(tail, key)
    ensures var r := Parse(guid + "," + (name + "," + (front + (AxisEntry(key, n, flag) + tail))), junk);
            r.Some? && a in r.value.axis && r.value.axis[a] == AxisScaling.ToShort(n)
  {
    var entry := AxisEntry(key, n, flag);
    ParseOptions(guid, name, front + (entry + tail), junk);
    var m := FrontApplied(Mappings.Cleared(guid, name, junk), front, entry + tail);
    AxisNamed(key, a);
    NumberEntryIsToken(key, 'a', n, flag);
    AxisStored(m, key, a, n, flag);
    EntryThenTail(m, entry, tail);
    SilentRest(tail, key);
    AxisKept(Apply(m, entry), if tail == "" then "" else tail[1..], key, a);
  }

  /** And that of a hat, with its direction. */
  lemma HatRead(
      guid: string, name: string, front: string, key: string, d: Pad, n: int, direction: int, tail: string,
      junk: Mapping)
    requires Field(guid) && Field(name) && Ends(front) && NamesPad(key, d) && EndsEntry(tail, key)
    ensures var r := Parse(guid + "," + (name + "," + (front + (HatEntry(key, n, direction) + tail))), junk);
            && r.Some? && d in r.value.hat && r.value.hat[d] == AxisScaling.ToShort(n)
            && d in r.value.direction && r.value.direction[d] == AxisScaling.ToShort(direction)
  {
    var entry := HatEntry(key, n, direction);
    ParseOptions(guid, name, front + (entry + tail), junk);
    var m := FrontApplied(Mappings.Cleared(guid, name, junk), front, entry + tail);
    PadNamed(key, d);
    HatEntryIsToken(key, n, direction);
    HatStored(m, key, d, n, direction);
    EntryThenTail(m, entry, tail);
    SilentRest(tail, key);
    HatKept(Apply(m, entry), if tail == "" then "" else tail[1..], key, d);
  }

  lemma {:induction false} PlatformKept(m: Mapping, text: string)
    requires Silent(text, "platform")
    ensures ApplyAll(m, text).platform == m.platform
    decreases |text|
  {
    match NextToken(text)
    case End =>
    case Token(option, rest) =>
      KeyInFront(option);
      PlatformKeptByOption(m, option);
      PlatformKept(Apply(m, option), rest);
  }

  lemma PlatformKeptByOption(m: Mapping, option: string)
    requires SplitOption(option).Pair? ==> SplitOption(option).key != "platform"
    ensures Apply(m, option).platform == m.platform
  {
    match SplitOption(option)
    case NoPair =>
    case Pair(key, value) => StoredKeepsPlatform(m, key, ReadValue(value));
  }

  lemma StoredKeepsPlatform(m: Mapping, key: string, value: Value)
    ensures Stored(m, key, value).platform == m.platform
  {
  }

  function PlatformEntry(value: string): string {
    "platform:" + value
  }

  lemma PlatformEntryIsToken(value: string)
    requires ',' !in value
    ensures PlatformEntry(value) != "" && ',' !in PlatformEntry(value)
  {
  }

  /** The last platform that is named counts, with at most 32 of its characters. */
  lemma PlatformRead(
      guid: string, name: string, front: string, value: string, tail: string, junk: Mapping)
    requires Field(guid) && Field(name) && Ends(front) && Solid(value) && ',' !in value && EndsEntry(tail, "platform")
    ensures var r := Parse(guid + "," + (name + "," + (front + (PlatformEntry(value) + tail))), junk);
            r.Some? && r.value.platform == if |value| <= 32 then value else value[..32]
  {
    var entry := PlatformEntry(value);
    ParseOptions(guid, name, front + (entry + tail), junk);
    var m := FrontApplied(Mappings.Cleared(guid, name, junk), front, entry + tail);
    PlatformEntryIsToken(value);
    PlatformStored(m, value);
    EntryThenTail(m, entry, tail);
    SilentRest(tail, "platform");
    PlatformKept(Apply(m, entry), if tail == "" then "" else tail[1..]);
  }

  lemma PlatformStored(m: Mapping, value: string)
    requires Solid(value)
    ensures Apply(m, PlatformEntry(value)) == m.(platform := if |value| <= 32 then value else value[..32])
  {
    SplitPair("platform", value, "");
    assert value + "" == value && "platform" + ":" + value == PlatformEntry(value);
  }

  /** A name without an entry leaves the code -1. */
  lemma AbsentButton(guid: string, name: string, options: string, key: string, b: Button, junk: Mapping)
    requires Field(guid) && Field(name) && Silent(options, key) && NamesButton(key, b)
    ensures var r := Parse(guid + "," + (name + "," + options), junk);
            r.Some? && b in r.value.button && r.value.button[b] == -1
  {
    ParseOptions(guid, name, options, junk);
    FreshStruct(guid, name, junk);
    ButtonNamed(key, b);
    ButtonKept(Mappings.Cleared(guid, name, junk), options, key, b);
  }

  lemma AbsentAxis(guid: string, name: string, options: string, key: string, a: Axis, junk: Mapping)
    requires Field(guid) && Field(name) && Silent(options, key) && (NamesStick(key, a) || NamesTrigger(key, a))
    ensures var r := Parse(guid + "," + (name + "," + options), junk);
            r.Some? && a in r.value.axis && r.value.axis[a] == -1
  {
    ParseOptions(guid, name, options, junk);
    FreshStruct(guid, name, junk);
    AxisNamed(key, a);
    AxisKept(Mappings.Cleared(guid, name, junk), options, key, a);
  }

  lemma AbsentHat(guid: string, name: string, options: string, key: string, d: Pad, junk: Mapping)
    requires Field(guid) && Field(name) && Silent(options, key) && NamesPad(key, d)
    ensures var r := Parse(guid + "," + (name + "," + options), junk);
            && r.Some? && d in r.value.hat && r.value.hat[d] == -1
            && d in r.value.direction && r.value.direction[d] == -1
  {
    ParseOptions(guid, name, options, junk);
    FreshStruct(guid, name, junk);
    PadNamed(key, d);
    HatKept(Mappings.Cleared(guid, name, junk), options, key, d);
  }

  /** The printer's name for an entry is the one the parser knows. */
  lemma PrintedNames(b: Button, a: Axis, d: Pad)
    ensures NamesButton(ButtonKey(b), b) && NamesPad(PadKey(d), d)
    ensures NamesStick(AxisKey(a), a) || NamesTrigger(AxisKey(a), a)
  {
  }
}
