/**
 * Gamepad mappings as text: the parser and the printer
 * (client/moonlight-embedded-mod/src/input/mapping.c).
 */
module Mappings {
  import opened Text
  import AxisScaling

  datatype Button =
    | A | B | X | Y | Start | Guide | Back
    | LeftStick | RightStick | LeftShoulder | RightShoulder
    | DpUp | DpLeft | DpDown | DpRight
    | LeftTriggerButton | RightTriggerButton

  datatype Axis = LeftX | LeftY | RightX | RightY | LeftTrigger | RightTrigger

  datatype Pad = Up | Left | Down | Right

  /**
   * A struct mapping. Every code is present in its table, -1 where the device has
   * none; `reversed` is kept for the four stick axes.
   */
  datatype Mapping = Mapping(
    guid: string, name: string, platform: string,
    button: map<Button, int>, axis: map<Axis, int>, reversed: map<Axis, bool>,
    hat: map<Pad, int>, direction: map<Pad, int>)

  predicate IsStick(a: Axis) { a != LeftTrigger && a != RightTrigger }

  // ----- names in the text -----

  function ButtonKey(b: Button): string {
    match b
    case A => "a" case B => "b" case X => "x" case Y => "y"
    case Start => "start" case Guide => "guide" case Back => "back"
    case LeftStick => "leftstick" case RightStick => "rightstick"
    case LeftShoulder => "leftshoulder" case RightShoulder => "rightshoulder"
    case DpUp => "dpup" case DpLeft => "dpleft" case DpDown => "dpdown" case DpRight => "dpright"
    case LeftTriggerButton => "lefttrigger" case RightTriggerButton => "righttrigger"
  }

  function ButtonOf(key: string): Option<Button> {
    if key == "a" then Some(A) else if key == "y" then Some(Y) else if key == "x" then Some(X)
    else if key == "b" then Some(B) else if key == "back" then Some(Back) else if key == "start" then Some(Start)
    else if key == "guide" then Some(Guide) else if key == "dpup" then Some(DpUp)
    else if key == "dpdown" then Some(DpDown) else if key == "dpleft" then Some(DpLeft)
    else if key == "dpright" then Some(DpRight) else if key == "leftstick" then Some(LeftStick)
    else if key == "rightstick" then Some(RightStick) else if key == "leftshoulder" then Some(LeftShoulder)
    else if key == "rightshoulder" then Some(RightShoulder)
    else if key == "lefttrigger" then Some(LeftTriggerButton)
    else if key == "righttrigger" then Some(RightTriggerButton) else None
  }

  function AxisKey(a: Axis): string {
    match a
    case LeftX => "leftx" case LeftY => "lefty" case RightX => "rightx" case RightY => "righty"
    case LeftTrigger => "lefttrigger" case RightTrigger => "righttrigger"
  }

  function AxisOf(key: string): Option<Axis> {
    if key == "leftx" then Some(LeftX) else if key == "lefty" then Some(LeftY)
    else if key == "rightx" then Some(RightX) else if key == "righty" then Some(RightY)
    else if key == "lefttrigger" then Some(LeftTrigger) else if key == "righttrigger" then Some(RightTrigger) else None
  }

  function PadKey(d: Pad): string {
    match d
    case Up => "dpup" case Left => "dpleft" case Down => "dpdown" case Right => "dpright"
  }

  function PadOf(key: string): Option<Pad> {
    if key == "dpright" then Some(Right) else if key == "dpleft" then Some(Left)
    else if key == "dpup" then Some(Up) else if key == "dpdown" then Some(Down) else None
  }

  // ----- the C library -----

  function Prefix(s: string, n: nat): string {
    if |s| <= n then s else s[..n]
  }

  /** The first index at which `c` stands, or the length. */
  function IndexOf(s: string, c: char): (i: nat)
    ensures i <= |s| && c !in s[..i] && (i < |s| ==> s[i] == c)
  {
    if s == "" || s[0] == c then 0
    else
      var i := 1 + IndexOf(s[1..], c);
      assert s[..i] == [s[0]] + s[1..][..i - 1];
      i
  }

  datatype Token = End | Token(text: string, rest: string)

  function SkipCommas(s: string): (t: string)
    ensures |t| <= |s| && (t != "" ==> t[0] != ',')
  {
    if s != "" && s[0] == ',' then SkipCommas(s[1..]) else s
  }

  /** strtok_r with the delimiter ",". */
  function NextToken(s: string): (t: Token)
    ensures t.Token? ==> t.text != "" && ',' !in t.text && |t.rest| < |s|
  {
    var u := SkipCommas(s);
    if u == "" then End
    else
      var i := IndexOf(u, ',');
      Token(u[..i], if i < |u| then u[i + 1..] else "")
  }

  function Word(s: string): string {
    if s == "" || IsSpace(s[0]) then "" else [s[0]] + Word(s[1..])
  }

  datatype Parts = NoPair | Pair(key: string, value: string)

  /** sscanf with "%m[^:]:%ms", when it assigns both. */
  function SplitOption(option: string): Parts {
    var i := IndexOf(option, ':');
    if i == 0 || i == |option| then NoPair
    else
      var value := Word(SkipSpace(option[i + 1..]));
      if value == "" then NoPair else Pair(option[..i], value)
  }

  // ----- parsing -----

  datatype Value =
    | Unknown
    | ButtonCode(code: int)
    | AxisCode(code: int, tilde: bool)
    | HatCode(code: int, direction: int)

  /** The three sscanf calls on the value, in their order. */
  function ReadValue(value: string): Value {
    if value == "" then Unknown
    else
      match ScanInt(value[1..])
      case NoInt => Unknown
      case Int(v, rest) =>
        if value[0] == 'b' then ButtonCode(v)
        else if value[0] == 'a' then AxisCode(v, rest != "" && rest[0] == '~')
        else if value[0] == 'h' && rest != "" && rest[0] == '.' && ScanInt(rest[1..]).Int? then
          HatCode(v, ScanInt(rest[1..]).value)
        else Unknown
  }

  function SetButton(m: Mapping, b: Button, code: int): Mapping {
    m.(button := m.button[b := AxisScaling.ToShort(code)])
  }

  function SetAxis(m: Mapping, a: Axis, code: int, tilde: bool): Mapping {
    m.(axis := m.axis[a := AxisScaling.ToShort(code)],
       reversed := if IsStick(a) then m.reversed[a := tilde] else m.reversed)
  }

  function SetHat(m: Mapping, d: Pad, code: int, direction: int): Mapping {
    m.(hat := m.hat[d := AxisScaling.ToShort(code)], direction := m.direction[d := AxisScaling.ToShort(direction)])
  }

  function Stored(m: Mapping, key: string, value: Value): Mapping {
    match value
    case ButtonCode(code) => if ButtonOf(key).Some? then SetButton(m, ButtonOf(key).value, code) else m
    case AxisCode(code, tilde) => if AxisOf(key).Some? then SetAxis(m, AxisOf(key).value, code, tilde) else m
    case HatCode(code, direction) => if PadOf(key).Some? then SetHat(m, PadOf(key).value, code, direction) else m
    case Unknown => m
  }

  /** One turn of the loop over the options. */
  function Apply(m: Mapping, option: string): Mapping {
    match SplitOption(option)
    case NoPair => m
    case Pair(key, value) =>
      if key == "platform" then m.(platform := Prefix(value, 32)) else Stored(m, key, ReadValue(value))
  }

  function ApplyAll(m: Mapping, s: string): Mapping
    decreases |s|
  {
    match NextToken(s)
    case End => m
    case Token(option, rest) => ApplyAll(Apply(m, option), rest)
  }

  const ALL_BUTTONS: set<Button> := {
    A, B, X, Y, Start, Guide, Back, LeftStick, RightStick, LeftShoulder, RightShoulder,
    DpUp, DpLeft, DpDown, DpRight, LeftTriggerButton, RightTriggerButton}
  const ALL_AXES: set<Axis> := {LeftX, LeftY, RightX, RightY, LeftTrigger, RightTrigger}
  const ALL_PADS: set<Pad> := {Up, Left, Down, Right}

  /** The fresh struct: codes are -1; platform and reversal flags are whatever malloc returned. */
  function Cleared(guid: string, name: string, junk: Mapping): Mapping {
    Mapping(Prefix(guid, 32), Prefix(name, 256), junk.platform,
            map b: Button | b in ALL_BUTTONS :: -1, map a: Axis | a in ALL_AXES :: -1, junk.reversed,
            map d: Pad | d in ALL_PADS :: -1, map d: Pad | d in ALL_PADS :: -1)
  }

  function Parse(s: string, junk: Mapping): Option<Mapping> {
    match NextToken(s)
    case End => None
    case Token(guid, rest) =>
      match NextToken(rest)
      case End => None
      case Token(name, options) => Some(ApplyAll(Cleared(guid, name, junk), options))
  }

  /** The struct, filled in place. */
  class MappingStruct {
    var guid: string
    var name: string
    var platform: string
    var button: map<Button, int>
    var axis: map<Axis, int>
    var reversed: map<Axis, bool>
    var hat: map<Pad, int>
    var direction: map<Pad, int>

    constructor (guid: string, name: string, junk: Mapping)
      ensures Value() == Cleared(guid, name, junk)
    {
      var m := Cleared(guid, name, junk);
      this.guid, this.name, platform := m.guid, m.name, m.platform;
      button, axis, reversed, hat, direction := m.button, m.axis, m.reversed, m.hat, m.direction;
    }

    ghost function Value(): Mapping
      reads this
    {
      Mapping(guid, name, platform, button, axis, reversed, hat, direction)
    }

    method ApplyOption(option: string)
      modifies this
      ensures Value() == Apply(old(Value()), option)
    {
      var parts := SplitOption(option);
      if parts.Pair? {
        var key, value := parts.key, parts.value;
        if key == "platform" {
          platform := Prefix(value, 32);
        } else {
          match ReadValue(value) {
            case ButtonCode(code) =>
              var b := ButtonOf(key);
              if b.Some? {
                button := button[b.value := AxisScaling.ToShort(code)];
              }
            case AxisCode(code, tilde) =>
              var a := AxisOf(key);
              if a.Some? {
                axis := axis[a.value := AxisScaling.ToShort(code)];
                if IsStick(a.value) {
                  reversed := reversed[a.value := tilde];
                }
              }
            case HatCode(code, dir) =>
              var d := PadOf(key);
              if d.Some? {
                hat := hat[d.value := AxisScaling.ToShort(code)];
                direction := direction[d.value := AxisScaling.ToShort(dir)];
              }
            case Unknown =>
          }
        }
      }
    }
  }

  method MappingParse(s: string, junk: Mapping) returns (parsed: MappingStruct?)
    ensures parsed == null <==> Parse(s, junk) == None
    ensures parsed != null ==> fresh(parsed) && Parse(s, junk) == Some(parsed.Value())
  {
    var guid := NextToken(s);
    if guid == End {
      return null;
    }
    var name := NextToken(guid.rest);
    if name == End {
      return null;
    }
    var m := new MappingStruct(guid.text, name.text, junk);
    var rest := name.rest;
    var option := NextToken(rest);
    while option != End
      invariant option == NextToken(rest) && fresh(m)
      invariant Parse(s, junk) == Some(ApplyAll(m.Value(), rest))
      decreases |rest|
    {
      m.ApplyOption(option.text);
      rest := option.rest;
      option := NextToken(rest);
    }
    return m;
  }

  // ----- printing -----

  /** The entries of a printed mapping. */
  datatype Slot = ButtonSlot(button: Button) | HatSlot(pad: Pad) | AxisSlot(axis: Axis)

  const ORDER: seq<Slot> := [
    ButtonSlot(A), ButtonSlot(B), ButtonSlot(X), ButtonSlot(Y), ButtonSlot(Start), ButtonSlot(Guide), ButtonSlot(Back),
    ButtonSlot(LeftStick), ButtonSlot(RightStick), ButtonSlot(LeftShoulder), ButtonSlot(RightShoulder),
    ButtonSlot(DpUp), ButtonSlot(DpLeft), ButtonSlot(DpDown), ButtonSlot(DpRight),
    HatSlot(Up), HatSlot(Left), HatSlot(Down), HatSlot(Right),
    AxisSlot(LeftX), AxisSlot(LeftY), AxisSlot(RightX), AxisSlot(RightY), AxisSlot(LeftTrigger), AxisSlot(RightTrigger),
    ButtonSlot(LeftTriggerButton), ButtonSlot(RightTriggerButton)]

  /** A struct as it can be: its arrays hold what they hold, its codes are shorts. */
  ghost predicate IsStruct(m: Mapping) {
    && |m.guid| <= 32 && |m.name| <= 256
    && (forall b: Button :: b in m.button && IsShort(m.button[b]))
    && (forall a: Axis :: a in m.axis && IsShort(m.axis[a]))
    && (forall a: Axis :: a in m.reversed)
    && (forall d: Pad :: d in m.hat && IsShort(m.hat[d]))
    && (forall d: Pad :: d in m.direction && IsShort(m.direction[d]))
  }

  predicate IsShort(x: int) { AxisScaling.SHRT_MIN <= x <= AxisScaling.SHRT_MAX }

  function Code(m: Mapping, slot: Slot): int {
    match slot
    case ButtonSlot(b) => if b in m.button then m.button[b] else -1
    case HatSlot(d) => if d in m.hat then m.hat[d] else -1
    case AxisSlot(a) => if a in m.axis then m.axis[a] else -1
  }

  function DirectionOf(m: Mapping, d: Pad): int {
    if d in m.direction then m.direction[d] else -1
  }

  /** print_btn, print_hat and print_abs, without the final comma. */
  function Entry(m: Mapping, slot: Slot): string {
    match slot
    case ButtonSlot(b) => ButtonKey(b) + ":b" + Printed(Code(m, slot))
    case HatSlot(d) => PadKey(d) + ":h" + Printed(Code(m, slot)) + "." + Printed(DirectionOf(m, d))
    case AxisSlot(a) => AxisKey(a) + ":a" + Printed(Code(m, slot))
  }

  function Output(m: Mapping, slot: Slot): string {
    if Code(m, slot) > -1 then Entry(m, slot) + "," else ""
  }

  function Entries(m: Mapping, slots: seq<Slot>): string {
    if slots == [] then "" else Output(m, slots[0]) + Entries(m, slots[1..])
  }

  const TRAILER := "platform" + ":" + ("Linux" + "\n")

  /** What mapping_print puts out. */
  function Print(m: Mapping): string {
    m.guid + "," + (m.name + "," + (Entries(m, ORDER) + TRAILER))
  }

  /** The output up to the k-th entry. */
  function PrintedSoFar(m: Mapping, k: nat): string
    requires k <= |ORDER|
  {
    if k == 0 then m.guid + "," + m.name + ","
    else if Code(m, ORDER[k - 1]) > -1 then PrintedSoFar(m, k - 1) + (Entry(m, ORDER[k - 1]) + ",")
    else PrintedSoFar(m, k - 1)
  }

  method PrintButton(m: Mapping, b: Button, out: string, ghost k: nat) returns (r: string)
    requires IsStruct(m) && k < |ORDER| && ORDER[k] == ButtonSlot(b) && out == PrintedSoFar(m, k)
    ensures r == PrintedSoFar(m, k + 1)
  {
    r := out;
    if m.button[b] > -1 {
      r := r + (ButtonKey(b) + ":b" + Printed(m.button[b]) + ",");
    }
  }

  method PrintHat(m: Mapping, d: Pad, out: string, ghost k: nat) returns (r: string)
    requires IsStruct(m) && k < |ORDER| && ORDER[k] == HatSlot(d) && out == PrintedSoFar(m, k)
    ensures r == PrintedSoFar(m, k + 1)
  {
    r := out;
    if m.hat[d] > -1 {
      r := r + (PadKey(d) + ":h" + Printed(m.hat[d]) + "." + Printed(m.direction[d]) + ",");
    }
  }

  method PrintAxis(m: Mapping, a: Axis, out: string, ghost k: nat) returns (r: string)
    requires IsStruct(m) && k < |ORDER| && ORDER[k] == AxisSlot(a) && out == PrintedSoFar(m, k)
    ensures r == PrintedSoFar(m, k + 1)
  {
    r := out;
    if m.axis[a] > -1 {
      r := r + (AxisKey(a) + ":a" + Printed(m.axis[a]) + ",");
    }
  }

  /** The calls for the face buttons. */
  method PrintFace(m: Mapping, out: string) returns (r: string)
    requires IsStruct(m) && out == PrintedSoFar(m, 0)
    ensures r == PrintedSoFar(m, 4)
  {
    r := out;
    r := PrintButton(m, A, r, 0);
    r := PrintButton(m, B, r, 1);
    r := PrintButton(m, X, r, 2);
    r := PrintButton(m, Y, r, 3);
  }

  /** The menu buttons. */
  method PrintMenu(m: Mapping, out: string) returns (r: string)
    requires IsStruct(m) && out == PrintedSoFar(m, 4)
    ensures r == PrintedSoFar(m, 7)
  {
    r := out;
    r := PrintButton(m, Start, r, 4);
    r := PrintButton(m, Guide, r, 5);
    r := PrintButton(m, Back, r, 6);
  }

  /** The sticks and shoulders, as buttons. */
  method PrintShoulders(m: Mapping, out: string) returns (r: string)
    requires IsStruct(m) && out == PrintedSoFar(m, 7)
    ensures r == PrintedSoFar(m, 11)
  {
    r := out;
    r := PrintButton(m, LeftStick, r, 7);
    r := PrintButton(m, RightStick, r, 8);
    r := PrintButton(m, LeftShoulder, r, 9);
    r := PrintButton(m, RightShoulder, r, 10);
  }

  /** The directional pad, as buttons. */
  method PrintPad(m: Mapping, out: string) returns (r: string)
    requires IsStruct(m) && out == PrintedSoFar(m, 11)
    ensures r == PrintedSoFar(m, 15)
  {
    r := out;
    r := PrintButton(m, DpUp, r, 11);
    r := PrintButton(m, DpLeft, r, 12);
    r := PrintButton(m, DpDown, r, 13);
    r := PrintButton(m, DpRight, r, 14);
  }

  /** The directional pad, as hats. */
  method PrintHats(m: Mapping, out: string) returns (r: string)
    requires IsStruct(m) && out == PrintedSoFar(m, 15)
    ensures r == PrintedSoFar(m, 19)
  {
    r := out;
    ghost var k := 15;
    r := PrintHat(m, Up, r, k);
    r := PrintHat(m, Left, r, k + 1);
    r := PrintHat(m, Down, r, k + 2);
    r := PrintHat(m, Right, r, k + 3);
  }

  /** The axes. */
  method PrintAxes(m: Mapping, out: string) returns (r: string)
    requires IsStruct(m) && out == PrintedSoFar(m, 19)
    ensures r == PrintedSoFar(m, 25)
  {
    r := out;
    r := PrintAxis(m, LeftX, r, 19);
    r := PrintAxis(m, LeftY, r, 20);
    r := PrintAxis(m, RightX, r, 21);
    r := PrintAxis(m, RightY, r, 22);
    r := PrintAxis(m, LeftTrigger, r, 23);
    r := PrintAxis(m, RightTrigger, r, 24);
  }

  /** mapping_print, call by call. */
  method MappingPrint(m: Mapping) returns (out: string)
    requires IsStruct(m)
    ensures out == Print(m)
  {
    out := m.guid + "," + m.name + ",";
    out := PrintFace(m, out);
    out := PrintMenu(m, out);
    out := PrintShoulders(m, out);
    out := PrintPad(m, out);
    out := PrintHats(m, out);
    out := PrintAxes(m, out);
    out := PrintButton(m, LeftTriggerButton, out, 25);
    out := PrintButton(m, RightTriggerButton, out, 26);
    out := out + "platform:Linux\n";
    AllPrinted(m);
  }

  lemma {:induction false} RestPrinted(m: Mapping, k: nat)
    requires k <= |ORDER|
    ensures PrintedSoFar(m, k) + Entries(m, ORDER[k..]) == PrintedSoFar(m, |ORDER|)
    decreases |ORDER| - k
  {
    if k < |ORDER| {
      RestPrinted(m, k + 1);
      assert ORDER[k..][1..] == ORDER[k + 1..];
      Regroup(PrintedSoFar(m, k), Output(m, ORDER[k]), Entries(m, ORDER[k + 1..]));
      assert PrintedSoFar(m, k) + "" == PrintedSoFar(m, k);
    } else {
      assert PrintedSoFar(m, k) + "" == PrintedSoFar(m, k);
    }
  }

  lemma Regroup(a: string, b: string, c: string)
    ensures a + (b + c) == a + b + c
  {
  }

  lemma PrintParts(guid: string, name: string, entries: string)
    ensures guid + "," + (name + "," + (entries + TRAILER)) == guid + "," + name + "," + entries + "platform:Linux\n"
  {
    assert TRAILER == "platform:Linux\n";
    Regroup(guid + ",", name + ",", entries + TRAILER);
    Regroup(guid + "," + name + ",", entries, TRAILER);
  }

  lemma AllPrinted(m: Mapping)
    ensures Print(m) == PrintedSoFar(m, |ORDER|) + "platform:Linux\n"
  {
    RestPrinted(m, 0);
    assert ORDER[0..] == ORDER;
    PrintParts(m.guid, m.name, Entries(m, ORDER));
  }
}
