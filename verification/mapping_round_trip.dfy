/**
 * Parsing what the printer wrote: exactly when it gives the mapping back
 * (client/moonlight-embedded-mod/src/input/mapping.c).
 */
module MappingRoundTrip {
  import opened Text
  import opened Mappings
  import AxisScaling

  // ----- tokens -----

  lemma {:induction false} IndexOfFirst(a: string, c: char, b: string)
    requires c !in a && (b != "" ==> b[0] == c)
    ensures IndexOf(a + b, c) == |a|
  {
    if a == "" {
      assert a + b == b;
    } else {
      assert (a + b)[1..] == a[1..] + b;
      IndexOfFirst(a[1..], c, b);
    }
  }

  lemma TokenThen(t: string, rest: string)
    requires t != "" && ',' !in t
    ensures NextToken(t + "," + rest) == Token(t, rest)
  {
    var s := t + "," + rest;
    assert s == t + ("," + rest) && s[0] == t[0];
    IndexOfFirst(t, ',', "," + rest);
    assert s[..|t|] == t && s[|t| + 1..] == rest;
  }

  lemma LastToken(t: string)
    requires t != "" && ',' !in t
    ensures NextToken(t) == Token(t, "")
  {
    IndexOfFirst(t, ',', "");
    assert t + "" == t && t[..|t|] == t;
  }

  predicate Solid(s: string) {
    s != "" && forall i :: 0 <= i < |s| ==> !IsSpace(s[i])
  }

  lemma {:induction false} WordStops(w: string, rest: string)
    requires (forall i :: 0 <= i < |w| ==> !IsSpace(w[i])) && (rest != "" ==> IsSpace(rest[0]))
    ensures Word(w + rest) == w
  {
    if w == "" {
      assert w + rest == rest;
    } else {
      assert (w + rest)[1..] == w[1..] + rest;
      WordStops(w[1..], rest);
    }
  }

  lemma SplitPair(key: string, value: string, rest: string)
    requires key != "" && ':' !in key && Solid(value) && (rest != "" ==> IsSpace(rest[0]))
    ensures SplitOption(key + ":" + (value + rest)) == Pair(key, value)
  {
    var s := key + ":" + (value + rest);
    assert s == key + (":" + (value + rest));
    IndexOfFirst(key, ':', ":" + (value + rest));
    assert s[..|key|] == key && s[|key| + 1..] == value + rest;
    assert (value + rest)[0] == value[0];
    WordStops(value, rest);
  }

  // ----- one entry -----

  predicate Numeric(s: string) {
    forall i :: 0 <= i < |s| ==> IsDigit(s[i]) || s[i] == '-' || s[i] == '.'
  }

  lemma PrintedIsNumeric(n: int)
    ensures Printed(n) != "" && Numeric(Printed(n))
  {
  }

  predicate NameOnly(key: string) {
    key != "" && key != "platform" && ':' !in key && ',' !in key
  }

  lemma ButtonKeyIsName(b: Button)
    ensures NameOnly(ButtonKey(b))
  {
  }

  lemma ButtonKeyIsFound(b: Button)
    ensures ButtonOf(ButtonKey(b)) == Some(b)
  {
  }

  lemma AxisKeyIsName(a: Axis)
    ensures NameOnly(AxisKey(a)) && AxisOf(AxisKey(a)) == Some(a)
  {
  }

  lemma PadKeyIsName(d: Pad)
    ensures NameOnly(PadKey(d)) && PadOf(PadKey(d)) == Some(d)
  {
  }

  lemma KeyIsName(slot: Slot)
    ensures NameOnly(KeyOf(slot))
  {
    match slot
    case ButtonSlot(b) => ButtonKeyIsName(b);
    case HatSlot(d) => PadKeyIsName(d);
    case AxisSlot(a) => AxisKeyIsName(a);
  }

  /** What an entry stores: the code as printed, and an axis that is not reversed. */
  function Copied(m: Mapping, from: Mapping, slot: Slot): Mapping {
    match slot
    case ButtonSlot(b) => SetButton(m, b, Code(from, slot))
    case HatSlot(d) => SetHat(m, d, Code(from, slot), DirectionOf(from, d))
    case AxisSlot(a) => SetAxis(m, a, Code(from, slot), false)
  }

  function KeyOf(slot: Slot): string {
    match slot
    case ButtonSlot(b) => ButtonKey(b)
    case HatSlot(d) => PadKey(d)
    case AxisSlot(a) => AxisKey(a)
  }

  function ValueText(m: Mapping, slot: Slot): string {
    match slot
    case ButtonSlot(_) => "b" + Printed(Code(m, slot))
    case HatSlot(d) => "h" + (Printed(Code(m, slot)) + ("." + Printed(DirectionOf(m, d))))
    case AxisSlot(_) => "a" + Printed(Code(m, slot))
  }

  lemma NumericIsSolid(c: char, n: string)
    requires !IsSpace(c) && c != ',' && Numeric(n)
    ensures Solid([c] + n) && ',' !in [c] + n
  {
  }

  lemma ValueIsSolid(m: Mapping, slot: Slot)
    ensures Solid(ValueText(m, slot)) && ',' !in ValueText(m, slot)
  {
    PrintedIsNumeric(Code(m, slot));
    match slot
    case ButtonSlot(_) =>
      NumericIsSolid('b', Printed(Code(m, slot)));
    case HatSlot(d) =>
      PrintedIsNumeric(DirectionOf(m, d));
      NumericIsSolid('h', Printed(Code(m, slot)) + ("." + Printed(DirectionOf(m, d))));
    case AxisSlot(_) =>
      NumericIsSolid('a', Printed(Code(m, slot)));
  }

  lemma EntryShape(m: Mapping, slot: Slot)
    ensures Entry(m, slot) == KeyOf(slot) + ":" + ValueText(m, slot)
  {
    match slot
    case ButtonSlot(b) => Regrouped(ButtonKey(b), 'b', Printed(Code(m, slot)));
    case HatSlot(d) => RegroupedHat(PadKey(d), Printed(Code(m, slot)), Printed(DirectionOf(m, d)));
    case AxisSlot(a) => Regrouped(AxisKey(a), 'a', Printed(Code(m, slot)));
  }

  lemma Regrouped(key: string, c: char, code: string)
    ensures key + [':', c] + code == key + ":" + ([c] + code)
  {
  }

  lemma RegroupedHat(key: string, code: string, direction: string)
    ensures key + ":h" + code + "." + direction == key + ":" + ("h" + (code + ("." + direction)))
  {
    Regrouped(key, 'h', code + ("." + direction));
    assert key + ":h" + code + "." + direction == key + ":h" + (code + ("." + direction));
  }

  lemma ReadCode(c: char, code: int)
    requires c == 'a' || c == 'b'
    ensures ReadValue([c] + Printed(code)) == if c == 'b' then ButtonCode(code) else AxisCode(code, false)
  {
    var v := [c] + Printed(code);
    assert v[1..] == Printed(code) + "";
    ScanPrinted(code, "");
  }

  lemma ReadHat(code: int, direction: int)
    ensures ReadValue("h" + (Printed(code) + ("." + Printed(direction)))) == HatCode(code, direction)
  {
    ScanPrinted(code, "." + Printed(direction));
    ScanPrinted(direction, "");
    assert Printed(direction) + "" == Printed(direction);
    ReadHatText(Printed(code), Printed(direction), code, direction);
  }

  lemma ReadHatText(a: string, b: string, code: int, direction: int)
    requires ScanInt(a + ("." + b)) == Int(code, "." + b) && ScanInt(b) == Int(direction, "")
    ensures ReadValue("h" + (a + ("." + b))) == HatCode(code, direction)
  {
    assert ("h" + (a + ("." + b)))[1..] == a + ("." + b);
    assert ("." + b)[1..] == b;
  }

  function ValueOf(from: Mapping, slot: Slot): Value {
    match slot
    case ButtonSlot(_) => ButtonCode(Code(from, slot))
    case HatSlot(d) => HatCode(Code(from, slot), DirectionOf(from, d))
    case AxisSlot(_) => AxisCode(Code(from, slot), false)
  }

  lemma ReadText(from: Mapping, slot: Slot)
    ensures ReadValue(ValueText(from, slot)) == ValueOf(from, slot)
  {
    match slot
    case ButtonSlot(_) => ReadCode('b', Code(from, slot));
    case HatSlot(d) => ReadHat(Code(from, slot), DirectionOf(from, d));
    case AxisSlot(_) => ReadCode('a', Code(from, slot));
  }

  lemma StoredIsCopied(m: Mapping, from: Mapping, slot: Slot)
    ensures Stored(m, KeyOf(slot), ValueOf(from, slot)) == Copied(m, from, slot)
  {
    match slot
    case ButtonSlot(b) => ButtonKeyIsFound(b);
    case HatSlot(d) => PadKeyIsName(d);
    case AxisSlot(a) => AxisKeyIsName(a);
  }

  lemma ApplyPair(m: Mapping, key: string, value: string)
    requires NameOnly(key) && Solid(value)
    ensures Apply(m, key + ":" + value) == Stored(m, key, ReadValue(value))
  {
    assert value + "" == value;
    SplitPair(key, value, "");
  }

  lemma EntryApplied(m: Mapping, from: Mapping, slot: Slot)
    ensures Apply(m, Entry(from, slot)) == Copied(m, from, slot)
  {
    EntryShape(from, slot);
    ValueIsSolid(from, slot);
    KeyIsName(slot);
    ApplyPair(m, KeyOf(slot), ValueText(from, slot));
    ReadText(from, slot);
    StoredIsCopied(m, from, slot);
  }

  lemma EntryIsToken(from: Mapping, slot: Slot)
    ensures Entry(from, slot) != "" && ',' !in Entry(from, slot)
  {
    EntryShape(from, slot);
    ValueIsSolid(from, slot);
    KeyIsName(slot);
  }

  lemma ApplyNext(m: Mapping, t: string, rest: string)
    requires t != "" && ',' !in t
    ensures ApplyAll(m, t + "," + rest) == ApplyAll(Apply(m, t), rest)
  {
    TokenThen(t, rest);
  }

  lemma ApplyLast(m: Mapping, t: string)
    requires t != "" && ',' !in t
    ensures ApplyAll(m, t) == Apply(m, t)
  {
    LastToken(t);
    assert NextToken("") == End;
    assert ApplyAll(Apply(m, t), "") == Apply(m, t);
  }

  // ----- all entries -----

  function CopiedAll(m: Mapping, from: Mapping, slots: seq<Slot>): Mapping
    decreases |slots|
  {
    if slots == [] then m
    else CopiedAll(CopiedIf(m, from, slots[0]), from, slots[1..])
  }

  /** An entry is printed, and so read, only where there is a code. */
  function CopiedIf(m: Mapping, from: Mapping, slot: Slot): Mapping {
    if Code(from, slot) > -1 then Copied(m, from, slot) else m
  }

  lemma {:induction false} EntriesApplied(m: Mapping, from: Mapping, slots: seq<Slot>, tail: string)
    ensures ApplyAll(m, Entries(from, slots) + tail) == ApplyAll(CopiedAll(m, from, slots), tail)
    decreases |slots|
  {
    if slots == [] {
      assert Entries(from, slots) + tail == tail;
    } else {
      var slot, rest := slots[0], Entries(from, slots[1..]) + tail;
      assert Entries(from, slots) + tail == Output(from, slot) + rest;
      if Code(from, slot) > -1 {
        EntryIsToken(from, slot);
        ApplyNext(m, Entry(from, slot), rest);
        EntryApplied(m, from, slot);
        EntriesApplied(Copied(m, from, slot), from, slots[1..], tail);
      } else {
        assert "" + rest == rest;
        EntriesApplied(m, from, slots[1..], tail);
      }
    }
  }

  lemma ButtonNext(m: Mapping, from: Mapping, slot: Slot, b: Button)
    requires b in from.button && IsShort(from.button[b]) && b in m.button
    ensures b in CopiedIf(m, from, slot).button
    ensures CopiedIf(m, from, slot).button[b]
            == if slot == ButtonSlot(b) && from.button[b] > -1 then from.button[b] else m.button[b]
  {
  }

  lemma AxisNext(m: Mapping, from: Mapping, slot: Slot, a: Axis)
    requires a in from.axis && IsShort(from.axis[a]) && a in m.axis && a in m.reversed
    ensures a in CopiedIf(m, from, slot).axis && a in CopiedIf(m, from, slot).reversed
    ensures CopiedIf(m, from, slot).axis[a]
            == if slot == AxisSlot(a) && from.axis[a] > -1 then from.axis[a] else m.axis[a]
    ensures CopiedIf(m, from, slot).reversed[a]
            == if slot == AxisSlot(a) && from.axis[a] > -1 && IsStick(a) then false else m.reversed[a]
  {
    match slot
    case ButtonSlot(_) =>
    case HatSlot(_) =>
    case AxisSlot(other) =>
      if other == a {
        assert AxisScaling.ToShort(from.axis[a]) == from.axis[a];
      }
  }

  lemma HatNext(m: Mapping, from: Mapping, slot: Slot, d: Pad)
    requires d in from.hat && IsShort(from.hat[d]) && d in from.direction && IsShort(from.direction[d])
    requires d in m.hat && d in m.direction
    ensures d in CopiedIf(m, from, slot).hat && d in CopiedIf(m, from, slot).direction
    ensures CopiedIf(m, from, slot).hat[d]
            == if slot == HatSlot(d) && from.hat[d] > -1 then from.hat[d] else m.hat[d]
    ensures CopiedIf(m, from, slot).direction[d]
            == if slot == HatSlot(d) && from.hat[d] > -1 then from.direction[d] else m.direction[d]
  {
    match slot
    case ButtonSlot(_) =>
    case HatSlot(_) =>
    case AxisSlot(_) =>
  }

  lemma {:induction false} ButtonAfter(m: Mapping, from: Mapping, slots: seq<Slot>, b: Button)
    requires IsStruct(from) && b in m.button
    ensures b in CopiedAll(m, from, slots).button
    ensures CopiedAll(m, from, slots).button[b]
            == if ButtonSlot(b) in slots && from.button[b] > -1 then from.button[b] else m.button[b]
    decreases |slots|
  {
    if slots != [] {
      ButtonNext(m, from, slots[0], b);
      ButtonAfter(CopiedIf(m, from, slots[0]), from, slots[1..], b);
    }
  }

  lemma {:induction false} AxisAfter(m: Mapping, from: Mapping, slots: seq<Slot>, a: Axis)
    requires IsStruct(from) && a in m.axis && a in m.reversed
    ensures a in CopiedAll(m, from, slots).axis && a in CopiedAll(m, from, slots).reversed
    ensures CopiedAll(m, from, slots).axis[a]
            == if AxisSlot(a) in slots && from.axis[a] > -1 then from.axis[a] else m.axis[a]
    ensures CopiedAll(m, from, slots).reversed[a]
            == if AxisSlot(a) in slots && from.axis[a] > -1 && IsStick(a) then false else m.reversed[a]
    decreases |slots|
  {
    if slots != [] {
      AxisNext(m, from, slots[0], a);
      AxisAfter(CopiedIf(m, from, slots[0]), from, slots[1..], a);
    }
  }

  lemma {:induction false} HatAfter(m: Mapping, from: Mapping, slots: seq<Slot>, d: Pad)
    requires IsStruct(from) && d in m.hat && d in m.direction
    ensures d in CopiedAll(m, from, slots).hat && d in CopiedAll(m, from, slots).direction
    ensures CopiedAll(m, from, slots).hat[d]
            == if HatSlot(d) in slots && from.hat[d] > -1 then from.hat[d] else m.hat[d]
    ensures CopiedAll(m, from, slots).direction[d]
            == if HatSlot(d) in slots && from.hat[d] > -1 then from.direction[d] else m.direction[d]
    decreases |slots|
  {
    if slots != [] {
      HatNext(m, from, slots[0], d);
      HatAfter(CopiedIf(m, from, slots[0]), from, slots[1..], d);
    }
  }

  lemma {:induction false} HeaderAfter(m: Mapping, from: Mapping, slots: seq<Slot>)
    ensures CopiedAll(m, from, slots).guid == m.guid && CopiedAll(m, from, slots).name == m.name
    decreases |slots|
  {
    if slots != [] {
      HeaderAfter(CopiedIf(m, from, slots[0]), from, slots[1..]);
    }
  }

  lemma ButtonPrinted(b: Button)
    ensures ButtonSlot(b) in ORDER
  {
    match b
    case A => assert ORDER[0] == ButtonSlot(b);
    case B => assert ORDER[1] == ButtonSlot(b);
    case X => assert ORDER[2] == ButtonSlot(b);
    case Y => assert ORDER[3] == ButtonSlot(b);
    case Start => assert ORDER[4] == ButtonSlot(b);
    case Guide => assert ORDER[5] == ButtonSlot(b);
    case Back => assert ORDER[6] == ButtonSlot(b);
    case LeftStick => assert ORDER[7] == ButtonSlot(b);
    case RightStick => assert ORDER[8] == ButtonSlot(b);
    case LeftShoulder => assert ORDER[9] == ButtonSlot(b);
    case RightShoulder => assert ORDER[10] == ButtonSlot(b);
    case DpUp => assert ORDER[11] == ButtonSlot(b);
    case DpLeft => assert ORDER[12] == ButtonSlot(b);
    case DpDown => assert ORDER[13] == ButtonSlot(b);
    case DpRight => assert ORDER[14] == ButtonSlot(b);
    case LeftTriggerButton => assert ORDER[25] == ButtonSlot(b);
    case RightTriggerButton => assert ORDER[26] == ButtonSlot(b);
  }

  lemma OthersPrinted(a: Axis, d: Pad)
    ensures AxisSlot(a) in ORDER && HatSlot(d) in ORDER
  {
    assert ORDER[15] == HatSlot(Up) && ORDER[16] == HatSlot(Left);
    assert ORDER[17] == HatSlot(Down) && ORDER[18] == HatSlot(Right);
    assert ORDER[19] == AxisSlot(LeftX) && ORDER[20] == AxisSlot(LeftY) && ORDER[21] == AxisSlot(RightX);
    assert ORDER[22] == AxisSlot(RightY) && ORDER[23] == AxisSlot(LeftTrigger) && ORDER[24] == AxisSlot(RightTrigger);
  }

  /** Every field has its place in the printed order. */
  lemma EachPrinted()
    ensures forall b: Button :: ButtonSlot(b) in ORDER
    ensures forall a: Axis :: AxisSlot(a) in ORDER
    ensures forall d: Pad :: HatSlot(d) in ORDER
  {
    forall b: Button
      ensures ButtonSlot(b) in ORDER
    {
      ButtonPrinted(b);
    }
    forall a: Axis, d: Pad
      ensures AxisSlot(a) in ORDER && HatSlot(d) in ORDER
    {
      OthersPrinted(a, d);
    }
  }

  lemma TrailerApplied(m: Mapping)
    ensures ApplyAll(m, TRAILER) == m.(platform := "Linux")
  {
    TrailerSplits();
    ApplyLast(m, TRAILER);
  }

  lemma TrailerSplits()
    ensures SplitOption(TRAILER) == Pair("platform", "Linux")
    ensures ',' !in TRAILER
  {
    SplitPair("platform", "Linux", "\n");
  }

  // ----- the round trip -----

  /** What the header of a printed mapping can carry. */
  predicate HeaderCarries(m: Mapping) {
    m.guid != "" && m.name != "" && ',' !in m.guid && ',' !in m.name
  }

  /** What the entries of a printed mapping can carry: no reversal, no direction without a hat. */
  ghost predicate EntriesCarry(m: Mapping)
    requires IsStruct(m)
  {
    && (forall b: Button :: m.button[b] >= -1)
    && (forall a: Axis :: m.axis[a] >= -1 && (IsStick(a) && m.axis[a] > -1 ==> !m.reversed[a]))
    && (forall d: Pad :: m.hat[d] >= -1 && (m.hat[d] == -1 ==> m.direction[d] == -1))
  }

  /** Agreement in all a mapping says about a device: reversal flags matter for present sticks only. */
  ghost predicate SameEntries(r: Mapping, m: Mapping)
    requires IsStruct(m)
  {
    && (forall b: Button :: b in r.button && r.button[b] == m.button[b])
    && (forall a: Axis :: a in r.axis && a in r.reversed && r.axis[a] == m.axis[a]
                          && (IsStick(a) && m.axis[a] > -1 ==> r.reversed[a] == m.reversed[a]))
    && (forall d: Pad :: d in r.hat && d in r.direction && r.hat[d] == m.hat[d] && r.direction[d] == m.direction[d])
  }

  ghost predicate Restored(r: Option<Mapping>, m: Mapping)
    requires IsStruct(m)
  {
    r.Some? && r.value.guid == m.guid && r.value.name == m.name && SameEntries(r.value, m)
  }

  lemma ParseOfPrint(m: Mapping, junk: Mapping)
    requires IsStruct(m) && HeaderCarries(m)
    ensures Parse(Print(m), junk)
            == Some(CopiedAll(Mappings.Cleared(m.guid, m.name, junk), m, ORDER).(platform := "Linux"))
  {
    var body := Entries(m, ORDER) + TRAILER;
    TokenThen(m.guid, m.name + "," + body);
    TokenThen(m.name, body);
    var start := Mappings.Cleared(m.guid, m.name, junk);
    EntriesApplied(start, m, ORDER, TRAILER);
    TrailerApplied(CopiedAll(start, m, ORDER));
  }

  /** What the parser makes of the entries: the present codes, -1 for the others. */
  ghost predicate Reread(r: Mapping, m: Mapping)
    requires IsStruct(m)
  {
    && (forall b: Button :: b in r.button && r.button[b] == PresentOnly(m.button[b]))
    && (forall a: Axis :: a in r.axis && r.axis[a] == PresentOnly(m.axis[a]))
    && (forall a: Axis :: a in r.reversed && (IsStick(a) && m.axis[a] > -1 ==> !r.reversed[a]))
    && (forall d: Pad :: d in r.hat && r.hat[d] == PresentOnly(m.hat[d]))
    && (forall d: Pad :: d in r.direction && r.direction[d] == if m.hat[d] > -1 then m.direction[d] else -1)
  }

  function PresentOnly(code: int): int {
    if code > -1 then code else -1
  }

  lemma ButtonsReread(c: Mapping, m: Mapping, slots: seq<Slot>)
    requires forall b: Button :: ButtonSlot(b) in slots
    requires IsStruct(m) && forall b: Button :: b in c.button && c.button[b] == -1
    ensures var r := CopiedAll(c, m, slots);
            forall b: Button :: b in r.button && r.button[b] == PresentOnly(m.button[b])
  {
    forall b: Button
      ensures b in CopiedAll(c, m, slots).button && CopiedAll(c, m, slots).button[b] == PresentOnly(m.button[b])
    {
      ButtonAfter(c, m, slots, b);
    }
  }

  lemma AxesReread(c: Mapping, m: Mapping, slots: seq<Slot>)
    requires forall a: Axis :: AxisSlot(a) in slots
    requires IsStruct(m) && (forall a: Axis :: a in c.reversed) && forall a: Axis :: a in c.axis && c.axis[a] == -1
    ensures var r := CopiedAll(c, m, slots);
            && (forall a: Axis :: a in r.axis && r.axis[a] == PresentOnly(m.axis[a]))
            && (forall a: Axis :: a in r.reversed && (IsStick(a) && m.axis[a] > -1 ==> !r.reversed[a]))
  {
    forall a: Axis
      ensures a in CopiedAll(c, m, slots).axis && CopiedAll(c, m, slots).axis[a] == PresentOnly(m.axis[a])
      ensures a in CopiedAll(c, m, slots).reversed
      ensures IsStick(a) && m.axis[a] > -1 ==> !CopiedAll(c, m, slots).reversed[a]
    {
      AxisAfter(c, m, slots, a);
    }
  }

  lemma HatsReread(c: Mapping, m: Mapping, slots: seq<Slot>)
    requires forall d: Pad :: HatSlot(d) in slots
    requires IsStruct(m) && forall d: Pad :: d in c.hat && c.hat[d] == -1 && d in c.direction && c.direction[d] == -1
    ensures var r := CopiedAll(c, m, slots);
            && (forall d: Pad :: d in r.hat && r.hat[d] == PresentOnly(m.hat[d]))
            && (forall d: Pad :: d in r.direction && r.direction[d] == if m.hat[d] > -1 then m.direction[d] else -1)
  {
    forall d: Pad
      ensures d in CopiedAll(c, m, slots).hat && CopiedAll(c, m, slots).hat[d] == PresentOnly(m.hat[d])
      ensures d in CopiedAll(c, m, slots).direction
      ensures CopiedAll(c, m, slots).direction[d] == if m.hat[d] > -1 then m.direction[d] else -1
    {
      HatAfter(c, m, slots, d);
    }
  }

  lemma CopiedIsReread(c: Mapping, m: Mapping)
    requires IsStruct(m) && (forall a: Axis :: a in c.reversed)
    requires forall b: Button :: b in c.button && c.button[b] == -1
    requires forall a: Axis :: a in c.axis && c.axis[a] == -1
    requires forall d: Pad :: d in c.hat && c.hat[d] == -1 && d in c.direction && c.direction[d] == -1
    ensures Reread(CopiedAll(c, m, ORDER), m)
  {
    EachPrinted();
    ButtonsReread(c, m, ORDER);
    AxesReread(c, m, ORDER);
    HatsReread(c, m, ORDER);
  }

  /** The fields of the result, one by one. */
  lemma ParsedFields(m: Mapping, junk: Mapping)
    requires IsStruct(m) && HeaderCarries(m) && IsStruct(junk)
    ensures var r := Parse(Print(m), junk);
            r.Some? && r.value.guid == m.guid && r.value.name == m.name && Reread(r.value, m)
  {
    var c := Mappings.Cleared(m.guid, m.name, junk);
    ParseOfPrint(m, junk);
    HeaderAfter(c, m, ORDER);
    FreshStruct(m.guid, m.name, junk);
    CopiedIsReread(c, m);
  }

  lemma AllListed(b: Button, a: Axis, d: Pad)
    ensures b in ALL_BUTTONS && a in ALL_AXES && d in ALL_PADS
  {
  }

  lemma FreshStruct(guid: string, name: string, junk: Mapping)
    ensures var c := Mappings.Cleared(guid, name, junk);
            && (forall b: Button :: b in c.button && c.button[b] == -1)
            && (forall a: Axis :: a in c.axis && c.axis[a] == -1)
            && (forall d: Pad :: d in c.hat && c.hat[d] == -1 && d in c.direction && c.direction[d] == -1)
  {
    forall b: Button, a: Axis, d: Pad
      ensures b in ALL_BUTTONS && a in ALL_AXES && d in ALL_PADS
    {
      AllListed(b, a, d);
    }
  }

  /** What was reread equals what was printed exactly when the entries could carry it. */
  lemma RereadExactly(r: Mapping, m: Mapping)
    requires IsStruct(m) && Reread(r, m)
    ensures SameEntries(r, m) <==> EntriesCarry(m)
  {
    if EntriesCarry(m) {
      forall b: Button
        ensures b in r.button && r.button[b] == m.button[b]
      {
        assert m.button[b] >= -1;
      }
      forall a: Axis
        ensures a in r.axis && a in r.reversed && r.axis[a] == m.axis[a]
        ensures IsStick(a) && m.axis[a] > -1 ==> r.reversed[a] == m.reversed[a]
      {
        assert m.axis[a] >= -1;
      }
      forall d: Pad
        ensures d in r.hat && d in r.direction && r.hat[d] == m.hat[d] && r.direction[d] == m.direction[d]
      {
        assert m.hat[d] >= -1;
      }
    }
  }

  /** A parsed header is never empty and holds no comma, whatever was printed. */
  lemma ApplyKeepsHeader(m: Mapping, option: string)
    ensures Apply(m, option).guid == m.guid && Apply(m, option).name == m.name
  {
    match SplitOption(option)
    case NoPair =>
    case Pair(key, value) =>
      if key != "platform" {
        match ReadValue(value) {
          case ButtonCode(code) =>
          case AxisCode(code, tilde) =>
          case HatCode(code, direction) =>
          case Unknown =>
        }
      }
  }

  lemma {:induction false} HeaderAfterParse(m: Mapping, s: string)
    ensures ApplyAll(m, s).guid == m.guid && ApplyAll(m, s).name == m.name
    decreases |s|
  {
    match NextToken(s)
    case End =>
    case Token(option, rest) =>
      ApplyKeepsHeader(m, option);
      HeaderAfterParse(Apply(m, option), rest);
  }

  lemma ParsedHeaderCarries(s: string, junk: Mapping)
    ensures Parse(s, junk).Some? ==> HeaderCarries(Parse(s, junk).value)
  {
    match NextToken(s)
    case End =>
    case Token(guid, rest) =>
      match NextToken(rest) {
        case End =>
        case Token(name, options) =>
          HeaderAfterParse(Mappings.Cleared(guid, name, junk), options);
          PrefixCarries(guid, 32);
          PrefixCarries(name, 256);
      }
  }

  lemma PrefixCarries(s: string, n: nat)
    requires s != "" && ',' !in s && n > 0
    ensures Prefix(s, n) != "" && ',' !in Prefix(s, n)
  {
  }

  /**
   * For every struct, whatever the parser's fresh memory holds: parsing the printed
   * text restores the mapping if and only if its header and entries can carry it.
   */
  lemma RoundTripExactly(m: Mapping, junk: Mapping)
    requires IsStruct(m) && IsStruct(junk)
    ensures Restored(Parse(Print(m), junk), m) <==> HeaderCarries(m) && EntriesCarry(m)
  {
    if HeaderCarries(m) {
      ParsedFields(m, junk);
      RereadExactly(Parse(Print(m), junk).value, m);
    } else {
      ParsedHeaderCarries(Print(m), junk);
    }
  }

  /** A mapping as evdev_map fills it in, with the left stick's x axis found to be reversed. */
  function ReversedStick(): Mapping {
    Mapping("default", "pad", "", map b: Button | b in ALL_BUTTONS :: -1,
            map a: Axis | a in ALL_AXES :: if a == LeftX then 0 else -1, map a: Axis | a in ALL_AXES :: a == LeftX,
            map d: Pad | d in ALL_PADS :: -1, map d: Pad | d in ALL_PADS :: -1)
  }

  lemma ReversedStickFields(m: Mapping)
    requires m == ReversedStick()
    ensures IsStruct(m) && HeaderCarries(m) && m.axis[LeftX] == 0 && m.reversed[LeftX]
  {
    forall b: Button, a: Axis, d: Pad
      ensures b in ALL_BUTTONS && a in ALL_AXES && d in ALL_PADS
    {
      AllListed(b, a, d);
    }
  }

  lemma ReversalIsLost(m: Mapping, a: Axis, junk: Mapping)
    requires IsStruct(m) && IsStruct(junk) && IsStick(a) && m.axis[a] > -1 && m.reversed[a]
    ensures !Restored(Parse(Print(m), junk), m)
  {
    RoundTripExactly(m, junk);
  }

  /** What it prints parses as a stick that is not reversed. */
  lemma ReversedStickIsLost(m: Mapping, junk: Mapping)
    requires m == ReversedStick() && IsStruct(junk)
    ensures IsStruct(m) && !Restored(Parse(Print(m), junk), m)
  {
    ReversedStickFields(m);
    ReversalIsLost(m, LeftX, junk);
  }
}
