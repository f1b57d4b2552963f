/**
 * Which mapping a new input device gets
 * (client/moonlight-embedded-mod/src/input/mapping.c, src/main.c, src/input/evdev.c).
 */
module MappingSelection {
  import opened Text
  import opened Mappings

  // ----- the list of mappings -----

  function Present<T>(xs: seq<Option<T>>): seq<T> {
    if xs == [] then [] else (if xs[0].Some? then [xs[0].value] else []) + Present(xs[1..])
  }

  lemma {:induction false} PresentAppend<T>(xs: seq<Option<T>>, x: Option<T>)
    ensures Present(xs + [x]) == Present(xs) + if x.Some? then [x.value] else []
  {
    if xs == [] {
      assert xs + [x] == [x] && [x][1..] == [];
    } else {
      var rest := xs[1..];
      var head, last := if xs[0].Some? then [xs[0].value] else [], if x.Some? then [x.value] else [];
      assert xs + [x] == [xs[0]] + (rest + [x]) && (xs + [x])[1..] == rest + [x];
      PresentAppend(rest, x);
      assert head + (Present(rest) + last) == (head + Present(rest)) + last;
    }
  }

  function ParsedLines(lines: seq<string>, junk: seq<Mapping>): (r: seq<Option<Mapping>>)
    requires |junk| == |lines|
    ensures |r| == |lines|
  {
    seq(|lines|, i requires 0 <= i < |lines| => Parse(lines[i], junk[i]))
  }

  /** The lines that parse, in file order; each malloc returns memory of its own. */
  function Parsed(lines: seq<string>, junk: seq<Mapping>): seq<Mapping>
    requires |junk| == |lines|
  {
    Present(ParsedLines(lines, junk))
  }

  /** The struct as a value: the list holds structs that nobody changes any more. */
  method Copy(s: MappingStruct) returns (m: Mapping)
    ensures m == s.Value()
  {
    m := Mapping(s.guid, s.name, s.platform, s.button, s.axis, s.reversed, s.hat, s.direction);
  }

  lemma LoadedNext(ps: seq<Option<Mapping>>, i: nat)
    requires i < |ps|
    ensures Reversed(Present(ps[..i + 1]))
            == if ps[i].Some? then [ps[i].value] + Reversed(Present(ps[..i])) else Reversed(Present(ps[..i]))
  {
    assert ps[..i + 1] == ps[..i] + [ps[i]];
    PresentAppend(ps[..i], ps[i]);
    if ps[i].Some? {
      ReversedAppend(Present(ps[..i]), ps[i].value);
    } else {
      assert Present(ps[..i]) + [] == Present(ps[..i]);
    }
  }

  /** mapping_load: every parsed line is put in front of the list. */
  method MappingLoad(lines: seq<string>, junk: seq<Mapping>) returns (mappings: seq<Mapping>)
    requires |junk| == |lines|
    ensures mappings == Reversed(Parsed(lines, junk))
  {
    mappings := [];
    ghost var ps := ParsedLines(lines, junk);
    for i := 0 to |lines|
      invariant mappings == Reversed(Present(ps[..i]))
    {
      LoadedNext(ps, i);
      var parsed := MappingParse(lines[i], junk[i]);
      if parsed != null {
        var m := Copy(parsed);
        mappings := [m] + mappings;
      }
    }
    assert ps[..|lines|] == ps;
  }

  // ----- the choice -----

  /** strncmp with length 32 finds no difference. */
  predicate SameGuid(a: string, b: string) {
    Prefix(a, 32) == Prefix(b, 32)
  }

  /** The first mapping with the guid, in the given order. */
  function First(ms: seq<Mapping>, guid: string): Option<Mapping> {
    if ms == [] then None
    else if SameGuid(guid, ms[0].guid) then Some(ms[0]) else First(ms[1..], guid)
  }

  function Last(ms: seq<Mapping>, guid: string): Option<Mapping> {
    if ms == [] then None
    else if SameGuid(guid, ms[|ms| - 1].guid) then Some(ms[|ms| - 1]) else Last(ms[..|ms| - 1], guid)
  }

  datatype Device = Device(guid: string, isReceiver: bool, isKeyboard: bool, isMouse: bool)

  /**
   * The rule, with the file's mappings in file order and the one of the environment
   * after them: the last with the device's guid; for an Xbox receiver otherwise the
   * first named xwc; for a device that is no keyboard and no mouse otherwise the
   * first named default.
   */
  function Rule(known: seq<Mapping>, device: Device): Option<Mapping> {
    var own := Last(known, device.guid);
    if own.Some? then own
    else
      var xwc := if device.isReceiver then First(known, "xwc") else None;
      if xwc.Some? then xwc
      else if device.isKeyboard || device.isMouse then None else First(known, "default")
  }

  /** The walk over the list in evdev_create. */
  method SelectMapping(mappings: seq<Mapping>, device: Device) returns (chosen: Option<Mapping>)
    ensures chosen == Rule(Reversed(mappings), device)
  {
    assert "default"[0] != "xwc"[0];
    var defaultMapping: Option<Mapping>, xwcMapping: Option<Mapping> := None, None;
    var i := 0;
    while i < |mappings| && !SameGuid(device.guid, mappings[i].guid)
      invariant i <= |mappings|
      invariant First(mappings, device.guid) == First(mappings[i..], device.guid)
      invariant defaultMapping == Last(mappings[..i], "default")
      invariant xwcMapping == Last(mappings[..i], "xwc")
    {
      assert mappings[..i + 1][..i] == mappings[..i] && mappings[i..][1..] == mappings[i + 1..];
      if SameGuid("default", mappings[i].guid) {
        defaultMapping := Some(mappings[i]);
      } else if SameGuid("xwc", mappings[i].guid) {
        xwcMapping := Some(mappings[i]);
      }
      i := i + 1;
    }
    LastOfReversed(mappings, device.guid);
    chosen := if i < |mappings| then Some(mappings[i]) else None;
    if i == |mappings| {
      assert mappings[..i] == mappings;
      FirstOfReversed(mappings, "default");
      FirstOfReversed(mappings, "xwc");
      if device.isReceiver {
        chosen := xwcMapping;
      }
    }
    if chosen == None && !(device.isKeyboard || device.isMouse) {
      chosen := defaultMapping;
    }
  }

  lemma {:induction false} LastOfReversed(ms: seq<Mapping>, guid: string)
    ensures Last(Reversed(ms), guid) == First(ms, guid)
    decreases |ms|
  {
    if ms != [] {
      LastOfReversed(ms[1..], guid);
      var r := Reversed(ms);
      assert r[..|r| - 1] == Reversed(ms[1..]) && r[|r| - 1] == ms[0];
    }
  }

  lemma FirstOfReversed(ms: seq<Mapping>, guid: string)
    ensures First(Reversed(ms), guid) == Last(ms, guid)
  {
    ReversedTwice(ms);
    LastOfReversed(Reversed(ms), guid);
  }

  /**
   * The list of main.c: the environment's mapping in front of the file's reversed ones.
   * None stands for the crash on an environment text that does not parse.
   */
  method MappingList(lines: seq<string>, junk: seq<Mapping>, env: Option<string>, envJunk: Mapping)
    returns (mappings: Option<seq<Mapping>>)
    requires |junk| == |lines|
    ensures mappings == None <==> env.Some? && Parse(env.value, envJunk) == None
    ensures mappings.Some? ==>
              Reversed(mappings.value)
              == Parsed(lines, junk) + if env.Some? then [Parse(env.value, envJunk).value] else []
  {
    var file := MappingLoad(lines, junk);
    ReversedTwice(Parsed(lines, junk));
    if env == None {
      assert Parsed(lines, junk) + [] == Parsed(lines, junk);
      return Some(file);
    }
    var parsed := MappingParse(env.value, envJunk);
    if parsed == null {
      return None;
    }
    var m := Copy(parsed);
    ReversedAppend(Parsed(lines, junk), m);
    ReversedTwice(Parsed(lines, junk) + [m]);
    return Some([m] + file);
  }

  /** The environment's mapping wins on a guid match, else the last line of the file. */
  lemma OwnMappingWins(file: seq<Mapping>, env: Mapping, device: Device)
    ensures SameGuid(device.guid, env.guid) ==> Rule(file + [env], device) == Some(env)
    ensures !SameGuid(device.guid, env.guid) && Last(file, device.guid).Some? ==>
              Rule(file + [env], device) == Last(file, device.guid)
  {
    assert (file + [env])[..|file|] == file;
  }

  lemma {:induction false} FirstOfConcat(ms: seq<Mapping>, m: Mapping, guid: string)
    ensures First(ms + [m], guid)
            == if First(ms, guid).Some? then First(ms, guid) else if SameGuid(guid, m.guid) then Some(m) else None
  {
    if ms == [] {
      assert ms + [m] == [m] && [m][1..] == [];
    } else {
      assert (ms + [m])[1..] == ms[1..] + [m];
      FirstOfConcat(ms[1..], m, guid);
    }
  }

  /** Without a match, the file's first fallback line wins over a fallback of the environment. */
  lemma FileFallbackWins(file: seq<Mapping>, env: Mapping, device: Device)
    requires Last(file + [env], device.guid) == None
    ensures device.isReceiver && First(file, "xwc").Some? ==> Rule(file + [env], device) == First(file, "xwc")
    ensures !device.isReceiver && !device.isKeyboard && !device.isMouse && First(file, "default").Some? ==>
              Rule(file + [env], device) == First(file, "default")
    ensures First(file + [env], "xwc") == None && (device.isKeyboard || device.isMouse) ==>
              Rule(file + [env], device) == None
  {
    FirstOfConcat(file, env, "xwc");
    FirstOfConcat(file, env, "default");
  }

  // ----- the rule by positions -----

  lemma {:induction false} FirstAt(ms: seq<Mapping>, guid: string, k: nat)
    requires k < |ms| && SameGuid(guid, ms[k].guid) && forall j :: 0 <= j < k ==> !SameGuid(guid, ms[j].guid)
    ensures First(ms, guid) == Some(ms[k])
  {
    if k > 0 {
      FirstAt(ms[1..], guid, k - 1);
    }
  }

  lemma {:induction false} LastAt(ms: seq<Mapping>, guid: string, k: nat)
    requires k < |ms| && SameGuid(guid, ms[k].guid) && forall j :: k < j < |ms| ==> !SameGuid(guid, ms[j].guid)
    ensures Last(ms, guid) == Some(ms[k])
    decreases |ms|
  {
    if k < |ms| - 1 {
      LastAt(ms[..|ms| - 1], guid, k);
    }
  }

  ghost predicate Knows(ms: seq<Mapping>, guid: string) {
    exists k :: 0 <= k < |ms| && SameGuid(guid, ms[k].guid)
  }

  lemma {:induction false} NoneKnown(ms: seq<Mapping>, guid: string)
    requires !Knows(ms, guid)
    ensures First(ms, guid) == None && Last(ms, guid) == None
    decreases |ms|
  {
    if ms != [] {
      assert !SameGuid(guid, ms[0].guid) && !SameGuid(guid, ms[|ms| - 1].guid);
      NoneKnown(ms[1..], guid);
      NoneKnown(ms[..|ms| - 1], guid);
    }
  }

  /** The last mapping with the device's own guid comes before all others. */
  lemma OwnIsChosen(known: seq<Mapping>, device: Device, k: nat)
    requires k < |known| && SameGuid(device.guid, known[k].guid)
    requires forall j :: k < j < |known| ==> !SameGuid(device.guid, known[j].guid)
    ensures Rule(known, device) == Some(known[k])
  {
    LastAt(known, device.guid, k);
  }

  /** A receiver without one gets the first mapping named xwc. */
  lemma ReceiverGetsXwc(known: seq<Mapping>, device: Device, k: nat)
    requires !Knows(known, device.guid) && device.isReceiver && k < |known| && SameGuid("xwc", known[k].guid)
    requires forall j :: 0 <= j < k ==> !SameGuid("xwc", known[j].guid)
    ensures Rule(known, device) == Some(known[k])
  {
    NoneKnown(known, device.guid);
    FirstAt(known, "xwc", k);
  }

  /** Without either, the first mapping named default is for all but keyboards and mice; receivers are no exception. */
  lemma OthersGetDefault(known: seq<Mapping>, device: Device, k: nat)
    requires !Knows(known, device.guid) && (device.isReceiver ==> !Knows(known, "xwc"))
    requires k < |known| && SameGuid("default", known[k].guid)
    requires forall j :: 0 <= j < k ==> !SameGuid("default", known[j].guid)
    ensures Rule(known, device) == if device.isKeyboard || device.isMouse then None else Some(known[k])
  {
    NoneKnown(known, device.guid);
    if device.isReceiver { NoneKnown(known, "xwc"); }
    FirstAt(known, "default", k);
  }

  lemma NothingFits(known: seq<Mapping>, device: Device)
    requires !Knows(known, device.guid) && (device.isReceiver ==> !Knows(known, "xwc")) && !Knows(known, "default")
    ensures Rule(known, device) == None
  {
    NoneKnown(known, device.guid);
    if device.isReceiver { NoneKnown(known, "xwc"); }
    NoneKnown(known, "default");
  }

  /** Guids are the same when their first 32 characters are. */
  lemma GuidsCompared(a: string, b: string)
    ensures |a| <= 32 && |b| <= 32 ==> (SameGuid(a, b) <==> a == b)
    ensures |a| >= 32 && |b| >= 32 ==> (SameGuid(a, b) <==> a[..32] == b[..32])
    ensures |a| < 32 <= |b| ==> !SameGuid(a, b) && !SameGuid(b, a)
  {
  }
}
