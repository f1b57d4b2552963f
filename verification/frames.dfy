/**
 * Who owns a video frame (client/moonlight-embedded-mod/src/video/imx.c).
 *
 * The decoder thread sends decoded frames through one pipe; the display thread
 * shows the newest, and hands skipped and dequeued ones back through another.
 * Each step below is one system call of one thread, so that runs interleave the
 * two threads in every way.
 */
module Frames {
  import opened Text

  const THRESHOLD := 2

  /** A frame index, with the number of the decoding that filled it; the source passes the index only. */
  datatype Picture = Picture(frame: nat, number: nat)

  /** Where the display thread stands in frame_handle, with its local frames. */
  datatype Handler =
    | Idle
    | Reading(prev: Option<Picture>)
    | Skipping(skipped: Picture, picture: Picture)
    | Queueing(picture: Picture)
    | Checking
    | Dequeueing
    | Returning(picture: Picture)

  /** Where the decoder thread stands in decoder_renderer_submit_decode_unit. */
  datatype Decoder =
    | Waiting
    | Draining
    | Clearing(picture: Picture)
    | Sending(picture: Picture)

  /** `clock` counts decodings and `shown` is all that was ever queued for display. */
  datatype State = State(
    free: set<nat>, pipe: seq<Picture>, display: seq<Picture>, clear: seq<Picture>, queuedCount: int,
    handler: Handler, decoder: Decoder, clock: nat, shown: seq<Picture>)

  /** The next system call; what the decoder yields is up to the environment. */
  datatype Move = Display | Decode(output: Option<nat>)

  function DisplayStep(s: State): State {
    match s.handler
    case Idle =>
      if s.pipe == [] then s else s.(handler := Reading(None))
    case Reading(prev) =>
      if s.pipe != [] then
        s.(pipe := s.pipe[1..],
           handler := if prev.Some? then Skipping(prev.value, s.pipe[0]) else Reading(Some(s.pipe[0])))
      else if prev.Some? then s.(handler := Queueing(prev.value))
      else s.(handler := Idle)  // not reached: the handler is called when the pipe is readable
    case Skipping(skipped, picture) =>
      s.(clear := s.clear + [skipped], handler := Reading(Some(picture)))
    case Queueing(picture) =>
      s.(display := s.display + [picture], queuedCount := s.queuedCount + 1, handler := Checking,
         shown := s.shown + [picture])
    case Checking =>
      s.(handler := if s.queuedCount > THRESHOLD then Dequeueing else Idle)
    case Dequeueing =>
      if s.display == [] then s.(handler := Idle)  // not reached: the count is the queue's length
      else s.(display := s.display[1..], queuedCount := s.queuedCount - 1, handler := Returning(s.display[0]))
    case Returning(picture) =>
      s.(clear := s.clear + [picture], handler := Idle)
  }

  function DecodeStep(s: State, output: Option<nat>): State {
    match s.decoder
    case Waiting => s.(decoder := Draining)
    case Draining =>
      if s.clear != [] then s.(clear := s.clear[1..], decoder := Clearing(s.clear[0]))
      else if output.Some? then
        s.(free := s.free - {output.value}, decoder := Sending(Picture(output.value, s.clock)), clock := s.clock + 1)
      else s.(decoder := Waiting)
    case Clearing(picture) => s.(free := s.free + {picture.frame}, decoder := Draining)
    case Sending(picture) => s.(pipe := s.pipe + [picture], decoder := Waiting)
  }

  function Step(s: State, m: Move): State {
    match m
    case Display => DisplayStep(s)
    case Decode(output) => DecodeStep(s, output)
  }

  /** The decoder only yields frames that it may write to. */
  predicate Allowed(s: State, m: Move) {
    m.Decode? && s.decoder == Draining && s.clear == [] && m.output.Some? ==> m.output.value in s.free
  }

  predicate Possible(s: State, ms: seq<Move>)
    decreases |ms|
  {
    ms == [] || (Allowed(s, ms[0]) && Possible(Step(s, ms[0]), ms[1..]))
  }

  function Run(s: State, ms: seq<Move>): State
    decreases |ms|
  {
    if ms == [] then s else Run(Step(s, ms[0]), ms[1..])
  }

  // ----- every frame is in exactly one place -----

  /** Pictures in the display thread's hands that are still to be shown or skipped, in order. */
  function Arriving(h: Handler): seq<Picture> {
    match h
    case Reading(prev) => if prev.Some? then [prev.value] else []
    case Skipping(skipped, picture) => [skipped, picture]
    case Queueing(picture) => [picture]
    case _ => []
  }

  function Leaving(h: Handler): seq<Picture> {
    if h.Returning? then [h.picture] else []
  }

  function Sent(d: Decoder): seq<Picture> {
    if d.Sending? then [d.picture] else []
  }

  function Cleared(d: Decoder): seq<Picture> {
    if d.Clearing? then [d.picture] else []
  }

  function Occurrences(ps: seq<Picture>, f: nat): nat {
    if ps == [] then 0 else (if ps[0].frame == f then 1 else 0) + Occurrences(ps[1..], f)
  }

  /** In how many places frame f is. */
  function Places(s: State, f: nat): nat {
    (if f in s.free then 1 else 0)
    + Occurrences(s.display, f) + Occurrences(Arriving(s.handler), f) + Occurrences(s.pipe, f)
    + Occurrences(Sent(s.decoder), f)
    + Occurrences(Leaving(s.handler), f) + Occurrences(s.clear, f) + Occurrences(Cleared(s.decoder), f)
  }

  ghost predicate Partitioned(s: State, n: nat) {
    forall f: nat :: Places(s, f) == if f < n then 1 else 0
  }

  lemma {:induction false} OccurrencesAppend(ps: seq<Picture>, p: Picture, f: nat)
    ensures Occurrences(ps + [p], f) == Occurrences(ps, f) + if p.frame == f then 1 else 0
  {
    if ps == [] {
      assert ps + [p] == [p];
    } else {
      assert (ps + [p])[1..] == ps[1..] + [p];
      OccurrencesAppend(ps[1..], p, f);
    }
  }

  lemma OccurrencesOfFew(p: Picture, q: Picture, f: nat)
    ensures Occurrences([p], f) == if p.frame == f then 1 else 0
    ensures Occurrences([p, q], f) == (if p.frame == f then 1 else 0) + if q.frame == f then 1 else 0
  {
    OccurrencesAppend([], p, f);
    OccurrencesAppend([p], q, f);
    assert [] + [p] == [p] && [p] + [q] == [p, q];
  }

  /** The display thread neither loses nor duplicates a frame. */
  lemma DisplayConserves(s: State, f: nat)
    requires s.handler == Reading(None) ==> s.pipe != []
    ensures Places(DisplayStep(s), f) == Places(s, f)
  {
    match s.handler
    case Idle =>
    case Reading(prev) =>
      if s.pipe != [] {
        OccurrencesOfFew(if prev.Some? then prev.value else s.pipe[0], s.pipe[0], f);
      }
    case Skipping(skipped, picture) =>
      OccurrencesAppend(s.clear, skipped, f);
      OccurrencesOfFew(skipped, picture, f);
      OccurrencesOfFew(picture, skipped, f);
    case Queueing(picture) =>
      OccurrencesAppend(s.display, picture, f);
      OccurrencesOfFew(picture, picture, f);
    case Checking =>
    case Dequeueing =>
      if s.display != [] { OccurrencesOfFew(s.display[0], s.display[0], f); }
    case Returning(picture) =>
      OccurrencesAppend(s.clear, picture, f);
      OccurrencesOfFew(picture, picture, f);
  }

  /** Nor does the decoder thread, as long as no frame is in two places. */
  lemma DecodeConserves(s: State, output: Option<nat>, f: nat)
    requires Places(s, f) <= 1 && Allowed(s, Decode(output))
    ensures Places(DecodeStep(s, output), f) == Places(s, f)
  {
    match s.decoder
    case Waiting =>
    case Draining =>
      var p := if s.clear != [] then s.clear[0] else Picture(if output.Some? then output.value else 0, s.clock);
      OccurrencesOfFew(p, p, f);
    case Clearing(picture) =>
      OccurrencesOfFew(picture, picture, f);
    case Sending(picture) =>
      OccurrencesAppend(s.pipe, picture, f);
      OccurrencesOfFew(picture, picture, f);
  }

  // ----- order -----

  /** All that was shown, and then all that is still to be shown or skipped. */
  function History(s: State): seq<Picture> {
    s.shown + Arriving(s.handler) + s.pipe + Sent(s.decoder)
  }

  /** Decode numbers increase along the history and stay below the clock. */
  predicate Increasing(ps: seq<Picture>, clock: nat) {
    && (forall i :: 0 <= i < |ps| ==> ps[i].number < clock)
    && (forall i, j :: 0 <= i < j < |ps| ==> ps[i].number < ps[j].number)
  }

  /** The display queue is the end of what was shown. */
  predicate Latest(s: State) {
    |s.display| <= |s.shown| && s.display == s.shown[|s.shown| - |s.display|..]
  }

  predicate CountsQueue(s: State) {
    && s.queuedCount == |s.display|
    && (match s.handler
        case Checking => s.queuedCount <= THRESHOLD + 1
        case Dequeueing => s.queuedCount == THRESHOLD + 1
        case _ => s.queuedCount <= THRESHOLD)
    && (s.handler == Reading(None) ==> s.pipe != [])
  }

  ghost predicate Inv(s: State, n: nat) {
    Partitioned(s, n) && Increasing(History(s), s.clock) && Latest(s) && CountsQueue(s)
  }

  /** The display thread changes the history only by dropping a picture it skips. */
  lemma DisplayHistory(s: State)
    requires CountsQueue(s)
    ensures History(DisplayStep(s))
            == if s.handler.Skipping? then Removed(History(s), |s.shown|) else History(s)
  {
    match s.handler
    case Reading(prev) =>
      if s.pipe != [] {
        assert Arriving(DisplayStep(s).handler) == Arriving(s.handler) + [s.pipe[0]];
        HistoryRead(s.shown, Arriving(s.handler), s.pipe, Sent(s.decoder));
      }
    case Skipping(skipped, picture) =>
      HistoryDropped(s.shown, skipped, picture, s.pipe, Sent(s.decoder));
    case Queueing(picture) =>
      assert s.shown + [picture] + [] == s.shown + [picture];
    case _ =>
  }

  lemma HistoryRead(shown: seq<Picture>, arriving: seq<Picture>, pipe: seq<Picture>, sent: seq<Picture>)
    requires pipe != []
    ensures shown + (arriving + [pipe[0]]) + pipe[1..] + sent == shown + arriving + pipe + sent
  {
    assert pipe == [pipe[0]] + pipe[1..];
  }

  lemma HistoryDropped(shown: seq<Picture>, skipped: Picture, picture: Picture, pipe: seq<Picture>, sent: seq<Picture>)
    ensures Removed(shown + [skipped, picture] + pipe + sent, |shown|) == shown + [picture] + pipe + sent
  {
  }

  lemma RemovedIncreasing(ps: seq<Picture>, k: nat, clock: nat)
    requires Increasing(ps, clock) && k < |ps|
    ensures Increasing(Removed(ps, k), clock)
  {
    var r := Removed(ps, k);
    assert forall i :: 0 <= i < |r| ==> r[i] == ps[if i < k then i else i + 1];
  }

  lemma DisplayPartitioned(s: State, n: nat)
    requires Partitioned(s, n) && CountsQueue(s)
    ensures Partitioned(DisplayStep(s), n)
  {
    forall f: nat
      ensures Places(DisplayStep(s), f) == if f < n then 1 else 0
    {
      DisplayConserves(s, f);
    }
  }

  lemma DisplayInv(s: State, n: nat)
    requires Inv(s, n)
    ensures Inv(DisplayStep(s), n)
  {
    DisplayPartitioned(s, n);
    DisplayHistory(s);
    if s.handler.Skipping? {
      RemovedIncreasing(History(s), |s.shown|, s.clock);
    }
    DisplayLatest(s);
  }

  lemma DisplayLatest(s: State)
    requires Latest(s) && CountsQueue(s)
    ensures Latest(DisplayStep(s)) && CountsQueue(DisplayStep(s))
  {
  }

  lemma DecodeHistory(s: State, output: Option<nat>)
    ensures var t := DecodeStep(s, output);
            History(t) == if t.clock == s.clock then History(s) else History(s) + [t.decoder.picture]
  {
  }

  lemma DecodePartitioned(s: State, output: Option<nat>, n: nat)
    requires Partitioned(s, n) && Allowed(s, Decode(output))
    ensures Partitioned(DecodeStep(s, output), n)
  {
    forall f: nat
      ensures Places(DecodeStep(s, output), f) == if f < n then 1 else 0
    {
      DecodeConserves(s, output, f);
    }
  }

  lemma DecodeIncreasing(s: State, output: Option<nat>)
    requires Increasing(History(s), s.clock)
    ensures Increasing(History(DecodeStep(s, output)), DecodeStep(s, output).clock)
  {
    DecodeHistory(s, output);
  }

  lemma DecodeLatest(s: State, output: Option<nat>)
    requires Latest(s) && CountsQueue(s)
    ensures Latest(DecodeStep(s, output)) && CountsQueue(DecodeStep(s, output))
  {
  }

  lemma DecodeInv(s: State, output: Option<nat>, n: nat)
    requires Inv(s, n) && Allowed(s, Decode(output))
    ensures Inv(DecodeStep(s, output), n)
  {
    DecodePartitioned(s, output, n);
    DecodeIncreasing(s, output);
    DecodeLatest(s, output);
  }

  /** After the setup all frames belong to the decoder. */
  ghost predicate Initial(s: State, n: nat) {
    (forall f: nat :: f in s.free <==> f < n)
    && s == State(s.free, [], [], [], 0, Idle, Waiting, 0, [])
  }

  lemma InitialInv(s: State, n: nat)
    requires Initial(s, n)
    ensures Inv(s, n)
  {
  }

  /** In every interleaving of the two threads, after every system call. */
  lemma {:induction false} RunInv(s: State, ms: seq<Move>, n: nat)
    requires Inv(s, n) && Possible(s, ms)
    ensures Inv(Run(s, ms), n)
    decreases |ms|
  {
    if ms != [] {
      match ms[0] {
        case Display => DisplayInv(s, n);
        case Decode(output) => DecodeInv(s, output, n);
      }
      RunInv(Step(s, ms[0]), ms[1..], n);
    }
  }

  /** With both threads between calls, each frame is free, in a pipe or on display. */
  lemma QuiescentPlaces(s: State, ms: seq<Move>, n: nat, f: nat)
    requires Initial(s, n) && Possible(s, ms) && f < n
    requires Run(s, ms).handler == Idle && Run(s, ms).decoder == Waiting
    ensures var t := Run(s, ms);
            && (if f in t.free then 1 else 0) + Occurrences(t.pipe, f) + Occurrences(t.display, f)
               + Occurrences(t.clear, f) == 1
            && |t.display| == t.queuedCount <= 2
  {
    InitialInv(s, n);
    RunInv(s, ms, n);
    assert Places(Run(s, ms), f) == 1;
  }

  // ----- whole calls -----

  function HandlerRank(h: Handler): nat {
    match h
    case Idle => 0
    case Returning(_) => 1
    case Dequeueing => 2
    case Checking => 3
    case Queueing(_) => 4
    case Reading(_) => 5
    case Skipping(_, _) => 6
  }

  /** The display thread runs on undisturbed until its handler returns. */
  function Handled(s: State): State
    decreases |s.pipe|, HandlerRank(s.handler)
  {
    if s.handler == Idle then s else Handled(DisplayStep(s))
  }

  function DecoderRank(d: Decoder): nat {
    match d
    case Waiting => 0
    case Sending(_) => 1
    case Draining => 2
    case Clearing(_) => 3
  }

  /** The decoder thread runs on undisturbed until its call returns. */
  function Submitted(s: State, output: Option<nat>): State
    decreases |s.clear|, DecoderRank(s.decoder)
  {
    if s.decoder == Waiting then s else Submitted(DecodeStep(s, output), output)
  }

  /** An undisturbed call is one of the runs. */
  lemma {:induction false} HandledIsRun(s: State) returns (ms: seq<Move>)
    ensures Possible(s, ms) && Run(s, ms) == Handled(s)
    decreases |s.pipe|, HandlerRank(s.handler)
  {
    ms := [];
    if s.handler != Idle {
      var rest := HandledIsRun(DisplayStep(s));
      ms := [Display] + rest;
      assert ms[1..] == rest;
    }
  }

  lemma {:induction false} SubmittedIsRun(s: State, output: Option<nat>) returns (ms: seq<Move>)
    requires s.decoder != Waiting && (output.Some? && !s.decoder.Sending? ==> output.value in s.free)
    ensures Possible(s, ms) && Run(s, ms) == Submitted(s, output)
    decreases |s.clear|, DecoderRank(s.decoder)
  {
    var t := DecodeStep(s, output);
    var rest := [];
    if t.decoder != Waiting {
      rest := SubmittedIsRun(t, output);
    }
    ms := [Decode(output)] + rest;
    assert ms[1..] == rest;
  }

  /** The end of a handler call, once the pipe is empty. */
  lemma HandledEnd(s: State, p: Picture)
    requires s.handler == Reading(Some(p)) && s.pipe == []
    ensures var q := s.display + [p];
            Handled(s) == if s.queuedCount + 1 > THRESHOLD
                          then s.(display := q[1..], clear := s.clear + [q[0]], handler := Idle, shown := s.shown + [p])
                          else s.(display := q, queuedCount := s.queuedCount + 1, handler := Idle,
                                  shown := s.shown + [p])
  {
    var s1 := DisplayStep(s);
    var s2 := DisplayStep(s1);
    var s3 := DisplayStep(s2);
    assert Handled(s) == Handled(s1) == Handled(s2) == Handled(s3);
    if s.queuedCount + 1 > THRESHOLD {
      var s4 := DisplayStep(s3);
      var s5 := DisplayStep(s4);
      assert Handled(s3) == Handled(s4) == Handled(s5) == s5;
    }
  }

  /** One turn of the reading loop. */
  lemma HandledRead(s: State, prev: Option<Picture>)
    requires s.handler == Reading(prev) && s.pipe != []
    ensures Handled(s)
            == Handled(s.(pipe := s.pipe[1..], handler := Reading(Some(s.pipe[0])),
                          clear := s.clear + if prev.Some? then [prev.value] else []))
  {
    var s1 := DisplayStep(s);
    if prev.Some? {
      assert Handled(s1) == Handled(DisplayStep(s1));
    } else {
      assert s.clear + [] == s.clear;
    }
  }

  lemma SubmittedEnd(s: State, output: Option<nat>)
    requires s.decoder == Draining && s.clear == []
    ensures Submitted(s, output)
            == if output.Some? then s.(free := s.free - {output.value}, clock := s.clock + 1, decoder := Waiting,
                                       pipe := s.pipe + [Picture(output.value, s.clock)])
               else s.(decoder := Waiting)
  {
    var s1 := DecodeStep(s, output);
    if output.Some? {
      assert Submitted(s1, output) == Submitted(DecodeStep(s1, output), output);
    }
  }

  lemma SubmittedClear(s: State, output: Option<nat>)
    requires s.decoder == Draining && s.clear != []
    ensures Submitted(s, output)
            == Submitted(s.(clear := s.clear[1..], free := s.free + {s.clear[0].frame}), output)
  {
    var s1 := DecodeStep(s, output);
    assert Submitted(s1, output) == Submitted(DecodeStep(s1, output), output);
  }

  /** All but the last of the first k pictures. */
  function AllBut(ps: seq<Picture>, k: nat): seq<Picture>
    requires k <= |ps|
  {
    if k == 0 then [] else ps[..k - 1]
  }

  lemma AllButNext(clear: seq<Picture>, ps: seq<Picture>, k: nat)
    requires k < |ps|
    ensures clear + AllBut(ps, k + 1) == clear + AllBut(ps, k) + if k == 0 then [] else [ps[k - 1]]
  {
  }

  class ImxRenderer {
    var pipe: seq<Picture>
    var clearPipe: seq<Picture>
    var queue: seq<Picture>
    var queuedCount: int
    var free: set<nat>
    var clock: nat
    ghost var shown: seq<Picture>

    constructor (frames: set<nat>)
      ensures Now(Idle, Waiting) == State(frames, [], [], [], 0, Idle, Waiting, 0, [])
    {
      pipe, clearPipe, queue, queuedCount, free := [], [], [], 0, frames;
      clock, shown := 0, [];
    }

    ghost function Now(handler: Handler, decoder: Decoder): State
      reads this
    {
      State(free, pipe, queue, clearPipe, queuedCount, handler, decoder, clock, shown)
    }

    /** frame_handle, called when the pipe is readable. */
    method FrameHandle()
      requires pipe != [] && queuedCount == |queue| <= 2
      modifies this
      ensures Now(Idle, Waiting) == Handled(DisplayStep(old(Now(Idle, Waiting))))
      ensures queuedCount == |queue| <= 2 && pipe == []
      ensures var newest := old(pipe)[|old(pipe)| - 1];
              var q := old(queue) + [newest];
              && queue == (if |q| > 2 then q[1..] else q)
              && clearPipe == old(clearPipe) + old(pipe)[..|old(pipe)| - 1] + (if |q| > 2 then [q[0]] else [])
    {
      var newest := DrainPipe();
      ShowNewest(newest);
    }

    /** The reading loop: all pictures but the last go straight back. */
    method DrainPipe() returns (newest: Picture)
      requires pipe != []
      modifies this
      ensures newest == old(pipe)[|old(pipe)| - 1] && pipe == []
      ensures clearPipe == old(clearPipe) + old(pipe)[..|old(pipe)| - 1]
      ensures queue == old(queue) && queuedCount == old(queuedCount)
      ensures Handled(Now(Reading(Some(newest)), Waiting)) == Handled(DisplayStep(old(Now(Idle, Waiting))))
    {
      ghost var p, clear, end := pipe, clearPipe, Handled(DisplayStep(Now(Idle, Waiting)));
      ghost var k: nat := 0;
      var prev: Option<Picture> := None;
      while pipe != []
        invariant k <= |p| && pipe == p[k..]
        invariant Handled(Now(Reading(prev), Waiting)) == end
        invariant queue == old(queue) && queuedCount == old(queuedCount)
        invariant prev == if k == 0 then None else Some(p[k - 1])
        invariant clearPipe == clear + AllBut(p, k)
        decreases |pipe|
      {
        HandledRead(Now(Reading(prev), Waiting), prev);
        AllButNext(clear, p, k);
        var frame := pipe[0];
        pipe := pipe[1..];
        if prev.Some? {
          clearPipe := clearPipe + [prev.value];
        }
        prev := Some(frame);
        k := k + 1;
      }
      newest := prev.value;
    }

    /** Queueing a picture for display, and dequeueing the oldest when there are too many. */
    method ShowNewest(picture: Picture)
      requires pipe == [] && queuedCount == |queue| <= THRESHOLD
      modifies this
      ensures Now(Idle, Waiting) == Handled(old(Now(Reading(Some(picture)), Waiting)))
      ensures queuedCount == |queue| <= THRESHOLD && pipe == []
      ensures var q := old(queue) + [picture];
              && queue == (if |q| > THRESHOLD then q[1..] else q)
              && clearPipe == old(clearPipe) + (if |q| > THRESHOLD then [q[0]] else [])
    {
      HandledEnd(Now(Reading(Some(picture)), Waiting), picture);
      queue := queue + [picture];
      shown := shown + [picture];
      queuedCount := queuedCount + 1;
      if queuedCount > THRESHOLD {
        var index := queue[0];
        queue := queue[1..];
        queuedCount := queuedCount - 1;
        clearPipe := clearPipe + [index];
      }
    }

    /** decoder_renderer_submit_decode_unit; `output` is what vpu_decode yields, if it does. */
    method SubmitDecodeUnit(output: Option<nat>)
      modifies this
      ensures Now(Idle, Waiting) == Submitted(DecodeStep(old(Now(Idle, Waiting)), output), output)
      ensures clearPipe == [] && queue == old(queue) && queuedCount == old(queuedCount)
      ensures pipe == old(pipe) + if output.Some? then [Picture(output.value, old(clock))] else []
      ensures free == old(free) + FramesOf(old(clearPipe)) - if output.Some? then {output.value} else {}
    {
      while clearPipe != []
        invariant Submitted(Now(Idle, Draining), output)
                  == Submitted(DecodeStep(old(Now(Idle, Waiting)), output), output)
        invariant queue == old(queue) && queuedCount == old(queuedCount) && pipe == old(pipe) && clock == old(clock)
        invariant free + FramesOf(clearPipe) == old(free) + FramesOf(old(clearPipe))
        decreases |clearPipe|
      {
        SubmittedClear(Now(Idle, Draining), output);
        var index := clearPipe[0];
        clearPipe := clearPipe[1..];
        free := free + {index.frame};
      }
      SubmittedEnd(Now(Idle, Draining), output);
      if output.Some? {
        free := free - {output.value};
        pipe := pipe + [Picture(output.value, clock)];
        clock := clock + 1;
      }
    }
  }

  function FramesOf(ps: seq<Picture>): set<nat> {
    if ps == [] then {} else {ps[0].frame} + FramesOf(ps[1..])
  }
}
