/** The rotary encoders: quadrature decoding and debouncing. */
module Quadrature {
  import opened Wrappers

  /** The two line levels, the first line's in the high bit. */
  type Lines = n: nat | n < 4

  const BUTTON_DEBOUNCE_NS := 150_000_000
  const EDGE_DEBOUNCE_NS := 1_000_000

  function Transition(previous: Lines, current: Lines): int {
    match (previous, current)
    case (0, 1) => 1
    case (1, 3) => 1
    case (3, 2) => 1
    case (2, 0) => 1
    case (0, 2) => -1
    case (2, 3) => -1
    case (3, 1) => -1
    case (1, 0) => -1
    case _ => 0
  }

  datatype Decoder = Decoder(previous: Lines, accumulated: int)

  /** The rotation part of `decode_event`: the step that one more look at the lines reports, 0 for none. */
  function Decode(d: Decoder, current: Lines): (r: (Decoder, int)) {
    var delta := Transition(d.previous, current);
    var sum := d.accumulated + delta;
    if current == d.previous then (d, 0)
    else if delta == 0 then (Decoder(current, 0), 0)
    else if -4 < sum < 4 then (Decoder(current, sum), 0)
    else (Decoder(current, 0), if sum > 0 then 1 else -1)
  }

  /** Whether a time is at least a window after the last accepted one, with a subtraction that stops at zero. */
  predicate Accepts(last: nat, timestamp: nat, window: nat) {
    (if timestamp >= last then timestamp - last else 0) >= window
  }

  /** `accept_gpio_edge`. */
  method AcceptEdge(last: nat, timestamp: nat) returns (accepted: bool, newLast: nat)
    ensures accepted <==> Accepts(last, timestamp, EDGE_DEBOUNCE_NS)
    ensures newLast == if accepted then timestamp else last
  {
    var elapsed := if timestamp >= last then timestamp - last else 0;
    if elapsed < EDGE_DEBOUNCE_NS {
      return false, last;
    }
    return true, timestamp;
  }

  /** The decoder of one encoder. */
  class EncoderState {
    var previousState: Lines
    var accumulatedSteps: int
    var lastButtonPressNs: nat

    constructor (lines: Lines)
      ensures previousState == lines && accumulatedSteps == 0 && lastButtonPressNs == 0
    {
      previousState, accumulatedSteps, lastButtonPressNs := lines, 0, 0;
    }

    method DecodeRotation(current: Lines) returns (step: Option<int>)
      modifies `previousState, `accumulatedSteps
      ensures var (decoder, emitted) := Decode(old(Decoder(previousState, accumulatedSteps)), current);
              && Decoder(previousState, accumulatedSteps) == decoder
              && step == if emitted == 0 then None else Some(emitted)
    {
      if current == previousState {
        return None;
      }
      var previous := previousState;
      previousState := current;
      var delta := Transition(previous, current);
      if delta == 0 {
        accumulatedSteps := 0;
        return None;
      }
      accumulatedSteps := accumulatedSteps + delta;
      if -4 < accumulatedSteps < 4 {
        return None;
      }
      step := Some(if accumulatedSteps > 0 then 1 else -1);
      accumulatedSteps := 0;
    }

    method AcceptButtonPress(timestamp: nat, fallingEdge: bool) returns (accepted: bool)
      modifies `lastButtonPressNs
      ensures accepted <==> fallingEdge && Accepts(old(lastButtonPressNs), timestamp, BUTTON_DEBOUNCE_NS)
      ensures lastButtonPressNs == if accepted then timestamp else old(lastButtonPressNs)
    {
      var elapsed := if timestamp >= lastButtonPressNs then timestamp - lastButtonPressNs else 0;
      if !fallingEdge || elapsed < BUTTON_DEBOUNCE_NS {
        return false;
      }
      lastButtonPressNs := timestamp;
      return true;
    }
  }

  // ---------------------------------------------------------------------------------------------
  // Runs
  // ---------------------------------------------------------------------------------------------

  function Run(d: Decoder, looks: seq<Lines>): Decoder {
    if looks == [] then d else Decode(Run(d, looks[..|looks| - 1]), looks[|looks| - 1]).0
  }

  /** The steps emitted, counted with their signs. */
  function NetSteps(d: Decoder, looks: seq<Lines>): int {
    if looks == [] then 0
    else
      var before := looks[..|looks| - 1];
      NetSteps(d, before) + Decode(Run(d, before), looks[|looks| - 1]).1
  }

  // ---------------------------------------------------------------------------------------------
  // The shaft
  // ---------------------------------------------------------------------------------------------

  /** The lines at a position counted in quarters of a detent: one line changes from each position to the next. */
  function LinesAt(position: int): Lines {
    match position % 4
    case 0 => 0
    case 1 => 1
    case 2 => 3
    case _ => 2
  }

  ghost predicate Consistent(positions: seq<int>, looks: seq<Lines>) {
    |looks| == |positions| && forall i :: 0 <= i < |looks| ==> looks[i] == LinesAt(positions[i])
  }

  /** No look misses a quarter. */
  predicate Watched(start: int, positions: seq<int>) {
    positions != [] ==>
      var before := positions[..|positions| - 1];
      Watched(start, before) && -1 <= Last(start, positions) - Last(start, before) <= 1
  }

  function Last(start: int, positions: seq<int>): int {
    if positions == [] then start else positions[|positions| - 1]
  }

  /** The table of transitions is the turn of the shaft; it says nothing exactly when the shaft moved two quarters. */
  lemma TransitionIsTurn(from: int, turn: int)
    requires -1 <= turn <= 2
    ensures Transition(LinesAt(from), LinesAt(from + turn)) == if turn == 2 then 0 else turn
    ensures LinesAt(from) == LinesAt(from + turn) <==> turn == 0
  {
  }

  lemma DecodeQuarter(d: Decoder, from: int, to: int)
    requires -1 <= to - from <= 1 && d.previous == LinesAt(from) && -3 <= d.accumulated <= 3
    ensures var (after, step) := Decode(d, LinesAt(to));
            && after.previous == LinesAt(to) && -3 <= after.accumulated <= 3
            && 4 * step + after.accumulated == d.accumulated + (to - from)
  {
    TransitionIsTurn(from, to - from);
  }

  /**
    However the shaft bounces, four times the net steps plus the pending quarters is how far it has turned, and
    fewer than four quarters are pending.
    */
  lemma {:induction false} StepsFollowShaft(start: int, positions: seq<int>, looks: seq<Lines>)
    requires Watched(start, positions) && Consistent(positions, looks)
    ensures var d := Decoder(LinesAt(start), 0);
            var end := Run(d, looks);
            && end.previous == LinesAt(Last(start, positions)) && -3 <= end.accumulated <= 3
            && 4 * NetSteps(d, looks) + end.accumulated == Last(start, positions) - start
  {
    if looks != [] {
      var d := Decoder(LinesAt(start), 0);
      var before := looks[..|looks| - 1];
      StepsFollowShaft(start, positions[..|positions| - 1], before);
      DecodeQuarter(Run(d, before), Last(start, positions[..|positions| - 1]), Last(start, positions));
    }
  }

  /** A shaft that comes to rest whole detents away has reported exactly those detents. */
  lemma DetentsReported(start: int, positions: seq<int>, looks: seq<Lines>, detents: int)
    requires Watched(start, positions) && Consistent(positions, looks) && Last(start, positions) == start + 4 * detents
    ensures NetSteps(Decoder(LinesAt(start), 0), looks) == detents
    ensures Run(Decoder(LinesAt(start), 0), looks) == Decoder(LinesAt(start), 0)
  {
    hide LinesAt, Run, NetSteps, Watched, Consistent;
    StepsFollowShaft(start, positions, looks);
    SameLines(start, detents);
  }

  lemma SameLines(start: int, detents: int)
    ensures LinesAt(start + 4 * detents) == LinesAt(start)
  {
    assert (start + 4 * detents) % 4 == start % 4;
  }

  // ---------------------------------------------------------------------------------------------
  // Jumps
  // ---------------------------------------------------------------------------------------------

  /** Two quarters at once: neither level stayed, so the direction is unknown. */
  predicate IsJump(from: Lines, to: Lines) {
    from != to && Transition(from, to) == 0
  }

  /** The turn and the net steps since the last jump. */
  datatype Tally = Tally(turned: int, steps: int)

  function SinceJump(d: Decoder, looks: seq<Lines>): Tally {
    if looks == [] then Tally(0, 0)
    else
      var before := looks[..|looks| - 1];
      var here, next := Run(d, before), looks[|looks| - 1];
      var earlier := SinceJump(d, before);
      if IsJump(here.previous, next) then Tally(0, 0)
      else Tally(earlier.turned + Transition(here.previous, next), earlier.steps + Decode(here, next).1)
  }

  /**
   Over every run at all, the turn since the last jump is four times the steps emitted since, plus what is pending.
   */
  lemma {:induction false} Conserved(d: Decoder, looks: seq<Lines>)
    requires d.accumulated == 0
    ensures var end, tally := Run(d, looks), SinceJump(d, looks);
            tally.turned == 4 * tally.steps + end.accumulated && -3 <= end.accumulated <= 3
  {
    if looks != [] {
      Conserved(d, looks[..|looks| - 1]);
    }
  }

  predicate BothChanged(from: Lines, to: Lines) {
    from / 2 != to / 2 && from % 2 != to % 2
  }

  lemma JumpIffBothChanged(from: Lines, to: Lines)
    ensures IsJump(from, to) <==> BothChanged(from, to)
  {
  }

  /** When both levels have changed nothing is reported, and the pending quarters are dropped. */
  lemma JumpDropsPending(d: Decoder, current: Lines)
    requires BothChanged(d.previous, current)
    ensures Decode(d, current) == (Decoder(current, 0), 0)
  {
    JumpIffBothChanged(d.previous, current);
  }

  /** Neither look of any two in a row shows both levels changed. */
  predicate Unskipped(from: Lines, looks: seq<Lines>) {
    looks == [] ||
    var before := looks[..|looks| - 1];
    Unskipped(from, before) && !BothChanged(LastLook(from, before), looks[|looks| - 1])
  }

  function LastLook(from: Lines, looks: seq<Lines>): Lines {
    if looks == [] then from else looks[|looks| - 1]
  }

  /** The quarter of a detent in which the lines show these levels. */
  function Quarter(lines: Lines): int {
    match lines
    case 0 => 0
    case 1 => 1
    case 3 => 2
    case _ => 3
  }

  lemma TransitionTurns(from: Lines, to: Lines)
    requires !BothChanged(from, to)
    ensures (Quarter(from) + Transition(from, to) - Quarter(to)) % 4 == 0
  {
  }

  /** Without a jump the lines follow the turn, and all steps are steps since the last jump. */
  lemma {:induction false} UnskippedTurn(d: Decoder, looks: seq<Lines>)
    requires Unskipped(d.previous, looks)
    ensures var tally := SinceJump(d, looks);
            && Run(d, looks).previous == LastLook(d.previous, looks) && tally.steps == NetSteps(d, looks)
            && (Quarter(d.previous) + tally.turned - Quarter(LastLook(d.previous, looks))) % 4 == 0
  {
    hide Quarter, Transition, BothChanged;
    if looks != [] {
      var before, next := looks[..|looks| - 1], looks[|looks| - 1];
      UnskippedTurn(d, before);
      JumpIffBothChanged(LastLook(d.previous, before), next);
      TransitionTurns(LastLook(d.previous, before), next);
      hide IsJump;
    }
  }

  /** Looks that skip nothing and end at the first levels have reported whole detents, and nothing is pending. */
  lemma RevolutionsReported(d: Decoder, looks: seq<Lines>)
    requires d.accumulated == 0 && Unskipped(d.previous, looks) && LastLook(d.previous, looks) == d.previous
    ensures Run(d, looks) == d && SinceJump(d, looks).turned == 4 * NetSteps(d, looks)
  {
    hide Run, NetSteps, SinceJump, Unskipped, Quarter;
    Conserved(d, looks);
    UnskippedTurn(d, looks);
  }

  // ---------------------------------------------------------------------------------------------
  // Debouncing
  // ---------------------------------------------------------------------------------------------

  /** The times accepted out of a run, starting from the time zero. */
  function Accepted(timestamps: seq<nat>, window: nat): seq<nat> {
    if timestamps == [] then []
    else
      var earlier := Accepted(timestamps[..|timestamps| - 1], window);
      var last := if earlier == [] then 0 else earlier[|earlier| - 1];
      var next := timestamps[|timestamps| - 1];
      if Accepts(last, next, window) then earlier + [next] else earlier
  }

  /** The last time of a run is accepted exactly when it lies a window after zero and after all accepted before. */
  lemma AcceptedIff(timestamps: seq<nat>, window: nat)
    requires window > 0 && timestamps != []
    ensures var earlier := Accepted(timestamps[..|timestamps| - 1], window);
            var next := timestamps[|timestamps| - 1];
            Accepted(timestamps, window) ==
              if next >= window && forall i :: 0 <= i < |earlier| ==> next >= earlier[i] + window then earlier + [next]
              else earlier
  {
    var before := timestamps[..|timestamps| - 1];
    AcceptedFromZero(before, window);
    AcceptedGrows(before, window);
    AcceptsIff(Accepted(before, window), timestamps[|timestamps| - 1], window);
    hide Accepts;
  }

  lemma AcceptedGrows(timestamps: seq<nat>, window: nat)
    requires window > 0
    ensures var times := Accepted(timestamps, window);
            forall i :: 0 <= i < |times| ==> times[|times| - 1] >= times[i]
  {
    hide Accepted;
    var times := Accepted(timestamps, window);
    forall i | 0 <= i < |times| ensures times[|times| - 1] >= times[i] {
      if i < |times| - 1 {
        AcceptedApart(timestamps, window, i, |times| - 1);
      }
    }
  }

  /** The test against the last accepted time is the test against all of them. */
  lemma AcceptsIff(times: seq<nat>, next: nat, window: nat)
    requires window > 0 && forall i :: 0 <= i < |times| ==> window <= times[i] <= times[|times| - 1]
    ensures Accepts(if times == [] then 0 else times[|times| - 1], next, window)
       <==> next >= window && forall i :: 0 <= i < |times| ==> next >= times[i] + window
  {
    if times != [] && (forall i :: 0 <= i < |times| ==> next >= times[i] + window) {
      assert next >= times[|times| - 1] + window;
    }
  }

  lemma {:induction false} AcceptedFromZero(timestamps: seq<nat>, window: nat)
    requires window > 0
    ensures forall i :: 0 <= i < |Accepted(timestamps, window)| ==> Accepted(timestamps, window)[i] >= window
  {
    if timestamps != [] {
      AcceptedFromZero(timestamps[..|timestamps| - 1], window);
    }
  }

  /** Accepted times lie a window apart even when the clock runs backwards. */
  lemma {:induction false} AcceptedApart(timestamps: seq<nat>, window: nat, i: nat, j: nat)
    requires window > 0 && i < j < |Accepted(timestamps, window)|
    ensures Accepted(timestamps, window)[j] >= Accepted(timestamps, window)[i] + window
  {
    var earlier := Accepted(timestamps[..|timestamps| - 1], window);
    if j < |earlier| {
      AcceptedApart(timestamps[..|timestamps| - 1], window, i, j);
    } else if i < |earlier| - 1 {
      AcceptedApart(timestamps[..|timestamps| - 1], window, i, |earlier| - 1);
    }
  }
}
