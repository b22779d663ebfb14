/**
 * The selector position interpolation of SegmentedButtonGroup, on values: a
 * continuous selection position kept as an integer index plus an offset, the
 * clip requests one move issues to at most four buttons, and the invariant
 * that only the floor and ceiling buttons of the position are clipped open.
 * The class in ButtonGroup is proved to follow these functions.
 */
module SelectorInterpolation {
  import opened Button

  /** kotlin.math.ceil, as an integer. */
  function Ceil(r: real): (n: int)
    ensures n as real - 1.0 < r <= n as real
  {
    if r.Floor as real == r then r.Floor else r.Floor + 1
  }

  /** kotlin.math.truncate followed by toInt: rounds toward zero. */
  function Truncate(r: real): (n: int)
    ensures 0.0 <= r ==> n as real <= r < n as real + 1.0
    ensures r < 0.0 ==> n as real - 1.0 < r <= n as real
  {
    if 0.0 <= r then r.Floor else Ceil(r)
  }

  /** currentPosition and currentPositionOffset. */
  datatype Position = Position(index: int, offset: real)

  /** The continuous position the two fields stand for (lastRealPosition in moveTo). */
  function RealPosition(p: Position): real {
    p.index as real + p.offset
  }

  /** The two fields moveTo stores for a new real position. */
  function Decompose(r: real): (p: Position)
    ensures RealPosition(p) == r
    ensures 0.0 <= r ==> p.index == r.Floor && 0.0 <= p.offset < 1.0
    ensures -1.0 < p.offset < 1.0
  {
    Position(Truncate(r), r - Truncate(r) as real)
  }

  /** The index field is the truncation of the position (as moveTo leaves it). */
  predicate Normalized(p: Position) {
    p.index == Truncate(RealPosition(p))
  }

  /**
   * The clip requests of one move from `last` to `r`, by button index: the
   * old floor and ceiling that are no longer active are reset with
   * clipToLeft(1), the new floor gets clipToRight(offset) and, when the new
   * position is not an integer, the new ceiling gets clipToLeft(1 - offset).
   */
  function Requests(last: real, r: real): (requests: map<int, Clip>)
    ensures requests.Keys == {last.Floor, Ceil(last), r.Floor, Ceil(r)}
  {
    var positionOffset := r - Truncate(r) as real;
    var toPosition1, toPosition2 := r.Floor, Ceil(r);
    var stale := {last.Floor, Ceil(last), toPosition1, toPosition2} - {toPosition1, toPosition2};
    var resets := map p | p in stale :: LeftClip(1.0);
    var withFloor := resets[toPosition1 := RightClip(positionOffset)];
    if toPosition1 != toPosition2 then withFloor[toPosition2 := LeftClip(1.0 - positionOffset)] else withFloor
  }

  /** The buttons after the requests: a request for an index outside the list is dropped. */
  function Apply(clips: seq<Clip>, requests: map<int, Clip>): seq<Clip> {
    seq(|clips|, k requires 0 <= k < |clips| => if k in requests then requests[k] else clips[k])
  }

  /** The clip state of every button, in order, and the selection position. */
  datatype Selection = Selection(clips: seq<Clip>, pos: Position)

  /** moveTo(r): nothing happens when r is the position already applied. */
  function MoveTo(s: Selection, r: real): (t: Selection)
    ensures |t.clips| == |s.clips|
    ensures RealPosition(t.pos) == r
    ensures Normalized(s.pos) ==> Normalized(t.pos)
  {
    var last := RealPosition(s.pos);
    if r == last then s
    else Selection(Apply(s.clips, Requests(last, r)), Decompose(r))
  }

  /** addView of a button whose clip state is `child`: appended, and fully selected when it sits at the position index. */
  function AddButton(s: Selection, child: Clip): Selection {
    var position := |s.clips|;
    Selection(s.clips + [if s.pos.index == position then RightClip(0.0) else child], s.pos)
  }

  /** The animator's update listener: one moveTo per animated value, in order. */
  function Ticks(s: Selection, values: seq<real>): (t: Selection)
    ensures |t.clips| == |s.clips|
    ensures Normalized(s.pos) ==> Normalized(t.pos)
    decreases |values|
  {
    if values == [] then s
    else Ticks(MoveTo(s, values[0]), values[1..])
  }

  /**
   * animateTo(target): nothing when the index is already the target, else the
   * animator's values (running from the index to the target; the last frame's
   * value is the target itself) each fed to moveTo.
   */
  function Animate(s: Selection, target: int, values: seq<real>): (t: Selection)
    ensures |t.clips| == |s.clips|
  {
    if s.pos.index == target then s
    else Ticks(s, values)
  }

  /** The interpolation invariant: every button other than the floor and ceiling of the position shows nothing. */
  ghost predicate OnlyActiveSelected(s: Selection) {
    && Normalized(s.pos)
    && forall k :: 0 <= k < |s.clips| && k != RealPosition(s.pos).Floor && k != Ceil(RealPosition(s.pos)) ==>
         s.clips[k].amount == 0.0
  }

  // ---------------------------------------------------------------------------
  // Requests

  /** The request each of the (at most four) involved indices receives. */
  lemma RequestAt(last: real, r: real, k: int)
    requires k in Requests(last, r)
    ensures var offset := r - Truncate(r) as real;
      Requests(last, r)[k] ==
        if k == r.Floor then RightClip(offset)
        else if k == Ceil(r) then LeftClip(1.0 - offset)
        else LeftClip(1.0)
  {
  }

  /** One move issues at most four requests, all for floors and ceilings of the two positions. */
  lemma AtMostFourRequests(last: real, r: real)
    ensures |Requests(last, r).Keys| <= 4
    ensures forall k <- Requests(last, r).Keys :: k == last.Floor || k == Ceil(last) || k == r.Floor || k == Ceil(r)
  {
    var a, b, c, d := last.Floor, Ceil(last), r.Floor, Ceil(r);
    assert {a, b, c, d} == {a} + {b} + {c} + {d};
    assert |{a} + {b}| <= 2;
    assert |{a} + {b} + {c}| <= 3;
  }

  /** Between positions within 0..n-1 every request addresses a button: the last one is never asked about index n. */
  lemma RequestsInRange(last: real, r: real, n: nat)
    requires 0.0 <= last <= (n - 1) as real && 0.0 <= r <= (n - 1) as real
    ensures forall k <- Requests(last, r).Keys :: 0 <= k < n
  {
  }

  /** A request for an index outside the list changes nothing, and raises no error. */
  lemma OutOfRangeRequestIgnored(clips: seq<Clip>, requests: map<int, Clip>, k: int)
    requires !(0 <= k < |clips|)
    ensures Apply(clips, requests) == Apply(clips, requests - {k})
    ensures |Apply(clips, requests)| == |clips|
  {
  }

  // ---------------------------------------------------------------------------
  // One move

  /** Moving to the position already applied changes nothing; so a repeated move is a no-op. */
  lemma MoveToIdempotent(s: Selection, r: real)
    ensures MoveTo(s, RealPosition(s.pos)) == s
    ensures MoveTo(MoveTo(s, r), r) == MoveTo(s, r)
  {
  }

  /** After moveTo(r), r >= 0: the index is floor(r), the offset lies in [0, 1) and the two sum to r. */
  lemma MoveToPosition(s: Selection, r: real)
    requires Normalized(s.pos) && 0.0 <= r
    ensures var t := MoveTo(s, r).pos;
      && t.index == r.Floor
      && t.offset == r - r.Floor as real
      && 0.0 <= t.offset < 1.0
      && t.index as real + t.offset == r
  {
  }

  /**
   * After a move to r: the floor button shows the overlay over its right-hand
   * 1 - offset and, when r is not an integer, the ceiling button over its
   * left-hand offset; for r >= 0 the offset is frac(r) and the two amounts sum to 1.
   */
  lemma MoveToSelects(s: Selection, r: real)
    requires r != RealPosition(s.pos)
    ensures var t := MoveTo(s, r); var n := |s.clips|;
      var f, c, offset := r.Floor, Ceil(r), t.pos.offset;
      && (0 <= f < n ==> t.clips[f] == Clip(1.0 - offset, true))
      && (f != c && 0 <= c < n ==> t.clips[c] == Clip(offset, false))
      && (0.0 <= r && 0 <= f < n ==> t.clips[f].amount == 1.0 - (r - f as real))
      && (0.0 <= r && f != c && 0 <= c < n ==> t.clips[c].amount == r - f as real)
      && (f != c && 0 <= f < n && 0 <= c < n ==> t.clips[f].amount + t.clips[c].amount == 1.0)
  {
    var t := MoveTo(s, r);
    var f, c := r.Floor, Ceil(r);
    if 0 <= f < |s.clips| {
      RequestAt(RealPosition(s.pos), r, f);
    }
    if f != c && 0 <= c < |s.clips| {
      RequestAt(RealPosition(s.pos), r, c);
    }
  }

  /**
   * After a move: an old floor or ceiling that is no longer active is reset to
   * amount 0 (by clipToLeft(1)); a button at none of the four indices keeps its state.
   */
  lemma MoveToResets(s: Selection, r: real)
    requires r != RealPosition(s.pos)
    ensures var t := MoveTo(s, r); var last := RealPosition(s.pos);
      forall k :: 0 <= k < |s.clips| ==>
        && ((k == last.Floor || k == Ceil(last)) && k != r.Floor && k != Ceil(r) ==>
              t.clips[k] == LeftClip(1.0) && t.clips[k].amount == 0.0)
        && (k != last.Floor && k != Ceil(last) && k != r.Floor && k != Ceil(r) ==> t.clips[k] == s.clips[k])
  {
    var last := RealPosition(s.pos);
    forall k | 0 <= k < |s.clips| && (k == last.Floor || k == Ceil(last)) && k != r.Floor && k != Ceil(r)
      ensures MoveTo(s, r).clips[k] == LeftClip(1.0)
    {
      RequestAt(last, r, k);
    }
  }

  /** moveTo keeps the interpolation invariant. */
  lemma MoveToKeepsInvariant(s: Selection, r: real)
    requires OnlyActiveSelected(s)
    ensures OnlyActiveSelected(MoveTo(s, r))
  {
    var last := RealPosition(s.pos);
    if r != last {
      var t := MoveTo(s, r);
      forall k | 0 <= k < |t.clips| && k != r.Floor && k != Ceil(r)
        ensures t.clips[k].amount == 0.0
      {
        if k in Requests(last, r) {
          RequestAt(last, r, k);
        }
      }
    }
  }

  /** addView appends at the old size; the new button is fully selected exactly when it sits at the position index. */
  lemma AddButtonAppends(s: Selection)
    ensures var t := AddButton(s, Unclipped); var n := |s.clips|;
      && |t.clips| == n + 1 && t.clips[..n] == s.clips && t.pos == s.pos
      && (t.clips[n] == Clip(1.0, true) <==> n == s.pos.index)
      && (n != s.pos.index ==> t.clips[n] == Unclipped)
  {
  }

  /** addView of a button showing nothing keeps the invariant (the empty group has it for any position). */
  lemma AddButtonKeepsInvariant(s: Selection, child: Clip)
    requires OnlyActiveSelected(s) && child.amount == 0.0
    ensures OnlyActiveSelected(AddButton(s, child))
    ensures OnlyActiveSelected(Selection([], Position(s.pos.index, 0.0)))
  {
  }

  /** Settling on a new integer position k: button k is fully selected and every other button shows nothing. */
  lemma SettledAfterMove(s: Selection, k: int)
    requires OnlyActiveSelected(s) && 0 <= k < |s.clips| && k as real != RealPosition(s.pos)
    ensures var t := MoveTo(s, k as real);
      && t.pos == Position(k, 0.0)
      && t.clips[k] == Clip(1.0, true)
      && forall j :: 0 <= j < |t.clips| && j != k ==> t.clips[j].amount == 0.0
  {
    MoveToSelects(s, k as real);
    MoveToKeepsInvariant(s, k as real);
  }

  /** The worked case of four buttons settled on 0 and moved to 2.3: only button 0 is reset; 2 and 3 share the selection. */
  lemma FourButtonsFromZeroToTwoPointThree()
    ensures var s := Selection([RightClip(0.0), Unclipped, Unclipped, Unclipped], Position(0, 0.0));
      var t := MoveTo(s, 2.3);
      && t.pos == Position(2, 0.3)
      && t.clips == [LeftClip(1.0), Unclipped, RightClip(0.3), LeftClip(0.7)]
      && t.clips[0].amount == 0.0 && t.clips[2].amount == 0.7 && t.clips[3].amount == 0.3
  {
    var s := Selection([RightClip(0.0), Unclipped, Unclipped, Unclipped], Position(0, 0.0));
    assert 2.3.Floor == 2;
    assert Ceil(2.3) == 3;
    var requests := Requests(0.0, 2.3);
    RequestAt(0.0, 2.3, 0);
    RequestAt(0.0, 2.3, 2);
    RequestAt(0.0, 2.3, 3);
    assert 1 !in requests;
  }

  // ---------------------------------------------------------------------------
  // Animation

  /** The first tick of a run is one moveTo to the first animated value. */
  lemma TicksStep(s: Selection, values: seq<real>)
    requires values != []
    ensures Ticks(s, values) == Ticks(MoveTo(s, values[0]), values[1..])
  {
  }

  /** Frames apply in order: running two batches of frames one after the other is running them as one. */
  lemma {:induction false} TicksAppend(s: Selection, xs: seq<real>, ys: seq<real>)
    ensures Ticks(s, xs + ys) == Ticks(Ticks(s, xs), ys)
    decreases |xs|
  {
    if xs == [] {
      assert xs + ys == ys;
    } else {
      assert (xs + ys)[1..] == xs[1..] + ys;
      TicksAppend(MoveTo(s, xs[0]), xs[1..], ys);
    }
  }

  /** A run of ticks whose last value is `to` ends exactly there, with the index as moveTo leaves it. */
  lemma {:induction false} TicksReachEnd(s: Selection, values: seq<real>, to: real)
    requires Normalized(s.pos) && |values| > 0 && values[|values| - 1] == to
    ensures var t := Ticks(s, values);
      RealPosition(t.pos) == to && Normalized(t.pos) && |t.clips| == |s.clips|
    decreases |values|
  {
    var next := MoveTo(s, values[0]);
    if |values| == 1 {
      assert Ticks(s, values) == Ticks(next, []);
    } else {
      TicksReachEnd(next, values[1..], to);
    }
  }

  /** Ticks keep the invariant, and keep "button k is fully selected whenever the position is k". */
  lemma {:induction false} TicksKeepSelection(s: Selection, values: seq<real>, k: int)
    requires OnlyActiveSelected(s) && 0 <= k < |s.clips|
    requires RealPosition(s.pos) == k as real ==> s.clips[k] == Clip(1.0, true)
    ensures var t := Ticks(s, values);
      && OnlyActiveSelected(t) && |t.clips| == |s.clips|
      && (RealPosition(t.pos) == k as real ==> t.clips[k] == Clip(1.0, true))
    decreases |values|
  {
    if values != [] {
      var r := values[0];
      MoveToKeepsInvariant(s, r);
      if r == k as real && r != RealPosition(s.pos) {
        MoveToSelects(s, r);
      }
      TicksKeepSelection(MoveTo(s, r), values[1..], k);
    }
  }

  /** animateTo at the target index changes nothing, whatever frames an animator would produce. */
  lemma AnimationAtTargetIsNoOp(s: Selection, target: int, values: seq<real>)
    ensures s.pos.index == target ==> Animate(s, target, values) == s
  {
  }

  /** animateTo whose last animated value is the target settles exactly on it (or changes nothing at the target). */
  lemma AnimationSettles(s: Selection, target: int, values: seq<real>)
    requires Normalized(s.pos) && |values| > 0 && values[|values| - 1] == target as real
    ensures Animate(s, target, values).pos == if s.pos.index == target then s.pos else Position(target, 0.0)
    ensures s.pos.index == target ==> Animate(s, target, values) == s
  {
    if s.pos.index != target {
      TicksReachEnd(s, values, target as real);
    }
  }

  /**
   * The tapped animation ends as a direct move to the target would: the target
   * button fully selected, every other button showing nothing.
   */
  lemma AnimationSelectsTarget(s: Selection, target: int, values: seq<real>)
    requires OnlyActiveSelected(s) && 0 <= target < |s.clips| && s.pos.index != target
    requires |values| > 0 && values[|values| - 1] == target as real
    ensures var t := Animate(s, target, values);
      && t.pos == Position(target, 0.0)
      && t.clips[target] == Clip(1.0, true)
      && forall j :: 0 <= j < |t.clips| && j != target ==> t.clips[j].amount == 0.0
  {
    TicksReachEnd(s, values, target as real);
    TicksKeepSelection(s, values, target);
  }
}
