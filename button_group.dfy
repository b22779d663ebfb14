/**
 * SegmentedButtonGroup: the ordered buttons, the continuous selection position
 * (currentPosition + currentPositionOffset) and the operations that move the
 * selection indicator, add buttons, recolour the selector and equalise widths.
 * Every state change is proved to follow SelectorInterpolation.
 */
module ButtonGroup {
  import opened Options
  import opened Button
  import SI = SelectorInterpolation

  /** The clip states of `bs`, in order. */
  function ClipsOf(bs: seq<SegmentedButton>): (clips: seq<Clip>)
    reads set b | b in bs
    ensures |clips| == |bs|
    ensures forall k :: 0 <= k < |bs| ==> clips[k] == bs[k].CurrentClip()
  {
    seq(|bs|, k requires 0 <= k < |bs| reads set b | b in bs => bs[k].CurrentClip())
  }

  /** The measured widths of `bs`, in order. */
  function MeasuredWidthsOf(bs: seq<SegmentedButton>): (widths: seq<int>)
    reads set b | b in bs
    ensures |widths| == |bs|
    ensures forall k :: 0 <= k < |bs| ==> widths[k] == bs[k].measuredWidth
  {
    seq(|bs|, k requires 0 <= k < |bs| reads set b | b in bs => bs[k].measuredWidth)
  }

  /** The widest of `widths`, and 0 when none is wider (the filter and forEach of onGlobalLayout). */
  function MaxWidth(widths: seq<int>): (m: int)
    ensures 0 <= m
    ensures forall w <- widths :: w <= m
    ensures m == 0 || m in widths
  {
    if widths == [] then 0
    else
      var rest := MaxWidth(widths[..|widths| - 1]);
      var last := widths[|widths| - 1];
      assert widths == widths[..|widths| - 1] + [last];
      if last > rest then last else rest
  }

  /**
   * The width onGlobalLayout gives every button for a budget of
   * minimumWidth - paddingLeft - paddingRight; None where it divides by zero.
   * The division only happens with a positive budget and count, where
   * Kotlin's truncating division and Dafny's agree.
   */
  function EqualWidth(widths: seq<int>, budget: int): Option<int> {
    var maxWidth := MaxWidth(widths);
    if maxWidth * |widths| < budget then
      if |widths| == 0 then None else Some(budget / |widths|)
    else Some(maxWidth)
  }

  /**
   * The common width is at least every measured width; it is the budget shared
   * out when the widest button times the count falls short of the budget; with
   * no buttons and a positive budget the division by zero is reached.
   */
  lemma EqualWidthBounds(widths: seq<int>, budget: int)
    ensures EqualWidth(widths, budget).None? <==> (|widths| == 0 && 0 < budget)
    ensures EqualWidth(widths, budget).Some? ==>
      forall w <- widths :: w <= EqualWidth(widths, budget).value
    ensures 0 < |widths| && MaxWidth(widths) * |widths| < budget ==>
      EqualWidth(widths, budget) == Some(budget / |widths|)
    ensures budget <= MaxWidth(widths) * |widths| ==> EqualWidth(widths, budget) == Some(MaxWidth(widths))
  {
    var n, m := |widths|, MaxWidth(widths);
    if 0 < n && m * n < budget {
      ShareAtLeast(m, n, budget);
    }
  }

  /** A width that fits `n` times into the budget fits into its n-th part. */
  lemma ShareAtLeast(m: int, n: int, budget: int)
    requires 0 < n && m * n < budget
    ensures m <= budget / n
  {
    var q, r := budget / n, budget % n;
    assert budget == q * n + r && 0 <= r < n;
    if q < m {
      assert q + 1 <= m;
      MultiplyMonotone(q + 1, m, n);
      assert false;
    }
  }

  lemma MultiplyMonotone(a: int, b: int, n: int)
    requires a <= b && 0 < n
    ensures a * n <= b * n
  {
  }

  /** mutableSetOf(xs...): a LinkedHashSet, i.e. the distinct values of `xs` in insertion order. */
  function InsertionOrderedSet(xs: seq<int>): (u: seq<int>)
    ensures forall x :: x in u <==> x in xs
    ensures forall i, j :: 0 <= i < j < |u| ==> u[i] != u[j]
  {
    if xs == [] then []
    else
      var rest := InsertionOrderedSet(xs[..|xs| - 1]);
      var last := xs[|xs| - 1];
      assert xs == xs[..|xs| - 1] + [last];
      if last in rest then rest else rest + [last]
  }

  /** Without repeats in `u`, there are none in its tail and its head is not in the tail. */
  lemma TailOfDistinct(u: seq<int>)
    requires u != []
    ensures (forall i, j :: 0 <= i < j < |u| ==> u[i] != u[j]) ==>
      u[0] !in u[1..] && forall i, j :: 0 <= i < j < |u[1..]| ==> u[1..][i] != u[1..][j]
  {
    if forall i, j :: 0 <= i < j < |u| ==> u[i] != u[j] {
      forall i, j | 0 <= i < j < |u[1..]| ensures u[1..][i] != u[1..][j] {
        assert u[1..][i] == u[i + 1] && u[1..][j] == u[j + 1];
      }
      forall i | 0 <= i < |u[1..]| ensures u[1..][i] != u[0] {
        assert u[1..][i] == u[i + 1];
      }
    }
  }

  /** remove(x) on such a set: the order of the others is kept. */
  function RemoveFrom(u: seq<int>, x: int): (v: seq<int>)
    ensures forall y :: y in v <==> y in u && y != x
    ensures |v| <= |u|
    ensures (forall i, j :: 0 <= i < j < |u| ==> u[i] != u[j]) ==> forall i, j :: 0 <= i < j < |v| ==> v[i] != v[j]
  {
    if u == [] then []
    else
      var rest := RemoveFrom(u[1..], x);
      assert forall y :: y in u[1..] ==> y in u;
      TailOfDistinct(u);
      if u[0] == x then rest else [u[0]] + rest
  }

  class SegmentedButtonGroup {
    var buttons: seq<SegmentedButton>
    var currentPosition: int
    var currentPositionOffset: real
    var selectorColor: int
    var radius: int
    var animateSelectorDuration: int
    var pagerItem: Option<int>   // viewPager?.currentItem: None while no pager is attached

    /** Each button is in the list once, and the position fields are as moveTo leaves them. */
    ghost predicate Valid()
      reads this
    {
      && (forall i, j :: 0 <= i < j < |buttons| ==> buttons[i] != buttons[j])
      && SI.Normalized(Position())
    }

    function Position(): SI.Position
      reads this
    {
      SI.Position(currentPosition, currentPositionOffset)
    }

    function State(): SI.Selection
      reads this, set b | b in buttons
    {
      SI.Selection(ClipsOf(buttons), Position())
    }

    /** An empty group; `position`, the colour, radius and duration are the styled attributes. */
    constructor (position: int, selectorColor: int, radius: int, animateSelectorDuration: int)
      ensures Valid() && buttons == [] && pagerItem == None
      ensures State() == SI.Selection([], SI.Position(position, 0.0))
      ensures SI.OnlyActiveSelected(State())
      ensures this.selectorColor == selectorColor && this.radius == radius
      ensures this.animateSelectorDuration == animateSelectorDuration
    {
      buttons := [];
      currentPosition, currentPositionOffset := position, 0.0;
      this.selectorColor, this.radius := selectorColor, radius;
      this.animateSelectorDuration := animateSelectorDuration;
      pagerItem := None;
    }

    /** clipButtonSelectionFromLeft: clipToLeft on the button at `position`, skipped outside the list. */
    method ClipButtonSelectionFromLeft(position: int, clip: real)
      requires Valid()
      modifies set b | b in buttons
      ensures forall k :: 0 <= k < |buttons| ==>
        buttons[k].CurrentClip() == if k == position then LeftClip(clip) else old(buttons[k].CurrentClip())
      ensures forall k :: 0 <= k < |buttons| ==> buttons[k].Attrs() == old(buttons[k].Attrs())
    {
      if 0 <= position < |buttons| {
        buttons[position].ClipToLeft(clip);
      }
    }

    /** clipButtonSelectionFromRight: clipToRight on the button at `position`, skipped outside the list. */
    method ClipButtonSelectionFromRight(position: int, clip: real)
      requires Valid()
      modifies set b | b in buttons
      ensures forall k :: 0 <= k < |buttons| ==>
        buttons[k].CurrentClip() == if k == position then RightClip(clip) else old(buttons[k].CurrentClip())
      ensures forall k :: 0 <= k < |buttons| ==> buttons[k].Attrs() == old(buttons[k].Attrs())
    {
      if 0 <= position < |buttons| {
        buttons[position].ClipToRight(clip);
      }
    }

    /** moveTo's loop over the stale indices: clipToLeft(1) on each one in the list, in the set's order. */
    method ResetButtons(stale: seq<int>)
      requires Valid()
      modifies set b | b in buttons
      ensures forall k :: 0 <= k < |buttons| ==>
        buttons[k].CurrentClip() == if k in stale then LeftClip(1.0) else old(buttons[k].CurrentClip())
      ensures forall k :: 0 <= k < |buttons| ==> buttons[k].Attrs() == old(buttons[k].Attrs())
    {
      for i := 0 to |stale|
        invariant forall k :: 0 <= k < |buttons| ==>
          buttons[k].CurrentClip() == if k in stale[..i] then LeftClip(1.0) else old(buttons[k].CurrentClip())
        invariant forall k :: 0 <= k < |buttons| ==> buttons[k].Attrs() == old(buttons[k].Attrs())
      {
        assert stale[..i + 1] == stale[..i] + [stale[i]];
        ClipButtonSelectionFromLeft(stale[i], 1.0);
      }
      assert stale[..|stale|] == stale;
    }

    /** moveTo: resets the buttons no longer involved, clips the new floor and ceiling, stores the position. */
    method MoveTo(realPosition: real)
      requires Valid()
      modifies this`currentPosition, this`currentPositionOffset, set b | b in buttons
      ensures Valid()
      ensures State() == SI.MoveTo(old(State()), realPosition)
      ensures SI.OnlyActiveSelected(old(State())) ==> SI.OnlyActiveSelected(State())
      ensures forall k :: 0 <= k < |buttons| ==> buttons[k].Attrs() == old(buttons[k].Attrs())
    {
      if SI.OnlyActiveSelected(State()) {
        SI.MoveToKeepsInvariant(State(), realPosition);
      }
      var lastRealPosition := currentPosition as real + currentPositionOffset;
      if realPosition == lastRealPosition {
        return;
      }

      ApplyRequests(lastRealPosition, realPosition);
      currentPosition := SI.Truncate(realPosition);
      currentPositionOffset := realPosition - currentPosition as real;
    }

    /** The clipping half of moveTo from `last` to `realPosition`: stale buttons reset, then the new floor and ceiling clipped. */
    method ApplyRequests(last: real, realPosition: real)
      requires Valid()
      modifies set b | b in buttons
      ensures ClipsOf(buttons) == SI.Apply(old(ClipsOf(buttons)), SI.Requests(last, realPosition))
      ensures forall k :: 0 <= k < |buttons| ==> buttons[k].Attrs() == old(buttons[k].Attrs())
    {
      var positionOffset := realPosition - SI.Truncate(realPosition) as real;
      var fromPosition1, fromPosition2 := last.Floor, SI.Ceil(last);
      var toPosition1, toPosition2 := realPosition.Floor, SI.Ceil(realPosition);

      // at most four buttons are involved in a move
      var involved := InsertionOrderedSet([fromPosition1, fromPosition2, toPosition1, toPosition2]);
      var stale := RemoveFrom(RemoveFrom(involved, toPosition1), toPosition2);
      ResetButtons(stale);
      ClipButtonSelectionFromRight(toPosition1, positionOffset);
      if toPosition1 != toPosition2 {
        ClipButtonSelectionFromLeft(toPosition2, 1.0 - positionOffset);
      }

      ghost var requests := SI.Requests(last, realPosition);
      ghost var expected := SI.Apply(old(ClipsOf(buttons)), requests);
      forall k | 0 <= k < |buttons|
        ensures ClipsOf(buttons)[k] == expected[k]
      {
        if k in requests {
          SI.RequestAt(last, realPosition, k);
        }
      }
      assert ClipsOf(buttons) == expected;
    }

    /**
     * animateTo: a no-op at the target index; else each value the animator
     * produces on its way from the index to the target is fed to moveTo.
     */
    method AnimateTo(position: int, animatedValues: seq<real>)
      requires Valid()
      modifies this`currentPosition, this`currentPositionOffset, set b | b in buttons
      ensures Valid()
      ensures State() == SI.Animate(old(State()), position, animatedValues)
      ensures forall k :: 0 <= k < |buttons| ==> buttons[k].Attrs() == old(buttons[k].Attrs())
    {
      if currentPosition == position {
        return;
      }
      ghost var start := State();
      assert animatedValues[0..] == animatedValues;
      for i := 0 to |animatedValues|
        invariant Valid()
        invariant SI.Ticks(State(), animatedValues[i..]) == SI.Ticks(start, animatedValues)
        invariant forall k :: 0 <= k < |buttons| ==> buttons[k].Attrs() == old(buttons[k].Attrs())
      {
        assert animatedValues[i..][1..] == animatedValues[i + 1..];
        SI.TicksStep(State(), animatedValues[i..]);
        MoveTo(animatedValues[i]);
      }
    }

    /**
     * The click listener of the button at `position`: nothing unless it is a
     * different button; then the pager is sent there, or, without a pager, the
     * selector is animated. `tapped` says whether onButtonTap is invoked.
     */
    method OnButtonClick(position: int, animatedValues: seq<real>) returns (tapped: bool)
      requires Valid()
      modifies this`currentPosition, this`currentPositionOffset, this`pagerItem, set b | b in buttons
      ensures Valid()
      ensures tapped == (old(currentPosition) != position)
      ensures !tapped ==> State() == old(State()) && pagerItem == old(pagerItem)
      ensures tapped && old(pagerItem).Some? ==> State() == old(State()) && pagerItem == Some(position)
      ensures tapped && old(pagerItem).None? ==>
        State() == SI.Animate(old(State()), position, animatedValues) && pagerItem == None
      ensures forall k :: 0 <= k < |buttons| ==> buttons[k].Attrs() == old(buttons[k].Attrs())
    {
      tapped := currentPosition != position;
      if tapped {
        if pagerItem.Some? {
          pagerItem := Some(position);
        } else {
          AnimateTo(position, animatedValues);
        }
      }
    }

    /** setViewPager: attaches the pager and moves the selector to its current item. */
    method SetViewPager(currentItem: int)
      requires Valid()
      modifies this`currentPosition, this`currentPositionOffset, this`pagerItem, set b | b in buttons
      ensures Valid() && pagerItem == Some(currentItem)
      ensures State() == SI.MoveTo(old(State()), currentItem as real)
      ensures forall k :: 0 <= k < |buttons| ==> buttons[k].Attrs() == old(buttons[k].Attrs())
    {
      pagerItem := Some(currentItem);
      MoveTo(currentItem as real);
    }

    /** onPageScrolled: the pager's scroll progress moves the selector. */
    method OnPageScrolled(position: int, positionOffset: real)
      requires Valid()
      modifies this`currentPosition, this`currentPositionOffset, set b | b in buttons
      ensures Valid()
      ensures State() == SI.MoveTo(old(State()), position as real + positionOffset)
      ensures forall k :: 0 <= k < |buttons| ==> buttons[k].Attrs() == old(buttons[k].Attrs())
    {
      MoveTo(position as real + positionOffset);
    }

    /**
     * addView for a SegmentedButton: the button takes the group's radius and
     * selector colour, is appended, and is fully selected when its index is
     * currentPosition. (Android refuses a view that already has a parent.)
     */
    method AddView(child: SegmentedButton)
      requires Valid() && child !in buttons
      modifies this`buttons, child
      ensures Valid()
      ensures buttons == old(buttons) + [child]
      ensures State() == SI.AddButton(old(State()), old(child.CurrentClip()))
      ensures SI.OnlyActiveSelected(old(State())) && old(child.CurrentClip()).amount == 0.0 ==>
        SI.OnlyActiveSelected(State())
      ensures child.Attrs() == old(child.Attrs()).(radius := radius, selectorColor := selectorColor)
    {
      if SI.OnlyActiveSelected(State()) && child.CurrentClip().amount == 0.0 {
        SI.AddButtonKeepsInvariant(State(), child.CurrentClip());
      }
      var position := |buttons|;
      child.radius := radius;
      child.SetSelectorColor(selectorColor);
      buttons := buttons + [child];
      if currentPosition == position {
        child.ClipToRight(0.0);
      }
      assert ClipsOf(buttons) == old(ClipsOf(buttons)) + [ClipsOf(buttons)[position]];
    }

    /** The selectorColor setter: stores the colour and gives it to every button. */
    method SetSelectorColor(color: int)
      requires Valid()
      modifies this`selectorColor, set b | b in buttons
      ensures Valid()
      ensures selectorColor == color
      ensures State() == old(State())
      ensures forall k :: 0 <= k < |buttons| ==> buttons[k].Attrs() == old(buttons[k].Attrs()).(selectorColor := color)
    {
      selectorColor := color;
      for i := 0 to |buttons|
        invariant selectorColor == color
        invariant forall k :: 0 <= k < i ==> buttons[k].Attrs() == old(buttons[k].Attrs()).(selectorColor := color)
        invariant forall k :: i <= k < |buttons| ==> buttons[k].Attrs() == old(buttons[k].Attrs())
        invariant forall k :: 0 <= k < |buttons| ==> buttons[k].CurrentClip() == old(buttons[k].CurrentClip())
      {
        buttons[i].SetSelectorColor(color);
      }
      assert ClipsOf(buttons) == old(ClipsOf(buttons));
    }

    /** The running maximum of onGlobalLayout's first loop: the widest measured width, or 0. */
    method MaxMeasuredWidth() returns (maxWidth: int)
      ensures maxWidth == MaxWidth(MeasuredWidthsOf(buttons))
      ensures 0 <= maxWidth && forall k :: 0 <= k < |buttons| ==> buttons[k].measuredWidth <= maxWidth
    {
      ghost var widths := MeasuredWidthsOf(buttons);
      maxWidth := 0;
      for i := 0 to |buttons|
        invariant maxWidth == MaxWidth(widths[..i])
      {
        assert widths[..i + 1][..i] == widths[..i];
        if buttons[i].measuredWidth > maxWidth {
          maxWidth := buttons[i].measuredWidth;
        }
      }
      assert widths[..|buttons|] == widths;
      assert forall k :: 0 <= k < |buttons| ==> widths[k] in widths;
    }

    /** onGlobalLayout's second loop: every button's layout width becomes `width`. */
    method AssignWidth(width: int)
      requires Valid()
      modifies set b | b in buttons
      ensures forall k :: 0 <= k < |buttons| ==> buttons[k].Attrs() == old(buttons[k].Attrs()).(layoutWidth := width)
      ensures State() == old(State())
    {
      for i := 0 to |buttons|
        invariant forall k :: 0 <= k < i ==> buttons[k].Attrs() == old(buttons[k].Attrs()).(layoutWidth := width)
        invariant forall k :: i <= k < |buttons| ==> buttons[k].Attrs() == old(buttons[k].Attrs())
        invariant forall k :: 0 <= k < |buttons| ==> buttons[k].CurrentClip() == old(buttons[k].CurrentClip())
      {
        buttons[i].layoutWidth := width;
      }
      assert ClipsOf(buttons) == old(ClipsOf(buttons));
    }

    /**
     * onGlobalLayout: every button gets the same layout width, EqualWidth of
     * the measured widths; `ok` is false where the division by zero throws.
     */
    method OnGlobalLayout(minimumWidth: int, paddingLeft: int, paddingRight: int) returns (ok: bool)
      requires Valid()
      modifies set b | b in buttons
      ensures var w := EqualWidth(old(MeasuredWidthsOf(buttons)), minimumWidth - paddingLeft - paddingRight);
        && ok == w.Some?
        && (ok ==> forall k :: 0 <= k < |buttons| ==>
              buttons[k].Attrs() == old(buttons[k].Attrs()).(layoutWidth := w.value))
        && (!ok ==> buttons == [])
      ensures State() == old(State())
    {
      var maxWidth := MaxMeasuredWidth();
      var budget := minimumWidth - paddingLeft - paddingRight;
      ghost var expected := EqualWidth(MeasuredWidthsOf(buttons), budget);
      if maxWidth * |buttons| < budget {
        if |buttons| == 0 {
          assert expected == None;
          return false;  // ArithmeticException: / by zero
        }
        maxWidth := budget / |buttons|;
      }
      assert expected == Some(maxWidth);
      AssignWidth(maxWidth);
      ok := true;
    }
  }
}
