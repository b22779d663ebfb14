/**
 * SegmentedButton: the per-button state that a SegmentedButtonGroup drives
 * (the clip of the selected-state overlay), the drawable gravity, the drawable
 * tint and the integer size selection of the measure pass.
 */
module Button {
  import opened Options

  // Colours are packed ARGB values held in a signed 32-bit Kotlin Int.
  const WHITE: int := -1             // 0xFFFFFFFF
  const TRANSPARENT: int := 0
  const BLACK: int := -16777216      // 0xFF000000

  /**
   * The clip state of a button: `amount` is the clipAmount field (how much of
   * the selected overlay is drawn) and `leftToRight` the clipLeftToRight field.
   */
  datatype Clip = Clip(amount: real, leftToRight: bool)

  /** The clip state of a newly created button (the fields' initial values). */
  const Unclipped: Clip := Clip(0.0, false)

  /** The state clipToLeft(clip) leaves behind. */
  function LeftClip(clip: real): Clip {
    Clip(1.0 - clip, false)
  }

  /** The state clipToRight(clip) leaves behind. */
  function RightClip(clip: real): Clip {
    Clip(1.0 - clip, true)
  }

  /** Both clip requests keep the amount within [0, 1] when the request is within [0, 1]. */
  lemma ClipAmountInRange(clip: real)
    requires 0.0 <= clip <= 1.0
    ensures 0.0 <= LeftClip(clip).amount <= 1.0 && 0.0 <= RightClip(clip).amount <= 1.0
    ensures LeftClip(clip).amount + clip == 1.0 && RightClip(clip).amount + clip == 1.0
    ensures !LeftClip(clip).leftToRight && RightClip(clip).leftToRight
  {
  }

  // ---------------------------------------------------------------------------
  // DrawableGravity

  /** Where the drawable sits relative to the text. */
  datatype Gravity = Left | Top | Right | Bottom {
    /** The enum's intValue. */
    function IntValue(): int {
      match this
      case Left => 0
      case Top => 1
      case Right => 2
      case Bottom => 3
    }

    /** isHorizontal, computed from intValue as the source does. */
    predicate IsHorizontal() {
      IntValue() == 0 || IntValue() == 2
    }
  }

  /** values(), in declaration order. */
  const GravityValues: seq<Gravity> := [Left, Top, Right, Bottom]

  /** The first of `values` whose intValue is `id`, or None when there is none (the loop of getById). */
  function FindGravity(values: seq<Gravity>, id: int): (g: Option<Gravity>)
    ensures g.Some? ==> g.value in values && g.value.IntValue() == id
    ensures g.None? <==> forall v <- values :: v.IntValue() != id
  {
    if values == [] then None
    else if values[0].IntValue() == id then Some(values[0])
    else FindGravity(values[1..], id)
  }

  /** DrawableGravity.getById. */
  function GetById(id: int): Option<Gravity> {
    FindGravity(GravityValues, id)
  }

  /** getById inverts intValue, and yields null exactly for ids outside 0..3. */
  lemma GetByIdRoundTrip(g: Gravity, id: int)
    ensures GetById(g.IntValue()) == Some(g)
    ensures GetById(id).None? <==> !(0 <= id <= 3)
    ensures GetById(id).Some? ==> GetById(id).value.IntValue() == id
  {
    assert g in GravityValues;
    if 0 <= id <= 3 {
      var named := GravityValues[id];
      assert named.IntValue() == id && named in GravityValues;
    }
  }

  /** isHorizontal holds exactly for LEFT and RIGHT. */
  lemma IsHorizontalExactly(g: Gravity)
    ensures g.IsHorizontal() <==> (g == Left || g == Right)
  {
  }

  // ---------------------------------------------------------------------------
  // Measurement

  /** The three modes of a MeasureSpec. */
  datatype Mode = Exactly | AtMost | Unspecified

  /** A MeasureSpec unpacked into its mode and its (non-negative) size. */
  datatype MeasureSpec = MeasureSpec(mode: Mode, size: nat)

  /** A width and a height in pixels (of the bitmap or of the text layout). */
  datatype Size = Size(width: nat, height: nat)

  /**
   * What onMeasure reads: the four paddings, whether a drawable was set and the
   * bitmap loaded for it (null when loading never ran), the size of the text
   * layout (staticLayout), the gravity (null for an unknown id) and drawablePadding.
   */
  datatype Content = Content(
    paddingLeft: int, paddingTop: int, paddingRight: int, paddingBottom: int,
    hasDrawable: bool, bitmap: Option<Size>, textLayout: Option<Size>,
    gravity: Option<Gravity>, drawablePadding: int)

  /**
   * How onMeasure ends: with the measured dimensions, or with the
   * NullPointerException of a `!!` on a null bitmap or gravity. Either way
   * `relaidTextWidth` is the width measureTextWidth laid the text out again to
   * before that point (None when the text layouts were left untouched).
   */
  datatype Measured =
    | Measured(width: int, height: int, relaidTextWidth: Option<int>)
    | Failed(relaidTextWidth: Option<int>)

  /** A content whose `!!` dereferences in onMeasure (and in calculate, which it calls) all succeed. */
  predicate Measurable(c: Content) {
    (c.hasDrawable ==> c.bitmap.Some?) && c.gravity.Some?
  }

  function BitmapWidth(c: Content): int
    requires c.hasDrawable ==> c.bitmap.Some?
  {
    if c.hasDrawable then c.bitmap.value.width else 0
  }

  function BitmapHeight(c: Content): int
    requires c.hasDrawable ==> c.bitmap.Some?
  {
    if c.hasDrawable then c.bitmap.value.height else 0
  }

  function TextWidth(c: Content): int {
    if c.textLayout.Some? then c.textLayout.value.width else 0
  }

  function TextHeight(c: Content): int {
    if c.textLayout.Some? then c.textLayout.value.height else 0
  }

  /**
   * The bitmap width measureTextWidth takes off: a drawable's, and only when it
   * sits beside the text. Without a drawable the gravity is never looked at.
   */
  function SideBitmapWidth(c: Content): int
    requires c.hasDrawable ==> c.bitmap.Some? && c.gravity.Some?
  {
    if c.hasDrawable && c.gravity.value.IsHorizontal() then c.bitmap.value.width else 0
  }

  /**
   * measureTextWidth(width): the width left for the text once the side bitmap
   * and the side paddings are taken off; None (layouts untouched) when that is
   * negative.
   */
  function MeasureTextWidth(c: Content, width: int): (w: Option<int>)
    requires c.hasDrawable ==> c.bitmap.Some? && c.gravity.Some?
    ensures w.None? <==> width < SideBitmapWidth(c) + c.paddingLeft + c.paddingRight
    ensures w.Some? ==> c.paddingLeft + SideBitmapWidth(c) + w.value + c.paddingRight == width
    ensures w.Some? ==> 0 <= w.value <= width - c.paddingLeft - c.paddingRight
  {
    var textWidth := width - (SideBitmapWidth(c) + c.paddingLeft + c.paddingRight);
    if textWidth < 0 then None else Some(textWidth)
  }

  function MeasureHeight(c: Content, spec: MeasureSpec): int
    requires Measurable(c)
  {
    var textHeight, bitmapHeight := TextHeight(c), BitmapHeight(c);
    match spec.mode
    case Exactly =>
      if c.gravity.value.IsHorizontal() then
        var h := Max(textHeight, bitmapHeight) + c.paddingTop + c.paddingBottom;
        if spec.size < h then h else spec.size
      else
        var h := textHeight + bitmapHeight + c.paddingTop + c.paddingBottom;
        if spec.size < h then h else spec.size + c.paddingTop - c.paddingBottom
    case AtMost =>
      var contentHeight :=
        if c.gravity.value.IsHorizontal() then Max(textHeight, bitmapHeight)
        else textHeight + bitmapHeight + c.drawablePadding;
      contentHeight + c.paddingTop * 2 + c.paddingBottom * 2
    case Unspecified =>
      c.paddingTop + c.paddingBottom
  }

  function Max(a: int, b: int): int {
    if a < b then b else a
  }

  /**
   * The rest of onMeasure once the width is chosen: the height pass reads the
   * gravity for EXACTLY and AT_MOST, and calculate reads it in every case.
   */
  function MeasureRest(c: Content, width: int, relaid: Option<int>, heightSpec: MeasureSpec): Measured
    requires c.hasDrawable ==> c.bitmap.Some?
  {
    if c.gravity.None? then Failed(relaid)
    else Measured(width, MeasureHeight(c, heightSpec), relaid)
  }

  /**
   * onMeasure, with its null dereferences in the order the source reaches them:
   * the bitmap, when a drawable is set; for EXACTLY with a positive requirement,
   * the gravity inside measureTextWidth, only when a drawable is set and before
   * the text is laid out again; the gravity for an AT_MOST width; then the
   * height pass and calculate.
   */
  function Measure(c: Content, widthSpec: MeasureSpec, heightSpec: MeasureSpec): (m: Measured)
    ensures m.Measured? <==> Measurable(c)
    ensures m.relaidTextWidth.Some? ==>
      && widthSpec.mode == Exactly && 0 < widthSpec.size
      && (c.hasDrawable ==> Measurable(c))
      && m.relaidTextWidth == MeasureTextWidth(c, widthSpec.size)
  {
    if c.hasDrawable && c.bitmap.None? then Failed(None)
    else
      match widthSpec.mode
      case Exactly =>
        if 0 < widthSpec.size then
          if c.hasDrawable && c.gravity.None? then Failed(None)
          else MeasureRest(c, widthSpec.size, MeasureTextWidth(c, widthSpec.size), heightSpec)
        else MeasureRest(c, 0, None, heightSpec)
      case AtMost =>
        if c.gravity.None? then Failed(None)
        else
          var bitmapWidth := if c.gravity.value.IsHorizontal() then BitmapWidth(c) else 0;
          MeasureRest(c, c.paddingLeft + c.paddingRight + TextWidth(c) + bitmapWidth, None, heightSpec)
      case Unspecified =>
        MeasureRest(c, TextWidth(c) + BitmapWidth(c), None, heightSpec)
  }

  /** The measured width, mode by mode. */
  lemma MeasuredWidthByMode(c: Content, ws: MeasureSpec, hs: MeasureSpec)
    requires Measurable(c)
    ensures var m := Measure(c, ws, hs);
      && (ws.mode == Exactly ==> m.width == ws.size)
      && (ws.mode == Exactly && 0 < ws.size ==> m.relaidTextWidth == MeasureTextWidth(c, ws.size))
      && (ws.mode == AtMost && c.gravity.value.IsHorizontal() ==>
            m.width == c.paddingLeft + c.paddingRight + TextWidth(c) + BitmapWidth(c))
      && (ws.mode == AtMost && !c.gravity.value.IsHorizontal() ==>
            m.width == c.paddingLeft + c.paddingRight + TextWidth(c))
      && (ws.mode == Unspecified ==> m.width == TextWidth(c) + BitmapWidth(c))
      && (ws.mode != Exactly || ws.size == 0 ==> m.relaidTextWidth.None?)
  {
  }

  /**
   * Without a drawable, a null gravity is first read after measureTextWidth:
   * an EXACTLY width lays the text out again and only then does the measure fail.
   */
  lemma RelayoutBeforeFailure(c: Content, ws: MeasureSpec, hs: MeasureSpec)
    requires !c.hasDrawable && c.gravity.None? && ws.mode == Exactly && 0 < ws.size
    ensures Measure(c, ws, hs).Failed?
    ensures Measure(c, ws, hs).relaidTextWidth == MeasureTextWidth(c, ws.size)
    ensures Measure(c, ws, hs).relaidTextWidth.Some? <==> c.paddingLeft + c.paddingRight <= ws.size
  {
  }

  /** With a drawable, a missing bitmap or gravity fails the measure before any relayout. */
  lemma DrawableFailsBeforeRelayout(c: Content, ws: MeasureSpec, hs: MeasureSpec)
    requires c.hasDrawable && !Measurable(c)
    ensures Measure(c, ws, hs) == Failed(None)
  {
  }

  /** EXACTLY height with a horizontal gravity: the requirement, raised to the content height if need be. */
  lemma ExactHeightHorizontal(c: Content, ws: MeasureSpec, hs: MeasureSpec)
    requires Measurable(c) && c.gravity.value.IsHorizontal() && hs.mode == Exactly
    ensures var h := Measure(c, ws, hs).height;
      && h == Max(hs.size, Max(TextHeight(c), BitmapHeight(c)) + c.paddingTop + c.paddingBottom)
      && h >= hs.size
  {
  }

  /**
   * EXACTLY height with a vertical gravity: the content height when the
   * requirement is smaller, otherwise the requirement shifted by
   * paddingTop - paddingBottom, so it equals the requirement only when the two
   * paddings agree.
   */
  lemma ExactHeightVertical(c: Content, ws: MeasureSpec, hs: MeasureSpec)
    requires Measurable(c) && !c.gravity.value.IsHorizontal() && hs.mode == Exactly
    ensures var h := Measure(c, ws, hs).height;
      var content := TextHeight(c) + BitmapHeight(c) + c.paddingTop + c.paddingBottom;
      && (hs.size < content ==> h == content)
      && (content <= hs.size ==> h == hs.size + c.paddingTop - c.paddingBottom)
      && (content <= hs.size ==> (h == hs.size <==> c.paddingTop == c.paddingBottom))
  {
  }

  /** AT_MOST and UNSPECIFIED heights; neither depends on the requirement's size. */
  lemma OtherHeights(c: Content, ws: MeasureSpec, hs: MeasureSpec, hs': MeasureSpec)
    requires Measurable(c) && hs.mode != Exactly && hs'.mode == hs.mode
    ensures var h := Measure(c, ws, hs).height;
      && (hs.mode == AtMost && c.gravity.value.IsHorizontal() ==>
            h == Max(TextHeight(c), BitmapHeight(c)) + 2 * c.paddingTop + 2 * c.paddingBottom)
      && (hs.mode == AtMost && !c.gravity.value.IsHorizontal() ==>
            h == TextHeight(c) + BitmapHeight(c) + c.drawablePadding + 2 * c.paddingTop + 2 * c.paddingBottom)
      && (hs.mode == Unspecified ==> h == c.paddingTop + c.paddingBottom)
      && h == Measure(c, ws, hs').height
  {
  }

  /** An unknown gravity id leaves the gravity null, and onMeasure then fails whatever the specs. */
  lemma UnknownGravityFailsMeasure(c: Content, id: int, ws: MeasureSpec, hs: MeasureSpec)
    requires c.gravity == GetById(id) && !(0 <= id <= 3)
    ensures Measure(c, ws, hs).Failed?
  {
    GetByIdRoundTrip(Left, id);
  }

  // ---------------------------------------------------------------------------
  // The view

  /**
   * The non-clip state of a button that the group and the measure pass touch:
   * radius, the selector paint's colour, the drawable tint (and whether one is
   * in force, and the colour of the normal-state filter), layoutParams.width,
   * the measure inputs and the measured dimensions.
   */
  datatype Attributes = Attributes(radius: int, selectorColor: int, drawableTint: int, hasDrawableTint: bool,
                       normalTintFilter: Option<int>, layoutWidth: int, content: Content,
                       measuredWidth: int, measuredHeight: int)

  class SegmentedButton {
    var clipAmount: real
    var clipLeftToRight: bool
    var radius: int
    var selectorColor: int              // paint.color
    var drawableTint: int
    var hasDrawableTint: bool
    var normalTintFilter: Option<int>   // the colour of bitmapNormalColor, when set
    var layoutWidth: int                // layoutParams.width
    var content: Content
    var measuredWidth: int
    var measuredHeight: int

    function CurrentClip(): Clip
      reads this
    {
      Clip(clipAmount, clipLeftToRight)
    }

    function Attrs(): Attributes
      reads this
    {
      Attributes(radius, selectorColor, drawableTint, hasDrawableTint, normalTintFilter,
                  layoutWidth, content, measuredWidth, measuredHeight)
    }

    /** A button as inflated: nothing clipped, a black selector, no tint. */
    constructor (content: Content, layoutWidth: int)
      ensures CurrentClip() == Unclipped
      ensures Attrs() == Attributes(0, BLACK, 0, false, None, layoutWidth, content, 0, 0)
    {
      clipAmount, clipLeftToRight := 0.0, false;
      radius, selectorColor := 0, BLACK;
      drawableTint, hasDrawableTint, normalTintFilter := 0, false, None;
      this.layoutWidth, this.content := layoutWidth, content;
      measuredWidth, measuredHeight := 0, 0;
    }

    /** clipToLeft: the selected overlay is drawn from the left edge, over clipAmount = 1 - clip of the width. */
    method ClipToLeft(clip: real)
      modifies this`clipAmount, this`clipLeftToRight
      ensures CurrentClip() == LeftClip(clip)
      ensures !clipLeftToRight && clipAmount == 1.0 - clip
    {
      clipLeftToRight := false;
      clipAmount := 1.0 - clip;
    }

    /** clipToRight: the selected overlay is drawn up to the right edge, over clipAmount = 1 - clip of the width. */
    method ClipToRight(clip: real)
      modifies this`clipAmount, this`clipLeftToRight
      ensures CurrentClip() == RightClip(clip)
      ensures clipLeftToRight && clipAmount == 1.0 - clip
    {
      clipLeftToRight := true;
      clipAmount := 1.0 - clip;
    }

    /** setSelectorColor: the colour of the selector paint. */
    method SetSelectorColor(color: int)
      modifies this`selectorColor
      ensures selectorColor == color
    {
      selectorColor := color;
    }

    /**
     * The drawableTint setter: records the colour, and only a colour other than
     * WHITE and TRANSPARENT switches the tint (and its filter) on; nothing
     * switches it off.
     */
    method SetDrawableTint(color: int)
      modifies this`drawableTint, this`hasDrawableTint, this`normalTintFilter
      ensures drawableTint == color
      ensures hasDrawableTint == (old(hasDrawableTint) || (color != WHITE && color != TRANSPARENT))
      ensures normalTintFilter == if color != WHITE && color != TRANSPARENT then Some(color) else old(normalTintFilter)
      ensures old(hasDrawableTint) ==> hasDrawableTint
    {
      drawableTint := color;
      if color != WHITE && color != TRANSPARENT {
        hasDrawableTint := true;
        normalTintFilter := Some(color);
      }
    }

    /**
     * onMeasure: stores the measured dimensions and, when measureTextWidth laid
     * the text out again, the new layout's size (its height, which depends on
     * how the platform wraps the text, is the parameter `wrappedTextHeight`).
     * `ok` is false where the source throws a NullPointerException; a relayout
     * reached before that point has happened all the same.
     */
    method OnMeasure(widthSpec: MeasureSpec, heightSpec: MeasureSpec, wrappedTextHeight: nat) returns (ok: bool)
      modifies this`measuredWidth, this`measuredHeight, this`content
      ensures var m := Measure(old(content), widthSpec, heightSpec);
        && ok == m.Measured?
        && (ok ==> measuredWidth == m.width && measuredHeight == m.height)
        && (!ok ==> measuredWidth == old(measuredWidth) && measuredHeight == old(measuredHeight))
        && (m.relaidTextWidth.Some? ==>
              content == old(content).(textLayout := Some(Size(m.relaidTextWidth.value, wrappedTextHeight))))
        && (m.relaidTextWidth.None? ==> content == old(content))
    {
      var m := Measure(content, widthSpec, heightSpec);
      if m.relaidTextWidth.Some? {
        content := content.(textLayout := Some(Size(m.relaidTextWidth.value, wrappedTextHeight)));
      }
      if m.Failed? {
        return false;
      }
      measuredWidth, measuredHeight := m.width, m.height;
      ok := true;
    }
  }
}
