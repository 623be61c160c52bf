/** From the parameters of a new app window, and the geometry remembered for it, to the
    bounds it opens with. */
module WindowBounds {
  import opened Wrappers
  import opened Gfx
  import opened GeometrySpec

  const UNBOUNDED: nat := 0
  const DEFAULT_WIDTH: nat := 512
  const DEFAULT_HEIGHT: nat := 384

  function Min(a: int, b: int): int {
    if a <= b then a else b
  }

  function Max(a: int, b: int): int {
    if a >= b then a else b
  }

  // ----- SizeConstraints -----

  datatype SizeConstraints = SizeConstraints(minimum: Size, maximum: Size) {
    function GetMaximumSize(): Size {
      Size(if maximum.width == UNBOUNDED then UNBOUNDED else Max(maximum.width, minimum.width),
           if maximum.height == UNBOUNDED then UNBOUNDED else Max(maximum.height, minimum.height))
    }

    function ClampSize(size: Size): Size {
      var max := GetMaximumSize();
      var width := if max.width != UNBOUNDED then Min(size.width, max.width) else size.width;
      var height := if max.height != UNBOUNDED then Min(size.height, max.height) else size.height;
      Size(Max(width, minimum.width), Max(height, minimum.height))
    }

    /** What a size must satisfy; a maximum below the minimum is read as the minimum. */
    predicate Allows(size: Size) {
      && minimum.width <= size.width && minimum.height <= size.height
      && (maximum.width == UNBOUNDED || size.width <= maximum.width || size.width == minimum.width)
      && (maximum.height == UNBOUNDED || size.height <= maximum.height || size.height == minimum.height)
    }
  }

  function Distance(a: int, b: int): nat {
    if a <= b then b - a else a - b
  }

  /** ClampSize picks the allowed size that is nearest on both axes, and is the only one
      to be so near. */
  lemma ClampNearest(c: SizeConstraints, size: Size, other: Size)
    requires c.Allows(other)
    ensures var r := c.ClampSize(size);
            && c.Allows(r)
            && Distance(size.width, r.width) <= Distance(size.width, other.width)
            && Distance(size.height, r.height) <= Distance(size.height, other.height)
            && (other != r ==>
                || Distance(size.width, r.width) < Distance(size.width, other.width)
                || Distance(size.height, r.height) < Distance(size.height, other.height))
  {
    var r := c.ClampSize(size);
    if other.width != r.width {
      assert Distance(size.width, r.width) < Distance(size.width, other.width);
    }
    if other.height != r.height {
      assert Distance(size.height, r.height) < Distance(size.height, other.height);
    }
  }

  /** So a size is left alone exactly when it is allowed, and clamping again, also with
      the effective maximum, changes nothing. */
  lemma ClampTwice(c: SizeConstraints, size: Size)
    ensures c.ClampSize(size) == size <==> c.Allows(size)
    ensures c.ClampSize(c.ClampSize(size)) == c.ClampSize(size)
    ensures var effective := SizeConstraints(c.minimum, c.GetMaximumSize());
            && effective.GetMaximumSize() == c.GetMaximumSize()
            && effective.ClampSize(c.ClampSize(size)) == c.ClampSize(size)
  {
    if c.Allows(size) {
      ClampNearest(c, size, size);
    }
  }

  // ----- Fitting the remembered bounds to the screen -----

  /** The bounds were remembered on another work area and do not fit this one. */
  predicate Moves(cached: Rect, cachedScreen: Rect, screen: Rect) {
    cachedScreen != screen && !screen.Contains(cached)
  }

  function Adjusted(cached: Rect, cachedScreen: Rect, screen: Rect, minimum: Size): Rect {
    if !Moves(cached, cachedScreen, screen) then cached
    else
      var width := Max(minimum.width, Min(cached.width, screen.width));
      var height := Max(minimum.height, Min(cached.height, screen.height));
      Rect(Max(screen.x, Min(cached.x, screen.Right() - width)),
           Max(screen.y, Min(cached.y, screen.Bottom() - height)), width, height)
  }

  class RectPointer {
    var target: Rect

    constructor (target: Rect)
      ensures this.target == target
    {
      this.target := target;
    }
  }

  method AdjustBoundsToBeVisibleOnScreen(cached: Rect, cachedScreen: Rect, screen: Rect, minimum: Size,
                                         bounds: RectPointer)
    modifies bounds
    ensures bounds.target == Adjusted(cached, cachedScreen, screen, minimum)
  {
    bounds.target := cached;
    if cachedScreen != screen && !screen.Contains(cached) {
      bounds.target := bounds.target.(width := Max(minimum.width, Min(bounds.target.width, screen.width)));
      bounds.target := bounds.target.(height := Max(minimum.height, Min(bounds.target.height, screen.height)));
      bounds.target := bounds.target.(x := Max(screen.x, Min(bounds.target.x, screen.Right() - bounds.target.width)));
      bounds.target := bounds.target.(y := Max(screen.y, Min(bounds.target.y, screen.Bottom() - bounds.target.height)));
    }
  }

  // ----- The whole pipeline -----

  datatype CreateParams = CreateParams(bounds: Rect, minimum: Size, maximum: Size, windowKey: string, state: int) {
    function Constraints(): SizeConstraints {
      SizeConstraints(minimum, maximum)
    }
  }

  function WithDefaults(p: CreateParams): CreateParams {
    p.(bounds := p.bounds.(width := if p.bounds.width == 0 then DEFAULT_WIDTH else p.bounds.width,
                           height := if p.bounds.height == 0 then DEFAULT_HEIGHT else p.bounds.height))
  }

  function Constrained(p: CreateParams): CreateParams {
    var size := p.Constraints().ClampSize(Size(p.bounds.width, p.bounds.height));
    p.(bounds := p.bounds.(width := size.width, height := size.height), maximum := p.Constraints().GetMaximumSize())
  }

  /** LoadDefaultsAndConstrain; `cached` is what the geometry cache answers for the
      window key, `screen` the work area of the display that matches it. */
  function Loaded(p: CreateParams, cached: Option<Geometry>, screen: Rect): CreateParams {
    var d := WithDefaults(p);
    if p.windowKey != "" && cached.Some? then
      var g := cached.value;
      Constrained(d.(bounds := Adjusted(g.bounds, g.screenBounds, screen, p.minimum), state := g.state))
    else Constrained(d)
  }

  method LoadDefaultsAndConstrain(p: CreateParams, cached: Option<Geometry>, screen: Rect) returns (r: CreateParams)
    ensures r == Loaded(p, cached, screen)
  {
    r := p;
    if r.bounds.width == 0 {
      r := r.(bounds := r.bounds.(width := DEFAULT_WIDTH));
    }
    if r.bounds.height == 0 {
      r := r.(bounds := r.bounds.(height := DEFAULT_HEIGHT));
    }
    if r.windowKey != "" && cached.Some? {
      var bounds := new RectPointer(r.bounds);
      AdjustBoundsToBeVisibleOnScreen(cached.value.bounds, cached.value.screenBounds, screen, r.minimum, bounds);
      r := r.(bounds := bounds.target, state := cached.value.state);
    }
    var constraints := SizeConstraints(r.minimum, r.maximum);
    var size := constraints.ClampSize(Size(r.bounds.width, r.bounds.height));
    r := r.(bounds := r.bounds.(width := size.width, height := size.height));
    r := r.(minimum := constraints.minimum, maximum := constraints.GetMaximumSize());
  }

  /** Whatever the parameters and the cache: the window opens with a size that its
      constraints allow and, with a geometry as the cache returns them, never empty. */
  lemma OpensAllowed(p: CreateParams, cached: Option<Geometry>, screen: Rect)
    ensures var r := Loaded(p, cached, screen);
            && p.Constraints().Allows(Size(r.bounds.width, r.bounds.height))
            && (!screen.IsEmpty() && (cached.Some? ==> cached.value.Valid()) ==> !r.bounds.IsEmpty())
  {
    var d := WithDefaults(p);
    var b := if p.windowKey != "" && cached.Some?
    then Adjusted(cached.value.bounds, cached.value.screenBounds, screen, p.minimum) else d.bounds;
    ClampTwice(p.Constraints(), Size(b.width, b.height));
  }

  /** Loading again changes nothing. */
  lemma LoadedTwice(p: CreateParams, cached: Option<Geometry>, screen: Rect)
    requires !screen.IsEmpty() && (cached.Some? ==> cached.value.Valid())
    ensures Loaded(Loaded(p, cached, screen), cached, screen) == Loaded(p, cached, screen)
  {
    var d := WithDefaults(p);
    OpensAllowed(p, cached, screen);
    var b := if p.windowKey != "" && cached.Some?
    then Adjusted(cached.value.bounds, cached.value.screenBounds, screen, p.minimum) else d.bounds;
    ClampTwice(p.Constraints(), Size(b.width, b.height));
  }

  /** On one axis: from `start` the window may grow to its minimum, and must shrink to
      its maximum, without passing `end`. */
  predicate AxisFits(start: int, length: int, minimum: int, maximum: int, end: int) {
    start + minimum <= end && (start + length <= end || (maximum != UNBOUNDED && start + maximum <= end))
  }

  /** Exactly when a restored window opens inside the work area. A window that is moved
      needs only a minimum size that fits; a window that stays needs room for its minimum
      where it is, and one that stuck out before, on the same work area, is only
      helped by a maximum size. */
  lemma OpensInsideIff(p: CreateParams, g: Geometry, screen: Rect)
    requires p.windowKey != ""
    ensures screen.Contains(Loaded(p, Some(g), screen).bounds) <==>
            if Moves(g.bounds, g.screenBounds, screen) then
              p.minimum.width <= screen.width && p.minimum.height <= screen.height
            else
              && screen.x <= g.bounds.x && screen.y <= g.bounds.y
              && AxisFits(g.bounds.x, g.bounds.width, p.minimum.width, p.maximum.width, screen.Right())
              && AxisFits(g.bounds.y, g.bounds.height, p.minimum.height, p.maximum.height, screen.Bottom())
  {
  }

  /** Restored on another work area, with a minimum that fits and was kept: inside it,
      and within the constraints. */
  lemma RestoredInside(p: CreateParams, g: Geometry, screen: Rect)
    requires p.windowKey != "" && g.screenBounds != screen
    requires p.minimum.width <= screen.width && p.minimum.height <= screen.height
    requires p.minimum.width <= g.bounds.width && p.minimum.height <= g.bounds.height
    ensures var r := Loaded(p, Some(g), screen);
            && screen.Contains(r.bounds)
            && p.minimum.width <= r.bounds.width && p.minimum.height <= r.bounds.height
            && (r.maximum.width != UNBOUNDED ==> r.bounds.width <= r.maximum.width)
            && (r.maximum.height != UNBOUNDED ==> r.bounds.height <= r.maximum.height)
  {
    OpensInsideIff(p, g, screen);
  }

  /** Where a moved window goes, on each axis: to the origin if its minimum does not fit,
      else nowhere if it can stay, else to the nearer edge, before its maximum is applied. */
  lemma MovedTo(p: CreateParams, g: Geometry, screen: Rect)
    requires p.windowKey != "" && Moves(g.bounds, g.screenBounds, screen)
    ensures var r, a := Loaded(p, Some(g), screen).bounds, Adjusted(g.bounds, g.screenBounds, screen, p.minimum);
            && (p.minimum.width > screen.width ==> r.x == screen.x && r.width == p.minimum.width)
            && (p.minimum.height > screen.height ==> r.y == screen.y && r.height == p.minimum.height)
            && (p.minimum.width <= screen.width ==>
                  r.x == if g.bounds.x < screen.x then screen.x
                         else if g.bounds.x + a.width > screen.Right() then screen.Right() - a.width
                         else g.bounds.x)
            && (p.minimum.height <= screen.height ==>
                  r.y == if g.bounds.y < screen.y then screen.y
                         else if g.bounds.y + a.height > screen.Bottom() then screen.Bottom() - a.height
                         else g.bounds.y)
  {
  }

  /** A window that is closed as it opened, and opened again on the same work area, has
      the same bounds again, whatever it was first restored from. */
  lemma ReopensAsClosed(p: CreateParams, cached: Option<Geometry>, screen: Rect, state: int)
    requires p.windowKey != ""
    ensures var r := Loaded(p, cached, screen);
            Loaded(p, Some(Geometry(r.bounds, screen, state)), screen) == r.(state := state)
  {
    var b := if cached.Some? then Adjusted(cached.value.bounds, cached.value.screenBounds, screen, p.minimum)
    else WithDefaults(p).bounds;
    ClampTwice(p.Constraints(), Size(b.width, b.height));
  }

  /** The size on one axis when `asked` is asked for: that, if it is within the limits, else
      the limit it passes; a maximum of 0 is none, and one below the minimum is the minimum. */
  predicate Settles(asked: int, minimum: int, maximum: int, size: int) {
    && (asked <= minimum ==> size == minimum)
    && (minimum <= asked && (maximum == 0 || asked <= maximum) ==> size == asked)
    && (minimum <= maximum < asked && maximum != 0 ==> size == maximum)
    && (maximum < minimum <= asked && maximum != 0 ==> size == minimum)
  }

  /** When nothing is restored, the window opens where it is asked to, in the state it is
      asked to, and with the size it is asked to have or, where that is 0, with 512 or 384. */
  lemma OpensAsAsked(p: CreateParams, cached: Option<Geometry>, screen: Rect)
    requires p.windowKey == "" || cached.None?
    ensures var r := Loaded(p, cached, screen);
            && r.bounds.x == p.bounds.x && r.bounds.y == p.bounds.y && r.state == p.state
            && Settles(if p.bounds.width == 0 then 512 else p.bounds.width,
                       p.minimum.width, p.maximum.width, r.bounds.width)
            && Settles(if p.bounds.height == 0 then 384 else p.bounds.height,
                       p.minimum.height, p.maximum.height, r.bounds.height)
    ensures p.bounds.width != 0 && p.bounds.height != 0
            && p.Constraints().Allows(Size(p.bounds.width, p.bounds.height)) ==>
              Loaded(p, cached, screen).bounds == p.bounds
  {
  }

  /** The length that is asked for on one axis of a restored window. */
  function AskedLength(moves: bool, remembered: int, available: int): int {
    if moves && remembered > available then available else remembered
  }

  /** When a geometry is restored, the window opens in its state, with its size, cut to the
      work area if it is another one and does not contain the window, within the limits;
      and else where it was. */
  lemma OpensAsRemembered(p: CreateParams, g: Geometry, screen: Rect)
    requires p.windowKey != ""
    ensures var r := Loaded(p, Some(g), screen);
            var moves := g.screenBounds != screen && !screen.Contains(g.bounds);
            && r.state == g.state
            && Settles(AskedLength(moves, g.bounds.width, screen.width),
                       p.minimum.width, p.maximum.width, r.bounds.width)
            && Settles(AskedLength(moves, g.bounds.height, screen.height),
                       p.minimum.height, p.maximum.height, r.bounds.height)
            && (!moves ==> r.bounds.x == g.bounds.x && r.bounds.y == g.bounds.y)
  {
  }

  /** The limits themselves are kept, with the effective maximum: 0 if there is none, and
      at least the minimum. */
  lemma LimitsKept(p: CreateParams, cached: Option<Geometry>, screen: Rect)
    ensures var r := Loaded(p, cached, screen);
            && r.minimum == p.minimum && r.windowKey == p.windowKey
            && (p.maximum.width == 0 ==> r.maximum.width == 0)
            && (p.maximum.height == 0 ==> r.maximum.height == 0)
            && (p.maximum.width != 0 ==> Settles(p.maximum.width, p.minimum.width, 0, r.maximum.width))
            && (p.maximum.height != 0 ==> Settles(p.maximum.height, p.minimum.height, 0, r.maximum.height))
  {
  }
}
