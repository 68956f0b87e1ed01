/**
  `getOffset` and `isInViewport` of the site's utility script.  An element's
  chain of offset parents is given as the list of their `offsetTop` values,
  the element's own first.  `offsetTop` and the window and document sizes
  are whole pixels; the bounding rectangle's coordinates are fractional,
  and only their comparisons with those sizes matter.
 */
module Geometry {

  /** The sum of a list of offsets, element first. */
  function Sum(xs: seq<int>): int
  {
    if |xs| == 0 then 0 else xs[0] + Sum(xs[1..])
  }

  lemma {:induction false} SumAppend(a: seq<int>, b: seq<int>)
    ensures Sum(a + b) == Sum(a) + Sum(b)
    decreases |a|
  {
    if |a| == 0 {
      assert a + b == b;
    } else {
      assert (a + b)[1..] == a[1..] + b;
      SumAppend(a[1..], b);
    }
  }

  /** `getOffset`: walk the `offsetParent` chain, adding each `offsetTop`. */
  method GetOffset(chain: seq<int>) returns (offsetTop: int)
    ensures offsetTop == Sum(chain)
    ensures |chain| > 0 ==> offsetTop == chain[0] + Sum(chain[1..])
    ensures (forall i :: 0 <= i < |chain| ==> chain[i] >= 0) ==> offsetTop >= 0
  {
    offsetTop := 0;
    var i := 0;
    while i < |chain|
      invariant 0 <= i <= |chain|
      invariant offsetTop == Sum(chain[..i])
    {
      SumAppend(chain[..i], [chain[i]]);
      assert chain[..i + 1] == chain[..i] + [chain[i]];
      offsetTop := offsetTop + chain[i];
      i := i + 1;
    }
    assert chain[..i] == chain;
    SumNonNegative(chain);
  }

  lemma {:induction false} SumNonNegative(xs: seq<int>)
    ensures (forall i :: 0 <= i < |xs| ==> xs[i] >= 0) ==> Sum(xs) >= 0
    decreases |xs|
  {
    if |xs| > 0 {
      SumNonNegative(xs[1..]);
    }
  }

  /** A document offset is the element's own `offsetTop` plus its parent's
      document offset: walking part of the chain and then the rest gives
      the same total. */
  lemma OffsetThroughParent(chain: seq<int>, k: nat)
    requires k <= |chain|
    ensures Sum(chain) == Sum(chain[..k]) + Sum(chain[k..])
  {
    SumAppend(chain[..k], chain[k..]);
    assert chain[..k] + chain[k..] == chain;
  }

  /** `getBoundingClientRect()`. */
  datatype Rect = Rect(top: real, left: real, bottom: real, right: real)

  /** The window's `innerHeight`/`innerWidth` and the document element's
      `clientHeight`/`clientWidth`. */
  datatype Viewport = Viewport(innerHeight: int, innerWidth: int, clientHeight: int, clientWidth: int)

  /** `a || b` on numbers: `0` is falsy. */
  function OrElse(a: int, b: int): (r: int)
    ensures a != 0 ==> r == a
    ensures a == 0 ==> r == b
  {
    if a != 0 then a else b
  }

  function ViewHeight(v: Viewport): int { OrElse(v.innerHeight, v.clientHeight) }
  function ViewWidth(v: Viewport): int { OrElse(v.innerWidth, v.clientWidth) }

  /** Whether `inner` lies inside `outer`, edges included. */
  predicate Within(inner: Rect, outer: Rect)
  {
    outer.top <= inner.top && outer.left <= inner.left &&
    inner.bottom <= outer.bottom && inner.right <= outer.right
  }

  /** `isInViewport`. */
  function IsInViewport(rect: Rect, v: Viewport): (ok: bool)
    ensures ok <==> Within(rect, Rect(0.0, 0.0, ViewHeight(v) as real, ViewWidth(v) as real))
  {
    rect.top >= 0.0 &&
    rect.left >= 0.0 &&
    rect.bottom <= OrElse(v.innerHeight, v.clientHeight) as real &&
    rect.right <= OrElse(v.innerWidth, v.clientWidth) as real
  }

  /** A box inside a box that is in the viewport is in the viewport too. */
  lemma InViewportShrinks(inner: Rect, outer: Rect, v: Viewport)
    requires Within(inner, outer) && IsInViewport(outer, v)
    ensures IsInViewport(inner, v)
  {
  }

  /** A zero `innerHeight`/`innerWidth` falls back on the document
      element's size; a non-zero one is used as it is. */
  lemma ViewportFallback(rect: Rect, v: Viewport)
    ensures v.innerHeight == 0 && v.innerWidth == 0 ==>
              (IsInViewport(rect, v) <==> Within(rect, Rect(0.0, 0.0, v.clientHeight as real, v.clientWidth as real)))
    ensures v.innerHeight != 0 && v.innerWidth != 0 ==>
              (IsInViewport(rect, v) <==> Within(rect, Rect(0.0, 0.0, v.innerHeight as real, v.innerWidth as real)))
  {
  }
}
