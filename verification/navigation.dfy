/**
  `NavigationModule`: which section is current, which dot is active, and
  when a click or a call scrolls.  The offsets and the scroll duration
  come from the configuration object and are parameters here; `$` on an
  id is a lookup function giving the target's `offsetTop`.
 */
module Navigation {
  import opened Common
  import opened PageController

  /** `getCurrentActiveSection`: the id of the first section whose window
      holds the scroll position. */
  function CurrentActiveSection(sections: seq<Section>, scrollY: int, offset: int): (r: Option<string>)
    ensures r.None? <==> forall i :: 0 <= i < |sections| ==> !InWindow(sections[i], scrollY, offset)
    ensures r.Some? ==>
              exists i :: 0 <= i < |sections| && InWindow(sections[i], scrollY, offset) &&
                sections[i].id == r.value && forall j :: 0 <= j < i ==> !InWindow(sections[j], scrollY, offset)
  {
    if |sections| == 0 then None
    else if InWindow(sections[0], scrollY, offset) then Some(sections[0].id)
    else
      var r := CurrentActiveSection(sections[1..], scrollY, offset);
      if r.Some? then
        var i :| 0 <= i < |sections[1..]| && InWindow(sections[1..][i], scrollY, offset) &&
          sections[1..][i].id == r.value && forall j :: 0 <= j < i ==> !InWindow(sections[1..][j], scrollY, offset);
        assert InWindow(sections[i + 1], scrollY, offset);
        r
      else r
  }

  /** The sections' windows do not overlap. */
  predicate Disjoint(sections: seq<Section>, offset: int)
  {
    forall i, j :: 0 <= i < j < |sections| ==>
      var a := sections[i]; var b := sections[j];
      a.offsetTop + a.offsetHeight <= b.offsetTop || b.offsetTop + b.offsetHeight <= a.offsetTop
  }

  lemma OneWindowAtMost(sections: seq<Section>, scrollY: int, offset: int, i: nat, j: nat)
    requires Disjoint(sections, offset)
    requires i < |sections| && j < |sections|
    requires InWindow(sections[i], scrollY, offset) && InWindow(sections[j], scrollY, offset)
    ensures i == j
  {
  }

  /** With windows that do not overlap, the first match (`getCurrentActiveSection`)
      and the last match (the scroll handler) are the same section. */
  lemma FirstAndLastAgree(sections: seq<Section>, scrollY: int, offset: int)
    requires Disjoint(sections, offset)
    ensures CurrentActiveSection(sections, scrollY, offset).None? ==> IsLastMatch(sections, scrollY, offset, "")
    ensures CurrentActiveSection(sections, scrollY, offset).Some? ==>
              IsLastMatch(sections, scrollY, offset, CurrentActiveSection(sections, scrollY, offset).value)
  {
    var r := CurrentActiveSection(sections, scrollY, offset);
    if r.Some? {
      var i :| 0 <= i < |sections| && InWindow(sections[i], scrollY, offset) &&
        sections[i].id == r.value && forall j :: 0 <= j < i ==> !InWindow(sections[j], scrollY, offset);
      forall j | i < j < |sections|
        ensures !InWindow(sections[j], scrollY, offset)
      {
        if InWindow(sections[j], scrollY, offset) {
          OneWindowAtMost(sections, scrollY, offset, i, j);
        }
      }
    }
  }

  /** Overlapping windows make the two disagree: the first match is `a`,
      the last is `b`. */
  lemma OverlapDisagrees()
    ensures CurrentActiveSection([Section("a", 0, 1000), Section("b", 100, 1000)], 150, 0) == Some("a")
    ensures IsLastMatch([Section("a", 0, 1000), Section("b", 100, 1000)], 150, 0, "b")
  {
    var s := [Section("a", 0, 1000), Section("b", 100, 1000)];
    assert InWindow(s[1], 150, 0);
  }

  /** The first dot whose `href` is `#` + the section id. */
  predicate FirstDotFor(dots: seq<Dot>, section: string, i: nat)
    requires i < |dots|
  {
    dots[i].href == Some("#" + section) &&
    forall j :: 0 <= j < i ==> dots[j].href != Some("#" + section)
  }

  /** `updateActiveNavDot`: clear every dot, then activate the one `find`
      returns, the first with a matching `href`. */
  function UpdateActiveNavDot(dots: seq<Dot>, section: string): (r: seq<Dot>)
    ensures |r| == |dots|
    ensures forall i :: 0 <= i < |dots| ==> r[i].href == dots[i].href
    ensures forall i :: 0 <= i < |dots| ==> (r[i].active <==> FirstDotFor(dots, section, i))
  {
    if |dots| == 0 then []
    else if dots[0].href == Some("#" + section) then
      [Dot(dots[0].href, true)] + seq(|dots| - 1, i requires 0 <= i < |dots| - 1 => Dot(dots[i + 1].href, false))
    else
      var rest := UpdateActiveNavDot(dots[1..], section);
      FirstDotShift(dots, section);
      [Dot(dots[0].href, false)] + rest
  }

  /** Past a first dot that does not match, the first match is the first
      match of the rest. */
  lemma FirstDotShift(dots: seq<Dot>, section: string)
    requires |dots| > 0 && dots[0].href != Some("#" + section)
    ensures forall i :: 1 <= i < |dots| ==> (FirstDotFor(dots, section, i) <==> FirstDotFor(dots[1..], section, i - 1))
  {
    forall i | 1 <= i < |dots|
      ensures FirstDotFor(dots, section, i) <==> FirstDotFor(dots[1..], section, i - 1)
    {
      if FirstDotFor(dots[1..], section, i - 1) {
        forall j | 0 <= j < i
          ensures dots[j].href != Some("#" + section)
        {
          if j > 0 {
            assert dots[j] == dots[1..][j - 1];
          }
        }
      }
    }
  }

  /** At most one dot is active, and one is exactly when some dot matches. */
  lemma SingleActiveDot(dots: seq<Dot>, section: string, i: nat, j: nat)
    requires i < |dots| && j < |dots|
    requires UpdateActiveNavDot(dots, section)[i].active && UpdateActiveNavDot(dots, section)[j].active
    ensures i == j
  {
  }

  lemma SomeDotActive(dots: seq<Dot>, section: string, k: nat)
    requires k < |dots| && dots[k].href == Some("#" + section)
    ensures exists i :: 0 <= i < |dots| && UpdateActiveNavDot(dots, section)[i].active
  {
    var i :| 0 <= i <= k && dots[i].href == Some("#" + section) &&
      forall j :: 0 <= j < i ==> dots[j].href != Some("#" + section) by {
      FirstMatchExists(dots, section, k);
    }
    assert UpdateActiveNavDot(dots, section)[i].active;
  }

  lemma {:induction false} FirstMatchExists(dots: seq<Dot>, section: string, k: nat)
    requires k < |dots| && dots[k].href == Some("#" + section)
    ensures exists i :: 0 <= i <= k && dots[i].href == Some("#" + section) &&
              forall j :: 0 <= j < i ==> dots[j].href != Some("#" + section)
  {
    if exists m :: 0 <= m < k && dots[m].href == Some("#" + section) {
      var m :| 0 <= m < k && dots[m].href == Some("#" + section);
      FirstMatchExists(dots, section, m);
    } else {
      assert FirstDotFor(dots, section, k);
    }
  }

  /** With distinct `href`s this agrees with the page controller's version,
      which activates every matching dot. */
  lemma AgreesWithPageVersion(dots: seq<Dot>, section: string)
    requires forall i, j :: 0 <= i < j < |dots| && dots[i].href.Some? ==> dots[i].href != dots[j].href
    ensures UpdateActiveNavDot(dots, section) == PageController.UpdateActiveNavDot(dots, section)
  {
    var a := UpdateActiveNavDot(dots, section);
    var b := PageController.UpdateActiveNavDot(dots, section);
    assert forall i :: 0 <= i < |dots| ==> a[i] == b[i];
  }

  /** The scroll handler: the last match wins, and no match or an empty id
      leaves the dots alone. */
  method UpdateActiveNavDotOnScroll(dots: seq<Dot>, sections: seq<Section>, scrollY: int, offset: int)
    returns (r: seq<Dot>)
    ensures exists id :: IsLastMatch(sections, scrollY, offset, id) &&
              r == if id == "" then dots else UpdateActiveNavDot(dots, id)
  {
    var current := ScrollSpy(sections, scrollY, offset);
    if current != "" {
      r := UpdateActiveNavDot(dots, current);
    } else {
      r := dots;
    }
  }

  // ---------------------------------------------------------------- scrolling

  /** What `smoothScrollTo` starts: nothing, or an animation from the
      current position over `distance` pixels. */
  datatype Scroll = NoScroll | Animate(startPosition: int, distance: int)

  /** `smoothScrollTo(target, customOffset)`: `customOffset ?? SCROLL_OFFSET`,
      and no animation for a missing target or a distance under 10 pixels. */
  function SmoothScrollTo(target: Option<int>, customOffset: Option<int>, scrollOffset: int, pageYOffset: int): (s: Scroll)
    ensures target.None? ==> s == NoScroll
    ensures s.Animate? ==> s.startPosition == pageYOffset && (s.distance <= -10 || 10 <= s.distance)
    ensures s.Animate? ==>
              pageYOffset + s.distance == target.value - (if customOffset.Some? then customOffset.value else scrollOffset)
    ensures target.Some? && s == NoScroll ==>
              var d := target.value - (if customOffset.Some? then customOffset.value else scrollOffset) - pageYOffset;
              -10 < d < 10
  {
    match target
    case None => NoScroll
    case Some(offsetTop) =>
      var offset := match customOffset case Some(o) => o case None => scrollOffset;
      var distance := offsetTop - offset - pageYOffset;
      if -10 < distance < 10 then NoScroll else Animate(pageYOffset, distance)
  }

  /** Once at the target, a second call does not move. */
  lemma ScrollSettles(offsetTop: int, customOffset: Option<int>, scrollOffset: int, pageYOffset: int)
    requires SmoothScrollTo(Some(offsetTop), customOffset, scrollOffset, pageYOffset).Animate?
    ensures var s := SmoothScrollTo(Some(offsetTop), customOffset, scrollOffset, pageYOffset);
            SmoothScrollTo(Some(offsetTop), customOffset, scrollOffset, s.startPosition + s.distance) == NoScroll
  {
  }

  /** `scrollToSection(id)`: false exactly when no element has the id. */
  function ScrollToSection(id: string, lookup: string -> Option<int>, scrollOffset: int, pageYOffset: int)
    : (r: (bool, Scroll))
    ensures r.0 <==> lookup(id).Some?
    ensures !r.0 ==> r.1 == NoScroll
  {
    match lookup(id)
    case None => (false, NoScroll)
    case Some(top) => (true, SmoothScrollTo(Some(top), None, scrollOffset, pageYOffset))
  }

  datatype Click = Click(scroll: Scroll, dots: seq<Dot>)

  /** The id a dot points at: its `href` without the leading character,
      none when that leaves nothing (`!targetId`). */
  function TargetId(href: Option<string>): (t: Option<string>)
    ensures t.Some? <==> href.Some? && |href.value| > 1
    ensures t.Some? ==> t.value != "" && href.value == [href.value[0]] + t.value
  {
    match href
    case None => None
    case Some(h) => if |h| <= 1 then None else Some(h[1..])
  }

  /** An anchor `#id` points at `id`; a bare `#` points nowhere. */
  lemma TargetOfAnchor(id: string)
    ensures TargetId(Some("#" + id)) == if id == "" then None else Some(id)
  {
    if id != "" {
      assert ("#" + id)[1..] == id;
    }
  }

  /** `handleNavDotClick`: a dot without a target, or whose target is not
      in the page, neither scrolls nor changes the dots. */
  function HandleNavDotClick(dots: seq<Dot>, href: Option<string>, lookup: string -> Option<int>,
                             scrollOffset: int, pageYOffset: int): (c: Click)
    ensures (TargetId(href).None? || lookup(TargetId(href).value).None?) ==> c == Click(NoScroll, dots)
    ensures TargetId(href).Some? && lookup(TargetId(href).value).Some? ==>
              var id := TargetId(href).value;
              c.dots == UpdateActiveNavDot(dots, id) &&
              c.scroll == SmoothScrollTo(lookup(id), None, scrollOffset, pageYOffset)
  {
    match TargetId(href)
    case None => Click(NoScroll, dots)
    case Some(id) =>
      match lookup(id)
      case None => Click(NoScroll, dots)
      case Some(top) => Click(SmoothScrollTo(Some(top), None, scrollOffset, pageYOffset), UpdateActiveNavDot(dots, id))
  }

  /** Clicking a dot whose `href` is `#` + an id present in the page makes
      it the active one, when it is the first dot with that `href`. */
  lemma ClickedDotActive(dots: seq<Dot>, k: nat, lookup: string -> Option<int>, scrollOffset: int, pageYOffset: int)
    requires k < |dots| && dots[k].href.Some? && |dots[k].href.value| > 1 && dots[k].href.value[0] == '#'
    requires lookup(dots[k].href.value[1..]).Some?
    requires forall j :: 0 <= j < k ==> dots[j].href != dots[k].href
    ensures HandleNavDotClick(dots, dots[k].href, lookup, scrollOffset, pageYOffset).dots[k].active
  {
    var h := dots[k].href.value;
    assert h == "#" + h[1..];
    assert FirstDotFor(dots, h[1..], k);
  }

  // ---------------------------------------------------------- animation frames

  /** A JavaScript number as far as frame progress needs it. */
  datatype Num = Finite(v: real) | NaN

  /** `Math.min(timeElapsed / duration, 1)`; a zero duration divides to
      `Infinity` (progress 1) or, on the first frame, to `NaN`. */
  function Progress(elapsed: real, duration: real): (p: Num)
    requires elapsed >= 0.0
    ensures p.Finite? ==> p.v <= 1.0
    ensures duration > 0.0 ==> p.Finite? && 0.0 <= p.v && (p.v < 1.0 <==> elapsed < duration)
    ensures p.NaN? <==> duration == 0.0 && elapsed == 0.0
  {
    if duration == 0.0 then (if elapsed == 0.0 then NaN else Finite(1.0))
    else
      var q := elapsed / duration;
      DivBounds(elapsed, duration);
      Finite(if q < 1.0 then q else 1.0)
  }

  lemma DivBounds(a: real, d: real)
    requires a >= 0.0 && d != 0.0
    ensures d > 0.0 ==> a / d >= 0.0 && (a / d < 1.0 <==> a < d)
  {
    if a < d {
      assert a / d * d == a;
    } else {
      assert a / d * d == a;
    }
  }

  /** `progress < 1`: another frame is requested.  A `NaN` progress
      compares false and ends the animation. */
  predicate RequestsFrame(p: Num)
  {
    p.Finite? && p.v < 1.0
  }

  /** With a positive duration the animation keeps requesting frames
      exactly until the duration has elapsed, and progress never falls. */
  lemma FramesUntilDuration(e1: real, e2: real, duration: real)
    requires 0.0 <= e1 <= e2 && duration > 0.0
    ensures RequestsFrame(Progress(e1, duration)) <==> e1 < duration
    ensures Progress(e1, duration).v <= Progress(e2, duration).v
  {
    assert e1 / duration <= e2 / duration by {
      assert e2 / duration - e1 / duration == (e2 - e1) / duration;
      DivBounds(e2 - e1, duration);
    }
    assert Progress(e1, duration).v == if e1 / duration < 1.0 then e1 / duration else 1.0;
    assert Progress(e2, duration).v == if e2 / duration < 1.0 then e2 / duration else 1.0;
  }
}
