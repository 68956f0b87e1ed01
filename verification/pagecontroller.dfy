/**
  The page-level rules of `XylocopeModern` other than the contact form:
  which navigation dot is active, the scroll spy, the portfolio filter,
  the mobile menu, the element cache and `destroy`.  Elements are plain
  records; the DOM, styles and events are not modelled.
 */
module PageController {
  import opened Common

  /** A `.nav-dot`: its `href` attribute and whether it has class `active`. */
  datatype Dot = Dot(href: Option<string>, active: bool)

  /** `updateActiveNavDot(activeSection)`: every dot is deactivated, then
      every dot whose `href` is `#` + the section id is activated. */
  function UpdateActiveNavDot(dots: seq<Dot>, section: string): (r: seq<Dot>)
    ensures |r| == |dots|
    ensures forall i :: 0 <= i < |dots| ==> r[i].href == dots[i].href
    ensures forall i :: 0 <= i < |dots| ==> (r[i].active <==> dots[i].href == Some("#" + section))
  {
    if |dots| == 0 then []
    else [Dot(dots[0].href, dots[0].href == Some("#" + section))] + UpdateActiveNavDot(dots[1..], section)
  }

  /** Activating a section twice is activating it once. */
  lemma UpdateActiveNavDotIdempotent(dots: seq<Dot>, section: string)
    ensures UpdateActiveNavDot(UpdateActiveNavDot(dots, section), section) == UpdateActiveNavDot(dots, section)
  {
  }

  /** A `section[id]`: its id and layout box. */
  datatype Section = Section(id: string, offsetTop: int, offsetHeight: int)

  const ScrollSpyOffset: int := 200

  /** Whether the scroll position lies in the section's window
      `[offsetTop - 200, offsetTop - 200 + offsetHeight)`. */
  predicate InWindow(s: Section, scrollY: int, offset: int)
  {
    s.offsetTop - offset <= scrollY < s.offsetTop - offset + s.offsetHeight
  }

  /** The id `updateActiveNavDotOnScroll` settles on: the last section
      whose window holds the scroll position, stated without the loop. */
  predicate IsLastMatch(sections: seq<Section>, scrollY: int, offset: int, id: string)
  {
    || (id == "" && forall i :: 0 <= i < |sections| ==> !InWindow(sections[i], scrollY, offset))
    || exists i :: 0 <= i < |sections| && InWindow(sections[i], scrollY, offset) && sections[i].id == id &&
         forall j :: i < j < |sections| ==> !InWindow(sections[j], scrollY, offset)
  }

  /** The `forEach` of `updateActiveNavDotOnScroll`: each section whose
      window holds the scroll position overwrites `currentSection`. */
  method ScrollSpy(sections: seq<Section>, scrollY: int, offset: int) returns (current: string)
    ensures IsLastMatch(sections, scrollY, offset, current)
  {
    current := "";
    var last := -1;
    var i := 0;
    while i < |sections|
      invariant 0 <= i <= |sections|
      invariant -1 <= last < i
      invariant last == -1 ==> current == "" && forall j :: 0 <= j < i ==> !InWindow(sections[j], scrollY, offset)
      invariant last >= 0 ==> InWindow(sections[last], scrollY, offset) && sections[last].id == current
      invariant forall j :: last < j < i ==> !InWindow(sections[j], scrollY, offset)
    {
      if InWindow(sections[i], scrollY, offset) {
        current := sections[i].id;
        last := i;
      }
      i := i + 1;
    }
  }

  /** `updateActiveNavDotOnScroll`: with no match, or a last match whose id
      is empty, the dots stay as they are. */
  method UpdateActiveNavDotOnScroll(dots: seq<Dot>, sections: seq<Section>, scrollY: int) returns (r: seq<Dot>)
    ensures exists id :: IsLastMatch(sections, scrollY, ScrollSpyOffset, id) &&
              r == if id == "" then dots else UpdateActiveNavDot(dots, id)
  {
    var current := ScrollSpy(sections, scrollY, ScrollSpyOffset);
    if current != "" {
      r := UpdateActiveNavDot(dots, current);
    } else {
      r := dots;
    }
  }

  /** Only one id can be the last match. */
  lemma LastMatchUnique(sections: seq<Section>, scrollY: int, offset: int, a: string, b: string)
    requires IsLastMatch(sections, scrollY, offset, a) && IsLastMatch(sections, scrollY, offset, b)
    ensures a == b
  {
    if a != "" || b != "" {
      if exists i :: 0 <= i < |sections| && InWindow(sections[i], scrollY, offset) && sections[i].id == a &&
           forall j :: i < j < |sections| ==> !InWindow(sections[j], scrollY, offset) {
        var i :| 0 <= i < |sections| && InWindow(sections[i], scrollY, offset) && sections[i].id == a &&
           forall j :: i < j < |sections| ==> !InWindow(sections[j], scrollY, offset);
        if exists k :: 0 <= k < |sections| && InWindow(sections[k], scrollY, offset) && sections[k].id == b &&
             forall j :: k < j < |sections| ==> !InWindow(sections[j], scrollY, offset) {
          var k :| 0 <= k < |sections| && InWindow(sections[k], scrollY, offset) && sections[k].id == b &&
             forall j :: k < j < |sections| ==> !InWindow(sections[j], scrollY, offset);
          assert i == k;
        }
      }
    }
  }

  // ---------------------------------------------------------- portfolio filter

  datatype FilterButton = FilterButton(filter: Option<string>, active: bool)

  /** A `.portfolio-item`: its `data-category` and `style.display`. */
  datatype Item = Item(category: Option<string>, display: string)

  /** Whether an item stays visible under a filter (`===` on string-or-null). */
  predicate Shown(filter: Option<string>, category: Option<string>)
  {
    filter == Some("all") || category == filter
  }

  function ShowItems(items: seq<Item>, filter: Option<string>): (r: seq<Item>)
    ensures |r| == |items|
    ensures forall i :: 0 <= i < |items| ==>
              r[i].category == items[i].category &&
              r[i].display == (if Shown(filter, items[i].category) then "block" else "none")
  {
    if |items| == 0 then []
    else
      [items[0].(display := if Shown(filter, items[0].category) then "block" else "none")]
      + ShowItems(items[1..], filter)
  }

  function ActivateOnly(buttons: seq<FilterButton>, k: nat): (r: seq<FilterButton>)
    requires k < |buttons|
    ensures |r| == |buttons|
    ensures forall i :: 0 <= i < |buttons| ==> r[i].filter == buttons[i].filter && (r[i].active <==> i == k)
  {
    seq(|buttons|, i requires 0 <= i < |buttons| => buttons[i].(active := i == k))
  }

  /** The click handler of filter button `k`. */
  function ClickFilter(buttons: seq<FilterButton>, items: seq<Item>, k: nat): (r: (seq<FilterButton>, seq<Item>))
    requires k < |buttons|
    ensures |r.0| == |buttons| && |r.1| == |items|
    ensures forall i :: 0 <= i < |r.0| ==> (r.0[i].active <==> i == k)
    ensures forall i :: 0 <= i < |r.1| ==>
              (r.1[i].display == "block" <==> buttons[k].filter == Some("all") || items[i].category == buttons[k].filter)
  {
    (ActivateOnly(buttons, k), ShowItems(items, buttons[k].filter))
  }

  /** Clicking the same button again changes nothing. */
  lemma ClickFilterIdempotent(buttons: seq<FilterButton>, items: seq<Item>, k: nat)
    requires k < |buttons|
    ensures var r := ClickFilter(buttons, items, k);
            ClickFilter(r.0, r.1, k) == r
  {
    var r := ClickFilter(buttons, items, k);
    var r2 := ClickFilter(r.0, r.1, k);
    assert r2.0 == r.0;
    assert r2.1 == r.1;
  }

  /** The `all` filter shows every item. */
  lemma AllShowsEverything(buttons: seq<FilterButton>, items: seq<Item>, k: nat)
    requires k < |buttons| && buttons[k].filter == Some("all")
    ensures forall i :: 0 <= i < |items| ==> ClickFilter(buttons, items, k).1[i].display == "block"
  {
  }

  // ------------------------------------------------------------- mobile menu

  datatype SpanStyle = SpanStyle(transform: string, opacity: string)

  /** The menu's `style.display`, the body's `style.overflow` and the styles
      of the trigger's `span`s; absent elements are not modelled, only the
      number of spans. */
  datatype Menu = Menu(display: string, bodyOverflow: string, spans: seq<SpanStyle>)

  datatype Toggled = Toggled(menu: Menu) | TypeError

  const OpenTop: string := "rotate(45deg) translate(5px, 5px)"
  const OpenBottom: string := "rotate(-45deg) translate(7px, -6px)"

  /** `toggleMobileMenu(show)`.  Opening writes to the first three spans
      and throws when there are fewer (after the menu and body styles are
      already set, which the error result does not record). */
  function ToggleMobileMenu(m: Menu, show: bool): (r: Toggled)
    ensures show ==> (r.TypeError? <==> |m.spans| < 3)
    ensures !show ==> r == Toggled(Menu("none", "", seq(|m.spans|, _ => SpanStyle("", ""))))
    ensures show && r.Toggled? ==>
              && r.menu.display == "flex" && r.menu.bodyOverflow == "hidden"
              && |r.menu.spans| == |m.spans|
              && r.menu.spans[0].transform == OpenTop && r.menu.spans[1].opacity == "0"
              && r.menu.spans[2].transform == OpenBottom
              && r.menu.spans[3..] == m.spans[3..]
              && r.menu.spans[0].opacity == m.spans[0].opacity
              && r.menu.spans[1].transform == m.spans[1].transform
              && r.menu.spans[2].opacity == m.spans[2].opacity
  {
    if show then
      if |m.spans| < 3 then TypeError
      else
        var s := m.spans;
        var spans := [s[0].(transform := OpenTop), s[1].(opacity := "0"), s[2].(transform := OpenBottom)] + s[3..];
        Toggled(Menu("flex", "hidden", spans))
    else
      Toggled(Menu("none", "", seq(|m.spans|, _ => SpanStyle("", ""))))
  }

  /** The trigger's click handler: open unless the menu shows as `flex`.
      A shown menu always closes; a hidden one opens, or throws when it has
      fewer than three spans. */
  function ClickTrigger(m: Menu): (r: Toggled)
    ensures m.display == "flex" ==> r.Toggled? && r.menu.display == "none" && r.menu.bodyOverflow == ""
    ensures m.display != "flex" ==> (r.TypeError? <==> |m.spans| < 3)
    ensures m.display != "flex" && r.Toggled? ==> r.menu.display == "flex" && r.menu.bodyOverflow == "hidden"
  {
    ToggleMobileMenu(m, m.display != "flex")
  }

  /** Closing after opening resets the spans, whatever they held, and
      closing is idempotent. */
  lemma CloseAfterOpen(m: Menu)
    requires |m.spans| >= 3
    ensures ToggleMobileMenu(ToggleMobileMenu(m, true).menu, false) == ToggleMobileMenu(m, false)
    ensures ToggleMobileMenu(ToggleMobileMenu(m, false).menu, false) == ToggleMobileMenu(m, false)
  {
  }

  /** Two clicks on the trigger from a closed menu with three spans leave
      it closed with reset spans. */
  lemma TwoClicksClose(m: Menu)
    requires m.display != "flex" && |m.spans| >= 3
    ensures ClickTrigger(m).Toggled?
    ensures ClickTrigger(ClickTrigger(m).menu) == ToggleMobileMenu(m, false)
  {
  }

  // ------------------------------------------------------- cache and destroy

  /** `getCachedElement(selector, key)`: the cache key is `key || selector`,
      and a lookup result, `null` included, is stored on the first call.
      The element found by the query is a parameter. */
  function GetCachedElement<E>(cache: map<string, Option<E>>, selector: string, key: Option<string>, found: Option<E>)
    : (r: (map<string, Option<E>>, Option<E>))
    ensures var k := if key.Some? && key.value != "" then key.value else selector;
            && k in r.0 && r.1 == r.0[k]
            && (k in cache ==> r.0 == cache)
            && (k !in cache ==> r.0 == cache[k := found])
  {
    var k := if key.Some? && key.value != "" then key.value else selector;
    var c := if k in cache then cache else cache[k := found];
    (c, c[k])
  }

  /** Once cached, a key keeps answering with its first result, even if the
      document has changed since. */
  lemma CacheIsSticky<E>(cache: map<string, Option<E>>, selector: string, first: Option<E>, later: Option<E>)
    ensures var r1 := GetCachedElement(cache, selector, None, first);
            var r2 := GetCachedElement(r1.0, selector, None, later);
            r2.1 == r1.1 && r2.0 == r1.0
  {
  }

  /** The instance state `destroy` touches. */
  datatype App<H, E> = App(cleanupHandlers: seq<H>, domCache: map<string, Option<E>>)

  /** What calling one cleanup handler does: it returns, or it throws. */
  datatype Run = Returned | Threw

  /** The handlers of `hs` that throw when called, in order. */
  function Throwing<H>(hs: seq<H>, run: H -> Run): (t: seq<H>)
    ensures |t| <= |hs|
    ensures forall k :: 0 <= k < |t| ==> run(t[k]).Threw?
    ensures (forall k :: 0 <= k < |hs| ==> run(hs[k]).Returned?) ==> t == []
  {
    if |hs| == 0 then []
    else
      var last := hs[|hs| - 1];
      assert forall k :: 0 <= k < |hs| - 1 ==> hs[..|hs| - 1][k] == hs[k];
      Throwing(hs[..|hs| - 1], run) + (if run(last).Threw? then [last] else [])
  }

  /** `destroy`: every cleanup handler is called once, in registration
      order, and one that throws neither stops the loop nor escapes it (its
      error is swallowed); then the handler list and the cache are
      emptied.  `ran` lists the handlers called, `swallowed` those whose
      error was swallowed. */
  method Destroy<H, E>(app: App<H, E>, run: H -> Run) returns (after: App<H, E>, ran: seq<H>, swallowed: seq<H>)
    ensures ran == app.cleanupHandlers
    ensures swallowed == Throwing(app.cleanupHandlers, run)
    ensures after.cleanupHandlers == [] && after.domCache == map[]
  {
    var hs := app.cleanupHandlers;
    ran, swallowed := [], [];
    var i := 0;
    while i < |hs|
      invariant 0 <= i <= |hs|
      invariant ran == hs[..i]
      invariant swallowed == Throwing(hs[..i], run)
    {
      var h := hs[i];
      ran := ran + [h];
      match run(h) {
        case Returned =>
        case Threw => swallowed := swallowed + [h];
      }
      assert hs[..i + 1][..i] == hs[..i];
      i := i + 1;
    }
    assert hs[..i] == hs;
    after := App([], map[]);
  }

  /** A second `destroy` calls nothing and leaves the emptied state as it
      is. */
  method DestroyIdempotent<H, E>(app: App<H, E>, run: H -> Run)
    returns (first: App<H, E>, second: App<H, E>, ranAgain: seq<H>)
    ensures first.cleanupHandlers == [] && first.domCache == map[]
    ensures second == first && ranAgain == []
  {
    var ran, swallowed, ranAgain2, swallowedAgain;
    first, ran, swallowed := Destroy(app, run);
    second, ranAgain2, swallowedAgain := Destroy(first, run);
    ranAgain := ranAgain2;
  }
}
