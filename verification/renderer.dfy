/** The menu renderer (`_renderMenu`): it walks the container in pre-order,
    filters each page through the depth bound, the acceptance gate and the
    active-branch rule, and emits `<ul>`/`<li>` lines as the walk moves
    between accepted pages, closing whatever is still open at the end.
    The scratch values the source writes onto pages (`depth`, `class`) are
    passed to the formatter as arguments instead. */
module Renderer {
  import opened Wrappers
  import opened PhpStrings
  import opened Navigation
  import opened Markup
  import opened Tokens

  /** `_renderMenu`'s arguments other than the container. `ulClass` is
      accepted and never read. */
  datatype RenderOptions = RenderOptions(
    ulClass: string,
    indent: string,
    minDepth: nat,
    maxDepth: Option<nat>,
    onlyActive: bool)

  /** Everything one render depends on. `accept` is the helper's
      visibility/ACL gate, asked about a position of the container; `found`
      is the position `findActive` returned, if any. */
  datatype Request = Request(
    forest: seq<Page>,
    opts: RenderOptions,
    accept: Path -> bool,
    found: Option<Path>,
    helper: MenuHelper)
  {
    /** `findActive` only ever returns a page of the container. */
    predicate Valid() {
      found.None? || IsPosition(forest, found.value)
    }
  }

  /** `$foundPage->hasPage($page)`: the page is a direct child of the page at `of`. */
  predicate IsChildOf(path: Path, of: Path) {
    |path| == |of| + 1 && path[..|of|] == of
  }

  /** `$foundPage->getParent()->hasPage($page)`: the page has the same
      parent as the page at `of` (the page at `of` itself included). */
  predicate IsSiblingOf(path: Path, of: Path) {
    of != [] && |path| == |of| && path[..|of| - 1] == of[..|of| - 1]
  }

  /** The rule that lets a page that is not active into an `onlyActive`
      menu: it is a child of the found page, or a sibling of it while the
      found page has no children or its children lie below `maxDepth`. */
  predicate InActiveBranch(r: Request, v: Visit)
    requires r.Valid()
  {
    match r.found
    case None => false
    case Some(fp) =>
      var foundPage := At(r.forest, fp).value;
      var foundDepth := |fp| - 1;
      || IsChildOf(v.path, fp)
      || (IsSiblingOf(v.path, fp)
          && (!foundPage.HasPages() || (r.opts.maxDepth.Some? && foundDepth + 1 > r.opts.maxDepth.value)))
  }

  /** The three gates a visited page must pass to be rendered. */
  predicate Included(r: Request, v: Visit)
    requires r.Valid()
  {
    && v.depth >= r.opts.minDepth
    && r.accept(v.path)
    && (r.opts.onlyActive && !v.page.active ==> InActiveBranch(r, v))
  }

  /** An accepted page and its depth relative to `minDepth`. */
  datatype Entry = Entry(visit: Visit, rel: nat)

  function EntryOf(r: Request, v: Visit): Entry
    requires v.depth >= r.opts.minDepth
  {
    Entry(v, v.depth - r.opts.minDepth)
  }

  /** The visits that pass the gates, in walk order. */
  function Entries(r: Request, vs: seq<Visit>): (es: seq<Entry>)
    requires r.Valid()
    ensures |es| <= |vs|
  {
    if vs == [] then []
    else
      var init := vs[..|vs| - 1];
      var v := vs[|vs| - 1];
      Entries(r, init) + (if Included(r, v) then [EntryOf(r, v)] else [])
  }

  /** A page is rendered exactly when its visit passes the gates: every
      entry comes from a visit that passes them, at that visit's relative
      depth, and every visit that passes them yields an entry. */
  lemma {:induction false} EntriesMembers(r: Request, vs: seq<Visit>)
    requires r.Valid()
    ensures forall e :: e in Entries(r, vs) ==>
              && e.visit in vs
              && Included(r, e.visit)
              && e == EntryOf(r, e.visit)
    ensures forall v :: v in vs && Included(r, v) ==> EntryOf(r, v) in Entries(r, vs)
    decreases |vs|
  {
    if vs != [] {
      var init := vs[..|vs| - 1];
      var v := vs[|vs| - 1];
      assert vs == init + [v];
      EntriesMembers(r, init);
    }
  }

  /** Filtering visit by visit commutes with cutting the walk in two. */
  lemma {:induction false} EntriesAppend(r: Request, a: seq<Visit>, b: seq<Visit>)
    requires r.Valid()
    ensures Entries(r, a + b) == Entries(r, a) + Entries(r, b)
    decreases |b|
  {
    if b == [] {
      assert a + b == a;
    } else {
      var init := b[..|b| - 1];
      assert (a + b)[..|a + b| - 1] == a + init;
      assert (a + b)[|a + b| - 1] == b[|b| - 1];
      EntriesAppend(r, a, init);
    }
  }

  /** The pages the menu shows, in walk order. */
  function Accepted(r: Request): seq<Entry>
    requires r.Valid()
  {
    Entries(r, Walk(r.forest, r.opts.maxDepth))
  }

  /** The class of the `<ul>` opened when the walk descends to `rel`. */
  function UlClass(rel: nat): (c: string)
    ensures c == "nav" <==> rel == 0
    ensures rel > 0 ==> c == "dropdown-menu"
    ensures c != ""
  {
    if rel == 0 then "nav" else "dropdown-menu"
  }

  /** The class the renderer writes onto the page before formatting it: a
      page with children becomes `dropdown`; a childless page at relative
      depth 0 loses its class; a childless deeper page keeps the caller's. */
  function StoredClass(page: Page, rel: nat): string {
    if page.HasPages() then "dropdown"
    else if rel == 0 then ""
    else page.cssClass
  }

  /** The class attribute of the page's `<li>`, or `None` when it has none. */
  function LiClass(page: Page, rel: nat): Option<string> {
    var stored := StoredClass(page, rel);
    var base :=
      if page.HasPages() then (if rel == 0 then "dropdown" else "dropdown-submenu")
      else if Truthy(stored) then stored
      else "";
    var full := base + (if page.active then " active" else "");
    if IsEmpty(full) then None else Some(Trim(full))
  }

  /** The `<li>` classes: a page with children is `dropdown` at relative
      depth 0 and `dropdown-submenu` deeper, then ` active` when it is
      active; a childless page at relative depth 0 is `active` or has no
      class; a childless deeper page keeps the caller's class when it is
      truthy, ` active` appended when the page is active, and is otherwise
      `active` or has no class. Whatever is written starts and ends with a
      non-blank. */
  lemma LiClassRules(page: Page, rel: nat)
    ensures page.HasPages() ==>
              LiClass(page, rel) == Some((if rel == 0 then "dropdown" else "dropdown-submenu") + (if page.active then " active" else ""))
    ensures !page.HasPages() && rel == 0 ==> LiClass(page, rel) == (if page.active then Some("active") else None)
    ensures !page.HasPages() && rel > 0 ==>
              LiClass(page, rel)
              == (if Truthy(page.cssClass) then Some(Trim(page.cssClass + (if page.active then " active" else "")))
                  else if page.active then Some("active") else None)
    ensures var c := LiClass(page, rel);
            c.Some? ==> c.value == [] || (!IsTrimChar(c.value[0]) && !IsTrimChar(c.value[|c.value| - 1]))
  {
    LiClassTrimmed(page, rel);
    if page.HasPages() {
      ParentLiClass(page, rel);
    } else if rel == 0 {
      ChildlessTopLiClass(page);
    } else {
      ChildlessDeepLiClass(page, rel);
    }
  }

  lemma LiClassTrimmed(page: Page, rel: nat)
    ensures var c := LiClass(page, rel);
            c.Some? ==> c.value == [] || (!IsTrimChar(c.value[0]) && !IsTrimChar(c.value[|c.value| - 1]))
  {
  }

  lemma ChildlessDeepLiClass(page: Page, rel: nat)
    requires !page.HasPages() && rel > 0
    ensures LiClass(page, rel)
            == (if Truthy(page.cssClass) then Some(Trim(page.cssClass + (if page.active then " active" else "")))
                else if page.active then Some("active") else None)
  {
    assert StoredClass(page, rel) == page.cssClass;
    if Truthy(page.cssClass) {
      var full := page.cssClass + (if page.active then " active" else "");
      assert |full| >= |page.cssClass|;
      assert page.active ==> |full| >= 7;
      assert !page.active ==> full == page.cssClass;
      assert !IsEmpty(full);
    } else if page.active {
      assert "" + " active" == " active";
      TrimActive();
    }
  }

  lemma ChildlessTopLiClass(page: Page)
    requires !page.HasPages()
    ensures LiClass(page, 0) == (if page.active then Some("active") else None)
  {
    assert StoredClass(page, 0) == "";
    var full := "" + (if page.active then " active" else "");
    if page.active {
      assert full == " active";
      TrimActive();
    } else {
      assert full == "";
    }
  }

  lemma ParentLiClass(page: Page, rel: nat)
    requires page.HasPages()
    ensures LiClass(page, rel) == Some((if rel == 0 then "dropdown" else "dropdown-submenu") + (if page.active then " active" else ""))
  {
    var base := if rel == 0 then "dropdown" else "dropdown-submenu";
    var full := base + (if page.active then " active" else "");
    assert full[0] == 'd' && full[|full| - 1] != ' ';
    TrimKeeps(full);
  }

  lemma TrimKeeps(s: string)
    requires s != [] && !IsTrimChar(s[0]) && !IsTrimChar(s[|s| - 1])
    requires s[0] != '0'
    ensures Trim(s) == s && !IsEmpty(s)
  {
  }

  lemma TrimActive()
    ensures Trim(" active") == "active"
  {
    var w := "active";
    assert w[0] == 'a' && w[|w| - 1] == 'e';
    assert " active" == [' '] + w;
    TrimLeadingSpace(w);
  }

  /** One leading space in front of a trimmed word is all `trim` removes. */
  lemma TrimLeadingSpace(w: string)
    requires w != [] && !IsTrimChar(w[0]) && !IsTrimChar(w[|w| - 1])
    ensures Trim([' '] + w) == w
  {
    assert ([' '] + w)[1..] == w;
    assert TrimLeft(w) == w;
    assert TrimLeft([' '] + w) == w;
  }

  /** The element `htmlify` produces for an accepted page, given the scratch
      class and the absolute walk depth stored on it. */
  function ElementOf(e: Entry, h: MenuHelper): Element {
    Htmlify(e.visit.page, StoredClass(e.visit.page, e.rel), e.visit.depth, h)
  }

  /** `</li>` then `</ul>` for each level from `from` down to `downTo + 1`,
      innermost first. */
  function CloseLevels(from: int, downTo: int): seq<Line>
    requires downTo >= -1
    decreases from - downTo
  {
    if from <= downTo then []
    else [Line(2 * from + 1, CloseLi), Line(2 * from, CloseUl)] + CloseLevels(from - 1, downTo)
  }

  /** Closing from `from` down to `downTo + 1` writes one `</li>` and one
      `</ul>` per level and nothing else. */
  lemma {:induction false} CloseLevelsCounts(from: int, downTo: int)
    requires downTo >= -1
    ensures var ls := CloseLevels(from, downTo);
            && CountCloseLi(ls) == CountCloseUl(ls) == (if from > downTo then from - downTo else 0)
            && CountOpenUl(ls) == 0 && CountOpenLi(ls) == 0 && CountItems(ls) == 0
    decreases from - downTo
  {
    if from > downTo {
      var a := Line(2 * from + 1, CloseLi);
      var b := Line(2 * from, CloseUl);
      CloseLevelsCounts(from - 1, downTo);
      CountsOne(a);
      CountsOne(b);
      CountsAppend([a], [b]);
      assert [a, b] == [a] + [b];
      CountsAppend([a, b], CloseLevels(from - 1, downTo));
    }
  }

  /** The `<li>` line and the element line of a page at relative depth
      `rel`, given its `<li>` class and its element. */
  function NodeLinesOf(rel: nat, li: Option<string>, el: Element): seq<Line> {
    [Line(2 * rel + 1, OpenLi(li)), Line(2 * rel + 2, Item(el))]
  }

  /** The `<li>` line and the element line of an accepted page. */
  function NodeLines(e: Entry, h: MenuHelper): seq<Line> {
    NodeLinesOf(e.rel, LiClass(e.visit.page, e.rel), ElementOf(e, h))
  }

  lemma NodeLinesCounts(e: Entry, h: MenuHelper)
    ensures var ls := NodeLines(e, h);
            && CountOpenLi(ls) == 1 && CountItems(ls) == 1
            && CountOpenUl(ls) == 0 && CountCloseUl(ls) == 0 && CountCloseLi(ls) == 0
  {
    var ls := NodeLines(e, h);
    assert ls == [ls[0]] + [ls[1]];
    CountsOne(ls[0]);
    CountsOne(ls[1]);
    CountsAppend([ls[0]], [ls[1]]);
  }

  /** The lines that move from the previous accepted page, at relative
      depth `prev` (-1 before the first), to one at relative depth `d`. */
  function Transition(prev: int, d: nat): seq<Line>
    requires prev >= -1
  {
    if d > prev then
      [Line(2 * d, OpenUl(UlClass(d)))]
    else if d < prev then
      CloseLevels(prev, d) + [Line(d + 1, CloseLi)]
    else
      [Line(2 * d + 1, CloseLi)]
  }

  /** Going deeper opens exactly one `<ul>`, however many levels deeper;
      going up from `prev` to `d` closes `prev - d` pairs of `</li></ul>`
      and one more `</li>`; staying level closes exactly one `</li>`. No
      `<li>` and no element is written. */
  lemma TransitionCounts(prev: int, d: nat)
    requires prev >= -1
    ensures var ls := Transition(prev, d);
            && CountOpenUl(ls) == (if d > prev then 1 else 0)
            && CountCloseUl(ls) == (if d < prev then prev - d else 0)
            && CountCloseLi(ls) == (if d > prev then 0 else prev - d + 1)
            && CountOpenLi(ls) == 0 && CountItems(ls) == 0
  {
    if d > prev {
      CountsOne(Line(2 * d, OpenUl(UlClass(d))));
    } else if d < prev {
      CloseLevelsCounts(prev, d);
      CountsOne(Line(d + 1, CloseLi));
      CountsAppend(CloseLevels(prev, d), [Line(d + 1, CloseLi)]);
    } else {
      CountsOne(Line(2 * d + 1, CloseLi));
    }
  }

  /** All lines the loop body emits for accepted page `e`: the transition
      from the previous page, then the page's `<li>` and its element. */
  function Step(prev: int, e: Entry, h: MenuHelper): seq<Line>
    requires prev >= -1
  {
    Transition(prev, e.rel) + NodeLines(e, h)
  }

  /** Whatever the transition, the loop body then opens exactly one `<li>`
      and writes the page's element inside it, as its last two lines. */
  lemma StepCounts(prev: int, e: Entry, h: MenuHelper)
    requires prev >= -1
    ensures var ls := Step(prev, e, h);
            && CountOpenLi(ls) == 1 && CountItems(ls) == 1
            && |ls| >= 2 && ls[|ls| - 2].token == OpenLi(LiClass(e.visit.page, e.rel))
            && ls[|ls| - 1].token == Item(ElementOf(e, h))
  {
    TransitionCounts(prev, e.rel);
    NodeLinesCounts(e, h);
    CountsAppend(Transition(prev, e.rel), NodeLines(e, h));
  }

  /** `$prevDepth` after the loop has seen `es`. */
  function LastRel(es: seq<Entry>): (d: int)
    ensures d >= -1
    ensures es == [] <==> d == -1
  {
    if es == [] then -1 else es[|es| - 1].rel
  }

  /** The loop body's output over all accepted pages, page by page. */
  function Steps(es: seq<Entry>, h: MenuHelper): seq<Line> {
    if es == [] then []
    else Steps(es[..|es| - 1], h) + Step(LastRel(es[..|es| - 1]), es[|es| - 1], h)
  }

  /** The loop writes one `<li>` and one element per accepted page. */
  lemma {:induction false} StepsCounts(es: seq<Entry>, h: MenuHelper)
    ensures CountOpenLi(Steps(es, h)) == |es| && CountItems(Steps(es, h)) == |es|
    decreases |es|
  {
    if es != [] {
      var init := es[..|es| - 1];
      StepsCounts(init, h);
      StepCounts(LastRel(init), es[|es| - 1], h);
      CountsAppend(Steps(init, h), Step(LastRel(init), es[|es| - 1], h));
    }
  }

  /** `_renderMenu` at the level of lines: the loop's output, then, if
      anything was emitted, the closing of every level still open. */
  function Render(r: Request): seq<Line>
    requires r.Valid()
  {
    var es := Accepted(r);
    var body := Steps(es, r.helper);
    if body != [] then body + CloseLevels(LastRel(es), -1) else body
  }

  /** The menu is empty exactly when no page is accepted; otherwise it has
      one `<li>` and one element per accepted page. */
  lemma RenderCounts(r: Request)
    requires r.Valid()
    ensures Render(r) == [] <==> Accepted(r) == []
    ensures CountOpenLi(Render(r)) == |Accepted(r)| && CountItems(Render(r)) == |Accepted(r)|
  {
    var es := Accepted(r);
    var body := Steps(es, r.helper);
    StepsCounts(es, r.helper);
    if body != [] {
      CloseLevelsCounts(LastRel(es), -1);
      CountsAppend(body, CloseLevels(LastRel(es), -1));
    }
  }

  lemma EntriesSnoc(r: Request, vs: seq<Visit>, i: nat)
    requires r.Valid() && i < |vs|
    ensures Entries(r, vs[..i + 1]) == Entries(r, vs[..i]) + (if Included(r, vs[i]) then [EntryOf(r, vs[i])] else [])
  {
    assert vs[..i + 1][..i] == vs[..i];
  }

  lemma StepsSnoc(es: seq<Entry>, e: Entry, h: MenuHelper)
    ensures Steps(es + [e], h) == Steps(es, h) + Step(LastRel(es), e, h)
    ensures LastRel(es + [e]) == e.rel
  {
    assert (es + [e])[..|es|] == es;
  }

  /** One iteration of the source's loop, in terms of the walk prefix. */
  lemma LoopStep(r: Request, walk: seq<Visit>, i: nat)
    requires r.Valid() && i < |walk|
    ensures var before := Entries(r, walk[..i]);
            var after := Entries(r, walk[..i + 1]);
            && (Included(r, walk[i]) ==>
                  && Steps(after, r.helper) == Steps(before, r.helper) + Step(LastRel(before), EntryOf(r, walk[i]), r.helper)
                  && LastRel(after) == EntryOf(r, walk[i]).rel)
            && (!Included(r, walk[i]) ==> after == before)
  {
    EntriesSnoc(r, walk, i);
    if Included(r, walk[i]) {
      StepsSnoc(Entries(r, walk[..i]), EntryOf(r, walk[i]), r.helper);
    }
  }

  /** The loop as the source writes it: one pass over the walk, skipping
      the pages that fail a gate, carrying the previous relative depth. */
  method RenderMenu(r: Request) returns (html: seq<Line>)
    requires r.Valid()
    ensures html == Render(r)
  {
    var walk := Walk(r.forest, r.opts.maxDepth);
    html := [];
    var prevDepth: int := -1;
    var i := 0;
    while i < |walk|
      invariant 0 <= i <= |walk|
      invariant html == Steps(Entries(r, walk[..i]), r.helper)
      invariant prevDepth == LastRel(Entries(r, walk[..i]))
    {
      var v := walk[i];
      LoopStep(r, walk, i);
      if Included(r, v) {
        var e := EntryOf(r, v);
        html := html + Step(prevDepth, e, r.helper);
        prevDepth := e.rel;
      }
      i := i + 1;
    }
    assert walk[..|walk|] == walk;
    if html != [] {
      html := html + CloseLevels(prevDepth, -1);
    }
  }

  /** `getFirstActiveChild`: the first of the container's immediate pages
      that is active, or `None` (the source's `false`). */
  method FirstActiveChild(pages: seq<Page>) returns (result: Option<Page>)
    ensures result.None? <==> forall k :: 0 <= k < |pages| ==> !pages[k].active
    ensures result.Some? ==>
              exists k :: 0 <= k < |pages| && pages[k] == result.value
                          && pages[k].active
                          && forall j :: 0 <= j < k ==> !pages[j].active
  {
    result := None;
    var i := 0;
    while i < |pages|
      invariant 0 <= i <= |pages|
      invariant forall j :: 0 <= j < i ==> !pages[j].active
    {
      if pages[i].active {
        result := Some(pages[i]);
        return;
      }
      i := i + 1;
    }
  }
}
