/** What the rendered menu shows, stated over positions of the container
    rather than over the walk: which pages appear, in which order, with
    which element, and what the first and the deepest open tags are. */
module Menu {
  import opened Wrappers
  import opened PhpStrings
  import opened Navigation
  import opened Markup
  import opened Tokens
  import opened Renderer
  import opened Balance

  /** The entry a position yields when its page is rendered. */
  function EntryAt(r: Request, q: Path): (e: Entry)
    requires IsPosition(r.forest, q) && |q| >= r.opts.minDepth + 1
    ensures e.visit.path == q && e.visit.depth == e.rel + r.opts.minDepth
  {
    Entry(Visit(At(r.forest, q).value, |q| - 1, q), |q| - 1 - r.opts.minDepth)
  }

  /** The source's filtering, stated for a position on its own: the page
      is within the depth bounds, the gate accepts it and, in an
      `onlyActive` menu, it is active, or a found page exists and the page
      is that page's child, or its sibling while the found page has no
      children or their depth `|found|` exceeds `maxDepth`. */
  predicate Shown(r: Request, q: Path)
    requires r.Valid()
  {
    && IsPosition(r.forest, q)
    && r.opts.minDepth + 1 <= |q|
    && (r.opts.maxDepth.Some? ==> |q| <= r.opts.maxDepth.value + 1)
    && r.accept(q)
    && (r.opts.onlyActive && !At(r.forest, q).value.active ==>
          && r.found.Some?
          && (|| IsChildOf(q, r.found.value)
              || (&& IsSiblingOf(q, r.found.value)
                  && (|| !At(r.forest, r.found.value).value.HasPages()
                      || (r.opts.maxDepth.Some? && |r.found.value| > r.opts.maxDepth.value)))))
  }

  /** Every rendered page is a shown position, at its own depth. */
  lemma AcceptedSound(r: Request)
    requires r.Valid()
    ensures forall e :: e in Accepted(r) ==>
              Shown(r, e.visit.path) && e == EntryAt(r, e.visit.path)
  {
    var walk := Walk(r.forest, r.opts.maxDepth);
    EntriesMembers(r, walk);
    WalkSound(r.forest, r.opts.maxDepth);
  }

  /** Every shown position is rendered. */
  lemma AcceptedComplete(r: Request, q: Path)
    requires r.Valid() && Shown(r, q)
    ensures EntryAt(r, q) in Accepted(r)
  {
    var walk := Walk(r.forest, r.opts.maxDepth);
    WalkComplete(r.forest, r.opts.maxDepth, q);
    EntriesMembers(r, walk);
    assert Included(r, EntryAt(r, q).visit);
  }

  /** In an `onlyActive` menu without a found page only active pages are
      rendered. */
  lemma OnlyActiveWithoutFound(r: Request)
    requires r.Valid() && r.opts.onlyActive && r.found.None?
    ensures forall e :: e in Accepted(r) ==> e.visit.page.active
  {
    AcceptedSound(r);
  }

  /** The active-branch rule never drops an active page: one that is within
      the depth bounds and accepted is rendered whatever `onlyActive` and
      the found page are. */
  lemma ActiveNeverDropped(r: Request, q: Path)
    requires r.Valid() && IsPosition(r.forest, q) && At(r.forest, q).value.active
    requires r.opts.minDepth + 1 <= |q| && (r.opts.maxDepth.Some? ==> |q| <= r.opts.maxDepth.value + 1)
    requires r.accept(q)
    ensures EntryAt(r, q) in Accepted(r)
  {
    AcceptedComplete(r, q);
  }

  /** The page elements of a sequence of entries, in order. */
  function Elements(es: seq<Entry>, h: MenuHelper): (els: seq<Element>)
    ensures |els| == |es|
  {
    seq(|es|, k requires 0 <= k < |es| => ElementOf(es[k], h))
  }

  lemma StepItems(prev: int, e: Entry, h: MenuHelper)
    requires prev >= -1
    ensures Items(Step(prev, e, h)) == [ElementOf(e, h)]
  {
    var ls := NodeLines(e, h);
    TransitionCounts(prev, e.rel);
    ItemsAppend(Transition(prev, e.rel), ls);
    assert ls == [ls[0]] + [ls[1]];
    ItemsAppend([ls[0]], [ls[1]]);
    assert [ls[0]][1..] == [] && [ls[1]][1..] == [];
  }

  lemma {:induction false} StepsItems(es: seq<Entry>, h: MenuHelper)
    ensures Items(Steps(es, h)) == Elements(es, h)
    decreases |es|
  {
    if es != [] {
      var init := es[..|es| - 1];
      var e := es[|es| - 1];
      StepsItems(init, h);
      assert Steps(es, h) == Steps(init, h) + Step(LastRel(init), e, h);
      ItemsAppend(Steps(init, h), Step(LastRel(init), e, h));
      StepItems(LastRel(init), e, h);
      ElementsSnoc(es, h);
    }
  }

  lemma ElementsSnoc(es: seq<Entry>, h: MenuHelper)
    requires es != []
    ensures Elements(es, h) == Elements(es[..|es| - 1], h) + [ElementOf(es[|es| - 1], h)]
  {
    var a := Elements(es, h);
    var b := Elements(es[..|es| - 1], h) + [ElementOf(es[|es| - 1], h)];
    assert forall k :: 0 <= k < |a| ==> a[k] == b[k];
  }

  /** The page elements of the menu are those of the accepted pages, one
      each, in walk order; the tags around them carry no elements. */
  lemma RenderItems(r: Request)
    requires r.Valid()
    ensures Items(Render(r)) == Elements(Accepted(r), r.helper)
  {
    var es := Accepted(r);
    StepsItems(es, r.helper);
    if Steps(es, r.helper) != [] {
      CloseLevelsCounts(LastRel(es), -1);
      ItemsAppend(Steps(es, r.helper), CloseLevels(LastRel(es), -1));
    }
  }

  /** A caret follows a rendered page's element exactly when parents are
      toggles, the page has children and it sits at absolute depth 0; the
      stored depth is absolute, so with `minDepth` above 0 no caret
      appears at all. */
  lemma CaretIffTopParent(r: Request, e: Entry)
    requires r.Valid() && e in Accepted(r)
    ensures ElementOf(e, r.helper).caret <==>
              GetParentsAreToggles(r.helper) && e.visit.page.HasPages() && e.visit.depth == 0
    ensures r.opts.minDepth > 0 ==> !ElementOf(e, r.helper).caret
  {
    AcceptedSound(r);
    DropdownUnstripped();
    HtmlifyDecisions(e.visit.page, StoredClass(e.visit.page, e.rel), e.visit.depth, r.helper);
  }

  /** A page with children is always formatted as a dropdown toggle; with
      toggles its link points at `#` with the data-toggle attribute, with
      links it keeps its own href. */
  lemma ParentElement(e: Entry, h: MenuHelper)
    requires e.visit.page.HasPages()
    ensures var el := ElementOf(e, h);
            var p := e.visit.page;
            && el.cls == "dropdown-toggle"
            && (Truthy(p.href) && GetParentsAreToggles(h) ==> el.link == Some(Anchor("#", p.target, p.accessKey, true)))
            && (Truthy(p.href) && GetParentsAreLinks(h) ==> el.link == Some(Anchor(p.href, p.target, p.accessKey, false)))
  {
    DropdownUnstripped();
    HtmlifyDecisions(e.visit.page, StoredClass(e.visit.page, e.rel), e.visit.depth, h);
  }

  /** A childless page at relative depth 0 loses the caller's class: its
      element has no class, no caret and a plain link. */
  lemma ChildlessTopElement(e: Entry, h: MenuHelper)
    requires !e.visit.page.HasPages() && e.rel == 0
    ensures var el := ElementOf(e, h);
            var p := e.visit.page;
            && el.cls == "" && !el.caret
            && (el.link.Some? ==> el.link.value == Anchor(p.href, p.target, p.accessKey, false))
  {
    DropdownUnstripped();
    HtmlifyDecisions(e.visit.page, StoredClass(e.visit.page, e.rel), e.visit.depth, h);
  }

  /** Changing `ulClass` changes nothing: the argument is never read. */
  lemma {:induction false} EntriesIgnoreUlClass(r: Request, c: string, vs: seq<Visit>)
    requires r.Valid()
    ensures Entries(r.(opts := r.opts.(ulClass := c)), vs) == Entries(r, vs)
    decreases |vs|
  {
    if vs != [] {
      EntriesIgnoreUlClass(r, c, vs[..|vs| - 1]);
    }
  }

  lemma UlClassIgnored(r: Request, c: string)
    requires r.Valid()
    ensures Render(r.(opts := r.opts.(ulClass := c))) == Render(r)
  {
    EntriesIgnoreUlClass(r, c, Walk(r.forest, r.opts.maxDepth));
  }

  /** The loop's output starts with the first page's transition. */
  lemma {:induction false} StepsStart(es: seq<Entry>, h: MenuHelper)
    requires es != []
    ensures Steps(es, h) != [] && Steps(es, h)[0] == Step(-1, es[0], h)[0]
    decreases |es|
  {
    var init := es[..|es| - 1];
    StepsCounts(es, h);
    if init != [] {
      StepsStart(init, h);
      assert init[0] == es[0];
    }
  }

  /** Under the balance condition the menu opens with `<ul class="nav">`
      at indentation 0. */
  lemma MenuOpensWithNav(r: Request)
    requires r.Valid() && Stepwise(Accepted(r)) && Accepted(r) != []
    ensures Render(r) != [] && Render(r)[0] == Line(0, OpenUl("nav"))
  {
    var es := Accepted(r);
    StepsStart(es, r.helper);
    assert es[0].rel == 0;
    assert Transition(-1, 0) == [Line(0, OpenUl("nav"))];
  }

  lemma StepwisePrefix(es: seq<Entry>, n: nat)
    requires Stepwise(es) && n <= |es|
    ensures Stepwise(es[..n])
  {
    forall k | 1 <= k < n
      ensures es[..n][k].rel <= es[..n][k - 1].rel + 1
    {
      assert es[..n][k] == es[k] && es[..n][k - 1] == es[k - 1];
    }
  }

  /** Under the balance condition, right after the loop has handled the
      `n`-th accepted page, at relative depth `d`, the open tags are `d + 1`
      alternating `<ul>`/`<li>` pairs. */
  lemma OpenAfterEachPage(r: Request, n: nat)
    requires r.Valid() && Stepwise(Accepted(r)) && 0 < n <= |Accepted(r)|
    ensures var d := Accepted(r)[n - 1].rel;
            && Run([], Steps(Accepted(r)[..n], r.helper)) == Some(Open(d))
            && multiset(Open(d))[Ul] == d + 1 && multiset(Open(d))[Li] == d + 1
            && forall k :: 0 <= k < |Open(d)| ==> Open(d)[k] == (if k % 2 == 0 then Ul else Li)
  {
    var es := Accepted(r);
    StepwisePrefix(es, n);
    StepsRun(es[..n], r.helper);
    OpenCounts(es[n - 1].rel);
    OpenAlternates(es[n - 1].rel);
  }
}
