/** Tag balance of the rendered menu. The renderer opens only one `<ul>`
    when the walk goes down, however many levels it goes down, so the
    output is well nested exactly when accepted pages never jump more than
    one level below the previous one and the first one is at relative
    depth 0. This module proves that under that condition the output is
    balanced, shows an input where it is not, and shows that a gate that
    rejects every page below a rejected one always meets the condition. */
module Balance {
  import opened Wrappers
  import opened Navigation
  import opened Markup
  import opened Tokens
  import opened Renderer

  /** Each accepted page is at most one level below the page before it,
      and the first is at most one level below `prev`. */
  ghost predicate StepwiseFrom(prev: int, es: seq<Entry>) {
    && (es != [] ==> es[0].rel <= prev + 1)
    && forall k :: 1 <= k < |es| ==> es[k].rel <= es[k - 1].rel + 1
  }

  /** The condition for balance: the first accepted page is at relative
      depth 0 and no page is more than one level below its predecessor. */
  ghost predicate Stepwise(es: seq<Entry>) {
    StepwiseFrom(-1, es)
  }

  /** `Open(d)` holds `d + 1` open lists and `d + 1` open list items. */
  lemma {:induction false} OpenCounts(d: int)
    requires d >= -1
    ensures multiset(Open(d))[Ul] == d + 1 && multiset(Open(d))[Li] == d + 1
    decreases d + 1
  {
    if d >= 0 {
      OpenCounts(d - 1);
      assert Open(d) == Open(d - 1) + [Ul, Li];
    }
  }

  /** Closing the levels from `from` down to `downTo + 1` pops exactly
      those levels off the open tags. */
  lemma {:induction false} CloseLevelsRun(from: int, downTo: int)
    requires -1 <= downTo <= from
    ensures Run(Open(from), CloseLevels(from, downTo)) == Some(Open(downTo))
    decreases from - downTo
  {
    if from > downTo {
      var pair := [Line(2 * from + 1, CloseLi), Line(2 * from, CloseUl)];
      var rest := CloseLevels(from - 1, downTo);
      assert CloseLevels(from, downTo) == pair + rest;
      RunAppend(Open(from), pair, rest);
      assert Open(from) == Open(from - 1) + [Ul, Li];
      ClosePairRun(Open(from - 1), from);
      CloseLevelsRun(from - 1, downTo);
    }
  }

  /** One `</li></ul>` pair closes one level. */
  lemma ClosePairRun(stack: seq<Tag>, level: nat)
    ensures Run(stack + [Ul, Li], [Line(2 * level + 1, CloseLi), Line(2 * level, CloseUl)]) == Some(stack)
  {
    var a := Line(2 * level + 1, CloseLi);
    var b := Line(2 * level, CloseUl);
    assert [a, b] == [a] + [b];
    RunAppend(stack + [Ul, Li], [a], [b]);
    RunOne(stack + [Ul, Li], a);
    assert (stack + [Ul, Li])[..|stack| + 1] == stack + [Ul];
    RunOne(stack + [Ul], b);
    assert (stack + [Ul])[..|stack|] == stack;
  }

  /** The page's own two lines leave the open tags as they found them, once
      its `<li>` is open. */
  lemma NodeLinesRun(stack: seq<Tag>, rel: nat, li: Option<string>, el: Element)
    ensures Run(stack, NodeLinesOf(rel, li, el)) == Some(stack + [Li])
  {
    var ls := NodeLinesOf(rel, li, el);
    assert ls == [ls[0]] + [ls[1]];
    RunAppend(stack, [ls[0]], [ls[1]]);
    RunOne(stack, ls[0]);
    RunOne(stack + [Li], ls[1]);
  }

  /** From the open tags of the previous accepted page, a transition to a
      page at most one level deeper leaves the tags of that page's level
      open, except its own `<li>`. */
  lemma TransitionRun(prev: int, d: nat)
    requires -1 <= prev && d <= prev + 1
    ensures Run(Open(prev), Transition(prev, d)) == Some(Open(d - 1) + [Ul])
  {
    if d > prev {
      RunOne(Open(prev), Line(2 * d, OpenUl(UlClass(d))));
    } else if d < prev {
      var c := CloseLevels(prev, d);
      var t := Line(d + 1, CloseLi);
      RunAppend(Open(prev), c, [t]);
      CloseLevelsRun(prev, d);
      RunOne(Open(d), t);
      assert Open(d) == Open(d - 1) + [Ul] + [Li];
      assert (Open(d - 1) + [Ul] + [Li])[..|Open(d)| - 1] == Open(d - 1) + [Ul];
    } else {
      RunOne(Open(d), Line(2 * d + 1, CloseLi));
      assert Open(d) == Open(d - 1) + [Ul] + [Li];
      assert (Open(d - 1) + [Ul] + [Li])[..|Open(d)| - 1] == Open(d - 1) + [Ul];
    }
  }

  /** From the open tags of the previous accepted page, the lines of a page
      at most one level deeper leave exactly the tags of its own level open. */
  lemma StepRun(prev: int, e: Entry, h: MenuHelper)
    requires -1 <= prev && e.rel <= prev + 1
    ensures Run(Open(prev), Step(prev, e, h)) == Some(Open(e.rel))
  {
    StepLinesRun(prev, e.rel, LiClass(e.visit.page, e.rel), ElementOf(e, h));
  }

  lemma StepLinesRun(prev: int, d: nat, li: Option<string>, el: Element)
    requires -1 <= prev && d <= prev + 1
    ensures Run(Open(prev), Transition(prev, d) + NodeLinesOf(d, li, el)) == Some(Open(d))
  {
    var mid := Open(d - 1) + [Ul];
    TransitionRun(prev, d);
    NodeLinesRun(mid, d, li, el);
    OpenSnoc(d);
    RunThen(Open(prev), Transition(prev, d), NodeLinesOf(d, li, el), mid, Open(d));
  }

  /** Runs compose: running `a` then `b` is running `a + b`. */
  lemma RunThen(stack: seq<Tag>, a: seq<Line>, b: seq<Line>, mid: seq<Tag>, end: seq<Tag>)
    requires Run(stack, a) == Some(mid) && Run(mid, b) == Some(end)
    ensures Run(stack, a + b) == Some(end)
  {
    RunAppend(stack, a, b);
  }

  /** The first accepted page, whatever its relative depth, opens exactly
      one `<ul>` and one `<li>`. */
  lemma FirstLinesRun(d: nat, li: Option<string>, el: Element)
    ensures Run([], Transition(-1, d) + NodeLinesOf(d, li, el)) == Some(Open(0))
  {
    var t := Transition(-1, d);
    assert t == [Line(2 * d, OpenUl(UlClass(d)))];
    RunAppend([], t, NodeLinesOf(d, li, el));
    var empty: seq<Tag> := [];
    RunOne(empty, t[0]);
    assert StepTag(empty, t[0].token) == Some(empty + [Ul]);
    assert empty + [Ul] == [Ul];
    NodeLinesRun([Ul], d, li, el);
    assert Open(0) == [Ul] + [Li];
  }

  /** After the loop body has handled each page of a stepwise sequence, the
      open tags are exactly `d + 1` lists with an item each, `d` being the
      relative depth of the last page handled. */
  lemma {:induction false} StepsRun(es: seq<Entry>, h: MenuHelper)
    requires Stepwise(es)
    ensures Run([], Steps(es, h)) == Some(Open(LastRel(es)))
    decreases |es|
  {
    if es != [] {
      var init := es[..|es| - 1];
      var e := es[|es| - 1];
      assert Stepwise(init) by {
        forall k | 0 <= k < |init|
          ensures init[k].rel <= (if k == 0 then -1 else init[k - 1].rel) + 1
        {
          assert init[k] == es[k];
        }
      }
      StepsRun(init, h);
      RunAppend([], Steps(init, h), Step(LastRel(init), e, h));
      assert e.rel <= LastRel(init) + 1 by {
        assert |es| - 1 == 0 || es[|es| - 2] == init[|init| - 1];
      }
      StepRun(LastRel(init), e, h);
    }
  }

  /** Tag balance: when the accepted pages go down one level at a time from
      relative depth 0, every `<ul>` and `<li>` the menu opens is closed, in
      reverse order, every page element sits inside an `<li>`, and as many
      `<ul>` are opened as closed. */
  lemma RenderBalanced(r: Request)
    requires r.Valid() && Stepwise(Accepted(r))
    ensures Balanced(Render(r))
    ensures CountOpenUl(Render(r)) == CountCloseUl(Render(r))
    ensures CountOpenLi(Render(r)) == CountCloseLi(Render(r))
  {
    var es := Accepted(r);
    var body := Steps(es, r.helper);
    StepsRun(es, r.helper);
    StepsCounts(es, r.helper);
    if es != [] {
      assert body != [] by {
        assert CountOpenLi(body) == |es|;
      }
      RunAppend([], body, CloseLevels(LastRel(es), -1));
      CloseLevelsRun(LastRel(es), -1);
    }
    BalancedCounts([], Render(r));
  }

  /** A successful run changes the number of open `<ul>` (resp. `<li>`) by
      the number opened minus the number closed. */
  lemma {:induction false} BalancedCounts(stack: seq<Tag>, ls: seq<Line>)
    requires Run(stack, ls).Some?
    ensures multiset(Run(stack, ls).value)[Ul] + CountCloseUl(ls) == multiset(stack)[Ul] + CountOpenUl(ls)
    ensures multiset(Run(stack, ls).value)[Li] + CountCloseLi(ls) == multiset(stack)[Li] + CountOpenLi(ls)
    decreases |ls|
  {
    if ls != [] {
      match ls[0].token
      case OpenUl(_) => BalancedCounts(stack + [Ul], ls[1..]);
      case OpenLi(_) => BalancedCounts(stack + [Li], ls[1..]);
      case CloseUl =>
        assert stack == stack[..|stack| - 1] + [Ul];
        BalancedCounts(stack[..|stack| - 1], ls[1..]);
      case CloseLi =>
        assert stack == stack[..|stack| - 1] + [Li];
        BalancedCounts(stack[..|stack| - 1], ls[1..]);
      case Item(_) => BalancedCounts(stack, ls[1..]);
    }
  }

  /** Without the condition the output is not balanced: a single accepted
      page at relative depth 1 or more opens one `<ul>` but the final loop
      closes a `</li></ul>` pair for every level down to 0. */
  lemma LoneDeepPageUnbalanced(r: Request)
    requires r.Valid() && |Accepted(r)| == 1 && Accepted(r)[0].rel >= 1
    ensures !Balanced(Render(r))
    ensures CountOpenUl(Render(r)) == 1 && CountCloseUl(Render(r)) == Accepted(r)[0].rel + 1
  {
    var es := Accepted(r);
    var e := es[0];
    assert es[..0] == [];
    assert Steps(es, r.helper) == Step(-1, e, r.helper);
    LoneDeepLines(e.rel, LiClass(e.visit.page, e.rel), ElementOf(e, r.helper));
  }

  /** The lines of a lone page at relative depth `d >= 1`, followed by the
      final close. */
  lemma LoneDeepLines(d: nat, li: Option<string>, el: Element)
    requires d >= 1
    ensures var ls := Transition(-1, d) + NodeLinesOf(d, li, el) + CloseLevels(d, -1);
            !Balanced(ls) && CountOpenUl(ls) == 1 && CountCloseUl(ls) == d + 1
  {
    var step := Transition(-1, d) + NodeLinesOf(d, li, el);
    var close := CloseLevels(d, -1);
    // Counting: the step opens one `<ul>`, the final loop closes `d + 1`.
    TransitionCounts(-1, d);
    var node := NodeLinesOf(d, li, el);
    assert node == [node[0]] + [node[1]];
    CountsOne(node[0]);
    CountsOne(node[1]);
    CountsAppend([node[0]], [node[1]]);
    CountsAppend(Transition(-1, d), node);
    CloseLevelsCounts(d, -1);
    CountsAppend(step, close);
    // Nesting: after the step the tags of relative depth 0 are open.
    FirstLinesRun(d, li, el);
    RunAppend([], step, close);
    CloseBelowZero(d);
  }

  /** From the tags of relative depth 0, closing from `d >= 1` fails: the
      first pair closes both tags and the second finds no open `<li>`. */
  lemma CloseBelowZero(d: nat)
    requires d >= 1
    ensures Run(Open(0), CloseLevels(d, -1)) == None
  {
    var dd: int := d;
    var a := Line(2 * (dd - 1) + 1, CloseLi);
    var b := Line(2 * (dd - 1), CloseUl);
    var pair := [Line(2 * dd + 1, CloseLi), Line(2 * dd, CloseUl)];
    var rest := CloseLevels(dd - 2, -1);
    assert CloseLevels(dd - 1, -1) == [a, b] + rest;
    assert CloseLevels(dd, -1) == pair + ([a] + ([b] + rest));
    RunAppend(Open(0), pair, [a] + ([b] + rest));
    ClosePairRun([], d);
    assert Open(0) == [] + [Ul, Li];
    RunAppend([], [a], [b] + rest);
    RunOne([], a);
  }

  /** A concrete instance: the gate rejects a top-level parent but accepts
      its child, and nothing else is in the container. */
  lemma RejectedParentUnbalanced()
    ensures var child := Page("b", "B", "", "/b", "", "", "", false, []);
            var parent := Page("a", "A", "", "/a", "", "", "", false, [child]);
            var r := Request([parent], RenderOptions("", "", 0, None, false), (p: Path) => p != [0], None, DefaultHelper);
            !Balanced(Render(r))
  {
    var child := Page("b", "B", "", "/b", "", "", "", false, []);
    var parent := Page("a", "A", "", "/a", "", "", "", false, [child]);
    var r := Request([parent], RenderOptions("", "", 0, None, false), (p: Path) => p != [0], None, DefaultHelper);
    var vp := Visit(parent, 0, [0]);
    var vc := Visit(child, 1, [0, 0]);
    assert WalkFrom([child], 1, 1, [0], None) == [];
    assert WalkFrom([], 0, 2, [0, 0], None) == [];
    assert [0] + [0] == [0, 0] && [] + [0] == [0];
    assert WalkFrom([child], 0, 1, [0], None) == [vc] + [] + [];
    assert WalkFrom([parent], 1, 0, [], None) == [];
    assert Walk([parent], None) == [vp] + [vc] + [];
    assert [vp] + [vc] + [] == [vp, vc];
    assert !Included(r, vp) && Included(r, vc);
    assert [vp, vc][..1] == [vp];
    assert [vp][..0] == [];
    assert Entries(r, [vp]) == [];
    assert EntryOf(r, vc) == Entry(vc, 1);
    assert Accepted(r) == Entries(r, [vp, vc]) == [Entry(vc, 1)];
    LoneDeepPageUnbalanced(r);
  }

  /** The gate rejects every child of a rejected page at depth `minDepth` or
      deeper: a page it accepts has an accepted parent, unless the parent
      lies above `minDepth`. */
  ghost predicate Hereditary(accept: Path -> bool, minDepth: nat) {
    forall p: Path, j: nat {:trigger accept(p + [j])} :: |p| > minDepth && accept(p + [j]) ==> accept(p)
  }

  lemma HereditaryAt(accept: Path -> bool, minDepth: nat, p: Path, j: nat)
    requires Hereditary(accept, minDepth) && |p| > minDepth && !accept(p)
    ensures !accept(p + [j])
  {
  }

  lemma StepwiseFromWeaken(p: int, q: int, es: seq<Entry>)
    requires StepwiseFrom(p, es) && p <= q
    ensures StepwiseFrom(q, es)
  {
  }

  lemma StepwiseConcat(p: int, a: seq<Entry>, b: seq<Entry>)
    requires StepwiseFrom(p, a)
    requires StepwiseFrom(if a == [] then p else a[|a| - 1].rel, b)
    ensures StepwiseFrom(p, a + b)
  {
    forall k | 0 <= k < |a + b|
      ensures (a + b)[k].rel <= (if k == 0 then p else (a + b)[k - 1].rel) + 1
    {
      if k >= |a| {
        assert (a + b)[k] == b[k - |a|];
        if k > |a| {
          assert (a + b)[k - 1] == b[k - 1 - |a|];
        }
      }
    }
  }

  /** The entries the walk of page `i` and its subtree contributes. */
  function NodeEntries(r: Request, pages: seq<Page>, i: nat, depth: nat, parent: Path): seq<Entry>
    requires r.Valid() && i < |pages|
  {
    var v := Visit(pages[i], depth, parent + [i]);
    var below := if Descends(depth, r.opts.maxDepth) then WalkFrom(pages[i].children, 0, depth + 1, parent + [i], r.opts.maxDepth) else [];
    (if Included(r, v) then [EntryOf(r, v)] else []) + Entries(r, below)
  }

  /** Entries of the walk of one page with its subtree, then of its
      following siblings. */
  lemma SplitEntries(r: Request, pages: seq<Page>, i: nat, depth: nat, parent: Path)
    requires r.Valid() && i < |pages| && |parent| == depth
    requires r.opts.maxDepth.Some? ==> depth <= r.opts.maxDepth.value
    ensures Entries(r, WalkFrom(pages, i, depth, parent, r.opts.maxDepth))
            == NodeEntries(r, pages, i, depth, parent) + Entries(r, WalkFrom(pages, i + 1, depth, parent, r.opts.maxDepth))
  {
    var v := Visit(pages[i], depth, parent + [i]);
    var below := if Descends(depth, r.opts.maxDepth) then WalkFrom(pages[i].children, 0, depth + 1, parent + [i], r.opts.maxDepth) else [];
    var after := WalkFrom(pages, i + 1, depth, parent, r.opts.maxDepth);
    assert WalkFrom(pages, i, depth, parent, r.opts.maxDepth) == [v] + below + after;
    EntriesAppend(r, [v] + below, after);
    EntriesAppend(r, [v], below);
    assert [v][..0] == [];
    assert Entries(r, [v]) == (if Included(r, v) then [EntryOf(r, v)] else []);
    assert Entries(r, [v] + below) == NodeEntries(r, pages, i, depth, parent);
  }

  /** A rejected position at or past `minDepth` keeps every position
      below it rejected. */
  lemma {:induction false} HereditaryBelow(accept: Path -> bool, minDepth: nat, p: Path, q: Path)
    requires Hereditary(accept, minDepth) && |p| > minDepth && !accept(p)
    requires |p| <= |q| && q[..|p|] == p
    ensures !accept(q)
    decreases |q|
  {
    if |q| == |p| {
      assert q == q[..|p|];
    } else {
      var init := q[..|q| - 1];
      assert init[..|p|] == p;
      HereditaryBelow(accept, minDepth, p, init);
      assert q == init + [q[|q| - 1]];
      HereditaryAt(accept, minDepth, init, q[|q| - 1]);
    }
  }

  /** Below a rejected page that is at or past `minDepth`, nothing is
      accepted. */
  lemma RejectedSubtree(r: Request, pages: seq<Page>, i: nat, depth: nat, parent: Path)
    requires r.Valid() && Hereditary(r.accept, r.opts.minDepth)
    requires i <= |pages| && |parent| == depth
    requires r.opts.maxDepth.Some? ==> depth <= r.opts.maxDepth.value
    requires depth > r.opts.minDepth && !r.accept(parent)
    ensures Entries(r, WalkFrom(pages, i, depth, parent, r.opts.maxDepth)) == []
  {
    var walk := WalkFrom(pages, i, depth, parent, r.opts.maxDepth);
    WalkFromSound(pages, i, depth, parent, r.opts.maxDepth);
    forall v | v in walk
      ensures !Included(r, v)
    {
      HereditaryBelow(r.accept, r.opts.minDepth, parent, v.path);
    }
    NoneIncluded(r, walk);
  }

  /** Visits none of which passes the gates yield no entry. */
  lemma {:induction false} NoneIncluded(r: Request, vs: seq<Visit>)
    requires r.Valid() && forall v :: v in vs ==> !Included(r, v)
    ensures Entries(r, vs) == []
    decreases |vs|
  {
    if vs != [] {
      var init := vs[..|vs| - 1];
      assert forall v :: v in init ==> v in vs;
      NoneIncluded(r, init);
    }
  }

  lemma NothingAtEnd(r: Request, pages: seq<Page>, depth: nat, parent: Path)
    requires r.Valid()
    ensures Entries(r, WalkFrom(pages, |pages|, depth, parent, r.opts.maxDepth)) == []
  {
    assert WalkFrom(pages, |pages|, depth, parent, r.opts.maxDepth) == [];
    assert Entries(r, []) == [];
  }

  /** The relative depth from which the pages of `depth` and below start. */
  function Floor(depth: nat, minDepth: nat): nat {
    if depth >= minDepth then depth - minDepth else 0
  }

  /** Entries that never rise above relative depth `m` and go down one
      level at a time, starting at most at `m`. */
  ghost predicate FromFloor(m: nat, es: seq<Entry>) {
    && (forall k :: 0 <= k < |es| ==> es[k].rel >= m)
    && StepwiseFrom(m - 1, es)
  }

  lemma FromFloorConcat(m: nat, a: seq<Entry>, b: seq<Entry>)
    requires FromFloor(m, a) && FromFloor(m, b)
    ensures FromFloor(m, a + b)
  {
    StepwiseFromWeaken(m - 1, if a == [] then m - 1 else a[|a| - 1].rel, b);
    StepwiseConcat(m - 1, a, b);
  }

  /** An entry at relative depth `m` followed by entries that keep to the
      floor `m + 1` keeps to the floor `m`. */
  lemma HeadFromFloor(m: nat, e: Entry, sub: seq<Entry>)
    requires e.rel == m && FromFloor(m + 1, sub)
    ensures FromFloor(m, [e] + sub)
  {
    StepwiseConcat(m as int - 1, [e], sub);
  }

  /** The entries of the subtree of page `i`, which the walk skips when it
      does not descend. */
  function SubEntries(r: Request, pages: seq<Page>, i: nat, depth: nat, parent: Path): seq<Entry>
    requires r.Valid() && i < |pages|
  {
    if Descends(depth, r.opts.maxDepth) then Entries(r, WalkFrom(pages[i].children, 0, depth + 1, parent + [i], r.opts.maxDepth))
    else []
  }

  lemma NodeEntriesSplit(r: Request, pages: seq<Page>, i: nat, depth: nat, parent: Path)
    requires r.Valid() && i < |pages|
    ensures var v := Visit(pages[i], depth, parent + [i]);
            NodeEntries(r, pages, i, depth, parent)
            == (if Included(r, v) then [EntryOf(r, v)] else []) + SubEntries(r, pages, i, depth, parent)
  {
    if !Descends(depth, r.opts.maxDepth) {
      assert Entries(r, []) == [];
    }
  }

  /** One page with its subtree keeps to the floor of its depth, given that
      the subtree's own entries keep to the floor one level down. */
  lemma NodeFromFloor(r: Request, pages: seq<Page>, i: nat, depth: nat, parent: Path)
    requires r.Valid() && !r.opts.onlyActive && Hereditary(r.accept, r.opts.minDepth)
    requires i < |pages| && |parent| == depth
    requires r.opts.maxDepth.Some? ==> depth <= r.opts.maxDepth.value
    requires Descends(depth, r.opts.maxDepth) ==>
               FromFloor(Floor(depth + 1, r.opts.minDepth),
                         Entries(r, WalkFrom(pages[i].children, 0, depth + 1, parent + [i], r.opts.maxDepth)))
    ensures FromFloor(Floor(depth, r.opts.minDepth), NodeEntries(r, pages, i, depth, parent))
  {
    var m := Floor(depth, r.opts.minDepth);
    var v := Visit(pages[i], depth, parent + [i]);
    var sub := SubEntries(r, pages, i, depth, parent);
    NodeEntriesSplit(r, pages, i, depth, parent);
    if Included(r, v) {
      HeadFromFloor(m, EntryOf(r, v), sub);
    } else if depth >= r.opts.minDepth {
      if Descends(depth, r.opts.maxDepth) {
        RejectedSubtree(r, pages[i].children, 0, depth + 1, parent + [i]);
      }
      assert [] + sub == [];
    } else {
      assert [] + sub == sub;
    }
  }

  /** With a hereditary gate, the accepted part of the walk of `pages[i..]`
      stays at or below the floor of `depth` and goes down one level at a
      time from just above it. */
  lemma {:induction false} ForestStepwise(r: Request, pages: seq<Page>, i: nat, depth: nat, parent: Path)
    requires r.Valid() && !r.opts.onlyActive && Hereditary(r.accept, r.opts.minDepth)
    requires i <= |pages| && |parent| == depth
    requires r.opts.maxDepth.Some? ==> depth <= r.opts.maxDepth.value
    ensures FromFloor(Floor(depth, r.opts.minDepth), Entries(r, WalkFrom(pages, i, depth, parent, r.opts.maxDepth)))
    decreases pages, |pages| - i
  {
    if i < |pages| {
      ForestStepwise(r, pages, i + 1, depth, parent);
      if Descends(depth, r.opts.maxDepth) {
        ForestStepwise(r, pages[i].children, 0, depth + 1, parent + [i]);
      }
      NodeFromFloor(r, pages, i, depth, parent);
      FloorFromEither(r, pages, i, depth, parent);
    } else {
      NothingAtEnd(r, pages, depth, parent);
    }
  }

  /** The walk of `pages[i..]` keeps to the floor when page `i` with its
      subtree does and the pages after it do. */
  lemma FloorFromEither(r: Request, pages: seq<Page>, i: nat, depth: nat, parent: Path)
    requires r.Valid() && i < |pages| && |parent| == depth
    requires r.opts.maxDepth.Some? ==> depth <= r.opts.maxDepth.value
    requires FromFloor(Floor(depth, r.opts.minDepth), NodeEntries(r, pages, i, depth, parent))
    requires FromFloor(Floor(depth, r.opts.minDepth), Entries(r, WalkFrom(pages, i + 1, depth, parent, r.opts.maxDepth)))
    ensures FromFloor(Floor(depth, r.opts.minDepth), Entries(r, WalkFrom(pages, i, depth, parent, r.opts.maxDepth)))
  {
    SplitEntries(r, pages, i, depth, parent);
    FromFloorConcat(Floor(depth, r.opts.minDepth), NodeEntries(r, pages, i, depth, parent),
                    Entries(r, WalkFrom(pages, i + 1, depth, parent, r.opts.maxDepth)));
  }

  /** A gate that rejects everything below a rejected page, with
      `onlyActive` off, always meets the balance condition; so the menu it
      renders is balanced. */
  lemma HereditaryGateBalanced(r: Request)
    requires r.Valid() && !r.opts.onlyActive && Hereditary(r.accept, r.opts.minDepth)
    ensures Stepwise(Accepted(r))
    ensures Balanced(Render(r))
  {
    ForestStepwise(r, r.forest, 0, 0, []);
    RenderBalanced(r);
  }
}
