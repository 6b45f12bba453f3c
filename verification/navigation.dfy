/** The navigation container as the menu renderer sees it: an ordered forest
    of pages, addressed by paths of child indices, and the depth-first
    pre-order walk (parent before children) that the renderer iterates,
    optionally cut off below a maximum depth. */
module Navigation {
  import opened Wrappers

  /** A position in the container: the child index taken at each level,
      starting with the index among the container's own pages. */
  type Path = seq<nat>

  /** A navigation page. `active` is the page's recursive active flag (the
      page itself or one of its descendants is the current page); it is
      computed by the navigation container and only read here. `cssClass` is
      the class the caller assigned before rendering. */
  datatype Page = Page(
    id: string,
    caption: string,
    title: string,
    href: string,
    target: string,
    accessKey: string,
    cssClass: string,
    active: bool,
    children: seq<Page>)
  {
    /** The page's child count is positive. */
    predicate HasPages() {
      |children| > 0
    }
  }

  /** The page at `path` in `pages`, if the path leads to one. */
  function At(pages: seq<Page>, path: Path): Option<Page>
    decreases path
  {
    if path == [] || path[0] >= |pages| then None
    else if |path| == 1 then Some(pages[path[0]])
    else At(pages[path[0]].children, path[1..])
  }

  predicate IsPosition(pages: seq<Page>, path: Path) {
    At(pages, path).Some?
  }

  /** One step of the walk: the page, its depth below the container (the
      container's own pages are at depth 0) and its position. */
  datatype Visit = Visit(page: Page, depth: nat, path: Path)

  /** The walk goes below a page at `depth` unless a maximum depth stops it. */
  predicate Descends(depth: nat, maxDepth: Option<nat>) {
    maxDepth.None? || depth < maxDepth.value
  }

  /** Going one step down a path: the page at `[j] + rest` is the page at
      `rest` among the children of page `j`. */
  lemma AtCons(pages: seq<Page>, j: nat, rest: Path)
    requires j < |pages| && rest != []
    ensures At(pages, [j] + rest) == At(pages[j].children, rest)
  {
    assert ([j] + rest)[1..] == rest;
  }

  /** Where a visit of the walk over `pages[i..]` may lie: its path extends
      `parent` with an index from `i` on and leads to its page, its depth is
      the one its path implies, and it is not below `maxDepth`. */
  predicate Placed(v: Visit, pages: seq<Page>, i: nat, depth: nat, parent: Path, maxDepth: Option<nat>) {
    && |v.path| == v.depth + 1
    && depth <= v.depth
    && (maxDepth.Some? ==> v.depth <= maxDepth.value)
    && v.path[..depth] == parent
    && i <= v.path[depth]
    && At(pages, v.path[depth..]) == Some(v.page)
  }

  /** A visit placed among the children of page `i` is placed among `pages`. */
  lemma PlacedBelow(v: Visit, pages: seq<Page>, i: nat, depth: nat, parent: Path, maxDepth: Option<nat>)
    requires i < |pages| && |parent| == depth
    requires Placed(v, pages[i].children, 0, depth + 1, parent + [i], maxDepth)
    ensures Placed(v, pages, i, depth, parent, maxDepth)
  {
    var q := v.path;
    assert q[..depth + 1] == parent + [i];
    assert q[..depth] == (parent + [i])[..depth] == parent;
    assert q[depth] == (parent + [i])[depth] == i;
    assert q[depth..] == [i] + q[depth + 1..];
    AtCons(pages, i, q[depth + 1..]);
  }

  /** The pre-order walk of `pages[i..]`, whose parent sits at `parent` and
      whose pages are at `depth`: each page, then (unless `maxDepth` stops
      the descent) the walk of its children, then the walk of the pages
      after it. */
  function WalkFrom(pages: seq<Page>, i: nat, depth: nat, parent: Path, maxDepth: Option<nat>): seq<Visit>
    requires i <= |pages|
    decreases pages, |pages| - i
  {
    if i == |pages| then []
    else
      var p := pages[i];
      var path := parent + [i];
      [Visit(p, depth, path)]
      + (if Descends(depth, maxDepth) then WalkFrom(p.children, 0, depth + 1, path, maxDepth) else [])
      + WalkFrom(pages, i + 1, depth, parent, maxDepth)
  }

  /** The walk over the whole container, as `RecursiveIteratorIterator` in
      SELF_FIRST mode produces it, with its maximum depth set when one is given. */
  function Walk(forest: seq<Page>, maxDepth: Option<nat>): seq<Visit> {
    WalkFrom(forest, 0, 0, [], maxDepth)
  }

  /** Every visit of the walk of `pages[i..]` names a real position, carries
      the depth its path implies, and is not below `maxDepth`. */
  lemma {:induction false} WalkFromSound(pages: seq<Page>, i: nat, depth: nat, parent: Path, maxDepth: Option<nat>)
    requires i <= |pages| && |parent| == depth
    requires maxDepth.Some? ==> depth <= maxDepth.value
    ensures forall v :: v in WalkFrom(pages, i, depth, parent, maxDepth) ==> Placed(v, pages, i, depth, parent, maxDepth)
    decreases pages, |pages| - i
  {
    if i < |pages| {
      var p := pages[i];
      var path := parent + [i];
      var below := if Descends(depth, maxDepth) then WalkFrom(p.children, 0, depth + 1, path, maxDepth) else [];
      var after := WalkFrom(pages, i + 1, depth, parent, maxDepth);
      assert WalkFrom(pages, i, depth, parent, maxDepth) == [Visit(p, depth, path)] + below + after;
      if Descends(depth, maxDepth) {
        WalkFromSound(p.children, 0, depth + 1, path, maxDepth);
      }
      WalkFromSound(pages, i + 1, depth, parent, maxDepth);
      forall v | v in below
        ensures Placed(v, pages, i, depth, parent, maxDepth)
      {
        PlacedBelow(v, pages, i, depth, parent, maxDepth);
      }
      assert path[..depth] == parent && path[depth..] == [i];
    }
  }

  /** Every visit of the walk is a page of the container at the position
      and depth it records, never below `maxDepth`. */
  lemma WalkSound(forest: seq<Page>, maxDepth: Option<nat>)
    ensures forall v :: v in Walk(forest, maxDepth) ==>
              && At(forest, v.path) == Some(v.page)
              && |v.path| == v.depth + 1
              && (maxDepth.Some? ==> v.depth <= maxDepth.value)
  {
    WalkFromSound(forest, 0, 0, [], maxDepth);
    assert forall v :: v in Walk(forest, maxDepth) ==> v.path[0..] == v.path;
  }

  /** One level of the completeness argument: a visit in the walk of the
      children of page `i` is in the walk of `pages[i..]`, under the path
      that goes through `i`. */
  lemma CompleteThroughChild(pages: seq<Page>, i: nat, depth: nat, parent: Path, maxDepth: Option<nat>, rest: Path)
    requires i < |pages| && |parent| == depth && rest != []
    requires maxDepth.Some? ==> depth < maxDepth.value
    requires IsPosition(pages[i].children, rest)
    requires Visit(At(pages[i].children, rest).value, depth + |rest|, parent + [i] + rest)
               in WalkFrom(pages[i].children, 0, depth + 1, parent + [i], maxDepth)
    ensures Visit(At(pages, [i] + rest).value, depth + |rest|, parent + ([i] + rest))
              in WalkFrom(pages, i, depth, parent, maxDepth)
  {
    AtCons(pages, i, rest);
    assert parent + [i] + rest == parent + ([i] + rest);
  }

  /** The walk of `pages[i..]` starts with page `i`. */
  lemma WalkFromHead(pages: seq<Page>, i: nat, depth: nat, parent: Path, maxDepth: Option<nat>)
    requires i < |pages|
    ensures Visit(At(pages, [i]).value, depth, parent + [i]) in WalkFrom(pages, i, depth, parent, maxDepth)
  {
    assert WalkFrom(pages, i, depth, parent, maxDepth)[0] == Visit(pages[i], depth, parent + [i]);
  }

  /** The walk of `pages[i..]` contains the walk of `pages[i + 1..]`. */
  lemma WalkFromLater(pages: seq<Page>, i: nat, depth: nat, parent: Path, maxDepth: Option<nat>, v: Visit)
    requires i < |pages| && v in WalkFrom(pages, i + 1, depth, parent, maxDepth)
    ensures v in WalkFrom(pages, i, depth, parent, maxDepth)
  {
    var p := pages[i];
    var below := if Descends(depth, maxDepth) then WalkFrom(p.children, 0, depth + 1, parent + [i], maxDepth) else [];
    assert WalkFrom(pages, i, depth, parent, maxDepth) == [Visit(p, depth, parent + [i])] + below + WalkFrom(pages, i + 1, depth, parent, maxDepth);
  }

  /** Every page of `pages[i..]` that is not below `maxDepth` is visited,
      at its own depth and position. */
  lemma {:induction false} WalkFromComplete(pages: seq<Page>, i: nat, depth: nat, parent: Path, maxDepth: Option<nat>, q: Path)
    requires i <= |pages| && |parent| == depth
    requires maxDepth.Some? ==> depth <= maxDepth.value
    requires q != [] && i <= q[0] && IsPosition(pages, q)
    requires maxDepth.Some? ==> depth + |q| - 1 <= maxDepth.value
    ensures Visit(At(pages, q).value, depth + |q| - 1, parent + q) in WalkFrom(pages, i, depth, parent, maxDepth)
    decreases pages, |pages| - i
  {
    assert q[0] < |pages|;
    if q[0] != i {
      WalkFromComplete(pages, i + 1, depth, parent, maxDepth, q);
      WalkFromLater(pages, i, depth, parent, maxDepth, Visit(At(pages, q).value, depth + |q| - 1, parent + q));
    } else if |q| == 1 {
      assert q == [i];
      WalkFromHead(pages, i, depth, parent, maxDepth);
    } else {
      var rest := q[1..];
      assert q == [i] + rest;
      AtCons(pages, i, rest);
      WalkFromComplete(pages[i].children, 0, depth + 1, parent + [i], maxDepth, rest);
      CompleteThroughChild(pages, i, depth, parent, maxDepth, rest);
    }
  }

  /** The walk visits exactly the positions of the container that are not
      below `maxDepth`: together with the contract of `Walk`, every page at
      depth at most `maxDepth` is visited and nothing else is. */
  lemma WalkComplete(forest: seq<Page>, maxDepth: Option<nat>, q: Path)
    requires IsPosition(forest, q)
    requires maxDepth.Some? ==> |q| - 1 <= maxDepth.value
    ensures Visit(At(forest, q).value, |q| - 1, q) in Walk(forest, maxDepth)
  {
    WalkFromComplete(forest, 0, 0, [], maxDepth, q);
    assert [] + q == q;
  }
}
