/** The per-page formatter (`htmlify`) and the helper's one setting that
    affects it: whether top-level parents are real links or dropdown toggles.
    The element is produced as a record; serialising its attributes and
    escaping its label belong to the parent helper and are not modelled. */
module Markup {
  import opened Wrappers
  import opened PhpStrings
  import opened Navigation

  /** The helper's settings. Only `parentsAreLinks` is owned by this helper;
      it starts out false, so parents are toggles by default. */
  datatype MenuHelper = MenuHelper(parentsAreLinks: bool)

  const DefaultHelper: MenuHelper := MenuHelper(false)

  function GetParentsAreLinks(h: MenuHelper): bool {
    h.parentsAreLinks
  }

  /** Toggles and links are the two sides of one flag. */
  function GetParentsAreToggles(h: MenuHelper): (r: bool)
    ensures r <==> !GetParentsAreLinks(h)
  {
    !h.parentsAreLinks
  }

  function SetParentsAreLinks(h: MenuHelper): (r: MenuHelper)
    ensures GetParentsAreLinks(r) && !GetParentsAreToggles(r)
  {
    h.(parentsAreLinks := true)
  }

  function SetParentsAreToggles(h: MenuHelper): (r: MenuHelper)
    ensures GetParentsAreToggles(r) && !GetParentsAreLinks(r)
  {
    h.(parentsAreLinks := false)
  }

  /** A fresh helper renders parents as toggles, and the two setters undo
      each other. */
  lemma FlagsRoundTrip(h: MenuHelper)
    ensures GetParentsAreToggles(DefaultHelper)
    ensures SetParentsAreToggles(SetParentsAreLinks(h)) == SetParentsAreToggles(h)
    ensures SetParentsAreLinks(SetParentsAreToggles(h)) == SetParentsAreLinks(h)
    ensures SetParentsAreLinks(h) == h <==> GetParentsAreLinks(h)
  {
  }

  /** The attributes only a hyperlink carries. */
  datatype Anchor = Anchor(href: string, target: string, accessKey: string, dataToggle: bool)

  /** The single element `htmlify` returns: an `<a>` when `link` is present,
      a `<span>` otherwise, followed by a caret when `caret` is set. */
  datatype Element = Element(
    id: string,
    title: string,
    cls: string,
    caption: string,
    link: Option<Anchor>,
    caret: bool)
  {
    function TagName(): string {
      if link.Some? then "a" else "span"
    }
  }

  /** The structural marker the formatter removes from a class. */
  const ChildListMarker: string := "dropdown-menu"

  /** `htmlify($page)`. `cls` and `depth` are the scratch values the renderer
      stored on the page just before (its class and its walk depth). */
  function Htmlify(page: Page, cls: string, depth: nat, h: MenuHelper): Element {
    var stripped := StripAll(cls, ChildListMarker);
    var toggle := GetParentsAreToggles(h) && stripped == "dropdown";
    var link :=
      if Truthy(page.href) then
        Some(Anchor(if toggle then "#" else page.href, page.target, page.accessKey, toggle))
      else
        None;
    Element(
      page.id,
      page.title,
      if stripped == "dropdown" then "dropdown-toggle" else stripped,
      page.caption,
      link,
      toggle && depth == 0)
  }

  /** The decisions `htmlify` makes, in terms of the class with every
      marker removed: the element is a link exactly when the href is
      truthy; its class is `dropdown-toggle` for a `dropdown` class and the
      stripped class otherwise; with toggles a `dropdown` link points at `#`
      and carries the data-toggle attribute, any other link keeps its href,
      target and access key; the caret needs toggles, a `dropdown` class and
      stored depth 0, and does not depend on the href. */
  lemma HtmlifyDecisions(page: Page, cls: string, depth: nat, h: MenuHelper)
    ensures var r := Htmlify(page, cls, depth, h);
            var stripped := StripAll(cls, ChildListMarker);
            && r.id == page.id && r.title == page.title && r.caption == page.caption
            && (r.TagName() == "a" <==> Truthy(page.href))
            && (stripped == "dropdown" ==> r.cls == "dropdown-toggle")
            && (stripped != "dropdown" ==> r.cls == stripped)
            && (r.link.Some? ==> r.link.value.target == page.target && r.link.value.accessKey == page.accessKey)
            && (r.link.Some? ==>
                  (r.link.value.dataToggle <==> GetParentsAreToggles(h) && stripped == "dropdown"))
            && (r.link.Some? ==>
                  r.link.value.href == (if r.link.value.dataToggle then "#" else page.href))
            && (r.caret <==> GetParentsAreToggles(h) && stripped == "dropdown" && depth == 0)
  {
  }

  /** Switching between toggles and links changes only the toggle
      behaviour: the element kind, class, id, title and label stay the same;
      with links the real href is kept and there is neither a data-toggle
      attribute nor a caret. */
  lemma LinksAndTogglesAgree(page: Page, cls: string, depth: nat, h: MenuHelper)
    ensures var t := Htmlify(page, cls, depth, SetParentsAreToggles(h));
            var l := Htmlify(page, cls, depth, SetParentsAreLinks(h));
            && t.TagName() == l.TagName()
            && t.cls == l.cls && t.id == l.id && t.title == l.title && t.caption == l.caption
            && !l.caret
            && (l.link.Some? ==> l.link.value.href == page.href && !l.link.value.dataToggle)
            && (t.link.Some? && t.link.value.href != page.href ==> t.link.value.href == "#")
  {
    HtmlifyDecisions(page, cls, depth, SetParentsAreToggles(h));
    HtmlifyDecisions(page, cls, depth, SetParentsAreLinks(h));
  }

  /** A `dropdown` class is the one case where toggles differ from links:
      with toggles its link points at `#`, carries the data-toggle
      attribute, and a caret follows when the stored depth is 0; a span gets
      the caret too. */
  lemma DropdownToggle(page: Page, depth: nat, h: MenuHelper)
    requires GetParentsAreToggles(h)
    ensures var e := Htmlify(page, "dropdown", depth, h);
            && e.cls == "dropdown-toggle"
            && (Truthy(page.href) ==> e.link == Some(Anchor("#", page.target, page.accessKey, true)))
            && (e.caret <==> depth == 0)
  {
    DropdownUnstripped();
    HtmlifyDecisions(page, "dropdown", depth, h);
  }

  /** `dropdown` is shorter than the marker, so nothing is removed from it;
      nothing is removed from the empty class either. */
  lemma DropdownUnstripped()
    ensures StripAll("dropdown", ChildListMarker) == "dropdown"
    ensures StripAll("", ChildListMarker) == ""
  {
    StripAllShrinks("dropdown", ChildListMarker);
    StripAllShrinks("", ChildListMarker);
    assert !Contains("dropdown", ChildListMarker) by {
      forall k: nat ensures !OccursAt("dropdown", ChildListMarker, k) {
      }
    }
  }
}
