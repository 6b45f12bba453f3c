# Bootstrap navigation menu, modelled in Dafny

The model covers `Application_Helper_View_BootstrapNavigationMenu`. This is a Zend Framework 1
view helper that renders a navigation container as a Twitter Bootstrap menu, and the model
takes in four pieces of it:

- **`_renderMenu`**:
  - the pre-order walk of the container, cut off at `maxDepth`;
  - the gates each page must pass (`minDepth`, the visibility/ACL `accept` gate and the `onlyActive` active-branch rule);
  - the `<ul>`/`<li>` bookkeeping on `$prevDepth` as the walk moves between accepted pages;
  - the Bootstrap classes put on `<ul>` and `<li>`;
  - the final loop that closes every level still open, and the trailing-EOL trim.
- **`htmlify`**: the per-page element. It decides:
  - whether the element is an `<a>` or a `<span>`;
  - whether the class becomes `dropdown-toggle`;
  - whether the href is replaced by `#` together with the `data-toggle` attribute;
  - whether a caret follows the element.
- **`getFirstActiveChild`**: the first active page among a container's immediate pages.
- **The flag accessors**: `setParentsAreLinks` / `setParentsAreToggles` / `getParentsAreLinks` / `getParentsAreToggles`.

## How the model is built

- **The container** is a forest of immutable `Page` records (`navigation.dfy`). A position in it is a path of child indices, so page identity in `hasPage` and `getParent` becomes path comparison.
- **The walk** is a recursive pre-order function. It is proved to visit every position that is not below `maxDepth`, each at its own depth, and nothing else; that each position is visited once and a parent before its children follows from the definition and is not stated as a lemma.
- **The output** is a sequence of lines (`tokens.dfy`). Each line is an indentation count and one token: `OpenUl(class)`, `CloseUl`, `OpenLi(class)`, `CloseLi` or `Item(element)`.
- **Well-nestedness** is judged by a stack machine over the tags.
- **The renderer** (`renderer.dfy`) is given twice: as a fold over the accepted pages, and as the loop the source writes (`RenderMenu`), which is proved to compute the fold.
- **The text layer** (`text.dfy`) turns lines into a string. It repeats the indent unit, writes each tag, appends `\n` after every line, then removes the trailing terminators.
- **PHP's string builtins** that the code relies on are modelled with PHP semantics (`php_strings.dfy`):
  - truthiness and `empty` on strings (`""` and `"0"` are falsy);
  - `trim` with its default character list;
  - `str_replace` with an empty replacement, which is one left-to-right pass (a removal can leave a fresh occurrence behind), modelled as a scan over positions of the class (`StripFrom`);
  - `str_repeat`.
- **Scratch writes**: the source writes `depth` and `class` onto each page before calling `htmlify` (lines 193, 231–238). Here they are passed to the formatter as arguments.

## Tag balance

- **When it fails**: a descent opens a single `<ul>` however many levels the depth jumps (lines 242–248), yet the closing loops close one `</li></ul>` pair per level. The output is therefore not balanced in general:
  - `Balance.LoneDeepPageUnbalanced` shows this for a lone accepted page below relative depth 0;
  - `Balance.RejectedParentUnbalanced` gives a concrete container where, with `minDepth` 0, no `maxDepth` and `onlyActive` off, the gate rejects a parent and accepts its child.
- **When it holds** (`Balance.RenderBalanced`): the first accepted page is at relative depth 0 and no accepted page is more than one level deeper than the one before it.
- **A gate that guarantees it** (`Balance.HereditaryGateBalanced`): a gate that rejects everything below a rejected page at depth `minDepth` or deeper, with `onlyActive` off, always meets that condition.

The `</li>` written after an ascent is indented `depth + 1` times (line 257), while the `<li>` it closes was indented `2 * depth + 1` times. The model keeps the indentation as written.

## Model

| member | source | states |
|---|---|---|
| Markup.GetParentsAreToggles | src/BootstrapNavigationMenu.php:51-65 | parents toggle exactly when they are not links |
| Markup.SetParentsAreLinks | src/BootstrapNavigationMenu.php:25-28 | afterwards parents are links and do not toggle |
| Markup.SetParentsAreToggles | src/BootstrapNavigationMenu.php:38-41 | afterwards parents toggle and are not links |
| Markup.FlagsRoundTrip | src/BootstrapNavigationMenu.php:15-41 | a fresh helper toggles; the later setter overrides the earlier one; setting links changes nothing exactly when parents already are links |
| Markup.HtmlifyDecisions | src/BootstrapNavigationMenu.php:90-138 | the element is `<a>` iff the href is truthy; its class is `dropdown-toggle` for a stripped `dropdown` class and the stripped class otherwise; a link gets data-toggle iff toggles are on and the class is `dropdown`, and then points at `#`, otherwise at the page's href; target and access key are copied; a caret appears iff toggles, `dropdown` and stored depth 0 |
| Markup.LinksAndTogglesAgree | src/BootstrapNavigationMenu.php:110-138 | switching toggles/links changes neither the element kind, class, id, title nor label; with links the real href is kept, with no data-toggle and no caret |
| Markup.DropdownToggle | src/BootstrapNavigationMenu.php:113-137 | with toggles a `dropdown` page gets class `dropdown-toggle`, a `#` link with data-toggle when it has an href, and a caret exactly at stored depth 0 |
| PhpStrings.StripAllShrinks | src/BootstrapNavigationMenu.php:97 | the result is shorter exactly when the marker occurs; without an occurrence the class is unchanged |
| PhpStrings.StripFromFirst | src/BootstrapNavigationMenu.php:97 | when the first occurrence of the marker at or after position j starts at i, the scan keeps the text from j to i and carries on right after that occurrence |
| PhpStrings.StripFromSuffix | src/BootstrapNavigationMenu.php:97 | the scan of `a + b` past `a` is the scan of `b`: what comes before never changes how the rest is stripped |
| PhpStrings.StripAllAt | src/BootstrapNavigationMenu.php:97 | when the first occurrence of the marker in `x + marker + y` is the one after `x`, the result is `x` followed by the removal applied to `y` |
| PhpStrings.StripAllWhole | src/BootstrapNavigationMenu.php:97 | a class that is exactly the marker becomes empty; a marker at the end of a class with no earlier occurrence leaves exactly the text before it |
| PhpStrings.StripAllDoesNotRescan | src/BootstrapNavigationMenu.php:97 | one pass can leave an occurrence behind: for any marker whose first two characters differ, its first character, the marker, then the marker without its first character comes out as the marker (`ddropdown-menuropdown-menu` becomes `dropdown-menu`) |
| PhpStrings.Trim | src/BootstrapNavigationMenu.php:272 | the result neither starts nor ends with a trim character, and a string that already does not is unchanged |
| PhpStrings.TrimInfix | src/BootstrapNavigationMenu.php:272 | what `trim` keeps is one contiguous piece of the input with only trim characters cut off on either side |
| Navigation.WalkSound | src/BootstrapNavigationMenu.php:183-191 | every visit of the walk is the page at its recorded position, at the depth that position implies, never below `maxDepth` |
| Navigation.WalkComplete | src/BootstrapNavigationMenu.php:183-191 | every page of the container not below `maxDepth` is visited, at its own depth and position |
| Renderer.EntriesMembers | src/BootstrapNavigationMenu.php:198-225 | a page is rendered exactly when its visit passes the three gates, at its depth minus `minDepth` |
| Menu.AcceptedSound | src/BootstrapNavigationMenu.php:198-222 | every rendered page is a position within the depth bounds that `accept` admits and that, under `onlyActive`, is active or a child of the found page or a sibling of a found page that has no children or children below `maxDepth` |
| Menu.AcceptedComplete | src/BootstrapNavigationMenu.php:198-222 | every position meeting those conditions is rendered |
| Menu.OnlyActiveWithoutFound | src/BootstrapNavigationMenu.php:201-204 | with `onlyActive` and no found page only active pages are rendered |
| Menu.ActiveNeverDropped | src/BootstrapNavigationMenu.php:198-201 | an active page within the depth bounds that `accept` admits is rendered whatever `onlyActive` says |
| Renderer.UlClass | src/BootstrapNavigationMenu.php:228-236 | the `<ul>` class is `nav` exactly at relative depth 0; nested lists get `dropdown-menu`; the class is never empty |
| Menu.UlClassIgnored | src/BootstrapNavigationMenu.php:161-166 | the `ulClass` argument has no effect on the output |
| Renderer.LiClassRules | src/BootstrapNavigationMenu.php:263-272 | a page with children gets `dropdown` at relative depth 0 and `dropdown-submenu` deeper, plus ` active` when active; a childless top page gets `active` or no class; a childless deeper page gets the trimmed caller's class followed by ` active` when active if that class is truthy, otherwise `active` when active and no class when not; a written class is trimmed |
| Menu.ParentElement | src/BootstrapNavigationMenu.php:113-126 | a page with children is formatted with class `dropdown-toggle`; with toggles its link is `#` with data-toggle, with links its own href |
| Menu.ChildlessTopElement | src/BootstrapNavigationMenu.php:228-234 | a childless page at relative depth 0 loses the caller's class: no class, no caret, a plain link |
| Menu.CaretIffTopParent | src/BootstrapNavigationMenu.php:131-138 | a rendered page's caret appears iff toggles are on, it has children and its absolute depth is 0; with `minDepth > 0` there is no caret |
| Renderer.TransitionCounts | src/BootstrapNavigationMenu.php:242-260 | going deeper opens exactly one `<ul>`; going up from p to d closes p − d `</li></ul>` pairs and one `</li>`; staying level closes one `</li>`; no `<li>` and no element |
| Renderer.CloseLevelsCounts | src/BootstrapNavigationMenu.php:252-256 | closing from level p down past level d writes p − d `</li>` and p − d `</ul>` and nothing else |
| Renderer.StepCounts | src/BootstrapNavigationMenu.php:242-275 | each accepted page adds one `<li>` carrying its class and then its element, as the last two lines |
| Renderer.StepsCounts | src/BootstrapNavigationMenu.php:189-279 | the loop writes one `<li>` and one element per accepted page |
| Renderer.RenderCounts | src/BootstrapNavigationMenu.php:281-290 | the menu is empty exactly when no page is accepted, and has one `<li>` and one element per accepted page |
| Menu.RenderItems | src/BootstrapNavigationMenu.php:274-275 | the elements in the output are those of the accepted pages, one each, in walk order |
| Renderer.RenderMenu | src/BootstrapNavigationMenu.php:189-287 | the loop with `$prevDepth` and the final close computes the line sequence of the fold over accepted pages |
| Renderer.FirstActiveChild | src/BootstrapNavigationMenu.php:300-311 | returns nothing exactly when no immediate page is active, otherwise the first active one |
| Balance.StepsRun | src/BootstrapNavigationMenu.php:242-278 | when pages go down at most one level at a time, after each page at relative depth d exactly d + 1 `<ul>`/`<li>` pairs are open |
| Menu.OpenAfterEachPage | src/BootstrapNavigationMenu.php:242-278 | after the n-th accepted page, at relative depth d, the open tags are d + 1 `<ul>` and d + 1 `<li>`, alternating |
| Balance.CloseLevelsRun | src/BootstrapNavigationMenu.php:283-287 | the final loop closes exactly the open levels, innermost first |
| Balance.RenderBalanced | src/BootstrapNavigationMenu.php:281-287 | under that condition the output is well nested and opens as many `<ul>` and `<li>` as it closes |
| Menu.MenuOpensWithNav | src/BootstrapNavigationMenu.php:242-248 | under that condition the menu opens with `<ul class="nav">` at indentation 0 |
| Balance.LoneDeepPageUnbalanced | src/BootstrapNavigationMenu.php:242-248 | a lone accepted page at relative depth d ≥ 1 yields one `<ul>` but d + 1 `</ul>`, so the output is not well nested |
| Balance.RejectedParentUnbalanced | src/BootstrapNavigationMenu.php:198-200 | with `minDepth` 0, no `maxDepth` and `onlyActive` off, a container holding only one top-level parent, whose single child the gate accepts while rejecting the parent, renders unbalanced output |
| Balance.RejectedSubtree | src/BootstrapNavigationMenu.php:198-200 | with a hereditary gate nothing below a rejected page at depth `minDepth` or deeper is rendered, whether `onlyActive` is on or off |
| Balance.HereditaryGateBalanced | src/BootstrapNavigationMenu.php:198-200 | a hereditary gate with `onlyActive` off always yields pages that go down one level at a time, hence balanced output |
| Text.IndentUnit | src/BootstrapNavigationMenu.php:169-171 | an empty indent (`""` or `"0"`) becomes a tab; any other is kept |
| Text.TrimEol | src/BootstrapNavigationMenu.php:288 | `rtrim` keeps the longest prefix not ending in a terminator and cuts only terminators |
| Text.MenuTextShape | src/BootstrapNavigationMenu.php:281-290 | the returned string is empty exactly when no page is accepted; otherwise it is the built-up text minus its one trailing terminator and ends with `</ul>` |

## Left out

- `findActive`, `accept`, `isActive(true)` and the container queries (`hasPage`, `getParent`, `count`) belong to the parent helper and to Zend's container classes, which are not part of this model. `accept` is a predicate on positions, `findActive` an optional position of the container, and `isActive(true)` the page's `active` field.
- Translation of labels and titles, `view->escape`, and `_htmlAttribs` are foreign collaborators. The element is a record, and its text is a parameter of the text layer.
- The `EOL` constant is defined in the parent class, which is not part of this model; it is taken to be `"\n"`.
- Negative or non-integer `maxDepth` and negative `minDepth` are not modelled. `maxDepth` is an optional natural number and `minDepth` a natural number.
- The `NavigationMenu()` view accessor and the helper's wiring into Zend are left out: it only returns the helper itself.
- The `depth` and `class` values written onto pages persist after a render. A later render would read an earlier render's `class` for a childless page below relative depth 0; the model reads the caller's class instead.
- Balance.RenderBalanced: proved only under the one-level-at-a-time condition, because without it the source's output is not balanced (see the two counterexample lemmas).
- Changes to the container during the walk (the iterator over a mutated container) are not modelled: pages are immutable values.
