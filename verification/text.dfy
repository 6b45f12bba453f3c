/** The rendered menu as text: every line is the indent unit repeated the
    line's indentation count, the tag or the element's markup, and the line
    terminator; trailing terminators are then trimmed away. Serialising an
    element's attributes and escaping its label are the parent helper's
    business, so the element's text is a parameter. */
module Text {
  import opened PhpStrings
  import opened Markup
  import opened Tokens
  import opened Renderer

  /** The line terminator written after every line. */
  const Eol: char := '\n'

  /** The indentation unit: an indent that PHP considers empty ("" or "0")
      is replaced by one tab; any other is used as given. */
  function IndentUnit(indent: string): (u: string)
    ensures u != []
    ensures IsEmpty(indent) ==> u == "\t"
    ensures !IsEmpty(indent) ==> u == indent
  {
    if IsEmpty(indent) then "\t" else indent
  }

  /** The text of one token. `<ul>` and a classed `<li>` carry their class
      attribute; a page element is rendered by `markup`. */
  function TokenText(t: Token, markup: Element -> string): string {
    match t
    case OpenUl(c) => "<ul class=\"" + c + "\">"
    case CloseUl => "</ul>"
    case OpenLi(None) => "<li>"
    case OpenLi(Some(c)) => "<li class=\"" + c + "\">"
    case CloseLi => "</li>"
    case Item(e) => markup(e)
  }

  function LineText(l: Line, unit: string, markup: Element -> string): string {
    Repeat(unit, l.indent) + TokenText(l.token, markup)
  }

  /** The text the loops build up, before the final trim. */
  function Raw(ls: seq<Line>, unit: string, markup: Element -> string): (s: string)
    ensures ls == [] <==> s == []
  {
    if ls == [] then []
    else Raw(ls[..|ls| - 1], unit, markup) + LineText(ls[|ls| - 1], unit, markup) + [Eol]
  }

  /** `rtrim($s, EOL)`: the longest prefix of `s` that does not end with a
      terminator; everything cut off is terminators. */
  function TrimEol(s: string): (t: string)
    ensures |t| <= |s| && t == s[..|t|]
    ensures t == [] || t[|t| - 1] != Eol
    ensures forall k :: |t| <= k < |s| ==> s[k] == Eol
  {
    if s != [] && s[|s| - 1] == Eol then TrimEol(s[..|s| - 1]) else s
  }

  /** `_renderMenu`'s return value. */
  function MenuText(r: Request, markup: Element -> string): string
    requires r.Valid()
  {
    TrimEol(Raw(Render(r), IndentUnit(r.opts.indent), markup))
  }

  /** The final loop ends with the outermost `</ul>` at indentation 0. */
  lemma {:induction false} CloseLevelsLast(from: int)
    requires from >= 0
    ensures CloseLevels(from, -1) != [] && CloseLevels(from, -1)[|CloseLevels(from, -1)| - 1] == Line(0, CloseUl)
    decreases from
  {
    if from > 0 {
      CloseLevelsLast(from - 1);
    }
  }

  /** A rendered menu ends with the outermost `</ul>`. */
  lemma RenderLast(r: Request)
    requires r.Valid() && Accepted(r) != []
    ensures Render(r) != [] && Render(r)[|Render(r)| - 1] == Line(0, CloseUl)
  {
    var es := Accepted(r);
    var close := CloseLevels(LastRel(es), -1);
    CloseLevelsLast(LastRel(es));
    StepsCounts(es, r.helper);
    assert Render(r) == Steps(es, r.helper) + close;
  }

  /** Text whose last line is a `</ul>` loses exactly its final terminator. */
  lemma TrimClosed(ls: seq<Line>, unit: string, markup: Element -> string)
    requires ls != [] && ls[|ls| - 1] == Line(0, CloseUl)
    ensures var t := TrimEol(Raw(ls, unit, markup));
            && t + [Eol] == Raw(ls, unit, markup)
            && |t| >= 5 && t[|t| - 5..] == "</ul>"
  {
    var last := ls[|ls| - 1];
    var body := Raw(ls[..|ls| - 1], unit, markup) + LineText(last, unit, markup);
    assert Raw(ls, unit, markup) == body + [Eol];
    assert Repeat(unit, 0) == [];
    assert LineText(last, unit, markup) == "</ul>";
    assert (body + [Eol])[..|body|] == body;
  }

  /** The menu text is empty exactly when no page is rendered; otherwise it
      is the built-up text minus its one trailing terminator, and it ends
      with the closing `</ul>`. */
  lemma MenuTextShape(r: Request, markup: Element -> string)
    requires r.Valid()
    ensures MenuText(r, markup) == [] <==> Accepted(r) == []
    ensures Accepted(r) != [] ==>
              && MenuText(r, markup) + [Eol] == Raw(Render(r), IndentUnit(r.opts.indent), markup)
              && |MenuText(r, markup)| >= 5
              && MenuText(r, markup)[|MenuText(r, markup)| - 5..] == "</ul>"
  {
    if Accepted(r) != [] {
      RenderLast(r);
      TrimClosed(Render(r), IndentUnit(r.opts.indent), markup);
    }
  }
}
