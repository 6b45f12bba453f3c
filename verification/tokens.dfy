/** The renderer's output at the level of lines: each line is an indentation
    count (how many copies of the indent string precede it) and one token.
    Well-nestedness is judged by a stack machine over the tags. */
module Tokens {
  import opened Wrappers
  import opened Markup

  /** `OpenLi(None)` is a bare `<li>`; `OpenLi(Some(c))` carries
      `class="c"`. Every `<ul>` the renderer opens carries a class. */
  datatype Token =
    | OpenUl(ulClass: string)
    | CloseUl
    | OpenLi(liClass: Option<string>)
    | CloseLi
    | Item(element: Element)

  datatype Line = Line(indent: nat, token: Token)

  datatype Tag = Ul | Li

  /** Number of lines holding a `<ul>` (resp. `</ul>`, `<li>`, `</li>`, page element). */
  function CountOpenUl(ls: seq<Line>): nat {
    if ls == [] then 0 else (if ls[0].token.OpenUl? then 1 else 0) + CountOpenUl(ls[1..])
  }

  function CountCloseUl(ls: seq<Line>): nat {
    if ls == [] then 0 else (if ls[0].token.CloseUl? then 1 else 0) + CountCloseUl(ls[1..])
  }

  function CountOpenLi(ls: seq<Line>): nat {
    if ls == [] then 0 else (if ls[0].token.OpenLi? then 1 else 0) + CountOpenLi(ls[1..])
  }

  function CountCloseLi(ls: seq<Line>): nat {
    if ls == [] then 0 else (if ls[0].token.CloseLi? then 1 else 0) + CountCloseLi(ls[1..])
  }

  function CountItems(ls: seq<Line>): nat {
    if ls == [] then 0 else (if ls[0].token.Item? then 1 else 0) + CountItems(ls[1..])
  }

  /** Counting distributes over concatenation. */
  lemma {:induction false} CountsAppend(a: seq<Line>, b: seq<Line>)
    ensures CountOpenUl(a + b) == CountOpenUl(a) + CountOpenUl(b)
    ensures CountCloseUl(a + b) == CountCloseUl(a) + CountCloseUl(b)
    ensures CountOpenLi(a + b) == CountOpenLi(a) + CountOpenLi(b)
    ensures CountCloseLi(a + b) == CountCloseLi(a) + CountCloseLi(b)
    ensures CountItems(a + b) == CountItems(a) + CountItems(b)
  {
    if a == [] {
      assert a + b == b;
    } else {
      assert (a + b)[0] == a[0];
      assert (a + b)[1..] == a[1..] + b;
      CountsAppend(a[1..], b);
    }
  }

  /** What one line contributes to each count. */
  lemma CountsOne(l: Line)
    ensures CountOpenUl([l]) == (if l.token.OpenUl? then 1 else 0)
    ensures CountCloseUl([l]) == (if l.token.CloseUl? then 1 else 0)
    ensures CountOpenLi([l]) == (if l.token.OpenLi? then 1 else 0)
    ensures CountCloseLi([l]) == (if l.token.CloseLi? then 1 else 0)
    ensures CountItems([l]) == (if l.token.Item? then 1 else 0)
  {
    assert [l][1..] == [];
  }

  /** The page elements, in output order. */
  function Items(ls: seq<Line>): (r: seq<Element>)
    ensures |r| == CountItems(ls)
  {
    if ls == [] then []
    else (if ls[0].token.Item? then [ls[0].token.element] else []) + Items(ls[1..])
  }

  lemma {:induction false} ItemsAppend(a: seq<Line>, b: seq<Line>)
    ensures Items(a + b) == Items(a) + Items(b)
  {
    if a == [] {
      assert a + b == b;
    } else {
      assert (a + b)[0] == a[0];
      assert (a + b)[1..] == a[1..] + b;
      ItemsAppend(a[1..], b);
    }
  }

  /** The effect of one token on the open tags (innermost last). An
      opening tag pushes; a closing tag must match the innermost open tag
      and pops it; a page element must sit directly inside an open `<li>`.
      `None` means the token is out of place. */
  function StepTag(stack: seq<Tag>, t: Token): Option<seq<Tag>> {
    match t
    case OpenUl(_) => Some(stack + [Ul])
    case OpenLi(_) => Some(stack + [Li])
    case CloseUl =>
      if stack != [] && stack[|stack| - 1] == Ul then Some(stack[..|stack| - 1]) else None
    case CloseLi =>
      if stack != [] && stack[|stack| - 1] == Li then Some(stack[..|stack| - 1]) else None
    case Item(_) =>
      if stack != [] && stack[|stack| - 1] == Li then Some(stack) else None
  }

  /** Runs the tag stack over `ls` starting from `stack`; `None` means the
      lines are not well nested. */
  function Run(stack: seq<Tag>, ls: seq<Line>): Option<seq<Tag>>
    decreases |ls|
  {
    if ls == [] then Some(stack)
    else
      match StepTag(stack, ls[0].token)
      case None => None
      case Some(s) => Run(s, ls[1..])
  }

  lemma RunOne(stack: seq<Tag>, l: Line)
    ensures Run(stack, [l]) == StepTag(stack, l.token)
  {
    assert [l][1..] == [];
  }

  /** Running over `a + b` is running over `a`, then over `b`. */
  lemma {:induction false} RunAppend(stack: seq<Tag>, a: seq<Line>, b: seq<Line>)
    ensures Run(stack, a + b) == (match Run(stack, a) case None => None case Some(s) => Run(s, b))
    decreases |a|
  {
    if a == [] {
      assert a + b == b;
    } else {
      assert (a + b)[0] == a[0];
      assert (a + b)[1..] == a[1..] + b;
      match StepTag(stack, a[0].token)
      case None =>
      case Some(s) => RunAppend(s, a[1..], b);
    }
  }

  /** Every tag that is opened is closed, in the reverse order. */
  predicate Balanced(ls: seq<Line>) {
    Run([], ls) == Some([])
  }

  /** The open tags after a page at relative depth `d`: `d + 1` pairs of an
      open `<ul>` with an open `<li>` inside it. `Open(-1)` is nothing. */
  function Open(d: int): (r: seq<Tag>)
    requires d >= -1
    ensures |r| == 2 * (d + 1)
    decreases d + 1
  {
    if d == -1 then [] else Open(d - 1) + [Ul, Li]
  }

  /** Going down one level adds one `<ul>` and, inside it, one `<li>`. */
  lemma OpenSnoc(d: nat)
    ensures Open(d) == Open(d - 1) + [Ul] + [Li]
  {
    assert Open(d - 1) + [Ul] + [Li] == Open(d - 1) + [Ul, Li];
  }

  /** The open tags alternate, a `<ul>` first, so every `<li>` sits
      directly inside a `<ul>`. */
  lemma {:induction false} OpenAlternates(d: int)
    requires d >= -1
    ensures forall k :: 0 <= k < |Open(d)| ==> Open(d)[k] == (if k % 2 == 0 then Ul else Li)
    decreases d + 1
  {
    if d >= 0 {
      OpenAlternates(d - 1);
      var o := Open(d - 1);
      assert Open(d) == o + [Ul, Li];
      forall k | 0 <= k < |Open(d)|
        ensures Open(d)[k] == (if k % 2 == 0 then Ul else Li)
      {
        if k >= |o| {
          assert |o| % 2 == 0;
        }
      }
    }
  }
}
