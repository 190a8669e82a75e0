/** The extraction engine: from the documented entries of a Sphinx page,
    given as its `dl` containers, to 9-field flashcard rows. This is the
    per-container and per-signature part of `extract` in pydocparse.py,
    which is the same in the earlier draft functions.py. */
module Extraction {
  import opened Wrappers
  import opened Dom
  import PyStr

  // ---------------------------------------------------------------------
  // Which containers are collected.
  // ---------------------------------------------------------------------

  /** `classes`: the attribute values of the entry kinds that are collected. */
  const Classes: seq<string> := [
    "data", "function", "class", "attribute", "method", "staticmethod", "describe",
    "exception", "classmethod"
  ]

  /** `sum(1 for v in vs if v not in classes)`: how many values are not one
      of the collected kinds. None of them is iff every value is. */
  function Unknown(vs: seq<string>): (n: nat)
    ensures n <= |vs|
    ensures n == 0 <==> forall i :: 0 <= i < |vs| ==> vs[i] in Classes
  {
    if vs == [] then 0
    else
      assert forall i :: 1 <= i < |vs| ==> vs[i] == vs[1..][i - 1];
      (if vs[0] in Classes then 0 else 1) + Unknown(vs[1..])
  }

  /** The container is processed: no attribute value is unknown. */
  predicate Recognized(dl: Element) {
    Unknown(Values(dl.attrs)) == 0
  }

  /** A container is processed iff the value of every one of its attributes,
      whatever the attribute, is one of the collected kinds; so one without
      attributes is processed. */
  lemma RecognizedIff(dl: Element)
    ensures Recognized(dl) <==> forall i :: 0 <= i < |dl.attrs| ==> dl.attrs[i].value in Classes
    ensures dl.attrs == [] ==> Recognized(dl)
  {
    var vs := Values(dl.attrs);
    assert forall i :: 0 <= i < |dl.attrs| ==> vs[i] == dl.attrs[i].value;
  }

  /** The container has a body: `node(dl, './dd')` finds an element. */
  predicate HasBody(dl: Element) {
    FirstTagged(dl.children, "dd").Some?
  }

  /** `node(dl, './dd')`: the first `dd` child. */
  function Body(dl: Element): (dd: Element)
    requires HasBody(dl)
    ensures dd.tag == "dd"
    ensures exists k :: 0 <= k < |dl.children| && dl.children[k] == dd &&
                        forall j :: 0 <= j < k ==> dl.children[j].tag != "dd"
    ensures dd == ChildrenTagged(dl.children, "dd")[0]
  {
    FirstOfChildrenTagged(dl.children, "dd");
    dl.children[FirstTagged(dl.children, "dd").value]
  }

  // ---------------------------------------------------------------------
  // The description: `node(dd, './p[1]|./blockquote/div/p[1]|./blockquote/div[1]')`.
  // ---------------------------------------------------------------------

  /** Every match of the three alternatives below `dd`, as paths of child
      positions, in document order (the order of an XPath union). */
  function DescriptionMatches(dd: Element): seq<seq<nat>> {
    ChildMatches(dd.children, 0, false)
  }

  /** The matches among the children from position `i` on; `pSeen` says
      whether a `p` child came before, so that `./p[1]` is not this one. */
  function ChildMatches(cs: seq<Element>, i: nat, pSeen: bool): seq<seq<nat>>
    requires i <= |cs|
    decreases |cs| - i
  {
    if i == |cs| then []
    else
      var c := cs[i];
      (if c.tag == "p" && !pSeen then [[i]] else [])
      + (if c.tag == "blockquote" then QuoteMatches(i, c.children, 0, false) else [])
      + ChildMatches(cs, i + 1, pSeen || c.tag == "p")
  }

  /** Within the blockquote at position `i`, from its child `j` on: its first
      `div` (`./blockquote/div[1]`), and the first `p` of each `div`
      (`./blockquote/div/p[1]`), each `div` coming before its own `p`. */
  function QuoteMatches(i: nat, ds: seq<Element>, j: nat, divSeen: bool): seq<seq<nat>>
    requires j <= |ds|
    decreases |ds| - j
  {
    if j == |ds| then []
    else if ds[j].tag == "div" then
      (if !divSeen then [[i, j]] else [])
      + (match FirstTagged(ds[j].children, "p") case Some(k) => [[i, j, k]] case None => [])
      + QuoteMatches(i, ds, j + 1, true)
    else QuoteMatches(i, ds, j + 1, divSeen)
  }

  /** A child that yields the description: a `p`, or a blockquote with a `div`. */
  predicate Describes(c: Element) {
    c.tag == "p" || (c.tag == "blockquote" && FirstTagged(c.children, "div").Some?)
  }

  /** The description of `dd`: the first child that yields one; for a
      blockquote, its first `div`. A `div/p` is never the first match, as
      its `div` comes before it. */
  function Description(dd: Element): (r: Option<seq<nat>>)
    ensures r.Some? ==> Reaches(dd, r.value) && r.value != []
  {
    var r := DescribeFrom(dd.children, 0);
    if r.None? then r
    else
      var path := r.value;
      var c := dd.children[path[0]];
      assert Reaches(c, path[1..]) by {
        if |path| == 2 {
          assert path[1..][0] == path[1] && path[1..][1..] == [];
          assert Reaches(c.children[path[1]], path[1..][1..]);
        } else {
          assert path[1..] == [];
        }
      }
      r
  }

  function DescribeFrom(cs: seq<Element>, i: nat): (r: Option<seq<nat>>)
    requires i <= |cs|
    ensures r.Some? ==> 1 <= |r.value| <= 2 && i <= r.value[0] < |cs| && Describes(cs[r.value[0]])
    ensures r.Some? ==> forall k :: i <= k < r.value[0] ==> !Describes(cs[k])
    ensures r.Some? && |r.value| == 1 ==> cs[r.value[0]].tag == "p"
    ensures r.Some? && |r.value| == 2 ==>
              cs[r.value[0]].tag != "p" && Some(r.value[1]) == FirstTagged(cs[r.value[0]].children, "div")
    ensures r.None? ==> forall k :: i <= k < |cs| ==> !Describes(cs[k])
    decreases |cs| - i
  {
    if i == |cs| then None
    else if cs[i].tag == "p" then Some([i])
    else if cs[i].tag == "blockquote" && FirstTagged(cs[i].children, "div").Some? then
      Some([i, FirstTagged(cs[i].children, "div").value])
    else DescribeFrom(cs, i + 1)
  }

  /** `node` of the union yields `Description`: the first match in document
      order, or nothing when there is no match. */
  lemma DescriptionIsFirstMatch(dd: Element)
    ensures var ms := DescriptionMatches(dd);
            Description(dd) == if ms == [] then None else Some(ms[0])
  {
    DescribeFromFirst(dd.children, 0);
  }

  lemma {:induction false} DescribeFromFirst(cs: seq<Element>, i: nat)
    requires i <= |cs|
    ensures var ms := ChildMatches(cs, i, false);
            DescribeFrom(cs, i) == if ms == [] then None else Some(ms[0])
    decreases |cs| - i
  {
    if i < |cs| {
      var c := cs[i];
      if c.tag == "p" {
      } else if c.tag == "blockquote" {
        match FirstTagged(c.children, "div")
        case Some(j) =>
          QuoteFirst(i, c.children, 0, j);
        case None =>
          QuoteNone(i, c.children, 0);
          DescribeFromFirst(cs, i + 1);
      } else {
        DescribeFromFirst(cs, i + 1);
      }
    }
  }

  lemma {:induction false} QuoteFirst(i: nat, ds: seq<Element>, j: nat, first: nat)
    requires j <= first < |ds| && ds[first].tag == "div"
    requires forall k :: j <= k < first ==> ds[k].tag != "div"
    ensures QuoteMatches(i, ds, j, false) != [] && QuoteMatches(i, ds, j, false)[0] == [i, first]
    decreases first - j
  {
    if j < first {
      QuoteFirst(i, ds, j + 1, first);
    }
  }

  lemma {:induction false} QuoteNone(i: nat, ds: seq<Element>, j: nat)
    requires j <= |ds| && forall k :: j <= k < |ds| ==> ds[k].tag != "div"
    ensures QuoteMatches(i, ds, j, false) == []
    decreases |ds| - j
  {
    if j < |ds| {
      QuoteNone(i, ds, j + 1);
    }
  }

  // ---------------------------------------------------------------------
  // The parameters of a signature.
  // ---------------------------------------------------------------------

  predicate IsParen(e: Element) {
    Is(e, "span", "sig-paren")
  }

  /** `dt.xpath('.//span[@class="sig-paren"]')` is not empty. */
  predicate HasSigParen(dt: Element) {
    FirstBelow(dt.children, "span", "sig-paren").Some?
  }

  /** The position of the first `sig-paren` among `cs` from `from` on. */
  function NextParen(cs: seq<Element>, from: nat): (r: Option<nat>)
    requires from <= |cs|
    ensures r.Some? ==> from <= r.value < |cs|
    decreases |cs| - from
  {
    if from == |cs| then None
    else if IsParen(cs[from]) then Some(from)
    else NextParen(cs, from + 1)
  }

  /** `NextParen` finds the first `sig-paren` from `from` on, and finds
      nothing only when there is none. */
  lemma {:induction false} NextParenSpec(cs: seq<Element>, from: nat)
    requires from <= |cs|
    ensures var r := NextParen(cs, from);
            (r.Some? ==> IsParen(cs[r.value]) && forall k :: from <= k < r.value ==> !IsParen(cs[k])) &&
            (r.None? ==> forall k :: from <= k < |cs| ==> !IsParen(cs[k]))
    decreases |cs| - from
  {
    if from < |cs| && !IsParen(cs[from]) {
      NextParenSpec(cs, from + 1);
    }
  }

  /** Among the children `cs` of one element: the first `sig-paren`
      (`span[@class="sig-paren"][1]`) and the next one after it
      (`following-sibling::span[@class="sig-paren"][1]`). */
  function ParenRange(cs: seq<Element>): (r: Option<(nat, nat)>)
    ensures r.Some? ==> r.value.0 < r.value.1 < |cs|
  {
    match NextParen(cs, 0)
    case None => None
    case Some(a) =>
      match NextParen(cs, a + 1)
      case None => None
      case Some(b) => Some((a, b))
  }

  /** The range is the first two `sig-paren` children, with none between
      or before them; there is no range only when fewer than two children
      are `sig-paren` spans. */
  lemma ParenRangeSpec(cs: seq<Element>)
    ensures var r := ParenRange(cs);
            (r.Some? ==> IsParen(cs[r.value.0]) && IsParen(cs[r.value.1]) &&
                         forall k :: 0 <= k < r.value.1 && k != r.value.0 ==> !IsParen(cs[k])) &&
            (r.None? ==> forall a, b :: 0 <= a < b < |cs| ==> !(IsParen(cs[a]) && IsParen(cs[b])))
  {
    NextParenSpec(cs, 0);
    match NextParen(cs, 0)
    case None =>
    case Some(a) =>
      NextParenSpec(cs, a + 1);
  }

  /** The nodes `opts_e` of
      `.//span[@class="sig-paren"][1]/following-sibling::span[@class="sig-paren"][1]/preceding-sibling::node()[preceding-sibling::span[@class="sig-paren"]]`
      below `e`, in document order. Under every element of the subtree (`e`
      included) whose children hold two `sig-paren` spans, they are the
      sibling nodes strictly between the first one and the next: elements
      and the non-empty text nodes that are their tails. */
  function SigNodes(e: Element): seq<Arg>
    decreases e, 1
  {
    SigNodesFrom(e.children, ParenRange(e.children), 0)
  }

  function SigNodesFrom(cs: seq<Element>, range: Option<(nat, nat)>, k: nat): seq<Arg>
    requires k <= |cs|
    decreases cs, 0, |cs| - k
  {
    if k == |cs| then []
    else
      var c := cs[k];
      var inside := range.Some? && range.value.0 < k < range.value.1;
      var tailInside := range.Some? && range.value.0 <= k < range.value.1 && c.tail != "";
      (if inside then [Elem(c)] else [])
      + SigNodes(c)
      + (if tailInside then [Str(c.tail)] else [])
      + SigNodesFrom(cs, range, k + 1)
  }

  /** The text node that is the tail of `c`, if it is not empty. */
  function TailNode(c: Element): seq<Arg> {
    if c.tail != "" then [Str(c.tail)] else []
  }

  /** The sibling nodes strictly between positions `a` and `b` of `cs`. */
  function Between(cs: seq<Element>, a: nat, b: nat): seq<Arg>
    requires a < b <= |cs|
  {
    TailNode(cs[a]) + BetweenFrom(cs, a + 1, b)
  }

  function BetweenFrom(cs: seq<Element>, k: nat, b: nat): seq<Arg>
    requires k <= b <= |cs|
    decreases b - k
  {
    if k == b then [] else [Elem(cs[k])] + TailNode(cs[k]) + BetweenFrom(cs, k + 1, b)
  }

  /** Nothing below `cs`, and none of `cs`, is a `sig-paren`. */
  lemma {:induction false} NoParenBelow(cs: seq<Element>)
    requires FirstBelow(cs, "span", "sig-paren").None?
    ensures forall k :: 0 <= k < |cs| ==> !IsParen(cs[k]) && FirstBelow(cs[k].children, "span", "sig-paren").None?
  {
    if cs != [] {
      NoParenBelow(cs[1..]);
      assert forall k :: 1 <= k < |cs| ==> cs[k] == cs[1..][k - 1];
    }
  }

  /** Without a `sig-paren` below it, an element has no parameter nodes. */
  lemma {:induction false} NoParenNoNodes(e: Element)
    requires FirstBelow(e.children, "span", "sig-paren").None?
    ensures SigNodes(e) == []
    decreases e, 1
  {
    NoParenBelow(e.children);
    NoParenNoNodesFrom(e.children, 0);
  }

  lemma {:induction false} NoParenNoNodesFrom(cs: seq<Element>, k: nat)
    requires k <= |cs|
    requires forall i :: 0 <= i < |cs| ==> !IsParen(cs[i]) && FirstBelow(cs[i].children, "span", "sig-paren").None?
    ensures SigNodesFrom(cs, ParenRange(cs), k) == []
    decreases cs, 0, |cs| - k
  {
    if k < |cs| {
      assert ParenRange(cs).None? by {
        NextParenSpec(cs, 0);
      }
      NoParenNoNodes(cs[k]);
      NoParenNoNodesFrom(cs, k + 1);
    }
  }

  /** One step of `SigNodesFrom` over a child with no `sig-paren` below it
      that lies outside the range: it contributes nothing. */
  lemma SigNodesSkip(cs: seq<Element>, a: nat, b: nat, k: nat)
    requires k < |cs| && (k < a || b <= k)
    requires FirstBelow(cs[k].children, "span", "sig-paren").None?
    ensures SigNodesFrom(cs, Some((a, b)), k) == SigNodesFrom(cs, Some((a, b)), k + 1)
  {
    NoParenNoNodes(cs[k]);
  }

  /** The step at the first `sig-paren`: only its tail counts. */
  lemma SigNodesOpen(cs: seq<Element>, a: nat, b: nat)
    requires a < b <= |cs|
    requires FirstBelow(cs[a].children, "span", "sig-paren").None?
    ensures SigNodesFrom(cs, Some((a, b)), a) == TailNode(cs[a]) + SigNodesFrom(cs, Some((a, b)), a + 1)
  {
    NoParenNoNodes(cs[a]);
  }

  /** A step strictly inside the range: the child and its tail count. */
  lemma SigNodesKeep(cs: seq<Element>, a: nat, b: nat, k: nat)
    requires a < k < b <= |cs|
    requires FirstBelow(cs[k].children, "span", "sig-paren").None?
    ensures SigNodesFrom(cs, Some((a, b)), k) == [Elem(cs[k])] + TailNode(cs[k]) + SigNodesFrom(cs, Some((a, b)), k + 1)
  {
    NoParenNoNodes(cs[k]);
  }

  /** In the common case, where the spans hold no signature of their own,
      the parameter nodes are exactly the sibling nodes between the first
      `sig-paren` child of the signature and the next one. */
  lemma SigNodesBetween(dt: Element)
    requires ParenRange(dt.children).Some?
    requires forall k :: 0 <= k < |dt.children| ==> FirstBelow(dt.children[k].children, "span", "sig-paren").None?
    ensures var r := ParenRange(dt.children).value;
            SigNodes(dt) == Between(dt.children, r.0, r.1)
  {
    var cs := dt.children;
    var (a, b) := ParenRange(cs).value;
    var r := Some((a, b));
    assert SigNodes(dt) == SigNodesFrom(cs, r, 0);
    calc {
      SigNodesFrom(cs, r, 0);
    == { SigNodesBefore(cs, a, b, 0); }
      SigNodesFrom(cs, r, a);
    == { SigNodesOpen(cs, a, b); }
      TailNode(cs[a]) + SigNodesFrom(cs, r, a + 1);
    == { SigNodesInside(cs, a, b, a + 1); }
      TailNode(cs[a]) + (BetweenFrom(cs, a + 1, b) + SigNodesFrom(cs, r, b));
    == { SigNodesAfter(cs, a, b, b); assert BetweenFrom(cs, a + 1, b) + [] == BetweenFrom(cs, a + 1, b); }
      TailNode(cs[a]) + BetweenFrom(cs, a + 1, b);
    }
  }

  lemma {:induction false} SigNodesBefore(cs: seq<Element>, a: nat, b: nat, k: nat)
    requires k <= a < b < |cs|
    requires forall i :: 0 <= i < |cs| ==> FirstBelow(cs[i].children, "span", "sig-paren").None?
    ensures SigNodesFrom(cs, Some((a, b)), k) == SigNodesFrom(cs, Some((a, b)), a)
    decreases a - k
  {
    if k < a {
      var r := Some((a, b));
      calc {
        SigNodesFrom(cs, r, k);
      == { SigNodesSkip(cs, a, b, k); }
        SigNodesFrom(cs, r, k + 1);
      == { SigNodesBefore(cs, a, b, k + 1); }
        SigNodesFrom(cs, r, a);
      }
    }
  }

  lemma {:induction false} SigNodesInside(cs: seq<Element>, a: nat, b: nat, k: nat)
    requires a < k <= b < |cs|
    requires forall i :: 0 <= i < |cs| ==> FirstBelow(cs[i].children, "span", "sig-paren").None?
    ensures SigNodesFrom(cs, Some((a, b)), k) == BetweenFrom(cs, k, b) + SigNodesFrom(cs, Some((a, b)), b)
    decreases b - k
  {
    if k < b {
      var r := Some((a, b));
      calc {
        SigNodesFrom(cs, r, k);
      == { SigNodesKeep(cs, a, b, k); }
        [Elem(cs[k])] + TailNode(cs[k]) + SigNodesFrom(cs, r, k + 1);
      == { SigNodesInside(cs, a, b, k + 1); }
        [Elem(cs[k])] + TailNode(cs[k]) + (BetweenFrom(cs, k + 1, b) + SigNodesFrom(cs, r, b));
      ==
        BetweenFrom(cs, k, b) + SigNodesFrom(cs, r, b);
      }
    }
  }

  lemma {:induction false} SigNodesAfter(cs: seq<Element>, a: nat, b: nat, k: nat)
    requires a < b <= k <= |cs|
    requires forall i :: 0 <= i < |cs| ==> FirstBelow(cs[i].children, "span", "sig-paren").None?
    ensures SigNodesFrom(cs, Some((a, b)), k) == []
    decreases |cs| - k
  {
    if k < |cs| {
      assert SigNodesFrom(cs, Some((a, b)), k) == SigNodesFrom(cs, Some((a, b)), k + 1) by {
        SigNodesSkip(cs, a, b, k);
      }
      assert SigNodesFrom(cs, Some((a, b)), k + 1) == [] by {
        SigNodesAfter(cs, a, b, k + 1);
      }
    }
  }

  // ---------------------------------------------------------------------
  // The parts of one signature.
  // ---------------------------------------------------------------------

  /** `tostring(opts_e)`: the parameter nodes rendered one after the other. */
  function Params(dt: Element): string {
    ToString(Items(SigNodes(dt)), Html)
  }

  /** `opts`: the parameters in `<em>`, recovering `()` for a signature with
      parentheses and nothing between them; `''` without any. */
  function Opts(dt: Element): string {
    var raw := Params(dt);
    var recovered := if HasSigParen(dt) && raw == "" then "()" else raw;
    if recovered != "" then "<em>" + recovered + "</em>" else recovered
  }

  /** `opts_t`: `tostring(opts_e, 'text')` in parentheses when there are
      `opts`. The method does not reach the items, so this is HTML too. */
  function OptsT(dt: Element): string {
    if Opts(dt) != "" then "(" + ToString(Items(SigNodes(dt)), Text) + ")" else ""
  }

  /** `dt_prop`, `dt_class` and `dt_name`: the first text node of the
      property, class-name and name markers, or `''`. */
  function Prop(dt: Element): string {
    TextBelow(dt, "em", "property")
  }

  function ClassName(dt: Element): string {
    TextBelow(dt, "code", "descclassname")
  }

  function Name(dt: Element): string {
    TextBelow(dt, "code", "descname")
  }

  function Front(dt: Element): string {
    ClassName(dt) + Name(dt) + OptsT(dt)
  }

  function AltFront(dt: Element): string {
    "<code>" + Name(dt) + (if Opts(dt) != "" then "()" else "") + "</code>"
  }

  /** `lbl`: derived from the class name when there is one, else the page's. */
  function Label(pageLabel: string, dt: Element): string {
    var cls := ClassName(dt);
    if cls != "" then "Python <code>" + PyStr.StripChars(cls, {'.'}) + "</code> prop" else pageLabel
  }

  /** `back.replace(dt_name, '<strike>' + dt_name + '</strike>')`. */
  function Strike(back: string, name: string): string {
    PyStr.Replace(back, name, "<strike>" + name + "</strike>")
  }

  /** What the signature prepends to `other`: its block when it has `opts`. */
  function Block(dt: Element): string {
    if Opts(dt) != "" then "<p>" + Prop(dt) + "<code>" + Front(dt) + Opts(dt) + "</code></p>" else ""
  }

  /** `opts` is empty iff the signature has neither a `sig-paren` nor
      parameters; otherwise it is the parameters, or `()`, in `<em>`. */
  lemma OptsCases(dt: Element)
    ensures Opts(dt) != "" <==> HasSigParen(dt) || Params(dt) != ""
    ensures Opts(dt) != "" ==>
      Opts(dt) == "<em>" + (if Params(dt) == "" then "()" else Params(dt)) + "</em>"
    ensures OptsT(dt) == if Opts(dt) != "" then "(" + Params(dt) + ")" else ""
  {
    SequenceIgnoresMethod(SigNodes(dt), Text);
  }

  /** A signature without a `sig-paren` has no `opts`: its front is the class
      and the name, its alternative front the bare name, and it adds no
      block to `other`. */
  lemma NoParenSignature(dt: Element)
    requires !HasSigParen(dt)
    ensures Params(dt) == "" && Opts(dt) == "" && OptsT(dt) == ""
    ensures Front(dt) == ClassName(dt) + Name(dt)
    ensures AltFront(dt) == "<code>" + Name(dt) + "</code>"
    ensures Block(dt) == ""
  {
    NoParenNoNodes(dt);
    assert ClassName(dt) + Name(dt) + "" == ClassName(dt) + Name(dt);
  }

  /** Parentheses with nothing between them give `opts == '<em>()</em>'`
      and `opts_t == '()'`. */
  lemma EmptySignature(dt: Element)
    requires HasSigParen(dt) && Params(dt) == ""
    ensures Opts(dt) == "<em>()</em>" && OptsT(dt) == "()"
    ensures AltFront(dt) == "<code>" + Name(dt) + "()</code>"
  {
    OptsCases(dt);
  }

  /** The alternative front ends in `()` iff there are `opts`. */
  lemma AltFrontParens(dt: Element)
    ensures Opts(dt) != "" <==> AltFront(dt) == "<code>" + Name(dt) + "()</code>"
    ensures Opts(dt) == "" <==> AltFront(dt) == "<code>" + Name(dt) + "</code>"
  {
    CodeParens(Name(dt));
  }

  lemma CodeParens(n: string)
    ensures "<code>" + n + "()</code>" != "<code>" + n + "</code>"
  {
    assert |"<code>" + n + "()</code>"| != |"<code>" + n + "</code>"|;
  }

  /** The label is the page's when there is no class name, and otherwise
      names the class without the dots at either end. */
  lemma LabelRule(pageLabel: string, dt: Element)
    ensures ClassName(dt) == "" ==> Label(pageLabel, dt) == pageLabel
    ensures ClassName(dt) != "" ==>
      var c := PyStr.StripChars(ClassName(dt), {'.'});
      Label(pageLabel, dt) == "Python <code>" + c + "</code> prop" &&
      (c != [] ==> c[0] != '.' && c[|c| - 1] != '.')
  {
    var cls := ClassName(dt);
    if cls != "" {
      PyStr.StripCharsIsMiddle(cls, {'.'});
    }
  }

  // ---------------------------------------------------------------------
  // Rows.
  // ---------------------------------------------------------------------

  /** A row of `results`: `[front, lbl, back, None, other, 'reverse',
      altfront, url, 'python']`. */
  datatype Row = Row(
    front: string, lbl: string, back: string, reserved: Option<string>, other: string,
    mode: string, altfront: string, url: string, lang: string)

  /** What the `for dt` loop computes from one signature on its own,
      before `back` and `other` come in. */
  datatype Sig = Sig(front: string, lbl: string, altfront: string, name: string, block: string)

  function SigOf(pageLabel: string, dt: Element): Sig {
    Sig(Front(dt), Label(pageLabel, dt), AltFront(dt), Name(dt), Block(dt))
  }

  /** The parts of every signature of `dts`, in order. */
  function Sigs(pageLabel: string, dts: seq<Element>): (r: seq<Sig>)
    ensures |r| == |dts|
    ensures forall k :: 0 <= k < |dts| ==> r[k] == SigOf(pageLabel, dts[k])
  {
    seq(|dts|, k requires 0 <= k < |dts| => SigOf(pageLabel, dts[k]))
  }

  /** The row emitted for a signature with the given `back` and `other`. */
  function RowOf(url: string, s: Sig, back: string, other: string): Row {
    Row(s.front, s.lbl, back, None, other, "reverse", s.altfront, url, "python")
  }

  /** `back` once every name of `sigs` has been struck, in order. */
  function Struck(back: string, sigs: seq<Sig>): string
    decreases |sigs|
  {
    if sigs == [] then back else Strike(Struck(back, sigs[..|sigs| - 1]), sigs[|sigs| - 1].name)
  }

  /** The blocks of `sigs`, the last signature first. */
  function Blocks(sigs: seq<Sig>): string
    decreases |sigs|
  {
    if sigs == [] then "" else sigs[|sigs| - 1].block + Blocks(sigs[..|sigs| - 1])
  }

  /** The rows of the `for dt` loop over the signatures of one container,
      starting from `back` and `other`: one row per signature, in order; the
      row of the `k`-th carries `back` with the names of that signature and
      of all before it struck, and `other` with their blocks prepended, the
      latest first. */
  function SigRows(url: string, sigs: seq<Sig>, back: string, other: string): (rows: seq<Row>)
    ensures |rows| == |sigs|
  {
    seq(|sigs|, k requires 0 <= k < |sigs| =>
      RowOf(url, sigs[k], Struck(back, sigs[..k + 1]), Blocks(sigs[..k + 1]) + other))
  }

  /** `back` and `other` are threaded through the signatures rather than
      reset: the first row strikes the first name in the container's `back`
      and prepends the first block to its `other`, and every later row does
      the same to what the row before it carries. */
  lemma SigRowsThread(url: string, sigs: seq<Sig>, back: string, other: string)
    ensures var rows := SigRows(url, sigs, back, other);
            (sigs != [] ==> rows[0].back == Strike(back, sigs[0].name) && rows[0].other == sigs[0].block + other) &&
            forall k :: 0 < k < |sigs| ==>
              rows[k].back == Strike(rows[k - 1].back, sigs[k].name) &&
              rows[k].other == sigs[k].block + rows[k - 1].other
  {
    var rows := SigRows(url, sigs, back, other);
    if sigs != [] {
      assert rows[0].back == Strike(back, sigs[0].name) by {
        StruckStep(back, sigs, 0);
        assert sigs[..0] == [];
      }
      assert rows[0].other == sigs[0].block + other by {
        BlocksStep(sigs, 0);
        assert sigs[..0] == [] && sigs[0].block + "" == sigs[0].block;
      }
    }
    forall k | 0 < k < |sigs|
      ensures rows[k].back == Strike(rows[k - 1].back, sigs[k].name)
      ensures rows[k].other == sigs[k].block + rows[k - 1].other
    {
      StruckStep(back, sigs, k);
      BlocksStep(sigs, k);
      PyStr.Regroup(sigs[k].block, Blocks(sigs[..k]), other);
    }
  }

  lemma StruckStep(back: string, sigs: seq<Sig>, j: nat)
    requires j < |sigs|
    ensures Struck(back, sigs[..j + 1]) == Strike(Struck(back, sigs[..j]), sigs[j].name)
  {
    assert sigs[..j + 1][..j] == sigs[..j];
  }

  lemma BlocksStep(sigs: seq<Sig>, j: nat)
    requires j < |sigs|
    ensures Blocks(sigs[..j + 1]) == sigs[j].block + Blocks(sigs[..j])
  {
    assert sigs[..j + 1][..j] == sigs[..j];
  }

  /** The rows of one more signature are the rows before it and its own,
      which carries `back` and `other` as the previous rows left them with
      its own name struck and its own block prepended. */
  lemma SigRowsExtend(url: string, sigs: seq<Sig>, j: nat, back: string, other: string)
    requires j < |sigs|
    ensures SigRows(url, sigs[..j + 1], back, other) ==
      SigRows(url, sigs[..j], back, other) +
      [RowOf(url, sigs[j], Strike(Struck(back, sigs[..j]), sigs[j].name), sigs[j].block + (Blocks(sigs[..j]) + other))]
  {
    var p := SigRows(url, sigs[..j + 1], back, other);
    var q := SigRows(url, sigs[..j], back, other);
    forall k | 0 <= k < j
      ensures p[k] == q[k]
    {
      SigRowsAgree(url, sigs, j, k, back, other);
    }
    assert p[j] == RowOf(url, sigs[j], Strike(Struck(back, sigs[..j]), sigs[j].name), sigs[j].block + (Blocks(sigs[..j]) + other)) by {
      SigRowsLast(url, sigs, j, back, other);
    }
  }

  lemma SigRowsAgree(url: string, sigs: seq<Sig>, j: nat, k: nat, back: string, other: string)
    requires k < j < |sigs|
    ensures SigRows(url, sigs[..j + 1], back, other)[k] == SigRows(url, sigs[..j], back, other)[k]
  {
    assert sigs[..j + 1][..k + 1] == sigs[..j][..k + 1];
  }

  lemma SigRowsLast(url: string, sigs: seq<Sig>, j: nat, back: string, other: string)
    requires j < |sigs|
    ensures SigRows(url, sigs[..j + 1], back, other)[j] ==
      RowOf(url, sigs[j], Strike(Struck(back, sigs[..j]), sigs[j].name), sigs[j].block + (Blocks(sigs[..j]) + other))
  {
    assert sigs[..j + 1][..j + 1] == sigs[..j + 1];
    StruckStep(back, sigs, j);
    BlocksStep(sigs, j);
    PyStr.Regroup(sigs[j].block, Blocks(sigs[..j]), other);
  }

  /** Every row has the fixed constants at positions 3, 5, 7 and 8, and the
      front, label and alternative front of its own signature. */
  lemma RowConstants(url: string, sigs: seq<Sig>, back: string, other: string)
    ensures var rows := SigRows(url, sigs, back, other);
            forall k :: 0 <= k < |rows| ==>
              rows[k].reserved == None && rows[k].mode == "reverse" &&
              rows[k].url == url && rows[k].lang == "python" &&
              rows[k].front == sigs[k].front && rows[k].lbl == sigs[k].lbl && rows[k].altfront == sigs[k].altfront
  {
  }

  /** A name that does not occur in `back` leaves it unchanged; one that
      does lengthens it. */
  lemma StrikeEffect(back: string, name: string)
    requires name != ""
    ensures !PyStr.Occurs(back, name) ==> Strike(back, name) == back
    ensures PyStr.Occurs(back, name) ==> |Strike(back, name)| > |back|
  {
    if PyStr.Occurs(back, name) {
      PyStr.ReplaceGrows(back, name, "<strike>" + name + "</strike>");
    } else {
      PyStr.ReplaceAbsent(back, name, "<strike>" + name + "</strike>");
    }
  }

  /** The strike-through works from the left: the first occurrence of the
      name is wrapped in `<strike>`, and the scan goes on after it. */
  lemma StrikeFirst(x: string, name: string, y: string)
    requires name != ""
    requires forall i :: 0 <= i < |x| ==> !PyStr.OccursAt(x + name + y, name, i)
    ensures Strike(x + name + y, name) == x + "<strike>" + name + "</strike>" + Strike(y, name)
  {
    PyStr.ReplaceFirst(x, name, y, "<strike>" + name + "</strike>");
    PyStr.Regroup(x, "<strike>" + name + "</strike>", Strike(y, name));
    assert "<strike>" + name + "</strike>" == "<strike>" + (name + "</strike>");
    assert x + ("<strike>" + name + "</strike>") == x + "<strike>" + name + "</strike>";
  }

  // ---------------------------------------------------------------------
  // Containers and pages.
  // ---------------------------------------------------------------------

  /** The `back` and `other` a container starts its signatures with, or
      nothing when it is skipped: when it is not recognized, has no
      description, or its description has no child element (`len(back_e)`
      in pydocparse.py, the element's truth value in functions.py). */
  function Prepare(dl: Element): Option<(string, string)>
    requires Recognized(dl) ==> HasBody(dl)
  {
    if !Recognized(dl) then None
    else
      var dd := Body(dl);
      match Description(dd)
      case None => None
      case Some(path) =>
        var desc := At(dd, path);
        if |desc.children| == 0 then None
        else
          var dd' := DropAt(dd, path);
          Some((ToString(Elem(desc), Html), ToString(Items(ElemsOf(dd'.children)), Html)))
  }

  /** The signatures of a container: `dl.xpath('./dt')`. */
  function Signatures(dl: Element): seq<Element> {
    ChildrenTagged(dl.children, "dt")
  }

  /** The rows a container contributes. */
  function ContainerRows(pageLabel: string, url: string, dl: Element): seq<Row>
    requires Recognized(dl) ==> HasBody(dl)
  {
    match Prepare(dl)
    case None => []
    case Some(bo) => SigRows(url, Sigs(pageLabel, Signatures(dl)), bo.0, bo.1)
  }

  /** The rows of a page, container after container. */
  function PageRows(pageLabel: string, url: string, dls: seq<Element>): seq<Row>
    requires forall i :: 0 <= i < |dls| ==> Recognized(dls[i]) ==> HasBody(dls[i])
    decreases |dls|
  {
    if dls == [] then []
    else PageRows(pageLabel, url, dls[..|dls| - 1]) + ContainerRows(pageLabel, url, dls[|dls| - 1])
  }

  /** A container is skipped exactly when it is not recognized, the union
      of the description's alternatives matches nothing in its body, or the
      first match (in document order) has no child element. Otherwise
      `back` is the stripped rendering of that first match, and `other`
      the stripped renderings, one after the other, of the body's children
      once the match is dropped (the body's own leading text is not part
      of it). */
  lemma PrepareSpec(dl: Element)
    requires Recognized(dl) ==> HasBody(dl)
    ensures Recognized(dl) && DescriptionMatches(Body(dl)) != [] ==>
      DescriptionMatches(Body(dl))[0] != [] && Reaches(Body(dl), DescriptionMatches(Body(dl))[0])
    ensures Prepare(dl).None? <==>
      !Recognized(dl) || DescriptionMatches(Body(dl)) == [] ||
      |At(Body(dl), DescriptionMatches(Body(dl))[0]).children| == 0
    ensures Prepare(dl).Some? ==>
      var dd := Body(dl);
      var path := DescriptionMatches(dd)[0];
      Prepare(dl).value.0 == ElementString(At(dd, path), Html) &&
      Prepare(dl).value.1 == ElementsString(DropAt(dd, path).children)
  {
    if Recognized(dl) {
      DescriptionIsFirstMatch(Body(dl));
    }
    if Prepare(dl).Some? {
      var dd := Body(dl);
      var path := Description(dd).value;
      ItemsOfElements(DropAt(dd, path).children);
    }
  }

  /** `other` of a processed container, in terms of its description. */
  lemma PrepareOther(dl: Element)
    requires Recognized(dl) ==> HasBody(dl)
    requires Prepare(dl).Some?
    ensures Recognized(dl) && Description(Body(dl)).Some?
    ensures Prepare(dl).value.1 == ElementsString(DropAt(Body(dl), Description(Body(dl)).value).children)
  {
    ItemsOfElements(DropAt(Body(dl), Description(Body(dl)).value).children);
  }

  /** When the description is a `p` child of the body, the body's children
      left are the others in order; the `p`'s tail moves to the end of the
      tail of the child before it (or to the body's text, which is not
      rendered, when the `p` is the first child). */
  lemma ParagraphOther(dd: Element)
    requires Description(dd).Some? && |Description(dd).value| == 1
    ensures var cs := dd.children;
            var i := Description(dd).value[0];
            i < |cs| && cs[i].tag == "p" &&
            DropAt(dd, Description(dd).value).children ==
              if i == 0 then cs[1..]
              else cs[..i - 1] + [cs[i - 1].(tail := cs[i - 1].tail + cs[i].tail)] + cs[i + 1..]
  {
    var cs := dd.children;
    var path := Description(dd).value;
    var i := path[0];
    assert cs[i].tag == "p" by {
      assert Description(dd) == DescribeFrom(cs, 0);
    }
    assert path == [i];
    DropChildChildren(dd, i);
  }

  /** When the description is the first `div` of a blockquote child of the
      body, the body's children render in order, that blockquote rendered
      without the `div`'s markup and content but with the `div`'s tail. */
  lemma QuoteOther(dd: Element)
    requires Description(dd).Some? && |Description(dd).value| == 2
    ensures var cs := dd.children;
            var i := Description(dd).value[0];
            var j := Description(dd).value[1];
            i < |cs| && j < |cs[i].children| &&
            var q := cs[i];
            ElementsString(DropAt(dd, Description(dd).value).children) ==
              ElementsString(cs[..i]) +
              PyStr.Strip(StartTag(q, Html) + q.text + SerializeAll(q.children[..j], Html) + q.children[j].tail
                          + SerializeAll(q.children[j + 1..], Html) + EndTag(q, Html) + q.tail) +
              ElementsString(cs[i + 1..])
  {
    var path := Description(dd).value;
    QuoteDescription(dd);
    assert path == [path[0], path[1]];
    DropGrandchildString(dd, path[0], path[1]);
  }

  /** A two-step description path leads to the first `div` of a blockquote. */
  lemma QuoteDescription(dd: Element)
    requires Description(dd).Some? && |Description(dd).value| == 2
    ensures var path := Description(dd).value;
            var q := dd.children[path[0]];
            q.tag == "blockquote" && Some(path[1]) == FirstTagged(q.children, "div") && path[1] < |q.children|
  {
    assert Description(dd) == DescribeFrom(dd.children, 0);
  }

  /** A processed container contributes one row per signature, in order,
      and a skipped one none. */
  lemma ContainerRowsCount(pageLabel: string, url: string, dl: Element)
    requires Recognized(dl) ==> HasBody(dl)
    ensures Prepare(dl).None? ==> ContainerRows(pageLabel, url, dl) == []
    ensures Prepare(dl).Some? ==> |ContainerRows(pageLabel, url, dl)| == |Signatures(dl)|
  {
  }

  // ---------------------------------------------------------------------
  // `extract(results, label, url, xpath)`.
  // ---------------------------------------------------------------------

  /** The loops of `extract` over the containers `dls` its XPath selects
      from the page, once the page's links are replaced: the rows of the
      page are appended to `results`. */
  method Extract(results: seq<Row>, pageLabel: string, url: string, dls: seq<Element>) returns (out: seq<Row>)
    requires forall i :: 0 <= i < |dls| ==> Recognized(dls[i]) ==> HasBody(dls[i])
    ensures out == results + PageRows(pageLabel, url, dls)
  {
    out := results;
    for i := 0 to |dls|
      invariant out == results + PageRows(pageLabel, url, dls[..i])
    {
      ghost var before := out;
      out := ExtractContainer(out, pageLabel, url, dls[i]);
      PageRowsStep(pageLabel, url, dls, i);
      RowsAssoc(results, PageRows(pageLabel, url, dls[..i]), ContainerRows(pageLabel, url, dls[i]));
    }
    assert dls[..|dls|] == dls;
  }

  /** The body of the `for dl` loop: the rows of one container are
      appended, or none when it is skipped. */
  method ExtractContainer(results: seq<Row>, pageLabel: string, url: string, dl: Element) returns (out: seq<Row>)
    requires Recognized(dl) ==> HasBody(dl)
    ensures out == results + ContainerRows(pageLabel, url, dl)
  {
    out := results;
    assert results + [] == results;
    if Unknown(Values(dl.attrs)) > 0 {
      assert Prepare(dl).None? by { RecognizedIff(dl); }
      return;
    }
    assert Recognized(dl) by { RecognizedIff(dl); }
    var dd := Body(dl);
    var path := Description(dd);
    if path.None? {
      return;
    }
    var backE := At(dd, path.value);
    if |backE.children| == 0 {
      return;
    }
    var back := ToString(Elem(backE), Html);
    dd := DropAt(dd, path.value);
    var other := ToString(Items(ElemsOf(dd.children)), Html);
    assert Prepare(dl) == Some((back, other));
    ghost var back0, other0 := back, other;
    var dts := ChildrenTagged(dl.children, "dt");
    ghost var sigs := Sigs(pageLabel, dts);
    for j := 0 to |dts|
      invariant out == results + SigRows(url, sigs[..j], back0, other0)
      invariant back == Struck(back0, sigs[..j]) && other == Blocks(sigs[..j]) + other0
    {
      var dt := dts[j];
      var row;
      ghost var rows := SigRows(url, sigs[..j], back0, other0);
      row, back, other := SignatureRow(pageLabel, url, dt, back, other);
      assert sigs[j] == SigOf(pageLabel, dt);
      SigRowsExtend(url, sigs, j, back0, other0);
      StruckStep(back0, sigs, j);
      BlocksStep(sigs, j);
      PyStr.Regroup(sigs[j].block, Blocks(sigs[..j]), other0);
      RowsAssoc(results, rows, [row]);
      out := out + [row];
    }
    assert sigs[..|dts|] == sigs;
  }

  /** The body of the `for dt` loop: the row of one signature, with `back`
      and `other` as they are after it. */
  method SignatureRow(pageLabel: string, url: string, dt: Element, back: string, other: string)
    returns (row: Row, back': string, other': string)
    ensures var s := SigOf(pageLabel, dt);
            back' == Strike(back, s.name) && other' == s.block + other && row == RowOf(url, s, back', other')
  {
    var opts := ToString(Items(SigNodes(dt)), Html);
    if HasSigParen(dt) && opts == "" {
      opts := "()";
    }
    opts := if opts != "" then "<em>" + opts + "</em>" else opts;
    var optsT := if opts != "" then "(" + ToString(Items(SigNodes(dt)), Text) + ")" else "";
    var prop := TextBelow(dt, "em", "property");
    var cls := TextBelow(dt, "code", "descclassname");
    var name := TextBelow(dt, "code", "descname");
    back' := PyStr.Replace(back, name, "<strike>" + name + "</strike>");
    var front := cls + name + optsT;
    var altfront := "<code>" + name + (if opts != "" then "()" else "") + "</code>";
    var lbl;
    if cls != "" {
      lbl := "Python <code>" + PyStr.StripChars(cls, {'.'}) + "</code> prop";
    } else {
      lbl := pageLabel;
    }
    other' := other;
    if opts != "" {
      other' := "<p>" + prop + "<code>" + front + opts + "</code></p>" + other';
    }
    row := Row(front, lbl, back', None, other', "reverse", altfront, url, "python");
    assert opts == Opts(dt) && optsT == OptsT(dt);
    assert front == Front(dt) && altfront == AltFront(dt) && lbl == Label(pageLabel, dt);
    assert back' == Strike(back, name) && other' == Block(dt) + other;
  }

  lemma RowsAssoc(a: seq<Row>, b: seq<Row>, c: seq<Row>)
    ensures a + b + c == a + (b + c)
  {
  }

  lemma PageRowsStep(pageLabel: string, url: string, dls: seq<Element>, i: nat)
    requires i < |dls|
    requires forall k :: 0 <= k < |dls| ==> Recognized(dls[k]) ==> HasBody(dls[k])
    ensures PageRows(pageLabel, url, dls[..i + 1]) == PageRows(pageLabel, url, dls[..i]) + ContainerRows(pageLabel, url, dls[i])
  {
    assert dls[..i + 1][..i] == dls[..i] && dls[..i + 1][i] == dls[i];
  }

}
