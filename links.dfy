/** Link stripping: `replace_links`, which removes every descendant anchor
    of a tree, keeping what the anchor held.

    The source runs one loop over the anchors in document order and then
    calls `etree.strip_elements(tree, 'a', with_tail=False)`. Here the loop
    is `Hoist` and the call is `StripAnchors`. Because the anchors are
    visited in document order, every anchor above a given anchor has already
    had its children moved out by the time the loop reaches it. So "the
    anchor's parent" in the loop is always its nearest ancestor that is not
    an anchor, or the root. `Hoist` therefore works on that ancestor and
    treats a chain of nested anchors as one level. */
module Links {
  import opened Dom
  import PyStr

  const Anchor: string := "a"

  /** What the anchor loop does with an anchor's own text. */
  datatype Draft =
    | DropText      // functions.py: the text stays in the anchor and is removed with it
    | TextToParent  // pydocparse.py: appended to the end of the parent's `text`
    | TextInPlace   // corrected: attached where the anchor stood (see the findings)

  // ---------------------------------------------------------------------
  // The anchor loop: `for a in tree.xpath('.//a')`
  // ---------------------------------------------------------------------

  /** The loop applied to the anchors below `e`, which is not itself
      unwrapped (the root, or an element that is not an anchor). */
  function Hoist(d: Draft, e: Element): (r: Element)
    ensures r.tag == e.tag && r.attrs == e.attrs && r.tail == e.tail
    decreases e, 1
  {
    var p := HoistInto(d, e.text, [], e.children);
    e.(text := p.0, children := p.1)
  }

  /** The loop over the children `cs` of a parent whose text so far is
      `text` and whose already-processed children are `kids`. For an anchor,
      its text is handled as the draft says, then each of its children is
      moved, with its tail, in front of it (`a.addprevious(e)`). The anchor
      stays behind, empty, with its text and tail, for `StripAnchors`. */
  function HoistInto(d: Draft, text: string, kids: seq<Element>, cs: seq<Element>): (string, seq<Element>)
    decreases cs, 0
  {
    if cs == [] then (text, kids)
    else
      var c := cs[0];
      if c.tag == Anchor then
        var before := TakeText(d, text, kids, c);
        var inner := HoistInto(d, before.0, before.1, c.children);
        HoistInto(d, inner.0, inner.1 + [c.(children := [])], cs[1..])
      else
        HoistInto(d, text, kids + [Hoist(d, c)], cs[1..])
  }

  /** The parent's text and processed children once the loop has dealt
      with the own text of the anchor `c`. */
  function TakeText(d: Draft, text: string, kids: seq<Element>, c: Element): (string, seq<Element>) {
    match d
    case DropText => (text, kids)
    case TextToParent => (text + c.text, kids)
    case TextInPlace => Attach(text, kids, c.text)
  }

  // ---------------------------------------------------------------------
  // `etree.strip_elements(tree, 'a', with_tail=False)`
  // ---------------------------------------------------------------------

  /** No element below `e` is an anchor. */
  predicate AnchorFree(e: Element) {
    AnchorFreeAll(e.children)
  }

  predicate AnchorFreeAll(cs: seq<Element>) {
    forall i :: 0 <= i < |cs| ==> cs[i].tag != Anchor && AnchorFree(cs[i])
  }

  /** Removes every anchor below `e` with all it contains, keeping the
      anchor's tail, which joins the previous sibling's tail or the parent's
      text. `e` itself is kept even when it is an anchor. */
  function StripAnchors(e: Element): (r: Element)
    ensures r.tag == e.tag && r.attrs == e.attrs && r.tail == e.tail
    ensures AnchorFree(r)
    decreases e, 1
  {
    var p := StripInto(e.text, [], e.children);
    e.(text := p.0, children := p.1)
  }

  function StripInto(text: string, kids: seq<Element>, cs: seq<Element>): (r: (string, seq<Element>))
    requires AnchorFreeAll(kids)
    ensures AnchorFreeAll(r.1)
    decreases cs, 0
  {
    if cs == [] then (text, kids)
    else if cs[0].tag == Anchor then
      var p := Attach(text, kids, cs[0].tail);
      assert forall i :: 0 <= i < |kids| ==> AnchorFree(p.1[i]) == AnchorFree(kids[i]);
      StripInto(p.0, p.1, cs[1..])
    else
      var c := StripAnchors(cs[0]);
      assert forall i :: 0 <= i < |kids| ==> (kids + [c])[i] == kids[i];
      StripInto(text, kids + [c], cs[1..])
  }

  /** `replace_links(tree)` of the given draft: the tree it leaves behind.
      (functions.py returns None and pydocparse.py returns the tree; both
      change it in place.) */
  function ReplaceLinks(d: Draft, e: Element): Element {
    StripAnchors(Hoist(d, e))
  }

  // ---------------------------------------------------------------------
  // No anchor remains, the root is kept, and a second run changes nothing.
  // ---------------------------------------------------------------------

  /** After `replace_links` no descendant anchor remains, and the root keeps
      its tag, attributes and tail, even when the root is itself an anchor. */
  lemma ReplaceLinksRemovesAnchors(d: Draft, e: Element)
    ensures AnchorFree(ReplaceLinks(d, e))
    ensures ReplaceLinks(d, e).tag == e.tag && ReplaceLinks(d, e).attrs == e.attrs
    ensures ReplaceLinks(d, e).tail == e.tail
  {
  }

  /** The loop does nothing to children that contain no anchor. */
  lemma {:induction false} HoistIntoAnchorFree(d: Draft, text: string, kids: seq<Element>, cs: seq<Element>)
    requires AnchorFreeAll(cs)
    ensures HoistInto(d, text, kids, cs) == (text, kids + cs)
    decreases cs, 1
  {
    if cs == [] {
      assert kids + cs == kids;
    } else {
      HoistAnchorFree(d, cs[0]);
      assert AnchorFreeAll(cs[1..]) by {
        assert forall i :: 1 <= i < |cs| ==> cs[1..][i - 1] == cs[i];
      }
      assert cs[0].tag != Anchor;
      assert HoistInto(d, text, kids, cs) == HoistInto(d, text, kids + [cs[0]], cs[1..]);
      HoistIntoAnchorFree(d, text, kids + [cs[0]], cs[1..]);
      assert kids + [cs[0]] + cs[1..] == kids + cs;
    }
  }

  lemma {:induction false} HoistAnchorFree(d: Draft, e: Element)
    requires AnchorFree(e)
    ensures Hoist(d, e) == e
    decreases e, 2
  {
    HoistIntoAnchorFree(d, e.text, [], e.children);
    assert [] + e.children == e.children;
  }

  /** `strip_elements` does nothing to a tree without anchors below the root. */
  lemma {:induction false} StripIntoAnchorFree(text: string, kids: seq<Element>, cs: seq<Element>)
    requires AnchorFreeAll(kids) && AnchorFreeAll(cs)
    ensures StripInto(text, kids, cs) == (text, kids + cs)
    decreases cs, 1
  {
    if cs == [] {
      assert kids + cs == kids;
    } else {
      StripAnchorsAnchorFree(cs[0]);
      assert AnchorFreeAll(cs[1..]) by {
        assert forall i :: 1 <= i < |cs| ==> cs[1..][i - 1] == cs[i];
      }
      assert AnchorFreeAll(kids + [cs[0]]) by {
        assert forall i :: 0 <= i < |kids| ==> (kids + [cs[0]])[i] == kids[i];
      }
      assert cs[0].tag != Anchor;
      assert StripInto(text, kids, cs) == StripInto(text, kids + [cs[0]], cs[1..]);
      StripIntoAnchorFree(text, kids + [cs[0]], cs[1..]);
      assert kids + [cs[0]] + cs[1..] == kids + cs;
    }
  }

  lemma {:induction false} StripAnchorsAnchorFree(e: Element)
    requires AnchorFree(e)
    ensures StripAnchors(e) == e
    decreases e, 2
  {
    StripIntoAnchorFree(e.text, [], e.children);
    assert [] + e.children == e.children;
  }

  /** A tree without descendant anchors is a fixpoint of `replace_links`
      (a root that is itself `<a>` is left intact). */
  lemma ReplaceLinksAnchorFree(d: Draft, e: Element)
    requires AnchorFree(e)
    ensures ReplaceLinks(d, e) == e
  {
    HoistAnchorFree(d, e);
    StripAnchorsAnchorFree(e);
  }

  /** Running `replace_links` twice gives the same tree as running it once. */
  lemma ReplaceLinksIdempotent(d: Draft, e: Element)
    ensures ReplaceLinks(d, ReplaceLinks(d, e)) == ReplaceLinks(d, e)
  {
    ReplaceLinksAnchorFree(d, ReplaceLinks(d, e));
  }

  // ---------------------------------------------------------------------
  // What the result renders as.
  // ---------------------------------------------------------------------

  /** The rendering that `strip_elements(tree, 'a', with_tail=False)`
      promises: each anchor below `e` and everything inside it is gone,
      and only its tail remains. */
  function Skipped(e: Element, m: Method): string
    decreases e, 0
  {
    StartTag(e, m) + e.text + SkippedAll(e.children, m) + EndTag(e, m) + e.tail
  }

  function SkippedAll(cs: seq<Element>, m: Method): string {
    if cs == [] then "" else SkippedOne(cs[0], m) + SkippedAll(cs[1..], m)
  }

  function SkippedOne(c: Element, m: Method): string
    decreases c, 1
  {
    if c.tag == Anchor then c.tail else Skipped(c, m)
  }

  /** The text of the anchors among `cs`, and of the anchors nested directly
      in those, in document order: what the pydocparse.py loop appends to
      the parent's `text`. */
  function AnchorTexts(cs: seq<Element>): string {
    if cs == [] then ""
    else
      var own := if cs[0].tag == Anchor then cs[0].text + AnchorTexts(cs[0].children) else "";
      own + AnchorTexts(cs[1..])
  }

  /** What the draft adds to the end of the parent's text. */
  function Lead(d: Draft, cs: seq<Element>): string {
    if d == TextToParent then AnchorTexts(cs) else ""
  }

  /** The rendering `replace_links` is meant to produce: every anchor below
      `e` unwrapped, its children and its tail left where they were. Where
      the anchor's own text goes depends on the draft: nowhere (DropText),
      to the end of the text of the nearest non-anchor ancestor
      (TextToParent), or where the anchor stood (TextInPlace). */
  function Unwrapped(d: Draft, e: Element, m: Method): string
    decreases e, 0
  {
    StartTag(e, m) + e.text + Lead(d, e.children) + UnwrappedAll(d, e.children, m) + EndTag(e, m) + e.tail
  }

  function UnwrappedAll(d: Draft, cs: seq<Element>, m: Method): string
    decreases cs, 2
  {
    if cs == [] then "" else UnwrappedOne(d, cs[0], m) + UnwrappedAll(d, cs[1..], m)
  }

  function UnwrappedOne(d: Draft, c: Element, m: Method): string
    decreases c, 1
  {
    if c.tag == Anchor then
      (if d == TextInPlace then c.text else "") + UnwrappedAll(d, c.children, m) + c.tail
    else Unwrapped(d, c, m)
  }

  lemma {:induction false} SkippedAllLast(cs: seq<Element>, m: Method)
    requires cs != []
    ensures SkippedAll(cs, m) == SkippedAll(cs[..|cs| - 1], m) + SkippedOne(cs[|cs| - 1], m)
  {
    var n := |cs| - 1;
    if n == 0 {
      assert cs[1..] == [] && cs[..0] == [];
      assert SkippedOne(cs[0], m) + "" == "" + SkippedOne(cs[0], m);
    } else {
      var first := SkippedOne(cs[0], m);
      var last := SkippedOne(cs[n], m);
      calc {
        SkippedAll(cs, m);
        first + SkippedAll(cs[1..], m);
      == { SkippedAllLast(cs[1..], m);
           assert cs[1..][..n - 1] == cs[..n][1..] && cs[1..][n - 1] == cs[n]; }
        first + (SkippedAll(cs[..n][1..], m) + last);
      == { PyStr.Regroup(first, SkippedAll(cs[..n][1..], m), last); }
        first + SkippedAll(cs[..n][1..], m) + last;
      == { assert cs[..n][0] == cs[0]; }
        SkippedAll(cs[..n], m) + last;
      }
    }
  }

  /** Appending one element to `kids` appends its rendering. */
  lemma SkippedAllAppend(kids: seq<Element>, c: Element, m: Method)
    ensures SkippedAll(kids + [c], m) == SkippedAll(kids, m) + SkippedOne(c, m)
  {
    SkippedAllLast(kids + [c], m);
    assert (kids + [c])[..|kids|] == kids;
  }

  lemma SerializeAllAppend(kids: seq<Element>, c: Element, m: Method)
    ensures SerializeAll(kids + [c], m) == SerializeAll(kids, m) + Serialize(c, m)
  {
    SerializeAllLast(kids + [c], m);
    assert (kids + [c])[..|kids|] == kids;
  }

  lemma SkippedOneLongerTail(c: Element, s: string, m: Method)
    ensures SkippedOne(c.(tail := c.tail + s), m) == SkippedOne(c, m) + s
  {
    var c' := c.(tail := c.tail + s);
    if c.tag != Anchor {
      var body := StartTag(c, m) + c.text + SkippedAll(c.children, m) + EndTag(c, m);
      calc {
        Skipped(c', m);
        { assert StartTag(c', m) == StartTag(c, m) && EndTag(c', m) == EndTag(c, m); }
        body + (c.tail + s);
        { PyStr.Regroup(body, c.tail, s); }
        (body + c.tail) + s;
      }
    }
  }

  /** `Attach` keeps the rendering of the text and the kids, followed by `s`. */
  lemma {:induction false} AttachSkipped(text: string, kids: seq<Element>, s: string, m: Method)
    ensures var r := Attach(text, kids, s);
            r.0 + SkippedAll(r.1, m) == text + SkippedAll(kids, m) + s
  {
    if kids != [] {
      var n := |kids| - 1;
      var last := kids[n];
      var last' := last.(tail := last.tail + s);
      var kids' := kids[..n] + [last'];
      assert Attach(text, kids, s) == (text, kids');
      assert kids'[..n] == kids[..n] && kids'[n] == last';
      var init := SkippedAll(kids[..n], m);
      calc {
        text + SkippedAll(kids', m);
      == { SkippedAllLast(kids', m); }
        text + (init + SkippedOne(last', m));
      == { SkippedOneLongerTail(last, s, m); }
        text + (init + (SkippedOne(last, m) + s));
      == { PyStr.Regroup(init, SkippedOne(last, m), s); }
        text + ((init + SkippedOne(last, m)) + s);
      == { SkippedAllLast(kids, m); }
        text + (SkippedAll(kids, m) + s);
      == { PyStr.Regroup(text, SkippedAll(kids, m), s); }
        text + SkippedAll(kids, m) + s;
      }
    }
  }

  /** Replacing the middle of a concatenation by an equal one. */
  lemma SameInside(a: string, b: string, c: string, b': string, c': string, y: string, z: string)
    requires b + c == b' + c'
    ensures a + b + c + y + z == a + b' + c' + y + z
  {
    calc {
      a + b + c + y + z;
      a + (b + c) + y + z;
      a + (b' + c') + y + z;
      a + b' + c' + y + z;
    }
  }

  lemma RegroupAfter(a: string, x: string, y: string, z: string)
    ensures a + (x + y) + z == a + x + (y + z)
  {
  }

  lemma Regroup4(a: string, b: string, c: string, d: string)
    ensures a + b + c + d == a + (b + c + d)
  {
  }

  lemma Regroup5(a: string, b: string, c: string, d: string, e: string)
    ensures a + b + c + d + e == a + (b + c + d + e)
  {
  }

  /** `strip_elements` renders as `Skipped` promises. */
  lemma {:induction false} StripAnchorsRender(e: Element, m: Method)
    ensures Serialize(StripAnchors(e), m) == Skipped(e, m)
    decreases e, 1
  {
    var p := StripInto(e.text, [], e.children);
    var e' := StripAnchors(e);
    assert e'.text == p.0 && e'.children == p.1;
    assert StartTag(e', m) == StartTag(e, m) && EndTag(e', m) == EndTag(e, m);
    assert p.0 + SerializeAll(p.1, m) == e.text + SkippedAll(e.children, m) by {
      StripIntoRender(e.text, [], e.children, m);
      assert SerializeAll([], m) == "";
    }
    SameInside(StartTag(e, m), p.0, SerializeAll(p.1, m), e.text, SkippedAll(e.children, m), EndTag(e, m), e.tail);
  }

  lemma {:induction false} StripIntoRender(text: string, kids: seq<Element>, cs: seq<Element>, m: Method)
    requires AnchorFreeAll(kids)
    ensures var r := StripInto(text, kids, cs);
            r.0 + SerializeAll(r.1, m) == text + SerializeAll(kids, m) + SkippedAll(cs, m)
    decreases cs, 0
  {
    var r := StripInto(text, kids, cs);
    if cs == [] {
      assert SkippedAll(cs, m) == "";
    } else {
      var c := cs[0];
      var rest := SkippedAll(cs[1..], m);
      assert SkippedAll(cs, m) == SkippedOne(c, m) + rest;
      if c.tag == Anchor {
        var p := Attach(text, kids, c.tail);
        assert r == StripInto(p.0, p.1, cs[1..]);
        StripIntoRender(p.0, p.1, cs[1..], m);
        AttachSerialize(text, kids, c.tail, m);
        PyStr.Regroup(text + SerializeAll(kids, m), c.tail, rest);
      } else {
        var c' := StripAnchors(c);
        assert AnchorFreeAll(kids + [c']) by {
          assert forall i :: 0 <= i < |kids| ==> (kids + [c'])[i] == kids[i];
        }
        assert r == StripInto(text, kids + [c'], cs[1..]);
        StripIntoRender(text, kids + [c'], cs[1..], m);
        SerializeAllAppend(kids, c', m);
        StripAnchorsRender(c, m);
        RegroupAfter(text, SerializeAll(kids, m), Skipped(c, m), rest);
      }
    }
  }

  /** The anchor loop followed by stripping renders as `Unwrapped`: for a
      non-anchor element, `Hoist` leaves a tree whose skipped rendering is
      the unwrapped rendering of the original. */
  lemma {:induction false} HoistRender(d: Draft, e: Element, m: Method)
    ensures Skipped(Hoist(d, e), m) == Unwrapped(d, e, m)
    decreases e, 1
  {
    var h := Hoist(d, e);
    var r := HoistInto(d, e.text, [], e.children);
    var lead := Lead(d, e.children);
    var ua := UnwrappedAll(d, e.children, m);
    assert h.text == r.0 && h.children == r.1;
    assert StartTag(h, m) == StartTag(e, m) && EndTag(h, m) == EndTag(e, m);
    assert r.0 + SkippedAll(r.1, m) == (e.text + lead) + ua by {
      HoistIntoRender(d, e.text, [], e.children, m);
      assert SkippedAll([], m) == "";
      if d == TextInPlace {
        assert e.text + lead == e.text;
      }
    }
    SameInside(StartTag(e, m), r.0, SkippedAll(r.1, m), e.text + lead, ua, EndTag(e, m), e.tail);
    PyStr.Regroup(StartTag(e, m), e.text, lead);
  }

  /** The loop over `cs`: the text it leaves before the kids and the
      rendering of the kids. With DropText and TextToParent the text only
      grows by `Lead`; with TextInPlace text and kids render together. */
  lemma {:induction false} HoistIntoRender(d: Draft, text: string, kids: seq<Element>, cs: seq<Element>, m: Method)
    ensures var r := HoistInto(d, text, kids, cs);
            d != TextInPlace ==>
              r.0 == text + Lead(d, cs) &&
              SkippedAll(r.1, m) == SkippedAll(kids, m) + UnwrappedAll(d, cs, m)
    ensures var r := HoistInto(d, text, kids, cs);
            d == TextInPlace ==>
              r.0 + SkippedAll(r.1, m) == text + SkippedAll(kids, m) + UnwrappedAll(d, cs, m)
    decreases cs, 0
  {
    var r := HoistInto(d, text, kids, cs);
    if cs == [] {
      assert Lead(d, cs) == "" && UnwrappedAll(d, cs, m) == "";
    } else {
      var c := cs[0];
      var uaRest := UnwrappedAll(d, cs[1..], m);
      assert UnwrappedAll(d, cs, m) == UnwrappedOne(d, c, m) + uaRest;
      if c.tag == Anchor {
        HoistIntoAnchorRender(d, text, kids, cs, m);
      } else {
        assert r == HoistInto(d, text, kids + [Hoist(d, c)], cs[1..]);
        HoistIntoRender(d, text, kids + [Hoist(d, c)], cs[1..], m);
        SkippedAllAppend(kids, Hoist(d, c), m);
        HoistRender(d, c, m);
        assert UnwrappedOne(d, c, m) == Unwrapped(d, c, m);
        assert Lead(d, cs) == Lead(d, cs[1..]) by {
          assert AnchorTexts(cs) == "" + AnchorTexts(cs[1..]);
        }
        if d == TextInPlace {
          PyStr.Regroup(r.0, SkippedAll(kids, m), Unwrapped(d, c, m));
          RegroupAfter(text, SkippedAll(kids, m), Unwrapped(d, c, m), uaRest);
        } else {
          PyStr.Regroup(SkippedAll(kids, m), Unwrapped(d, c, m), uaRest);
        }
      }
    }
  }

  /** `HoistIntoRender` when the first child is an anchor. */
  lemma {:induction false} HoistIntoAnchorRender(d: Draft, text: string, kids: seq<Element>, cs: seq<Element>, m: Method)
    requires cs != [] && cs[0].tag == Anchor
    ensures var r := HoistInto(d, text, kids, cs);
            d != TextInPlace ==>
              r.0 == text + Lead(d, cs) &&
              SkippedAll(r.1, m) == SkippedAll(kids, m) + UnwrappedAll(d, cs, m)
    ensures var r := HoistInto(d, text, kids, cs);
            d == TextInPlace ==>
              r.0 + SkippedAll(r.1, m) == text + SkippedAll(kids, m) + UnwrappedAll(d, cs, m)
    decreases cs, 0, 0
  {
    var c := cs[0];
    var before := TakeText(d, text, kids, c);
    var inner := HoistInto(d, before.0, before.1, c.children);
    var c' := c.(children := []);
    var r := HoistInto(d, inner.0, inner.1 + [c'], cs[1..]);
    assert HoistInto(d, text, kids, cs) == r;
    HoistIntoRender(d, before.0, before.1, c.children, m);
    HoistIntoRender(d, inner.0, inner.1 + [c'], cs[1..], m);
    SkippedAllAppend(inner.1, c', m);
    assert SkippedOne(c', m) == c.tail;
    var uaKids := UnwrappedAll(d, c.children, m);
    var uaRest := UnwrappedAll(d, cs[1..], m);
    var own := if d == TextInPlace then c.text else "";
    assert UnwrappedAll(d, cs, m) == own + uaKids + c.tail + uaRest;
    if d == TextInPlace {
      AttachSkipped(text, kids, c.text, m);
      calc {
        r.0 + SkippedAll(r.1, m);
        inner.0 + (SkippedAll(inner.1, m) + c.tail) + uaRest;
        { PyStr.Regroup(inner.0, SkippedAll(inner.1, m), c.tail); }
        (inner.0 + SkippedAll(inner.1, m)) + c.tail + uaRest;
        text + SkippedAll(kids, m) + c.text + uaKids + c.tail + uaRest;
        { Regroup5(text + SkippedAll(kids, m), c.text, uaKids, c.tail, uaRest); }
        text + SkippedAll(kids, m) + (c.text + uaKids + c.tail + uaRest);
      }
    } else {
      assert own == "" && "" + uaKids == uaKids;
      Regroup4(SkippedAll(kids, m), uaKids, c.tail, uaRest);
      if d == TextToParent {
        assert Lead(d, cs) == c.text + Lead(d, c.children) + Lead(d, cs[1..]);
        Regroup4(text, c.text, Lead(d, c.children), Lead(d, cs[1..]));
      } else {
        assert Lead(d, cs) == "" && text + "" == text;
      }
    }
  }

  /** The main theorem: the tree `replace_links` leaves renders, by either
      method, as `Unwrapped` describes. */
  lemma ReplaceLinksRender(d: Draft, e: Element, m: Method)
    ensures Serialize(ReplaceLinks(d, e), m) == Unwrapped(d, e, m)
  {
    StripAnchorsRender(Hoist(d, e), m);
    HoistRender(d, e, m);
  }

  // ---------------------------------------------------------------------
  // What happens to each anchor.
  // ---------------------------------------------------------------------

  /** Each element of `cs` with the loop applied to the anchors below it. */
  function HoistEach(d: Draft, cs: seq<Element>): seq<Element> {
    seq(|cs|, i requires 0 <= i < |cs| => Hoist(d, cs[i]))
  }

  /** An anchor none of whose children is itself an anchor has its child
      elements moved, in order and each with its tail, to just before it,
      after the draft has dealt with its own text; the anchors below a
      moved child are then handled inside it. The anchor itself stays,
      empty, until the strip. */
  lemma HoistMovesChildren(d: Draft, text: string, kids: seq<Element>, cs: seq<Element>)
    requires cs != [] && cs[0].tag == Anchor
    requires forall i :: 0 <= i < |cs[0].children| ==> cs[0].children[i].tag != Anchor
    ensures var b := TakeText(d, text, kids, cs[0]);
            HoistInto(d, text, kids, cs) ==
            HoistInto(d, b.0, b.1 + HoistEach(d, cs[0].children) + [cs[0].(children := [])], cs[1..])
  {
    var b := TakeText(d, text, kids, cs[0]);
    HoistIntoNoAnchors(d, b.0, b.1, cs[0].children);
  }

  /** Over siblings none of which is an anchor, the loop only works inside
      each of them, in order. */
  lemma {:induction false} HoistIntoNoAnchors(d: Draft, text: string, kids: seq<Element>, cs: seq<Element>)
    requires forall i :: 0 <= i < |cs| ==> cs[i].tag != Anchor
    ensures HoistInto(d, text, kids, cs) == (text, kids + HoistEach(d, cs))
    decreases |cs|
  {
    if cs == [] {
      assert kids + HoistEach(d, cs) == kids;
    } else {
      assert cs[0].tag != Anchor;
      HoistIntoNoAnchors(d, text, kids + [Hoist(d, cs[0])], cs[1..]);
      assert HoistEach(d, cs) == [Hoist(d, cs[0])] + HoistEach(d, cs[1..]);
      assert kids + [Hoist(d, cs[0])] + HoistEach(d, cs[1..]) == kids + HoistEach(d, cs);
    }
  }

  /** The anchor loop of pydocparse.py leaves the text of each anchor at the
      end of the text of its nearest non-anchor ancestor, in document order;
      the loop of functions.py leaves that text untouched. */
  lemma HoistText(e: Element)
    ensures Hoist(TextToParent, e).text == e.text + AnchorTexts(e.children)
    ensures Hoist(DropText, e).text == e.text
  {
    HoistIntoRender(TextToParent, e.text, [], e.children, Text);
    HoistIntoRender(DropText, e.text, [], e.children, Text);
  }

  // ---------------------------------------------------------------------
  // The corrected draft keeps the text content.
  // ---------------------------------------------------------------------

  /** Unwrapping in place changes nothing in the text rendering. */
  lemma {:induction false} InPlaceUnwrapText(e: Element)
    ensures Unwrapped(TextInPlace, e, Text) == Serialize(e, Text)
    decreases e, 1
  {
    InPlaceUnwrapTextAll(e.children);
    assert Lead(TextInPlace, e.children) == "";
  }

  lemma {:induction false} InPlaceUnwrapTextAll(cs: seq<Element>)
    ensures UnwrappedAll(TextInPlace, cs, Text) == SerializeAll(cs, Text)
    decreases cs, 0
  {
    if cs != [] {
      var c := cs[0];
      InPlaceUnwrapTextAll(cs[1..]);
      if c.tag == Anchor {
        InPlaceUnwrapTextAll(c.children);
        assert UnwrappedOne(TextInPlace, c, Text) == Serialize(c, Text);
      } else {
        InPlaceUnwrapText(c);
      }
    }
  }

  /** With its text kept in place, `replace_links` leaves the text content
      of the tree (`method='text'`) exactly as it was. */
  lemma CorrectedKeepsText(e: Element)
    ensures Serialize(ReplaceLinks(TextInPlace, e), Text) == Serialize(e, Text)
  {
    ReplaceLinksRender(TextInPlace, e, Text);
    InPlaceUnwrapText(e);
  }

  // ---------------------------------------------------------------------
  // The three drafts differ only in anchors that have text of their own.
  // ---------------------------------------------------------------------

  /** No anchor below `e` has text of its own. */
  predicate TextlessAnchors(e: Element) {
    TextlessAnchorsAll(e.children)
  }

  predicate TextlessAnchorsAll(cs: seq<Element>) {
    forall i :: 0 <= i < |cs| ==> (cs[i].tag == Anchor ==> cs[i].text == "") && TextlessAnchors(cs[i])
  }

  lemma {:induction false} HoistTextless(d: Draft, e: Element)
    requires TextlessAnchors(e)
    ensures Hoist(d, e) == Hoist(DropText, e)
    decreases e, 1
  {
    HoistIntoTextless(d, e.text, [], e.children);
  }

  lemma {:induction false} HoistIntoTextless(d: Draft, text: string, kids: seq<Element>, cs: seq<Element>)
    requires TextlessAnchorsAll(cs)
    ensures HoistInto(d, text, kids, cs) == HoistInto(DropText, text, kids, cs)
    decreases cs, 0
  {
    if cs != [] {
      var c := cs[0];
      assert TextlessAnchorsAll(cs[1..]) by {
        assert forall i :: 1 <= i < |cs| ==> cs[1..][i - 1] == cs[i];
      }
      assert TextlessAnchorsAll(c.children) by {
        assert TextlessAnchors(cs[0]);
      }
      if c.tag == Anchor {
        assert TakeText(d, text, kids, c) == (text, kids) by {
          assert c.text == "" && text + "" == text;
          if kids != [] {
            var last := kids[|kids| - 1];
            assert last.(tail := last.tail + "") == last;
            assert kids[..|kids| - 1] + [last] == kids;
          }
        }
        HoistIntoTextless(d, text, kids, c.children);
        var inner := HoistInto(DropText, text, kids, c.children);
        HoistIntoTextless(d, inner.0, inner.1 + [c.(children := [])], cs[1..]);
      } else {
        HoistTextless(d, c);
        HoistIntoTextless(d, text, kids + [Hoist(DropText, c)], cs[1..]);
      }
    }
  }

  /** When no anchor has text of its own, the three drafts agree. */
  lemma DraftsAgree(d: Draft, e: Element)
    requires TextlessAnchors(e)
    ensures ReplaceLinks(d, e) == ReplaceLinks(DropText, e)
  {
    HoistTextless(d, e);
  }

  // ---------------------------------------------------------------------
  // Worked cases.
  // ---------------------------------------------------------------------

  /** `<p>Use <code>x</code> or <a>y</a>.</p>`: a paragraph whose anchor is
      not at the start. */
  const Code: Element := Element("code", [], "x", [], " or ")
  const Link: Element := Element(Anchor, [], "y", [], ".")
  const UseXOrY: Element := Element("p", [], "Use ", [Code, Link], "")

  /** Its text content, and what each draft renders for the children. */
  lemma UseXOrYParts(d: Draft)
    ensures Serialize(UseXOrY, Text) == "Use x or y."
    ensures AnchorTexts(UseXOrY.children) == "y"
    ensures UnwrappedAll(d, UseXOrY.children, Text) == "x or " + (if d == TextInPlace then "y" else "") + "."
  {
    var cs := UseXOrY.children;
    assert cs[1..] == [Link] && [Link][1..] == [];
    assert Serialize(Code, Text) == "x or ";
    assert Serialize(Link, Text) == "y.";
    assert SerializeAll([Link], Text) == "y.";
    assert SerializeAll(cs, Text) == "x or y.";
    assert AnchorTexts([Link]) == "y";
    assert Unwrapped(d, Code, Text) == "x or ";
    assert UnwrappedOne(d, Link, Text) == (if d == TextInPlace then "y" else "") + ".";
    assert UnwrappedAll(d, [Link], Text) == (if d == TextInPlace then "y" else "") + ".";
  }

  /** pydocparse.py moves the anchor's text to the front of the paragraph. */
  lemma ToParentReordersText()
    ensures Serialize(UseXOrY, Text) == "Use x or y."
    ensures Serialize(ReplaceLinks(TextToParent, UseXOrY), Text) == "Use yx or ."
  {
    ReplaceLinksRender(TextToParent, UseXOrY, Text);
    UseXOrYParts(TextToParent);
  }

  /** functions.py loses the anchor's text. */
  lemma DropLosesText()
    ensures Serialize(ReplaceLinks(DropText, UseXOrY), Text) == "Use x or ."
  {
    ReplaceLinksRender(DropText, UseXOrY, Text);
    UseXOrYParts(DropText);
  }

  /** The corrected draft keeps it where it was. */
  lemma InPlaceKeepsOrder()
    ensures Serialize(ReplaceLinks(TextInPlace, UseXOrY), Text) == "Use x or y."
  {
    CorrectedKeepsText(UseXOrY);
    UseXOrYParts(TextInPlace);
  }

  /** The first docstring example, with the attribute values and the
      paragraph's closing text shortened: the anchor round a `code` element
      is removed, the `code` element takes its place, and the text after the
      anchor follows the `code` element, whatever the draft. */
  const PreSpan: Element := Element("span", [Attr("class", "pre")], "doctest", [], "")
  const XrefCode: Element := Element("code", [Attr("class", "xref")], "", [PreSpan], "")
  const DoctestLink: Element := Element(Anchor, [Attr("href", "#module-doctest")], "", [XrefCode], " module")
  const DoctestPara: Element := Element("p", [], "The ", [DoctestLink], "")

  lemma DoctestExample(d: Draft)
    ensures ReplaceLinks(d, DoctestPara) ==
            Element("p", [], "The ", [XrefCode.(tail := " module")], "")
  {
    var a := DoctestLink;
    var a' := a.(children := []);
    var code := XrefCode;
    var code' := code.(tail := " module");
    assert [a][1..] == [] && [PreSpan][1..] == [];
    assert AnchorFreeAll([code]) by {
      assert AnchorFreeAll([PreSpan]);
    }
    // the anchor loop
    assert TakeText(d, "The ", [], a) == ("The ", []) by {
      assert "The " + "" == "The ";
    }
    HoistIntoAnchorFree(d, "The ", [], [code]);
    assert [] + [code] + [a'] == [code, a'];
    assert HoistInto(d, "The ", [], [a]) == HoistInto(d, "The ", [code, a'], []);
    assert Hoist(d, DoctestPara) == DoctestPara.(children := [code, a']);
    // strip_elements
    StripIntoAnchorFree("The ", [], [code]);
    assert [] + [code] == [code] && [code, a'][1..] == [a'] && [a'][1..] == [];
    assert StripInto("The ", [], [code, a']) == StripInto("The ", [code], [a']);
    assert Attach("The ", [code], " module") == ("The ", [code']) by {
      assert "" + " module" == " module";
      assert [code][..0] == [] && [code][0] == code && [] + [code'] == [code'];
    }
    assert StripInto("The ", [code], [a']) == StripInto("The ", [code'], []);
    assert StripAnchors(Hoist(d, DoctestPara)) == DoctestPara.(children := [code']);
  }

  /** The second docstring example, on the tree `html.fromstring` builds
      from `<html>nice <a>test</a></html>`. */
  lemma NiceTestExample()
    ensures var p := Element("p", [], "nice ", [Element(Anchor, [], "test", [], "")], "");
            var tree := Element("html", [], "", [Element("body", [], "", [p], "")], "");
            ReplaceLinks(TextToParent, tree) ==
            Element("html", [], "", [Element("body", [], "", [Element("p", [], "nice test", [], "")], "")], "")
  {
    var a := Element(Anchor, [], "test", [], "");
    var p := Element("p", [], "nice ", [a], "");
    var body := Element("body", [], "", [p], "");
    var tree := Element("html", [], "", [body], "");
    var p1 := Element("p", [], "nice test", [a.(children := [])], "");
    var p2 := Element("p", [], "nice test", [], "");
    var a' := a.(children := []);
    var body1 := body.(children := [p1]);
    assert [a][1..] == [] && [p][1..] == [] && [body][1..] == [];
    assert [p1][1..] == [] && [a'][1..] == [] && [body1][1..] == [];
    // the anchor loop
    assert "nice " + "test" == "nice test" && [] + [a'] == [a'];
    assert TakeText(TextToParent, "nice ", [], a) == ("nice test", []);
    assert HoistInto(TextToParent, "nice test", [], a.children) == ("nice test", []);
    assert HoistInto(TextToParent, "nice test", [a'], []) == ("nice test", [a']);
    assert HoistInto(TextToParent, "nice ", [], [a]) == ("nice test", [a']);
    assert Hoist(TextToParent, p) == p1;
    assert [] + [p1] == [p1] && [] + [body1] == [body1];
    assert HoistInto(TextToParent, "", [], [p]) == HoistInto(TextToParent, "", [p1], []);
    assert Hoist(TextToParent, body) == body1;
    assert HoistInto(TextToParent, "", [], [body]) == HoistInto(TextToParent, "", [body1], []);
    assert Hoist(TextToParent, tree) == tree.(children := [body1]);
    // strip_elements
    assert "nice test" + "" == "nice test";
    assert Attach("nice test", [], "") == ("nice test", []);
    assert StripInto("nice test", [], [a']) == StripInto("nice test", [], []);
    assert StripAnchors(p1) == p2;
    assert [] + [p2] == [p2];
    assert StripInto("", [], [p1]) == StripInto("", [p2], []);
    assert StripAnchors(body1) == body.(children := [p2]);
    assert [] + [body.(children := [p2])] == [body.(children := [p2])];
    assert StripInto("", [], [body1]) == StripInto("", [body.(children := [p2])], []);
  }

  /** The third docstring example: a root anchor is kept, whatever the draft. */
  lemma RootAnchorExample(d: Draft)
    ensures ReplaceLinks(d, Element(Anchor, [], "test", [], "")) == Element(Anchor, [], "test", [], "")
  {
  }
}
