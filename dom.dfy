/** The element tree the engine reads and rewrites, in lxml's shape, with
    the rendering (`tostring`), the first-match helper (`node`) and the
    fixed structural lookups the engine makes. */
module Dom {
  import opened Wrappers
  import PyStr

  datatype Attr = Attr(name: string, value: string)

  /** An lxml element. `text` is the text before the first child and `tail`
      the text after the end tag, up to the next sibling; the empty string
      stands for lxml's `None`. Comments and processing instructions are
      not modelled. */
  datatype Element = Element(tag: string, attrs: seq<Attr>, text: string, children: seq<Element>, tail: string)

  /** `e.get(name)`: the value of the attribute called `name`, if any. */
  function Get(attrs: seq<Attr>, name: string): (r: Option<string>)
    ensures r.None? <==> forall i :: 0 <= i < |attrs| ==> attrs[i].name != name
    ensures r.Some? ==> exists i :: 0 <= i < |attrs| && attrs[i] == Attr(name, r.value)
  {
    if attrs == [] then None
    else if attrs[0].name == name then Some(attrs[0].value)
    else
      var r := Get(attrs[1..], name);
      assert forall i :: 1 <= i < |attrs| ==> attrs[i] == attrs[1..][i - 1];
      r
  }

  /** `e.values()`: the attribute values, in order. */
  function Values(attrs: seq<Attr>): (r: seq<string>)
    ensures |r| == |attrs|
    ensures forall i :: 0 <= i < |attrs| ==> r[i] == attrs[i].value
  {
    if attrs == [] then [] else [attrs[0].value] + Values(attrs[1..])
  }

  /** The XPath node test `tag[@class="cls"]`: the whole class attribute is `cls`. */
  predicate Is(e: Element, tag: string, cls: string) {
    e.tag == tag && Get(e.attrs, "class") == Some(cls)
  }

  // ---------------------------------------------------------------------
  // Serialisation: `etree.tostring(e, method=...)`, with the tail.
  // Escaping, void elements and attribute quoting are abstracted away.
  // ---------------------------------------------------------------------

  datatype Method = Html | Text

  function AttrsMarkup(attrs: seq<Attr>): string {
    if attrs == [] then ""
    else " " + attrs[0].name + "=\"" + attrs[0].value + "\"" + AttrsMarkup(attrs[1..])
  }

  function StartTag(e: Element, m: Method): string {
    if m == Html then "<" + e.tag + AttrsMarkup(e.attrs) + ">" else ""
  }

  function EndTag(e: Element, m: Method): string {
    if m == Html then "</" + e.tag + ">" else ""
  }

  /** `etree.tostring(e, encoding='unicode', method=m)`: the element, its
      content and its tail (the text method keeps only the text). */
  function Serialize(e: Element, m: Method): string {
    StartTag(e, m) + e.text + SerializeAll(e.children, m) + EndTag(e, m) + e.tail
  }

  function SerializeAll(cs: seq<Element>, m: Method): string {
    if cs == [] then "" else Serialize(cs[0], m) + SerializeAll(cs[1..], m)
  }

  lemma {:induction false} SerializeAllConcat(xs: seq<Element>, ys: seq<Element>, m: Method)
    ensures SerializeAll(xs + ys, m) == SerializeAll(xs, m) + SerializeAll(ys, m)
  {
    if xs == [] {
      assert xs + ys == ys;
    } else {
      var first := Serialize(xs[0], m);
      calc {
        SerializeAll(xs + ys, m);
      == { assert (xs + ys)[0] == xs[0] && (xs + ys)[1..] == xs[1..] + ys; }
        first + SerializeAll(xs[1..] + ys, m);
      == { SerializeAllConcat(xs[1..], ys, m); }
        first + (SerializeAll(xs[1..], m) + SerializeAll(ys, m));
      == { PyStr.Regroup(first, SerializeAll(xs[1..], m), SerializeAll(ys, m)); }
        SerializeAll(xs, m) + SerializeAll(ys, m);
      }
    }
  }

  /** The serialisation ends with the element's tail. */
  lemma SerializeEndsWithTail(e: Element, m: Method)
    ensures var s := Serialize(e, m); |s| >= |e.tail| && s[|s| - |e.tail|..] == e.tail
  {
  }

  // ---------------------------------------------------------------------
  // `tostring(e_iter, method='html')`
  // ---------------------------------------------------------------------

  /** Tags whose lxml.html element class is a subclass of `HtmlElement`, so
      that `type(e) == html.HtmlElement` is false for them and `tostring`
      iterates over their children instead. */
  const SpecialTags: set<string> := {"form", "input", "select", "textarea", "label"}

  /** What `tostring` accepts: a `str`, an element, or an iterable of those.
      A text node found by XPath is a subclass of `str`; iterating over it
      yields its characters, so it renders as itself and is given as `Str`. */
  datatype Arg = Str(s: string) | Elem(e: Element) | Items(xs: seq<Arg>)

  /** The arguments made from the elements of `cs`, in order (`e.iterchildren()`). */
  function ElemsOf(cs: seq<Element>): (r: seq<Arg>)
    ensures |r| == |cs| && forall i :: 0 <= i < |cs| ==> r[i] == Elem(cs[i])
  {
    seq(|cs|, i requires 0 <= i < |cs| => Elem(cs[i]))
  }

  /** `tostring(e_iter, method)`. */
  function ToString(a: Arg, m: Method): string {
    match a
    case Str(s) => s
    case Elem(e) => ElementString(e, m)
    case Items(xs) => ItemsString(xs)
  }

  /** `''.join([tostring(e) for e in xs])`: the items are rendered with the
      default method, whatever method the sequence was given. */
  function ItemsString(xs: seq<Arg>): string {
    if xs == [] then "" else ToString(xs[0], Html) + ItemsString(xs[1..])
  }

  /** `tostring` of an element: its stripped serialisation, or for the
      special classes the rendering of its children. */
  function ElementString(e: Element, m: Method): (r: string)
    ensures e.tag !in SpecialTags ==>
      r != [] ==> r[0] !in PyStr.Whitespace && r[|r| - 1] !in PyStr.Whitespace
  {
    if e.tag in SpecialTags then ElementsString(e.children)
    else
      PyStr.StripCharsIsMiddle(Serialize(e, m), PyStr.Whitespace);
      PyStr.Strip(Serialize(e, m))
  }

  function ElementsString(cs: seq<Element>): string {
    if cs == [] then "" else ElementString(cs[0], Html) + ElementsString(cs[1..])
  }

  /** The stripped renderings of two runs of elements, one after the other. */
  lemma {:induction false} ElementsStringConcat(xs: seq<Element>, ys: seq<Element>)
    ensures ElementsString(xs + ys) == ElementsString(xs) + ElementsString(ys)
  {
    if xs == [] {
      assert xs + ys == ys;
    } else {
      assert (xs + ys)[0] == xs[0] && (xs + ys)[1..] == xs[1..] + ys;
      ElementsStringConcat(xs[1..], ys);
      PyStr.Regroup(ElementString(xs[0], Html), ElementsString(xs[1..]), ElementsString(ys));
    }
  }

  /** Replacing one element of a run changes only that element's part of
      the run's stripped rendering. */
  lemma ElementsStringAround(cs: seq<Element>, i: nat, d: Element)
    requires i < |cs|
    ensures ElementsString(cs[..i] + [d] + cs[i + 1..]) ==
            ElementsString(cs[..i]) + ElementString(d, Html) + ElementsString(cs[i + 1..])
  {
    ElementsStringConcat(cs[..i] + [d], cs[i + 1..]);
    ElementsStringConcat(cs[..i], [d]);
    assert ElementsString([d]) == ElementString(d, Html);
  }

  /** A sequence renders as the concatenation of its items. */
  lemma {:induction false} ItemsStringConcat(xs: seq<Arg>, ys: seq<Arg>)
    ensures ItemsString(xs + ys) == ItemsString(xs) + ItemsString(ys)
  {
    if xs == [] {
      assert xs + ys == ys;
    } else {
      var first := ToString(xs[0], Html);
      calc {
        ItemsString(xs + ys);
      == { assert (xs + ys)[0] == xs[0] && (xs + ys)[1..] == xs[1..] + ys; }
        first + ItemsString(xs[1..] + ys);
      == { ItemsStringConcat(xs[1..], ys); }
        first + (ItemsString(xs[1..]) + ItemsString(ys));
      == { PyStr.Regroup(first, ItemsString(xs[1..]), ItemsString(ys)); }
        ItemsString(xs) + ItemsString(ys);
      }
    }
  }

  /** Rendering the children of an element as a sequence of elements is
      the concatenation of their individual renderings. */
  lemma {:induction false} ItemsOfElements(cs: seq<Element>)
    ensures ItemsString(ElemsOf(cs)) == ElementsString(cs)
  {
    if cs != [] {
      assert ElemsOf(cs)[1..] == ElemsOf(cs[1..]);
      ItemsOfElements(cs[1..]);
    }
  }

  /** `tostring` on a sequence ignores `method`: `tostring(xs, 'text') == tostring(xs)`. */
  lemma SequenceIgnoresMethod(xs: seq<Arg>, m: Method)
    ensures ToString(Items(xs), m) == ToString(Items(xs), Html)
  {
  }

  /** The `b` element of the tree `html.fromstring` builds from
      `<html><p>This <b>huge</b> event.</p><p>Surprising.</p>`. */
  const Huge: Element := Element("b", [], "huge", [], " event.")

  /** Two docstring examples of `tostring`: a string is itself, and an
      element found by XPath renders with its tail. */
  lemma ToStringExamples()
    ensures ToString(Str("test"), Html) == "test"
    ensures ToString(Elem(Huge), Html) == "<b>huge</b> event."
  {
    var s := "<b>huge</b> event.";
    assert Serialize(Huge, Html) == s by {
      assert StartTag(Huge, Html) == "<b>" by {
        assert AttrsMarkup([]) == "" && "<" + "b" + "" + ">" == "<b>";
      }
      assert EndTag(Huge, Html) == "</b>";
      assert SerializeAll([], Html) == "";
      assert "<b>" + "huge" + "" + "</b>" + " event." == s;
    }
    assert s[0] == '<' && s[|s| - 1] == '.';
    RendersAs(Huge, Html, s);
  }

  /** An element whose serialisation has no white space at either end
      renders as that serialisation. */
  lemma RendersAs(e: Element, m: Method, s: string)
    requires e.tag !in SpecialTags && Serialize(e, m) == s
    requires s != [] && s[0] !in PyStr.Whitespace && s[|s| - 1] !in PyStr.Whitespace
    ensures ToString(Elem(e), m) == s
  {
    PyStr.NoOuterCharsStripsNothing(s, PyStr.Whitespace);
  }

  /** `node(tree, xpath, default)`: the first of the matches, or `default`
      when there is none. */
  function Node<T>(matches: seq<T>, default: T): (r: T)
    ensures matches != [] ==> r == matches[0]
    ensures matches == [] ==> r == default
  {
    if matches != [] then matches[0] else default
  }

  // ---------------------------------------------------------------------
  // The fixed structural lookups of the engine.
  // ---------------------------------------------------------------------

  /** `./tag`: the children with that tag, in document order. */
  function ChildrenTagged(cs: seq<Element>, tag: string): (r: seq<Element>)
    ensures |r| <= |cs|
    ensures forall i :: 0 <= i < |r| ==> r[i].tag == tag
    ensures r == [] <==> forall i :: 0 <= i < |cs| ==> cs[i].tag != tag
    ensures forall c :: c in r <==> c in cs && c.tag == tag
  {
    if cs == [] then []
    else if cs[0].tag == tag then [cs[0]] + ChildrenTagged(cs[1..], tag)
    else
      assert forall i :: 1 <= i < |cs| ==> cs[i] == cs[1..][i - 1];
      ChildrenTagged(cs[1..], tag)
  }

  /** `./tag` keeps document order: the children of a concatenation are
      those of each part, one part after the other. */
  lemma {:induction false} ChildrenTaggedConcat(xs: seq<Element>, ys: seq<Element>, tag: string)
    ensures ChildrenTagged(xs + ys, tag) == ChildrenTagged(xs, tag) + ChildrenTagged(ys, tag)
  {
    if xs == [] {
      assert xs + ys == ys;
    } else {
      assert (xs + ys)[0] == xs[0] && (xs + ys)[1..] == xs[1..] + ys;
      ChildrenTaggedConcat(xs[1..], ys, tag);
    }
  }

  /** The position of `./tag[1]` among the children, if there is one. */
  function FirstTagged(cs: seq<Element>, tag: string): (r: Option<nat>)
    ensures r.Some? ==> r.value < |cs| && cs[r.value].tag == tag
                        && forall j :: 0 <= j < r.value ==> cs[j].tag != tag
    ensures r.None? ==> forall j :: 0 <= j < |cs| ==> cs[j].tag != tag
  {
    if cs == [] then None
    else if cs[0].tag == tag then Some(0)
    else match FirstTagged(cs[1..], tag)
      case None => assert forall j :: 1 <= j < |cs| ==> cs[j] == cs[1..][j - 1]; None
      case Some(k) => Some(k + 1)
  }

  /** `./tag[1]` is the first of `./tag`. */
  lemma {:induction false} FirstOfChildrenTagged(cs: seq<Element>, tag: string)
    requires ChildrenTagged(cs, tag) != []
    ensures FirstTagged(cs, tag).Some?
    ensures ChildrenTagged(cs, tag)[0] == cs[FirstTagged(cs, tag).value]
  {
    if cs[0].tag != tag {
      FirstOfChildrenTagged(cs[1..], tag);
    }
  }

  /** The first element of the forest `cs`, in document order, that passes
      the test `tag[@class="cls"]`. */
  function FirstBelow(cs: seq<Element>, tag: string, cls: string): (r: Option<Element>)
    ensures r.Some? ==> Is(r.value, tag, cls)
  {
    if cs == [] then None
    else if Is(cs[0], tag, cls) then Some(cs[0])
    else match FirstBelow(cs[0].children, tag, cls)
      case Some(d) => Some(d)
      case None => FirstBelow(cs[1..], tag, cls)
  }

  /** The elements of the forest `cs` in document order: each element
      before its descendants, and those before its next sibling. */
  function Preorder(cs: seq<Element>): seq<Element> {
    if cs == [] then [] else [cs[0]] + Preorder(cs[0].children) + Preorder(cs[1..])
  }

  /** No element of `p` passes the test `tag[@class="cls"]`. */
  predicate NonePass(p: seq<Element>, tag: string, cls: string) {
    forall j :: 0 <= j < |p| ==> !Is(p[j], tag, cls)
  }

  /** `d` is the first element of `p` that passes the test. */
  predicate FirstPass(p: seq<Element>, d: Element, tag: string, cls: string) {
    exists k :: 0 <= k < |p| && p[k] == d && NonePass(p[..k], tag, cls)
  }

  lemma NonePassConcat(a: seq<Element>, b: seq<Element>, tag: string, cls: string)
    ensures NonePass(a + b, tag, cls) <==> NonePass(a, tag, cls) && NonePass(b, tag, cls)
  {
    if NonePass(a, tag, cls) && NonePass(b, tag, cls) {
      forall j | 0 <= j < |a + b| ensures !Is((a + b)[j], tag, cls) {
        if j >= |a| { assert (a + b)[j] == b[j - |a|]; }
      }
    }
    if NonePass(a + b, tag, cls) {
      forall j | 0 <= j < |a| ensures !Is(a[j], tag, cls) {
        assert (a + b)[j] == a[j];
      }
      forall j | 0 <= j < |b| ensures !Is(b[j], tag, cls) {
        assert (a + b)[|a| + j] == b[j];
      }
    }
  }

  lemma FirstPassAfter(a: seq<Element>, b: seq<Element>, d: Element, tag: string, cls: string)
    requires NonePass(a, tag, cls) && FirstPass(b, d, tag, cls)
    ensures FirstPass(a + b, d, tag, cls)
  {
    var k :| 0 <= k < |b| && b[k] == d && NonePass(b[..k], tag, cls);
    assert (a + b)[|a| + k] == d;
    assert (a + b)[..|a| + k] == a + b[..k];
    NonePassConcat(a, b[..k], tag, cls);
  }

  lemma FirstPassBefore(a: seq<Element>, b: seq<Element>, d: Element, tag: string, cls: string)
    requires FirstPass(a, d, tag, cls)
    ensures FirstPass(a + b, d, tag, cls)
  {
    var k :| 0 <= k < |a| && a[k] == d && NonePass(a[..k], tag, cls);
    assert (a + b)[k] == d && (a + b)[..k] == a[..k];
  }

  lemma FirstPassPasses(p: seq<Element>, d: Element, tag: string, cls: string)
    requires FirstPass(p, d, tag, cls) && Is(d, tag, cls)
    ensures !NonePass(p, tag, cls)
  {
    var k :| 0 <= k < |p| && p[k] == d && NonePass(p[..k], tag, cls);
  }

  /** `FirstBelow` finds the first element of the forest, in document
      order, that passes the test, and finds nothing only when none does. */
  lemma {:induction false} FirstBelowIsFirst(cs: seq<Element>, tag: string, cls: string)
    ensures FirstBelow(cs, tag, cls).None? <==> NonePass(Preorder(cs), tag, cls)
    ensures FirstBelow(cs, tag, cls).Some? ==> FirstPass(Preorder(cs), FirstBelow(cs, tag, cls).value, tag, cls)
  {
    if cs != [] {
      var c := cs[0];
      var pc := Preorder(c.children);
      var pr := Preorder(cs[1..]);
      assert Preorder(cs) == [c] + pc + pr;
      FirstBelowIsFirst(c.children, tag, cls);
      FirstBelowIsFirst(cs[1..], tag, cls);
      NonePassConcat([c] + pc, pr, tag, cls);
      NonePassConcat([c], pc, tag, cls);
      if Is(c, tag, cls) {
        assert ([c] + pc + pr)[..0] == [];
        assert FirstPass([c] + pc + pr, c, tag, cls);
      } else if FirstBelow(c.children, tag, cls).Some? {
        var d := FirstBelow(c.children, tag, cls).value;
        FirstPassAfter([c], pc, d, tag, cls);
        FirstPassBefore([c] + pc, pr, d, tag, cls);
        FirstPassPasses([c] + pc + pr, d, tag, cls);
      } else if FirstBelow(cs[1..], tag, cls).Some? {
        var d := FirstBelow(cs[1..], tag, cls).value;
        FirstPassAfter([c] + pc, pr, d, tag, cls);
        FirstPassPasses([c] + pc + pr, d, tag, cls);
      }
    }
  }

  /** The text nodes found by `.//tag[@class="cls"]/text()` within the forest
      `cs`, in document order: the text and the child tails of every matching
      element. `parentIs` says whether the parent of `cs` itself matches,
      which makes the tails in `cs` its text nodes. Empty texts are absent,
      as lxml has no text node for them. */
  function TextNodes(cs: seq<Element>, parentIs: bool, tag: string, cls: string): seq<string> {
    if cs == [] then []
    else
      var c := cs[0];
      var hit := Is(c, tag, cls);
      (if hit && c.text != "" then [c.text] else [])
      + TextNodes(c.children, hit, tag, cls)
      + (if parentIs && c.tail != "" then [c.tail] else [])
      + TextNodes(cs[1..], parentIs, tag, cls)
  }

  /** `node(e, './/tag[@class="cls"]/text()')`: the first such text node, or `''`. */
  function TextBelow(e: Element, tag: string, cls: string): string {
    Node(TextNodes(e.children, false, tag, cls), "")
  }

  /** Without a matching descendant there is no text node, so the lookup
      yields `''`. */
  lemma {:induction false} NoMatchNoText(cs: seq<Element>, tag: string, cls: string)
    requires FirstBelow(cs, tag, cls).None?
    ensures TextNodes(cs, false, tag, cls) == []
  {
    if cs != [] {
      NoMatchNoText(cs[0].children, tag, cls);
      NoMatchNoText(cs[1..], tag, cls);
    }
  }

  /** When the first matching descendant has a text, that text is the first
      text node found, so it is what the lookup yields. */
  lemma {:induction false} FirstMatchText(cs: seq<Element>, tag: string, cls: string)
    requires FirstBelow(cs, tag, cls).Some? && FirstBelow(cs, tag, cls).value.text != ""
    ensures TextNodes(cs, false, tag, cls) != []
    ensures TextNodes(cs, false, tag, cls)[0] == FirstBelow(cs, tag, cls).value.text
  {
    var c := cs[0];
    var inner := TextNodes(c.children, Is(c, tag, cls), tag, cls);
    var rest := TextNodes(cs[1..], false, tag, cls);
    if Is(c, tag, cls) {
      assert TextNodes(cs, false, tag, cls) == [c.text] + inner + rest;
    } else {
      assert TextNodes(cs, false, tag, cls) == [] + inner + [] + rest;
      match FirstBelow(c.children, tag, cls)
      case Some(d) =>
        FirstMatchText(c.children, tag, cls);
        assert (inner + rest)[0] == inner[0];
      case None =>
        NoMatchNoText(c.children, tag, cls);
        FirstMatchText(cs[1..], tag, cls);
        assert inner + rest == rest;
    }
  }

  /** Where lxml puts text that follows the last of `kids` in their parent:
      at the end of that element's tail, or of the parent's `text` when
      `kids` is empty. Used when an element is removed and its tail kept. */
  function Attach(text: string, kids: seq<Element>, s: string): (r: (string, seq<Element>))
    ensures |r.1| == |kids|
    ensures forall i :: 0 <= i < |kids| ==>
      r.1[i].tag == kids[i].tag && r.1[i].attrs == kids[i].attrs && r.1[i].children == kids[i].children
  {
    if kids == [] then (text + s, [])
    else
      var last := kids[|kids| - 1];
      (text, kids[..|kids| - 1] + [last.(tail := last.tail + s)])
  }

  /** Extending an element's tail extends its serialisation by the same text. */
  lemma SerializeLongerTail(e: Element, s: string, m: Method)
    ensures Serialize(e.(tail := e.tail + s), m) == Serialize(e, m) + s
  {
    var e' := e.(tail := e.tail + s);
    var body := StartTag(e, m) + e.text + SerializeAll(e.children, m) + EndTag(e, m);
    calc {
      Serialize(e', m);
      { assert StartTag(e', m) == StartTag(e, m) && EndTag(e', m) == EndTag(e, m); }
      body + (e.tail + s);
      { PyStr.Regroup(body, e.tail, s); }
      (body + e.tail) + s;
    }
  }

  lemma {:induction false} SerializeAllLast(cs: seq<Element>, m: Method)
    requires cs != []
    ensures SerializeAll(cs, m) == SerializeAll(cs[..|cs| - 1], m) + Serialize(cs[|cs| - 1], m)
  {
    var n := |cs| - 1;
    if n == 0 {
      assert cs[1..] == [] && cs[..0] == [];
      assert Serialize(cs[0], m) + "" == "" + Serialize(cs[0], m);
    } else {
      var first := Serialize(cs[0], m);
      var last := Serialize(cs[n], m);
      calc {
        SerializeAll(cs, m);
        first + SerializeAll(cs[1..], m);
      == { SerializeAllLast(cs[1..], m);
           assert cs[1..][..n - 1] == cs[..n][1..] && cs[1..][n - 1] == cs[n]; }
        first + (SerializeAll(cs[..n][1..], m) + last);
      == { PyStr.Regroup(first, SerializeAll(cs[..n][1..], m), last); }
        first + SerializeAll(cs[..n][1..], m) + last;
      == { assert cs[..n][0] == cs[0]; }
        SerializeAll(cs[..n], m) + last;
      }
    }
  }

  /** Attaching keeps the rendering of text and kids, followed by `s`. */
  lemma AttachSerialize(text: string, kids: seq<Element>, s: string, m: Method)
    ensures var r := Attach(text, kids, s);
            r.0 + SerializeAll(r.1, m) == text + SerializeAll(kids, m) + s
  {
    if kids == [] {
      assert text + s + "" == text + "" + s;
    } else {
      var n := |kids| - 1;
      var last := kids[n];
      var last' := last.(tail := last.tail + s);
      var kids' := kids[..n] + [last'];
      assert Attach(text, kids, s) == (text, kids');
      assert kids'[..n] == kids[..n] && kids'[n] == last';
      var init := SerializeAll(kids[..n], m);
      calc {
        text + SerializeAll(kids', m);
      == { SerializeAllLast(kids', m); }
        text + (init + Serialize(last', m));
      == { SerializeLongerTail(last, s, m); }
        text + (init + (Serialize(last, m) + s));
      == { PyStr.Regroup(init, Serialize(last, m), s); }
        text + ((init + Serialize(last, m)) + s);
      == { SerializeAllLast(kids, m); }
        text + (SerializeAll(kids, m) + s);
      == { PyStr.Regroup(text, SerializeAll(kids, m), s); }
        text + SerializeAll(kids, m) + s;
      }
    }
  }

  // ---------------------------------------------------------------------
  // Paths of child positions, and `e.drop_tree()`.
  // ---------------------------------------------------------------------

  /** `path` leads from `e` down to an element, one child position per step. */
  predicate Reaches(e: Element, path: seq<nat>)
    decreases |path|
  {
    path == [] || (path[0] < |e.children| && Reaches(e.children[path[0]], path[1..]))
  }

  /** The element `path` leads to. */
  function At(e: Element, path: seq<nat>): Element
    requires Reaches(e, path)
    decreases |path|
  {
    if path == [] then e else At(e.children[path[0]], path[1..])
  }

  /** `e.children[i].drop_tree()`: the child and all it contains are
      removed, and its tail joins the previous sibling's tail, or `e.text`
      when it was the first child. */
  function DropChild(e: Element, i: nat): (r: Element)
    requires i < |e.children|
    ensures r.tag == e.tag && r.attrs == e.attrs && r.tail == e.tail
    ensures |r.children| == |e.children| - 1
    ensures forall k :: 0 <= k < i - 1 ==> r.children[k] == e.children[k]
    ensures forall k :: i <= k < |r.children| ==> r.children[k] == e.children[k + 1]
    ensures forall k :: 0 <= k < i ==>
      r.children[k].tag == e.children[k].tag && r.children[k].children == e.children[k].children
    ensures i == 0 ==> r.text == e.text + e.children[0].tail
    ensures i > 0 ==> r.text == e.text
    ensures i > 0 ==> r.children[i - 1] == e.children[i - 1].(tail := e.children[i - 1].tail + e.children[i].tail)
  {
    var cs := e.children;
    var p := Attach(e.text, cs[..i], cs[i].tail);
    assert forall k :: 0 <= k < i - 1 ==> p.1[k] == cs[k];
    e.(text := p.0, children := p.1 + cs[i + 1..])
  }

  /** The children left once child `i` is dropped: the others in order,
      the one before it carrying its tail. */
  lemma DropChildChildren(e: Element, i: nat)
    requires i < |e.children|
    ensures var cs := e.children;
            DropChild(e, i).children ==
              if i == 0 then cs[1..]
              else cs[..i - 1] + [cs[i - 1].(tail := cs[i - 1].tail + cs[i].tail)] + cs[i + 1..]
  {
    var cs := e.children;
    if i > 0 {
      assert cs[..i][..i - 1] == cs[..i - 1] && cs[..i][i - 1] == cs[i - 1];
    }
  }

  /** Dropping a child removes exactly its rendering without its tail: the
      text, the other children and the tail render as before. */
  lemma {:induction false} DropChildRender(e: Element, i: nat, m: Method)
    requires i < |e.children|
    ensures var r := DropChild(e, i);
            r.text + SerializeAll(r.children, m) ==
            e.text + SerializeAll(e.children[..i], m) + e.children[i].tail + SerializeAll(e.children[i + 1..], m)
  {
    var cs := e.children;
    var p := Attach(e.text, cs[..i], cs[i].tail);
    var r := DropChild(e, i);
    assert r.text == p.0 && r.children == p.1 + cs[i + 1..];
    var rest := SerializeAll(cs[i + 1..], m);
    calc {
      r.text + SerializeAll(r.children, m);
      { SerializeAllConcat(p.1, cs[i + 1..], m); }
      p.0 + (SerializeAll(p.1, m) + rest);
      { PyStr.Regroup(p.0, SerializeAll(p.1, m), rest); }
      (p.0 + SerializeAll(p.1, m)) + rest;
      { AttachSerialize(e.text, cs[..i], cs[i].tail, m); }
      e.text + SerializeAll(cs[..i], m) + cs[i].tail + rest;
    }
  }

  /** The rendering of `e` once its child `i` is dropped: `e` as before,
      except that the child's own markup is gone and only its tail stays. */
  lemma DropChildSerialize(e: Element, i: nat, m: Method)
    requires i < |e.children|
    ensures Serialize(DropChild(e, i), m) ==
            StartTag(e, m) + e.text + SerializeAll(e.children[..i], m) + e.children[i].tail
            + SerializeAll(e.children[i + 1..], m) + EndTag(e, m) + e.tail
  {
    var r := DropChild(e, i);
    DropChildRender(e, i, m);
    assert StartTag(r, m) == StartTag(e, m) && EndTag(r, m) == EndTag(e, m);
    RegroupInside(StartTag(e, m), r.text, SerializeAll(r.children, m), EndTag(e, m), e.tail,
                  e.text, SerializeAll(e.children[..i], m), e.children[i].tail, SerializeAll(e.children[i + 1..], m));
  }

  /** The stripped rendering of an ordinary element once its child `i` is
      dropped. */
  lemma DropChildString(e: Element, i: nat)
    requires i < |e.children| && e.tag !in SpecialTags
    ensures ElementString(DropChild(e, i), Html) ==
            PyStr.Strip(StartTag(e, Html) + e.text + SerializeAll(e.children[..i], Html) + e.children[i].tail
                        + SerializeAll(e.children[i + 1..], Html) + EndTag(e, Html) + e.tail)
  {
    DropChildSerialize(e, i, Html);
  }

  lemma RegroupInside(open: string, x: string, y: string, close: string, tl: string,
                      a: string, b: string, c: string, d: string)
    requires x + y == a + b + c + d
    ensures open + x + y + close + tl == open + a + b + c + d + close + tl
  {
    calc {
      open + x + y;
      { PyStr.Regroup(open, x, y); }
      open + (a + b + c + d);
      { PyStr.Regroup(open, a + b + c, d); }
      open + (a + b + c) + d;
      { PyStr.Regroup(open, a + b, c); }
      open + (a + b) + c + d;
      { PyStr.Regroup(open, a, b); }
      open + a + b + c + d;
    }
  }

  /** Dropping a grandchild changes only the child that held it. */
  lemma DropAtGrandchild(e: Element, i: nat, j: nat)
    requires i < |e.children| && j < |e.children[i].children|
    ensures Reaches(e, [i, j])
    ensures DropAt(e, [i, j]).children == e.children[..i] + [DropChild(e.children[i], j)] + e.children[i + 1..]
  {
    assert [i, j][1..] == [j] && [j][1..] == [];
    assert Reaches(e.children[i], [j]);
  }

  /** The children of `e`, rendered one after the other, once the
      grandchild at `[i, j]` is dropped: only child `i` renders
      differently, without the grandchild's markup but with its tail. */
  lemma DropGrandchildString(e: Element, i: nat, j: nat)
    requires i < |e.children| && j < |e.children[i].children| && e.children[i].tag !in SpecialTags
    ensures Reaches(e, [i, j])
    ensures var cs := e.children;
            var q := cs[i];
            ElementsString(DropAt(e, [i, j]).children) ==
              ElementsString(cs[..i]) +
              PyStr.Strip(StartTag(q, Html) + q.text + SerializeAll(q.children[..j], Html) + q.children[j].tail
                          + SerializeAll(q.children[j + 1..], Html) + EndTag(q, Html) + q.tail) +
              ElementsString(cs[i + 1..])
  {
    var cs := e.children;
    DropAtGrandchild(e, i, j);
    ElementsStringAround(cs, i, DropChild(cs[i], j));
    DropChildString(cs[i], j);
  }

  /** `At(e, path).drop_tree()`, for a path below `e`. */
  function DropAt(e: Element, path: seq<nat>): (r: Element)
    requires path != [] && Reaches(e, path)
    ensures r.tag == e.tag && r.attrs == e.attrs && r.tail == e.tail
    ensures |path| == 1 ==> r == DropChild(e, path[0])
    ensures |path| > 1 ==> r.text == e.text && |r.children| == |e.children|
    ensures |path| > 1 ==> forall k :: 0 <= k < |e.children| && k != path[0] ==> r.children[k] == e.children[k]
    ensures |path| > 1 ==> r.children[path[0]] == DropAt(e.children[path[0]], path[1..])
    decreases |path|
  {
    if |path| == 1 then DropChild(e, path[0])
    else
      var i := path[0];
      var cs := e.children;
      e.(children := cs[..i] + [DropAt(cs[i], path[1..])] + cs[i + 1..])
  }
}
