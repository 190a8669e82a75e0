# Sphinx definition lists to flashcard rows

This project models the extraction engine of `anki-python-parse`. The engine
reads the HTML of a Python documentation page, as Sphinx renders it, and turns
each documented entry into a 9-field flashcard row. An entry is a `dl`
container with one or more `dt` signatures and a `dd` body.

The engine has four parts:

- **Link stripping** (`replace_links`) removes every descendant `<a>` of the
  page and keeps what the anchor held. There are two drafts. pydocparse.py
  appends the anchor's own text to its parent's text. The earlier
  functions.py drops that text.
- **Rendering and lookup helpers.** `tostring` renders a string, an element
  with its tail, or a sequence. `node` returns the first match or a default.
- **Container processing** (the `for dl` loop of `extract`):
  - skip containers with an attribute value outside the allowed kinds;
  - pick the description of the body, or skip the container;
  - render the description as "back";
  - remove the description and render what remains as "other".
- **Signature composition** (the `for dt` loop):
  - take the parameter nodes between the `sig-paren` spans;
  - derive `opts` and `opts_t`;
  - build `front`, `altfront` and the label;
  - strike the name through in "back";
  - prepend the signature block to "other";
  - emit the row.

  "back" and "other" carry over from one signature of a container to the
  next.

Modules:

- `Wrappers`: `Option`.
- `PyStr`: Python's `str.strip()`, `str.strip(chars)` and `str.replace`,
  including the empty-pattern case.
- `Dom`: the element tree in lxml's shape (tag, attributes, text, children,
  tail). It also holds the serialisation, `tostring`, `node`, the fixed
  structural lookups, and `drop_tree`.
- `Links`: both drafts of `replace_links` and a corrected one, chosen by a
  `Draft` value. A rendering specification is proved for all three.
- `Extraction`: the container filter, the description, the parameter nodes,
  the per-signature fields, and the rows. `Extract` is the `for dl` loop of
  `extract` and `ExtractContainer` its body, which holds the `for dt` loop;
  they are proved equal to the row functions `PageRows` and
  `ContainerRows`. `SignatureRow` is the straight-line body of the `for dt`
  loop: its contract ties its row to `RowOf` and `SigOf`, and the loop
  invariant of `ExtractContainer` ties the rows it collects to `SigRows`.

Where the two source files agree, the rows cite pydocparse.py, the later
draft. Both drafts share the `extract` logic (functions.py:96-132 and
pydocparse.py:158-194), so the `Extraction` members model both.

The one point where the two drafts' `extract` differs is the description
test. functions.py tests the element's truth value; pydocparse.py tests
`len`. For an lxml element both mean "has child elements", and for the `''`
default both are false.

In both drafts the parameters of a signature are the nodes between its
first `sig-paren` span and the next `sig-paren` sibling of that span
(`ParenRange`, `SigNodes`). Those nodes are the elements and the text nodes
of their tails, so `tostring` renders each tail inside the parameters twice:
once with its element and once as a text node. The model keeps this.

## Model

| member | source | states |
|---|---|---|
| Links.ReplaceLinksRemovesAnchors | pydocparse.py:97-103 | after `replace_links` (any draft) no descendant is an `a`; the root keeps its tag, attributes and tail, even when it is itself an `a` |
| Links.ReplaceLinksAnchorFree | pydocparse.py:97-103 | a tree without descendant anchors is left exactly as it was |
| Links.ReplaceLinksIdempotent | pydocparse.py:97-103 | a second `replace_links` changes nothing |
| Links.RootAnchorExample | pydocparse.py:93-95 | the docstring case `<a>test</a>`: a root anchor is kept whole |
| Links.DoctestExample | pydocparse.py:77-87 | the first docstring case, its attribute values and closing text shortened: the anchor round the `code` element disappears, the `code` element takes its place with the anchor's tail after it, under every draft |
| Links.NiceTestExample | pydocparse.py:89-91 | the docstring case `<html><body><p>nice <a>test</a></p></body></html>` becomes `<p>nice test</p>` |
| Links.ReplaceLinksRender | pydocparse.py:97-103 | the tree left behind renders, by either method, as `Unwrapped` specifies: each anchor is gone, its children and tail stay in place, and its text goes where the draft puts it |
| Links.StripAnchorsRender | pydocparse.py:103 | `strip_elements(tree, 'a', with_tail=False)` renders as `Skipped` specifies: each anchor and all it holds disappear, and only its tail stays |
| Links.StripAnchors | pydocparse.py:103 | the stripped tree has no anchor below the root and keeps the root's tag, attributes and tail |
| Links.StripInto | pydocparse.py:103 | the children left after the strip contain no anchor |
| Links.HoistRender | pydocparse.py:97-102 | the anchor loop leaves a tree whose stripped rendering is the unwrapped rendering of the original |
| Links.HoistIntoRender | pydocparse.py:97-102 | over a run of siblings, DropText and TextToParent only extend the parent's text by `Lead`, and TextInPlace renders the text and the kids together as the unwrapped siblings |
| Links.Hoist | pydocparse.py:97-102 | the anchor loop keeps the tag, attributes and tail of the element it works on |
| Links.HoistMovesChildren | pydocparse.py:101-102 | for an anchor none of whose children is itself an anchor, its child elements move in order, each with its tail, to just before it, after the anchor's own text has been handled; anchors further below are then handled inside the moved children; the emptied anchor stays until the strip |
| Links.HoistIntoNoAnchors | pydocparse.py:97-102 | over siblings none of which is an anchor, the loop keeps them in place and in order and works only inside each of them |
| Links.HoistText | pydocparse.py:98-100 | pydocparse.py leaves the parent's text followed by the texts of its anchors, in document order; the functions.py draft leaves the parent's text unchanged |
| Links.DraftsAgree | functions.py:73-76 | when no anchor has text of its own, the two drafts and the corrected one produce the same tree |
| Links.CorrectedKeepsText | pydocparse.py:75 | with the anchor text kept in place, the text rendering of the tree is exactly the original's |
| Links.ToParentReordersText | pydocparse.py:98-100 | on `<p>Use <code>x</code> or <a>y</a>.</p>` the text `Use x or y.` becomes `Use yx or .` |
| Links.DropLosesText | functions.py:73-76 | on the same paragraph functions.py gives `Use x or .`, so the anchor text is lost |
| Links.InPlaceKeepsOrder | pydocparse.py:75 | on the same paragraph the corrected draft keeps `Use x or y.` |
| Links.UseXOrYParts | pydocparse.py:97-103 | the text of the example paragraph, its anchor texts, and what each draft renders for its children |
| Dom.ElementString | pydocparse.py:127-128 | outside the special form classes, an element's rendering has no white space at either end |
| Dom.SequenceIgnoresMethod | pydocparse.py:131 | `tostring(xs, 'text') == tostring(xs)` for every sequence |
| Dom.ItemsStringConcat | pydocparse.py:131 | a sequence renders as the concatenation of its parts |
| Dom.ItemsOfElements | pydocparse.py:131 | `tostring(e.iterchildren())` is the concatenation of the children's renderings |
| Dom.ToStringExamples | pydocparse.py:112-125 | docstring cases: `tostring('test') == 'test'`, and the `b` element renders with its tail as `<b>huge</b> event.` |
| Dom.RendersAs | pydocparse.py:128 | an element whose serialisation has no outer white space renders as that serialisation |
| Dom.SerializeEndsWithTail | pydocparse.py:128 | an element's serialisation ends with its tail |
| Dom.Get | pydocparse.py:170 | an attribute lookup finds a value iff some attribute has that name, and the value belongs to such an attribute |
| Dom.Values | pydocparse.py:159 | `dl.values()` lists every attribute value in order |
| Dom.ChildrenTagged | pydocparse.py:167 | `./dt` holds exactly the children with that tag, and is empty iff no child has it |
| Dom.ChildrenTaggedConcat | pydocparse.py:167 | `./dt` keeps document order: over two runs of children it is the tagged children of the first run followed by those of the second |
| Dom.FirstTagged | pydocparse.py:161 | `./dd[1]` is a child with the tag, and there is no earlier one; none exists only when no child has the tag |
| Dom.FirstOfChildrenTagged | pydocparse.py:161 | the first of `./tag` is `./tag[1]` |
| Dom.FirstBelowIsFirst | pydocparse.py:176 | the lookup finds the first element of the subtree, in document order, that passes the `tag[@class=cls]` test, and finds nothing only when no element at any depth passes it |
| Dom.NoMatchNoText | pydocparse.py:179-181 | without a matching descendant there is no text node, so the lookup yields `''` |
| Dom.FirstMatchText | pydocparse.py:179-181 | when the first matching descendant has text, that text is what the lookup yields |
| Dom.Attach | pydocparse.py:165 | text re-attached after removal changes no element's tag, attributes or children |
| Dom.AttachSerialize | pydocparse.py:165 | the re-attached text renders just after the text and kids it follows |
| Dom.DropChild | pydocparse.py:165 | `drop_tree` of a child removes it and shifts the later children, which stay unchanged; its tail joins the previous sibling's tail, or the parent's text for a first child |
| Dom.DropChildChildren | pydocparse.py:165 | the children left after `drop_tree` are the others in order, the one before the dropped child carrying its tail |
| Dom.DropChildRender | pydocparse.py:165 | dropping a child removes its rendering but keeps its tail in place |
| Dom.DropAt | pydocparse.py:165 | dropping along a path changes only the child on the path, which has the element dropped from it in turn; a one-step path is `DropChild` |
| Dom.DropGrandchildString | pydocparse.py:165-166 | once a grandchild is dropped, the children render as before except the one that held it, which loses the grandchild's markup and keeps its tail |
| Dom.DropChildSerialize | pydocparse.py:165 | an element whose child is dropped serialises as before, minus that child's markup, its tail staying in place |
| PyStr.LeadIn | pydocparse.py:128 | the counted prefix consists of stripped characters and stops at the first kept one |
| PyStr.TrailIn | pydocparse.py:128 | the same for the suffix |
| PyStr.StripCharsIsMiddle | pydocparse.py:186 | `strip(chars)` cuts only characters of the set, only at the ends, and leaves none at either end |
| PyStr.StripCharsIdempotent | pydocparse.py:186 | stripping twice removes nothing more |
| PyStr.NoOuterCharsStripsNothing | pydocparse.py:128 | a string with no such character at either end is unchanged |
| PyStr.ReplaceAbsent | pydocparse.py:182 | replacing a non-empty string that does not occur changes nothing |
| PyStr.ReplaceBySelf | pydocparse.py:182 | replacing a string by itself changes nothing, even for `''` |
| PyStr.ReplaceGrows | pydocparse.py:182 | replacing an occurring string by a longer one lengthens the result |
| PyStr.ReplaceFirst | pydocparse.py:182 | `replace` scans from the left: the first occurrence of a non-empty pattern becomes the replacement and the scan goes on after it; with `ReplaceAbsent` this fixes the result to every non-overlapping occurrence replaced |
| Extraction.Unknown | pydocparse.py:159 | the count of values outside `classes` is 0 iff every value is one of them |
| Extraction.RecognizedIff | pydocparse.py:159-160 | a container is processed iff every attribute value, of any attribute, is one of the nine kinds, compared as whole strings; a container without attributes is processed |
| Extraction.Body | pydocparse.py:161 | the body is the first `dd` child of the container, the head of `./dd` |
| Extraction.Description | pydocparse.py:162 | the description path leads to an element below the body |
| Extraction.DescribeFrom | pydocparse.py:162 | the description is the first body child that is a `p`, or a blockquote with a `div` (then its first `div`); nothing earlier qualifies; and none is found only when no child qualifies |
| Extraction.DescriptionIsFirstMatch | pydocparse.py:162 | the description is the first match, in document order, of the union of `./p[1]`, `./blockquote/div/p[1]` and `./blockquote/div[1]`, or none when there is no match |
| Extraction.NextParen | pydocparse.py:169-173 | the position found lies in the searched range |
| Extraction.NextParenSpec | pydocparse.py:169-173 | the position found is the first `sig-paren` from there on, and nothing is found only when there is none |
| Extraction.ParenRange | pydocparse.py:169-173 | the two positions found are ordered child positions |
| Extraction.ParenRangeSpec | pydocparse.py:169-173 | the range found is the first `sig-paren` child and the next one, with none before or between them; no range exists only when fewer than two children are `sig-paren` spans |
| Extraction.SigNodesBetween | pydocparse.py:169-173 | when no child of the signature holds a `sig-paren`, the parameter nodes are exactly the sibling nodes (elements and tail texts) strictly between the first `sig-paren` and the next |
| Extraction.NoParenNoNodes | pydocparse.py:169-173 | without a `sig-paren` below an element, it has no parameter nodes |
| Extraction.OptsCases | pydocparse.py:174-178 | `opts` is non-empty iff there is a `sig-paren` or the parameters render non-empty; it is `<em>` + parameters or `()` + `</em>`; `opts_t` is `(` + the parameters' HTML rendering + `)` when there are `opts`, else `''` |
| Extraction.NoParenSignature | pydocparse.py:176-191 | without `sig-paren`, `opts` and `opts_t` are empty, `front` is class + name, `altfront` has no `()`, and no block is added to "other" |
| Extraction.EmptySignature | pydocparse.py:176-184 | parentheses with nothing between give `opts == '<em>()</em>'`, `opts_t == '()'` and an `altfront` with `()` |
| Extraction.AltFrontParens | pydocparse.py:184 | `altfront` ends in `()` iff there are `opts` |
| Extraction.LabelRule | pydocparse.py:185-188 | the label is the page's when there is no class name; otherwise it names the class without dots at either end |
| Extraction.Sigs | pydocparse.py:167 | one signature record per `dt`, the `k`-th made from the `k`-th `dt` |
| Extraction.SigRows | pydocparse.py:167-194 | one row per signature |
| Extraction.SigRowsThread | pydocparse.py:182-191 | "back" and "other" are threaded: the first row strikes the first name in the container's "back" and prepends the first block to its "other"; every later row does the same to what the previous row carries |
| Extraction.SigRowsExtend | pydocparse.py:192-194 | the rows of one more signature are the earlier rows followed by its own row |
| Extraction.RowConstants | pydocparse.py:192-194 | every row has `None`, `'reverse'`, the page URL and `'python'` at positions 3, 5, 7 and 8, and the front, label and alternative front of its own signature |
| Extraction.StrikeEffect | pydocparse.py:182 | a name absent from "back" leaves it unchanged; a present one lengthens it |
| Extraction.StrikeFirst | pydocparse.py:182 | the strike-through works left to right: the first occurrence of the name is wrapped in `<strike>` and the rest of "back" after it is struck in turn |
| Extraction.PrepareSpec | pydocparse.py:159-166 | a container is skipped iff it is not recognized, the description union matches nothing in its body, or the first match in document order has no child elements; otherwise "back" is the stripped rendering of that first match and "other" the stripped renderings of the body's children once it is dropped |
| Extraction.PrepareOther | pydocparse.py:164-166 | for a processed container, "other" is the rendering of the body's children once the description is dropped |
| Extraction.ParagraphOther | pydocparse.py:162-165 | for a `p` description, the body's children left are the others in order, the `p`'s tail joined to the tail of the child before it |
| Extraction.QuoteOther | pydocparse.py:162-166 | for a `blockquote/div[1]` description, the body's children render in order, that blockquote without the `div`'s markup and content but with the `div`'s tail |
| Extraction.ContainerRowsCount | pydocparse.py:167-194 | a skipped container adds no row, and a processed one adds one per `dt` |
| Extraction.SignatureRow | pydocparse.py:169-194 | the body of the `for dt` loop computes the row of the signature's fields with "back" struck and its block prepended to "other" |
| Extraction.ExtractContainer | pydocparse.py:159-194 | the `for dl` loop body appends exactly the container's rows to `results` |
| Extraction.Extract | pydocparse.py:158-194 | `extract` appends the rows of the page's containers, container after container, to `results` |

## Left out

- Fetching the page (`requests.get`) and parsing it (`html.fromstring`,
  including its html/body/p wrapping): I/O and a foreign library. The tree,
  and the sequence of containers the page's XPath selects from it after
  `replace_links`, are inputs.
- The `pages` table, general XPath evaluation, `generate_csv` and `main`
  with its doctest run. These are configuration and output plumbing; only
  the engine's fixed lookups are modelled.
- Escaping, void elements, attribute quoting, comments and processing
  instructions: the serialisation is an abstract rendering with these
  details removed.
- Links.ReplaceLinks: it is modelled on values, not as the in-place loop.
  - Shared-node identity is not modelled, and neither is the source returning
    the same tree (pydocparse.py) or `None` (functions.py).
  - Document order is kept by treating a nested chain of anchors as one level.
    This is what the loop does, since it reaches outer anchors first.
- Extraction.Extract: `drop_tree` and `results +=` are modelled on values,
  and the selected containers are passed as values. Dropping a description
  can change a later container only in its tail: `drop_tree` appends the
  description's tail to the previous sibling, which may be a nested `dl`
  the selector picks later. No row reads a container's tail.
- Links.HoistMovesChildren: stated only for an anchor none of whose
  children is an anchor. For an anchor directly inside another, the loop
  moves the inner anchor's children to the outer level; `HoistRender`
  covers that case only through the rendering.
- Separate text nodes: an element's `text` and `tail` are single strings,
  so the text nodes that `strip_elements` leaves side by side, the text
  before a stripped anchor and the anchor's tail, become one string.
  The source's `text()` lookups take only the first of those nodes. So
  `Prop`, `ClassName` and `Name` read more than the source does when an
  anchor was stripped inside the property, class-name or name marker with
  text after it. Rendering is not affected.
- A recognized `dl` without a `dd` makes the source fail. The next `node`
  call is then made on the `''` default. The model requires a `dd` for every
  recognized container.
- Extraction.SigNodesBetween: stated only for signatures in which no child
  holds a `sig-paren` below it. `SigNodes` models nested ones too, but no closed form
  is proved for them.

## Findings

| source | as written | input that shows it | evidently intended | confidence | as-written member | corrected member |
|---|---|---|---|---|---|---|
| pydocparse.py:98-100 | an anchor's own text is appended to the end of its parent's leading text, in front of the parent's first child | `<p>Use <code>x</code> or <a>y</a>.</p>` reads `Use yx or .` afterwards | each anchor "replaced with its contents" where it stood, `Use x or y.` | not executed; the docstring cases put the anchor where both agree | Links.ToParentReordersText | Links.CorrectedKeepsText |
| functions.py:73-76 | the anchor's own text is removed with the anchor, despite the doc comment | the same paragraph reads `Use x or .` | `Use x or y.` | not executed | Links.DropLosesText | Links.CorrectedKeepsText |

The corrected draft is `TextInPlace`. It attaches an anchor's text where the
anchor stood, as `drop_tree` does with a tail. `Links.CorrectedKeepsText`
proves, for every tree, that its text rendering is unchanged.
`Links.InPlaceKeepsOrder` shows this on the example. The rest of the model
takes the draft as a parameter.
