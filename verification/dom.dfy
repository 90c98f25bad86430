/**
  The document as the page script sees it: a tree of elements and text nodes. An element
  carries its tag, id and classes, whether it is rendered (the layout checks of the page script
  collapsed to one flag), the marker attributes the script sets on it, and its children.
  Elements are identified by their path of child indices from the root.
*/
module Dom {
  import Strings

  /**
    The marker state of an element: the `data-editable`, `data-numeric` and `data-editing`
    attributes, and whether `contentEditable` is on.
  */
  datatype Marks = Marks(editable: bool, numeric: bool, editing: bool, contentEditable: bool)

  const Unmarked := Marks(false, false, false, false)

  /** The marks of a node; a text node has none. */
  function MarksOf(n: Node): Marks {
    if n.Element? then n.marks else Unmarked
  }

  datatype Node =
    | Element(tag: string, id: string, classes: seq<string>, rendered: bool, marks: Marks, children: seq<Node>)
    | Text(data: string)

  /** Child indices from the root to a node. */
  type Path = seq<nat>

  // ---------------------------------------------------------------- text

  /** `textContent`: the text of every text node below, in document order. */
  function TextContent(n: Node): string
    decreases n
  {
    match n
    case Text(d) => d
    case Element(_, _, _, _, _, cs) => ChildrenText(cs)
  }

  function ChildrenText(cs: seq<Node>): string
    decreases cs
  {
    if |cs| == 0 then "" else ChildrenText(cs[..|cs| - 1]) + TextContent(cs[|cs| - 1])
  }

  /** Assigning `textContent`: every child is replaced by one text node, or by nothing for "". */
  function SetText(n: Node, s: string): (r: Node)
    requires n.Element?
    ensures r.Element? && TextContent(r) == s
    ensures r.(children := n.children) == n
  {
    var cs := if s == "" then [] else [Text(s)];
    assert ChildrenText(cs) == s by {
      if s != "" {
        assert cs[..0] == [];
      }
    }
    n.(children := cs)
  }

  /** A second write wins outright: the first leaves no trace. */
  lemma SetTextTwice(n: Node, a: string, b: string)
    requires n.Element?
    ensures SetText(SetText(n, a), b) == SetText(n, b)
  {
  }

  // ---------------------------------------------------------------- editability

  /** Tags whose elements are never offered for editing. */
  const Denylist: set<string> := {"script", "style", "link", "meta", "iframe", "svg"}

  /** Fragments that mark text as code rather than page content. */
  const CodeMarkers: seq<string> := ["function(", "window.", "document.", "Element"]

  /**
    `isEditableElement`, branch by branch: a denied tag, empty trimmed text, or trimmed text
    containing a code marker rule the element out; otherwise it is editable when rendered.
  */
  predicate Editable(n: Node) {
    if !n.Element? then false
    else if Strings.ToLower(n.tag) in Denylist then false
    else
      var text := Strings.Trim(TextContent(n));
      if |text| == 0 then false
      else if Strings.Contains(text, "function(") || Strings.Contains(text, "window.")
           || Strings.Contains(text, "document.") || Strings.Contains(text, "Element") then false
      else n.rendered
  }

  /** Text an editable element may show: non-blank once trimmed and free of every code marker. */
  predicate ShowsText(s: string) {
    var text := Strings.Trim(s);
    |text| > 0 && forall i | 0 <= i < |CodeMarkers| :: !Strings.Contains(text, CodeMarkers[i])
  }

  /** What editability asks of an element apart from its text: an allowed tag, and being rendered. */
  predicate Allowed(n: Node) {
    n.Element? && Strings.ToLower(n.tag) !in Denylist && n.rendered
  }

  /** The denylists, stated declaratively: editable means allowed and showing acceptable text. */
  lemma EditableIff(n: Node)
    ensures Editable(n) <==> Allowed(n) && ShowsText(TextContent(n))
  {
    var text := Strings.Trim(TextContent(n));
    assert CodeMarkers[0] == "function(" && CodeMarkers[1] == "window.";
    assert CodeMarkers[2] == "document." && CodeMarkers[3] == "Element";
    if ShowsText(TextContent(n)) {
      assert !Strings.Contains(text, CodeMarkers[0]) && !Strings.Contains(text, CodeMarkers[1]);
      assert !Strings.Contains(text, CodeMarkers[2]) && !Strings.Contains(text, CodeMarkers[3]);
    }
  }

  /** After a write, an element is editable exactly when it is allowed and the written text is acceptable. */
  lemma EditableAfterWrite(n: Node, s: string)
    requires n.Element?
    ensures Editable(SetText(n, s)) <==> Allowed(n) && ShowsText(s)
  {
    EditableIff(SetText(n, s));
  }

  /** The leaf rule of the outline pass: no element children (`children.length === 0`). */
  predicate IsLeaf(n: Node) {
    n.Element? && forall i | 0 <= i < |n.children| :: n.children[i].Text?
  }

  // ---------------------------------------------------------------- paths

  /** `p` leads from `n` to a node. */
  predicate IsPath(n: Node, p: Path)
    decreases |p|
  {
    |p| == 0 || (n.Element? && p[0] < |n.children| && IsPath(n.children[p[0]], p[1..]))
  }

  /** The node `p` leads to; an empty text node when `p` leads nowhere. */
  function At(n: Node, p: Path): (r: Node)
    ensures !IsPath(n, p) ==> r == Text("")
    decreases |p|
  {
    if |p| == 0 then n
    else if n.Element? && p[0] < |n.children| then At(n.children[p[0]], p[1..])
    else Text("")
  }

  /** `p` leads from `n` to an element. */
  predicate IsElementPath(n: Node, p: Path) {
    At(n, p).Element?
  }

  /** A path's last step is a child index of the element its prefix leads to. */
  lemma {:induction false} AtLast(n: Node, p: Path)
    requires IsPath(n, p) && |p| > 0
    ensures IsElementPath(n, p[..|p| - 1]) && IsPath(n, p[..|p| - 1])
    ensures p[|p| - 1] < |At(n, p[..|p| - 1]).children|
    ensures At(n, p) == At(n, p[..|p| - 1]).children[p[|p| - 1]]
    decreases |p|
  {
    if |p| > 1 {
      var c := n.children[p[0]];
      assert p[1..][..|p[1..]| - 1] == p[..|p| - 1][1..];
      AtLast(c, p[1..]);
    }
  }

  /** A child step extends a path to an element. */
  lemma {:induction false} AtChild(n: Node, p: Path, i: nat)
    requires IsElementPath(n, p) && i < |At(n, p).children|
    ensures IsPath(n, p + [i]) && At(n, p + [i]) == At(n, p).children[i]
    decreases |p|
  {
    if |p| > 0 {
      assert (p + [i])[1..] == p[1..] + [i];
      AtChild(n.children[p[0]], p[1..], i);
    }
  }

  /** Every proper prefix of a path leads to an element. */
  lemma {:induction false} PrefixIsElementPath(n: Node, p: Path, k: nat)
    requires IsPath(n, p) && k < |p|
    ensures IsElementPath(n, p[..k]) && IsPath(n, p[..k])
    decreases |p| - k
  {
    AtLast(n, p);
    if k < |p| - 1 {
      PrefixIsElementPath(n, p[..|p| - 1], k);
      assert p[..|p| - 1][..k] == p[..k];
    }
  }

  // ---------------------------------------------------------------- ids

  /** How many elements of the tree carry `id`: what `querySelectorAll('#' + id).length` counts. */
  function IdCount(n: Node, id: string): nat
    decreases n
  {
    match n
    case Text(_) => 0
    case Element(_, x, _, _, _, cs) => (if x == id then 1 else 0) + ChildrenIdCount(cs, id)
  }

  function ChildrenIdCount(cs: seq<Node>, id: string): nat
    decreases cs
  {
    if |cs| == 0 then 0 else ChildrenIdCount(cs[..|cs| - 1], id) + IdCount(cs[|cs| - 1], id)
  }

  // ---------------------------------------------------------------- markers

  /** Sets the marks of every element to `f` of that element; nothing else changes. */
  function Remark(n: Node, f: Node -> Marks): (r: Node)
    ensures r.Element? == n.Element?
    decreases n
  {
    match n
    case Text(_) => n
    case Element(t, x, cl, rd, _, cs) =>
      Element(t, x, cl, rd, f(n), seq(|cs|, i requires 0 <= i < |cs| => Remark(cs[i], f)))
  }

  /** The tree with every mark cleared: what remarking cannot change. */
  function Erase(n: Node): Node {
    Remark(n, _ => Unmarked)
  }

  /** Remarking leaves text, ids, tags, classes, rendering and shape alone: only marks differ. */
  lemma {:induction false} RemarkErase(n: Node, f: Node -> Marks)
    ensures Erase(Remark(n, f)) == Erase(n)
    decreases n
  {
    match n
    case Text(_) =>
    case Element(t, x, cl, rd, m, cs) =>
      var l := Remark(n, f).children;
      forall i | 0 <= i < |cs|
        ensures Remark(l[i], _ => Unmarked) == Remark(cs[i], _ => Unmarked)
      {
        RemarkErase(cs[i], f);
      }
  }

  /** Remarking keeps every path, and the node a path leads to is that node remarked. */
  lemma {:induction false} RemarkAt(n: Node, f: Node -> Marks, p: Path)
    ensures IsPath(Remark(n, f), p) == IsPath(n, p)
    ensures At(Remark(n, f), p) == Remark(At(n, p), f)
    decreases |p|
  {
    if |p| > 0 && n.Element? && p[0] < |n.children| {
      RemarkAt(n.children[p[0]], f, p[1..]);
    }
  }

  /** The marks an element ends up with are exactly `f` of the element as it was. */
  lemma RemarkMarks(n: Node, f: Node -> Marks, p: Path)
    requires IsElementPath(n, p)
    ensures IsElementPath(Remark(n, f), p) && At(Remark(n, f), p).marks == f(At(n, p))
  {
    RemarkAt(n, f, p);
  }

  /** Remarking leaves the text content alone. */
  lemma {:induction false} RemarkText(n: Node, f: Node -> Marks)
    ensures TextContent(Remark(n, f)) == TextContent(n)
    decreases n
  {
    match n
    case Text(_) =>
    case Element(_, _, _, _, _, cs) =>
      RemarkChildrenText(cs, Remark(n, f).children, f);
  }

  lemma {:induction false} RemarkChildrenText(cs: seq<Node>, rs: seq<Node>, f: Node -> Marks)
    requires |rs| == |cs| && forall i | 0 <= i < |cs| :: rs[i] == Remark(cs[i], f)
    ensures ChildrenText(rs) == ChildrenText(cs)
    decreases cs
  {
    if |cs| > 0 {
      RemarkChildrenText(cs[..|cs| - 1], rs[..|rs| - 1], f);
      RemarkText(cs[|cs| - 1], f);
    }
  }
}
