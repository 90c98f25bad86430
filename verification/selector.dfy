/**
  `generateSelector`: the structural CSS path the page script records for an edited element.
  The walk climbs from the element towards `body`, one segment per element, and stops early at
  an element whose id is unique in the document.
*/
module Selector {
  import opened Optional
  import Strings
  import Numbers
  import opened Dom

  /** A document: its root element and the path of its `body`. */
  datatype Document = Document(root: Node, body: Path)

  /** A class stays in a selector unless it names a transient state. */
  predicate Stable(c: string) {
    !Strings.Contains(c, "hover") && !Strings.Contains(c, "active")
  }

  /** The stable classes, in their original order. */
  function StableClasses(cs: seq<string>): (r: seq<string>)
    ensures |r| <= |cs|
    decreases |cs|
  {
    if |cs| == 0 then []
    else (if Stable(cs[0]) then [cs[0]] else []) + StableClasses(cs[1..])
  }

  /** Exactly the stable classes are kept. */
  lemma {:induction false} StableClassesSpec(cs: seq<string>)
    ensures forall c :: c in StableClasses(cs) <==> c in cs && Stable(c)
    decreases |cs|
  {
    if |cs| > 0 {
      StableClassesSpec(cs[1..]);
      assert forall c :: c in cs <==> c == cs[0] || c in cs[1..];
    }
  }

  /** Filtering works piecewise, so the kept classes stay in their order, duplicates included. */
  lemma {:induction false} StableClassesConcat(a: seq<string>, b: seq<string>)
    ensures StableClasses(a + b) == StableClasses(a) + StableClasses(b)
    decreases |a|
  {
    if |a| > 0 {
      assert (a + b)[0] == a[0] && (a + b)[1..] == a[1..] + b;
      StableClassesConcat(a[1..], b);
    } else {
      assert a + b == b;
    }
  }

  /** How many of the first `upto` children are elements with tag `tag`. */
  function SameTagCount(cs: seq<Node>, tag: string, upto: nat): (k: nat)
    requires upto <= |cs|
    ensures k <= upto
    decreases upto
  {
    if upto == 0 then 0
    else SameTagCount(cs, tag, upto - 1) + (if cs[upto - 1].Element? && cs[upto - 1].tag == tag then 1 else 0)
  }

  /** Counting further never counts fewer, and a same-tag element at `i` is counted after index `i`. */
  lemma {:induction false} SameTagCountGrows(cs: seq<Node>, tag: string, i: nat, j: nat)
    requires i < j <= |cs|
    ensures SameTagCount(cs, tag, i) <= SameTagCount(cs, tag, j)
    ensures cs[i].Element? && cs[i].tag == tag ==> SameTagCount(cs, tag, i) + 1 <= SameTagCount(cs, tag, j)
    decreases j - i
  {
    if i + 1 < j {
      SameTagCountGrows(cs, tag, i, j - 1);
    }
  }

  /** The element at `p` has an id, and no other element of the document carries it. */
  predicate UniqueId(root: Node, p: Path) {
    var e := At(root, p);
    e.Element? && e.id != "" && IdCount(root, e.id) == 1
  }

  /** The parent of the node at `p`: its `parentElement`, an empty text node for the root. */
  function Parent(root: Node, p: Path): Node {
    if |p| == 0 then Text("") else At(root, p[..|p| - 1])
  }

  /**
    The `:nth-of-type(i)` suffix: present only when the parent has more than one element child
    of the node's tag, with `i` the node's 1-based position among them.
  */
  function NthOfType(root: Node, p: Path): string {
    var parent := Parent(root, p);
    var e := At(root, p);
    if |p| == 0 || !parent.Element? || !e.Element? || p[|p| - 1] >= |parent.children| then ""
    else
      var siblings := parent.children;
      if SameTagCount(siblings, e.tag, |siblings|) > 1 then
        ":nth-of-type(" + Numbers.NatToDigits(SameTagCount(siblings, e.tag, p[|p| - 1]) + 1) + ")"
      else ""
  }

  /** The segment of an element reached without a unique id: tag, stable classes, position. */
  function Segment(root: Node, p: Path): string {
    var e := At(root, p);
    if !e.Element? then ""
    else
      var stable := StableClasses(e.classes);
      Strings.ToLower(e.tag) + (if |stable| > 0 then "." + Strings.Join(stable, ".") else "") + NthOfType(root, p)
  }

  /**
    For an element below the root, the position is the 1-based index among the parent's same-tag
    element children, and the suffix, `:nth-of-type(` with that index in decimal, appears exactly
    when there is more than one of them.
  */
  lemma NthOfTypeSpec(root: Node, p: Path)
    requires IsPath(root, p) && |p| > 0 && IsElementPath(root, p)
    ensures Parent(root, p).Element? && p[|p| - 1] < |Parent(root, p).children|
    ensures var siblings := Parent(root, p).children;
      var tag := At(root, p).tag;
      var count := SameTagCount(siblings, tag, |siblings|);
      var index := SameTagCount(siblings, tag, p[|p| - 1]) + 1;
      && 1 <= index <= count
      && (NthOfType(root, p) == "" <==> count == 1)
      && (count > 1 ==> NthOfType(root, p) == ":nth-of-type(" + Numbers.NatToDigits(index) + ")")
  {
    AtLast(root, p);
    var siblings := Parent(root, p).children;
    SameTagCountGrows(siblings, At(root, p).tag, p[|p| - 1], |siblings|);
  }

  /** The walk ends at this element: its id is unique, it has no parent, or its parent is `body`. */
  predicate Stops(doc: Document, q: Path) {
    UniqueId(doc.root, q) || |q| == 0 || q[..|q| - 1] == doc.body
  }

  /** The segment of the element where the walk ends. */
  function Head(doc: Document, q: Path): string {
    if UniqueId(doc.root, q) then "#" + At(doc.root, q).id else Segment(doc.root, q)
  }

  /** The `while` loop of `generateSelector`: segments from the outermost visited element down to `p`. */
  function Walk(doc: Document, p: Path): (r: seq<string>)
    ensures 1 <= |r| <= |p| + 1
    decreases |p|
  {
    if Stops(doc, p) then [Head(doc, p)]
    else Walk(doc, p[..|p| - 1]) + [Segment(doc.root, p)]
  }

  /** `generateSelector`: nothing for a node that is not an element, else the segments joined by " > ". */
  function GenerateSelector(doc: Document, p: Path): (r: Option<string>)
    ensures r.Some? <==> IsElementPath(doc.root, p)
  {
    if IsElementPath(doc.root, p) then Some(Strings.Join(Walk(doc, p), " > ")) else None
  }

  /** The depth of the outermost element the walk visits. */
  function Top(doc: Document, p: Path): (s: nat)
    ensures s <= |p|
  {
    |p| + 1 - |Walk(doc, p)|
  }

  /** The walk ends at an element where it stops, and the elements it climbs through do not stop it. */
  lemma {:induction false} WalkStops(doc: Document, p: Path)
    ensures Stops(doc, p[..Top(doc, p)])
    ensures forall k | Top(doc, p) < k <= |p| :: !Stops(doc, p[..k])
    decreases |p|
  {
    var s := Top(doc, p);
    if Stops(doc, p) {
      assert p[..|p|] == p;
    } else {
      var q := p[..|p| - 1];
      WalkStops(doc, q);
      assert Top(doc, q) == s;
      assert q[..s] == p[..s];
      forall k | s < k <= |p|
        ensures !Stops(doc, p[..k])
      {
        if k <= |q| {
          assert q[..k] == p[..k];
        } else {
          assert p[..k] == p;
        }
      }
    }
  }

  /** The first segment is the head of the element where the walk ends. */
  lemma {:induction false} WalkHead(doc: Document, p: Path)
    ensures Walk(doc, p)[0] == Head(doc, p[..Top(doc, p)])
    decreases |p|
  {
    if Stops(doc, p) {
      assert p[..|p|] == p;
    } else {
      var q := p[..|p| - 1];
      WalkHead(doc, q);
      assert q[..Top(doc, q)] == p[..Top(doc, p)];
    }
  }

  /** Every later segment is the plain segment of the element at its depth. */
  lemma {:induction false} WalkSegments(doc: Document, p: Path)
    ensures forall i | 1 <= i < |Walk(doc, p)| :: Walk(doc, p)[i] == Segment(doc.root, p[..Top(doc, p) + i])
    decreases |p|
  {
    if !Stops(doc, p) {
      var q := p[..|p| - 1];
      var r, rq, s := Walk(doc, p), Walk(doc, q), Top(doc, p);
      WalkSegments(doc, q);
      assert Top(doc, q) == s;
      assert r == rq + [Segment(doc.root, p)];
      forall i | 1 <= i < |r|
        ensures r[i] == Segment(doc.root, p[..s + i])
      {
        if i < |rq| {
          assert rq[i] == Segment(doc.root, q[..s + i]);
          assert r[i] == rq[i] && q[..s + i] == p[..s + i];
        } else {
          assert s + i == |p| && r[i] == Segment(doc.root, p);
          assert p[..s + i] == p;
        }
      }
    }
  }

  /**
    The walk, stated declaratively: it visits the ancestors-or-self of `p` from `p` up to the
    nearest one where it stops (`s` is that one's depth); that one contributes its head, every
    element below it its plain segment.
  */
  lemma WalkSpec(doc: Document, p: Path)
    ensures var r, s := Walk(doc, p), Top(doc, p);
      && |r| == |p| + 1 - s
      && Stops(doc, p[..s])
      && (forall k | s < k <= |p| :: !Stops(doc, p[..k]))
      && r[0] == Head(doc, p[..s])
      && (forall i | 1 <= i < |r| :: r[i] == Segment(doc.root, p[..s + i]))
  {
    WalkStops(doc, p);
    WalkHead(doc, p);
    WalkSegments(doc, p);
  }

  /**
    For an element strictly inside `body`, the walk stops at the latest at the child of `body`:
    every element it visits lies strictly inside `body`, so `body` never contributes a segment.
  */
  lemma WalkStaysInsideBody(doc: Document, p: Path)
    requires |doc.body| < |p| && p[..|doc.body|] == doc.body
    ensures Top(doc, p) > |doc.body|
  {
    WalkStops(doc, p);
    var b := |doc.body| + 1;
    assert p[..b][..b - 1] == doc.body;
    assert Stops(doc, p[..b]);
  }
}
