/**
  The outline pass of the page script (`updateOutlines`) and its `STATE_CHANGED` handler. Both
  only ever touch the marker attributes of elements, so each is an instance of `Dom.Remark`:
  every element's new marks are a function of that element as it was.
*/
module Outlines {
  import opened Optional
  import Strings
  import Numbers
  import opened Dom
  import opened Records

  /** The page script's own state, with the document it works on. */
  datatype Page = Page(
    isActive: bool,
    showOutlines: bool,
    growth: Growth,
    domChanges: TextChanges,
    valueChanges: ValueChanges,
    isEditing: bool,
    root: Node)

  /** `STATE_CHANGED` as the coordinator sends it; `valueIncrease` may be missing. */
  datatype StateChanged = StateChanged(isActive: bool, showOutlines: bool, valueIncrease: Option<Growth>)

  // ---------------------------------------------------------------- the two steps of updateOutlines

  /**
    The clearing step: an element carrying `data-editable` or `data-numeric` loses both, and its
    `contentEditable` is switched off, unless it is being edited.
  */
  function Cleared(e: Node): Marks {
    var m := MarksOf(e);
    if (m.editable || m.numeric) && !m.editing then m.(editable := false, numeric := false, contentEditable := false)
    else m
  }

  /** The text the outline pass classifies: `textContent.trim()`. */
  function ShownText(e: Node): string {
    Strings.Trim(TextContent(e))
  }

  /**
    The decorating step: an editable element without element children gets `data-editable`
    when outlines are shown, and `data-numeric` when growth is on and its text is numeric.
  */
  function Decorated(e: Node, show: bool, growing: bool): Marks {
    var m := MarksOf(e);
    if IsLeaf(e) && Editable(e) then
      m.(editable := m.editable || show, numeric := m.numeric || (growing && Numbers.IsNumeric(ShownText(e))))
    else m
  }

  /**
    `updateOutlines(forceUpdate)`: nothing unless the page is active or the call is forced; then
    the clearing step, and, if the page is active, the decorating step on the cleared document.
  */
  function UpdateOutlines(pg: Page, force: bool): (r: Node) {
    if !pg.isActive && !force then pg.root
    else
      var cleared := Remark(pg.root, Cleared);
      if !pg.isActive then cleared
      else Remark(cleared, e => Decorated(e, pg.showOutlines, pg.growth.enabled))
  }

  // ---------------------------------------------------------------- STATE_CHANGED

  /** Deactivation strips all three markers, and `contentEditable`, from every element carrying one. */
  function Stripped(e: Node): Marks {
    var m := MarksOf(e);
    if m.editable || m.editing || m.numeric then Unmarked else m
  }

  /**
    The `STATE_CHANGED` handler: adopt the flags (default growth settings when none are sent); on
    deactivation forget the page's changes and strip every marker; then run the outline pass.
  */
  function OnStateChanged(pg: Page, msg: StateChanged): (r: Page)
    ensures r.isActive == msg.isActive && r.showOutlines == msg.showOutlines
    ensures r.growth == msg.valueIncrease.GetOr(DefaultGrowth)
    ensures r.isEditing == pg.isEditing
  {
    var adopted := pg.(isActive := msg.isActive, showOutlines := msg.showOutlines,
                       growth := msg.valueIncrease.GetOr(DefaultGrowth));
    var reset := if msg.isActive then adopted
                 else adopted.(domChanges := map[], valueChanges := map[], root := Remark(adopted.root, Stripped));
    reset.(root := UpdateOutlines(reset, false))
  }

  // ---------------------------------------------------------------- facts about remarked elements

  /** Remarking changes neither whether an element is a leaf nor whether it is editable. */
  lemma RemarkKeepsClass(n: Node, f: Node -> Marks)
    ensures IsLeaf(Remark(n, f)) == IsLeaf(n)
    ensures Editable(Remark(n, f)) == Editable(n)
    ensures ShownText(Remark(n, f)) == ShownText(n)
  {
    RemarkText(n, f);
    if n.Element? {
      var r := Remark(n, f);
      assert forall i | 0 <= i < |n.children| :: r.children[i] == Remark(n.children[i], f);
    }
  }

  /** Only marks differ between a document and its outline pass. */
  lemma UpdateOutlinesErase(pg: Page, force: bool)
    ensures Erase(UpdateOutlines(pg, force)) == Erase(pg.root)
  {
    var cleared := Remark(pg.root, Cleared);
    RemarkErase(pg.root, Cleared);
    RemarkErase(cleared, e => Decorated(e, pg.showOutlines, pg.growth.enabled));
  }

  /** The element at `p` after the pass, in terms of the element at `p` before it. */
  lemma UpdateOutlinesAt(pg: Page, force: bool, p: Path)
    requires IsElementPath(pg.root, p)
    ensures var e, r := At(pg.root, p), UpdateOutlines(pg, force);
      && IsElementPath(r, p)
      && MarksOf(At(r, p)) ==
         if !pg.isActive && !force then MarksOf(e)
         else if !pg.isActive then Cleared(e)
         else Decorated(Remark(e, Cleared), pg.showOutlines, pg.growth.enabled)
  {
    var cleared := Remark(pg.root, Cleared);
    var deco := e => Decorated(e, pg.showOutlines, pg.growth.enabled);
    RemarkAt(pg.root, Cleared, p);
    RemarkAt(cleared, deco, p);
  }

  // ---------------------------------------------------------------- what the outline pass promises

  /**
    On an active page, an element ends up outlined as editable exactly when it already was and is
    being edited, or it is an editable leaf and outlines are shown; and it ends up marked numeric
    exactly when it already was and is being edited, or it is an editable leaf showing a numeric
    text while growth is on. Being edited is never changed by the pass.
  */
  lemma UpdateOutlinesActive(pg: Page, force: bool, p: Path)
    requires pg.isActive && IsElementPath(pg.root, p)
    ensures var e, r := At(pg.root, p), UpdateOutlines(pg, force);
      var m := MarksOf(At(r, p));
      var eligible := IsLeaf(e) && Editable(e);
      && m.editing == MarksOf(e).editing
      && (m.editable <==> (MarksOf(e).editable && MarksOf(e).editing) || (eligible && pg.showOutlines))
      && (m.numeric <==> (MarksOf(e).numeric && MarksOf(e).editing)
                         || (eligible && pg.growth.enabled && Numbers.IsNumeric(ShownText(e))))
  {
    UpdateOutlinesAt(pg, force, p);
    RemarkKeepsClass(At(pg.root, p), Cleared);
  }

  /** Only leaves are newly decorated: an element with an element child keeps no marker it was not editing with. */
  lemma OnlyLeavesDecorated(pg: Page, force: bool, p: Path)
    requires pg.isActive && IsElementPath(pg.root, p)
    requires !IsLeaf(At(pg.root, p)) && !MarksOf(At(pg.root, p)).editing
    ensures var m := MarksOf(At(UpdateOutlines(pg, force), p));
      !m.editable && !m.numeric
  {
    UpdateOutlinesActive(pg, force, p);
  }

  /** An element being edited keeps every marker it has. */
  lemma EditingKeepsMarks(pg: Page, force: bool, p: Path)
    requires IsElementPath(pg.root, p) && MarksOf(At(pg.root, p)).editing
    ensures var e, m := At(pg.root, p), MarksOf(At(UpdateOutlines(pg, force), p));
      && m.editing
      && (MarksOf(e).editable ==> m.editable)
      && (MarksOf(e).numeric ==> m.numeric)
      && (!pg.isActive ==> m == MarksOf(e))
  {
    UpdateOutlinesAt(pg, force, p);
  }

  /**
    A forced pass on an inactive page only clears: every element not being edited loses its
    outline and numeric markers and `contentEditable`; the rest keep theirs.
  */
  lemma ForcedInactiveClears(pg: Page, p: Path)
    requires !pg.isActive && IsElementPath(pg.root, p)
    ensures var e, m := At(pg.root, p), MarksOf(At(UpdateOutlines(pg, true), p));
      && (!MarksOf(e).editing && (MarksOf(e).editable || MarksOf(e).numeric) ==> !m.editable && !m.numeric && !m.contentEditable)
      && (MarksOf(e).editing || !(MarksOf(e).editable || MarksOf(e).numeric) ==> m == MarksOf(e))
  {
    UpdateOutlinesAt(pg, true, p);
  }

  /** On an inactive page an unforced pass is a no-op. */
  lemma InactiveUnforcedNoOp(pg: Page)
    requires !pg.isActive
    ensures UpdateOutlines(pg, false) == pg.root
  {
  }

  // ---------------------------------------------------------------- what deactivation promises

  /**
    `STATE_CHANGED` with `isActive` false forgets the page's changes, leaves no element with any
    of the three markers, switches `contentEditable` off on every element that carried one, and
    changes nothing but marks: text, structure and attributes stay. The edit flag is kept as it is.
  */
  lemma DeactivationClears(pg: Page, msg: StateChanged)
    requires !msg.isActive
    ensures var r := OnStateChanged(pg, msg);
      && r.domChanges == map[] && r.valueChanges == map[]
      && r.isEditing == pg.isEditing
      && Erase(r.root) == Erase(pg.root)
      && forall p | IsElementPath(pg.root, p) ::
           && IsElementPath(r.root, p)
           && var before, after := MarksOf(At(pg.root, p)), MarksOf(At(r.root, p));
           && !after.editable && !after.editing && !after.numeric
           && ((before.editable || before.editing || before.numeric) ==> !after.contentEditable)
           && (!(before.editable || before.editing || before.numeric) ==> after == before)
  {
    RemarkErase(pg.root, Stripped);
    forall p | IsElementPath(pg.root, p)
      ensures IsElementPath(Remark(pg.root, Stripped), p)
      ensures MarksOf(At(Remark(pg.root, Stripped), p)) == Stripped(At(pg.root, p))
    {
      RemarkAt(pg.root, Stripped, p);
    }
  }

  /**
    Activation keeps the page's changes and decorates the page as it was: only marks change, and
    an element ends up outlined as editable exactly when it already was and is being edited, or it
    is an editable leaf and the sent flags show outlines; marked numeric exactly when it already
    was and is being edited, or it is an editable leaf showing a numeric text while the sent (or
    default) growth settings are on.
  */
  lemma ActivationDecorates(pg: Page, msg: StateChanged)
    requires msg.isActive
    ensures var r := OnStateChanged(pg, msg);
      var adopted := pg.(isActive := true, showOutlines := msg.showOutlines,
                         growth := msg.valueIncrease.GetOr(DefaultGrowth));
      && r.domChanges == pg.domChanges && r.valueChanges == pg.valueChanges
      && r.root == UpdateOutlines(adopted, false)
      && Erase(r.root) == Erase(pg.root)
    ensures forall p | IsElementPath(pg.root, p) ::
      var e, m := At(pg.root, p), MarksOf(At(OnStateChanged(pg, msg).root, p));
      var eligible := IsLeaf(e) && Editable(e);
      && m.editing == MarksOf(e).editing
      && (m.editable <==> (MarksOf(e).editable && MarksOf(e).editing) || (eligible && msg.showOutlines))
      && (m.numeric <==> (MarksOf(e).numeric && MarksOf(e).editing)
                         || (eligible && msg.valueIncrease.GetOr(DefaultGrowth).enabled && Numbers.IsNumeric(ShownText(e))))
  {
    var adopted := pg.(isActive := true, showOutlines := msg.showOutlines,
                       growth := msg.valueIncrease.GetOr(DefaultGrowth));
    UpdateOutlinesErase(adopted, false);
    forall p | IsElementPath(pg.root, p)
      ensures var e, m := At(pg.root, p), MarksOf(At(OnStateChanged(pg, msg).root, p));
        var eligible := IsLeaf(e) && Editable(e);
        && m.editing == MarksOf(e).editing
        && (m.editable <==> (MarksOf(e).editable && MarksOf(e).editing) || (eligible && msg.showOutlines))
        && (m.numeric <==> (MarksOf(e).numeric && MarksOf(e).editing)
                           || (eligible && msg.valueIncrease.GetOr(DefaultGrowth).enabled && Numbers.IsNumeric(ShownText(e))))
    {
      UpdateOutlinesActive(adopted, false, p);
    }
  }
}
