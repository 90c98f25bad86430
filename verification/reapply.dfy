/**
  `applyChanges` of the page script: one pass that writes the saved text edits, then, when growth
  is on, the projected values of the saved numbers. The page is flat: each selector resolves to
  at most one element, as `document.querySelector` resolves it.
*/
module Reapply {
  import opened Optional
  import Strings
  import Numbers
  import opened Dom
  import opened Records

  /** What `document.querySelector` finds for each selector that matches anything. */
  type PageView = map<string, Node>

  /** Whole seconds elapsed between the save time and `now`, both in milliseconds (`Math.floor`). */
  function Ticks(now: int, timestamp: int): int {
    (now - timestamp) / 1000
  }

  /** The value a growing number shows at `now`: its base plus one increment per elapsed second. */
  function Projected(c: ValueChange, now: int): (v: Numbers.Milli) {
    Numbers.ParseNumber(c.baseValue) + c.increment * Ticks(now, c.timestamp)
  }

  /** The text edit the pass writes into `n`, if the entry exists and `n` is editable. */
  function TextAt(n: Node, changes: TextChanges, s: string): Node {
    if s in changes && Editable(n) then SetText(n, changes[s].text) else n
  }

  /** The pass writes a number into `n` when there is an entry, `n` is editable and the base is not 0. */
  predicate GrowsAt(n: Node, values: ValueChanges, s: string) {
    s in values && Editable(n) && Numbers.ParseNumber(values[s].baseValue) != 0
  }

  /** The projected number the pass writes into `n`. */
  function ValueAt(n: Node, values: ValueChanges, s: string, now: int): Node {
    if GrowsAt(n, values, s) then SetText(n, Numbers.FormatNumber(Projected(values[s], now))) else n
  }

  /** The text loop over every entry of `changes`. */
  function WriteTexts(page: PageView, changes: TextChanges): (r: PageView)
    ensures r.Keys == page.Keys
  {
    map s | s in page :: TextAt(page[s], changes, s)
  }

  /** The number loop over every entry of `values`, on the page the text loop left. */
  function WriteValues(page: PageView, values: ValueChanges, now: int): (r: PageView)
    ensures r.Keys == page.Keys
  {
    map s | s in page :: ValueAt(page[s], values, s, now)
  }

  /** The pass skips everything: both maps are missing, or an edit is in progress and it is not forced. */
  predicate Skipped(changes: Option<TextChanges>, values: Option<ValueChanges>, force: bool, editing: bool) {
    (changes.None? && values.None?) || (!force && editing)
  }

  /** Some text entry resolves to an editable element. */
  predicate WritesText(page: PageView, changes: TextChanges) {
    exists s | s in changes :: s in page && Editable(page[s])
  }

  /** Some number entry is written on the page the text loop left. */
  predicate WritesValue(page: PageView, values: ValueChanges) {
    exists s | s in values :: s in page && GrowsAt(page[s], values, s)
  }

  /**
    `applyChanges(changes, valueChanges, forceUpdate)`: the page after the pass and `updatesMade`.
    A missing map counts as empty once the pass runs.
  */
  function ApplyChanges(
    page: PageView, changes: Option<TextChanges>, values: Option<ValueChanges>,
    force: bool, editing: bool, growing: bool, now: int): (r: (PageView, bool))
    ensures r.0.Keys == page.Keys
  {
    if Skipped(changes, values, force, editing) then (page, false)
    else
      var tc, vc := changes.GetOr(map[]), values.GetOr(map[]);
      var texts := WriteTexts(page, tc);
      var after := if growing then WriteValues(texts, vc, now) else texts;
      (after, WritesText(page, tc) || (growing && WritesValue(texts, vc)))
  }

  // ---------------------------------------------------------------- projection

  /** Projection is linear in elapsed seconds: `k` more seconds add `k` increments. */
  lemma ProjectedLinear(c: ValueChange, now: int, k: int)
    ensures Projected(c, now + 1000 * k) == Projected(c, now) + c.increment * k
  {
    var a := now - c.timestamp;
    assert now + 1000 * k - c.timestamp == a + 1000 * k;
    TicksShift(a, k);
    Distribute(c.increment, a / 1000, k);
  }

  /** Shifting by `k` whole seconds shifts the tick count by `k`. */
  lemma TicksShift(a: int, k: int)
    ensures (a + 1000 * k) / 1000 == a / 1000 + k
  {
    var q, r := a / 1000, a % 1000;
    assert a + 1000 * k == 1000 * (q + k) + r;
  }

  /** Multiplication distributes over addition. */
  lemma Distribute(x: int, y: int, z: int)
    ensures x * (y + z) == x * y + x * z
  {
  }

  /** With a non-negative increment the projected value never decreases as time passes. */
  lemma ProjectedMonotone(c: ValueChange, now: int, later: int)
    requires c.increment >= 0 && now <= later
    ensures Projected(c, now) <= Projected(c, later)
  {
    assert Ticks(now, c.timestamp) <= Ticks(later, c.timestamp);
  }

  /** Within the save's own second the base is shown unchanged. */
  lemma ProjectedAtSave(c: ValueChange, now: int)
    requires c.timestamp <= now < c.timestamp + 1000
    ensures Projected(c, now) == Numbers.ParseNumber(c.baseValue)
  {
  }

  // ---------------------------------------------------------------- what is written

  /** A formatted number is text an editable element may show: it is non-blank and free of code markers. */
  lemma FormattedShowsText(v: Numbers.Milli)
    ensures ShowsText(Numbers.FormatNumber(v))
  {
    var s := Numbers.FormatNumber(v);
    Numbers.FormatChars(v);
    Strings.TrimNoOp(s);
    forall k | 0 <= k < |CodeMarkers|
      ensures !Strings.Contains(s, CodeMarkers[k])
    {
      var m := CodeMarkers[k];
      assert !Numbers.NumeralChar(m[0]);
      assert m[0] !in s;
      Strings.ContainsFirstChar(s, m);
    }
  }

  /** The pass is skipped outright: nothing is written and nothing is reported. */
  lemma SkippedIsNoOp(
    page: PageView, changes: Option<TextChanges>, values: Option<ValueChanges>,
    force: bool, editing: bool, growing: bool, now: int)
    requires Skipped(changes, values, force, editing)
    ensures ApplyChanges(page, changes, values, force, editing, growing, now) == (page, false)
  {
  }

  /**
    Only selectors that resolve to an editable element and have an entry are written; every
    written element gets the entry's text or a formatted number, and keeps its tag, id, classes,
    rendering and marks.
  */
  lemma OnlyEditableWritten(
    page: PageView, changes: Option<TextChanges>, values: Option<ValueChanges>,
    force: bool, editing: bool, growing: bool, now: int, s: string)
    requires s in page
    ensures var r := ApplyChanges(page, changes, values, force, editing, growing, now).0;
      var tc, vc := changes.GetOr(map[]), values.GetOr(map[]);
      r[s] == page[s]
      || (&& Editable(page[s])
          && r[s].(children := page[s].children) == page[s]
          && ((s in tc && TextContent(r[s]) == tc[s].text)
              || (&& growing && s in vc && Numbers.ParseNumber(vc[s].baseValue) != 0
                  && TextContent(r[s]) == Numbers.FormatNumber(Projected(vc[s], now)))))
  {
    var tc, vc := changes.GetOr(map[]), values.GetOr(map[]);
    var n := page[s];
    var a := TextAt(n, tc, s);
    if a != n {
      EditableIff(n);
    }
  }

  /**
    A number entry whose base reads as 0 is skipped even with growth on: without a text entry,
    its element is left as it was.
  */
  lemma ZeroBaseSkipped(
    page: PageView, changes: Option<TextChanges>, values: Option<ValueChanges>,
    force: bool, editing: bool, growing: bool, now: int, s: string)
    requires s in page && s !in changes.GetOr(map[]) && s in values.GetOr(map[])
    requires Numbers.ParseNumber(values.GetOr(map[])[s].baseValue) == 0
    ensures ApplyChanges(page, changes, values, force, editing, growing, now).0[s] == page[s]
  {
  }

  /**
    The value written for a number: with growth on and a base that parses to a non-zero value,
    an editable element without a text entry shows the formatted projection (which parses back to
    the projection, by `Numbers.FormatParseRoundTrip`, while it stays below the overflow threshold).
  */
  lemma ValueWritten(
    page: PageView, changes: Option<TextChanges>, values: Option<ValueChanges>,
    force: bool, editing: bool, now: int, s: string)
    requires !Skipped(changes, values, force, editing)
    requires s in page && Editable(page[s]) && s !in changes.GetOr(map[])
    requires values.Some? && s in values.value && Numbers.ParseNumber(values.value[s].baseValue) != 0
    ensures var r := ApplyChanges(page, changes, values, force, editing, true, now);
      && TextContent(r.0[s]) == Numbers.FormatNumber(Projected(values.value[s], now))
      && r.1
  {
    var tc := changes.GetOr(map[]);
    var texts := WriteTexts(page, tc);
    assert texts[s] == page[s];
    assert GrowsAt(texts[s], values.value, s);
  }

  /**
    Text is written before numbers: for a selector in both maps whose text edit keeps the element
    editable, the number is what ends up displayed.
  */
  lemma NumberWinsOverText(
    page: PageView, changes: Option<TextChanges>, values: Option<ValueChanges>,
    force: bool, editing: bool, now: int, s: string)
    requires !Skipped(changes, values, force, editing)
    requires changes.Some? && values.Some? && s in changes.value && s in values.value
    requires s in page && Editable(page[s]) && ShowsText(changes.value[s].text)
    requires Numbers.ParseNumber(values.value[s].baseValue) != 0
    ensures TextContent(ApplyChanges(page, changes, values, force, editing, true, now).0[s])
         == Numbers.FormatNumber(Projected(values.value[s], now))
  {
    var texts := WriteTexts(page, changes.value);
    EditableIff(page[s]);
    EditableAfterWrite(page[s], changes.value[s].text);
    assert GrowsAt(texts[s], values.value, s);
  }

  /** With growth off no number entry is looked at: the pass is the text pass alone. */
  lemma GrowthOffIgnoresValues(
    page: PageView, changes: Option<TextChanges>, values: Option<ValueChanges>,
    force: bool, editing: bool, now: int)
    requires !Skipped(changes, values, force, editing)
    ensures var r := ApplyChanges(page, changes, values, force, editing, false, now);
      && r.0 == WriteTexts(page, changes.GetOr(map[]))
      && (r.1 <==> exists s | s in changes.GetOr(map[]) :: s in page && Editable(page[s]))
  {
  }

  /** A pass that reports no update leaves the page as it was. */
  lemma NoReportNoChange(
    page: PageView, changes: Option<TextChanges>, values: Option<ValueChanges>,
    force: bool, editing: bool, growing: bool, now: int)
    requires !ApplyChanges(page, changes, values, force, editing, growing, now).1
    ensures ApplyChanges(page, changes, values, force, editing, growing, now).0 == page
  {
    if !Skipped(changes, values, force, editing) {
      var tc, vc := changes.GetOr(map[]), values.GetOr(map[]);
      var texts := WriteTexts(page, tc);
      assert texts == page by {
        forall s | s in page ensures texts[s] == page[s] {
          assert !(s in tc && Editable(page[s]));
        }
      }
      if growing {
        forall s | s in page ensures WriteValues(texts, vc, now)[s] == page[s] {
          assert !(s in vc && GrowsAt(texts[s], vc, s));
        }
      }
    }
  }

  /**
    A write is reported even when it changes nothing: an editable element whose text already
    equals its entry is written again and the pass returns true.
  */
  lemma EqualWriteStillReported(
    page: PageView, changes: Option<TextChanges>, values: Option<ValueChanges>,
    force: bool, editing: bool, growing: bool, now: int, s: string)
    requires !Skipped(changes, values, force, editing)
    requires changes.Some? && s in changes.value && s in page && Editable(page[s])
    ensures ApplyChanges(page, changes, values, force, editing, growing, now).1
  {
  }

  // ---------------------------------------------------------------- idempotence

  /** On one element, a second pass at the same `now` writes what the first one left there. */
  lemma ElementIdempotent(n: Node, tc: TextChanges, vc: ValueChanges, s: string, growing: bool, now: int)
    ensures var once := if growing then ValueAt(TextAt(n, tc, s), vc, s, now) else TextAt(n, tc, s);
      var twice := if growing then ValueAt(TextAt(once, tc, s), vc, s, now) else TextAt(once, tc, s);
      twice == once
  {
    var a := TextAt(n, tc, s);
    if s in tc && Editable(n) {
      EditableIff(n);
      EditableAfterWrite(n, tc[s].text);
    }
    if growing && GrowsAt(a, vc, s) {
      var v := Numbers.FormatNumber(Projected(vc[s], now));
      FormattedShowsText(Projected(vc[s], now));
      EditableIff(a);
      EditableAfterWrite(n, v);
      EditableAfterWrite(a, v);
      if s in tc {
        EditableAfterWrite(SetText(a, v), tc[s].text);
      }
    }
  }

  /**
    Running the pass twice with the same maps and the same `now` leaves the page as one pass
    does: the document text is stable, though the second pass still reports its writes. This
    rests on the flat page, where no resolved element contains another.
  */
  lemma ApplyChangesIdempotent(
    page: PageView, changes: Option<TextChanges>, values: Option<ValueChanges>,
    force: bool, editing: bool, growing: bool, now: int)
    ensures var once := ApplyChanges(page, changes, values, force, editing, growing, now).0;
      ApplyChanges(once, changes, values, force, editing, growing, now).0 == once
  {
    var once := ApplyChanges(page, changes, values, force, editing, growing, now).0;
    var twice := ApplyChanges(once, changes, values, force, editing, growing, now).0;
    if !Skipped(changes, values, force, editing) {
      var tc, vc := changes.GetOr(map[]), values.GetOr(map[]);
      forall s | s in page
        ensures twice[s] == once[s]
      {
        ElementIdempotent(page[s], tc, vc, s, growing, now);
      }
    }
  }

  // ---------------------------------------------------------------- the pass as a loop

  /**
    One `forEach` over the entries with keys `keys`, in whatever order they come: an entry whose
    element `writes` accepts gets `write` of it and marks the pass as having updated something.
  */
  method EntryLoop(page: PageView, keys: set<string>, writes: (Node, string) -> bool, write: (Node, string) -> Node)
    returns (result: PageView, wrote: bool)
    ensures result.Keys == page.Keys
    ensures forall s | s in page :: result[s] == if s in keys && writes(page[s], s) then write(page[s], s) else page[s]
    ensures wrote <==> exists s | s in keys :: s in page && writes(page[s], s)
  {
    result, wrote := page, false;
    var todo := keys;
    ghost var found: string := "";
    while todo != {}
      invariant todo <= keys && result.Keys == page.Keys
      invariant forall s | s in page ::
        result[s] == if s in keys && s !in todo && writes(page[s], s) then write(page[s], s) else page[s]
      invariant wrote ==> found in keys && found in page && writes(page[found], found)
      invariant !wrote ==> forall s | s in keys && s !in todo && s in page :: !writes(page[s], s)
      decreases |todo|
    {
      var s :| s in todo;
      if s in result && writes(result[s], s) {
        result := result[s := write(result[s], s)];
        wrote := true;
        found := s;
      }
      todo := todo - {s};
    }
  }

  /** The text loop: every entry whose element is editable gets its text. */
  method TextLoop(page: PageView, tc: TextChanges) returns (result: PageView, wrote: bool)
    ensures result == WriteTexts(page, tc)
    ensures wrote <==> WritesText(page, tc)
  {
    result, wrote := EntryLoop(page, tc.Keys, (n, s) => s in tc && Editable(n), (n, s) => TextAt(n, tc, s));
  }

  /** The number loop: every entry whose element is editable and whose base is not 0 gets its projection. */
  method ValueLoop(page: PageView, vc: ValueChanges, now: int) returns (result: PageView, wrote: bool)
    ensures result == WriteValues(page, vc, now)
    ensures wrote <==> WritesValue(page, vc)
  {
    result, wrote := EntryLoop(page, vc.Keys, (n, s) => GrowsAt(n, vc, s), (n, s) => ValueAt(n, vc, s, now));
  }

  /**
    The pass as the script runs it: one write per entry, text entries first, in whatever order
    the entries come. On the flat page, where no resolved element contains another, every order
    gives the page and report of `ApplyChanges`.
  */
  method ApplyChangesInOrder(
    page: PageView, changes: Option<TextChanges>, values: Option<ValueChanges>,
    force: bool, editing: bool, growing: bool, now: int)
    returns (result: PageView, updatesMade: bool)
    ensures (result, updatesMade) == ApplyChanges(page, changes, values, force, editing, growing, now)
  {
    if Skipped(changes, values, force, editing) {
      return page, false;
    }
    var wroteText, wroteValue := false, false;
    result, wroteText := TextLoop(page, changes.GetOr(map[]));
    if growing {
      result, wroteValue := ValueLoop(result, values.GetOr(map[]), now);
    }
    updatesMade := wroteText || wroteValue;
  }
}
