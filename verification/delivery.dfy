/**
  How the coordinator pushes its settings and a page's saved edits to one tab: the background
  `applyChanges` and `notifyTab`, and `notifyTabs` over the open tabs. The browser's answers
  (whether a message was delivered, with which error, whether injecting the page script worked)
  are inputs; the result is the sequence of attempts made, in order, and the returned flag.
*/
module Delivery {
  import opened Optional
  import Strings
  import opened Records
  import Urls
  import Coordinator

  /** What the browser answers to one `sendMessage`: delivered, or rejected with an error message. */
  datatype SendResult = Delivered | Failed(message: string)

  /** The two messages the coordinator sends to a tab. */
  datatype Message =
    | StateChangedMsg(isActive: bool, showOutlines: bool, growth: Growth)
    | ApplyChangesMsg(changes: TextChanges, valueChanges: ValueChanges)

  /** One attempt towards the tab: sending a message, or injecting the page script. */
  datatype Event = Send(msg: Message) | Inject

  /** The attempts made and the flag returned. */
  datatype Delivery = Delivery(events: seq<Event>, ok: bool)

  /**
    The browser's answers for one `notifyTab`: to the first `STATE_CHANGED`, to the injection, to
    the second `STATE_CHANGED`, and to the `APPLY_CHANGES` that follows a delivered one.
  */
  datatype Answers = Answers(first: SendResult, injected: bool, retry: SendResult, apply: SendResult)

  /** The phrase whose presence in the error message rules out the retry. */
  const MissingReceiver := "receiving end does not exist"

  /** The error Chrome reports when no listener runs in the tab. */
  const ChromeMissingReceiver := "Could not " + "establish connection. " + "Receiving end " + "does not exist."

  /** `STATE_CHANGED` carrying the coordinator's current settings. */
  function StateMessage(s: Coordinator.State): Message {
    StateChangedMsg(s.isActive, s.showOutlines, s.growth)
  }

  /**
    The guards of the background `applyChanges`: nothing for an inactive coordinator, a page that
    cannot be scripted, or a page with neither kind of entry; otherwise the page's entries, `{}`
    standing in for a missing kind.
  */
  function ApplyMessage(s: Coordinator.State, url: string): (m: Option<Message>) {
    var key := Urls.NormalizeUrl(url);
    if !s.isActive || !Urls.IsInjectable(url) then None
    else if Coordinator.Lookup(s.changes, key).None? && Coordinator.Lookup(s.valueChanges, key).None? then None
    else Some(ApplyChangesMsg(Coordinator.PageOf(s.changes, key), Coordinator.PageOf(s.valueChanges, key)))
  }

  /** The background `applyChanges`: true exactly when a message went out and was delivered. */
  function ApplyChanges(s: Coordinator.State, url: string, answer: SendResult): (r: Delivery) {
    match ApplyMessage(s, url)
    case None => Delivery([], false)
    case Some(m) => Delivery([Send(m)], answer.Delivered?)
  }

  /** What follows a delivered `STATE_CHANGED`: the page's edits, when the coordinator is active. */
  function AfterDelivered(s: Coordinator.State, url: string, answer: SendResult): seq<Event> {
    if s.isActive then ApplyChanges(s, url, answer).events else []
  }

  /**
    `notifyTab`: send `STATE_CHANGED`; if that fails with an error not containing the phrase,
    inject the page script and, if that worked, send once more. A delivered `STATE_CHANGED` is
    followed by `applyChanges` on an active coordinator and makes the call succeed.
  */
  function NotifyTab(s: Coordinator.State, url: string, a: Answers): (r: Delivery) {
    var first := [Send(StateMessage(s))];
    if !Urls.IsInjectable(url) then Delivery([], false)
    else if a.first.Delivered? then Delivery(first + AfterDelivered(s, url, a.apply), true)
    else if Strings.Contains(a.first.message, MissingReceiver) then Delivery(first, false)
    else if !a.injected then Delivery(first + [Inject], false)
    else if a.retry.Failed? then Delivery(first + [Inject] + first, false)
    else Delivery(first + [Inject] + first + AfterDelivered(s, url, a.apply), true)
  }

  /** One open tab as `tabs.query` reports it, with the browser's answers for it. */
  datatype Tab = Tab(url: string, answers: Answers)

  /** `notifyTabs`: every tab is notified on its own; the results are collected in tab order. */
  function NotifyTabs(s: Coordinator.State, tabs: seq<Tab>): (r: seq<Delivery>)
    ensures |r| == |tabs|
    ensures forall i | 0 <= i < |tabs| :: r[i] == NotifyTab(s, tabs[i].url, tabs[i].answers)
    ensures forall i | 0 <= i < |tabs| && !Urls.IsInjectable(tabs[i].url) :: r[i] == Delivery([], false)
  {
    seq(|tabs|, i requires 0 <= i < |tabs| => NotifyTab(s, tabs[i].url, tabs[i].answers))
  }

  // ---------------------------------------------------------------- counting attempts

  /** How many of the attempts send `STATE_CHANGED`. */
  function StateSends(es: seq<Event>): nat
    decreases |es|
  {
    if |es| == 0 then 0
    else (if es[0].Send? && es[0].msg.StateChangedMsg? then 1 else 0) + StateSends(es[1..])
  }

  /** Counting splits over concatenation. */
  lemma {:induction false} StateSendsConcat(a: seq<Event>, b: seq<Event>)
    ensures StateSends(a + b) == StateSends(a) + StateSends(b)
    decreases |a|
  {
    if |a| > 0 {
      assert (a + b)[0] == a[0] && (a + b)[1..] == a[1..] + b;
      StateSendsConcat(a[1..], b);
    } else {
      assert a + b == b;
    }
  }

  /** The attempts `applyChanges` makes send no `STATE_CHANGED`, and at most one message. */
  lemma ApplyChangesSendsNoState(s: Coordinator.State, url: string, answer: SendResult)
    ensures StateSends(ApplyChanges(s, url, answer).events) == 0
    ensures |ApplyChanges(s, url, answer).events| <= 1
    ensures forall e | e in ApplyChanges(s, url, answer).events :: e.Send? && e.msg.ApplyChangesMsg?
  {
    var es := ApplyChanges(s, url, answer).events;
    if |es| == 1 {
      assert es[1..] == [];
    }
  }

  // ---------------------------------------------------------------- properties

  /**
    The background `applyChanges` sends nothing and fails when the coordinator is inactive, the
    page cannot be scripted, or the page has no entry of either kind. Otherwise it sends exactly
    the page's entries, found under the normalized address, and succeeds exactly when delivered.
  */
  lemma ApplyChangesGuards(s: Coordinator.State, url: string, answer: SendResult)
    ensures var key, r := Urls.NormalizeUrl(url), ApplyChanges(s, url, answer);
      if !s.isActive || !Urls.IsInjectable(url) || (key !in s.changes && key !in s.valueChanges) then
        r.events == [] && !r.ok
      else
        && r.events == [Send(ApplyChangesMsg(
             if key in s.changes then s.changes[key] else map[],
             if key in s.valueChanges then s.valueChanges[key] else map[]))]
        && (r.ok <==> answer.Delivered?)
  {
  }

  /** A tab whose address is not http or https gets no attempt at all and reports failure. */
  lemma NotInjectableUntouched(s: Coordinator.State, url: string, a: Answers)
    requires !Urls.IsInjectable(url)
    ensures NotifyTab(s, url, a) == Delivery([], false)
    ensures ApplyChanges(s, url, a.apply) == Delivery([], false)
  {
  }

  /**
    `notifyTab` sends `STATE_CHANGED` at most twice, and twice exactly when the first send failed
    with an error lacking the phrase and the injection then worked.
  */
  lemma NotifyTabBounded(s: Coordinator.State, url: string, a: Answers)
    ensures var r := NotifyTab(s, url, a);
      && StateSends(r.events) <= 2
      && (StateSends(r.events) == 2 <==>
            Urls.IsInjectable(url) && a.first.Failed?
            && !Strings.Contains(a.first.message, MissingReceiver) && a.injected)
      && (Inject in r.events <==>
            Urls.IsInjectable(url) && a.first.Failed? && !Strings.Contains(a.first.message, MissingReceiver))
  {
    var first := [Send(StateMessage(s))];
    var after := AfterDelivered(s, url, a.apply);
    ApplyChangesSendsNoState(s, url, a.apply);
    assert StateSends(after) == 0 && Inject !in after;
    assert StateSends(first) == 1;
    assert StateSends([Inject]) == 0;
    StateSendsConcat(first, after);
    StateSendsConcat(first, [Inject]);
    StateSendsConcat(first + [Inject], first);
    StateSendsConcat(first + [Inject] + first, after);
  }

  /**
    `notifyTab` reports success exactly when a `STATE_CHANGED` was delivered: at once, or on the
    retry after an injection. Whether the page's edits arrived plays no part.
  */
  lemma NotifyTabOk(s: Coordinator.State, url: string, a: Answers)
    ensures NotifyTab(s, url, a).ok <==>
      Urls.IsInjectable(url)
      && (a.first.Delivered?
          || (!Strings.Contains(a.first.message, MissingReceiver) && a.injected && a.retry.Delivered?))
  {
  }

  /**
    Every message `notifyTab` sends carries the coordinator's current settings or the page's
    current entries, and the entries go out only from an active coordinator, only after a
    `STATE_CHANGED` was delivered, and at most once.
  */
  lemma NotifyTabMessages(s: Coordinator.State, url: string, a: Answers)
    ensures var r := NotifyTab(s, url, a);
      && (forall e | e in r.events && e.Send? && e.msg.StateChangedMsg? :: e.msg == StateMessage(s))
      && (forall e | e in r.events && e.Send? && e.msg.ApplyChangesMsg? ::
            && s.isActive && r.ok
            && Some(e.msg) == ApplyMessage(s, url)
            && r.events[|r.events| - 1] == e)
  {
    ApplyChangesSendsNoState(s, url, a.apply);
  }

  /** Chrome's own message for a tab without a listener is capitalised: it lacks the lower-case phrase. */
  lemma ChromeMessageLacksPhrase()
    ensures !Strings.Contains(ChromeMissingReceiver, MissingReceiver)
  {
    assert 'r' !in "Could not " && 'r' !in "establish connection. ";
    assert 'r' !in "Receiving end " && 'r' !in "does not exist.";
    Strings.ContainsFirstChar(ChromeMissingReceiver, MissingReceiver);
  }

  /** So a tab without a listener, as Chrome reports it, is injected and retried. */
  lemma ChromeMissingReceiverRetried(s: Coordinator.State, url: string, a: Answers)
    requires Urls.IsInjectable(url) && a.first == Failed(ChromeMissingReceiver) && a.injected
    ensures StateSends(NotifyTab(s, url, a).events) == 2
    ensures NotifyTab(s, url, a).ok <==> a.retry.Delivered?
  {
    ChromeMessageLacksPhrase();
    NotifyTabBounded(s, url, a);
  }

  /**
    Over all tabs: every tab is attempted at most twice with `STATE_CHANGED`, a tab that cannot
    be scripted is left alone, and one tab's answers decide nothing about another tab.
  */
  lemma NotifyTabsSpec(s: Coordinator.State, tabs: seq<Tab>, i: nat)
    requires i < |tabs|
    ensures var r := NotifyTabs(s, tabs);
      && StateSends(r[i].events) <= 2
      && forall other: seq<Tab> | |other| == |tabs| && other[i] == tabs[i] :: NotifyTabs(s, other)[i] == r[i]
  {
    NotifyTabBounded(s, tabs[i].url, tabs[i].answers);
  }
}
