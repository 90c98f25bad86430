/**
  The background coordinator: the one `state` record and the command switch of its message
  listener. Each command is a transition from a state, a request and its environment (the
  sender's page, the clock, the random draw, whether saving to storage succeeded) to a new
  state, the response sent back, and whether every tab is told about the new settings.
*/
module Coordinator {
  import opened Optional
  import Numbers
  import opened Records
  import Urls

  /** `state`: the switches, and every page's saved edits keyed by page key, then by selector. */
  datatype State = State(
    isActive: bool,
    showOutlines: bool,
    growth: Growth,
    changes: map<string, TextChanges>,
    valueChanges: map<string, ValueChanges>)

  /** The state the coordinator starts in. */
  const Initial := State(false, false, DefaultGrowth, map[], map[])

  /** A `Math.random()` result, `num / den`, in [0, 1). */
  datatype Draw = Draw(num: nat, den: nat)

  predicate ValidDraw(d: Draw) {
    d.num < d.den
  }

  /** Everything a command depends on besides the state and the request. */
  datatype Env = Env(senderUrl: Option<string>, now: int, draw: Draw, saveOk: bool)

  /** The commands of the listener; `Unknown` stands for every other message type. */
  datatype Request =
    | Ping
    | SaveChanges(selector: string, text: string, isNumeric: bool, baseValue: string, currentValue: Option<string>)
    | GetChanges
    | ToggleExtension(requested: Option<bool>)
    | ToggleOutlines
    | ToggleValueIncrease(increment: Option<int>)
    | ToggleRandomizer
    | UpdateIncrement(newIncrement: int)
    | GetState
    | ClearChanges
    | Unknown

  /**
    The response objects: `{success}`; the settings alone; `{success: true}` with the settings;
    the settings with the caller's page entries (`None` where the lookup is `undefined`); or no
    response at all.
  */
  datatype Response =
    | Success(ok: bool)
    | Settings(isActive: bool, showOutlines: bool, growth: Growth)
    | Toggled(isActive: bool, showOutlines: bool, growth: Growth)
    | PageChanges(isActive: bool, showOutlines: bool, growth: Growth,
                  changes: Option<TextChanges>, valueChanges: Option<ValueChanges>)
    | NoReply

  /** The result of one command. `broadcast` says whether `notifyTabs` runs. */
  datatype Outcome = Outcome(state: State, response: Response, broadcast: bool)

  // ---------------------------------------------------------------- helpers

  /** `Math.floor(r * width)` for the draw `r`. */
  function Spread(d: Draw, width: int): int
    requires ValidDraw(d)
  {
    (d.num * width) / d.den
  }

  /**
    `getRandomIncrement(base)`: `Math.floor(r * (max - min + 1)) + min` with `min = base/2` and
    `max = 3*base/2`, so `max - min + 1 = base + 1`; in thousandths.
  */
  function RandomIncrement(base: int, d: Draw): (r: Numbers.Milli)
    requires ValidDraw(d)
  {
    Numbers.Unit * Spread(d, base + 1) + 500 * base
  }

  /** The caller's page key: its normalized address, or "" when the sender has no address. */
  function PageKey(env: Env): (key: string) {
    match env.senderUrl
    case Some(u) => if u == "" then "" else Urls.NormalizeUrl(u)
    case None => ""
  }

  /** A page's entries, `{}` where it has none (what spreading `undefined` gives). */
  function PageOf<V>(m: map<string, map<string, V>>, key: string): map<string, V> {
    if key in m then m[key] else map[]
  }

  /** `m[key]` as JavaScript reads it: `undefined` where the page has no entry. */
  function Lookup<V>(m: map<string, map<string, V>>, key: string): Option<map<string, V>> {
    if key in m then Some(m[key]) else None
  }

  /** The entry of one selector of one page, if any. */
  function Entry<V>(m: map<string, map<string, V>>, key: string, selector: string): Option<V> {
    if key in m && selector in m[key] then Some(m[key][selector]) else None
  }

  /** What a toggle does once its guard passes: answer and broadcast if the save worked; never roll back. */
  function Commit(s: State, saveOk: bool): Outcome {
    if saveOk then Outcome(s, Toggled(s.isActive, s.showOutlines, s.growth), true)
    else Outcome(s, Success(false), false)
  }

  /** A command refused by its guard: nothing changes and nothing is sent to the tabs. */
  function Refuse(s: State): Outcome {
    Outcome(s, Success(false), false)
  }

  /** The increment a number saved now is stamped with, in thousandths. */
  function SaveIncrement(g: Growth, d: Draw): Numbers.Milli
    requires ValidDraw(d)
  {
    if g.randomizer then RandomIncrement(g.increment, d) else g.increment * Numbers.Unit
  }

  // ---------------------------------------------------------------- the command switch

  /** The listener's `switch (request.type)`. */
  function Handle(s: State, req: Request, env: Env): (r: Outcome)
    requires ValidDraw(env.draw)
  {
    var url := PageKey(env);
    match req
    case Ping => Outcome(s, Success(true), false)
    case SaveChanges(selector, text, isNumeric, baseValue, currentValue) =>
      if url != "" && s.isActive then
        var s' :=
          if s.growth.enabled && isNumeric then
            var entry := ValueChange(baseValue, currentValue, SaveIncrement(s.growth, env.draw), env.now);
            s.(valueChanges := s.valueChanges[url := PageOf(s.valueChanges, url)[selector := entry]])
          else
            s.(changes := s.changes[url := PageOf(s.changes, url)[selector := TextChange(text, env.now)]]);
        Outcome(s', Success(true), false)
      else Refuse(s)
    case GetChanges =>
      var changes := if url == "" then Some(map[]) else Lookup(s.changes, url);
      var values := if url == "" then Some(map[]) else Lookup(s.valueChanges, url);
      Outcome(s, PageChanges(s.isActive, s.showOutlines, s.growth, changes, values), false)
    case ToggleExtension(requested) =>
      var active := requested.GetOr(!s.isActive);
      var s' := if active then s.(isActive := true)
                else State(false, false, s.growth.(enabled := false, randomizer := false), map[], map[]);
      Commit(s', env.saveOk)
    case ToggleOutlines =>
      if s.isActive then Commit(s.(showOutlines := !s.showOutlines), env.saveOk) else Refuse(s)
    case ToggleValueIncrease(increment) =>
      if s.isActive then
        var enabled := !s.growth.enabled;
        var g := s.growth.(enabled := enabled, randomizer := enabled && s.growth.randomizer);
        var g' := if increment.Some? && increment.value != 0 then g.(increment := increment.value) else g;
        Commit(s.(growth := g'), env.saveOk)
      else Refuse(s)
    case ToggleRandomizer =>
      if s.isActive && s.growth.enabled then
        Commit(s.(growth := s.growth.(randomizer := !s.growth.randomizer)), env.saveOk)
      else Refuse(s)
    case UpdateIncrement(newIncrement) =>
      if s.isActive && s.growth.enabled then
        Outcome(s.(growth := s.growth.(increment := newIncrement)), Success(true), true)
      else Refuse(s)
    case GetState => Outcome(s, Settings(s.isActive, s.showOutlines, s.growth), false)
    case ClearChanges =>
      if url != "" then
        Outcome(s.(changes := s.changes - {url}, valueChanges := s.valueChanges - {url}), Success(true), false)
      else Refuse(s)
    case Unknown => Outcome(s, NoReply, false)
  }

  // ---------------------------------------------------------------- the random increment

  /** A product with a positive factor is positive only if the other factor is. */
  lemma PositiveFactor(x: int, b: int)
    requires b > 0 && x * b > 0
    ensures x > 0
  {
  }

  /** Multiplying by a positive number keeps a strict order. */
  lemma MulLess(x: int, y: int, b: int)
    requires b > 0 && x < y
    ensures x * b < y * b
  {
    assert y * b - x * b == (y - x) * b;
  }

  /** Euclidean division stays below `c` when the dividend stays below `c` times the divisor. */
  lemma DivBelow(a: nat, b: nat, c: nat)
    requires b > 0 && a < c * b
    ensures a / b < c
  {
    var q := a / b;
    assert q * b <= a;
    assert (c - q) * b == c * b - q * b;
    PositiveFactor(c - q, b);
  }

  /** Euclidean division reaches `c` when the dividend reaches `c` times the divisor. */
  lemma DivAtLeast(a: nat, b: nat, c: nat)
    requires b > 0 && c * b <= a
    ensures c <= a / b
  {
    var q := a / b;
    assert a - q * b < b;
    assert (q + 1 - c) * b == q * b + b - c * b;
    PositiveFactor(q + 1 - c, b);
  }

  /** A draw spread over `width` values lands on one of `0 .. width - 1`. */
  lemma SpreadBounds(d: Draw, width: int)
    requires ValidDraw(d) && width > 0
    ensures 0 <= Spread(d, width) < width
  {
    MulLess(d.num, d.den, width);
    assert d.den * width == width * d.den;
    DivBelow(d.num * width, d.den, width);
  }

  /** The draw `k / width` lands exactly on `k`. */
  lemma SpreadReaches(k: nat, width: nat)
    requires k < width
    ensures ValidDraw(Draw(k, width)) && Spread(Draw(k, width), width) == k
  {
    DivAtLeast(k * width, width, k);
    MulLess(k, k + 1, width);
    DivBelow(k * width, width, k + 1);
  }

  /** For a non-negative base the random increment lies between half and one and a half times the base, in half units. */
  lemma RandomIncrementBounds(base: int, d: Draw)
    requires ValidDraw(d) && base >= 0
    ensures 500 * base <= RandomIncrement(base, d) <= 1500 * base
    ensures RandomIncrement(base, d) % 500 == 0
  {
    SpreadBounds(d, base + 1);
    var k := Spread(d, base + 1);
    assert RandomIncrement(base, d) == 500 * (2 * k + base);
  }

  /** Every value `base/2 + k`, `0 <= k <= base`, is what some draw gives. */
  lemma RandomIncrementReaches(base: int, k: nat)
    requires k <= base
    ensures var d := Draw(k, base + 1);
      ValidDraw(d) && RandomIncrement(base, d) == Numbers.Unit * k + 500 * base
  {
    SpreadReaches(k, base + 1);
  }

  // ---------------------------------------------------------------- the flag hierarchy

  /**
    The flag hierarchy: the randomizer needs growth, outlines and growth need the extension to
    be on, and an inactive extension holds no saved edits.
  */
  predicate Inv(s: State) {
    && (s.growth.randomizer ==> s.growth.enabled)
    && (s.showOutlines || s.growth.enabled ==> s.isActive)
    && (!s.isActive ==> s.changes == map[] && s.valueChanges == map[])
  }

  lemma InitialInv()
    ensures Inv(Initial)
  {
  }

  /** Every command keeps the flag hierarchy. */
  lemma HandlePreservesInv(s: State, req: Request, env: Env)
    requires ValidDraw(env.draw) && Inv(s)
    ensures Inv(Handle(s, req, env).state)
  {
  }

  // ---------------------------------------------------------------- command by command

  /** The answers that only read: the state is untouched and nothing is broadcast. */
  lemma ReadOnlyCommands(s: State, req: Request, env: Env)
    requires ValidDraw(env.draw)
    requires req.Ping? || req.GetChanges? || req.GetState? || req.Unknown?
    ensures var o := Handle(s, req, env);
      && o.state == s && !o.broadcast
      && (req.Ping? ==> o.response == Success(true))
      && (req.GetState? ==> o.response == Settings(s.isActive, s.showOutlines, s.growth))
      && (req.Unknown? ==> o.response == NoReply)
  {
  }

  /**
    `TOGGLE_EXTENSION`: the requested switch position, or the opposite of the current one when
    none is given. Switching off also switches off outlines, growth and the randomizer and
    forgets every saved edit; the configured increment survives either way.
  */
  lemma ToggleExtensionSpec(s: State, requested: Option<bool>, env: Env)
    requires ValidDraw(env.draw)
    ensures var s' := Handle(s, ToggleExtension(requested), env).state;
      && s'.isActive == (if requested.Some? then requested.value else !s.isActive)
      && s'.growth.increment == s.growth.increment
      && (!s'.isActive ==> !s'.showOutlines && !s'.growth.enabled && !s'.growth.randomizer
                           && s'.changes == map[] && s'.valueChanges == map[])
      && (s'.isActive ==> s' == s.(isActive := true))
  {
  }

  /** Outline, growth, randomizer and increment commands change nothing while the extension is off. */
  lemma InactiveRefuses(s: State, req: Request, env: Env)
    requires ValidDraw(env.draw) && !s.isActive
    requires req.ToggleOutlines? || req.ToggleValueIncrease? || req.ToggleRandomizer?
          || req.UpdateIncrement? || req.SaveChanges?
    ensures Handle(s, req, env) == Outcome(s, Success(false), false)
  {
  }

  /** The randomizer and the increment cannot be changed while growth is off. */
  lemma GrowthOffRefuses(s: State, req: Request, env: Env)
    requires ValidDraw(env.draw) && !s.growth.enabled
    requires req.ToggleRandomizer? || req.UpdateIncrement?
    ensures Handle(s, req, env) == Outcome(s, Success(false), false)
  {
  }

  /**
    `TOGGLE_VALUE_INCREASE` on an active extension flips growth; turning it off also turns off
    the randomizer; a non-zero increment in the request replaces the configured one.
  */
  lemma ToggleValueIncreaseSpec(s: State, increment: Option<int>, env: Env)
    requires ValidDraw(env.draw) && s.isActive
    ensures var g := Handle(s, ToggleValueIncrease(increment), env).state.growth;
      && g.enabled == !s.growth.enabled
      && (!g.enabled ==> !g.randomizer)
      && (g.enabled ==> g.randomizer == s.growth.randomizer)
      && g.increment == (if increment.Some? && increment.value != 0 then increment.value else s.growth.increment)
  {
  }

  /**
    The toggles broadcast and answer with the new settings exactly when saving succeeded;
    otherwise they answer `success: false`, but keep the change in memory.
  */
  lemma TogglesBroadcastIffSaved(s: State, req: Request, env: Env)
    requires ValidDraw(env.draw)
    requires req.ToggleExtension? || (s.isActive && (req.ToggleOutlines? || req.ToggleValueIncrease?))
          || (s.isActive && s.growth.enabled && req.ToggleRandomizer?)
    ensures var o := Handle(s, req, env);
      && o.broadcast == env.saveOk
      && (o.response.Toggled? <==> env.saveOk)
      && (!env.saveOk ==> o.response == Success(false))
      && (env.saveOk ==> o.response == Toggled(o.state.isActive, o.state.showOutlines, o.state.growth))
  {
  }

  /** No command rolls back: the new state never depends on whether saving succeeded. */
  lemma NoRollback(s: State, req: Request, env: Env)
    requires ValidDraw(env.draw)
    ensures Handle(s, req, env.(saveOk := true)).state == Handle(s, req, env.(saveOk := false)).state
  {
  }

  /** `UPDATE_INCREMENT` succeeds and broadcasts whether or not the save worked. */
  lemma UpdateIncrementSpec(s: State, k: int, env: Env)
    requires ValidDraw(env.draw) && s.isActive && s.growth.enabled
    ensures var o := Handle(s, UpdateIncrement(k), env);
      && o.response == Success(true) && o.broadcast
      && o.state == s.(growth := s.growth.(increment := k))
  {
  }

  /**
    `SAVE_CHANGES` from a page while active writes exactly one entry, the caller's page and
    selector: a number entry stamped with the increment of the moment when growth is on and the
    edit is numeric, a text entry otherwise. Every other entry, of this page or any other, stays;
    the answer is `success: true` even when saving failed.
  */
  lemma SaveChangesWritesOneEntry(
    s: State, selector: string, text: string, isNumeric: bool, baseValue: string,
    currentValue: Option<string>, env: Env, key: string, other: string)
    requires ValidDraw(env.draw) && s.isActive && PageKey(env) != ""
    ensures var url := PageKey(env);
      var o := Handle(s, SaveChanges(selector, text, isNumeric, baseValue, currentValue), env);
      var numeric := s.growth.enabled && isNumeric;
      && o.response == Success(true) && !o.broadcast
      && o.state.(changes := s.changes, valueChanges := s.valueChanges) == s
      && (numeric ==>
            && Entry(o.state.valueChanges, url, selector)
               == Some(ValueChange(baseValue, currentValue, SaveIncrement(s.growth, env.draw), env.now))
            && o.state.changes == s.changes)
      && (!numeric ==>
            && Entry(o.state.changes, url, selector) == Some(TextChange(text, env.now))
            && o.state.valueChanges == s.valueChanges)
      && ((key, other) != (url, selector) ==>
            && Entry(o.state.changes, key, other) == Entry(s.changes, key, other)
            && Entry(o.state.valueChanges, key, other) == Entry(s.valueChanges, key, other))
  {
  }

  /** `SAVE_CHANGES` without a page address, or while inactive, is refused. */
  lemma SaveChangesRefused(
    s: State, selector: string, text: string, isNumeric: bool, baseValue: string,
    currentValue: Option<string>, env: Env)
    requires ValidDraw(env.draw) && (!s.isActive || PageKey(env) == "")
    ensures Handle(s, SaveChanges(selector, text, isNumeric, baseValue, currentValue), env) == Refuse(s)
  {
  }

  /**
    The number saved with the randomizer on is stamped with an increment between half and one
    and a half times the configured one.
  */
  lemma SavedIncrementBounds(g: Growth, d: Draw)
    requires ValidDraw(d) && g.increment >= 0
    ensures g.increment * 500 <= SaveIncrement(g, d) <= g.increment * 1500
    ensures !g.randomizer ==> SaveIncrement(g, d) == g.increment * Numbers.Unit
  {
    if g.randomizer {
      RandomIncrementBounds(g.increment, d);
    }
  }

  /**
    `CLEAR_CHANGES` forgets the caller's page in both maps and nothing else, even while the
    extension is off; without a page address it is refused.
  */
  lemma ClearChangesSpec(s: State, env: Env, key: string)
    requires ValidDraw(env.draw)
    ensures var url, o := PageKey(env), Handle(s, ClearChanges, env);
      && !o.broadcast
      && (url == "" ==> o == Refuse(s))
      && (url != "" ==>
            && o.response == Success(true)
            && o.state.(changes := s.changes, valueChanges := s.valueChanges) == s
            && url !in o.state.changes && url !in o.state.valueChanges
            && (key != url ==>
                  && Lookup(o.state.changes, key) == Lookup(s.changes, key)
                  && Lookup(o.state.valueChanges, key) == Lookup(s.valueChanges, key)))
  {
  }

  /**
    `GET_CHANGES` answers with the caller's page alone: two states that agree on the switches and
    on that page's entries give the same answer, whatever else they hold.
  */
  lemma GetChangesIsPageScoped(s: State, t: State, env: Env)
    requires ValidDraw(env.draw)
    requires s.isActive == t.isActive && s.showOutlines == t.showOutlines && s.growth == t.growth
    requires Lookup(s.changes, PageKey(env)) == Lookup(t.changes, PageKey(env))
    requires Lookup(s.valueChanges, PageKey(env)) == Lookup(t.valueChanges, PageKey(env))
    ensures Handle(s, GetChanges, env).response == Handle(t, GetChanges, env).response
  {
  }

  /**
    `GET_CHANGES` answers with the current switches and growth settings, and with the caller's
    entries: empty without a page address, `undefined` for a page with none, else the page's own.
  */
  lemma GetChangesSpec(s: State, env: Env)
    requires ValidDraw(env.draw)
    ensures var r, url := Handle(s, GetChanges, env).response, PageKey(env);
      && r.PageChanges?
      && r.isActive == s.isActive && r.showOutlines == s.showOutlines && r.growth == s.growth
      && (url == "" ==> r.changes == Some(map[]) && r.valueChanges == Some(map[]))
      && (url != "" ==> (r.changes.Some? <==> url in s.changes) && (r.valueChanges.Some? <==> url in s.valueChanges))
      && (url != "" && url in s.changes ==> r.changes == Some(s.changes[url]))
      && (url != "" && url in s.valueChanges ==> r.valueChanges == Some(s.valueChanges[url]))
  {
  }

  /** Commands with a page address all act on the same key for every visit of one page. */
  lemma PageKeyIgnoresQuery(env: Env, u: string, suffix: string)
    requires env.senderUrl == Some(u) && Urls.Parsable(u) && '?' !in u && '#' !in u
    requires |suffix| > 0 && suffix[0] in Urls.PathStops
    ensures PageKey(env.(senderUrl := Some(u + suffix))) == PageKey(env)
  {
    Urls.QueryAndFragmentIgnored(u, suffix);
  }
}
