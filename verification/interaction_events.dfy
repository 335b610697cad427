/** The `emitInteraction` loop of `RecipleInteractionEvents` (the newer class,
    with `executeListenerHalt` and `defaultHalt`) and of `InteractionEventManager`
    (the older class): classification, listener filtering, the permission and
    cooldown gates, and error handling through halt hooks. */
module InteractionEvents {
  import opened Wrappers
  import opened Listeners

  /** Which class runs the loop: the newer one with its optional `defaultHalt`,
      or the older one, which has none. */
  datatype HaltPolicy = Newer(defaultHalt: Option<HaltReason -> HaltValue>) | Older

  /** The truthiness of a halt result once awaited. */
  function Truthy(v: HaltValue): bool
  {
    match v
    case Boolean(b) => b
    case Plain(t) => t
    case Promised(t) => t
  }

  /** Which hooks a halt invocation calls, and whether the halt counts as handled. */
  datatype HaltCall = HaltCall(listenerHaltCalled: bool, defaultHaltCalled: bool, handled: bool)

  /** Resolving a halt. The older class awaits `listener.halt` when set and
      takes the truthiness of its result. The newer `executeListenerHalt` takes
      the listener's result when it is a boolean before any await; otherwise
      (no hook, a non-boolean value, or a promise) `defaultHalt` decides, and
      without one nothing is handled. */
  function ResolveHalt(policy: HaltPolicy, l: Listener, reason: HaltReason): (h: HaltCall)
    ensures h.listenerHaltCalled <==> l.halt.Some?
    ensures policy.Older? ==> !h.defaultHaltCalled && (h.handled <==> l.halt.Some? && Truthy(l.halt.value(reason)))
    ensures policy.Newer? && l.halt.Some? && l.halt.value(reason).Boolean? ==>
      !h.defaultHaltCalled && h.handled == l.halt.value(reason).b
    ensures policy.Newer? && !(l.halt.Some? && l.halt.value(reason).Boolean?) ==>
      && (h.defaultHaltCalled <==> policy.defaultHalt.Some?)
      && (h.handled <==> policy.defaultHalt.Some? && Truthy(policy.defaultHalt.value(reason)))
  {
    match policy
    case Older => HaltCall(l.halt.Some?, false, l.halt.Some? && Truthy(l.halt.value(reason)))
    case Newer(d) =>
      if l.halt.Some? && l.halt.value(reason).Boolean? then HaltCall(true, false, l.halt.value(reason).b)
      else HaltCall(l.halt.Some?, d.Some?, d.Some? && Truthy(d.value(reason)))
  }

  /** In the newer class an async halt is never its own answer: a promise that
      settles truthy still defers to `defaultHalt`, and without one the halt is
      unhandled, where the older class, awaiting it, treats it as handled. */
  lemma AsyncHaltDefersToDefault(l: Listener, reason: HaltReason)
    requires l.halt.Some? && l.halt.value(reason) == Promised(true)
    ensures !ResolveHalt(Newer(None), l, reason).handled
    ensures ResolveHalt(Older, l, reason).handled
  {
  }

  /** Without a `defaultHalt`, the two classes agree whenever the listener's
      hook is absent or answers with a plain boolean. */
  lemma PoliciesAgreeOnBooleanHalts(l: Listener, reason: HaltReason)
    requires l.halt.None? || l.halt.value(reason).Boolean?
    ensures ResolveHalt(Newer(None), l, reason) == ResolveHalt(Older, l, reason)
  {
  }

  /** The hook calls of a halt, in order. */
  function HaltActions(policy: HaltPolicy, l: Listener, reason: HaltReason): (r: seq<Action>)
    ensures forall a :: a in r ==> a.HaltInvoked? || a.DefaultHaltInvoked?
    ensures HaltInvoked(reason) in r <==> l.halt.Some?
    ensures DefaultHaltInvoked(reason) in r <==> policy.Newer? && policy.defaultHalt.Some?
                                                 && !(l.halt.Some? && l.halt.value(reason).Boolean?)
  {
    var h := ResolveHalt(policy, l, reason);
    (if h.listenerHaltCalled then [HaltInvoked(reason)] else [])
    + (if h.defaultHaltCalled then [DefaultHaltInvoked(reason)] else [])
  }

  /** A cooldown as the client's cooldown manager stores it. */
  datatype Cooldown = Cooldown(commandName: string, guildId: Option<string>, userId: string, endsAt: int)

  /** What a listener visit does, in order. */
  datatype Action =
    | HaltInvoked(reason: HaltReason)
    | DefaultHaltInvoked(reason: HaltReason)
    | CooldownCreated(cooldown: Cooldown)
    | Executed
    | Raised(listenerType: string)

  const CooldownPrefix := "interaction-event "

  /** The cooldown key: the prefix followed by the custom id of an interaction
      that has one, otherwise by its command name (`undefined` when it has none). */
  function CooldownName(i: Interaction): (s: string)
    ensures |s| >= |CooldownPrefix| && s[..|CooldownPrefix|] == CooldownPrefix
  {
    CooldownPrefix + (if CustomIdOf(i).Some? then CustomIdOf(i).value else CommandNameOf(i).OrElse("undefined"))
  }

  /** Two component interactions share a cooldown key exactly when their custom
      ids are equal. */
  lemma CooldownNameSeparatesCustomIds(i: Interaction, j: Interaction)
    requires CustomIdOf(i).Some? && CustomIdOf(j).Some?
    ensures CooldownName(i) == CooldownName(j) <==> CustomIdOf(i) == CustomIdOf(j)
  {
    if CooldownName(i) == CooldownName(j) {
      assert CustomIdOf(i).value == CooldownName(i)[|CooldownPrefix|..];
      assert CustomIdOf(j).value == CooldownName(j)[|CooldownPrefix|..];
    }
  }

  /** A command named like a component's custom id gets the same cooldown key,
      so the two share cooldowns for the same guild and user. */
  lemma CooldownKeySharedAcrossKinds(i: Interaction, j: Interaction)
    requires CommandNameOf(i).Some? && CustomIdOf(j).Some? && CommandNameOf(i) == CustomIdOf(j)
    ensures CooldownName(i) == CooldownName(j)
  {
  }

  /** A stored cooldown blocks an interaction while it has not ended and its
      key, guild and user are the interaction's. */
  predicate Active(c: Cooldown, i: Interaction, now: int)
  {
    c.commandName == CooldownName(i) && c.guildId == i.guildId && c.userId == i.userId && now < c.endsAt
  }

  /** `findCooldown`: the first stored cooldown that blocks the interaction. */
  function FindCooldown(cds: seq<Cooldown>, i: Interaction, now: int): (r: Option<Cooldown>)
    ensures r.Some? ==> r.value in cds && Active(r.value, i, now)
    ensures r.None? <==> forall c :: c in cds ==> !Active(c, i, now)
  {
    if cds == [] then None
    else if Active(cds[0], i, now) then Some(cds[0])
    else
      assert forall c :: c in cds ==> c == cds[0] || c in cds[1..];
      FindCooldown(cds[1..], i, now)
  }

  /** What the loop learns from the host for one interaction: whether the
      interaction has a channel in a cached guild, the member's and the bot's
      permission tests on that channel, and the current time in ms. */
  datatype Env = Env(inCachedGuildChannel: bool, memberHas: nat -> bool, botHas: nat -> bool, now: int)

  /** A permission requirement is checked only when its resolved bit field is
      truthy, that is present and non-zero. */
  predicate Demands(p: Option<nat>)
  {
    p.Some? && p.value != 0
  }

  /** A listener's cooldown applies only when it is truthy. */
  predicate HasCooldown(l: Listener)
  {
    l.cooldown.Some? && l.cooldown.value != 0
  }

  /** The gates before execute, in order: member permissions, bot permissions
      (both only in a cached guild channel), then an active cooldown. */
  function Blocked(env: Env, i: Interaction, l: Listener, cds: Option<seq<Cooldown>>): (r: Option<HaltReason>)
    ensures r.None? || r.value in {MissingMemberPermissions, MissingBotPermissions, CooldownReason}
    ensures !env.inCachedGuildChannel ==> r.None? || r == Some(CooldownReason)
    ensures !Demands(l.requiredMemberPermissions) && !Demands(l.requiredBotPermissions) && !HasCooldown(l) ==> r.None?
    ensures r == Some(MissingMemberPermissions) <==>
      env.inCachedGuildChannel && Demands(l.requiredMemberPermissions) && !env.memberHas(l.requiredMemberPermissions.value)
    ensures r == Some(MissingBotPermissions) <==>
      && !(env.inCachedGuildChannel && Demands(l.requiredMemberPermissions) && !env.memberHas(l.requiredMemberPermissions.value))
      && env.inCachedGuildChannel && Demands(l.requiredBotPermissions) && !env.botHas(l.requiredBotPermissions.value)
    ensures r == Some(CooldownReason) ==> HasCooldown(l) && cds.Some? && FindCooldown(cds.value, i, env.now).Some?
    ensures r == Some(CooldownReason) ==>
      && !(env.inCachedGuildChannel && Demands(l.requiredMemberPermissions) && !env.memberHas(l.requiredMemberPermissions.value))
      && !(env.inCachedGuildChannel && Demands(l.requiredBotPermissions) && !env.botHas(l.requiredBotPermissions.value))
    ensures r.None? <==>
      && (env.inCachedGuildChannel && Demands(l.requiredMemberPermissions) ==> env.memberHas(l.requiredMemberPermissions.value))
      && (env.inCachedGuildChannel && Demands(l.requiredBotPermissions) ==> env.botHas(l.requiredBotPermissions.value))
      && (HasCooldown(l) && cds.Some? ==> FindCooldown(cds.value, i, env.now).None?)
  {
    if env.inCachedGuildChannel && Demands(l.requiredMemberPermissions) && !env.memberHas(l.requiredMemberPermissions.value) then
      Some(MissingMemberPermissions)
    else if env.inCachedGuildChannel && Demands(l.requiredBotPermissions) && !env.botHas(l.requiredBotPermissions.value) then
      Some(MissingBotPermissions)
    else if HasCooldown(l) && cds.Some? && FindCooldown(cds.value, i, env.now).Some? then
      Some(CooldownReason)
    else None
  }

  /** The cooldown a run of the listener creates. */
  function NewCooldown(env: Env, i: Interaction, l: Listener): Cooldown
    requires HasCooldown(l)
  {
    Cooldown(CooldownName(i), i.guildId, i.userId, env.now + l.cooldown.value)
  }

  /** The actions of one visit and the cooldown store after it. */
  datatype Outcome = Outcome(actions: seq<Action>, cooldowns: Option<seq<Cooldown>>)

  /** One listener visit of the emit loop for an interaction classified as `t`. */
  function Step(policy: HaltPolicy, env: Env, i: Interaction, t: ListenerType, l: Listener,
                cds: Option<seq<Cooldown>>): (o: Outcome)
    ensures l.listenerType != t || !IdentifierMatches(l, i) ==> o == Outcome([], cds)
    ensures Executed in o.actions <==> l.listenerType == t && IdentifierMatches(l, i) && Blocked(env, i, l, cds).None?
    ensures Executed !in o.actions ==> o.cooldowns == cds
    ensures Executed in o.actions && HasCooldown(l) && cds.Some? ==>
      o.cooldowns == Some(cds.value + [NewCooldown(env, i, l)])
    ensures Executed in o.actions && !(HasCooldown(l) && cds.Some?) ==> o.cooldowns == cds
    ensures Raised(TypeName(l.listenerType)) in o.actions <==>
      Executed in o.actions && l.fails(i) && !ResolveHalt(policy, l, ErrorReason).handled
    ensures forall a :: a in o.actions && a.Raised? ==> a.listenerType == TypeName(l.listenerType)
    ensures Blocked(env, i, l, cds).Some? && l.halt.None? ==> o.actions == []
    ensures l.listenerType == t && IdentifierMatches(l, i) && Blocked(env, i, l, cds).Some? ==>
      o.actions == (if l.halt.Some? then HaltActions(policy, l, Blocked(env, i, l, cds).value) else [])
    ensures Executed in o.actions ==>
      o.actions == (if HasCooldown(l) && cds.Some? then [CooldownCreated(NewCooldown(env, i, l))] else [])
                   + [Executed]
                   + (if l.fails(i) then
                        HaltActions(policy, l, ErrorReason)
                        + (if ResolveHalt(policy, l, ErrorReason).handled then [] else [Raised(TypeName(l.listenerType))])
                      else [])
  {
    if l.listenerType != t || !IdentifierMatches(l, i) then Outcome([], cds)
    else
      var gate := Blocked(env, i, l, cds);
      if gate.Some? then
        Outcome(if l.halt.Some? then HaltActions(policy, l, gate.value) else [], cds)
      else
        var creates := HasCooldown(l) && cds.Some?;
        var cds' := if creates then Some(cds.value + [NewCooldown(env, i, l)]) else cds;
        var run := (if creates then [CooldownCreated(NewCooldown(env, i, l))] else []) + [Executed];
        if !l.fails(i) then Outcome(run, cds')
        else
          var h := ResolveHalt(policy, l, ErrorReason);
          Outcome(run + HaltActions(policy, l, ErrorReason)
                  + (if h.handled then [] else [Raised(TypeName(l.listenerType))]), cds')
  }

  /** An active cooldown stops the listener: it is not executed and no cooldown
      is created, and without a halt hook nothing at all happens. */
  lemma CooldownGateSkips(policy: HaltPolicy, env: Env, i: Interaction, l: Listener, cds: seq<Cooldown>)
    requires HasCooldown(l) && FindCooldown(cds, i, env.now).Some?
    ensures Executed !in Step(policy, env, i, l.listenerType, l, Some(cds)).actions
    ensures Step(policy, env, i, l.listenerType, l, Some(cds)).cooldowns == Some(cds)
  {
  }

  /** A listener that runs with a cooldown stores one ending `cooldown` ms from
      now, which blocks the same listener for the same interaction until then. */
  lemma CooldownCreatedBlocksRerun(policy: HaltPolicy, env: Env, i: Interaction, l: Listener, cds: seq<Cooldown>)
    requires HasCooldown(l) && l.cooldown.value > 0
    requires Executed in Step(policy, env, i, l.listenerType, l, Some(cds)).actions
    ensures var after := Step(policy, env, i, l.listenerType, l, Some(cds)).cooldowns.value;
            FindCooldown(after, i, env.now).Some?
  {
    var after := Step(policy, env, i, l.listenerType, l, Some(cds)).cooldowns.value;
    assert after[|after| - 1] == NewCooldown(env, i, l);
    assert Active(NewCooldown(env, i, l), i, env.now);
  }

  /** A listener position: its module in cache order and its index in that
      module's `interactionListeners`. */
  datatype Slot = Slot(moduleIndex: nat, index: nat, listener: Listener)

  /** One visit's action, tagged with the listener position. */
  datatype Event = Event(moduleIndex: nat, index: nat, action: Action)

  /** Position order: by module, then by index. */
  predicate AtOrBefore(m1: nat, k1: nat, m2: nat, k2: nat)
  {
    m1 < m2 || (m1 == m2 && k1 <= k2)
  }

  /** A module's listeners; a module without any contributes nothing. */
  function ModuleListeners(m: Option<seq<Listener>>): seq<Listener>
  {
    m.OrElse([])
  }

  /** Positions strictly increase along the slot sequence. */
  ghost predicate Increasing(s: seq<Slot>)
  {
    forall a, b :: 0 <= a < b < |s| ==> AtOrBefore(s[a].moduleIndex, s[a].index, s[b].moduleIndex, s[b].index)
                                        && !(s[a].moduleIndex == s[b].moduleIndex && s[a].index == s[b].index)
  }

  /** Events appear in position order. */
  ghost predicate EventsOrdered(e: seq<Event>)
  {
    forall a, b :: 0 <= a < b < |e| ==> AtOrBefore(e[a].moduleIndex, e[a].index, e[b].moduleIndex, e[b].index)
  }

  /** The slots of module `n`'s listeners, in array order. */
  function ModuleSlots(n: nat, ls: seq<Listener>): (r: seq<Slot>)
    ensures |r| == |ls|
    ensures forall k :: 0 <= k < |r| ==> r[k] == Slot(n, k, ls[k])
  {
    seq(|ls|, k requires 0 <= k < |ls| => Slot(n, k, ls[k]))
  }

  /** The listeners of all modules, module by module, each in array order. */
  function Slots(modules: seq<Option<seq<Listener>>>): (s: seq<Slot>)
    ensures forall k :: 0 <= k < |s| ==>
      && s[k].moduleIndex < |modules|
      && s[k].index < |ModuleListeners(modules[s[k].moduleIndex])|
      && s[k].listener == ModuleListeners(modules[s[k].moduleIndex])[s[k].index]
    ensures Increasing(s)
    decreases |modules|
  {
    if modules == [] then []
    else
      var n := |modules| - 1;
      var init := Slots(modules[..n]);
      var last := ModuleSlots(n, ModuleListeners(modules[n]));
      assert forall k :: 0 <= k < |init| ==> init[k].moduleIndex < n;
      assert forall m :: 0 <= m < n ==> modules[..n][m] == modules[m];
      init + last
  }

  /** The result of running the loop: the tagged actions and the cooldown store. */
  datatype RunOut = RunOut(events: seq<Event>, cooldowns: Option<seq<Cooldown>>)

  /** The actions of a visit, tagged with its position. */
  function Tag(s: Slot, actions: seq<Action>): (e: seq<Event>)
    ensures |e| == |actions|
    ensures forall k :: 0 <= k < |e| ==> e[k] == Event(s.moduleIndex, s.index, actions[k])
  {
    seq(|actions|, k requires 0 <= k < |actions| => Event(s.moduleIndex, s.index, actions[k]))
  }

  /** The loop over listener positions, threading the cooldown store. Every
      event comes from a listener of the classified type. */
  function Run(policy: HaltPolicy, env: Env, i: Interaction, t: ListenerType, slots: seq<Slot>,
               cds: Option<seq<Cooldown>>): (r: RunOut)
    ensures forall e :: e in r.events ==>
      exists k :: 0 <= k < |slots| && slots[k].moduleIndex == e.moduleIndex && slots[k].index == e.index
                  && slots[k].listener.listenerType == t
    ensures cds.None? <==> r.cooldowns.None?
    decreases |slots|
  {
    if slots == [] then RunOut([], cds)
    else
      var n := |slots| - 1;
      var prev := Run(policy, env, i, t, slots[..n], cds);
      var o := Step(policy, env, i, t, slots[n].listener, prev.cooldowns);
      var tail := Tag(slots[n], o.actions);
      assert forall k :: 0 <= k < n ==> slots[..n][k] == slots[k];
      assert tail != [] ==> slots[n].listener.listenerType == t;
      assert forall e :: e in tail ==> e.moduleIndex == slots[n].moduleIndex && e.index == slots[n].index;
      RunOut(prev.events + tail, o.cooldowns)
  }

  /** Appending the actions of a position that no earlier event comes after
      keeps the events in order. */
  lemma OrderedAppend(prev: seq<Event>, s: Slot, actions: seq<Action>)
    requires EventsOrdered(prev)
    requires forall e :: e in prev ==> AtOrBefore(e.moduleIndex, e.index, s.moduleIndex, s.index)
    ensures EventsOrdered(prev + Tag(s, actions))
  {
    var tail := Tag(s, actions);
    var all := prev + tail;
    forall a, b | 0 <= a < b < |all|
      ensures AtOrBefore(all[a].moduleIndex, all[a].index, all[b].moduleIndex, all[b].index)
    {
      if b >= |prev| {
        assert all[b] == tail[b - |prev|];
        if a < |prev| {
          assert all[a] in prev;
        } else {
          assert all[a] == tail[a - |prev|];
        }
      } else {
        assert all[a] == prev[a] && all[b] == prev[b];
      }
    }
  }

  /** Events come out in listener order: by module, then by index. */
  lemma {:induction false} RunOrdered(policy: HaltPolicy, env: Env, i: Interaction, t: ListenerType,
                                      slots: seq<Slot>, cds: Option<seq<Cooldown>>)
    requires Increasing(slots)
    ensures EventsOrdered(Run(policy, env, i, t, slots, cds).events)
    decreases |slots|
  {
    if slots != [] {
      var n := |slots| - 1;
      var init := slots[..n];
      assert forall k :: 0 <= k < n ==> init[k] == slots[k];
      RunOrdered(policy, env, i, t, init, cds);
      var prev := Run(policy, env, i, t, init, cds);
      forall e | e in prev.events
        ensures AtOrBefore(e.moduleIndex, e.index, slots[n].moduleIndex, slots[n].index)
      {
        var k :| 0 <= k < n && init[k].moduleIndex == e.moduleIndex && init[k].index == e.index
                 && init[k].listener.listenerType == t;
        assert init[k] == slots[k];
      }
      OrderedAppend(prev.events, slots[n], Step(policy, env, i, t, slots[n].listener, prev.cooldowns).actions);
    }
  }

  /** The event is at the slot's position. */
  predicate SamePosition(s: Slot, e: Event)
  {
    s.moduleIndex == e.moduleIndex && s.index == e.index
  }

  /** One more slot appends the tagged actions of its visit, on the cooldowns
      the earlier slots left. */
  lemma RunSnoc(policy: HaltPolicy, env: Env, i: Interaction, t: ListenerType,
                init: seq<Slot>, last: Slot, cds: Option<seq<Cooldown>>)
    ensures var prev := Run(policy, env, i, t, init, cds);
            Run(policy, env, i, t, init + [last], cds).events
              == prev.events + Tag(last, Step(policy, env, i, t, last.listener, prev.cooldowns).actions)
  {
    assert (init + [last])[..|init|] == init;
  }

  /** A tagged action list holds an action at its own position exactly when the
      action list holds it, and nothing at any other position. */
  lemma TagContains(s: Slot, actions: seq<Action>, a: Action)
    ensures Event(s.moduleIndex, s.index, a) in Tag(s, actions) <==> a in actions
    ensures forall e :: e in Tag(s, actions) ==> SamePosition(s, e)
  {
    if a in actions {
      var j :| 0 <= j < |actions| && actions[j] == a;
      assert Tag(s, actions)[j] == Event(s.moduleIndex, s.index, a);
    }
  }

  /** No event of the earlier slots sits at the position of the last one. */
  lemma EarlierEventsElsewhere(policy: HaltPolicy, env: Env, i: Interaction, t: ListenerType,
                               init: seq<Slot>, last: Slot, cds: Option<seq<Cooldown>>)
    requires Increasing(init + [last])
    ensures forall e :: e in Run(policy, env, i, t, init, cds).events ==> !SamePosition(last, e)
  {
    var whole := init + [last];
    forall e | e in Run(policy, env, i, t, init, cds).events ensures !SamePosition(last, e) {
      var j :| 0 <= j < |init| && init[j].moduleIndex == e.moduleIndex && init[j].index == e.index
               && init[j].listener.listenerType == t;
      assert whole[j] == init[j] && whole[|init|] == last;
    }
  }

  /** A prefix of an increasing slot sequence is increasing. */
  lemma IncreasingPrefix(slots: seq<Slot>, n: nat)
    requires Increasing(slots) && n <= |slots|
    ensures Increasing(slots[..n])
  {
    assert forall j :: 0 <= j < n ==> slots[..n][j] == slots[j];
  }

  /** The last listener executes exactly when its own visit executes it. */
  lemma ExecutedAtLast(policy: HaltPolicy, env: Env, i: Interaction, t: ListenerType,
                       before: seq<Slot>, s: Slot, cds: Option<seq<Cooldown>>)
    requires Increasing(before + [s])
    ensures Event(s.moduleIndex, s.index, Executed) in Run(policy, env, i, t, before + [s], cds).events
            <==> Executed in Step(policy, env, i, t, s.listener, Run(policy, env, i, t, before, cds).cooldowns).actions
  {
    var prev := Run(policy, env, i, t, before, cds);
    RunSnoc(policy, env, i, t, before, s, cds);
    TagContains(s, Step(policy, env, i, t, s.listener, prev.cooldowns).actions, Executed);
    EarlierEventsElsewhere(policy, env, i, t, before, s, cds);
    assert Event(s.moduleIndex, s.index, Executed) !in prev.events;
  }

  /** A later listener's visit adds no event at another listener's position. */
  lemma ExecutedAtEarlier(policy: HaltPolicy, env: Env, i: Interaction, t: ListenerType,
                          init: seq<Slot>, last: Slot, s: Slot, cds: Option<seq<Cooldown>>)
    requires !(s.moduleIndex == last.moduleIndex && s.index == last.index)
    ensures Event(s.moduleIndex, s.index, Executed) in Run(policy, env, i, t, init + [last], cds).events
            <==> Event(s.moduleIndex, s.index, Executed) in Run(policy, env, i, t, init, cds).events
  {
    var prev := Run(policy, env, i, t, init, cds);
    RunSnoc(policy, env, i, t, init, last, cds);
    TagContains(last, Step(policy, env, i, t, last.listener, prev.cooldowns).actions, Executed);
  }

  /** The listener `s`, between `before` and `after`, executes exactly when its
      visit, on the cooldowns the listeners of `before` left, executes it. */
  lemma {:induction false} RunExecutedAround(policy: HaltPolicy, env: Env, i: Interaction, t: ListenerType,
                                             before: seq<Slot>, s: Slot, after: seq<Slot>,
                                             cds: Option<seq<Cooldown>>)
    requires Increasing(before + [s] + after)
    ensures Event(s.moduleIndex, s.index, Executed) in Run(policy, env, i, t, before + [s] + after, cds).events
            <==> Executed in Step(policy, env, i, t, s.listener, Run(policy, env, i, t, before, cds).cooldowns).actions
    decreases |after|
  {
    if after == [] {
      assert before + [s] + after == before + [s];
      ExecutedAtLast(policy, env, i, t, before, s, cds);
    } else {
      var m := |after| - 1;
      var whole := before + [s] + after;
      var shorter := before + [s] + after[..m];
      assert whole == shorter + [after[m]];
      assert whole[|before|] == s && whole[|whole| - 1] == after[m];
      assert whole[..|shorter|] == shorter;
      IncreasingPrefix(whole, |shorter|);
      ExecutedAtEarlier(policy, env, i, t, shorter, after[m], s, cds);
      RunExecutedAround(policy, env, i, t, before, s, after[..m], cds);
    }
  }

  /** The listener at position `k` executes exactly when it has the classified
      type, its identifier matches, and no gate stops it on the cooldowns the
      earlier listeners left. */
  lemma RunExecutes(policy: HaltPolicy, env: Env, i: Interaction, t: ListenerType,
                    slots: seq<Slot>, cds: Option<seq<Cooldown>>, k: nat)
    requires Increasing(slots) && k < |slots|
    ensures Event(slots[k].moduleIndex, slots[k].index, Executed) in Run(policy, env, i, t, slots, cds).events
            <==> && slots[k].listener.listenerType == t
                 && IdentifierMatches(slots[k].listener, i)
                 && Blocked(env, i, slots[k].listener, Run(policy, env, i, t, slots[..k], cds).cooldowns).None?
  {
    assert slots == slots[..k] + [slots[k]] + slots[k + 1..];
    RunExecutedAround(policy, env, i, t, slots[..k], slots[k], slots[k + 1..], cds);
  }

  /** With no listener of the classified type, the loop does nothing. */
  lemma {:induction false} RunIgnoresOtherTypes(policy: HaltPolicy, env: Env, i: Interaction, t: ListenerType,
                                                slots: seq<Slot>, cds: Option<seq<Cooldown>>)
    requires forall k :: 0 <= k < |slots| ==> slots[k].listener.listenerType != t
    ensures Run(policy, env, i, t, slots, cds) == RunOut([], cds)
    decreases |slots|
  {
    if slots != [] {
      var n := |slots| - 1;
      assert forall k :: 0 <= k < n ==> slots[..n][k] == slots[k];
      RunIgnoresOtherTypes(policy, env, i, t, slots[..n], cds);
    }
  }

  /** `emitInteraction`: classify the interaction (an unknown kind throws before
      any listener is visited), then visit every listener of every module. */
  function Emit(policy: HaltPolicy, env: Env, i: Interaction, modules: seq<Option<seq<Listener>>>,
                cds: Option<seq<Cooldown>>): (r: Result<RunOut, string>)
    ensures Classify(i).Err? <==> r.Err?
    ensures r.Err? ==> r.error == UnknownInteractionType
    ensures r.Ok? ==> forall e :: e in r.value.events ==>
      && e.moduleIndex < |modules|
      && e.index < |ModuleListeners(modules[e.moduleIndex])|
      && ModuleListeners(modules[e.moduleIndex])[e.index].listenerType == Classify(i).value
  {
    match Classify(i)
    case Err(msg) => Err(msg)
    case Ok(t) => Ok(Run(policy, env, i, t, Slots(modules), cds))
  }

  /** The events of an emit follow module order, then listener order. */
  lemma EmitOrdered(policy: HaltPolicy, env: Env, i: Interaction, modules: seq<Option<seq<Listener>>>,
                    cds: Option<seq<Cooldown>>)
    requires Classify(i).Ok?
    ensures EventsOrdered(Emit(policy, env, i, modules, cds).value.events)
  {
    RunOrdered(policy, env, i, Classify(i).value, Slots(modules), cds);
  }

  /** When no module has a listener of the interaction's type, emitting does
      nothing and leaves the cooldowns as they were. */
  lemma EmitWithoutMatchingType(policy: HaltPolicy, env: Env, i: Interaction, modules: seq<Option<seq<Listener>>>,
                                cds: Option<seq<Cooldown>>)
    requires Classify(i).Ok?
    requires forall m, k :: 0 <= m < |modules| && 0 <= k < |ModuleListeners(modules[m])| ==>
               ModuleListeners(modules[m])[k].listenerType != Classify(i).value
    ensures Emit(policy, env, i, modules, cds) == Ok(RunOut([], cds))
  {
    RunIgnoresOtherTypes(policy, env, i, Classify(i).value, Slots(modules), cds);
  }

  /** The slots of all modules are those of the earlier modules, then the last module's. */
  lemma SlotsSnoc(modules: seq<Option<seq<Listener>>>)
    requires modules != []
    ensures Slots(modules) == Slots(modules[..|modules| - 1]) + ModuleSlots(|modules| - 1, ModuleListeners(modules[|modules| - 1]))
  {
  }

  /** Every listener of every module has a slot. */
  lemma {:induction false} SlotsCover(modules: seq<Option<seq<Listener>>>, m: nat, x: nat)
    requires m < |modules| && x < |ModuleListeners(modules[m])|
    ensures exists k :: 0 <= k < |Slots(modules)| && Slots(modules)[k].moduleIndex == m && Slots(modules)[k].index == x
    decreases |modules|
  {
    var n := |modules| - 1;
    var init := Slots(modules[..n]);
    var last := ModuleSlots(n, ModuleListeners(modules[n]));
    SlotsSnoc(modules);
    if m == n {
      assert Slots(modules)[|init| + x] == last[x];
    } else {
      assert modules[..n][m] == modules[m];
      SlotsCover(modules[..n], m, x);
      var k :| 0 <= k < |init| && init[k].moduleIndex == m && init[k].index == x;
      assert Slots(modules)[k] == init[k];
    }
  }

  /** In an emit, the listener at slot `k` executes exactly when it has the
      interaction's type, its identifier matches, and no gate stops it on the
      cooldowns the listeners before it left. */
  lemma EmitExecutes(policy: HaltPolicy, env: Env, i: Interaction, modules: seq<Option<seq<Listener>>>,
                     cds: Option<seq<Cooldown>>, k: nat)
    requires Classify(i).Ok? && k < |Slots(modules)|
    ensures var s := Slots(modules);
            (Event(s[k].moduleIndex, s[k].index, Executed) in Emit(policy, env, i, modules, cds).value.events
             <==> && s[k].listener.listenerType == Classify(i).value
                  && IdentifierMatches(s[k].listener, i)
                  && Blocked(env, i, s[k].listener, Run(policy, env, i, Classify(i).value, s[..k], cds).cooldowns).None?)
  {
    RunExecutes(policy, env, i, Classify(i).value, Slots(modules), cds, k);
  }
}
