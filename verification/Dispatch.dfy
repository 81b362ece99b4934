/** What the dispatch goroutine does with one event, and why the order of the rule map does not matter. */
module Dispatch {
  import opened GoText
  import opened Rules
  import opened RuleStore
  import opened Requests
  import ContainerId
  import ContainerText
  import Runtime

  /** The event record of the gRPC types; its data map may be nil. */
  datatype Event = Event(
    pid: nat, tgid: nat, uid: nat, gid: nat, command: string, returnValue: int,
    data: Option<map<string, string>>, containerId: string, containerRuntime: string, tracer: string)

  datatype Effect =
    | Enqueue(event: Event)
    | Do(action: string, event: Event)
    | NoSuchAction(action: string, rule: string)

  const STDOUT := "stdout"

  /** The event as the goroutine completes it; `runtime` and `id` are what the proc package answers. */
  function Complete(event: Event, tracer: string, runtime: string, id: string): Event {
    event.(containerRuntime := if |event.containerRuntime| < 1 then runtime else event.containerRuntime,
           containerId := if |event.containerId| < 1 then id else event.containerId,
           tracer := tracer)
  }

  function ActionEffects(names: seq<string>, rule: string, event: Event, actions: set<string>): seq<Effect> {
    if names == [] then []
    else [if names[0] in actions then Do(names[0], event) else NoSuchAction(names[0], rule)]
         + ActionEffects(names[1..], rule, event, actions)
  }

  ghost predicate Selects(rule: Rule, event: Event)
    requires event.data.Some?
  {
    Matches(rule, event.data.value, event.containerRuntime)
  }

  ghost function RuleEffects(rule: Rule, event: Event, actions: set<string>): seq<Effect>
    requires event.data.Some?
  {
    if Selects(rule, event) then [Enqueue(event)] + ActionEffects(rule.actions, rule.name, event, actions) else []
  }

  /** What each rule of the map causes. */
  ghost function Blocks(rules: map<string, Rule>, event: Event, actions: set<string>): map<string, seq<Effect>>
    requires event.data.Some?
  {
    map n | n in rules :: RuleEffects(rules[n], event, actions)
  }

  /** The effects when the map yields its rules in the given order. */
  function InOrder<E>(order: seq<string>, blocks: map<string, seq<E>>): seq<E>
    requires forall n :: n in order ==> n in blocks
  {
    if order == [] then [] else blocks[order[0]] + InOrder(order[1..], blocks)
  }

  /** A possible iteration order of a map: each key once. */
  ghost predicate Enumerates(order: seq<string>, keys: set<string>) {
    && (forall i, j :: 0 <= i < j < |order| ==> order[i] != order[j])
    && forall n :: n in order <==> n in keys
  }

  /** Everything one event may cause: nothing without data, stdout and a queued event if the tracer has no rules. */
  ghost predicate IsDispatch(log: seq<Effect>, rules: map<string, Rule>, event: Event, actions: set<string>) {
    if event.data.None? then log == []
    else if rules == map[] then log == [Do(STDOUT, event), Enqueue(event)]
    else exists order :: Enumerates(order, rules.Keys) && log == InOrder(order, Blocks(rules, event, actions))
  }

  // ---------- independence of the order ----------

  lemma {:induction false} EnumerationCounts(order: seq<string>, keys: set<string>)
    requires Enumerates(order, keys)
    ensures multiset(order) == multiset(keys)
  {
    if order == [] {
      assert keys == {};
    } else {
      var rest := order[1..];
      assert order == [order[0]] + rest;
      EnumerationCounts(rest, keys - {order[0]});
      assert keys == keys - {order[0]} + {order[0]};
    }
  }

  lemma {:induction false} InOrderConcat<E>(a: seq<string>, b: seq<string>, blocks: map<string, seq<E>>)
    requires forall n :: n in a + b ==> n in blocks
    ensures (forall n :: n in a ==> n in blocks) && (forall n :: n in b ==> n in blocks)
    ensures InOrder(a + b, blocks) == InOrder(a, blocks) + InOrder(b, blocks)
  {
    assert forall n :: n in a ==> n in a + b;
    assert forall n :: n in b ==> n in a + b;
    if a == [] {
      assert a + b == b;
    } else {
      assert (a + b)[1..] == a[1..] + b;
      InOrderConcat(a[1..], b, blocks);
    }
  }

  lemma InOrderSnoc<E>(order: seq<string>, n: string, blocks: map<string, seq<E>>)
    requires (forall m :: m in order ==> m in blocks) && n in blocks
    ensures forall m :: m in order + [n] ==> m in blocks
    ensures InOrder(order + [n], blocks) == InOrder(order, blocks) + blocks[n]
  {
    InOrderConcat(order, [n], blocks);
    assert InOrder([n], blocks) == blocks[n] + InOrder([n][1..], blocks);
  }

  /** A key's block can be taken out of the middle. */
  lemma InOrderAround<E>(front: seq<string>, n: string, back: seq<string>, blocks: map<string, seq<E>>)
    requires forall m :: m in front + [n] + back ==> m in blocks
    ensures n in blocks && forall m :: m in front + back ==> m in blocks
    ensures (forall m :: m in front ==> m in blocks) && (forall m :: m in back ==> m in blocks)
    ensures InOrder(front + [n] + back, blocks) == InOrder(front, blocks) + blocks[n] + InOrder(back, blocks)
    ensures InOrder(front + back, blocks) == InOrder(front, blocks) + InOrder(back, blocks)
  {
    assert n in front + [n] + back;
    forall m | m in front + back ensures m in blocks {
      assert m in front + [n] + back;
    }
    InOrderConcat(front + [n], back, blocks);
    InOrderConcat(front, [n], blocks);
    InOrderConcat(front, back, blocks);
    assert InOrder([n], blocks) == blocks[n] + InOrder([n][1..], blocks);
  }

  lemma WithoutAt(xs: seq<string>, i: nat)
    requires i < |xs|
    ensures xs == xs[..i] + [xs[i]] + xs[i + 1..]
    ensures multiset(xs) == multiset(xs[..i] + xs[i + 1..]) + multiset{xs[i]}
  {
    assert xs == xs[..i] + [xs[i]] + xs[i + 1..];
  }

  lemma CancelOne(a: multiset<string>, b: multiset<string>, x: string)
    requires a + multiset{x} == b + multiset{x}
    ensures a == b
  {
    assert a == a + multiset{x} - multiset{x};
  }

  /** Taking out a key of one order leaves a shorter order with the remaining keys. */
  lemma TakeOut(order: seq<string>, other: seq<string>) returns (i: nat)
    requires order != [] && multiset(order) == multiset(other)
    ensures i < |other| && other[i] == order[0] && other == other[..i] + [other[i]] + other[i + 1..]
    ensures multiset(order[1..]) == multiset(other[..i] + other[i + 1..])
  {
    assert order[0] in multiset(order);
    i :| 0 <= i < |other| && other[i] == order[0];
    WithoutAt(order, 0);
    WithoutAt(other, i);
    assert order[..0] + order[1..] == order[1..];
    CancelOne(multiset(order[1..]), multiset(other[..i] + other[i + 1..]), order[0]);
  }

  lemma Weave<E>(block: seq<E>, front: seq<E>, back: seq<E>, rest: seq<E>)
    requires multiset(rest) == multiset(front + back)
    ensures multiset(block + rest) == multiset(front + block + back)
  {}

  lemma {:induction false} SameKeysSameEffects<E>(order: seq<string>, other: seq<string>, blocks: map<string, seq<E>>)
    requires multiset(order) == multiset(other)
    requires (forall n :: n in order ==> n in blocks) && (forall n :: n in other ==> n in blocks)
    ensures multiset(InOrder(order, blocks)) == multiset(InOrder(other, blocks))
  {
    if order == [] {
      assert |multiset(other)| == 0;
      assert other == [];
    } else {
      var i := TakeOut(order, other);
      var front, back := other[..i], other[i + 1..];
      InOrderAround(front, other[i], back, blocks);
      SameKeysSameEffects(order[1..], front + back, blocks);
      Weave(blocks[order[0]], InOrder(front, blocks), InOrder(back, blocks), InOrder(order[1..], blocks));
    }
  }

  /** Any two iteration orders of the rule map perform the same effects the same number of times. */
  lemma DispatchIgnoresOrder(
    log: seq<Effect>, log': seq<Effect>, rules: map<string, Rule>, event: Event, actions: set<string>)
    requires IsDispatch(log, rules, event, actions) && IsDispatch(log', rules, event, actions)
    ensures multiset(log) == multiset(log')
  {
    if event.data.Some? && rules != map[] {
      var order :| Enumerates(order, rules.Keys) && log == InOrder(order, Blocks(rules, event, actions));
      var order' :| Enumerates(order', rules.Keys) && log' == InOrder(order', Blocks(rules, event, actions));
      EnumerationCounts(order, rules.Keys);
      EnumerationCounts(order', rules.Keys);
      SameKeysSameEffects(order, order', Blocks(rules, event, actions));
    }
  }

  // ---------- how often an event is queued ----------

  function Enqueues(log: seq<Effect>): nat {
    if log == [] then 0 else (if log[0].Enqueue? then 1 else 0) + Enqueues(log[1..])
  }

  lemma {:induction false} EnqueuesConcat(a: seq<Effect>, b: seq<Effect>)
    ensures Enqueues(a + b) == Enqueues(a) + Enqueues(b)
  {
    if a == [] {
      assert a + b == b;
    } else {
      assert (a + b)[1..] == a[1..] + b;
      EnqueuesConcat(a[1..], b);
    }
  }

  lemma {:induction false} ActionsNeverEnqueue(names: seq<string>, rule: string, event: Event, actions: set<string>)
    ensures Enqueues(ActionEffects(names, rule, event, actions)) == 0
    ensures (forall a :: a in names ==> a in actions) ==>
              forall e :: e in ActionEffects(names, rule, event, actions) ==> e.Do?
  {
    if names != [] {
      ActionsNeverEnqueue(names[1..], rule, event, actions);
    }
  }

  ghost function Selected(keys: set<string>, rules: map<string, Rule>, event: Event): set<string>
    requires event.data.Some? && keys <= rules.Keys
  {
    set n | n in keys && Selects(rules[n], event)
  }

  lemma SelectedWithout(keys: set<string>, n: string, rules: map<string, Rule>, event: Event)
    requires event.data.Some? && keys <= rules.Keys && n in keys
    ensures |Selected(keys, rules, event)| ==
            |Selected(keys - {n}, rules, event)| + (if Selects(rules[n], event) then 1 else 0)
  {
    var all, fewer := Selected(keys, rules, event), Selected(keys - {n}, rules, event);
    if Selects(rules[n], event) {
      assert all == fewer + {n};
    } else {
      assert all == fewer;
    }
  }

  lemma BlockEnqueues(rule: Rule, event: Event, actions: set<string>)
    requires event.data.Some?
    ensures Enqueues(RuleEffects(rule, event, actions)) == if Selects(rule, event) then 1 else 0
  {
    ActionsNeverEnqueue(rule.actions, rule.name, event, actions);
    var effects := ActionEffects(rule.actions, rule.name, event, actions);
    assert ([Enqueue(event)] + effects)[1..] == effects;
  }

  lemma {:induction false} OneEnqueuePerRule(
    order: seq<string>, keys: set<string>, rules: map<string, Rule>, event: Event, actions: set<string>)
    requires event.data.Some? && Enumerates(order, keys) && keys <= rules.Keys
    ensures Enqueues(InOrder(order, Blocks(rules, event, actions))) == |Selected(keys, rules, event)|
  {
    if order == [] {
      assert Selected(keys, rules, event) == {};
    } else {
      var n, rest := order[0], order[1..];
      assert order == [n] + rest;
      OneEnqueuePerRule(rest, keys - {n}, rules, event, actions);
      BlockEnqueues(rules[n], event, actions);
      EnqueuesConcat(RuleEffects(rules[n], event, actions), InOrder(rest, Blocks(rules, event, actions)));
      SelectedWithout(keys, n, rules, event);
    }
  }

  /** One queued event per matching rule, or exactly one if the tracer has no rules. */
  lemma DispatchEnqueues(log: seq<Effect>, rules: map<string, Rule>, event: Event, actions: set<string>)
    requires IsDispatch(log, rules, event, actions) && event.data.Some?
    ensures Enqueues(log) == if rules == map[] then 1 else |Selected(rules.Keys, rules, event)|
  {
    if rules == map[] {
      assert log[1..] == [Enqueue(event)] && log[1..][1..] == [];
      assert Enqueues(log[1..]) == 1;
    } else {
      var order :| Enumerates(order, rules.Keys) && log == InOrder(order, Blocks(rules, event, actions));
      OneEnqueuePerRule(order, rules.Keys, rules, event, actions);
    }
  }

  lemma BlockOf<E>(order: seq<string>, n: string, blocks: map<string, seq<E>>) returns (before: seq<E>, after: seq<E>)
    requires (forall m :: m in order ==> m in blocks) && n in order
    ensures InOrder(order, blocks) == before + blocks[n] + after
  {
    var i :| 0 <= i < |order| && order[i] == n;
    var front, back := order[..i], order[i + 1..];
    assert order == front + [n] + back;
    InOrderAround(front, n, back, blocks);
    before, after := InOrder(front, blocks), InOrder(back, blocks);
  }

  /** Each rule's effects stand together in the log, its actions in the order the rule lists them. */
  lemma RuleBlockIsContiguous(log: seq<Effect>, rules: map<string, Rule>, event: Event, actions: set<string>, n: string)
    requires IsDispatch(log, rules, event, actions) && event.data.Some? && n in rules
    ensures exists before, after :: log == before + RuleEffects(rules[n], event, actions) + after
  {
    var blocks := Blocks(rules, event, actions);
    var order :| Enumerates(order, rules.Keys) && log == InOrder(order, blocks);
    var before, after := BlockOf(order, n, blocks);
    assert log == before + RuleEffects(rules[n], event, actions) + after;
  }

  // ---------- which actions are performed ----------

  lemma {:induction false} ActionEffectsAt(names: seq<string>, rule: string, event: Event, actions: set<string>)
    ensures |ActionEffects(names, rule, event, actions)| == |names|
    ensures forall i :: 0 <= i < |names| ==>
              ActionEffects(names, rule, event, actions)[i] ==
              if names[i] in actions then Do(names[i], event) else NoSuchAction(names[i], rule)
  {
    if names != [] {
      ActionEffectsAt(names[1..], rule, event, actions);
    }
  }

  /** A selecting rule queues the event and then performs each of its actions, an unknown one being reported. */
  lemma RuleEffectsMeaning(rule: Rule, event: Event, actions: set<string>)
    requires event.data.Some?
    ensures var effects := RuleEffects(rule, event, actions);
            if !Selects(rule, event) then effects == []
            else
              && |effects| == 1 + |rule.actions| && effects[0] == Enqueue(event)
              && forall i :: 0 <= i < |rule.actions| ==>
                   effects[1 + i] == if rule.actions[i] in actions then Do(rule.actions[i], event)
                                     else NoSuchAction(rule.actions[i], rule.name)
  {
    ActionEffectsAt(rule.actions, rule.name, event, actions);
  }

  /** How often the rule asks for the action. */
  function Asks(rule: Rule, a: string): nat {
    multiset(rule.actions)[a]
  }

  lemma {:induction false} ActionEffectsCount(
    names: seq<string>, rule: string, event: Event, actions: set<string>, a: string)
    requires a in actions
    ensures multiset(ActionEffects(names, rule, event, actions))[Do(a, event)] == multiset(names)[a]
  {
    if names != [] {
      ActionEffectsCount(names[1..], rule, event, actions, a);
      assert names == [names[0]] + names[1..];
    }
  }

  lemma RuleEffectsCount(rule: Rule, event: Event, actions: set<string>, a: string)
    requires event.data.Some? && a in actions
    ensures multiset(RuleEffects(rule, event, actions))[Do(a, event)] == if Selects(rule, event) then Asks(rule, a) else 0
  {
    ActionEffectsCount(rule.actions, rule.name, event, actions, a);
  }

  /** How often the selected rules ask for the action, all together. */
  ghost function AllAsk(keys: set<string>, rules: map<string, Rule>, event: Event, a: string): nat
    requires event.data.Some? && keys <= rules.Keys
  {
    if keys == {} then 0
    else
      var n :| n in keys;
      (if Selects(rules[n], event) then Asks(rules[n], a) else 0) + AllAsk(keys - {n}, rules, event, a)
  }

  /** Any of the rules may be counted first. */
  lemma {:induction false} AllAskWithout(keys: set<string>, n: string, rules: map<string, Rule>, event: Event, a: string)
    requires event.data.Some? && keys <= rules.Keys && n in keys
    ensures AllAsk(keys, rules, event, a) ==
            (if Selects(rules[n], event) then Asks(rules[n], a) else 0) + AllAsk(keys - {n}, rules, event, a)
    decreases keys
  {
    var m :| m in keys && AllAsk(keys, rules, event, a) ==
      (if Selects(rules[m], event) then Asks(rules[m], a) else 0) + AllAsk(keys - {m}, rules, event, a);
    if m != n {
      AllAskWithout(keys - {m}, n, rules, event, a);
      AllAskWithout(keys - {n}, m, rules, event, a);
      assert keys - {m} - {n} == keys - {n} - {m};
    }
  }

  lemma {:induction false} ActionsInOrder(
    order: seq<string>, keys: set<string>, rules: map<string, Rule>, event: Event, actions: set<string>, a: string)
    requires event.data.Some? && Enumerates(order, keys) && keys <= rules.Keys && a in actions
    ensures multiset(InOrder(order, Blocks(rules, event, actions)))[Do(a, event)] == AllAsk(keys, rules, event, a)
  {
    if order == [] {
      assert keys == {};
    } else {
      var n, rest := order[0], order[1..];
      assert order == [n] + rest;
      ActionsInOrder(rest, keys - {n}, rules, event, actions, a);
      RuleEffectsCount(rules[n], event, actions, a);
      AllAskWithout(keys, n, rules, event, a);
    }
  }

  /** Each registered action is performed as often as the selected rules list it, all together. */
  lemma ActionsPerformed(log: seq<Effect>, rules: map<string, Rule>, event: Event, actions: set<string>, a: string)
    requires event.data.Some? && rules != map[] && IsDispatch(log, rules, event, actions) && a in actions
    ensures multiset(log)[Do(a, event)] == AllAsk(rules.Keys, rules, event, a)
  {
    var order :| Enumerates(order, rules.Keys) && log == InOrder(order, Blocks(rules, event, actions));
    ActionsInOrder(order, rules.Keys, rules, event, actions, a);
  }

  // ---------- the missing-action branch ----------

  lemma {:induction false} EffectsAreKnown(order: seq<string>, rules: map<string, Rule>, event: Event, actions: set<string>)
    requires event.data.Some? && forall n :: n in order ==> n in rules
    requires forall n :: n in order ==> forall a :: a in rules[n].actions ==> a in actions
    ensures forall e :: e in InOrder(order, Blocks(rules, event, actions)) ==> !e.NoSuchAction?
  {
    if order != [] {
      EffectsAreKnown(order[1..], rules, event, actions);
      var rule := rules[order[0]];
      ActionsNeverEnqueue(rule.actions, rule.name, event, actions);
    }
  }

  /** Under the store invariant, with actions registered under the listed names, no action is ever missing. */
  lemma NoActionIsMissing(log: seq<Effect>, store: Store, cfg: Config, tracer: string, event: Event, actions: set<string>)
    requires StoreInvariant(store, cfg) && forall a :: a in cfg.actionList ==> a in actions
    requires IsDispatch(log, Inner(store, tracer), event, actions)
    ensures forall e :: e in log ==> !e.NoSuchAction?
  {
    var rules := Inner(store, tracer);
    if event.data.Some? && rules != map[] {
      var order :| Enumerates(order, rules.Keys) && log == InOrder(order, Blocks(rules, event, actions));
      forall n | n in order ensures forall a :: a in rules[n].actions ==> a in actions {
        assert RuleInvariant(store[tracer][n], tracer, n, cfg);
      }
      EffectsAreKnown(order, rules, event, actions);
    }
  }

  /** From a successful startup through any requests, no dispatch of any event ever misses an action. */
  lemma NoActionIsMissingInAnyRun(
    files: seq<File>, requests: seq<Request>, cfg: Config, log: seq<Effect>, tracer: string, event: Event,
    actions: set<string>)
    requires LoadFrom(files, map[], []).Rls? && AllRegistered(LoadFrom(files, map[], []).store, cfg)
    requires forall a :: a in cfg.actionList ==> a in actions
    requires IsDispatch(log, Inner(ApplyAll(LoadFrom(files, map[], []).store, requests, cfg), tracer), event, actions)
    ensures forall e :: e in log ==> !e.NoSuchAction?
  {
    var start := LoadFrom(files, map[], []).store;
    LoadedStoreIsInvariant(files, cfg);
    RunKeepsInvariant(start, requests, cfg);
    NoActionIsMissing(log, ApplyAll(start, requests, cfg), cfg, tracer, event, actions);
  }

  // ---------- completing an event ----------

  /** The event completed with what the proc package reads: the system for the runtime, the cgroup file for the ID. */
  function CompleteFrom(event: Event, tracer: string, sys: Runtime.System, cgroup: string): Event {
    Complete(event, tracer, Runtime.GetContainerRuntime(sys), ContainerId.GetContainerId(TrimSpace(cgroup)))
  }

  /** No line of the cgroup file names a container. */
  ghost predicate NamesNoContainer(cgroup: string) {
    ContainerText.NamesNone(TrimSpace(cgroup))
  }

  /**
   What the tracer filled in stays. The runtime is never left blank; the ID becomes that of the cgroup file. Only if
   that names no container can completing again, from a file that names one by now, change the event.
   */
  lemma CompleteFillsBlanks(
    event: Event, tracer: string, sys: Runtime.System, cgroup: string, sys': Runtime.System, cgroup': string)
    ensures var done := CompleteFrom(event, tracer, sys, cgroup);
            && done.containerRuntime != "" && done.tracer == tracer
            && done.containerRuntime ==
               (if event.containerRuntime != "" then event.containerRuntime else Runtime.GetContainerRuntime(sys))
            && (if event.containerId != "" then done.containerId == event.containerId
                else ContainerText.IsIdOf(TrimSpace(cgroup), done.containerId))
            && (done.containerId == "" <==> event.containerId == "" && NamesNoContainer(cgroup))
            && (CompleteFrom(done, tracer, sys', cgroup') == done <==>
                  done.containerId != "" || NamesNoContainer(cgroup'))
            && done.(containerRuntime := event.containerRuntime, containerId := event.containerId,
                     tracer := event.tracer) == event
  {
    Runtime.CascadeShadowsLibvirt(sys);
    ContainerText.ContainerIdText(TrimSpace(cgroup));
    ContainerText.ContainerIdText(TrimSpace(cgroup'));
  }

  /**
   A rule can select an event whose runtime the cascade fills in exactly if it lists no runtime or one other than
   lxc-libvirt: a valid rule for lxc-libvirt alone is dead.
   */
  lemma LibvirtAloneIsDead(rule: Rule, event: Event, tracer: string, cgroup: string)
    requires IsWellFormed(rule) && event.data.Some? && event.containerRuntime == ""
    ensures (exists sys :: Selects(rule, CompleteFrom(event, tracer, sys, cgroup))) <==>
            && FilterMatches(rule, event.data.value)
            && (rule.containerRuntimes == [] || exists r :: r in rule.containerRuntimes && r != Runtime.LXC_LIBVIRT)
  {
    forall r ensures (exists sys :: Runtime.GetContainerRuntime(sys) == r) <==>
                     r == Runtime.NOT_FOUND || (r in Runtime.RUNTIMES && r != Runtime.LXC_LIBVIRT)
    {
      Runtime.CascadeImage(r);
    }
    forall sys ensures CompleteFrom(event, tracer, sys, cgroup).containerRuntime == Runtime.GetContainerRuntime(sys) {
      Runtime.CascadeShadowsLibvirt(sys);
    }
    if FilterMatches(rule, event.data.value) {
      if rule.containerRuntimes == [] {
        var sys := Runtime.System("", false, false, false, "", "", "", "");
        assert Selects(rule, CompleteFrom(event, tracer, sys, cgroup));
      } else if r :| r in rule.containerRuntimes && r != Runtime.LXC_LIBVIRT {
        var sys :| Runtime.GetContainerRuntime(sys) == r;
        assert Selects(rule, CompleteFrom(event, tracer, sys, cgroup));
      }
    }
  }

  /** Without rules each registered action is performed once exactly if stdout is the only one there is. */
  lemma WithoutRulesStdoutAlone(log: seq<Effect>, event: Event, actions: set<string>)
    requires event.data.Some? && IsDispatch(log, map[], event, actions)
    ensures log == [Do("stdout", event), Enqueue(event)]
    ensures (forall a :: multiset(log)[Do(a, event)] == if a in actions then 1 else 0) <==> actions == {"stdout"}
  {
    forall a ensures multiset(log)[Do(a, event)] == if a == STDOUT then 1 else 0 {}
    if forall a :: multiset(log)[Do(a, event)] == if a in actions then 1 else 0 {
      forall a ensures a in actions <==> a == STDOUT {
        assert multiset(log)[Do(a, event)] == if a in actions then 1 else 0;
      }
    }
  }
}
