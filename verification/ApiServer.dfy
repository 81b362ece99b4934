/** api/api.go and api/event.go: the server object, its event buffer, its requests and the dispatch of one event. */
module EventStack {
  import opened GoText
  import opened Dispatch

  datatype Op = Add(event: Event) | Pop

  /** The stack after an operation: the newest event is the last one, and nothing is added unless streaming. */
  function After(op: Op, stack: seq<Event>, streaming: bool): seq<Event> {
    match op
    case Add(event) => if streaming then stack + [event] else stack
    case Pop => if stack == [] then [] else stack[..|stack| - 1]
  }

  /** What a pop returns. */
  function Top(stack: seq<Event>): Option<Event> {
    if stack == [] then None else Some(stack[|stack| - 1])
  }

  function Final(ops: seq<Op>, stack: seq<Event>, streaming: bool): seq<Event>
    decreases |ops|
  {
    if ops == [] then stack else Final(ops[1..], After(ops[0], stack, streaming), streaming)
  }

  /** The results of the pops, in order. */
  function Popped(ops: seq<Op>, stack: seq<Event>, streaming: bool): seq<Option<Event>>
    decreases |ops|
  {
    if ops == [] then []
    else (if ops[0].Pop? then [Top(stack)] else []) + Popped(ops[1..], After(ops[0], stack, streaming), streaming)
  }

  function Adds(events: seq<Event>): seq<Op> {
    if events == [] then [] else [Add(events[0])] + Adds(events[1..])
  }

  function Pops(n: nat): seq<Op> {
    if n == 0 then [] else [Pop] + Pops(n - 1)
  }

  function Reversed(events: seq<Event>): seq<Option<Event>> {
    if events == [] then [] else [Some(events[|events| - 1])] + Reversed(events[..|events| - 1])
  }

  lemma RunCons(op: Op, ops: seq<Op>, stack: seq<Event>, streaming: bool)
    ensures Final([op] + ops, stack, streaming) == Final(ops, After(op, stack, streaming), streaming)
    ensures Popped([op] + ops, stack, streaming) ==
            (if op.Pop? then [Top(stack)] else []) + Popped(ops, After(op, stack, streaming), streaming)
  {
    assert ([op] + ops)[1..] == ops;
  }

  lemma {:induction false} RunConcat(a: seq<Op>, b: seq<Op>, stack: seq<Event>, streaming: bool)
    ensures Final(a + b, stack, streaming) == Final(b, Final(a, stack, streaming), streaming)
    ensures Popped(a + b, stack, streaming) ==
            Popped(a, stack, streaming) + Popped(b, Final(a, stack, streaming), streaming)
    decreases |a|
  {
    if a == [] {
      assert a + b == b;
    } else {
      assert a + b == [a[0]] + (a[1..] + b) && a == [a[0]] + a[1..];
      RunCons(a[0], a[1..] + b, stack, streaming);
      RunCons(a[0], a[1..], stack, streaming);
      RunConcat(a[1..], b, After(a[0], stack, streaming), streaming);
    }
  }

  lemma AddsCons(events: seq<Event>)
    requires events != []
    ensures Adds(events) == [Add(events[0])] + Adds(events[1..])
  {}

  lemma {:induction false} AddsPush(events: seq<Event>, stack: seq<Event>)
    ensures Final(Adds(events), stack, true) == stack + events
  {
    if events == [] {
      assert stack + events == stack;
    } else {
      var pushed := stack + [events[0]];
      AddsCons(events);
      RunCons(Add(events[0]), Adds(events[1..]), stack, true);
      AddsPush(events[1..], pushed);
      assert pushed + events[1..] == stack + events;
    }
  }

  lemma {:induction false} AddsPopNothing(events: seq<Event>, stack: seq<Event>)
    ensures Popped(Adds(events), stack, true) == []
  {
    if events != [] {
      AddsCons(events);
      RunCons(Add(events[0]), Adds(events[1..]), stack, true);
      AddsPopNothing(events[1..], stack + [events[0]]);
    }
  }

  lemma {:induction false} PopsReverse(events: seq<Event>, stack: seq<Event>)
    ensures Final(Pops(|events|), stack + events, true) == stack
    ensures Popped(Pops(|events|), stack + events, true) == Reversed(events)
  {
    if events == [] {
      assert stack + events == stack;
    } else {
      var n := |events|;
      assert (stack + events)[..|stack + events| - 1] == stack + events[..n - 1];
      PopsReverse(events[..n - 1], stack);
      assert Pops(n)[1..] == Pops(n - 1);
    }
  }

  /** n adds and then n pops give the events back in reverse and leave the older ones untouched. */
  lemma AddsThenPops(events: seq<Event>, stack: seq<Event>)
    ensures Popped(Adds(events) + Pops(|events|), stack, true) == Reversed(events)
    ensures Final(Adds(events) + Pops(|events|), stack, true) == stack
  {
    RunConcat(Adds(events), Pops(|events|), stack, true);
    AddsPush(events, stack);
    AddsPopNothing(events, stack);
    PopsReverse(events, stack);
  }
}

module Api {
  import opened GoText
  import opened Rules
  import opened RuleStore
  import opened Requests
  import opened Dispatch
  import opened EventStack
  import ContainerId
  import Runtime

  /** The event a pop hands out: a copy of its own, whose address goes to the caller. */
  class EventCell {
    var event: Event

    constructor (event: Event)
      ensures this.event == event
    {
      this.event := event;
    }
  }

  /** The cells handed out hold these pop results, null standing for none. */
  ghost predicate Hold(cells: seq<EventCell?>, popped: seq<Option<Event>>)
    reads set c | c in cells && c != null
  {
    && |cells| == |popped|
    && forall k :: 0 <= k < |cells| ==>
         if cells[k] == null then popped[k] == None else popped[k] == Some(cells[k].event)
  }

  class ApiServer {
    var rules: Store
    const cfg: Config
    const actions: set<string>
    var isStreaming: bool
    // The slice of events: `len` slots of the backing array are in use.
    var data: array<Event>
    var len: nat

    ghost predicate Valid()
      reads this
    {
      && len <= data.Length
      && StoreInvariant(rules, cfg)
      && (forall a :: a in cfg.actionList ==> a in actions) && STDOUT in actions
    }

    ghost function Events(): seq<Event>
      reads this, data
      requires len <= data.Length
    {
      data[..len]
    }

    /** NewServer, given what the daemon's startup built. */
    constructor (rules: Store, cfg: Config, actions: set<string>)
      requires StoreInvariant(rules, cfg) && (forall a :: a in cfg.actionList ==> a in actions) && STDOUT in actions
      ensures Valid() && fresh(data) && Events() == [] && !isStreaming
      ensures this.rules == rules && this.cfg == cfg && this.actions == actions
    {
      this.rules, this.cfg, this.actions := rules, cfg, actions;
      isStreaming := false;
      data := new Event[0];
      len := 0;
    }

    method AddEvent(event: Event)
      requires Valid()
      modifies this`data, this`len, data
      ensures Valid() && (data == old(data) || fresh(data))
      ensures Events() == After(Add(event), old(Events()), isStreaming)
      ensures Events() == if isStreaming then old(Events()) + [event] else old(Events())
    {
      if !isStreaming {
        return;
      }
      if len == data.Length {
        var grown := new Event[2 * data.Length + 1];
        forall i | 0 <= i < len {
          grown[i] := data[i];
        }
        data := grown;
      }
      data[len] := event;
      len := len + 1;
    }

    method PopEvent() returns (popped: EventCell?)
      requires Valid()
      modifies this`len
      ensures Valid()
      ensures Events() == After(Pop, old(Events()), isStreaming)
      ensures popped == null <==> Top(old(Events())) == None
      ensures popped != null ==> fresh(popped) && Top(old(Events())) == Some(popped.event)
      ensures popped == null <==> old(Events()) == []
      ensures popped != null ==> var was := old(Events()); Events() == was[..|was| - 1] && popped.event == was[|was| - 1]
    {
      if len > 0 {
        popped := new EventCell(data[len - 1]);
        len := len - 1;
      } else {
        popped := null;
      }
    }

    method RunOp(op: Op) returns (cells: seq<EventCell?>)
      requires Valid()
      modifies this`data, this`len, data
      ensures Valid() && (data == old(data) || fresh(data))
      ensures Events() == After(op, old(Events()), isStreaming)
      ensures Hold(cells, if op.Pop? then [Top(old(Events()))] else [])
      ensures forall k :: 0 <= k < |cells| && cells[k] != null ==> fresh(cells[k])
    {
      match op
      case Add(event) =>
        AddEvent(event);
        cells := [];
      case Pop =>
        var cell := PopEvent();
        cells := [cell];
    }

    /**
     Any sequence of adds and pops behaves like the abstract stack, and at the end of the sequence every popped
     copy still holds what was popped, although its slot may since have been written by a later add.
     */
    method RunOps(ops: seq<Op>) returns (cells: seq<EventCell?>)
      requires Valid()
      modifies this`data, this`len, data
      ensures Valid() && (data == old(data) || fresh(data))
      ensures Events() == Final(ops, old(Events()), isStreaming)
      ensures Hold(cells, Popped(ops, old(Events()), isStreaming))
    {
      cells := [];
      ghost var all := Popped(ops, Events(), isStreaming);
      ghost var popped: seq<Option<Event>> := [];
      for i := 0 to |ops|
        invariant Valid() && (data == old(data) || fresh(data))
        invariant Final(ops[i..], Events(), isStreaming) == Final(ops, old(Events()), isStreaming)
        invariant popped + Popped(ops[i..], Events(), isStreaming) == all
        invariant Hold(cells, popped) && forall k :: 0 <= k < |cells| && cells[k] != null ==> fresh(cells[k])
      {
        ghost var before := Events();
        ghost var result := if ops[i].Pop? then [Top(before)] else [];
        assert ops[i..][0] == ops[i] && ops[i..][1..] == ops[i + 1..];
        Regroup(popped, result, Popped(ops[i + 1..], After(ops[i], before, isStreaming), isStreaming));
        var more := RunOp(ops[i]);
        cells, popped := cells + more, popped + result;
      }
    }

    method CreateRule(rule: Option<Rule>) returns (err: Option<Error>)
      requires Valid()
      modifies this`rules
      ensures Valid() && err == Refusal(Request.CreateRule(rule), cfg)
      ensures rules == Apply(old(rules), Request.CreateRule(rule), cfg)
    {
      RequestKeepsInvariant(rules, Request.CreateRule(rule), cfg);
      if rule.None? {
        return Some(NilRule);
      }
      var r := rule.value;
      err := Validate(r);
      if err.Some? {
        return;
      }
      err := ValidateTracersAndActions(r, cfg.tracerList, cfg.actionList);
      if err.Some? {
        return;
      }
      if r.tracer !in rules {
        rules := rules[r.tracer := map[r.name := r]];
        return None;
      }
      rules := rules[r.tracer := rules[r.tracer][r.name := r]];
      return None;
    }

    /** Without a tracer the nested maps are visited in any order and shrink while they are visited. */
    method RemoveRule(target: Option<(string, string)>) returns (err: Option<Error>)
      requires Valid()
      modifies this`rules
      ensures Valid() && err == Refusal(Request.RemoveRule(target), cfg)
      ensures rules == Apply(old(rules), Request.RemoveRule(target), cfg)
    {
      RequestKeepsInvariant(rules, Request.RemoveRule(target), cfg);
      if target.None? || |target.value.0| < 1 {
        return Some(EmptyName);
      }
      var (ruleName, tracer) := target.value;
      if |tracer| > 0 {
        if tracer in rules {
          rules := rules[tracer := rules[tracer] - {ruleName}];
        }
        return None;
      }
      var tracers := rules.Keys;
      while tracers != {}
        invariant tracers <= rules.Keys == old(rules).Keys
        invariant forall t :: t in rules ==>
                    rules[t] == if t in tracers then old(rules)[t] else old(rules)[t] - {ruleName}
        decreases tracers
      {
        var p :| p in tracers;
        tracers := tracers - {p};
        var names := rules[p].Keys;
        while names != {}
          invariant p in old(rules) && names <= old(rules)[p].Keys
          invariant rules.Keys == old(rules).Keys
          invariant forall t :: t in rules && t != p ==>
                      rules[t] == if t in tracers then old(rules)[t] else old(rules)[t] - {ruleName}
          invariant rules[p] == if ruleName in names then old(rules)[p] else old(rules)[p] - {ruleName}
          decreases names
        {
          var name :| name in names;
          names := names - {name};
          if name == ruleName {
            rules := rules[p := rules[p] - {ruleName}];
            continue;
          }
        }
      }
      assert rules == DeleteEverywhere(old(rules), ruleName);
      return None;
    }

    /** The actions of a matching rule, in the order the rule lists them; an unknown one is only logged. */
    method PerformActions(rule: Rule, event: Event) returns (log: seq<Effect>)
      ensures log == ActionEffects(rule.actions, rule.name, event, actions)
    {
      log := [];
      var i := 0;
      while i < |rule.actions|
        invariant 0 <= i <= |rule.actions|
        invariant log + ActionEffects(rule.actions[i..], rule.name, event, actions) ==
                  ActionEffects(rule.actions, rule.name, event, actions)
      {
        var a := rule.actions[i];
        assert rule.actions[i..][0] == a && rule.actions[i..][1..] == rule.actions[i + 1..];
        ghost var next := if a in actions then Do(a, event) else NoSuchAction(a, rule.name);
        ghost var later := ActionEffects(rule.actions[i + 1..], rule.name, event, actions);
        assert log + ([next] + later) == (log + [next]) + later;
        i := i + 1;
        if a !in actions {
          log := log + [NoSuchAction(a, rule.name)];
          continue;
        }
        log := log + [Do(a, event)];
      }
    }

    /** The body of the loop over the rules, for one rule. */
    method HandleRule(rule: Rule, event: Event) returns (log: seq<Effect>)
      requires Valid() && event.data.Some?
      modifies this`data, this`len, data
      ensures Valid() && (data == old(data) || fresh(data))
      ensures log == RuleEffects(rule, event, actions)
      ensures Events() == old(Events()) + Copies(event, if isStreaming then Enqueues(log) else 0)
    {
      var matches := Match(rule, event.data.value, event.containerRuntime);
      if !matches {
        return [];
      }
      AddEvent(event);
      var done := PerformActions(rule, event);
      log := [Enqueue(event)] + done;
      ActionsNeverEnqueue(rule.actions, rule.name, event, actions);
      assert log[1..] == done;
    }

    /**
     One round of a tracer's dispatch goroutine, the rule map being visited in any order. `sys` and `cgroup` are
     what the proc package reads if it is asked. The log lists the queued events and the actions performed.
     */
    method HandleEvent(tracer: string, watched: Option<Event>, sys: Runtime.System, cgroup: string)
      returns (log: seq<Effect>)
      requires Valid()
      modifies this`data, this`len, data
      ensures Valid() && (data == old(data) || fresh(data))
      ensures watched == None || watched.value.data == None ==> log == [] && Events() == old(Events())
      ensures watched.Some? ==>
                var event := CompleteFrom(watched.value, tracer, sys, cgroup);
                && IsDispatch(log, Inner(rules, tracer), event, actions)
                && Events() == old(Events()) + Copies(event, if isStreaming then Enqueues(log) else 0)
      ensures forall e :: e in log ==> !e.NoSuchAction?
    {
      if watched.None? || watched.value.data.None? {
        return [];
      }
      var event := watched.value;
      if |event.containerRuntime| < 1 {
        event := event.(containerRuntime := Runtime.GetContainerRuntime(sys));
      }
      if |event.containerId| < 1 {
        event := event.(containerId := ContainerId.GetContainerId(TrimSpace(cgroup)));
      }
      event := event.(tracer := tracer);
      var progRules := Inner(rules, tracer);
      if |progRules| < 1 {
        log := HandleUnruled(event);
      } else {
        log := HandleRules(progRules, event);
      }
      assert IsDispatch(log, progRules, event, actions);
      NoActionIsMissing(log, rules, cfg, tracer, event, actions);
    }

    /** A tracer without rules: the event goes to stdout and into the buffer. */
    method HandleUnruled(event: Event) returns (log: seq<Effect>)
      requires Valid() && event.data.Some?
      modifies this`data, this`len, data
      ensures Valid() && (data == old(data) || fresh(data))
      ensures log == [Do("stdout", event), Enqueue(event)]
      ensures Events() == old(Events()) + Copies(event, if isStreaming then Enqueues(log) else 0)
    {
      log := [Do(STDOUT, event)];
      AddEvent(event);
      log := log + [Enqueue(event)];
      DispatchEnqueues(log, map[], event, actions);
    }

    method HandleRules(progRules: map<string, Rule>, event: Event) returns (log: seq<Effect>)
      requires Valid() && event.data.Some?
      modifies this`data, this`len, data
      ensures Valid() && (data == old(data) || fresh(data))
      ensures exists order :: Enumerates(order, progRules.Keys) && log == InOrder(order, Blocks(progRules, event, actions))
      ensures Events() == old(Events()) + Copies(event, if isStreaming then Enqueues(log) else 0)
    {
      log := [];
      ghost var blocks := Blocks(progRules, event, actions);
      ghost var order: seq<string> := [];
      var names := progRules.Keys;
      while names != {}
        invariant Valid() && (data == old(data) || fresh(data))
        invariant names <= progRules.Keys && Enumerates(order, progRules.Keys - names)
        invariant log == InOrder(order, blocks)
        invariant Events() == old(Events()) + Copies(event, if isStreaming then Enqueues(log) else 0)
        decreases names
      {
        var name :| name in names;
        names := names - {name};
        var block := HandleRule(progRules[name], event);
        assert block == blocks[name];
        InOrderSnoc(order, name, blocks);
        EnqueuesConcat(log, block);
        order, log := order + [name], log + block;
      }
      assert progRules.Keys - names == progRules.Keys;
    }
  }

  lemma Regroup<T>(a: seq<T>, b: seq<T>, c: seq<T>)
    ensures a + (b + c) == (a + b) + c
  {}

  function Copies(event: Event, n: nat): (r: seq<Event>)
    ensures |r| == n && forall i :: 0 <= i < n ==> r[i] == event
  {
    seq(n, i => event)
  }
}
