/** The requests that change the rule store, the daemon's startup, and the invariant every run keeps. */
module Requests {
  import opened GoText
  import opened Rules
  import opened RuleStore

  datatype Request =
    | CreateRule(rule: Option<Rule>)
    | RemoveRule(target: Option<(string, string)>)  // name and tracer, or a nil request

  datatype Config = Config(tracerList: seq<string>, actionList: seq<string>)

  /** The error of a request, None if it is accepted. */
  function Refusal(request: Request, cfg: Config): Option<Error> {
    match request
    case CreateRule(None) => Some(NilRule)
    case CreateRule(Some(rule)) =>
      if Validate(rule).Some? then Validate(rule)
      else ValidateTracersAndActions(rule, cfg.tracerList, cfg.actionList)
    case RemoveRule(None) => Some(EmptyName)
    case RemoveRule(Some(target)) => if |target.0| < 1 then Some(EmptyName) else None
  }

  /** The store after a request; a refused request changes nothing. */
  function Apply(store: Store, request: Request, cfg: Config): Store {
    if Refusal(request, cfg).Some? then store
    else match request
      case CreateRule(Some(rule)) => Put(store, rule)
      case RemoveRule(Some(target)) =>
        if |target.1| > 0 then Delete(store, target.1, target.0) else DeleteEverywhere(store, target.0)
  }

  /** The flat map a request asks for. */
  ghost function FlatApply(flat: map<(string, string), Rule>, request: Request, cfg: Config): map<(string, string), Rule> {
    if Refusal(request, cfg).Some? then flat
    else match request
      case CreateRule(Some(rule)) => flat[KeyOf(rule) := rule]
      case RemoveRule(Some(target)) => FlatRemove(flat, target.0, target.1)
  }

  /** Every request does to the nested map what it should do to the flat one. */
  lemma ApplyRefines(store: Store, request: Request, cfg: Config)
    ensures Flat(Apply(store, request, cfg)) == FlatApply(Flat(store), request, cfg)
  {
    if Refusal(request, cfg) == None {
      match request
      case CreateRule(Some(rule)) => FlatOfPut(store, rule);
      case RemoveRule(Some(target)) =>
        if |target.1| > 0 {
          FlatOfDelete(store, target.1, target.0);
        } else {
          FlatOfDeleteEverywhere(store, target.0);
        }
    }
  }

  /** Which requests are accepted. */
  lemma RefusalMeaning(rule: Rule, name: string, tracer: string, cfg: Config)
    ensures Refusal(CreateRule(Some(rule)), cfg) == None <==>
            IsWellFormed(rule) && NamesRegistered(rule, cfg.tracerList, cfg.actionList)
    ensures Refusal(RemoveRule(Some((name, tracer))), cfg) == None <==> name != ""
    ensures Refusal(CreateRule(None), cfg).Some? && Refusal(RemoveRule(None), cfg).Some?
  {
    ValidationMeaning(rule, cfg.tracerList, cfg.actionList);
  }

  // ---------- the invariant ----------

  predicate RuleInvariant(rule: Rule, tracer: string, name: string, cfg: Config) {
    && rule.tracer == tracer && rule.name == name
    && IsWellFormed(rule) && NamesRegistered(rule, cfg.tracerList, cfg.actionList)
  }

  ghost predicate StoreInvariant(store: Store, cfg: Config) {
    forall t, n :: t in store && n in store[t] ==> RuleInvariant(store[t][n], t, n, cfg)
  }

  lemma RequestKeepsInvariant(store: Store, request: Request, cfg: Config)
    requires StoreInvariant(store, cfg)
    ensures StoreInvariant(Apply(store, request, cfg), cfg)
  {
    if request.CreateRule? && request.rule.Some? {
      ValidationMeaning(request.rule.value, cfg.tracerList, cfg.actionList);
    }
  }

  function ApplyAll(store: Store, requests: seq<Request>, cfg: Config): Store
    decreases |requests|
  {
    if requests == [] then store else ApplyAll(Apply(store, requests[0], cfg), requests[1..], cfg)
  }

  ghost function FlatApplyAll(flat: map<(string, string), Rule>, requests: seq<Request>, cfg: Config)
    : map<(string, string), Rule>
    decreases |requests|
  {
    if requests == [] then flat else FlatApplyAll(FlatApply(flat, requests[0], cfg), requests[1..], cfg)
  }

  /** Any sequence of requests keeps the invariant and acts on the nested map as it does on the flat one. */
  lemma {:induction false} RunKeepsInvariant(store: Store, requests: seq<Request>, cfg: Config)
    requires StoreInvariant(store, cfg)
    ensures StoreInvariant(ApplyAll(store, requests, cfg), cfg)
    ensures Flat(ApplyAll(store, requests, cfg)) == FlatApplyAll(Flat(store), requests, cfg)
    decreases |requests|
  {
    if requests != [] {
      RequestKeepsInvariant(store, requests[0], cfg);
      ApplyRefines(store, requests[0], cfg);
      RunKeepsInvariant(Apply(store, requests[0], cfg), requests[1..], cfg);
    }
  }

  lemma ApplyTwo(store: Store, first: Request, second: Request, cfg: Config)
    ensures ApplyAll(store, [first, second], cfg) == Apply(Apply(store, first, cfg), second, cfg)
  {
    var once := Apply(store, first, cfg);
    var twice := Apply(once, second, cfg);
    assert [first, second][1..] == [second] && [second][1..] == [];
    assert ApplyAll(once, [second], cfg) == ApplyAll(twice, [], cfg);
  }

  lemma PutThenDelete(flat: map<(string, string), Rule>, rule: Rule)
    requires KeyOf(rule) !in flat && rule.tracer != ""
    ensures FlatRemove(flat[KeyOf(rule) := rule], rule.name, rule.tracer) == flat
    ensures FlatRemove(flat, rule.name, rule.tracer) == flat
  {
    forall k | k in flat ensures !(k.1 == rule.name && k.0 == rule.tracer) {
      assert k == (k.0, k.1);
    }
  }

  lemma CreateThenRemoveFlat(store: Store, rule: Rule, cfg: Config)
    requires KeyOf(rule) !in Flat(store) && rule.tracer != ""
    ensures var once := Apply(store, CreateRule(Some(rule)), cfg);
            Flat(Apply(once, RemoveRule(Some((rule.name, rule.tracer))), cfg)) == Flat(store)
  {
    var create, remove := CreateRule(Some(rule)), RemoveRule(Some((rule.name, rule.tracer)));
    ApplyRefines(store, create, cfg);
    ApplyRefines(Apply(store, create, cfg), remove, cfg);
    PutThenDelete(Flat(store), rule);
    assert Refusal(create, cfg) == None ==> rule.name != "";
  }

  /**
   Creating a rule under an unused key, whether it is accepted or not, and removing it again with its tracer
   given leaves no trace any tracer could see.
   */
  lemma CreateThenRemove(store: Store, rule: Rule, cfg: Config, tracer: string)
    requires Find(store, KeyOf(rule)) == None && rule.tracer != ""
    ensures var requests := [CreateRule(Some(rule)), RemoveRule(Some((rule.name, rule.tracer)))];
            Inner(ApplyAll(store, requests, cfg), tracer) == Inner(store, tracer)
  {
    var create, remove := CreateRule(Some(rule)), RemoveRule(Some((rule.name, rule.tracer)));
    FlatMeaning(store, KeyOf(rule));
    ApplyTwo(store, create, remove, cfg);
    CreateThenRemoveFlat(store, rule, cfg);
    FlatIsWhatDispatchSees(ApplyAll(store, [create, remove], cfg), store);
  }

  lemma RemoveIgnoresPut(flat: map<(string, string), Rule>, rule: Rule)
    ensures FlatRemove(flat[KeyOf(rule) := rule], rule.name, "") == FlatRemove(flat, rule.name, "")
  {}

  /** Without the tracer the same pair also removes the rules of that name under every other tracer. */
  lemma CreateThenRemoveByName(store: Store, rule: Rule, cfg: Config)
    requires rule.name != ""
    ensures var requests := [CreateRule(Some(rule)), RemoveRule(Some((rule.name, "")))];
            Flat(ApplyAll(store, requests, cfg)) == FlatRemove(Flat(store), rule.name, "")
  {
    var create, remove := CreateRule(Some(rule)), RemoveRule(Some((rule.name, "")));
    var once := Apply(store, create, cfg);
    var flat := Flat(store);
    ApplyTwo(store, create, remove, cfg);
    ApplyRefines(once, remove, cfg);
    assert Refusal(remove, cfg) == None;
    if Refusal(create, cfg) == None {
      FlatOfPut(store, rule);
      RemoveIgnoresPut(flat, rule);
    }
  }

  // ---------- startup ----------

  datatype Started = Running(store: Store) | Aborted(error: Error)

  /** Every rule that survived loading names only registered tracers and actions. */
  ghost predicate AllRegistered(store: Store, cfg: Config) {
    forall t, n :: t in store && n in store[t] ==> NamesRegistered(store[t][n], cfg.tracerList, cfg.actionList)
  }

  /** No later file has the same tracer and name. */
  predicate IsLast(files: seq<File>, i: nat)
    requires i < |files| && AllParse(files)
  {
    forall j :: i < j < |files| ==> KeyOf(Parse(files[j]).rule) != KeyOf(Parse(files[i]).rule)
  }

  /** The rules that survive loading are those of the files that no later file overrides. */
  lemma LastIsFound(files: seq<File>, i: nat)
    requires i < |files| && AllParse(files) && IsLast(files, i)
    ensures LoadFrom(files, map[], []).Rls?
    ensures var rule := Parse(files[i]).rule; Find(LoadFrom(files, map[], []).store, KeyOf(rule)) == Some(rule)
  {
    var rule := Parse(files[i]).rule;
    LoadFromMeaning(files, map[], [], KeyOf(rule));
    LastRuleMeaning(files, KeyOf(rule));
    var k: nat :| DefinesLast(files, k, KeyOf(rule), LastRule(files, KeyOf(rule)).value);
    assert k == i;
  }

  lemma FoundIsLast(files: seq<File>, t: string, n: string) returns (i: nat)
    requires AllParse(files) && LoadFrom(files, map[], []).Rls?
    requires Find(LoadFrom(files, map[], []).store, (t, n)).Some?
    ensures i < |files| && IsLast(files, i)
    ensures Find(LoadFrom(files, map[], []).store, (t, n)) == Some(Parse(files[i]).rule)
  {
    LoadFromMeaning(files, map[], [], (t, n));
    LastRuleMeaning(files, (t, n));
    i :| DefinesLast(files, i, (t, n), LastRule(files, (t, n)).value);
  }

  lemma SurvivorsAreLast(files: seq<File>, cfg: Config)
    ensures var loaded := LoadFrom(files, map[], []);
            loaded.Rls? && AllRegistered(loaded.store, cfg) <==>
            AllParse(files) && forall i :: 0 <= i < |files| && IsLast(files, i) ==>
              NamesRegistered(Parse(files[i]).rule, cfg.tracerList, cfg.actionList)
  {
    var loaded := LoadFrom(files, map[], []);
    LoadFromMeaning(files, map[], [], ("", ""));
    if AllParse(files) {
      if AllRegistered(loaded.store, cfg) {
        forall i | 0 <= i < |files| && IsLast(files, i)
          ensures NamesRegistered(Parse(files[i]).rule, cfg.tracerList, cfg.actionList)
        {
          LastIsFound(files, i);
        }
      } else {
        var t, n :| t in loaded.store && n in loaded.store[t] &&
                    !NamesRegistered(loaded.store[t][n], cfg.tracerList, cfg.actionList);
        var i := FoundIsLast(files, t, n);
      }
    }
  }

  /** The part of the daemon's Run that builds the initial rules; both map loops run in any order. */
  method Start(files: seq<File>, cfg: Config) returns (r: Started)
    ensures var loaded := LoadFrom(files, map[], []);
            && (r.Running? <==> loaded.Rls? && AllRegistered(loaded.store, cfg))
            && (r.Running? ==> r.store == loaded.store && StoreInvariant(r.store, cfg))
    ensures r.Running? <==> AllParse(files) && forall i :: 0 <= i < |files| && IsLast(files, i) ==>
              NamesRegistered(Parse(files[i]).rule, cfg.tracerList, cfg.actionList)
  {
    SurvivorsAreLast(files, cfg);
    var loaded := ParseFiles(files);
    if loaded.Failed? {
      return Aborted(loaded.error);
    }
    var rls := loaded.store;
    var tracers := rls.Keys;
    while tracers != {}
      invariant tracers <= rls.Keys
      invariant forall t, n :: t in rls && t !in tracers && n in rls[t] ==>
                  NamesRegistered(rls[t][n], cfg.tracerList, cfg.actionList)
      decreases tracers
    {
      var t :| t in tracers;
      tracers := tracers - {t};
      var names := rls[t].Keys;
      while names != {}
        invariant names <= rls[t].Keys
        invariant forall n :: n in rls[t] && n !in names ==>
                    NamesRegistered(rls[t][n], cfg.tracerList, cfg.actionList)
        decreases names
      {
        var n :| n in names;
        names := names - {n};
        ValidationMeaning(rls[t][n], cfg.tracerList, cfg.actionList);
        var err := ValidateTracersAndActions(rls[t][n], cfg.tracerList, cfg.actionList);
        if err.Some? {
          return Aborted(err.value);
        }
      }
    }
    LoadedStoreIsInvariant(files, cfg);
    r := Running(rls);
  }

  lemma LoadedStoreIsInvariant(files: seq<File>, cfg: Config)
    requires LoadFrom(files, map[], []).Rls? && AllRegistered(LoadFrom(files, map[], []).store, cfg)
    ensures StoreInvariant(LoadFrom(files, map[], []).store, cfg)
  {
    LoadedRulesAreWellFormed(files, map[], []);
  }

  ghost predicate KeyedWell(store: Store) {
    forall t, n :: t in store && n in store[t] ==> IsWellFormed(store[t][n]) && KeyOf(store[t][n]) == (t, n)
  }

  /** Parsing validates each file, and each rule is stored under its own tracer and name. */
  lemma {:induction false} LoadedRulesAreWellFormed(files: seq<File>, store: Store, names: seq<string>)
    requires LoadFrom(files, store, names).Rls? && KeyedWell(store)
    ensures KeyedWell(LoadFrom(files, store, names).store)
  {
    if files != [] {
      var rule := Parse(files[0]).rule;
      ValidationMeaning(rule, [], []);
      LoadedRulesAreWellFormed(files[1..], Put(store, rule), names + [rule.name]);
    }
  }
}
