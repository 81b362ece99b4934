/** rules/rules.go: validating, parsing and matching rules. */
module Rules {
  import opened GoText
  import Runtime

  /** The record shapes of the gRPC types; a filter is its list of values. */
  datatype Rule = Rule(
    name: string, tracer: string, filterEvents: map<string, seq<string>>,
    containerRuntimes: seq<string>, actions: seq<string>)

  datatype Error =
    | NilRule | EmptyName | EmptyTracer | BadRuntime(runtime: string)
    | BadTracer(tracer: string) | BadAction(action: string)
    | Unreadable | Undecodable

  // ---------- validation ----------

  function Validate(rule: Rule): Option<Error> {
    if |rule.name| < 1 then Some(EmptyName)
    else if |rule.tracer| < 1 then Some(EmptyTracer)
    else FirstBadRuntime(rule.containerRuntimes)
  }

  function FirstBadRuntime(runtimes: seq<string>): Option<Error> {
    if runtimes == [] then None
    else if !Runtime.IsValidContainerRuntime(runtimes[0]) then Some(BadRuntime(runtimes[0]))
    else FirstBadRuntime(runtimes[1..])
  }

  function ValidateTracersAndActions(rule: Rule, tracers: seq<string>, actions: seq<string>): Option<Error> {
    if rule.tracer !in tracers then Some(BadTracer(rule.tracer)) else FirstBadAction(rule.actions, actions)
  }

  function FirstBadAction(mine: seq<string>, actions: seq<string>): Option<Error> {
    if mine == [] then None
    else if mine[0] !in actions then Some(BadAction(mine[0]))
    else FirstBadAction(mine[1..], actions)
  }

  predicate IsWellFormed(rule: Rule) {
    rule.name != "" && rule.tracer != "" && forall r :: r in rule.containerRuntimes ==> r in Runtime.RUNTIMES
  }

  predicate NamesRegistered(rule: Rule, tracers: seq<string>, actions: seq<string>) {
    rule.tracer in tracers && forall a :: a in rule.actions ==> a in actions
  }

  lemma {:induction false} FirstBadRuntimeMeaning(runtimes: seq<string>)
    ensures FirstBadRuntime(runtimes) == None <==> forall r :: r in runtimes ==> r in Runtime.RUNTIMES
  {
    if runtimes != [] {
      FirstBadRuntimeMeaning(runtimes[1..]);
      assert forall r :: r in runtimes <==> r == runtimes[0] || r in runtimes[1..];
    }
  }

  lemma {:induction false} FirstBadActionMeaning(mine: seq<string>, actions: seq<string>)
    ensures FirstBadAction(mine, actions) == None <==> forall a :: a in mine ==> a in actions
  {
    if mine != [] {
      FirstBadActionMeaning(mine[1..], actions);
      assert forall a :: a in mine <==> a == mine[0] || a in mine[1..];
    }
  }

  /** A rule passes both checks exactly when it is well formed and names only registered tracers and actions. */
  lemma ValidationMeaning(rule: Rule, tracers: seq<string>, actions: seq<string>)
    ensures Validate(rule) == None <==> IsWellFormed(rule)
    ensures ValidateTracersAndActions(rule, tracers, actions) == None <==> NamesRegistered(rule, tracers, actions)
  {
    FirstBadRuntimeMeaning(rule.containerRuntimes);
    FirstBadActionMeaning(rule.actions, actions);
  }

  // ---------- parsing ----------

  /** What reading and decoding one file can give; `base` is the last element of its path. */
  datatype File = NotReadable | NotDecodable | Decoded(base: string, rule: Rule)

  datatype Parsed = Good(rule: Rule) | Bad(error: Error)

  const SUFFIX := ".toml"

  /** strings.TrimSuffix(base, ".toml") */
  function Stem(base: string): string {
    if |base| >= |SUFFIX| && base[|base| - |SUFFIX|..] == SUFFIX then base[..|base| - |SUFFIX|] else base
  }

  function Parse(file: File): Parsed {
    match file
    case NotReadable => Bad(Unreadable)
    case NotDecodable => Bad(Undecodable)
    case Decoded(base, rule) =>
      var named := if |rule.name| < 1 then rule.(name := Stem(base)) else rule;
      match Validate(named)
      case Some(e) => Bad(e)
      case None => Good(named)
  }

  /** The decoded rule without a name gets the file's. */
  lemma ParseMeaning(base: string, rule: Rule)
    ensures var ok := rule.tracer != "" && forall r :: r in rule.containerRuntimes ==> r in Runtime.RUNTIMES;
            && (rule.name != "" ==>
                  if ok then Parse(Decoded(base, rule)) == Good(rule) else Parse(Decoded(base, rule)).Bad?)
            && (rule.name == "" && base != "" ==>
                  if ok then Parse(Decoded(base + ".toml", rule)) == Good(rule.(name := base))
                  else Parse(Decoded(base + ".toml", rule)).Bad?)
            && (rule.name == "" && base != "" && !EndsInToml(base) ==>
                  if ok then Parse(Decoded(base, rule)) == Good(rule.(name := base)) else Parse(Decoded(base, rule)).Bad?)
    ensures rule.name == "" ==> Parse(Decoded("", rule)).Bad? && Parse(Decoded(".toml", rule)).Bad?
    ensures Parse(NotReadable).Bad? && Parse(NotDecodable).Bad?
  {
    FirstBadRuntimeMeaning(rule.containerRuntimes);
    assert (base + ".toml")[|base|..] == ".toml" && (base + ".toml")[..|base|] == base;
    if |base| >= 5 && base[|base| - 5..] == ".toml" {
      assert base == base[..|base| - 5] + ".toml";
      assert EndsInToml(base);
    }
  }

  ghost predicate EndsInToml(base: string) {
    exists stem :: base == stem + ".toml"
  }

  // ---------- matching ----------

  predicate RuntimeMatches(rule: Rule, pidRuntime: string) {
    rule.containerRuntimes == [] || pidRuntime in rule.containerRuntimes
  }

  /** Some filter value for this key occurs in the event's data under it. */
  ghost predicate KeyMatches(rule: Rule, data: map<string, string>, key: string) {
    && key in data && key in rule.filterEvents
    && exists find :: find in rule.filterEvents[key] && Contains(data[key], find)
  }

  ghost predicate FilterMatches(rule: Rule, data: map<string, string>) {
    rule.filterEvents == map[] || exists key :: KeyMatches(rule, data, key)
  }

  ghost predicate Matches(rule: Rule, data: map<string, string>, pidRuntime: string) {
    RuntimeMatches(rule, pidRuntime) && FilterMatches(rule, data)
  }

  /** The keys of the event's data are visited in any order. */
  method Match(rule: Rule, data: map<string, string>, pidRuntime: string) returns (matched: bool)
    ensures matched <==> Matches(rule, data, pidRuntime)
    ensures matched <==>
              && (rule.containerRuntimes == [] || pidRuntime in rule.containerRuntimes)
              && (rule.filterEvents == map[] ||
                  exists key :: key in data && key in rule.filterEvents &&
                    exists find :: find in rule.filterEvents[key] && Contains(data[key], find))
  {
    assert forall key :: KeyMatches(rule, data, key) <==>
      key in data && key in rule.filterEvents && exists find :: find in rule.filterEvents[key] && Contains(data[key], find);
    if |rule.containerRuntimes| < 1 && |rule.filterEvents| < 1 {
      return true;
    }
    var matchedRuntime := false;
    var i := 0;
    while i < |rule.containerRuntimes|
      invariant 0 <= i <= |rule.containerRuntimes|
      invariant !matchedRuntime
      invariant pidRuntime !in rule.containerRuntimes[..i]
    {
      if pidRuntime == rule.containerRuntimes[i] {
        if |rule.filterEvents| < 1 {
          return true;
        }
        matchedRuntime := true;
        break;
      }
      i := i + 1;
    }
    if |rule.containerRuntimes| > 0 && !matchedRuntime {
      assert rule.containerRuntimes[..i] == rule.containerRuntimes;
      return false;
    }
    if |rule.filterEvents| < 1 {
      return true;
    }
    var keys := data.Keys;
    while keys != {}
      invariant keys <= data.Keys
      invariant forall key :: key in data && key !in keys ==> !KeyMatches(rule, data, key)
      decreases keys
    {
      var key :| key in keys;
      keys := keys - {key};
      if key !in rule.filterEvents {
        continue;
      }
      var values := rule.filterEvents[key];
      var j := 0;
      while j < |values|
        invariant 0 <= j <= |values|
        invariant forall k :: 0 <= k < j ==> !Contains(data[key], values[k])
      {
        if Contains(data[key], values[j]) {
          assert KeyMatches(rule, data, key);
          return true;
        }
        j := j + 1;
      }
    }
    return false;
  }

  /** Each key keeps its values in the second rule and both have some filter, or neither has any. */
  ghost predicate FiltersGrow(rule: Rule, wider: Rule) {
    && (rule.filterEvents == map[] <==> wider.filterEvents == map[])
    && forall key :: key in rule.filterEvents ==>
         key in wider.filterEvents && forall find :: find in rule.filterEvents[key] ==> find in wider.filterEvents[key]
  }

  /** More values or more keys never lose a match, unless the rule had no filter at all. */
  lemma WideningKeepsMatches(rule: Rule, wider: Rule, data: map<string, string>, pidRuntime: string)
    requires FiltersGrow(rule, wider) && rule.containerRuntimes == wider.containerRuntimes
    requires Matches(rule, data, pidRuntime)
    ensures Matches(wider, data, pidRuntime)
  {
    if rule.filterEvents != map[] {
      var key :| KeyMatches(rule, data, key);
      var find :| find in rule.filterEvents[key] && Contains(data[key], find);
      assert KeyMatches(wider, data, key);
    }
  }

  /** The first filter of a rule loses exactly the events it does not let through itself. */
  lemma FirstFilterNarrows(rule: Rule, key: string, values: seq<string>, data: map<string, string>, pidRuntime: string)
    requires rule.filterEvents == map[] && Matches(rule, data, pidRuntime)
    ensures Matches(rule.(filterEvents := map[key := values]), data, pidRuntime) <==>
            key in data && exists find :: find in values && Contains(data[key], find)
  {
    var narrowed := rule.(filterEvents := map[key := values]);
    assert narrowed.filterEvents != map[] by {
      assert key in narrowed.filterEvents;
    }
    if key in data && exists find :: find in values && Contains(data[key], find) {
      assert KeyMatches(narrowed, data, key);
    }
  }

  /** A validated rule that lists runtimes never matches an event whose runtime was not found. */
  lemma NotFoundMatchesNoListedRuntime(rule: Rule, data: map<string, string>)
    requires Validate(rule) == None && rule.containerRuntimes != []
    ensures !Matches(rule, data, Runtime.NOT_FOUND)
  {
    FirstBadRuntimeMeaning(rule.containerRuntimes);
  }
}
