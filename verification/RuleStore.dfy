/** The nested rule map: loading it from files, updating it by requests, and the flat map it stands for. */
module RuleStore {
  import opened GoText
  import opened Rules

  /** Rules by name, by tracer. */
  type Store = map<string, map<string, Rule>>

  /** The rules of one tracer; indexing an absent tracer gives Go's empty nil map. */
  function Inner(store: Store, tracer: string): map<string, Rule> {
    if tracer in store then store[tracer] else map[]
  }

  /** What the nested map stands for: one rule per tracer and name. */
  ghost function Flat(store: Store): map<(string, string), Rule> {
    map t, n | t in store && n in store[t] :: (t, n) := store[t][n]
  }

  function Find(store: Store, key: (string, string)): Option<Rule> {
    if key.0 in store && key.1 in store[key.0] then Some(store[key.0][key.1]) else None
  }

  lemma FlatMeaning(store: Store, key: (string, string))
    ensures Find(store, key) == if key in Flat(store) then Some(Flat(store)[key]) else None
  {
    assert key == (key.0, key.1);
  }

  // ---------- updates ----------

  function Put(store: Store, rule: Rule): Store {
    store[rule.tracer := Inner(store, rule.tracer)[rule.name := rule]]
  }

  /** delete(rules[tracer], name) */
  function Delete(store: Store, tracer: string, name: string): Store {
    if tracer in store then store[tracer := store[tracer] - {name}] else store
  }

  function DeleteEverywhere(store: Store, name: string): Store {
    map t | t in store :: store[t] - {name}
  }

  ghost function Lookup(flat: map<(string, string), Rule>, key: (string, string)): Option<Rule> {
    if key in flat then Some(flat[key]) else None
  }

  /** A flat map is determined by its lookups. */
  lemma SameLookups(store: Store, flat: map<(string, string), Rule>)
    requires forall key :: Find(store, key) == Lookup(flat, key)
    ensures Flat(store) == flat
  {
    forall key ensures key in Flat(store) <==> key in flat {
      FlatMeaning(store, key);
      assert Find(store, key) == Lookup(flat, key);
    }
    forall key | key in flat ensures Flat(store)[key] == flat[key] {
      FlatMeaning(store, key);
      assert Find(store, key) == Lookup(flat, key);
    }
  }

  lemma FlatOfPut(store: Store, rule: Rule)
    ensures Flat(Put(store, rule)) == Flat(store)[(rule.tracer, rule.name) := rule]
  {
    var flat := Flat(store)[(rule.tracer, rule.name) := rule];
    forall key ensures Find(Put(store, rule), key) == Lookup(flat, key) {
      FlatMeaning(store, key);
      FindAfterPut(store, rule, key);
    }
    SameLookups(Put(store, rule), flat);
  }

  /** Everything but the rules of that name, for the given tracer or, if it is empty, for all of them. */
  ghost function FlatRemove(flat: map<(string, string), Rule>, name: string, tracer: string)
    : map<(string, string), Rule>
  {
    map k | k in flat && !(k.1 == name && (tracer == "" || k.0 == tracer)) :: flat[k]
  }

  lemma FindAfterDelete(store: Store, tracer: string, name: string, key: (string, string))
    ensures Find(Delete(store, tracer, name), key) == if key == (tracer, name) then None else Find(store, key)
    ensures Find(DeleteEverywhere(store, name), key) == if key.1 == name then None else Find(store, key)
  {
    assert key == (key.0, key.1);
  }

  lemma FlatOfDelete(store: Store, tracer: string, name: string)
    requires tracer != ""
    ensures Flat(Delete(store, tracer, name)) == FlatRemove(Flat(store), name, tracer)
  {
    var flat := FlatRemove(Flat(store), name, tracer);
    forall key ensures Find(Delete(store, tracer, name), key) == Lookup(flat, key) {
      FlatMeaning(store, key);
      FindAfterDelete(store, tracer, name, key);
      assert key == (key.0, key.1);
    }
    SameLookups(Delete(store, tracer, name), flat);
  }

  lemma FlatOfDeleteEverywhere(store: Store, name: string)
    ensures Flat(DeleteEverywhere(store, name)) == FlatRemove(Flat(store), name, "")
  {
    var flat := FlatRemove(Flat(store), name, "");
    forall key ensures Find(DeleteEverywhere(store, name), key) == Lookup(flat, key) {
      FlatMeaning(store, key);
      FindAfterDelete(store, "", name, key);
    }
    SameLookups(DeleteEverywhere(store, name), flat);
  }

  /** Two stores give every tracer the same rules exactly when they stand for the same flat map. */
  lemma FlatIsWhatDispatchSees(a: Store, b: Store)
    ensures Flat(a) == Flat(b) <==> forall t :: Inner(a, t) == Inner(b, t)
  {
    if Flat(a) == Flat(b) {
      forall t ensures Inner(a, t) == Inner(b, t) {
        forall n ensures Find(a, (t, n)) == Find(b, (t, n)) {
          FlatMeaning(a, (t, n));
          FlatMeaning(b, (t, n));
        }
        SameInner(a, b, t);
      }
    }
    if forall t :: Inner(a, t) == Inner(b, t) {
      forall key ensures Find(a, key) == Lookup(Flat(b), key) {
        FlatMeaning(b, key);
        assert Inner(a, key.0) == Inner(b, key.0);
      }
      SameLookups(a, Flat(b));
    }
  }

  lemma SameInner(a: Store, b: Store, t: string)
    requires forall n :: Find(a, (t, n)) == Find(b, (t, n))
    ensures Inner(a, t) == Inner(b, t)
  {
    forall n ensures n in Inner(a, t) <==> n in Inner(b, t) {
      assert Find(a, (t, n)) == Find(b, (t, n));
    }
    forall n | n in Inner(a, t) ensures Inner(a, t)[n] == Inner(b, t)[n] {
      assert Find(a, (t, n)) == Find(b, (t, n));
    }
  }

  // ---------- loading the rule files ----------

  datatype Loaded = Rls(store: Store, names: seq<string>) | Failed(error: Error)

  /** The files in order, starting from what has been loaded so far. */
  function LoadFrom(files: seq<File>, store: Store, names: seq<string>): Loaded {
    if files == [] then Rls(store, names)
    else match Parse(files[0])
      case Bad(e) => Failed(e)
      case Good(rule) => LoadFrom(files[1..], Put(store, rule), names + [rule.name])
  }

  method ParseFiles(files: seq<File>) returns (r: Loaded)
    ensures r == LoadFrom(files, map[], [])
  {
    var rules: Store := map[];
    var names := [];
    for i := 0 to |files|
      invariant LoadFrom(files[i..], rules, names) == LoadFrom(files, map[], [])
    {
      assert files[i..][1..] == files[i + 1..];
      var parsed := Parse(files[i]);
      if parsed.Bad? {
        return Failed(parsed.error);
      }
      var rule := parsed.rule;
      names := names + [rule.name];
      if rule.tracer !in rules {
        rules := rules[rule.tracer := map[rule.name := rule]];
        continue;
      }
      rules := rules[rule.tracer := rules[rule.tracer][rule.name := rule]];
    }
    r := Rls(rules, names);
  }

  predicate AllParse(files: seq<File>) {
    forall i :: 0 <= i < |files| ==> Parse(files[i]).Good?
  }

  function KeyOf(rule: Rule): (string, string) {
    (rule.tracer, rule.name)
  }

  /** The rule of the last file with this key. */
  function LastRule(files: seq<File>, key: (string, string)): Option<Rule>
    requires AllParse(files)
  {
    if files == [] then None
    else
      var later := LastRule(files[1..], key);
      if later.Some? || KeyOf(Parse(files[0]).rule) != key then later else Some(Parse(files[0]).rule)
  }

  predicate DefinesLast(files: seq<File>, i: nat, key: (string, string), rule: Rule)
    requires AllParse(files)
  {
    && i < |files| && Parse(files[i]).rule == rule && KeyOf(rule) == key
    && forall j :: i < j < |files| ==> KeyOf(Parse(files[j]).rule) != key
  }

  lemma {:induction false} LastRuleMeaning(files: seq<File>, key: (string, string))
    requires AllParse(files)
    ensures LastRule(files, key).Some? ==> exists i: nat :: DefinesLast(files, i, key, LastRule(files, key).value)
    ensures LastRule(files, key) == None ==> forall i :: 0 <= i < |files| ==> KeyOf(Parse(files[i]).rule) != key
  {
    if files != [] {
      var rest := files[1..];
      LastRuleMeaning(rest, key);
      assert forall j :: 0 < j < |files| ==> files[j] == rest[j - 1];
      match LastRule(rest, key)
      case Some(rule) =>
        var i: nat :| DefinesLast(rest, i, key, rule);
        assert DefinesLast(files, i + 1, key, rule);
      case None =>
        if KeyOf(Parse(files[0]).rule) == key {
          assert LastRule(files, key) == Some(Parse(files[0]).rule);
          forall j | 0 < j < |files| ensures KeyOf(Parse(files[j]).rule) != key {
            assert files[j] == rest[j - 1];
          }
          assert DefinesLast(files, 0, key, Parse(files[0]).rule);
        } else {
          assert LastRule(files, key) == None;
          forall i | 0 <= i < |files| ensures KeyOf(Parse(files[i]).rule) != key {
            assert i > 0 ==> files[i] == rest[i - 1];
          }
        }
    }
  }

  function Names(files: seq<File>): seq<string>
    requires AllParse(files)
  {
    if files == [] then [] else [Parse(files[0]).rule.name] + Names(files[1..])
  }

  lemma {:induction false} NamesAt(files: seq<File>)
    requires AllParse(files)
    ensures |Names(files)| == |files| && forall i :: 0 <= i < |files| ==> Names(files)[i] == Parse(files[i]).rule.name
  {
    if files != [] {
      NamesAt(files[1..]);
      assert forall i :: 0 < i < |files| ==> files[i] == files[1..][i - 1];
    }
  }

  lemma AllParseCons(files: seq<File>)
    requires files != []
    ensures AllParse(files) <==> Parse(files[0]).Good? && AllParse(files[1..])
  {
    assert forall j :: 0 < j < |files| ==> files[j] == files[1..][j - 1];
  }

  lemma FindAfterPut(store: Store, rule: Rule, key: (string, string))
    ensures Find(Put(store, rule), key) == if KeyOf(rule) == key then Some(rule) else Find(store, key)
  {}

  /** Loading fails exactly if some file is bad; otherwise each key holds the rule of the last file that has it. */
  lemma {:induction false} LoadFromMeaning(files: seq<File>, store: Store, names: seq<string>, key: (string, string))
    ensures LoadFrom(files, store, names).Rls? <==> AllParse(files)
    ensures AllParse(files) ==>
              var loaded, last := LoadFrom(files, store, names), LastRule(files, key);
              && loaded.names == names + Names(files)
              && Find(loaded.store, key) == if last.Some? then last else Find(store, key)
  {
    if files != [] {
      AllParseCons(files);
      match Parse(files[0])
      case Bad(_) =>
      case Good(rule) =>
        LoadFromMeaning(files[1..], Put(store, rule), names + [rule.name], key);
        FindAfterPut(store, rule, key);
        if AllParse(files[1..]) {
          assert names + [rule.name] + Names(files[1..]) == names + ([rule.name] + Names(files[1..]));
        }
    }
  }
}
