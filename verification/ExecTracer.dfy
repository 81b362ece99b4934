/**
 tracer/exec/exec.go: reassembling the argument list of each exec from fragments that arrive one per record,
 interleaved over all processes, and the kernel program that submits the fragments.
 */
module ExecTracer {
  import opened GoText
  import opened Rules
  import opened Dispatch
  import StatusIds

  const TRACER := "exec"

  const ARG: int := 0
  const RET: int := 1

  /** One decoded perf record. */
  datatype Record = Record(pid: nat, tgid: nat, uid: nat, comm: string, kind: int, argv: string, retval: int)

  type Lookup = StatusIds.Outcome

  /** One call of WatchEvent: what the channel delivers, and the answer to the lookup should it be made. */
  datatype Input = Undecodable | Received(rec: Record, lookup: Lookup)

  /** proc.GetUIDGID for the text of the status file; one that cannot be read counts as empty. */
  function LookupOf(status: string): Lookup {
    StatusIds.UidGidOf(TrimSpace(status))
  }

  function InputOf(delivered: Option<Record>, status: string): Input {
    match delivered
    case None => Input.Undecodable
    case Some(rec) => Received(rec, LookupOf(status))
  }

  /** What one call reports; an emitted event carries the argument list before it is joined. */
  datatype Out =
    | Nothing
    | DecodeError
    | LookupError(pid: nat)
    | CommPanic               // no NUL in the command name: the slice bound is -1
    | Emitted(rec: Record, gid: nat, args: seq<string>)

  type Pending = map<nat, seq<string>>

  function PendingOf(argv: Pending, pid: nat): seq<string> {
    if pid in argv then argv[pid] else []
  }

  /** The bytes before the first NUL, or all of them. */
  function Cut(s: string): string {
    if s == [] || s[0] == NUL then [] else [s[0]] + Cut(s[1..])
  }

  function Fragment(rec: Record): string {
    TrimSpace(Cut(rec.argv))
  }

  function Step(argv: Pending, input: Input): (Pending, Out) {
    match input
    case Undecodable => (argv, DecodeError)
    case Received(rec, lookup) =>
      if rec.kind == ARG then
        (if |Fragment(rec)| > 0 then argv[rec.pid := PendingOf(argv, rec.pid) + [Fragment(rec)]] else argv, Nothing)
      else if rec.kind != RET then (argv, Nothing)
      else if NUL !in rec.comm then (argv, CommPanic)
      else if lookup.Failed? then (argv, LookupError(rec.pid))
      else (argv - {rec.pid}, Emitted(rec, lookup.gid, PendingOf(argv, rec.pid)))
  }

  /** When each outcome occurs, and what every process has pending afterwards. */
  lemma StepMeaning(argv: Pending, input: Input, pid: nat)
    ensures var (argv', out) := Step(argv, input);
            if input.Undecodable? then out == DecodeError && argv' == argv
            else
              var rec := input.rec;
              && (out.Emitted? <==> rec.kind == 1 && NUL in rec.comm && input.lookup.Ids?)
              && (out.LookupError? <==> rec.kind == 1 && NUL in rec.comm && input.lookup.Failed?)
              && (out.CommPanic? <==> rec.kind == 1 && NUL !in rec.comm)
              && (out == Nothing <==> rec.kind != 1)
              && (out.Emitted? ==> out == Emitted(rec, input.lookup.gid, PendingOf(argv, rec.pid)))
              && PendingOf(argv', pid) ==
                 if pid == rec.pid && out.Emitted? then []
                 else if pid == rec.pid && rec.kind == 0 && Fragment(rec) != "" then PendingOf(argv, pid) + [Fragment(rec)]
                 else PendingOf(argv, pid)
  {}

  /** What the Go method hands back. */
  datatype Watched = NoEvent | WatchError | WatchPanic | Watched(event: Event)

  function Render(out: Out): Watched {
    match out
    case Nothing => NoEvent
    case DecodeError => WatchError
    case LookupError(_) => WatchError
    case CommPanic => WatchPanic
    case Emitted(rec, gid, args) =>
      Watched(Event(rec.pid, rec.tgid, rec.uid, gid, TrimSpace(Cut(rec.comm)), rec.retval,
                    Some(map["argv" := Join(args, " "), "type" := "1"]), "", "", ""))
  }

  /** The position of the first NUL, -1 if there is none. */
  method IndexNul(s: string) returns (index: int)
    ensures -1 <= index < |s|
    ensures index == -1 <==> NUL !in s
    ensures Cut(s) == if index == -1 then s else s[..index]
  {
    index := 0;
    while index < |s|
      invariant 0 <= index <= |s|
      invariant NUL !in s[..index]
      invariant Cut(s) == s[..index] + Cut(s[index..])
    {
      if s[index] == NUL {
        return;
      }
      assert s[index..][1..] == s[index + 1..] && s[..index] + [s[index]] == s[..index + 1];
      Regroup(s[..index], [s[index]], Cut(s[index + 1..]));
      index := index + 1;
    }
    return -1;
  }

  class Tracer {
    var argv: Pending

    constructor ()
      ensures argv == map[]
    {
      argv := map[];
    }

    /** `delivered` is None if the record cannot be decoded; `status` is read only if the lookup is made. */
    method WatchEvent(delivered: Option<Record>, status: string) returns (w: Watched)
      modifies this
      ensures argv == Step(old(argv), InputOf(delivered, status)).0
      ensures w == Render(Step(old(argv), InputOf(delivered, status)).1)
    {
      if delivered.None? {
        return WatchError;
      }
      var event := delivered.value;
      var index := IndexNul(event.argv);
      if index <= -1 {
        index := |event.argv|;
        assert event.argv[..index] == event.argv;
      }
      var arg := TrimSpace(event.argv[..index]);
      assert arg == Fragment(event);
      if event.kind == ARG {
        if |arg| > 0 {
          var pending := if event.pid in argv then argv[event.pid] else [];
          argv := argv[event.pid := pending + [arg]];
        }
        return NoEvent;
      }
      if event.kind != RET {
        return NoEvent;
      }
      var end := IndexNul(event.comm);
      if end < 0 {
        return WatchPanic;
      }
      var command := TrimSpace(event.comm[..end]);
      var ids := StatusIds.GetUidGid(TrimSpace(status));
      if ids.Failed? {
        return WatchError;
      }
      w := Emit(event, ids.gid, command);
    }

    /** The end of WatchEvent: the event with the pending arguments, which are deleted. */
    method Emit(event: Record, gid: nat, command: string) returns (w: Watched)
      requires command == TrimSpace(Cut(event.comm))
      modifies this
      ensures argv == old(argv) - {event.pid}
      ensures w == Render(Emitted(event, gid, PendingOf(old(argv), event.pid)))
    {
      var args := if event.pid in argv then argv[event.pid] else [];
      w := Watched(Event(event.pid, event.tgid, event.uid, gid, command, event.retval,
                         Some(map["argv" := Join(args, " "), "type" := "1"]), "", "", ""));
      argv := argv - {event.pid};
    }
  }

  // ---------- runs ----------

  function Final(argv: Pending, inputs: seq<Input>): Pending
    decreases |inputs|
  {
    if inputs == [] then argv else Final(Step(argv, inputs[0]).0, inputs[1..])
  }

  function Outputs(argv: Pending, inputs: seq<Input>): seq<Out>
    decreases |inputs|
  {
    if inputs == [] then [] else [Step(argv, inputs[0]).1] + Outputs(Step(argv, inputs[0]).0, inputs[1..])
  }

  predicate IsFrom(input: Input, pid: nat) {
    input.Received? && input.rec.pid == pid
  }

  /** The part of the stream that belongs to one process. */
  function From(inputs: seq<Input>, pid: nat): seq<Input> {
    if inputs == [] then []
    else (if IsFrom(inputs[0], pid) then [inputs[0]] else []) + From(inputs[1..], pid)
  }

  /** The outputs for one process while the whole stream is handled. */
  function OutputsFor(argv: Pending, inputs: seq<Input>, pid: nat): seq<Out>
    decreases |inputs|
  {
    if inputs == [] then []
    else (if IsFrom(inputs[0], pid) then [Step(argv, inputs[0]).1] else [])
         + OutputsFor(Step(argv, inputs[0]).0, inputs[1..], pid)
  }

  lemma OthersDoNotTouch(argv: Pending, input: Input, pid: nat)
    requires !IsFrom(input, pid)
    ensures PendingOf(Step(argv, input).0, pid) == PendingOf(argv, pid)
  {}

  lemma OwnStepDependsOnOwn(argv: Pending, argv': Pending, input: Input, pid: nat)
    requires IsFrom(input, pid) && PendingOf(argv, pid) == PendingOf(argv', pid)
    ensures Step(argv, input).1 == Step(argv', input).1
    ensures PendingOf(Step(argv, input).0, pid) == PendingOf(Step(argv', input).0, pid)
  {}

  /**
   For every interleaving, a process's outputs and its pending list are those of handling its own records alone,
   from any state with the same pending list for it.
   */
  lemma {:induction false} NonInterference(argv: Pending, alone: Pending, inputs: seq<Input>, pid: nat)
    requires PendingOf(argv, pid) == PendingOf(alone, pid)
    ensures OutputsFor(argv, inputs, pid) == Outputs(alone, From(inputs, pid))
    ensures PendingOf(Final(argv, inputs), pid) == PendingOf(Final(alone, From(inputs, pid)), pid)
    decreases |inputs|
  {
    if inputs != [] {
      var input, rest := inputs[0], inputs[1..];
      if IsFrom(input, pid) {
        OwnStepDependsOnOwn(argv, alone, input, pid);
        assert From(inputs, pid)[0] == input && From(inputs, pid)[1..] == From(rest, pid);
        NonInterference(Step(argv, input).0, Step(alone, input).0, rest, pid);
      } else {
        OthersDoNotTouch(argv, input, pid);
        assert From(inputs, pid) == From(rest, pid);
        NonInterference(Step(argv, input).0, alone, rest, pid);
      }
    }
  }

  // ---------- conservation ----------

  /** The non-blank trimmed argument fragments of a stream. */
  function Fragments(inputs: seq<Input>): seq<string> {
    if inputs == [] then []
    else
      var input := inputs[0];
      (if input.Received? && input.rec.kind == ARG && |Fragment(input.rec)| > 0 then [Fragment(input.rec)] else [])
      + Fragments(inputs[1..])
  }

  /** The emitted argument lists, one after the other. */
  function EmittedArgs(outs: seq<Out>): seq<string> {
    if outs == [] then [] else (if outs[0].Emitted? then outs[0].args else []) + EmittedArgs(outs[1..])
  }

  /**
   Per process, what was pending plus every fragment received is what was emitted followed by what is pending
   now: nothing is lost, duplicated or reordered, whether lookups fail or not.
   */
  lemma {:induction false} Conservation(argv: Pending, inputs: seq<Input>, pid: nat)
    ensures PendingOf(argv, pid) + Fragments(From(inputs, pid)) ==
            EmittedArgs(OutputsFor(argv, inputs, pid)) + PendingOf(Final(argv, inputs), pid)
    decreases |inputs|
  {
    if inputs == [] {
      assert PendingOf(argv, pid) + [] == [] + PendingOf(argv, pid);
    } else {
      var input, rest := inputs[0], inputs[1..];
      var (argv', out) := Step(argv, input);
      Conservation(argv', rest, pid);
      if IsFrom(input, pid) {
        var own := From(inputs, pid);
        assert own[0] == input && own[1..] == From(rest, pid);
        var outs := OutputsFor(argv, inputs, pid);
        assert outs[0] == out && outs[1..] == OutputsFor(argv', rest, pid);
        OwnStepConserves(argv, input, pid, Fragments(From(rest, pid)), EmittedArgs(outs[1..]),
                         PendingOf(Final(argv, inputs), pid));
      } else {
        OthersDoNotTouch(argv, input, pid);
        assert From(inputs, pid) == From(rest, pid);
        assert OutputsFor(argv, inputs, pid) == OutputsFor(argv', rest, pid);
      }
    }
  }

  lemma Regroup<T>(a: seq<T>, b: seq<T>, c: seq<T>)
    ensures a + (b + c) == (a + b) + c
  {}

  lemma OwnStepConserves(
    argv: Pending, input: Input, pid: nat, later: seq<string>, emitted: seq<string>, left: seq<string>)
    requires IsFrom(input, pid)
    requires var (argv', out) := Step(argv, input); PendingOf(argv', pid) + later == emitted + left
    ensures var (argv', out) := Step(argv, input);
            PendingOf(argv, pid)
            + ((if input.rec.kind == ARG && |Fragment(input.rec)| > 0 then [Fragment(input.rec)] else []) + later) ==
            ((if out.Emitted? then out.args else []) + emitted) + left
  {
    var own := PendingOf(argv, pid);
    assert [] + later == later && [] + emitted == emitted;
    if input.rec.kind == ARG && |Fragment(input.rec)| > 0 {
      Regroup(own, [Fragment(input.rec)], later);
    } else if Step(argv, input).1.Emitted? {
      assert PendingOf(argv - {pid}, pid) == [];
      Regroup(own, emitted, left);
    }
  }

  /** Splitting a joined list gives it back exactly if it is not empty and no part contains a space. */
  lemma SplitJoinExactly(parts: seq<string>)
    ensures Split(Join(parts, " "), ' ') == parts <==> parts != [] && forall i :: 0 <= i < |parts| ==> ' ' !in parts[i]
  {
    SplitFree(Join(parts, " "), ' ');
    if parts != [] && forall i :: 0 <= i < |parts| ==> ' ' !in parts[i] {
      SplitJoin(parts, ' ');
    }
  }

  /** So the event's data gives the arguments back exactly if there is one and none contains a space. */
  lemma EventSplitsBack(argv: Pending, input: Input)
    requires Step(argv, input).1.Emitted?
    ensures var w, args := Render(Step(argv, input).1), PendingOf(argv, input.rec.pid);
            && w.Watched? && w.event.pid == input.rec.pid
            && w.event.data.Some? && w.event.data.value.Keys == {"argv", "type"}
            && (Split(w.event.data.value["argv"], ' ') == args <==>
                  args != [] && forall i :: 0 <= i < |args| ==> ' ' !in args[i])
  {
    SplitJoinExactly(PendingOf(argv, input.rec.pid));
  }

  /** Some value the rule lists for this key occurs in the text. */
  ghost predicate HasValueIn(rule: Rule, key: string, text: string) {
    key in rule.filterEvents && exists find :: find in rule.filterEvents[key] && Contains(text, find)
  }

  lemma FilterOnTwoKeys(rule: Rule, data: map<string, string>, a: string, b: string)
    requires rule.filterEvents != map[] && data.Keys == {a, b}
    ensures FilterMatches(rule, data) <==> HasValueIn(rule, a, data[a]) || HasValueIn(rule, b, data[b])
  {
    assert KeyMatches(rule, data, a) <==> HasValueIn(rule, a, data[a]);
    assert KeyMatches(rule, data, b) <==> HasValueIn(rule, b, data[b]);
    assert forall key :: KeyMatches(rule, data, key) ==> key == a || key == b;
  }

  /**
   A rule with filters sees only the argument list and the type of an exec event: one without values for either of
   them, such as the documented filter on "command", selects no exec event at all.
   */
  lemma FiltersSeeArgvAndType(rule: Rule, rec: Record, gid: nat, args: seq<string>, runtime: string, id: string)
    requires rule.filterEvents != map[]
    ensures var event := Complete(Render(Emitted(rec, gid, args)).event, TRACER, runtime, id);
            && event.data.Some?
            && (Selects(rule, event) <==>
                  && RuntimeMatches(rule, event.containerRuntime)
                  && (HasValueIn(rule, "argv", Join(args, " ")) || HasValueIn(rule, "type", "1")))
            && (rule.filterEvents.Keys !! {"argv", "type"} ==> !Selects(rule, event))
  {
    var data := map["argv" := Join(args, " "), "type" := "1"];
    assert Render(Emitted(rec, gid, args)).event.data == Some(data);
    FilterOnTwoKeys(rule, data, "argv", "type");
  }
}
