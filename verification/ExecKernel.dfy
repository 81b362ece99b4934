/** The kernel program embedded in tracer/exec/exec.go, and one exec from system call to event. */
module ExecKernel {
  import opened GoText
  import opened ExecTracer
  import StatusIds

  const ARGSIZE: nat := 128
  const MAXARG: nat := 20
  const ELLIPSIS := "..."

  /** A C string in memory: its text, and the bytes that happen to follow its NUL. */
  datatype CString = CString(text: string, beyond: string)

  /**
   One execve: the first 20 pointers found in memory from __argv on, None where one is null or cannot be read, and
   what the kernel answers when the probes ask it, at the entry and again at the return.
   */
  datatype Exec = Exec(
    pid: nat, tgid: nat, uid: nat, comm: string, filename: CString, slots: seq<Option<CString>>, ellipsis: CString,
    retTgid: nat, retUid: nat, retComm: string, retval: int, lookup: Lookup)

  predicate Readable(s: CString) {
    NUL !in s.text && |s.beyond| >= ARGSIZE
  }

  /** All that is asked of memory is that strings can be read; the kernel ends a command name with a NUL. */
  predicate ValidExec(e: Exec) {
    && Readable(e.filename) && |e.slots| == MAXARG
    && (forall p :: p in e.slots && p.Some? ==> Readable(p.value))
    && e.ellipsis.text == ELLIPSIS && Readable(e.ellipsis) && NUL in e.retComm
  }

  /** bpf_probe_read of a whole argument buffer: it does not stop at the NUL. */
  function ProbeRead(s: CString): string
    requires Readable(s)
  {
    (s.text + [NUL] + s.beyond)[..ARGSIZE]
  }

  function Zeros(n: nat): string {
    seq(n, i => NUL)
  }

  function ArgRecord(e: Exec, s: CString): Record
    requires Readable(s)
  {
    Record(e.pid, e.tgid, e.uid, e.comm, ARG, ProbeRead(s), 0)
  }

  function ReturnRecord(e: Exec): Record {
    Record(e.pid, e.retTgid, e.retUid, e.retComm, RET, Zeros(ARGSIZE), e.retval)
  }

  /** The strings from slot i on, up to the first null or to the last slot that is looked at. */
  function Strings(slots: seq<Option<CString>>, i: nat): (r: seq<CString>)
    requires i <= MAXARG == |slots|
    ensures |r| <= MAXARG - i && forall s :: s in r ==> Some(s) in slots
    decreases MAXARG - i
  {
    if i == MAXARG || slots[i].None? then [] else [slots[i].value] + Strings(slots, i + 1)
  }

  /** The arguments handed over; the file name stands for the first. */
  function Arguments(e: Exec): (r: seq<CString>)
    requires ValidExec(e)
    ensures forall s :: s in r ==> Readable(s)
  {
    Strings(e.slots, 1)
  }

  /** No null stopped the loop. */
  predicate SendsDots(e: Exec)
    requires ValidExec(e)
  {
    |Arguments(e)| == MAXARG - 1
  }

  function Submitted(e: Exec): (r: seq<CString>)
    requires ValidExec(e)
    ensures forall s :: s in r ==> Readable(s)
  {
    [e.filename] + Arguments(e) + (if SendsDots(e) then [e.ellipsis] else [])
  }

  function ArgRecords(e: Exec, strings: seq<CString>): (r: seq<Record>)
    requires forall s :: s in strings ==> Readable(s)
    ensures |r| == |strings| && forall i :: 0 <= i < |r| ==> r[i] == ArgRecord(e, strings[i])
  {
    seq(|strings|, i requires 0 <= i < |strings| => ArgRecord(e, strings[i]))
  }

  /** syscall__execve: one record on the stack, its argument buffer overwritten before each submit. */
  method SubmitExec(e: Exec) returns (events: seq<Record>)
    requires ValidExec(e)
    ensures events == ArgRecords(e, Submitted(e))
  {
    var data := Record(e.pid, e.tgid, e.uid, e.comm, ARG, Zeros(ARGSIZE), 0);
    data := data.(argv := ProbeRead(e.filename));
    events := [data];
    ghost var sent: seq<CString> := [];
    var i := 1;
    while i < MAXARG
      invariant 1 <= i <= MAXARG && |sent| == i - 1
      invariant forall s :: s in sent ==> Readable(s)
      invariant sent + Strings(e.slots, i) == Arguments(e)
      invariant data.(argv := []) == ArgRecord(e, e.filename).(argv := [])
      invariant events == ArgRecords(e, [e.filename] + sent)
    {
      if e.slots[i].None? {
        return;
      }
      data := data.(argv := ProbeRead(e.slots[i].value));
      events := events + [data];
      Regroup(sent, [e.slots[i].value], Strings(e.slots, i + 1));
      sent := sent + [e.slots[i].value];
      i := i + 1;
    }
    data := data.(argv := ProbeRead(e.ellipsis));
    events := events + [data];
  }

  /** do_ret_sys_execve: a fresh record, everything but the arguments asked for again. */
  method SubmitReturn(e: Exec) returns (event: Record)
    ensures event == ReturnRecord(e)
  {
    var data := Record(e.pid, 0, e.retUid, "", ARG, Zeros(ARGSIZE), 0);
    data := data.(tgid := e.retTgid);
    data := data.(comm := e.retComm);
    data := data.(kind := RET);
    data := data.(retval := e.retval);
    return data;
  }

  /** Everything the kernel submits for one exec. */
  function ExecRecords(e: Exec): seq<Record>
    requires ValidExec(e)
  {
    ArgRecords(e, Submitted(e)) + [ReturnRecord(e)]
  }

  /** The two probes of one exec, one after the other. */
  method ProbeExec(e: Exec) returns (events: seq<Record>)
    requires ValidExec(e)
    ensures events == ExecRecords(e)
  {
    events := SubmitExec(e);
    var last := SubmitReturn(e);
    events := events + [last];
  }

  // ---------- argument vectors ----------

  /** From slot i on, memory holds a pointer to each of these strings and a null after the last. */
  predicate HoldsFrom(slots: seq<Option<CString>>, i: nat, strings: seq<CString>) {
    && (forall k :: 0 <= k < |strings| && i + k < |slots| ==> slots[i + k] == Some(strings[k]))
    && (i + |strings| < |slots| ==> slots[i + |strings|] == None)
  }

  lemma {:induction false} StringsHeld(slots: seq<Option<CString>>, i: nat, strings: seq<CString>)
    requires i <= MAXARG == |slots| && HoldsFrom(slots, i, strings)
    ensures Strings(slots, i) == if |strings| <= MAXARG - i then strings else strings[..MAXARG - i]
    decreases MAXARG - i
  {
    if i < MAXARG && strings != [] {
      assert slots[i] == Some(strings[0]);
      StringsHeld(slots, i + 1, strings[1..]);
      assert strings == [strings[0]] + strings[1..];
    }
  }

  /**
   With a proper argument vector the arguments after the first are handed over in order. Dots are sent from 20
   arguments on, but an argument is left out only from 21 on: with exactly 20 the dots stand for nothing.
   */
  lemma DotsFromTwentyCutFromTwentyOne(e: Exec, argv: seq<CString>)
    requires ValidExec(e) && argv != [] && HoldsFrom(e.slots, 0, argv)
    ensures Arguments(e) <= argv[1..]
    ensures SendsDots(e) <==> |argv| >= 20
    ensures Arguments(e) == argv[1..] <==> |argv| <= 20
  {
    var rest := argv[1..];
    assert HoldsFrom(e.slots, 1, rest) by {
      assert forall k :: 0 <= k < |rest| ==> rest[k] == argv[k + 1];
    }
    StringsHeld(e.slots, 1, rest);
  }

  /** An empty argument vector makes the loop read past it: what lies behind its null is handed over instead. */
  lemma EmptyVectorShowsWhatFollows(e: Exec, behind: seq<CString>)
    requires ValidExec(e) && HoldsFrom(e.slots, 0, []) && HoldsFrom(e.slots, 1, behind)
    ensures Arguments(e) <= behind
    ensures Arguments(e) == behind <==> |behind| < 20
  {
    StringsHeld(e.slots, 1, behind);
  }

  // ---------- what the tracer makes of the records ----------

  /** What can be seen of a string: its first 128 bytes. */
  function Visible(s: CString): string {
    if |s.text| <= ARGSIZE then s.text else s.text[..ARGSIZE]
  }

  function Shown(s: CString): string {
    TrimSpace(Visible(s))
  }

  /** The strings that are not blank, as far as they can be seen. */
  function ShownArgs(strings: seq<CString>): (r: seq<string>)
    ensures |r| <= |strings|
  {
    if strings == [] then []
    else (if Shown(strings[0]) != "" then [Shown(strings[0])] else []) + ShownArgs(strings[1..])
  }

  lemma {:induction false} CutAtNul(text: string, beyond: string)
    requires NUL !in text
    ensures Cut(text) == text && Cut(text + [NUL] + beyond) == text
  {
    var s := text + [NUL] + beyond;
    if text != [] {
      CutAtNul(text[1..], beyond);
      assert s[1..] == text[1..] + [NUL] + beyond;
    }
  }

  /** Reading past the NUL is harmless, and a longer string loses its tail. */
  lemma FragmentIsShown(e: Exec, s: CString)
    requires Readable(s)
    ensures Fragment(ArgRecord(e, s)) == Shown(s) == TrimSpace(if |s.text| <= 128 then s.text else s.text[..128])
  {
    var whole := s.text + [NUL] + s.beyond;
    if |s.text| < ARGSIZE {
      var rest := s.beyond[..ARGSIZE - |s.text| - 1];
      assert whole[..ARGSIZE] == s.text + [NUL] + rest;
      CutAtNul(s.text, rest);
    } else {
      assert whole[..ARGSIZE] == s.text[..ARGSIZE];
      CutAtNul(s.text[..ARGSIZE], []);
      assert s.text[..|s.text|] == s.text;
    }
  }

  /** The outputs other than "no event, no error". */
  function Reported(outs: seq<Out>): seq<Out> {
    if outs == [] then [] else (if outs[0] != Nothing then [outs[0]] else []) + Reported(outs[1..])
  }

  lemma {:induction false} RunConcat(argv: Pending, a: seq<Input>, b: seq<Input>)
    ensures Final(argv, a + b) == Final(Final(argv, a), b)
    ensures Reported(Outputs(argv, a + b)) == Reported(Outputs(argv, a)) + Reported(Outputs(Final(argv, a), b))
    decreases |a|
  {
    if a == [] {
      assert a + b == b;
    } else {
      assert (a + b)[1..] == a[1..] + b;
      RunConcat(Step(argv, a[0]).0, a[1..], b);
      RunFirst(argv, a);
      RunFirst(argv, a + b);
    }
  }

  lemma ReportedCons(out: Out, outs: seq<Out>)
    ensures Reported([out] + outs) == (if out != Nothing then [out] else []) + Reported(outs)
  {
    assert ([out] + outs)[1..] == outs;
  }

  lemma RunFirst(argv: Pending, inputs: seq<Input>)
    requires inputs != []
    ensures var (argv', out) := Step(argv, inputs[0]);
            && Final(argv, inputs) == Final(argv', inputs[1..])
            && Reported(Outputs(argv, inputs)) ==
               (if out != Nothing then [out] else []) + Reported(Outputs(argv', inputs[1..]))
  {
    var (argv', out) := Step(argv, inputs[0]);
    ReportedCons(out, Outputs(argv', inputs[1..]));
  }

  /** The inputs deliver these records, in order. */
  predicate Delivers(inputs: seq<Input>, records: seq<Record>) {
    |inputs| == |records| && forall i :: 0 <= i < |inputs| ==> inputs[i].Received? && inputs[i].rec == records[i]
  }

  /** Argument records report nothing, whatever is pending. */
  lemma {:induction false} ArgsReportNothing(argv: Pending, inputs: seq<Input>)
    requires forall i :: 0 <= i < |inputs| ==> inputs[i].Received? && inputs[i].rec.kind == ARG
    ensures Reported(Outputs(argv, inputs)) == [] && EmittedArgs(Outputs(argv, inputs)) == []
    decreases |inputs|
  {
    if inputs != [] {
      var (argv', out) := Step(argv, inputs[0]);
      assert out == Nothing;
      ArgsReportNothing(argv', inputs[1..]);
      ReportedCons(out, Outputs(argv', inputs[1..]));
    }
  }

  lemma {:induction false} FromOne(inputs: seq<Input>, pid: nat)
    requires forall i :: 0 <= i < |inputs| ==> IsFrom(inputs[i], pid)
    ensures From(inputs, pid) == inputs
  {
    if inputs != [] {
      FromOne(inputs[1..], pid);
    }
  }

  lemma {:induction false} FragmentsAreShown(inputs: seq<Input>, e: Exec, strings: seq<CString>)
    requires (forall s :: s in strings ==> Readable(s)) && Delivers(inputs, ArgRecords(e, strings))
    ensures Fragments(inputs) == ShownArgs(strings)
  {
    if inputs != [] {
      assert inputs[0].rec == ArgRecord(e, strings[0]);
      FragmentIsShown(e, strings[0]);
      FragmentsAreShown(inputs[1..], e, strings[1..]);
    }
  }

  lemma ArgRecordsAreOwn(inputs: seq<Input>, e: Exec, strings: seq<CString>)
    requires (forall s :: s in strings ==> Readable(s)) && Delivers(inputs, ArgRecords(e, strings))
    ensures forall i :: 0 <= i < |inputs| ==> IsFrom(inputs[i], e.pid) && inputs[i].rec.kind == ARG
  {
    assert forall i :: 0 <= i < |inputs| ==> inputs[i].rec == ArgRecord(e, strings[i]);
  }

  lemma ArgsAreCollected(argv: Pending, inputs: seq<Input>, e: Exec, strings: seq<CString>)
    requires (forall s :: s in strings ==> Readable(s)) && Delivers(inputs, ArgRecords(e, strings))
    ensures Reported(Outputs(argv, inputs)) == []
    ensures PendingOf(Final(argv, inputs), e.pid) == PendingOf(argv, e.pid) + ShownArgs(strings)
  {
    ArgRecordsAreOwn(inputs, e, strings);
    FragmentsAreShown(inputs, e, strings);
    FragmentsAreCollected(argv, inputs, e.pid);
  }

  lemma FragmentsAreCollected(argv: Pending, inputs: seq<Input>, pid: nat)
    requires forall i :: 0 <= i < |inputs| ==> IsFrom(inputs[i], pid) && inputs[i].rec.kind == ARG
    ensures Reported(Outputs(argv, inputs)) == []
    ensures PendingOf(Final(argv, inputs), pid) == PendingOf(argv, pid) + Fragments(inputs)
  {
    FromOne(inputs, pid);
    NonInterference(argv, argv, inputs, pid);
    Conservation(argv, inputs, pid);
    ArgsReportNothing(argv, inputs);
  }

  /** The stream of one exec: the records its probes submit, the lookup being made for the last. */
  predicate CarriesExec(inputs: seq<Input>, e: Exec)
    requires ValidExec(e)
  {
    Delivers(inputs, ExecRecords(e)) && inputs[|inputs| - 1].lookup == e.lookup
  }

  /** What one exec reports if `left` is still pending from before. */
  function Report(e: Exec, left: seq<string>): Out
    requires ValidExec(e)
  {
    if e.lookup.Failed? then LookupError(e.pid)
    else Emitted(ReturnRecord(e), e.lookup.gid, left + ShownArgs(Submitted(e)))
  }

  /** What is pending after one exec: nothing, or everything if the lookup failed. */
  function Left(e: Exec, left: seq<string>): seq<string>
    requires ValidExec(e)
  {
    if e.lookup.Failed? then left + ShownArgs(Submitted(e)) else []
  }

  lemma OneExec(argv: Pending, inputs: seq<Input>, e: Exec)
    requires ValidExec(e) && CarriesExec(inputs, e)
    ensures Reported(Outputs(argv, inputs)) == [Report(e, PendingOf(argv, e.pid))]
    ensures PendingOf(Final(argv, inputs), e.pid) == Left(e, PendingOf(argv, e.pid))
  {
    var n := |Submitted(e)|;
    var args, last := inputs[..n], inputs[n];
    assert inputs == args + [last] && last == Received(ReturnRecord(e), e.lookup);
    RunConcat(argv, args, [last]);
    ArgsAreCollected(argv, args, e, Submitted(e));
    var mid := Final(argv, args);
    assert [last][1..] == [];
    assert Outputs(mid, [last]) == [Step(mid, last).1] + Outputs(Step(mid, last).0, []);
    ReportedCons(Step(mid, last).1, []);
  }

  // ---------- several execs of one process ----------

  predicate ValidRun(execs: seq<Exec>, pid: nat) {
    forall e :: e in execs ==> ValidExec(e) && e.pid == pid
  }

  /** A stream may break off inside an exec: the first n argument records of one that is not complete. */
  predicate CarriesPart(inputs: seq<Input>, e: Exec, n: nat)
    requires ValidExec(e) && n <= |Submitted(e)|
  {
    Delivers(inputs, ArgRecords(e, Submitted(e)[..n]))
  }

  /** Complete execs one after the other, and then the first n argument records of the next. */
  ghost predicate CarriesExecs(inputs: seq<Input>, execs: seq<Exec>, next: Exec, n: nat, pid: nat)
    requires ValidRun(execs, pid) && ValidRun([next], pid) && n <= |Submitted(next)|
    decreases |execs|
  {
    if execs == [] then CarriesPart(inputs, next, n)
    else
      var k := |Submitted(execs[0])| + 1;
      k <= |inputs| && CarriesExec(inputs[..k], execs[0]) && CarriesExecs(inputs[k..], execs[1..], next, n, pid)
  }

  function Reports(execs: seq<Exec>, left: seq<string>, pid: nat): seq<Out>
    requires ValidRun(execs, pid)
    decreases |execs|
  {
    if execs == [] then [] else [Report(execs[0], left)] + Reports(execs[1..], Left(execs[0], left), pid)
  }

  function LeftAfter(execs: seq<Exec>, left: seq<string>, pid: nat): seq<string>
    requires ValidRun(execs, pid)
    decreases |execs|
  {
    if execs == [] then left else LeftAfter(execs[1..], Left(execs[0], left), pid)
  }

  /** A first exec and whatever follows it. */
  lemma FirstExec(argv: Pending, first: seq<Input>, later: seq<Input>, e: Exec)
    requires ValidExec(e) && CarriesExec(first, e)
    ensures var mid := Final(argv, first);
            && PendingOf(mid, e.pid) == Left(e, PendingOf(argv, e.pid))
            && Final(argv, first + later) == Final(mid, later)
            && Reported(Outputs(argv, first + later)) ==
               [Report(e, PendingOf(argv, e.pid))] + Reported(Outputs(mid, later))
  {
    RunConcat(argv, first, later);
    OneExec(argv, first, e);
  }

  lemma ReportsCons(execs: seq<Exec>, left: seq<string>, pid: nat)
    requires ValidRun(execs, pid) && execs != []
    ensures var left' := Left(execs[0], left);
            && Reports(execs, left, pid) == [Report(execs[0], left)] + Reports(execs[1..], left', pid)
            && LeftAfter(execs, left, pid) == LeftAfter(execs[1..], left', pid)
  {}

  lemma {:induction false} OwnExecs(argv: Pending, inputs: seq<Input>, execs: seq<Exec>, next: Exec, n: nat, pid: nat)
    requires ValidRun(execs, pid) && ValidRun([next], pid) && n <= |Submitted(next)|
    requires CarriesExecs(inputs, execs, next, n, pid)
    ensures Reported(Outputs(argv, inputs)) == Reports(execs, PendingOf(argv, pid), pid)
    ensures PendingOf(Final(argv, inputs), pid) ==
            LeftAfter(execs, PendingOf(argv, pid), pid) + ShownArgs(Submitted(next)[..n])
    decreases |execs|
  {
    if execs == [] {
      OwnPart(argv, inputs, next, n);
    } else {
      var k := |Submitted(execs[0])| + 1;
      var first, later := inputs[..k], inputs[k..];
      assert inputs == first + later;
      FirstExec(argv, first, later, execs[0]);
      OwnExecs(Final(argv, first), later, execs[1..], next, n, pid);
      ReportsCons(execs, PendingOf(argv, pid), pid);
    }
  }

  lemma OwnPart(argv: Pending, inputs: seq<Input>, next: Exec, n: nat)
    requires ValidExec(next) && n <= |Submitted(next)| && CarriesPart(inputs, next, n)
    ensures Reported(Outputs(argv, inputs)) == []
    ensures PendingOf(Final(argv, inputs), next.pid) == PendingOf(argv, next.pid) + ShownArgs(Submitted(next)[..n])
  {
    ArgsAreCollected(argv, inputs, next, Submitted(next)[..n]);
  }

  /**
   From system calls to events: a process's execs, one after the other, in a stream shared with any other
   processes and broken off anywhere. Each complete exec reports once; a failed lookup leaves its arguments to the
   next event of the same process, and so does an exec that is not complete yet.
   */
  lemma EndToEnd(argv: Pending, inputs: seq<Input>, execs: seq<Exec>, next: Exec, n: nat, pid: nat)
    requires ValidRun(execs, pid) && ValidRun([next], pid) && n <= |Submitted(next)|
    requires CarriesExecs(From(inputs, pid), execs, next, n, pid)
    ensures Reported(OutputsFor(argv, inputs, pid)) == Reports(execs, PendingOf(argv, pid), pid)
    ensures PendingOf(Final(argv, inputs), pid) ==
            LeftAfter(execs, PendingOf(argv, pid), pid) + ShownArgs(Submitted(next)[..n])
  {
    NonInterference(argv, argv, inputs, pid);
    OwnExecs(argv, From(inputs, pid), execs, next, n, pid);
  }

  /**
   One exec with a successful lookup and nothing left over: exactly one event, listing the visible non-blank parts
   of the file name, of the arguments after the first up to the twentieth, and "..." from 20 arguments on.
   */
  lemma SingleExec(argv: Pending, inputs: seq<Input>, e: Exec)
    requires ValidExec(e) && CarriesExec(From(inputs, e.pid), e)
    requires e.lookup.Ids? && PendingOf(argv, e.pid) == []
    ensures Reported(OutputsFor(argv, inputs, e.pid)) ==
            [Emitted(ReturnRecord(e), e.lookup.gid, ShownArgs(Submitted(e)))]
    ensures |ShownArgs(Submitted(e))| <= MAXARG + 1
    ensures PendingOf(Final(argv, inputs), e.pid) == []
  {
    NonInterference(argv, argv, inputs, e.pid);
    OneExec(argv, From(inputs, e.pid), e);
    assert [] + ShownArgs(Submitted(e)) == ShownArgs(Submitted(e));
  }

  /** The arguments of a vector that are reported: those after the first, up to the twentieth. */
  function UpToTwenty(argv: seq<CString>): seq<CString>
    requires argv != []
  {
    argv[1..if |argv| < 20 then |argv| else 20]
  }

  lemma ShownConcat(a: seq<CString>, b: seq<CString>)
    ensures ShownArgs(a + b) == ShownArgs(a) + ShownArgs(b)
  {
    if a == [] {
      assert a + b == b;
    } else {
      assert (a + b)[1..] == a[1..] + b;
      ShownConcat(a[1..], b);
    }
  }

  lemma DotsAreShown(s: CString)
    requires s.text == "..."
    ensures ShownArgs([s]) == ["..."]
  {
    TrimSpaceFixed("...");
    assert [s][1..] == [];
  }

  /** The list shown for a proper argument vector: file name first, arguments in order, dots from 20 on. */
  lemma ShownVector(e: Exec, argv: seq<CString>)
    requires ValidExec(e) && argv != [] && HoldsFrom(e.slots, 0, argv)
    ensures ShownArgs(Submitted(e)) ==
            ShownArgs([e.filename] + UpToTwenty(argv)) + (if |argv| >= 20 then ["..."] else [])
  {
    VectorArguments(e, argv);
    ShownConcat([e.filename] + Arguments(e), if SendsDots(e) then [e.ellipsis] else []);
    DotsAreShown(e.ellipsis);
  }

  lemma VectorArguments(e: Exec, argv: seq<CString>)
    requires ValidExec(e) && argv != [] && HoldsFrom(e.slots, 0, argv)
    ensures Arguments(e) == UpToTwenty(argv) && (SendsDots(e) <==> |argv| >= 20)
  {
    DotsFromTwentyCutFromTwentyOne(e, argv);
    assert |argv| > 20 ==> |Arguments(e)| == 19 && Arguments(e) == argv[1..][..19] == argv[1..20];
  }

  /** The fields of the one event an exec with an argument vector gives. */
  ghost predicate IsExecEvent(w: Watched, e: Exec, name: string, args: seq<string>) {
    && w.Watched? && w.event.pid == e.pid && w.event.tgid == e.retTgid && w.event.uid == e.retUid
    && e.lookup.Ids? && w.event.gid == e.lookup.gid
    && w.event.command == TrimSpace(name) && w.event.returnValue == e.retval
    && w.event.data == Some(map["argv" := Join(args, " "), "type" := "1"])
    && w.event.containerId == "" && w.event.containerRuntime == "" && w.event.tracer == ""
  }

  /**
   From system call to event: with an answered lookup and nothing left over, one exec with an argument vector gives
   one event. It carries what the kernel said at the return, the group of the lookup, and the list of the non-blank
   file name and arguments up to the twentieth, in order, with dots from 20 arguments on.
   */
  lemma ExecEvent(argv: Pending, inputs: seq<Input>, e: Exec, vector: seq<CString>, name: string, junk: string)
    requires ValidExec(e) && CarriesExec(From(inputs, e.pid), e)
    requires e.lookup.Ids? && PendingOf(argv, e.pid) == []
    requires vector != [] && HoldsFrom(e.slots, 0, vector)
    requires e.retComm == name + [NUL] + junk && NUL !in name
    ensures var outs := Reported(OutputsFor(argv, inputs, e.pid));
            && |outs| == 1 && outs[0].Emitted?
            && outs[0].args == ShownArgs([e.filename] + UpToTwenty(vector)) + (if |vector| >= 20 then ["..."] else [])
            && IsExecEvent(Render(outs[0]), e, name, outs[0].args)
  {
    SingleExec(argv, inputs, e);
    ShownVector(e, vector);
    CutAtNul(name, junk);
  }

  predicate IsArgRecordOf(r: Record, e: Exec) {
    r.pid == e.pid && r.tgid == e.tgid && r.uid == e.uid && r.comm == e.comm && r.kind == 0 && |r.argv| == 128
  }

  predicate IsReturnRecordOf(r: Record, e: Exec) {
    && r.pid == e.pid && r.tgid == e.retTgid && r.uid == e.retUid && r.comm == e.retComm && r.kind == 1
    && r.retval == e.retval
  }

  /** What the probes submit, field by field: argument records first, one return record last. */
  lemma RecordFields(e: Exec, i: nat)
    requires ValidExec(e) && i < |ExecRecords(e)|
    ensures if i < |ExecRecords(e)| - 1 then IsArgRecordOf(ExecRecords(e)[i], e)
            else IsReturnRecordOf(ExecRecords(e)[i], e)
  {
    if i < |Submitted(e)| {
      var s := Submitted(e)[i];
      assert s in Submitted(e) && ExecRecords(e)[i] == ArgRecord(e, s);
    }
  }

  lemma {:induction false} KthReport(execs: seq<Exec>, left: seq<string>, pid: nat, k: nat)
    requires k < |execs| && ValidRun(execs, pid) && ValidRun(execs[..k], pid)
    ensures |Reports(execs, left, pid)| == |execs|
    ensures Reports(execs, left, pid)[k] == Report(execs[k], LeftAfter(execs[..k], left, pid))
    decreases |execs|
  {
    ReportsLength(execs, left, pid);
    if k > 0 {
      assert execs[..k][0] == execs[0] && execs[..k][1..] == execs[1..][..k - 1];
      KthReport(execs[1..], Left(execs[0], left), pid, k - 1);
    }
  }

  // ---------- whose arguments an event shows ----------

  /** All lookups from exec m on failed, and the one before it, if there is one, succeeded. */
  predicate FailedSince(execs: seq<Exec>, m: nat) {
    && m <= |execs| && (m > 0 ==> execs[m - 1].lookup.Ids?)
    && forall i :: m <= i < |execs| ==> execs[i].lookup.Failed?
  }

  lemma LastSuccess(execs: seq<Exec>) returns (m: nat)
    ensures FailedSince(execs, m)
  {
    m := |execs|;
    while m > 0 && execs[m - 1].lookup.Failed?
      invariant m <= |execs| && forall i :: m <= i < |execs| ==> execs[i].lookup.Failed?
    {
      m := m - 1;
    }
  }

  function AllShown(execs: seq<Exec>, pid: nat): seq<string>
    requires ValidRun(execs, pid)
  {
    if execs == [] then [] else ShownArgs(Submitted(execs[0])) + AllShown(execs[1..], pid)
  }

  lemma {:induction false} FailuresAddUp(execs: seq<Exec>, left: seq<string>, pid: nat)
    requires ValidRun(execs, pid) && FailedSince(execs, 0)
    ensures LeftAfter(execs, left, pid) == left + AllShown(execs, pid)
    decreases |execs|
  {
    if execs == [] {
      assert left + [] == left;
    } else {
      var shown := ShownArgs(Submitted(execs[0]));
      assert Left(execs[0], left) == left + shown;
      FailuresAddUp(execs[1..], left + shown, pid);
      Regroup(left, shown, AllShown(execs[1..], pid));
    }
  }

  /** What is left is what was shown since the last successful lookup, after what was there if there was none. */
  lemma {:induction false} LeftIsShownSince(execs: seq<Exec>, left: seq<string>, pid: nat, m: nat)
    requires ValidRun(execs, pid) && FailedSince(execs, m) && ValidRun(execs[m..], pid)
    ensures LeftAfter(execs, left, pid) == (if m == 0 then left else []) + AllShown(execs[m..], pid)
    decreases m
  {
    if m == 0 {
      FailuresAddUp(execs, left, pid);
      assert execs[0..] == execs;
    } else {
      assert execs[1..][m - 1..] == execs[m..];
      LeftIsShownSince(execs[1..], Left(execs[0], left), pid, m - 1);
    }
  }

  /** Every string handed over is blank as far as it can be seen. */
  predicate ShowsNothing(e: Exec)
    requires ValidExec(e)
  {
    forall s :: s in Submitted(e) ==> IsBlank(Visible(s))
  }

  lemma {:induction false} ShownArgsEmpty(strings: seq<CString>)
    ensures ShownArgs(strings) == [] <==> forall s :: s in strings ==> IsBlank(Visible(s))
  {
    if strings != [] {
      TrimSpaceBlank(Visible(strings[0]));
      ShownArgsEmpty(strings[1..]);
      assert forall s :: s in strings <==> s == strings[0] || s in strings[1..];
    }
  }

  lemma {:induction false} AllShownEmpty(execs: seq<Exec>, pid: nat)
    requires ValidRun(execs, pid)
    ensures AllShown(execs, pid) == [] <==> forall e :: e in execs ==> ShowsNothing(e)
  {
    if execs != [] {
      ShownArgsEmpty(Submitted(execs[0]));
      AllShownEmpty(execs[1..], pid);
      assert forall e :: e in execs <==> e == execs[0] || e in execs[1..];
    }
  }

  lemma ShownSince(execs: seq<Exec>, pid: nat, m: nat, k: nat)
    requires m <= k <= |execs| && ValidRun(execs[m..k], pid)
    ensures AllShown(execs[m..k], pid) == [] <==> forall i :: m <= i < k ==> ShowsNothing(execs[i])
  {
    var since := execs[m..k];
    AllShownEmpty(since, pid);
    assert forall i :: m <= i < k ==> execs[i] == since[i - m];
  }

  lemma KthArgs(execs: seq<Exec>, left: seq<string>, pid: nat, k: nat, m: nat)
    requires k < |execs| && ValidRun(execs, pid) && ValidRun(execs[..k], pid) && execs[k].lookup.Ids?
    requires FailedSince(execs[..k], m) && ValidRun(execs[m..k], pid)
    ensures k < |Reports(execs, left, pid)|
    ensures Reports(execs, left, pid)[k] == Emitted(ReturnRecord(execs[k]), execs[k].lookup.gid,
      (if m == 0 then left else []) + AllShown(execs[m..k], pid) + ShownArgs(Submitted(execs[k])))
  {
    KthReport(execs, left, pid, k);
    assert execs[..k][m..] == execs[m..k];
    LeftIsShownSince(execs[..k], left, pid, m);
  }

  lemma OwnTail(left: seq<string>, shown: seq<string>, own: seq<string>)
    ensures left + shown + own == own <==> left == [] && shown == []
  {
    assert |left + shown + own| == |left| + |shown| + |own|;
    assert [] + [] + own == own;
  }

  /**
   The k-th exec's event lists what all execs since the last successful lookup have shown, and then its own
   arguments. So it shows its own arguments and no others exactly if those execs showed nothing, and nothing was
   pending at the start if no lookup succeeded before.
   */
  lemma OwnArgumentsExactlyIfNothingLeft(execs: seq<Exec>, left: seq<string>, pid: nat, k: nat) returns (m: nat)
    requires k < |execs| && ValidRun(execs, pid) && execs[k].lookup.Ids?
    ensures FailedSince(execs[..k], m) && ValidRun(execs[m..k], pid)
    ensures k < |Reports(execs, left, pid)| && Reports(execs, left, pid)[k].Emitted?
    ensures var args, own := Reports(execs, left, pid)[k].args, ShownArgs(Submitted(execs[k]));
            && args == (if m == 0 then left else []) + AllShown(execs[m..k], pid) + own
            && (args == own <==> (m == 0 ==> left == []) && forall i :: m <= i < k ==> ShowsNothing(execs[i]))
  {
    m := LastSuccess(execs[..k]);
    KthArgs(execs, left, pid, k, m);
    ShownSince(execs, pid, m, k);
    OwnTail(if m == 0 then left else [], AllShown(execs[m..k], pid), ShownArgs(Submitted(execs[k])));
  }

  /** A file name that is not blank always shows: then only the lookup right before decides. */
  lemma OwnArgumentsAfterSuccess(execs: seq<Exec>, left: seq<string>, pid: nat, k: nat)
    requires k < |execs| && ValidRun(execs, pid) && execs[k].lookup.Ids?
    requires k > 0 ==> !IsBlank(Visible(execs[k - 1].filename))
    ensures k < |Reports(execs, left, pid)| && Reports(execs, left, pid)[k].Emitted?
    ensures Reports(execs, left, pid)[k].args == ShownArgs(Submitted(execs[k])) <==>
            if k == 0 then left == [] else execs[k - 1].lookup.Ids?
  {
    var m := OwnArgumentsExactlyIfNothingLeft(execs, left, pid, k);
    if k > 0 {
      assert execs[..k][k - 1] == execs[k - 1];
      assert execs[k - 1].filename in Submitted(execs[k - 1]);
    }
  }

  /** The status text is that of a file in the kernel's form, or no file could be read. */
  ghost predicate ReadableStatus(status: string) {
    TrimSpace(status) == "" || StatusIds.IsKernelForm(TrimSpace(status))
  }

  /** Such texts answer every lookup: with nothing pending each event then shows its own exec's arguments. */
  lemma OwnArgumentsOnKernelStatus(execs: seq<Exec>, statuses: seq<string>, pid: nat, k: nat)
    requires k < |execs| == |statuses| && ValidRun(execs, pid)
    requires forall i :: 0 <= i <= k ==> execs[i].lookup == LookupOf(statuses[i]) && ReadableStatus(statuses[i])
    ensures k < |Reports(execs, [], pid)| && Reports(execs, [], pid)[k].Emitted?
    ensures Reports(execs, [], pid)[k].args == ShownArgs(Submitted(execs[k]))
  {
    forall i | 0 <= i <= k ensures execs[i].lookup.Ids? {
      StatusIds.KernelFormIsRead(TrimSpace(statuses[i]));
    }
    AllFound(execs[..k], 0);
    var m := OwnArgumentsExactlyIfNothingLeft(execs, [], pid, k);
    AllFound(execs[..k], m);
  }

  lemma AllFound(execs: seq<Exec>, m: nat)
    requires forall i :: 0 <= i < |execs| ==> execs[i].lookup.Ids?
    ensures FailedSince(execs, m) <==> m == |execs|
  {
    if m < |execs| {
      assert execs[m].lookup.Ids?;
    }
  }

  lemma {:induction false} ReportsLength(execs: seq<Exec>, left: seq<string>, pid: nat)
    requires ValidRun(execs, pid)
    ensures |Reports(execs, left, pid)| == |execs|
    decreases |execs|
  {
    if execs != [] {
      ReportsLength(execs[1..], Left(execs[0], left), pid);
    }
  }
}
