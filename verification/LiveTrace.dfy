/**
 The live-trace protocol of api/event.go and api/api.go as small steps: any number of tracers calling addEvent
 and any number of streaming clients share one buffer and one unsynchronised flag.
 */
module LiveTrace {
  import opened Dispatch

  /** One call of addEvent that read the flag as true; the number tells equal events apart. */
  datatype Occurrence = Occurrence(id: nat, event: Event)

  /** A tracer's goroutine: outside addEvent, or past the flag test and waiting for the lock. */
  datatype Tracer = Idle | Admitted(o: Occurrence)

  /** Where a client is in the LiveTrace loop; Holding is between the pop and the end of Send. */
  datatype Client = Testing | Checking | Popping | Holding(o: Occurrence) | Done

  datatype State = State(
    streaming: bool, events: seq<Occurrence>, tracers: seq<Tracer>, clients: seq<Client>,
    // history: occurrences that passed the flag test, that were appended, that were sent and to whom, that were lost
    admitted: seq<Occurrence>, enqueued: seq<Occurrence>, sent: seq<(nat, Occurrence)>, lost: seq<Occurrence>)

  datatype Step =
    | Connect                           // a client arrives and sets the flag
    | Test(c: nat)                      // the loop condition
    | Check(c: nat, cancelled: bool)    // the context's error, clearing the flag if there is one
    | Pop(c: nat)                       // popEvent, under the lock
    | Send(c: nat, ok: bool)            // stream.Send, clearing the flag if it fails
    | Begin(t: nat, event: Event)       // addEvent reads the flag before taking the lock
    | Append(t: nat)                    // addEvent appends under the lock

  function Init(tracers: nat): State {
    State(false, [], seq(tracers, i => Idle), [], [], [], [], [])
  }

  predicate Enabled(s: State, step: Step) {
    match step
    case Connect => true
    case Test(c) => c < |s.clients| && s.clients[c] == Testing
    case Check(c, _) => c < |s.clients| && s.clients[c] == Checking
    case Pop(c) => c < |s.clients| && s.clients[c] == Popping
    case Send(c, _) => c < |s.clients| && s.clients[c].Holding?
    case Begin(t, _) => t < |s.tracers| && s.tracers[t] == Idle
    case Append(t) => t < |s.tracers| && s.tracers[t].Admitted?
  }

  function Next(s: State, step: Step): State
    requires Enabled(s, step)
  {
    match step
    case Connect => s.(streaming := true, clients := s.clients + [Testing])
    case Test(c) => s.(clients := s.clients[c := if s.streaming then Checking else Done])
    case Check(c, cancelled) =>
      if cancelled then s.(streaming := false, clients := s.clients[c := Done])
      else s.(clients := s.clients[c := Popping])
    case Pop(c) =>
      if s.events == [] then s.(clients := s.clients[c := Testing])
      else
        var last := |s.events| - 1;
        s.(events := s.events[..last], clients := s.clients[c := Holding(s.events[last])])
    case Send(c, ok) =>
      var o := s.clients[c].o;
      if ok then s.(clients := s.clients[c := Testing], sent := s.sent + [(c, o)])
      else s.(streaming := false, clients := s.clients[c := Done], lost := s.lost + [o])
    case Begin(t, event) =>
      if !s.streaming then s
      else
        var o := Occurrence(|s.admitted|, event);
        s.(tracers := s.tracers[t := Admitted(o)], admitted := s.admitted + [o])
    case Append(t) =>
      var o := s.tracers[t].o;
      s.(tracers := s.tracers[t := Idle], events := s.events + [o], enqueued := s.enqueued + [o])
  }

  /** A run: the states visited, one more than the steps taken. */
  ghost predicate IsRun(states: seq<State>, steps: seq<Step>) {
    && |states| == |steps| + 1
    && (exists n :: states[0] == Init(n))
    && forall i :: 0 <= i < |steps| ==> Enabled(states[i], steps[i]) && states[i + 1] == Next(states[i], steps[i])
  }

  // ---------- adding up what the participants hold ----------

  function Waiting(t: Tracer): multiset<Occurrence> {
    if t.Admitted? then multiset{t.o} else multiset{}
  }

  function Held(c: Client): multiset<Occurrence> {
    if c.Holding? then multiset{c.o} else multiset{}
  }

  function Total<T>(xs: seq<T>, f: T -> multiset<Occurrence>): multiset<Occurrence> {
    if xs == [] then multiset{} else f(xs[0]) + Total(xs[1..], f)
  }

  lemma Swap(a: multiset<Occurrence>, b: multiset<Occurrence>, c: multiset<Occurrence>,
             d: multiset<Occurrence>, e: multiset<Occurrence>)
    requires b + c == d + e
    ensures (a + b) + c == (a + d) + e
  {
    assert (a + b) + c == a + (b + c) && (a + d) + e == a + (d + e);
  }

  lemma {:induction false} TotalUpdate<T>(xs: seq<T>, f: T -> multiset<Occurrence>, i: nat, x: T)
    requires i < |xs|
    ensures Total(xs[i := x], f) + f(xs[i]) == Total(xs, f) + f(x)
  {
    if i == 0 {
      assert xs[0 := x][1..] == xs[1..];
    } else {
      var rest := xs[1..];
      assert xs[i := x][1..] == rest[i - 1 := x];
      TotalUpdate(rest, f, i - 1, x);
      Swap(f(xs[0]), Total(rest[i - 1 := x], f), f(xs[i]), Total(rest, f), f(x));
    }
  }

  lemma {:induction false} TotalAppend<T>(xs: seq<T>, f: T -> multiset<Occurrence>, x: T)
    ensures Total(xs + [x], f) == Total(xs, f) + f(x)
  {
    if xs == [] {
      assert Total([x], f) == f(x) + Total([x][1..], f);
      assert xs + [x] == [x];
    } else {
      assert (xs + [x])[1..] == xs[1..] + [x];
      TotalAppend(xs[1..], f, x);
    }
  }

  function SentOnes(sent: seq<(nat, Occurrence)>): seq<Occurrence> {
    if sent == [] then [] else SentOnes(sent[..|sent| - 1]) + [sent[|sent| - 1].1]
  }

  // ---------- the invariant ----------

  /** Every appended occurrence is buffered, in flight with one client, sent or lost. */
  ghost predicate Conserved(s: State) {
    multiset(s.enqueued) == multiset(s.events) + Total(s.clients, Held) + multiset(SentOnes(s.sent)) + multiset(s.lost)
  }

  /** Every admitted occurrence has been appended or waits for the lock, and is numbered by its admission. */
  ghost predicate Accounted(s: State) {
    && multiset(s.admitted) == multiset(s.enqueued) + Total(s.tracers, Waiting)
    && forall i :: 0 <= i < |s.admitted| ==> s.admitted[i].id == i
  }

  lemma {:induction false} IdleTracersHoldNothing(n: nat)
    ensures Total(seq(n, i => Idle), Waiting) == multiset{}
  {
    if n > 0 {
      assert seq(n, i => Idle)[1..] == seq(n - 1, i => Idle);
      IdleTracersHoldNothing(n - 1);
    }
  }

  /** A client moving on without picking up or putting down an occurrence. */
  lemma MoveHoldsSame(s: State, c: nat, x: Client)
    requires c < |s.clients| && Held(x) == Held(s.clients[c])
    ensures Total(s.clients[c := x], Held) == Total(s.clients, Held)
  {
    var h := Held(x);
    TotalUpdate(s.clients, Held, c, x);
    assert Total(s.clients[c := x], Held) + h - h == Total(s.clients, Held) + h - h;
    assert Total(s.clients[c := x], Held) + h - h == Total(s.clients[c := x], Held);
  }

  lemma PopBalance(e: multiset<Occurrence>, h: multiset<Occurrence>, rest: multiset<Occurrence>, o: Occurrence)
    ensures (e + multiset{o}) + h + rest == e + (h + multiset{o}) + rest
  {}

  lemma SendBalance(e: multiset<Occurrence>, h: multiset<Occurrence>, sent: multiset<Occurrence>,
                    lost: multiset<Occurrence>, o: Occurrence)
    ensures e + (h + multiset{o}) + sent + lost == e + h + (sent + multiset{o}) + lost
    ensures e + (h + multiset{o}) + sent + lost == e + h + sent + (lost + multiset{o})
  {}

  lemma PopConserves(s: State, c: nat)
    requires Enabled(s, Pop(c)) && Conserved(s)
    ensures Conserved(Next(s, Pop(c)))
  {
    if s.events == [] {
      MoveHoldsSame(s, c, Testing);
    } else {
      var last := |s.events| - 1;
      var o, front := s.events[last], s.events[..last];
      TotalUpdate(s.clients, Held, c, Holding(o));
      assert s.events == front + [o];
      var e, h, sent, lost := multiset(front), Total(s.clients, Held), multiset(SentOnes(s.sent)), multiset(s.lost);
      assert multiset(s.enqueued) == (e + multiset{o}) + h + sent + lost;
      PopBalance(e, h, sent, o);
      assert Total(s.clients[c := Holding(o)], Held) == h + multiset{o};
      assert multiset(s.enqueued) == e + (h + multiset{o}) + sent + lost;
    }
  }

  lemma SendConserves(s: State, c: nat, ok: bool)
    requires Enabled(s, Send(c, ok)) && Conserved(s)
    ensures Conserved(Next(s, Send(c, ok)))
  {
    var o, x := s.clients[c].o, if ok then Testing else Done;
    TotalUpdate(s.clients, Held, c, x);
    var h := Total(s.clients[c := x], Held);
    assert Total(s.clients, Held) == h + multiset{o};
    SendBalance(multiset(s.events), h, multiset(SentOnes(s.sent)), multiset(s.lost), o);
    if ok {
      assert (s.sent + [(c, o)])[..|s.sent|] == s.sent;
      assert SentOnes(s.sent + [(c, o)]) == SentOnes(s.sent) + [o];
    }
  }

  lemma ClientStepConserves(s: State, step: Step)
    requires Enabled(s, step) && Conserved(s) && !step.Begin? && !step.Append?
    ensures Conserved(Next(s, step))
  {
    match step
    case Connect => TotalAppend(s.clients, Held, Testing);
    case Test(c) => MoveHoldsSame(s, c, if s.streaming then Checking else Done);
    case Check(c, cancelled) => MoveHoldsSame(s, c, if cancelled then Done else Popping);
    case Pop(c) => PopConserves(s, c);
    case Send(c, ok) => SendConserves(s, c, ok);
  }

  lemma BeginKeepsAccount(s: State, t: nat, event: Event)
    requires Enabled(s, Begin(t, event)) && Accounted(s)
    ensures Accounted(Next(s, Begin(t, event)))
  {
    var o := Occurrence(|s.admitted|, event);
    TotalUpdate(s.tracers, Waiting, t, Admitted(o));
    assert Total(s.tracers[t := Admitted(o)], Waiting) == Total(s.tracers, Waiting) + multiset{o};
    assert multiset(s.admitted + [o]) == multiset(s.admitted) + multiset{o};
  }

  lemma AppendConserves(s: State, t: nat)
    requires Enabled(s, Append(t)) && Conserved(s) && Accounted(s)
    ensures Conserved(Next(s, Append(t))) && Accounted(Next(s, Append(t)))
  {
    var o := s.tracers[t].o;
    TotalUpdate(s.tracers, Waiting, t, Idle);
    assert Total(s.tracers[t := Idle], Waiting) + multiset{o} == Total(s.tracers, Waiting);
    assert multiset(s.enqueued + [o]) == multiset(s.enqueued) + multiset{o};
    assert multiset(s.events + [o]) == multiset(s.events) + multiset{o};
  }

  lemma StepConserves(s: State, step: Step)
    requires Enabled(s, step) && Conserved(s) && Accounted(s)
    ensures Conserved(Next(s, step)) && Accounted(Next(s, step))
  {
    match step
    case Begin(t, event) => BeginKeepsAccount(s, t, event);
    case Append(t) => AppendConserves(s, t);
    case _ => ClientStepConserves(s, step);
  }

  /** In every reachable state of every interleaving: appended = buffered + in flight + sent + lost. */
  lemma {:induction false} RunConserves(states: seq<State>, steps: seq<Step>, n: nat)
    requires IsRun(states, steps) && n < |states|
    ensures Conserved(states[n]) && Accounted(states[n])
  {
    if n == 0 {
      var k: nat :| states[0] == Init(k);
      IdleTracersHoldNothing(k);
    } else {
      RunConserves(states, steps, n - 1);
      StepConserves(states[n - 1], steps[n - 1]);
    }
  }

  // ---------- at most once ----------

  lemma {:induction false} NumberedOnce(xs: seq<Occurrence>, o: Occurrence)
    requires forall i :: 0 <= i < |xs| ==> xs[i].id == i
    ensures multiset(xs)[o] <= 1
  {
    if xs != [] {
      var front := xs[..|xs| - 1];
      assert xs == front + [xs[|xs| - 1]];
      NumberedOnce(front, o);
      if o == xs[|xs| - 1] {
        assert o !in front;
      }
    }
  }

  lemma {:induction false} SentOnesAt(sent: seq<(nat, Occurrence)>)
    ensures |SentOnes(sent)| == |sent| && forall i :: 0 <= i < |sent| ==> SentOnes(sent)[i] == sent[i].1
  {
    if sent != [] {
      SentOnesAt(sent[..|sent| - 1]);
    }
  }

  lemma TwiceCounts(xs: seq<Occurrence>, i: nat, j: nat)
    requires i < j < |xs| && xs[i] == xs[j]
    ensures multiset(xs)[xs[i]] >= 2
  {
    var a, b := xs[..j], xs[j..];
    assert xs == a + b && a[i] == xs[i] && b[0] == xs[j];
    assert multiset(xs) == multiset(a) + multiset(b);
    assert xs[i] in multiset(a) && xs[j] in multiset(b);
  }

  /** No occurrence is sent twice, and a sent one is neither buffered, nor in flight, nor lost. */
  lemma AtMostOnce(states: seq<State>, steps: seq<Step>, n: nat)
    requires IsRun(states, steps) && n < |states|
    ensures var s := states[n];
            && (forall i, j :: 0 <= i < j < |s.sent| ==> s.sent[i].1 != s.sent[j].1)
            && forall i :: 0 <= i < |s.sent| ==>
                 var o := s.sent[i].1;
                 o !in s.events && o !in s.lost && forall c :: 0 <= c < |s.clients| ==> s.clients[c] != Holding(o)
  {
    var s := states[n];
    RunConserves(states, steps, n);
    SentOnesAt(s.sent);
    forall o
      ensures multiset(s.events)[o] + Total(s.clients, Held)[o] + multiset(SentOnes(s.sent))[o] + multiset(s.lost)[o] <= 1
    {
      NumberedOnce(s.admitted, o);
      assert multiset(s.admitted)[o] >= multiset(s.enqueued)[o];
    }
    forall i, j | 0 <= i < j < |s.sent| ensures s.sent[i].1 != s.sent[j].1 {
      if SentOnes(s.sent)[i] == SentOnes(s.sent)[j] {
        TwiceCounts(SentOnes(s.sent), i, j);
      }
    }
    forall i | 0 <= i < |s.sent|
      ensures var o := s.sent[i].1;
              o !in s.events && o !in s.lost && forall c :: 0 <= c < |s.clients| ==> s.clients[c] != Holding(o)
    {
      var o := s.sent[i].1;
      assert SentOnes(s.sent)[i] == o && o in multiset(SentOnes(s.sent));
      forall c | 0 <= c < |s.clients| ensures s.clients[c] != Holding(o) {
        TotalHas(s.clients, Held, c, o);
      }
      assert o in s.events ==> o in multiset(s.events);
      assert o in s.lost ==> o in multiset(s.lost);
    }
  }

  lemma {:induction false} TotalHas<T>(xs: seq<T>, f: T -> multiset<Occurrence>, i: nat, o: Occurrence)
    requires i < |xs|
    ensures Total(xs, f)[o] >= f(xs[i])[o]
  {
    if i > 0 {
      TotalHas(xs[1..], f, i - 1, o);
    }
  }

  // ---------- where a sent event comes from ----------

  /** The step at which the k-th admission happened: its addEvent read the flag as true. */
  lemma {:induction false} AdmissionStep(states: seq<State>, steps: seq<Step>, n: nat, k: nat) returns (i: nat)
    requires IsRun(states, steps) && n < |states| && k < |states[n].admitted|
    ensures i < n && steps[i].Begin? && states[i].streaming
    ensures states[n].admitted[k] == Occurrence(|states[i].admitted|, steps[i].event) && |states[i].admitted| == k
  {
    if n == 0 {
      assert false;
    } else if k < |states[n - 1].admitted| {
      i := AdmissionStep(states, steps, n - 1, k);
    } else {
      i := n - 1;
    }
  }

  /** Every sent event was given to an addEvent call that found the flag set. */
  lemma SentWasAdmitted(states: seq<State>, steps: seq<Step>, n: nat, j: nat) returns (i: nat)
    requires IsRun(states, steps) && n < |states| && j < |states[n].sent|
    ensures i < n && steps[i].Begin? && states[i].streaming && steps[i].event == states[n].sent[j].1.event
    ensures |states[i].admitted| == states[n].sent[j].1.id
  {
    var s := states[n];
    var o := s.sent[j].1;
    RunConserves(states, steps, n);
    SentOnesAt(s.sent);
    assert SentOnes(s.sent)[j] == o && o in multiset(SentOnes(s.sent));
    assert o in multiset(s.enqueued) && o in multiset(s.admitted);
    i := AdmissionStep(states, steps, n, o.id);
  }

  // ---------- which event a client gets ----------

  /** The buffered occurrences are in the order in which they were appended; `at` says where. */
  lemma {:induction false} InAppendOrder(states: seq<State>, steps: seq<Step>, n: nat) returns (at: seq<nat>)
    requires IsRun(states, steps) && n < |states|
    ensures |at| == |states[n].events|
    ensures forall i :: 0 <= i < |at| ==> at[i] < |states[n].enqueued| && states[n].events[i] == states[n].enqueued[at[i]]
    ensures forall i, j :: 0 <= i < j < |at| ==> at[i] < at[j]
  {
    at := [];
    if n > 0 {
      var s, step := states[n - 1], steps[n - 1];
      at := InAppendOrder(states, steps, n - 1);
      if step.Append? {
        at := at + [|s.enqueued|];
      } else if step.Pop? && s.events != [] {
        at := at[..|at| - 1];
      }
    }
  }

  predicate AppendedBefore(enqueued: seq<Occurrence>, at: nat, o: Occurrence) {
    at <= |enqueued| && o in enqueued[..at]
  }

  /** A pop hands over the occurrence appended last among those buffered. */
  lemma PopTakesNewest(states: seq<State>, steps: seq<Step>, n: nat, c: nat) returns (at: nat)
    requires IsRun(states, steps) && n < |steps| && steps[n] == Pop(c) && states[n].events != []
    ensures at < |states[n].enqueued| && states[n + 1].clients[c] == Holding(states[n].enqueued[at])
    ensures forall o :: o in states[n + 1].events ==> AppendedBefore(states[n].enqueued, at, o)
  {
    var all := InAppendOrder(states, steps, n);
    var s, last := states[n], |states[n].events| - 1;
    at := all[last];
    forall o | o in states[n + 1].events ensures AppendedBefore(s.enqueued, at, o) {
      var i :| 0 <= i < last && s.events[i] == o;
      assert s.enqueued[..at][all[i]] == o;
    }
  }

  // ---------- the flag ----------

  predicate ClearsFlag(step: Step) {
    (step.Check? && step.cancelled) || (step.Send? && !step.ok)
  }

  predicate ConnectedSince(steps: seq<Step>, n: nat, i: nat) {
    i < n <= |steps| && steps[i] == Connect && forall k :: i < k < n ==> !ClearsFlag(steps[k])
  }

  /**
   The flag is set exactly if some client connected and no client has left since: one client leaving stops the
   stream for all that are still connected.
   */
  lemma {:induction false} FlagMeaning(states: seq<State>, steps: seq<Step>, n: nat)
    requires IsRun(states, steps) && n < |states|
    ensures states[n].streaming <==> exists i: nat :: ConnectedSince(steps, n, i)
  {
    if n > 0 {
      var m := n - 1;
      FlagMeaning(states, steps, m);
      if steps[m] == Connect {
        assert ConnectedSince(steps, n, m);
      } else if ClearsFlag(steps[m]) {
        forall i: nat | ConnectedSince(steps, n, i) ensures false {}
      } else {
        forall i: nat ensures ConnectedSince(steps, n, i) <==> ConnectedSince(steps, m, i) {}
      }
    }
  }

  // ---------- where a client's loop ends ----------

  /** The steps that end client c's loop: a cancelled context, a failed send, or the flag found clear. */
  predicate Ends(s: State, step: Step, c: nat) {
    || step == Check(c, true)
    || step == Send(c, false)
    || (step == Test(c) && !s.streaming)
  }

  lemma EndingStep(s: State, step: Step, c: nat)
    requires Enabled(s, step) && c < |Next(s, step).clients|
    ensures Next(s, step).clients[c] == Done <==> Ends(s, step, c) || (c < |s.clients| && s.clients[c] == Done)
    ensures c == |s.clients| ==> step == Connect && Next(s, step).clients[c] == Testing
  {}

  /** A client has left the loop exactly if one of these steps was taken; nothing else, no empty buffer, ends it. */
  lemma {:induction false} DoneExactlyIfEnded(states: seq<State>, steps: seq<Step>, n: nat, c: nat)
    requires IsRun(states, steps) && n < |states| && c < |states[n].clients|
    ensures states[n].clients[c] == Done <==>
            exists i :: 0 <= i < n && (steps[i] == Check(c, true) || steps[i] == Send(c, false) ||
                                       (steps[i] == Test(c) && !states[i].streaming))
  {
    if n > 0 {
      var m := n - 1;
      EndingStep(states[m], steps[m], c);
      if c < |states[m].clients| {
        DoneExactlyIfEnded(states, steps, m, c);
      } else {
        StepsAreOfKnownClients(states, steps, m, c);
      }
    }
  }

  lemma {:induction false} StepsAreOfKnownClients(states: seq<State>, steps: seq<Step>, n: nat, c: nat)
    requires IsRun(states, steps) && n < |states| && c >= |states[n].clients|
    ensures forall i :: 0 <= i < n ==> !Ends(states[i], steps[i], c)
  {
    if n > 0 {
      StepsAreOfKnownClients(states, steps, n - 1, c);
    }
  }

  // ---------- after the flag is cleared ----------

  /** One more send is possible only if the client is between the loop test and Send. */
  function MaySend(c: Client): nat {
    if c == Testing || c == Done then 0 else 1
  }

  function SentBy(sent: seq<(nat, Occurrence)>, c: nat): nat {
    if sent == [] then 0 else SentBy(sent[..|sent| - 1], c) + (if sent[|sent| - 1].0 == c then 1 else 0)
  }

  lemma SentByOne(sent: seq<(nat, Occurrence)>, one: (nat, Occurrence), c: nat)
    ensures SentBy(sent + [one], c) == SentBy(sent, c) + (if one.0 == c then 1 else 0)
  {
    assert (sent + [one])[..|sent|] == sent;
  }

  lemma QuietStep(s: State, step: Step, c: nat)
    requires Enabled(s, step) && !s.streaming && step != Connect && c < |s.clients|
    ensures var s' := Next(s, step);
            && !s'.streaming && |s'.clients| == |s.clients|
            && SentBy(s'.sent, c) + MaySend(s'.clients[c]) <= SentBy(s.sent, c) + MaySend(s.clients[c])
  {
    if step.Send? && step.ok {
      SentByOne(s.sent, (step.c, s.clients[step.c].o), c);
    } else {
      assert Next(s, step).sent == s.sent;
    }
  }

  /** Until the next client connects, a cleared flag lets every client send at most one more event. */
  lemma {:induction false} OneMoreSend(states: seq<State>, steps: seq<Step>, m: nat, n: nat, c: nat)
    requires IsRun(states, steps) && m <= n < |states| && !states[m].streaming && c < |states[m].clients|
    requires forall i :: m <= i < n ==> steps[i] != Connect
    ensures !states[n].streaming && c < |states[n].clients|
    ensures SentBy(states[n].sent, c) + MaySend(states[n].clients[c]) <=
            SentBy(states[m].sent, c) + MaySend(states[m].clients[c])
  {
    if m < n {
      OneMoreSend(states, steps, m, n - 1, c);
      QuietStep(states[n - 1], steps[n - 1], c);
    }
  }

  // ---------- events from before a client connected ----------

  /** Taking the steps one after the other leads from s to end. */
  ghost predicate Reaches(s: State, steps: seq<Step>, end: State)
    decreases |steps|
  {
    if steps == [] then s == end else Enabled(s, steps[0]) && Reaches(Next(s, steps[0]), steps[1..], end)
  }

  lemma ReachesCons(s: State, step: Step, steps: seq<Step>, end: State)
    requires Enabled(s, step) && Reaches(Next(s, step), steps, end)
    ensures Reaches(s, [step] + steps, end)
  {
    assert ([step] + steps)[1..] == steps;
  }

  /** Occurrences under way carry numbers given out already, and only clients that have connected were sent any. */
  ghost predicate KnowsNumbers(s: State) {
    && (forall i :: 0 <= i < |s.events| ==> s.events[i].id < |s.admitted|)
    && (forall t :: 0 <= t < |s.tracers| && s.tracers[t].Admitted? ==> s.tracers[t].o.id < |s.admitted|)
    && (forall j :: 0 <= j < |s.sent| ==> s.sent[j].0 < |s.clients|)
  }

  lemma StepKnowsNumbers(s: State, step: Step)
    requires Enabled(s, step) && KnowsNumbers(s)
    ensures KnowsNumbers(Next(s, step))
  {}

  lemma {:induction false} RunKnowsNumbers(states: seq<State>, steps: seq<Step>, n: nat)
    requires IsRun(states, steps) && n < |states|
    ensures KnowsNumbers(states[n])
  {
    if n > 0 {
      RunKnowsNumbers(states, steps, n - 1);
      StepKnowsNumbers(states[n - 1], steps[n - 1]);
    }
  }

  /** Whatever can still reach client c, or has reached it, is numbered m or later. */
  ghost predicate OnlyNewFor(s: State, c: nat, m: nat) {
    && c < |s.clients| && m <= |s.admitted|
    && (forall i :: 0 <= i < |s.events| ==> s.events[i].id >= m)
    && (forall t :: 0 <= t < |s.tracers| && s.tracers[t].Admitted? ==> s.tracers[t].o.id >= m)
    && (s.clients[c].Holding? ==> s.clients[c].o.id >= m)
    && (forall j :: 0 <= j < |s.sent| && s.sent[j].0 == c ==> s.sent[j].1.id >= m)
  }

  lemma OnlyNewStep(s: State, step: Step, c: nat, m: nat)
    requires Enabled(s, step) && OnlyNewFor(s, c, m)
    ensures OnlyNewFor(Next(s, step), c, m)
  {}

  lemma {:induction false} OnlyNewRun(s: State, steps: seq<Step>, end: State, c: nat, m: nat)
    requires Reaches(s, steps, end) && OnlyNewFor(s, c, m)
    ensures OnlyNewFor(end, c, m)
    decreases |steps|
  {
    if steps != [] {
      OnlyNewStep(s, steps[0], c, m);
      OnlyNewRun(Next(s, steps[0]), steps[1..], end, c, m);
    }
  }

  /** A client in its loop is sent the newest buffered occurrence if nobody else moves. */
  lemma Serves(s: State, c: nat) returns (end: State)
    requires s.streaming && c < |s.clients| && s.clients[c] == Testing && s.events != []
    ensures Reaches(s, [Test(c), Check(c, false), Pop(c), Send(c, true)], end)
    ensures end.sent == s.sent + [(c, s.events[|s.events| - 1])]
  {
    var s1 := Next(s, Test(c));
    var s2 := Next(s1, Check(c, false));
    var s3 := Next(s2, Pop(c));
    end := Next(s3, Send(c, true));
    ReachesCons(s3, Send(c, true), [], end);
    ReachesCons(s2, Pop(c), [Send(c, true)], end);
    ReachesCons(s1, Check(c, false), [Pop(c), Send(c, true)], end);
    ReachesCons(s, Test(c), [Check(c, false), Pop(c), Send(c, true)], end);
  }

  predicate IsStepOf(step: Step, c: nat) {
    step in [Test(c), Check(c, false), Pop(c), Send(c, true)]
  }

  /** What a client holds it sends first. */
  function InHand(s: State, c: nat): seq<(nat, Occurrence)>
    requires c < |s.clients|
  {
    if s.clients[c].Holding? then [(c, s.clients[c].o)] else []
  }

  /**
   While the flag is set, a client that has not left gets the newest buffered event by its own steps alone,
   wherever in its loop it stands.
   */
  lemma NewestIsServed(s: State, c: nat) returns (steps: seq<Step>, end: State)
    requires s.streaming && c < |s.clients| && s.clients[c] != Done && s.events != []
    ensures Reaches(s, steps, end) && forall i :: 0 <= i < |steps| ==> IsStepOf(steps[i], c)
    ensures end.sent == s.sent + InHand(s, c) + [(c, s.events[|s.events| - 1])]
  {
    var loop := [Test(c), Check(c, false), Pop(c), Send(c, true)];
    match s.clients[c]
    case Testing =>
      end := Serves(s, c);
      steps := loop;
    case Checking =>
      end := ServesPopping(Next(s, Check(c, false)), c);
      steps := [Check(c, false)] + [Pop(c), Send(c, true)];
      ReachesCons(s, Check(c, false), [Pop(c), Send(c, true)], end);
    case Popping =>
      end := ServesPopping(s, c);
      steps := [Pop(c), Send(c, true)];
    case Holding(_) =>
      end := Serves(Next(s, Send(c, true)), c);
      steps := [Send(c, true)] + loop;
      ReachesCons(s, Send(c, true), loop, end);
  }

  lemma ServesPopping(s: State, c: nat) returns (end: State)
    requires c < |s.clients| && s.clients[c] == Popping && s.events != []
    ensures Reaches(s, [Pop(c), Send(c, true)], end)
    ensures end.sent == s.sent + [(c, s.events[|s.events| - 1])]
  {
    end := Next(Next(s, Pop(c)), Send(c, true));
    ReachesCons(Next(s, Pop(c)), Send(c, true), [], end);
    ReachesCons(s, Pop(c), [Send(c, true)], end);
  }

  /** Client c has been sent an occurrence numbered below m. */
  ghost predicate GotOlder(s: State, c: nat, m: nat) {
    exists j :: 0 <= j < |s.sent| && s.sent[j].0 == c && s.sent[j].1.id < m
  }

  /** A client that connects now can be sent an occurrence that was admitted before. */
  ghost predicate NextClientMayGetOlder(s: State) {
    exists steps, end :: Reaches(s, [Connect] + steps, end) && GotOlder(end, |s.clients|, |s.admitted|)
  }

  ghost predicate AllIdle(s: State) {
    forall t :: 0 <= t < |s.tracers| ==> s.tracers[t] == Idle
  }

  lemma UnderWayIsDelivered(s: State)
    requires KnowsNumbers(s) && (s.events != [] || !AllIdle(s))
    ensures NextClientMayGetOlder(s)
  {
    var c, s0 := |s.clients|, Next(s, Connect);
    var loop := [Test(c), Check(c, false), Pop(c), Send(c, true)];
    var end;
    if s.events != [] {
      end := Serves(s0, c);
      ReachesCons(s, Connect, loop, end);
    } else {
      var t: nat :| t < |s.tracers| && s.tracers[t] != Idle;
      end := Serves(Next(s0, Append(t)), c);
      ReachesCons(s0, Append(t), loop, end);
      ReachesCons(s, Connect, [Append(t)] + loop, end);
    }
    assert end.sent[|s.sent|].0 == c;
    assert GotOlder(end, c, |s.admitted|);
  }

  lemma NothingUnderWay(s: State, steps: seq<Step>, end: State)
    requires KnowsNumbers(s) && s.events == [] && AllIdle(s) && Reaches(s, [Connect] + steps, end)
    ensures !GotOlder(end, |s.clients|, |s.admitted|)
  {
    assert ([Connect] + steps)[1..] == steps;
    OnlyNewRun(Next(s, Connect), steps, end, |s.clients|, |s.admitted|);
  }

  /**
   In every reachable state: a client that connects now can be sent an event admitted before it came exactly if one
   is buffered or a tracer is between its flag test and its append. Otherwise no run sends it such an event.
   */
  lemma OlderEventExactlyIfUnderWay(states: seq<State>, steps: seq<Step>, n: nat)
    requires IsRun(states, steps) && n < |states|
    ensures NextClientMayGetOlder(states[n]) <==> states[n].events != [] || !AllIdle(states[n])
  {
    var s := states[n];
    RunKnowsNumbers(states, steps, n);
    if s.events != [] || !AllIdle(s) {
      UnderWayIsDelivered(s);
    } else if NextClientMayGetOlder(s) {
      var after, end :| Reaches(s, [Connect] + after, end) && GotOlder(end, |s.clients|, |s.admitted|);
      NothingUnderWay(s, after, end);
    }
  }

  /** The client leaves while a tracer is between the flag test and the append. */
  lemma AppendsUnwatched(s: State, c: nat) returns (end: State)
    requires s.streaming && c < |s.clients| && s.clients[c] == Testing && s.tracers != [] && s.tracers[0].Admitted?
    ensures Reaches(s, [Test(c), Check(c, true), Append(0)], end) && !end.streaming && end.events != []
  {
    var s1 := Next(s, Test(c));
    var s2 := Next(s1, Check(c, true));
    end := Next(s2, Append(0));
    ReachesCons(s2, Append(0), [], end);
    ReachesCons(s1, Check(c, true), [Append(0)], end);
    ReachesCons(s, Test(c), [Check(c, true), Append(0)], end);
  }

  /** Whatever has happened before, a single tracer is enough to fill the buffer while nobody streams. */
  lemma BufferFillsUnwatched(s: State, event: Event)
    requires s.tracers != []
    ensures exists steps, end :: Reaches(s, steps, end) && !end.streaming && end.events != []
  {
    var c, s0 := |s.clients|, Next(s, Connect);
    var leave := [Test(c), Check(c, true), Append(0)];
    if s.tracers[0].Admitted? {
      var end := AppendsUnwatched(s0, c);
      ReachesCons(s, Connect, leave, end);
    } else {
      var end := AppendsUnwatched(Next(s0, Begin(0, event)), c);
      ReachesCons(s0, Begin(0, event), leave, end);
      ReachesCons(s, Connect, [Begin(0, event)] + leave, end);
    }
  }

  predicate NoConnect(steps: seq<Step>) {
    forall i :: 0 <= i < |steps| ==> steps[i] != Connect
  }

  /** With the flag clear and nothing under way, nothing gets under way until somebody connects. */
  lemma {:induction false} StaysQuiet(s: State, steps: seq<Step>, end: State)
    requires Reaches(s, steps, end) && NoConnect(steps)
    requires !s.streaming && s.events == [] && AllIdle(s)
    ensures !end.streaming && end.events == [] && AllIdle(end)
    decreases |steps|
  {
    if steps != [] {
      StaysQuiet(Next(s, steps[0]), steps[1..], end);
    }
  }

  /** Without a new client, an event can be buffered while nobody streams exactly if one is under way. */
  lemma UnwatchedExactlyIfUnderWay(s: State)
    requires !s.streaming
    ensures (exists steps, end :: Reaches(s, steps, end) && NoConnect(steps) && !end.streaming && end.events != []) <==>
            s.events != [] || !AllIdle(s)
  {
    if s.events != [] {
      assert Reaches(s, [], s) && NoConnect([]);
    } else if !AllIdle(s) {
      var t: nat :| t < |s.tracers| && s.tracers[t] != Idle;
      var end := Next(s, Append(t));
      ReachesCons(s, Append(t), [], end);
      assert [Append(t)] + [] == [Append(t)];
      assert NoConnect([Append(t)]) && !end.streaming && end.events != [];
    } else {
      forall steps, end | Reaches(s, steps, end) && NoConnect(steps) ensures end.events == [] {
        StaysQuiet(s, steps, end);
      }
    }
  }
}
