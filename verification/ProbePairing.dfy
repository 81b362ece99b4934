/**
 The entry and return probes of tracer/open/open.go, which dockeropenbreakout and tcpdrop repeat: the entry stores
 a record in the hash `tmp` under the thread's 64-bit id, the return completes, submits and deletes it.
 */
module ProbePairing {

  const IDS: nat := 0x1_0000_0000_0000_0000

  /** The result of bpf_get_current_pid_tgid: the process in the upper half, the thread in the lower. */
  type Id = n: nat | n < IDS

  function Upper(id: Id): nat {
    id / 0x1_0000_0000
  }

  datatype Data = Data(pid: nat, tgid: nat, ret: int, comm: string, filename: string)

  /** What the kernel knows at an entry; the return value is not known yet. */
  datatype Call = Call(tgid: nat, comm: string, filename: string)

  datatype Step = Entry(id: Id, call: Call) | Return(id: Id, ret: int)

  function EntryData(id: Id, call: Call): Data {
    Data(Upper(id), call.tgid, 0, call.comm, call.filename)
  }

  /** Updating a full hash fails silently unless the key is already there. */
  function Update(tmp: map<Id, Data>, capacity: nat, id: Id, data: Data): map<Id, Data> {
    if id in tmp || |tmp| < capacity then tmp[id := data] else tmp
  }

  function After(tmp: map<Id, Data>, capacity: nat, step: Step): map<Id, Data> {
    match step
    case Entry(id, call) => Update(tmp, capacity, id, EntryData(id, call))
    case Return(id, _) => tmp - {id}
  }

  /** What a step submits to the ring buffer: at most one record. */
  function Submitted(tmp: map<Id, Data>, step: Step): seq<Data> {
    if step.Return? && step.id in tmp then [tmp[step.id].(ret := step.ret)] else []
  }

  class Probes {
    var tmp: map<Id, Data>
    const capacity: nat

    constructor (capacity: nat)
      ensures tmp == map[] && this.capacity == capacity
    {
      tmp := map[];
      this.capacity := capacity;
    }

    method TraceEntry(pid: Id, call: Call)
      modifies this
      ensures tmp == After(old(tmp), capacity, Entry(pid, call))
    {
      var data := Data(pid / 0x1_0000_0000, 0, 0, "", "");
      data := data.(tgid := call.tgid);
      data := data.(comm := call.comm, filename := call.filename);
      if pid in tmp || |tmp| < capacity {
        tmp := tmp[pid := data];
      }
    }

    method TraceReturn(id: Id, rc: int) returns (events: seq<Data>)
      modifies this
      ensures tmp == After(old(tmp), capacity, Return(id, rc))
      ensures events == Submitted(old(tmp), Return(id, rc))
    {
      events := [];
      if id !in tmp {
        return;
      }
      var data := tmp[id];
      data := data.(ret := rc);
      events := [data];
      tmp := tmp - {id};
    }
  }

  // ---------- runs ----------

  /** The hash after a trace, from an empty one. */
  function Tmp(steps: seq<Step>, capacity: nat): map<Id, Data> {
    if steps == [] then map[]
    else After(Tmp(steps[..|steps| - 1], capacity), capacity, steps[|steps| - 1])
  }

  /** What step i of a trace submits. */
  function SubmittedAt(steps: seq<Step>, capacity: nat, i: nat): seq<Data>
    requires i < |steps|
  {
    Submitted(Tmp(steps[..i], capacity), steps[i])
  }

  /** Step j is the thread's last step among the first n, and it is an entry. */
  predicate OpenSince(steps: seq<Step>, n: nat, id: Id, j: nat) {
    && j < n <= |steps| && steps[j].Entry? && steps[j].id == id
    && forall k :: j < k < n ==> steps[k].id != id
  }

  ghost predicate IsOpen(steps: seq<Step>, id: Id) {
    exists j: nat :: OpenSince(steps, |steps|, id, j)
  }

  /** The threads whose last step was an entry. */
  ghost function OpenIds(steps: seq<Step>): set<Id> {
    set j | 0 <= j < |steps| && IsOpen(steps, steps[j].id) :: steps[j].id
  }

  /** At no point are more threads inside the probed call than the hash has room for. */
  ghost predicate Fits(steps: seq<Step>, capacity: nat) {
    forall n :: 0 <= n <= |steps| ==> |OpenIds(steps[..n])| <= capacity
  }

  /** The thread's open entry after one more step. */
  lemma OpenStep(steps: seq<Step>, id: Id)
    requires steps != []
    ensures var last := steps[|steps| - 1];
            IsOpen(steps, id) <==> if last.id == id then last.Entry? else IsOpen(steps[..|steps| - 1], id)
  {
    var n := |steps| - 1;
    var front := steps[..n];
    if steps[n].id == id {
      if steps[n].Entry? {
        assert OpenSince(steps, |steps|, id, n);
      } else {
        forall j: nat | OpenSince(steps, |steps|, id, j) ensures false {}
      }
    } else {
      forall j: nat ensures OpenSince(steps, |steps|, id, j) <==> OpenSince(front, |front|, id, j) {
        assert OpenSince(front, |front|, id, j) ==> forall k :: j < k < |steps| && k < n ==> steps[k] == front[k];
      }
    }
  }

  /** Whatever the capacity, a stored record belongs to its thread's latest entry, and that thread is open. */
  lemma {:induction false} StoredIsLatestEntry(steps: seq<Step>, capacity: nat, id: Id) returns (j: nat)
    requires id in Tmp(steps, capacity)
    ensures OpenSince(steps, |steps|, id, j)
    ensures Tmp(steps, capacity)[id] == EntryData(id, steps[j].call)
  {
    var n := |steps| - 1;
    var front := steps[..n];
    if steps[n].id == id {
      j := n;
      StoredAfterOwnEntry(steps, capacity);
    } else {
      j := StoredIsLatestEntry(front, capacity, id);
    }
  }

  lemma StoredAfterOwnEntry(steps: seq<Step>, capacity: nat)
    requires steps != [] && steps[|steps| - 1].id in Tmp(steps, capacity)
    ensures var last := steps[|steps| - 1];
            last.Entry? && Tmp(steps, capacity)[last.id] == EntryData(last.id, last.call)
  {}

  lemma FitsPrefix(steps: seq<Step>, capacity: nat, m: nat)
    requires Fits(steps, capacity) && m <= |steps|
    ensures Fits(steps[..m], capacity)
  {
    forall n | 0 <= n <= m ensures |OpenIds(steps[..m][..n])| <= capacity {
      assert steps[..m][..n] == steps[..n];
    }
  }

  lemma OpenIdsMeaning(steps: seq<Step>, id: Id)
    ensures id in OpenIds(steps) <==> IsOpen(steps, id)
  {
    if IsOpen(steps, id) {
      var j: nat :| OpenSince(steps, |steps|, id, j);
      assert steps[j].id == id;
    }
  }

  /** With room for every open thread the hash holds exactly the threads whose last step was an entry. */
  lemma {:induction false} DomainIsOpenIds(steps: seq<Step>, capacity: nat)
    requires Fits(steps, capacity)
    ensures Tmp(steps, capacity).Keys == OpenIds(steps)
  {
    if steps != [] {
      var n := |steps| - 1;
      var front, last := steps[..n], steps[n];
      FitsPrefix(steps, capacity, n);
      DomainIsOpenIds(front, capacity);
      forall id ensures id in OpenIds(steps) <==> if last.id == id then last.Entry? else id in OpenIds(front) {
        OpenStep(steps, id);
        OpenIdsMeaning(steps, id);
        OpenIdsMeaning(front, id);
      }
      if last.Entry? {
        var tmp := Tmp(front, capacity);
        assert OpenIds(steps) == OpenIds(front) + {last.id};
        assert steps[..|steps|] == steps;
        assert last.id !in tmp ==> |tmp| == |tmp.Keys| && |OpenIds(steps)| == |tmp.Keys| + 1;
      } else {
        assert OpenIds(steps) == OpenIds(front) - {last.id};
      }
    }
  }

  /**
   Soundness at any capacity: a submission happens at a return, after an entry of the same thread with no step of
   that thread in between, and carries that entry's data, this return's value and the upper half of the id.
   */
  lemma SubmissionHasItsEntry(steps: seq<Step>, capacity: nat, i: nat) returns (j: nat)
    requires i < |steps| && SubmittedAt(steps, capacity, i) != []
    ensures steps[i].Return? && OpenSince(steps, i, steps[i].id, j)
    ensures SubmittedAt(steps, capacity, i) == [EntryData(steps[i].id, steps[j].call).(ret := steps[i].ret)]
    ensures var data, call := SubmittedAt(steps, capacity, i)[0], steps[j].call;
            && data.pid * 0x1_0000_0000 <= steps[i].id < (data.pid + 1) * 0x1_0000_0000
            && data.tgid == call.tgid && data.comm == call.comm && data.filename == call.filename
            && data.ret == steps[i].ret
  {
    j := StoredIsLatestEntry(steps[..i], capacity, steps[i].id);
    assert steps[..i][j] == steps[j];
    forall k | j < k < i ensures steps[k].id != steps[i].id {
      assert steps[..i][k] == steps[k];
    }
  }

  lemma OpenInPrefix(steps: seq<Step>, i: nat, id: Id)
    requires i <= |steps|
    ensures IsOpen(steps[..i], id) <==> exists j: nat :: OpenSince(steps, i, id, j)
  {
    forall j: nat ensures OpenSince(steps[..i], i, id, j) <==> OpenSince(steps, i, id, j) {}
  }

  /** Completeness with room for every open thread: a return submits exactly if its thread's previous step was an entry. */
  lemma SubmissionExactlyAfterEntry(steps: seq<Step>, capacity: nat, i: nat)
    requires Fits(steps, capacity) && i < |steps|
    ensures SubmittedAt(steps, capacity, i) != [] <==>
            steps[i].Return? && exists j: nat :: OpenSince(steps, i, steps[i].id, j)
  {
    var front, id := steps[..i], steps[i].id;
    FitsPrefix(steps, capacity, i);
    DomainIsOpenIds(front, capacity);
    OpenIdsMeaning(front, id);
    OpenInPrefix(steps, i, id);
  }

  /** The hash after the first n steps, without slices. */
  function TmpAt(steps: seq<Step>, capacity: nat, n: nat): map<Id, Data>
    requires n <= |steps|
  {
    if n == 0 then map[] else After(TmpAt(steps, capacity, n - 1), capacity, steps[n - 1])
  }

  lemma {:induction false} TmpAtIsTmp(steps: seq<Step>, capacity: nat, n: nat)
    requires n <= |steps|
    ensures TmpAt(steps, capacity, n) == Tmp(steps[..n], capacity)
  {
    if n > 0 {
      TmpAtIsTmp(steps, capacity, n - 1);
      assert steps[..n][..n - 1] == steps[..n - 1];
    }
  }

  lemma OtherStepKeeps(tmp: map<Id, Data>, capacity: nat, step: Step, id: Id)
    requires step.id != id
    ensures id in After(tmp, capacity, step) <==> id in tmp
  {}

  lemma {:induction false} OtherStepsKeep(steps: seq<Step>, capacity: nat, m: nat, n: nat, id: Id)
    requires m <= n <= |steps| && forall k :: m <= k < n ==> steps[k].id != id
    ensures id in TmpAt(steps, capacity, n) <==> id in TmpAt(steps, capacity, m)
  {
    if m < n {
      OtherStepsKeep(steps, capacity, m, n - 1, id);
      OtherStepKeeps(TmpAt(steps, capacity, n - 1), capacity, steps[n - 1], id);
    }
  }

  /** Further steps of other threads neither add nor remove a thread's record. */
  lemma RecordStays(steps: seq<Step>, capacity: nat, m: nat, n: nat, id: Id)
    requires m <= n <= |steps|
    requires forall k :: m <= k < n ==> steps[k].id != id
    ensures id in Tmp(steps[..n], capacity) <==> id in Tmp(steps[..m], capacity)
  {
    OtherStepsKeep(steps, capacity, m, n, id);
    TmpAtIsTmp(steps, capacity, m);
    TmpAtIsTmp(steps, capacity, n);
  }

  /** An entry leaves a record exactly if it had room. */
  lemma EntryStores(steps: seq<Step>, capacity: nat, j: nat)
    requires j < |steps| && steps[j].Entry?
    ensures steps[j].id in Tmp(steps[..j + 1], capacity) <==> HadRoom(steps, capacity, j)
  {
    assert steps[..j + 1][..j] == steps[..j];
  }

  /** The entry at step j found its thread's key in the hash, or room for it. */
  predicate HadRoom(steps: seq<Step>, capacity: nat, j: nat)
    requires j < |steps|
  {
    steps[j].id in Tmp(steps[..j], capacity) || |Tmp(steps[..j], capacity)| < capacity
  }

  /** At any capacity: a return submits exactly if its thread's previous step was an entry that had room. */
  lemma SubmissionExactlyIfRoom(steps: seq<Step>, capacity: nat, i: nat)
    requires i < |steps|
    ensures SubmittedAt(steps, capacity, i) != [] <==>
            steps[i].Return? && exists j: nat :: OpenSince(steps, i, steps[i].id, j) && HadRoom(steps, capacity, j)
  {
    var id := steps[i].id;
    forall j: nat | OpenSince(steps, i, id, j)
      ensures HadRoom(steps, capacity, j) <==> id in Tmp(steps[..i], capacity)
    {
      RoomDecides(steps, capacity, i, j);
    }
    if SubmittedAt(steps, capacity, i) != [] {
      var j := SubmissionHasItsEntry(steps, capacity, i);
      assert OpenSince(steps, i, id, j) && HadRoom(steps, capacity, j);
    }
  }

  lemma RoomDecides(steps: seq<Step>, capacity: nat, i: nat, j: nat)
    requires i < |steps| && OpenSince(steps, i, steps[i].id, j)
    ensures HadRoom(steps, capacity, j) <==> steps[i].id in Tmp(steps[..i], capacity)
  {
    RecordStays(steps, capacity, j + 1, i, steps[i].id);
    EntryStores(steps, capacity, j);
  }

  predicate DistinctEntries(steps: seq<Step>) {
    && (forall i :: 0 <= i < |steps| ==> steps[i].Entry?)
    && forall i, j :: 0 <= i < j < |steps| ==> steps[i].id != steps[j].id
  }

  lemma StoredHasEntered(steps: seq<Step>, capacity: nat, id: Id)
    requires id in Tmp(steps, capacity)
    ensures exists j :: 0 <= j < |steps| && steps[j].id == id
  {
    var j := StoredIsLatestEntry(steps, capacity, id);
    assert steps[j].id == id;
  }

  lemma {:induction false} DistinctEntriesFill(steps: seq<Step>, capacity: nat)
    requires DistinctEntries(steps) && |steps| <= capacity
    ensures |Tmp(steps, capacity)| == |steps|
  {
    if steps != [] {
      var n := |steps| - 1;
      DistinctEntriesFill(steps[..n], capacity);
      if steps[n].id in Tmp(steps[..n], capacity) {
        StoredHasEntered(steps[..n], capacity, steps[n].id);
      }
    }
  }

  lemma NoRoomLeft(steps: seq<Step>, n: nat)
    requires n < |steps| && DistinctEntries(steps[..n]) && forall i :: 0 <= i < n ==> steps[i].id != steps[n].id
    ensures !HadRoom(steps, n, n)
  {
    DistinctEntriesFill(steps[..n], n);
    if steps[n].id in Tmp(steps[..n], n) {
      StoredHasEntered(steps[..n], n, steps[n].id);
    }
  }

  lemma UnreportedDoesNotFit(steps: seq<Step>, capacity: nat, i: nat, j: nat)
    requires i < |steps| && steps[i].Return? && OpenSince(steps, i, steps[i].id, j)
    requires SubmittedAt(steps, capacity, i) == []
    ensures !Fits(steps, capacity)
  {
    if Fits(steps, capacity) {
      SubmissionExactlyAfterEntry(steps, capacity, i);
    }
  }

  /** At every capacity: once as many threads have entered, a further entry is dropped and its return goes unreported. */
  lemma FullHashDropsEntries(entered: seq<Step>, id: Id, call: Call, ret: int)
    requires DistinctEntries(entered) && forall i :: 0 <= i < |entered| ==> entered[i].id != id
    ensures var steps, n := entered + [Entry(id, call), Return(id, ret)], |entered|;
            SubmittedAt(steps, n, n + 1) == [] && OpenSince(steps, n + 1, id, n) && !Fits(steps, n)
  {
    var steps, n := entered + [Entry(id, call), Return(id, ret)], |entered|;
    assert steps[..n] == entered && steps[n] == Entry(id, call) && steps[n + 1] == Return(id, ret);
    NoRoomLeft(steps, n);
    assert OpenSince(steps, n + 1, id, n);
    RoomDecides(steps, n, n + 1, n);
    UnreportedDoesNotFit(steps, n, n + 1, n);
  }

  // ---------- other threads ----------

  /** The steps of one thread. */
  function Own(steps: seq<Step>, id: Id): seq<Step> {
    if steps == [] then []
    else
      var last := steps[|steps| - 1];
      Own(steps[..|steps| - 1], id) + (if last.id == id then [last] else [])
  }

  /** With room for every open thread, what a thread has stored depends on its own steps only. */
  lemma {:induction false} OthersDoNotInterfere(steps: seq<Step>, capacity: nat, id: Id)
    requires Fits(steps, capacity)
    ensures var tmp, own := Tmp(steps, capacity), Tmp(Own(steps, id), 1);
            (id in tmp <==> id in own) && (id in tmp ==> tmp[id] == own[id]) && own.Keys <= {id}
  {
    if steps != [] {
      var n := |steps| - 1;
      var front, last := steps[..n], steps[n];
      FitsPrefix(steps, capacity, n);
      OthersDoNotInterfere(front, capacity, id);
      DomainIsOpenIds(steps, capacity);
      OpenStep(steps, last.id);
      OpenIdsMeaning(steps, last.id);
      var own := Own(front, id);
      if last.id == id {
        assert (own + [last])[..|own|] == own;
        assert Tmp(own, 1).Keys <= {id};
        if id !in Tmp(own, 1) {
          assert Tmp(own, 1).Keys == {};
        }
        if last.Entry? {
          StoredAfterOwnEntry(steps, capacity);
        }
      } else {
        assert own + [] == own;
      }
    }
  }
}
