/** How a pool file is created and published: mps_slab_open_or_create as steps of processes
    that run at the same time (src/mps_slab.c:245-392). */
module Publish {

  /** The file at the path. `inits` are the processes that have run mps_slab_init on it,
      `hooked` says whether on_init has completed; until it is `published` its mode is 0400
      and an unprivileged open for writing is refused. */
  datatype File = Absent | File(owner: nat, published: bool, inits: seq<nat>, hooked: bool)

  /** The system call or library call that a process is about to make. The first line is
      mps_slab_open, the second mps_slab_create; Returned is a return with a pool, Failed one
      with NULL, or the death of the process. */
  datatype Pc =
    | Open1 | Sleep | Open2 | Map | Close
    | Create | Truncate | MapNew | Init | OnInit | Chmod | CloseNew
    | Returned | Failed

  datatype State = State(file: File, procs: seq<Pc>)

  ghost predicate Start(s: State) {
    s.file == Absent && forall p :: 0 <= p < |s.procs| ==> s.procs[p] == Open1
  }

  /** One call of process `p`: it finds the file `f` and leaves it as `g`, and goes from `a` to
      `b`. Any call may fail, and any process may die. The first open also leads to a creation
      where the file is published, but with a mode that refuses this process. */
  ghost predicate Call(p: nat, f: File, a: Pc, g: File, b: Pc) {
    match a
    case Open1 => g == f && (b == Failed || b == Create || (f.File? && f.published && b == Map))
    case Create =>
      if f.Absent? then (g == File(p, false, [], false) && b == Truncate) || (g == f && b == Failed)
      else g == f && (b == Sleep || b == Failed)
    case Sleep => g == f && (b == Open2 || b == Failed)
    case Open2 => g == f && (b == Failed || (f.File? && f.published && b == Map))
    case Map => g == f && (b == Close || b == Failed)
    case Close => g == f && (b == Returned || b == Failed)
    case Truncate => g == f && (b == MapNew || b == Failed)
    case MapNew => g == f && (b == Init || b == Failed)
    case Init => f.File? && (b == OnInit || b == Failed) && (g == f.(inits := f.inits + [p]) || (g == f && b == Failed))
    case OnInit => f.File? && ((g == f.(hooked := true) && b == Chmod) || (g == f && b == Failed))
    case Chmod => f.File? && ((g == f.(published := true) && (b == CloseNew || b == Failed)) || (g == f && b == Failed))
    case CloseNew => g == f && (b == Returned || b == Failed)
    case Returned => false
    case Failed => false
  }

  ghost predicate Next(s: State, t: State) {
    |t.procs| == |s.procs| &&
    exists p: nat ::
      p < |s.procs| && Call(p, s.file, s.procs[p], t.file, t.procs[p]) && t.procs == s.procs[p := t.procs[p]]
  }

  ghost predicate NextAt(states: seq<State>, i: int)
    requires 0 <= i < |states| - 1
  {
    Next(states[i], states[i + 1])
  }

  ghost predicate Run(states: seq<State>) {
    states != [] && Start(states[0]) && forall i {:trigger NextAt(states, i)} ::
      0 <= i < |states| - 1 ==> NextAt(states, i)
  }

  /** The process is between the creation of the file and its publication. */
  predicate Creating(a: Pc) {
    a == Truncate || a == MapNew || a == Init || a == OnInit || a == Chmod || a == CloseNew
  }

  /** The process has the pool open, or had it open on return. */
  predicate HasOpen(a: Pc) {
    a == Map || a == Close || a == Returned || a == CloseNew
  }

  /** What the stage of a process says about the file. */
  ghost predicate Stage(p: nat, a: Pc, f: File) {
    (Creating(a) ==> f.File? && f.owner == p) &&
    (a == Truncate || a == MapNew || a == Init ==> f.inits == [] && !f.hooked && !f.published) &&
    (a == OnInit ==> f.inits == [p] && !f.hooked && !f.published) &&
    (a == Chmod ==> f.inits == [p] && f.hooked && !f.published) &&
    (HasOpen(a) ==> f.File? && f.published)
  }

  ghost predicate FileOk(f: File) {
    f.File? ==> (f.inits == [] || f.inits == [f.owner]) && (f.published ==> f.inits == [f.owner] && f.hooked)
  }

  ghost predicate Invariant(s: State) {
    FileOk(s.file) && forall p: nat {:trigger Stage(p, s.procs[p], s.file)} ::
      p < |s.procs| ==> Stage(p, s.procs[p], s.file)
  }

  lemma {:induction false} StepKeeps(s: State, t: State)
    requires Invariant(s) && Next(s, t)
    ensures Invariant(t)
    ensures s.file.File? && s.file.published ==> t.file == s.file
  {
    var p: nat :| p < |s.procs| && Call(p, s.file, s.procs[p], t.file, t.procs[p]) &&
      t.procs == s.procs[p := t.procs[p]];
    assert Stage(p, s.procs[p], s.file);
    forall q: nat | q < |t.procs| ensures Stage(q, t.procs[q], t.file) {
      assert Stage(q, s.procs[q], s.file);
    }
  }

  lemma {:induction false} RunKeeps(states: seq<State>, i: nat)
    requires Run(states) && i < |states|
    ensures Invariant(states[i]) && |states[i].procs| == |states[0].procs|
  {
    if i == 0 {
      forall p: nat | p < |states[0].procs| ensures Stage(p, states[0].procs[p], states[0].file) {
        assert states[0].procs[p] == Open1;
      }
    } else {
      RunKeeps(states, i - 1);
      assert NextAt(states, i - 1);
      StepKeeps(states[i - 1], states[i]);
    }
  }

  /** In every run at most one process initialises the pool, and it is the one that created
      the file. */
  lemma {:induction false} InitialisedOnce(states: seq<State>, i: nat)
    requires Run(states) && i < |states| && states[i].file.File?
    ensures states[i].file.inits == [] || states[i].file.inits == [states[i].file.owner]
  {
    RunKeeps(states, i);
  }

  /** A process that returns a pool has mapped one that is initialised and published, whatever
      becomes of its creator and of the other processes. */
  lemma {:induction false} ReturnedIsReady(states: seq<State>, i: nat, p: nat)
    requires Run(states) && i < |states| && p < |states[i].procs| && states[i].procs[p] == Returned
    ensures
      var f := states[i].file;
      f.File? && f.published && f.inits == [f.owner] && f.hooked
  {
    RunKeeps(states, i);
    assert Stage(p, states[i].procs[p], states[i].file);
  }

  /** A published pool is never created or initialised again. */
  lemma {:induction false} PublishedStays(states: seq<State>, i: nat, j: nat)
    requires Run(states) && i <= j < |states| && states[i].file.File? && states[i].file.published
    ensures states[j].file == states[i].file
  {
    if i < j {
      PublishedStays(states, i, j - 1);
      RunKeeps(states, j - 1);
      assert NextAt(states, j - 1);
      StepKeeps(states[j - 1], states[j]);
    }
  }

  /** The price: when the creator dies before it publishes, no process ever gets the pool. */
  lemma {:induction false} CreatorDied(states: seq<State>, i: nat, j: nat, p: nat)
    requires Run(states) && i <= j < |states| && states[i].file.File? && !states[i].file.published
    requires states[i].file.owner < |states[i].procs| && states[i].procs[states[i].file.owner] == Failed
    requires p < |states[j].procs|
    ensures states[j].procs[p] != Returned && states[j].file == states[i].file && |states[j].procs| == |states[i].procs|
    ensures states[j].procs[states[i].file.owner] == Failed
  {
    RunKeeps(states, i);
    if i < j {
      RunKeeps(states, j - 1);
      CreatorDied(states, i, j - 1, states[i].file.owner);
      assert NextAt(states, j - 1);
      DeadStep(states[j - 1], states[j], states[i].file.owner);
    }
    RunKeeps(states, j);
    assert Stage(p, states[j].procs[p], states[j].file);
  }

  lemma {:induction false} DeadStep(s: State, t: State, o: nat)
    requires Invariant(s) && Next(s, t) && s.file.File? && !s.file.published && s.file.owner == o
    requires o < |s.procs| && s.procs[o] == Failed
    ensures t.file == s.file && |t.procs| == |s.procs| && t.procs[o] == Failed
  {
    var q: nat :| q < |s.procs| && Call(q, s.file, s.procs[q], t.file, t.procs[q]) &&
      t.procs == s.procs[q := t.procs[q]];
    assert Stage(q, s.procs[q], s.file);
  }
}
