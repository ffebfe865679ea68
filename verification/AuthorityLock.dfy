/** The write-authority lock as a state machine: any number of writers, each taking one file
    operation at a time, any of them able to crash at any point. */
module AuthorityLock {
  import opened Lists

  type Pid = nat

  /** `id` tells apart the files that successively exist at the lock path. */
  datatype LockFile = LockFile(id: nat, pid: Option<Pid>)

  datatype Writer =
    | Idle
    | Reading(seen: nat, pid: Pid)    // read this pid in that file; about to test the process
    | Inspecting(seen: nat)           // the process was gone; about to remove the path
    | Creating(file: nat)             // created the file, pid not yet written
    | Holding(file: nat)
    | Crashed                         // or exited

  datatype System = System(lock: Option<LockFile>, writers: map<Pid, Writer>, next: nat)

  datatype Step =
    | Create(p: Pid)
    | WritePid(p: Pid)
    | WriteFails(p: Pid)
    | Read(p: Pid)
    | Test(p: Pid)
    | Remove(p: Pid)
    | Release(p: Pid)
    | Crash(p: Pid)
    | Restart(p: Pid)
    | Refuse(p: Pid)

  // ---------------------------------------------------------------------------------------
  // Transitions

  predicate Live(s: System, p: Pid) {
    p in s.writers && !s.writers[p].Crashed?
  }

  /** When a writer may take a step. A live process always tests as running, so a pid found in
      the file is acted on only when its process is gone. */
  predicate Enabled(s: System, step: Step) {
    && step.p in s.writers
    && var w := s.writers[step.p];
       match step
       case Create(_) => w.Idle? && s.lock.None?
       case WritePid(_) => w.Creating?
       case WriteFails(_) => w.Creating?
       case Read(_) => w.Idle? && s.lock.Some? && s.lock.value.pid.Some?
       case Test(_) => w.Reading? && !Live(s, w.pid)
       case Remove(_) => w.Inspecting?
       case Release(_) => w.Holding?
       case Crash(_) => !w.Crashed?
       case Restart(_) => w.Crashed?
       case Refuse(_) => (w.Idle? && s.lock.Some?) || w.Reading?
  }

  /** Removal, release and a failed initialisation all delete whatever file is at the path, and
      a pid is written into the file that the writer created, wherever that file now is. */
  function Next(s: System, step: Step): System
    requires Enabled(s, step)
  {
    var p := step.p;
    match step
    case Create(_) =>
      s.(lock := Some(LockFile(s.next, None)), writers := s.writers[p := Creating(s.next)], next := s.next + 1)
    case WritePid(_) =>
      var file := s.writers[p].file;
      var lock := if s.lock.Some? && s.lock.value.id == file then Some(LockFile(file, Some(p))) else s.lock;
      s.(lock := lock, writers := s.writers[p := Holding(file)])
    case WriteFails(_) => s.(lock := None, writers := s.writers[p := Idle])
    case Read(_) => s.(writers := s.writers[p := Reading(s.lock.value.id, s.lock.value.pid.value)])
    case Test(_) => s.(writers := s.writers[p := Inspecting(s.writers[p].seen)])
    case Remove(_) => s.(lock := None, writers := s.writers[p := Idle])
    case Release(_) => s.(lock := None, writers := s.writers[p := Idle])
    case Crash(_) => s.(writers := s.writers[p := Crashed])
    case Restart(_) => s.(writers := s.writers[p := Idle])
    case Refuse(_) => s.(writers := s.writers[p := Idle])
  }

  /** A writer that has created a lock file and not yet given it up. */
  predicate Owns(s: System, p: Pid) {
    p in s.writers && (s.writers[p].Creating? || s.writers[p].Holding?)
  }

  predicate Holds(s: System, p: Pid) {
    p in s.writers && s.writers[p].Holding?
  }

  ghost predicate Exclusive(s: System) {
    forall p, q :: Owns(s, p) && Owns(s, q) ==> p == q
  }

  /** All writers idle; a file left over from an earlier, vanished writer may be at the path. */
  ghost predicate Init(s: System) {
    && (forall p :: p in s.writers ==> s.writers[p].Idle? || s.writers[p].Crashed?)
    && (s.lock.Some? ==> s.lock.value.id < s.next)
  }

  /** The removal would delete a file whose creator is alive and still owns it: the file that was
      inspected is gone and another writer has taken the lock in between. */
  predicate Stray(s: System, step: Step) {
    && step.Remove? && s.lock.Some?
    && exists q :: q in s.writers && Owns(s, q) && s.writers[q].file == s.lock.value.id
  }

  ghost predicate Run(states: seq<System>, steps: seq<Step>) {
    && |states| == |steps| + 1 && Init(states[0])
    && forall i :: 0 <= i < |steps| ==> Enabled(states[i], steps[i]) && states[i + 1] == Next(states[i], steps[i])
  }

  /** What each step does to the path: taking puts a new file there, first without and then with the pid;
      giving up, failing to write the pid and reclaiming free it; nothing else touches it. */
  lemma PathAfter(s: System, step: Step)
    requires Enabled(s, step)
    ensures var t, p := Next(s, step), step.p;
            && (step.Create? ==> t.lock == Some(LockFile(s.next, None)) && t.writers[p] == Creating(s.next))
            && (step.WritePid? && s.lock.Some? && s.lock.value.id == s.writers[p].file ==>
                  t.lock == Some(LockFile(s.writers[p].file, Some(p))) && Holds(t, p))
            && (step.Release? || step.WriteFails? || step.Remove? ==> t.lock == None && t.writers[p] == Idle)
            && (step.Read? || step.Test? || step.Crash? || step.Restart? || step.Refuse? ==> t.lock == s.lock)
            && (step.Test? ==> !(s.writers[p].pid in s.writers && s.writers[s.writers[p].pid] != Crashed))
  {
  }

  // ---------------------------------------------------------------------------------------
  // Mutual exclusion

  ghost predicate Ownership(s: System) {
    // an owner's file is the one at the path, and no two writers own the same file
    && (forall p :: Owns(s, p) ==> s.lock.Some? && s.lock.value.id == s.writers[p].file)
    && (forall p, q :: Owns(s, p) && Owns(s, q) && s.writers[p].file == s.writers[q].file ==> p == q)
    // only its owner's pid is ever in an owned file, and not before it was written
    && (forall p :: Owns(s, p) && s.lock.Some? && s.lock.value.pid.Some? ==>
        s.lock.value.pid.value == p && s.writers[p].Holding?)
    && (s.lock.Some? ==> s.lock.value.id < s.next)
  }

  /** What a reclaimer has learnt stays true of the file it looked at, wherever that file now is. */
  ghost predicate Readings(s: System) {
    && (forall p :: p in s.writers && s.writers[p].Reading? ==>
          var w := s.writers[p];
          w.seen < s.next && (s.lock.Some? && s.lock.value.id == w.seen ==> s.lock.value.pid == Some(w.pid)))
    && (forall p, q :: p in s.writers && s.writers[p].Inspecting? && Owns(s, q) ==>
        s.writers[q].file != s.writers[p].seen)
    && (forall p :: p in s.writers && s.writers[p].Inspecting? ==> s.writers[p].seen < s.next)
  }

  ghost predicate Inv(s: System) {
    Ownership(s) && Readings(s)
  }

  lemma InvImpliesExclusive(s: System)
    requires Inv(s)
    ensures Exclusive(s)
  {
  }

  lemma OthersUnchanged(s: System, step: Step)
    requires Enabled(s, step)
    ensures forall p :: p != step.p ==> Owns(Next(s, step), p) == Owns(s, p)
    ensures forall p :: p != step.p && p in s.writers ==>
            p in Next(s, step).writers && Next(s, step).writers[p] == s.writers[p]
    ensures Next(s, step).writers.Keys == s.writers.Keys
  {
  }

  lemma StepKeepsOwnership(s: System, step: Step)
    requires Inv(s) && Enabled(s, step) && !Stray(s, step)
    ensures Ownership(Next(s, step))
  {
    OthersUnchanged(s, step);
  }

  lemma StepKeepsReadings(s: System, step: Step)
    requires Inv(s) && Enabled(s, step)
    ensures Readings(Next(s, step))
  {
    if step.Test? {
      TestKeepsReadings(s, step.p);
    } else if step.Create? || step.WritePid? {
      TakingKeepsReadings(s, step);
    } else {
      OthersUnchanged(s, step);
    }
  }

  lemma TestKeepsReadings(s: System, p: Pid)
    requires Inv(s) && Enabled(s, Test(p))
    ensures Readings(Next(s, Test(p)))
  {
    OthersUnchanged(s, Test(p));
    assert forall q :: Owns(s, q) ==> Live(s, q);
  }

  lemma TakingKeepsReadings(s: System, step: Step)
    requires Inv(s) && Enabled(s, step) && (step.Create? || step.WritePid?)
    ensures Readings(Next(s, step))
  {
    OthersUnchanged(s, step);
  }

  lemma StepKeepsInv(s: System, step: Step)
    requires Inv(s) && Enabled(s, step) && !Stray(s, step)
    ensures Inv(Next(s, step))
  {
    StepKeepsOwnership(s, step);
    StepKeepsReadings(s, step);
  }

  /** Over every interleaving of any number of writers, with crashes and restarts anywhere, at most
      one live writer owns the lock, provided no removal is stray. */
  lemma {:induction false} MutualExclusion(states: seq<System>, steps: seq<Step>, n: nat)
    requires Run(states, steps) && n <= |steps|
    requires forall i :: 0 <= i < |steps| ==> !Stray(states[i], steps[i])
    ensures Inv(states[n]) && Exclusive(states[n])
  {
    if n > 0 {
      MutualExclusion(states, steps, n - 1);
      assert Enabled(states[n - 1], steps[n - 1]) && states[n - 1 + 1] == Next(states[n - 1], steps[n - 1]);
      StepKeepsInv(states[n - 1], steps[n - 1]);
    }
    InvImpliesExclusive(states[n]);
  }

  /** The removal deletes the file whose pid was read and tested, if there is a file at all. */
  predicate SameFile(s: System, step: Step)
    requires Enabled(s, step) && step.Remove?
  {
    s.lock.Some? ==> s.lock.value.id == s.writers[step.p].seen
  }

  lemma SameFileIsNotStray(s: System, step: Step)
    requires Inv(s) && Enabled(s, step) && step.Remove? && SameFile(s, step)
    ensures !Stray(s, step)
  {
  }

  /** Hence exclusion holds over every run in which each removal deletes the file that was inspected,
      however many steps of other writers come in between. */
  lemma {:induction false} SameFileReclaimExcludes(states: seq<System>, steps: seq<Step>, n: nat)
    requires Run(states, steps) && n <= |steps|
    requires forall i :: 0 <= i < |steps| && steps[i].Remove? ==> SameFile(states[i], steps[i])
    ensures Inv(states[n]) && Exclusive(states[n])
    ensures forall i :: 0 <= i < n ==> !Stray(states[i], steps[i])
  {
    if n > 0 {
      SameFileReclaimExcludes(states, steps, n - 1);
      var i := n - 1;
      assert Enabled(states[i], steps[i]) && states[i + 1] == Next(states[i], steps[i]);
      if steps[i].Remove? {
        SameFileIsNotStray(states[i], steps[i]);
      }
      StepKeepsInv(states[i], steps[i]);
    }
  }

  /** Reading, testing and removing as one step deletes the file that was read. */
  lemma AtomicReclaimIsSameFile(s: System, p: Pid)
    requires Enabled(s, Read(p)) && Enabled(Next(s, Read(p)), Test(p))
    ensures var t := Next(Next(s, Read(p)), Test(p));
            Enabled(t, Remove(p)) && SameFile(t, Remove(p))
  {
  }

  /** So exclusion holds in particular when reclaiming is atomic. */
  lemma {:induction false} AtomicReclaimExcludes(states: seq<System>, steps: seq<Step>, n: nat)
    requires Run(states, steps) && n <= |steps|
    requires forall i :: 0 <= i < |steps| && steps[i].Remove? ==>
               i > 1 && steps[i - 1] == Test(steps[i].p) && steps[i - 2] == Read(steps[i].p)
    ensures Inv(states[n]) && Exclusive(states[n])
  {
    forall i | 0 <= i < |steps| && steps[i].Remove?
      ensures Enabled(states[i], steps[i]) && SameFile(states[i], steps[i])
    {
      var j, k := i - 2, i - 1;
      assert Enabled(states[j], steps[j]) && states[j + 1] == Next(states[j], steps[j]);
      assert Enabled(states[k], steps[k]) && states[k + 1] == Next(states[k], steps[k]);
      AtomicReclaimIsSameFile(states[j], steps[i].p);
    }
    SameFileReclaimExcludes(states, steps, n);
  }

  /** Conversely every stray removal loses exclusion: the remover can take the lock at once while
      the writer whose file it deleted still owns its own. */
  lemma StrayRemovalLosesExclusion(s: System, p: Pid)
    requires Inv(s) && Enabled(s, Remove(p)) && Stray(s, Remove(p))
    ensures var t := Next(s, Remove(p));
            Enabled(t, Create(p)) && !Exclusive(Next(t, Create(p)))
  {
    var t := Next(s, Remove(p));
    var u := Next(t, Create(p));
    var q :| q in s.writers && Owns(s, q) && s.writers[q].file == s.lock.value.id;
    assert q != p && Owns(u, q) && Owns(u, p);
  }

  function Execute(s: System, steps: seq<Step>): Option<System>
    decreases |steps|
  {
    if steps == [] then Some(s)
    else if Enabled(s, steps[0]) then Execute(Next(s, steps[0]), steps[1..])
    else None
  }

  ghost predicate Ends(s: System, steps: seq<Step>, p: Pid, q: Pid) {
    Execute(s, steps).Some? && Holds(Execute(s, steps).value, p) && Holds(Execute(s, steps).value, q)
  }

  lemma {:induction false} FirstStep(s: System, step: Step, rest: seq<Step>)
    requires Enabled(s, step)
    ensures Execute(s, [step] + rest) == Execute(Next(s, step), rest)
  {
    assert ([step] + rest)[1..] == rest;
  }

  /** A reclaimer of an older file removes whatever a second writer has put at the path, and both hold. */
  lemma {:induction false} LateRemoval(s: System, p: Pid, q: Pid)
    requires p != q && p in s.writers && q in s.writers && s.writers[p].Inspecting? && s.writers[q].Idle?
             && s.lock.None?
    ensures Ends(s, [Create(q)] + ([WritePid(q)] + ([Remove(p)] + ([Create(p)] + ([WritePid(p)] + [])))), p, q)
  {
    var s1 := Next(s, Create(q));
    var s2 := Next(s1, WritePid(q));
    var s3 := Next(s2, Remove(p));
    var s4 := Next(s3, Create(p));
    FirstStep(s, Create(q), [WritePid(q)] + ([Remove(p)] + ([Create(p)] + ([WritePid(p)] + []))));
    FirstStep(s1, WritePid(q), [Remove(p)] + ([Create(p)] + ([WritePid(p)] + [])));
    FirstStep(s2, Remove(p), [Create(p)] + ([WritePid(p)] + []));
    FirstStep(s3, Create(p), [WritePid(p)] + []);
    FirstStep(s4, WritePid(p), []);
  }

  /** The code reads, tests and removes in separate file operations, so this can happen when two writers
      reclaim the same left-over file, the first of them being the slower one. */
  lemma {:induction false} SplitReclaimCanLoseTheLock()
    ensures var s := System(Some(LockFile(0, Some(9))), map[1 := Idle, 2 := Idle], 1);
            var late := [Create(2)] + ([WritePid(2)] + ([Remove(1)] + ([Create(1)] + ([WritePid(1)] + []))));
            Init(s) && Ends(s, [Read(1)] + ([Test(1)] + ([Read(2)] + ([Test(2)] + ([Remove(2)] + late)))), 1, 2)
  {
    var late := [Create(2)] + ([WritePid(2)] + ([Remove(1)] + ([Create(1)] + ([WritePid(1)] + []))));
    var s := System(Some(LockFile(0, Some(9))), map[1 := Idle, 2 := Idle], 1);
    var s1 := Next(s, Read(1));
    var s2 := Next(s1, Test(1));
    var s3 := Next(s2, Read(2));
    var s4 := Next(s3, Test(2));
    FirstStep(s, Read(1), [Test(1)] + ([Read(2)] + ([Test(2)] + ([Remove(2)] + late))));
    FirstStep(s1, Test(1), [Read(2)] + ([Test(2)] + ([Remove(2)] + late)));
    FirstStep(s2, Read(2), [Test(2)] + ([Remove(2)] + late));
    FirstStep(s3, Test(2), [Remove(2)] + late);
    FirstStep(s4, Remove(2), late);
    LateRemoval(Next(s4, Remove(2)), 1, 2);
  }

  /** It can also happen with one reclaimer: the holder it read about releases the lock and exits before
      its process is tested. */
  lemma {:induction false} HolderExitCanLoseTheLock()
    ensures var s := System(None, map[1 := Idle, 2 := Idle, 3 := Idle], 0);
            var late := [Create(2)] + ([WritePid(2)] + ([Remove(1)] + ([Create(1)] + ([WritePid(1)] + []))));
            var exits := [Read(1)] + ([Release(3)] + ([Crash(3)] + ([Test(1)] + late)));
            Init(s) && Ends(s, [Create(3)] + ([WritePid(3)] + exits), 1, 2)
  {
    var late := [Create(2)] + ([WritePid(2)] + ([Remove(1)] + ([Create(1)] + ([WritePid(1)] + []))));
    var s := System(None, map[1 := Idle, 2 := Idle, 3 := Idle], 0);
    var s1 := Next(s, Create(3));
    var s2 := Next(s1, WritePid(3));
    FirstStep(s, Create(3), [WritePid(3)] + ([Read(1)] + ([Release(3)] + ([Crash(3)] + ([Test(1)] + late)))));
    FirstStep(s1, WritePid(3), [Read(1)] + ([Release(3)] + ([Crash(3)] + ([Test(1)] + late))));
    HolderExits(s2, 1, 2, 3);
  }

  lemma {:induction false} HolderExits(s: System, p: Pid, q: Pid, holder: Pid)
    requires p != q && p != holder && q != holder && p in s.writers && q in s.writers && holder in s.writers
    requires s.writers[p].Idle? && s.writers[q].Idle? && s.writers[holder].Holding?
    requires s.lock.Some? && s.lock.value.pid == Some(holder)
    ensures var late := [Create(q)] + ([WritePid(q)] + ([Remove(p)] + ([Create(p)] + ([WritePid(p)] + []))));
            Ends(s, [Read(p)] + ([Release(holder)] + ([Crash(holder)] + ([Test(p)] + late))), p, q)
  {
    var late := [Create(q)] + ([WritePid(q)] + ([Remove(p)] + ([Create(p)] + ([WritePid(p)] + []))));
    var s1 := Next(s, Read(p));
    var s2 := Next(s1, Release(holder));
    var s3 := Next(s2, Crash(holder));
    FirstStep(s, Read(p), [Release(holder)] + ([Crash(holder)] + ([Test(p)] + late)));
    FirstStep(s1, Release(holder), [Crash(holder)] + ([Test(p)] + late));
    FirstStep(s2, Crash(holder), [Test(p)] + late);
    FirstStep(s3, Test(p), late);
    LateRemoval(Next(s3, Test(p)), p, q);
  }

  // ---------------------------------------------------------------------------------------
  // A file without a pid

  /** No writer is in the middle of anything. */
  ghost predicate Quiet(s: System) {
    forall p :: p in s.writers ==> s.writers[p].Idle? || s.writers[p].Crashed?
  }

  /** Nobody is at work and the file at the path names no process: its writer crashed before it wrote. */
  ghost predicate Stuck(s: System) {
    Quiet(s) && s.lock.Some? && s.lock.value.pid.None?
  }

  lemma StuckStays(s: System, step: Step)
    requires Stuck(s) && Enabled(s, step)
    ensures Stuck(Next(s, step))
  {
  }

  /** Then no run ever gives the lock to anyone again. */
  lemma {:induction false} StuckForever(s: System, steps: seq<Step>, p: Pid)
    requires Stuck(s) && Execute(s, steps).Some?
    ensures Stuck(Execute(s, steps).value) && !Owns(Execute(s, steps).value, p)
    decreases |steps|
  {
    if steps != [] {
      StuckStays(s, steps[0]);
      StuckForever(Next(s, steps[0]), steps[1..], p);
    }
  }

  ghost predicate CanHold(s: System, p: Pid) {
    exists steps :: Execute(s, steps).Some? && Holds(Execute(s, steps).value, p)
  }

  lemma {:induction false} CanHoldByStep(s: System, step: Step, p: Pid)
    requires Enabled(s, step) && CanHold(Next(s, step), p)
    ensures CanHold(s, p)
  {
    var rest :| Execute(Next(s, step), rest).Some? && Holds(Execute(Next(s, step), rest).value, p);
    FirstStep(s, step, rest);
    assert Execute(s, [step] + rest).Some?;
  }

  lemma {:induction false} FreePathCanHold(s: System, p: Pid)
    requires p in s.writers && s.writers[p].Idle? && s.lock.None?
    ensures CanHold(s, p)
  {
    var created := Next(s, Create(p));
    var held := Next(created, WritePid(p));
    assert Execute(held, []) == Some(held);
    CanHoldByStep(created, WritePid(p), p);
    CanHoldByStep(s, Create(p), p);
  }

  /** When nobody is at work and no live process is named, an idle writer can get the lock exactly when the
      path is free or the file at it names a process: a file without a pid is never reclaimed. */
  lemma {:induction false} CanHoldExactly(s: System, p: Pid)
    requires Quiet(s) && p in s.writers && s.writers[p].Idle?
    requires s.lock.Some? && s.lock.value.pid.Some? ==> !Live(s, s.lock.value.pid.value)
    ensures CanHold(s, p) <==> !Stuck(s)
  {
    if Stuck(s) {
      if CanHold(s, p) {
        var steps :| Execute(s, steps).Some? && Holds(Execute(s, steps).value, p);
        StuckForever(s, steps, p);
        assert false;
      }
    } else if s.lock.None? {
      FreePathCanHold(s, p);
    } else {
      var s1 := Next(s, Read(p));
      var s2 := Next(s1, Test(p));
      var s3 := Next(s2, Remove(p));
      FreePathCanHold(s3, p);
      CanHoldByStep(s2, Remove(p), p);
      CanHoldByStep(s1, Test(p), p);
      CanHoldByStep(s, Read(p), p);
    }
  }

  /** A crash between creating the file and writing the pid leads there. */
  lemma {:induction false} CrashBeforePidSticks(s: System, p: Pid)
    requires Quiet(s) && s.lock.None? && p in s.writers && s.writers[p].Idle?
    ensures var created := Next(s, Create(p));
            Enabled(created, Crash(p)) && Stuck(Next(created, Crash(p)))
  {
  }
}
