/** The IRQ-save spinlock of src/hal/memory.rs as a step system over any number of cores.

    A core that calls a locked operation reads its interrupt flag, stores it in the shared
    `saved_if`, executes `cli`, tries the compare-exchange until it succeeds, works on the shared
    object, clears the lock flag, reads `saved_if` back and executes `sti` if it is set.  Each of
    these is one step, and steps of different cores interleave in any order.  The work on the
    object is two steps, a load into registers and a store back, so that a second core inside the
    critical section would lose an update.  Atomics are sequentially consistent.

    `H` is the protected object, `O` its operations and `R` their results. */
module SpinLock {
  datatype Pc<H, O, R> =
    | Idle
    | GotFlags(op: O, ifSet: bool)
    | Saved(op: O)
    | Spinning(op: O)
    | Critical(op: O)
    | Loaded(op: O, copy: H)
    | Ran(result: R)
    | Released(result: R)
    | Enabling(result: R)

  /** `called` lists the operations that the core was asked for, `got` the results it has returned. */
  datatype Core<H, O, R> = Core(pc: Pc<H, O, R>, interrupts: bool, called: seq<O>, got: seq<R>)

  /** `acquired` lists the operations in the order in which their cores got the lock, `owners` these
      cores, and `results` the results stored so far. */
  datatype System<H, O, R> =
    System(flag: bool, savedIf: bool, object_: H, acquired: seq<O>, owners: seq<nat>, results: seq<R>, cores: seq<Core<H, O, R>>)

  predicate Inside<H, O, R>(c: Core<H, O, R>) { c.pc.Critical? || c.pc.Loaded? || c.pc.Ran? }

  /** Core `c` still owes the store of its operation. */
  predicate Pending<H, O, R>(c: Core<H, O, R>) { c.pc.Critical? || c.pc.Loaded? }

  /** Step of core `i`; an idle core may start any operation. */
  ghost predicate Step<H, O, R>(apply: (H, O) -> (H, R), s: System<H, O, R>, s': System<H, O, R>, i: nat) {
    && i < |s.cores| == |s'.cores|
    && var c, c' := s.cores[i], s'.cores[i];
       && s'.cores == s.cores[i := c']
       && match c.pc
          case Idle =>
            && c'.pc.GotFlags? && s' == s.(cores := s'.cores)
            && c' == c.(pc := GotFlags(c'.pc.op, c.interrupts), called := c.called + [c'.pc.op])
          case GotFlags(op, ifSet) =>
            c' == c.(pc := Saved(op)) && s' == s.(savedIf := ifSet, cores := s'.cores)
          case Saved(op) =>
            c' == c.(pc := Spinning(op), interrupts := false) && s' == s.(cores := s'.cores)
          case Spinning(op) =>
            if s.flag then s' == s
            else c' == c.(pc := Critical(op)) &&
                 s' == s.(flag := true, acquired := s.acquired + [op], owners := s.owners + [i], cores := s'.cores)
          case Critical(op) =>
            c' == c.(pc := Loaded(op, s.object_)) && s' == s.(cores := s'.cores)
          case Loaded(op, copy) =>
            var (h, r) := apply(copy, op);
            c' == c.(pc := Ran(r)) &&
            s' == s.(object_ := h, results := s.results + [r], cores := s'.cores)
          case Ran(r) =>
            c' == c.(pc := Released(r)) && s' == s.(flag := false, cores := s'.cores)
          case Released(r) =>
            && c' == (if s.savedIf then c.(pc := Enabling(r)) else c.(pc := Idle, got := c.got + [r]))
            && s' == s.(cores := s'.cores)
          case Enabling(r) =>
            c' == c.(pc := Idle, interrupts := true, got := c.got + [r]) && s' == s.(cores := s'.cores)
  }

  predicate Initial<H, O, R>(s: System<H, O, R>) {
    && !s.flag && s.acquired == [] && s.owners == [] && s.results == []
    && forall i :: 0 <= i < |s.cores| ==> s.cores[i].pc.Idle? && s.cores[i].called == [] && s.cores[i].got == []
  }

  ghost predicate SomeStep<H, O, R>(apply: (H, O) -> (H, R), s: System<H, O, R>, s': System<H, O, R>) {
    exists i: nat :: Step(apply, s, s', i)
  }

  /** `run` is a run of the system: any interleaving of core steps. */
  ghost predicate IsRun<H(!new), O(!new), R(!new)>(apply: (H, O) -> (H, R), run: seq<System<H, O, R>>) {
    && run != [] && Initial(run[0])
    && forall t :: 0 < t < |run| ==> SomeStep(apply, run[t - 1], run[t])
  }

  // The object and the results of a sequential run

  function After<H, O, R>(apply: (H, O) -> (H, R), h: H, ops: seq<O>): H {
    if ops == [] then h else apply(After(apply, h, ops[..|ops| - 1]), ops[|ops| - 1]).0
  }

  function Answers<H, O, R>(apply: (H, O) -> (H, R), h: H, ops: seq<O>): seq<R> {
    if ops == [] then []
    else Answers(apply, h, ops[..|ops| - 1]) + [apply(After(apply, h, ops[..|ops| - 1]), ops[|ops| - 1]).1]
  }

  lemma AfterNext<H, O, R>(apply: (H, O) -> (H, R), h: H, ops: seq<O>, n: nat)
    requires n < |ops|
    ensures After(apply, h, ops[..n + 1]) == apply(After(apply, h, ops[..n]), ops[n]).0
    ensures Answers(apply, h, ops[..n + 1]) == Answers(apply, h, ops[..n]) + [apply(After(apply, h, ops[..n]), ops[n]).1]
  {
    assert ops[..n + 1][..n] == ops[..n];
  }

  // Safety

  predicate Exclusive<H, O, R>(s: System<H, O, R>) {
    && (forall i, j :: 0 <= i < j < |s.cores| ==> !(Inside(s.cores[i]) && Inside(s.cores[j])))
    && (s.flag <==> exists i :: 0 <= i < |s.cores| && Inside(s.cores[i]))
  }

  /** Interrupts are off from `cli` to the release of the lock and on to `sti`. */
  predicate Masked<H, O, R>(s: System<H, O, R>) {
    forall i :: 0 <= i < |s.cores| ==>
      s.cores[i].pc.Idle? || s.cores[i].pc.GotFlags? || s.cores[i].pc.Saved? || !s.cores[i].interrupts
  }

  /** The object is what a sequential run in acquisition order gives, up to the operation of the
      core inside that has not stored yet. */
  ghost predicate Serial<H, O, R>(apply: (H, O) -> (H, R), h: H, s: System<H, O, R>) {
    var n := |s.results|;
    && (if exists i :: 0 <= i < |s.cores| && Pending(s.cores[i]) then |s.acquired| == n + 1 else |s.acquired| == n)
    && s.object_ == After(apply, h, s.acquired[..n])
    && s.results == Answers(apply, h, s.acquired[..n])
    && forall i :: 0 <= i < |s.cores| && Pending(s.cores[i]) ==>
         s.cores[i].pc.op == s.acquired[n] && (s.cores[i].pc.Loaded? ==> s.cores[i].pc.copy == s.object_)
  }

  lemma StepExclusive<H, O, R>(apply: (H, O) -> (H, R), s: System<H, O, R>, s': System<H, O, R>, i: nat)
    requires Exclusive(s) && Masked(s) && Step(apply, s, s', i)
    ensures Exclusive(s') && Masked(s')
  {
    assert forall j :: 0 <= j < |s.cores| && j != i ==> s'.cores[j] == s.cores[j];
    if Inside(s.cores[i]) && !Inside(s'.cores[i]) {
      assert !exists j :: 0 <= j < |s'.cores| && Inside(s'.cores[j]);
    } else if Inside(s'.cores[i]) {
      assert exists j :: 0 <= j < |s'.cores| && Inside(s'.cores[j]);
    }
  }

  lemma StepSerial<H, O, R>(apply: (H, O) -> (H, R), h: H, s: System<H, O, R>, s': System<H, O, R>, i: nat)
    requires Exclusive(s) && Serial(apply, h, s) && Step(apply, s, s', i)
    ensures Serial(apply, h, s')
  {
    hide After, Answers;
    var n, c := |s.results|, s.cores[i];
    if c.pc.Spinning? && !s.flag {
      assert s'.acquired[..n] == s.acquired[..n];
      assert Pending(s'.cores[i]);
    } else if c.pc.Critical? {
      assert Pending(s'.cores[i]);
    } else if c.pc.Loaded? {
      AfterNext(apply, h, s.acquired, n);
      assert !exists j :: 0 <= j < |s'.cores| && Pending(s'.cores[j]);
    } else {
      assert forall j :: 0 <= j < |s.cores| ==> Pending(s'.cores[j]) == Pending(s.cores[j]);
    }
  }

  // Every core is served with its own calls

  /** The elements of `xs` that belong to `i`. */
  function Mine<T>(xs: seq<T>, owners: seq<nat>, i: nat): seq<T>
    requires |xs| <= |owners|
  {
    var n := |xs| - 1;
    if xs == [] then [] else Mine(xs[..n], owners, i) + if owners[n] == i then [xs[n]] else []
  }

  lemma {:induction false} MineOwners<T>(xs: seq<T>, owners: seq<nat>, more: seq<nat>, i: nat)
    requires |xs| <= |owners|
    ensures Mine(xs, owners + more, i) == Mine(xs, owners, i)
  {
    if xs != [] {
      MineOwners(xs[..|xs| - 1], owners, more, i);
    }
  }

  lemma MineNext<T>(xs: seq<T>, owners: seq<nat>, x: T, i: nat)
    requires |xs| < |owners|
    ensures Mine(xs + [x], owners, i) == Mine(xs, owners, i) + if owners[|xs|] == i then [x] else []
  {
    assert (xs + [x])[..|xs|] == xs;
  }

  /** The operations of the core that have not got the lock yet, and the results not returned yet. */
  function Asking<H, O, R>(c: Core<H, O, R>): seq<O> {
    if c.pc.GotFlags? || c.pc.Saved? || c.pc.Spinning? then [c.pc.op] else []
  }

  function Holding<H, O, R>(c: Core<H, O, R>): seq<R> {
    if c.pc.Ran? || c.pc.Released? || c.pc.Enabling? then [c.pc.result] else []
  }

  predicate Counted<H, O, R>(s: System<H, O, R>) {
    && |s.owners| == |s.acquired| && |s.results| <= |s.owners|
    && (forall i :: 0 <= i < |s.cores| && Pending(s.cores[i]) ==> |s.owners| == |s.results| + 1 && s.owners[|s.results|] == i)
    && ((forall i :: 0 <= i < |s.cores| ==> !Pending(s.cores[i])) ==> |s.owners| == |s.results|)
  }

  ghost predicate Served<H, O, R>(s: System<H, O, R>, i: nat)
    requires Counted(s) && i < |s.cores|
  {
    && s.cores[i].called == Mine(s.acquired, s.owners, i) + Asking(s.cores[i])
    && Mine(s.results, s.owners, i) == s.cores[i].got + Holding(s.cores[i])
  }

  /** Each core has got the lock for exactly the operations it was asked for, in order, and returns
      exactly the results of these. */
  ghost predicate Fair<H, O, R>(s: System<H, O, R>) {
    Counted(s) && forall i :: 0 <= i < |s.cores| ==> Served(s, i)
  }

  lemma StepCounted<H, O, R>(apply: (H, O) -> (H, R), s: System<H, O, R>, s': System<H, O, R>, i: nat)
    requires Exclusive(s) && Counted(s) && Step(apply, s, s', i)
    ensures Counted(s')
  {
    var c := s.cores[i];
    assert forall j :: 0 <= j < |s.cores| && j != i ==> s'.cores[j] == s.cores[j];
    if c.pc.Spinning? && !s.flag {
      assert forall j :: 0 <= j < |s.cores| ==> !Pending(s.cores[j]);
      assert Pending(s'.cores[i]);
    } else if Pending(c) {
      assert forall j :: 0 <= j < |s.cores| && j != i ==> !Pending(s.cores[j]);
    } else {
      assert forall j :: 0 <= j < |s.cores| ==> Pending(s'.cores[j]) == Pending(s.cores[j]);
    }
  }

  lemma StepFair<H, O, R>(apply: (H, O) -> (H, R), s: System<H, O, R>, s': System<H, O, R>, i: nat)
    requires Exclusive(s) && Fair(s) && Step(apply, s, s', i)
    ensures Fair(s')
  {
    hide Exclusive, Mine;
    StepCounted(apply, s, s', i);
    forall j | 0 <= j < |s'.cores| ensures Served(s', j) {
      StepServed(apply, s, s', i, j);
    }
  }

  lemma CountedBounds<H, O, R>(s: System<H, O, R>)
    requires Counted(s)
    ensures |s.owners| == |s.acquired| && |s.results| <= |s.owners|
    ensures forall i :: 0 <= i < |s.cores| && Pending(s.cores[i]) ==> |s.results| < |s.owners| && s.owners[|s.results|] == i
  {
  }

  /** The lists of the system and what a step adds to them. */
  lemma StepLists<H, O, R>(apply: (H, O) -> (H, R), s: System<H, O, R>, s': System<H, O, R>, i: nat)
    requires Step(apply, s, s', i)
    ensures i < |s.cores|
    ensures var c := s.cores[i];
            && |s'.cores| == |s.cores| && (forall j :: 0 <= j < |s.cores| && j != i ==> s'.cores[j] == s.cores[j])
            && (if c.pc.Spinning? && !s.flag then s'.acquired == s.acquired + [c.pc.op] && s'.owners == s.owners + [i]
                else s'.acquired == s.acquired && s'.owners == s.owners)
            && (if c.pc.Loaded? then s'.results == s.results + [apply(c.pc.copy, c.pc.op).1] else s'.results == s.results)
  {
  }

  lemma StepServed<H, O, R>(apply: (H, O) -> (H, R), s: System<H, O, R>, s': System<H, O, R>, i: nat, j: nat)
    requires Counted(s) && j < |s.cores| && Served(s, j) && Step(apply, s, s', i) && Counted(s')
    ensures j < |s'.cores| && Served(s', j)
  {
    hide Mine, Counted, Step;
    CountedBounds(s);
    CountedBounds(s');
    StepLists(apply, s, s', i);
    var c := s.cores[i];
    if c.pc.Spinning? && !s.flag {
      MineOwners(s.acquired, s.owners, [i], j);
      MineOwners(s.results, s.owners, [i], j);
      MineNext(s.acquired, s'.owners, c.pc.op, j);
    } else if c.pc.Loaded? {
      MineNext(s.results, s.owners, apply(c.pc.copy, c.pc.op).1, j);
    }
    if i == j {
      StepOwn(apply, s, s', i);
    }
  }

  /** What a step does to the lists of its own core. */
  lemma StepOwn<H, O, R>(apply: (H, O) -> (H, R), s: System<H, O, R>, s': System<H, O, R>, i: nat)
    requires Step(apply, s, s', i)
    ensures var c, c' := s.cores[i], s'.cores[i];
            && (if c.pc.Spinning? && !s.flag then c'.called == c.called && Asking(c) == [c.pc.op] && Asking(c') == []
                else (c'.called == c.called && Asking(c') == Asking(c)) || (Asking(c) == [] && c'.called == c.called + Asking(c')))
            && (if c.pc.Loaded? then c'.got == c.got && Holding(c) == [] && Holding(c') == [apply(c.pc.copy, c.pc.op).1]
                else (c'.got == c.got && Holding(c') == Holding(c)) || (Holding(c') == [] && c'.got == c.got + Holding(c)))
  {
  }

  /** At most one core is inside, the flag tells exactly that, interrupts are masked there, the object
      and all results are those of a sequential run in acquisition order, and every core returns the
      results of its own calls. */
  lemma {:induction false} RunSafe<H(!new), O(!new), R(!new)>(apply: (H, O) -> (H, R), run: seq<System<H, O, R>>, t: nat)
    requires IsRun(apply, run) && t < |run|
    ensures Exclusive(run[t]) && Masked(run[t]) && Serial(apply, run[0].object_, run[t]) && Fair(run[t])
  {
    hide Exclusive, Masked, Serial, Fair, Step, Initial;
    if t == 0 {
      StartSafe(apply, run[0]);
    } else {
      RunSafe(apply, run, t - 1);
      assert SomeStep(apply, run[t - 1], run[t]);
      var i: nat :| Step(apply, run[t - 1], run[t], i);
      StepExclusive(apply, run[t - 1], run[t], i);
      StepSerial(apply, run[0].object_, run[t - 1], run[t], i);
      StepFair(apply, run[t - 1], run[t], i);
    }
  }

  lemma StartSafe<H, O, R>(apply: (H, O) -> (H, R), s: System<H, O, R>)
    requires Initial(s)
    ensures Exclusive(s) && Masked(s) && Serial(apply, s.object_, s) && Fair(s)
  {
  }

  // The interrupt flag

  /** Every core that is idle has the interrupt flag it started with. */
  predicate Restored<H, O, R>(s0: System<H, O, R>, s: System<H, O, R>) {
    |s.cores| == |s0.cores| &&
    forall i :: 0 <= i < |s.cores| && s.cores[i].pc.Idle? ==> s.cores[i].interrupts == s0.cores[i].interrupts
  }

  ghost predicate AlwaysRestored<H(!new), O(!new), R(!new)>(apply: (H, O) -> (H, R), n: nat) {
    forall run: seq<System<H, O, R>>, t: nat ::
      IsRun(apply, run) && |run[0].cores| == n && t < |run| ==> Restored(run[0], run[t])
  }

  /** On one core the shared `saved_if` is that core's own flag. */
  predicate OwnFlag<H, O, R>(s: System<H, O, R>, own: bool) {
    |s.cores| == 1 &&
    var c := s.cores[0];
    match c.pc
    case Idle => c.interrupts == own
    case GotFlags(_, ifSet) => c.interrupts == own == ifSet
    case Saved(_) => s.savedIf == own == c.interrupts
    case Enabling(_) => own
    case _ => s.savedIf == own && !c.interrupts
  }

  lemma {:induction false} OneCoreRestores<H(!new), O(!new), R(!new)>(apply: (H, O) -> (H, R), run: seq<System<H, O, R>>, t: nat)
    requires IsRun(apply, run) && t < |run| && |run[0].cores| == 1
    ensures OwnFlag(run[t], run[0].cores[0].interrupts)
  {
    if t > 0 {
      OneCoreRestores(apply, run, t - 1);
      assert SomeStep(apply, run[t - 1], run[t]);
    }
  }

  lemma {:induction false} CoresFixed<H(!new), O(!new), R(!new)>(apply: (H, O) -> (H, R), run: seq<System<H, O, R>>, t: nat)
    requires IsRun(apply, run) && t < |run|
    ensures |run[t].cores| == |run[0].cores|
  {
    if t > 0 {
      CoresFixed(apply, run, t - 1);
      assert SomeStep(apply, run[t - 1], run[t]);
    }
  }

  /** The start of a run in which core 0 runs with interrupts on and every other with them off. */
  function Start<H, O, R>(h: H, n: nat): (s: System<H, O, R>)
    requires n >= 2
    ensures Initial(s) && |s.cores| == n && s.cores[0].interrupts
  {
    System(false, false, h, [], [], [], seq(n, i => Core(Idle, i == 0, [], [])))
  }

  function With<H, O, R>(s: System<H, O, R>, i: nat, c: Core<H, O, R>): System<H, O, R>
    requires i < |s.cores|
  {
    s.(cores := s.cores[i := c])
  }

  /** Core 0 takes the lock; core 1 overwrites `saved_if` before it waits; core 0 reads that back. */
  function Clobbered<H, O, R>(apply: (H, O) -> (H, R), h: H, op: O, n: nat): (run: seq<System<H, O, R>>)
    requires n >= 2
  {
    var s0 := Start<H, O, R>(h, n);
    var (h1, r) := apply(h, op);
    var c := Core(Idle, true, [op], []);
    var d := Core(Idle, false, [op], []);
    var s1 := With(s0, 0, c.(pc := GotFlags(op, true)));
    var s2 := With(s1, 0, c.(pc := Saved(op))).(savedIf := true);
    var s3 := With(s2, 0, c.(pc := Spinning(op), interrupts := false));
    var s4 := With(s3, 0, c.(pc := Critical(op), interrupts := false)).(flag := true, acquired := [op], owners := [0]);
    var s5 := With(s4, 1, d.(pc := GotFlags(op, false)));
    var s6 := With(s5, 1, d.(pc := Saved(op))).(savedIf := false);
    var s7 := With(s6, 0, c.(pc := Loaded(op, h), interrupts := false));
    var s8 := With(s7, 0, c.(pc := Ran(r), interrupts := false)).(object_ := h1, results := [r]);
    var s9 := With(s8, 0, c.(pc := Released(r), interrupts := false)).(flag := false);
    var s10 := With(s9, 0, c.(interrupts := false, got := [r]));
    [s0, s1, s2, s3, s4, s5, s6, s7, s8, s9, s10]
  }

  lemma ClobberedRuns<H(!new), O(!new), R(!new)>(apply: (H, O) -> (H, R), h: H, op: O, n: nat)
    requires n >= 2
    ensures IsRun(apply, Clobbered(apply, h, op, n))
  {
    hide Step, Clobbered;
    var run := Clobbered(apply, h, op, n);
    ClobberedStart(apply, h, op, n);
    forall t | 0 < t < |run| ensures SomeStep(apply, run[t - 1], run[t]) {
      if t <= 4 {
        ClobberedTakes(apply, h, op, n, t);
      } else if t <= 7 {
        ClobberedWaits(apply, h, op, n, t);
      } else {
        ClobberedLeaves(apply, h, op, n, t);
      }
    }
  }

  lemma ClobberedStart<H(!new), O(!new), R(!new)>(apply: (H, O) -> (H, R), h: H, op: O, n: nat)
    requires n >= 2
    ensures var run := Clobbered(apply, h, op, n); |run| == 11 && Initial(run[0])
  {
  }

  lemma ClobberedTakes<H(!new), O(!new), R(!new)>(apply: (H, O) -> (H, R), h: H, op: O, n: nat, t: nat)
    requires n >= 2 && 0 < t <= 4
    ensures var run := Clobbered(apply, h, op, n); Step(apply, run[t - 1], run[t], 0)
  {
  }

  lemma ClobberedWaits<H(!new), O(!new), R(!new)>(apply: (H, O) -> (H, R), h: H, op: O, n: nat, t: nat)
    requires n >= 2 && 4 < t <= 7
    ensures var run := Clobbered(apply, h, op, n); Step(apply, run[t - 1], run[t], if t == 7 then 0 else 1)
  {
  }

  lemma ClobberedLeaves<H(!new), O(!new), R(!new)>(apply: (H, O) -> (H, R), h: H, op: O, n: nat, t: nat)
    requires n >= 2 && 7 < t <= 10
    ensures var run := Clobbered(apply, h, op, n); Step(apply, run[t - 1], run[t], 0)
  {
  }

  /** The documentation says that `unlock` restores the saved interrupt flag.  It does so on a
      single core, and for two or more cores some run leaves a core with interrupts off. */
  lemma RestoredIffOneCore<H(!new), O(!new), R(!new)>(apply: (H, O) -> (H, R), h: H, op: O, n: nat)
    ensures AlwaysRestored(apply, n) <==> n <= 1
  {
    if n >= 2 {
      var run := Clobbered(apply, h, op, n);
      ClobberedRuns(apply, h, op, n);
      assert !Restored(run[0], run[10]);
    } else {
      forall run: seq<System<H, O, R>>, t: nat | IsRun(apply, run) && |run[0].cores| == n && t < |run|
        ensures Restored(run[0], run[t])
      {
        CoresFixed(apply, run, t);
        if n == 1 {
          OneCoreRestores(apply, run, t);
        }
      }
    }
  }
}
