/** The kernel heap: `HeapCore` behind the spinlock (src/hal/memory.rs:66-123).

    The cores take the lock for the calls, and store into their blocks without it.  A core inside
    works on what it loaded and writes back the words and counters that its call changed, so that
    stores of other cores may fall between its load and its write. */
module LockedHeap {
  import opened HeapState
  import opened HeapOps
  import Layout = HeapLayout
  import Blocks = HeapBlocks
  import Runs = HeapRuns
  import Spares = HeapSpares
  import Forged = HeapForged
  import opened SpinLock

  datatype Call = Alloc(size: nat, align: nat) | Dealloc(p: nat)

  /** Result pointer, and whether a warning is logged after the lock is released. */
  datatype Reply = Reply(ptr: nat, warned: bool)

  /** The work between `lock` and `unlock`: counters before, the heap operation, counters after. */
  function Serve(h: Heap, call: Call): (Heap, Reply) {
    if !Inv(h) then (h, Reply(NULL, false)) else
    match call
    case Alloc(size, align) =>
      var before := h.oomCount + h.alignFailCount;
      var (h', p) := HeapOps.Alloc(h, size, align);
      (h', Reply(p, h'.oomCount + h'.alignFailCount != before))
    case Dealloc(p) =>
      var before := h.badFreeCount + h.doubleFreeCount;
      var h' := Free(h, p);
      (h', Reply(NULL, h'.badFreeCount + h'.doubleFreeCount != before))
  }

  /** `p` is the payload of a block of `h'`, large enough for the request and apart from every payload
      that was live in `h`. */
  ghost predicate Granted(h: Heap, h': Heap, k: nat, i: nat, size: nat, p: nat) {
    && Block(h'.segs, k, i, p) && h'.segs[k].chunks[i].size >= size + 16
    && Blocks.ApartFromLive(h, h'.segs[k].At(i), h'.segs[k].chunks[i].size)
  }

  ghost predicate IsBlock(h: Heap, p: nat) { exists k: nat, i: nat :: Block(h.segs, k, i, p) }

  /** What an allocation replies: a block exactly when the request is not refused, and a warning with every
      refusal except one for arithmetic overflow. */
  lemma AllocReplies(h: Heap, size: nat, align: nat)
    requires Inv(h)
    ensures var (h', r) := Serve(h, Alloc(size, align));
            && (r.ptr == NULL <==> align > 16 || Overflows(size) || Blocks.NothingSuits(h, size))
            && (r.ptr != NULL ==> exists k: nat, i: nat :: Granted(h, h', k, i, size, r.ptr))
            && (r.warned <==> r.ptr == NULL && (align > 16 || !Overflows(size)))
  {
    hide Inv, HeapOps.Alloc, Overflows, Blocks.NothingSuits, Block, Blocks.ApartFromLive, Least;
    var (h', r) := Serve(h, Alloc(size, align));
    Blocks.AllocRefuses(h, size, align);
    if r.ptr != NULL {
      var k, i, least := Blocks.AllocGrants(h, size, align);
      GrantIs(h, h', k, i, size, least, r.ptr);
    }
  }

  lemma GrantIs(h: Heap, h': Heap, k: nat, i: nat, size: nat, least: nat, p: nat)
    requires Block(h'.segs, k, i, p) && Least(size, least) && least <= h'.segs[k].chunks[i].size
    requires Blocks.ApartFromLive(h, p - 16, h'.segs[k].chunks[i].size)
    ensures Granted(h, h', k, i, size, p)
  {
  }

  /** A free warns exactly about pointers to no block, except one that passes for a block and whose merge
      gets through. */
  lemma DeallocWarns(h: Heap, p: nat)
    requires Inv(h)
    ensures var r := Serve(h, Dealloc(p)).1;
            r.warned <==> !IsBlock(h, p) && !(Judge(h, p).Forged? && Forged.Through(h, Judge(h, p).k, p))
  {
    hide Inv, Release, Forge, Judge, Block;
    var v := Judge(h, p);
    FreesIffBlock(h, p);
    if v.Frees? {
      Blocks.BlockIsFreed(h, v.k, v.i, p);
    } else if v.Forged? {
      Forged.FreeTouches(h, v.k, p);
      if Forged.Through(h, v.k, p) {
        ForgeCounts(h, v.k, p);
      }
    }
  }

  lemma FreesIffBlock(h: Heap, p: nat)
    requires Inv(h)
    ensures Judge(h, p).Frees? <==> IsBlock(h, p)
  {
    hide Inv, Judge;
    if IsBlock(h, p) {
      var k: nat, i: nat :| Block(h.segs, k, i, p);
      JudgeBlock(h, k, i, p);
    }
  }

  lemma ForgeCounts(h: Heap, k: nat, p: nat)
    requires Forged.IsForged(h, k, p) && Forged.Through(h, k, p)
    ensures Free(h, p).badFreeCount == h.badFreeCount && Free(h, p).doubleFreeCount == h.doubleFreeCount
  {
    hide Inv;
  }

  function Op(call: Call): Runs.Op {
    match call
    case Alloc(size, align) => Runs.Request(size, align)
    case Dealloc(p) => Runs.Return(p)
  }

  lemma {:induction false} RunsExtend(h: Heap, ops: seq<Runs.Op>, h1: Heap, op: Runs.Op)
    requires Runs.Runs(h, ops, h1) && Inv(h1) && Runs.Legal(h1, op)
    ensures Runs.Runs(h, ops + [op], Runs.Apply(h1, op))
    decreases |ops|
  {
    hide Inv, Runs.Legal, Runs.Apply;
    if ops == [] {
      assert (ops + [op])[1..] == [];
    } else {
      assert (ops + [op])[1..] == ops[1..] + [op];
      RunsExtend(Runs.Apply(h, ops[0]), ops[1..], h1, op);
    }
  }

  lemma ServeApplies(h: Heap, call: Call)
    requires Inv(h) && Runs.Legal(h, Op(call))
    ensures Serve(h, call).0 == Runs.Apply(h, Op(call))
  {
    hide Inv;
  }

  // The machine

  type Machine = System<Heap, Call, Reply>

  /** `cur` after the words that differ between `copy` and `new_` have been written to it. */
  function WriteBack(copy: Heap, new_: Heap, cur: Heap): Heap {
    new_.(mem := map w | w in new_.mem ::
      if w in copy.mem && w in cur.mem && new_.mem[w] == copy.mem[w] then cur.mem[w] else new_.mem[w])
  }

  /** Core `i` has loaded the heap and owes its writes. */
  predicate Owing(s: Machine, i: int) { 0 <= i < |s.cores| && s.cores[i].pc.Loaded? }

  function Written(s: Machine, i: int): Heap
    requires Owing(s, i)
  {
    var pc := s.cores[i].pc;
    WriteBack(pc.copy, Serve(pc.copy, pc.op).0, s.object_)
  }

  /** `h` is the heap once all writes still owed are done. */
  ghost predicate Promises(s: Machine, h: Heap) {
    && (forall i :: Owing(s, i) ==> h == Written(s, i))
    && ((forall i :: !Owing(s, i)) ==> h == s.object_)
  }

  /** A step of core `i`.  Its callers free only blocks, or pointers that do not pass for one. */
  ghost predicate CoreStep(s: Machine, s': Machine, i: nat) {
    && i < |s.cores|
    && match s.cores[i].pc
       case Loaded(op, copy) =>
         var h := Serve(copy, op).0;
         && Step(Serve, s.(object_ := copy), s'.(object_ := h), i)
         && s'.object_ == WriteBack(copy, h, s.object_)
       case Critical(op) => Step(Serve, s, s', i) && (Inv(s.object_) ==> Runs.Legal(s.object_, Op(op)))
       case _ => Step(Serve, s, s', i)
  }

  /** A client stores into a word of a block it holds, without the lock. */
  ghost predicate StoreStep(s: Machine, s': Machine, w: nat, v: Layout.Word) {
    && s' == s.(object_ := s.object_.(mem := s.object_.mem[w := v]))
    && exists h :: Promises(s, h) && Owned(h, w)
  }

  ghost predicate Owned(h: Heap, w: nat) { exists k: nat, i: nat :: Runs.Owns(h, k, i, w) }

  datatype Move = Core(i: nat) | Store(w: nat, v: Layout.Word)

  ghost predicate Moves(s: Machine, s': Machine, mv: Move) {
    match mv
    case Core(i) => CoreStep(s, s', i)
    case Store(w, v) => StoreStep(s, s', w, v)
  }

  ghost predicate IsMachineRun(run: seq<Machine>, moves: seq<Move>) {
    |run| == |moves| + 1 && Initial(run[0]) && forall t :: 0 <= t < |moves| ==> MoveAt(run, moves, t)
  }

  ghost predicate MoveAt(run: seq<Machine>, moves: seq<Move>, t: nat)
    requires t < |moves| && |run| == |moves| + 1
  {
    Moves(run[t], run[t + 1], moves[t])
  }

  // The sequential run it amounts to

  /** The replies to the calls of a sequential run. */
  ghost function Answered(h: Heap, ops: seq<Runs.Op>): seq<Reply>
    decreases |ops|
  {
    if ops == [] || !Inv(h) || !Runs.Legal(h, ops[0]) then []
    else ReplyTo(h, ops[0]) + Answered(Runs.Apply(h, ops[0]), ops[1..])
  }

  ghost function ReplyTo(h: Heap, op: Runs.Op): seq<Reply> {
    match op
    case Request(size, align) => [Serve(h, Alloc(size, align)).1]
    case Return(p) => [Serve(h, Dealloc(p)).1]
    case _ => []
  }

  /** `r` is a right reply to an operation that turns `h` into `h'`. */
  ghost predicate Right(h: Heap, h': Heap, op: Runs.Op, r: Reply) {
    match op
    case Request(size, align) =>
      && (r.ptr == NULL <==> align > 16 || Overflows(size) || Blocks.NothingSuits(h, size))
      && (r.ptr != NULL ==> exists k: nat, i: nat :: Granted(h, h', k, i, size, r.ptr))
      && (r.warned <==> r.ptr == NULL && (align > 16 || !Overflows(size)))
    case Return(p) => r.warned <==> !IsBlock(h, p)
    case _ => true
  }

  /** All replies of a sequential run are right, each for the heap at its time. */
  ghost predicate AllRight(h: Heap, ops: seq<Runs.Op>, replies: seq<Reply>)
    decreases |ops|
  {
    if ops == [] then replies == []
    else
      && Inv(h) && Runs.Legal(h, ops[0])
      && var h', calls := Runs.Apply(h, ops[0]), if ops[0].Request? || ops[0].Return? then 1 else 0;
         && |replies| >= calls && (calls == 1 ==> Right(h, h', ops[0], replies[0]))
         && AllRight(h', ops[1..], replies[calls..])
  }

  lemma ReplyRight(h: Heap, op: Runs.Op)
    requires Inv(h) && Runs.Legal(h, op) && (op.Request? || op.Return?)
    ensures |ReplyTo(h, op)| == 1 && Right(h, Runs.Apply(h, op), op, ReplyTo(h, op)[0])
  {
    hide Inv, Serve, Judge, Granted, IsBlock, Overflows, Blocks.NothingSuits;
    match op
    case Request(size, align) =>
      AllocReplies(h, size, align);
      ServeApplies(h, Alloc(size, align));
    case Return(p) =>
      DeallocWarns(h, p);
  }

  lemma {:induction false} AnsweredRight(h: Heap, ops: seq<Runs.Op>, h': Heap)
    requires Runs.Runs(h, ops, h')
    ensures AllRight(h, ops, Answered(h, ops))
    decreases |ops|
  {
    hide Inv, Serve, Runs.Legal, Runs.Apply, Right;
    if ops != [] {
      var rest := Answered(Runs.Apply(h, ops[0]), ops[1..]);
      AnsweredRight(Runs.Apply(h, ops[0]), ops[1..], h');
      if ops[0].Request? || ops[0].Return? {
        ReplyRight(h, ops[0]);
        assert (ReplyTo(h, ops[0]) + rest)[1..] == rest;
      } else {
        assert ([] + rest)[0..] == rest;
      }
    }
  }

  /** The calls among the operations of a sequential run. */
  function Asked(ops: seq<Runs.Op>): seq<Call> {
    if ops == [] then [] else Asked(ops[..|ops| - 1]) + CallOf(ops[|ops| - 1])
  }

  function CallOf(op: Runs.Op): seq<Call> {
    match op
    case Request(size, align) => [Alloc(size, align)]
    case Return(p) => [Dealloc(p)]
    case _ => []
  }

  lemma {:induction false} AnsweredExtend(h: Heap, ops: seq<Runs.Op>, h1: Heap, op: Runs.Op)
    requires Runs.Runs(h, ops, h1) && Inv(h1) && Runs.Legal(h1, op)
    ensures Answered(h, ops + [op]) == Answered(h, ops) + ReplyTo(h1, op)
    decreases |ops|
  {
    hide Inv, Runs.Legal, Runs.Apply, ReplyTo;
    if ops == [] {
      assert (ops + [op])[1..] == [];
    } else {
      assert (ops + [op])[1..] == ops[1..] + [op];
      AnsweredExtend(Runs.Apply(h, ops[0]), ops[1..], h1, op);
    }
  }

  /** The state of the machine is that of a sequential run `ops` of the allocator and its clients,
      in which a call happens when its core loads the heap: the heap promised, the replies given or
      owed, and the calls in the order in which the lock was taken. */
  ghost predicate Linear(s: Machine, h0: Heap, ops: seq<Runs.Op>, h: Heap) {
    && Exclusive(s) && Masked(s) && Fair(s)
    && Promises(s, h) && AllSane(s) && Runs.Runs(h0, ops, h) && Inv(h)
    && Replied(s, Answered(h0, ops)) && Queued(s, Asked(ops))
  }

  /** The replies are given, or owed by the core that owes its writes. */
  ghost predicate Replied(s: Machine, replies: seq<Reply>) {
    && (forall i :: Owing(s, i) ==> replies == s.results + [Serve(s.cores[i].pc.copy, s.cores[i].pc.op).1])
    && ((forall i :: !Owing(s, i)) ==> replies == s.results)
  }

  /** The calls served are those that took the lock, but for one that has not loaded the heap yet. */
  ghost predicate Queued(s: Machine, calls: seq<Call>) {
    && (forall i :: Arrived(s, i) ==> s.acquired == calls + [s.cores[i].pc.op])
    && ((forall i :: !Arrived(s, i)) ==> s.acquired == calls)
  }

  predicate Arrived(s: Machine, i: int) { 0 <= i < |s.cores| && s.cores[i].pc.Critical? }

  ghost predicate AllSane(s: Machine) { forall i :: Owing(s, i) ==> Sane(s, i) }

  ghost predicate Sane(s: Machine, i: int)
    requires Owing(s, i)
  {
    var pc := s.cores[i].pc;
    Inv(pc.copy) && Runs.Legal(pc.copy, Op(pc.op)) && s.object_.mem.Keys == pc.copy.mem.Keys
  }

  lemma WriteBackAlone(copy: Heap, new_: Heap)
    requires new_.mem.Keys == copy.mem.Keys
    ensures WriteBack(copy, new_, copy) == new_
  {
    assert WriteBack(copy, new_, copy).mem == new_.mem;
  }

  lemma WriteBackStore(copy: Heap, new_: Heap, cur: Heap, w: nat, v: Layout.Word)
    requires new_.mem.Keys == copy.mem.Keys == cur.mem.Keys && w in new_.mem && new_.mem[w] == copy.mem[w]
    ensures var cur' := cur.(mem := cur.mem[w := v]);
            var h := WriteBack(copy, new_, cur);
            WriteBack(copy, new_, cur') == h.(mem := h.mem[w := v])
  {
    var cur' := cur.(mem := cur.mem[w := v]);
    var h := WriteBack(copy, new_, cur);
    assert WriteBack(copy, new_, cur').mem == h.mem[w := v];
  }

  // Every move keeps the machine linear

  lemma {:induction false} AskedExtend(ops: seq<Runs.Op>, op: Runs.Op)
    ensures Asked(ops + [op]) == Asked(ops) + CallOf(op)
  {
    assert (ops + [op])[..|ops|] == ops;
  }

  /** The core leaves the others alone. */
  lemma OthersStay(s: Machine, s': Machine, i: nat)
    requires CoreStep(s, s', i)
    ensures |s'.cores| == |s.cores| && forall j :: 0 <= j < |s.cores| && j != i ==> s'.cores[j] == s.cores[j]
  {
    hide Serve, WriteBack, Inv;
  }

  lemma CoreExclusive(s: Machine, s': Machine, i: nat)
    requires Exclusive(s) && Masked(s) && Fair(s) && CoreStep(s, s', i)
    ensures Exclusive(s') && Masked(s') && Fair(s')
  {
    hide Serve, WriteBack, Inv, Step, Exclusive, Masked, Fair;
    if s.cores[i].pc.Loaded? {
      var copy := s.cores[i].pc.copy;
      var new_ := Serve(copy, s.cores[i].pc.op).0;
      WhateverObject(s, copy);
      StepExclusive(Serve, s.(object_ := copy), s'.(object_ := new_), i);
      StepFair(Serve, s.(object_ := copy), s'.(object_ := new_), i);
      WhateverObject(s', new_);
    } else {
      StepExclusive(Serve, s, s', i);
      StepFair(Serve, s, s', i);
    }
  }

  /** None of this is about the object. */
  lemma WhateverObject(s: Machine, h: Heap)
    ensures Exclusive(s.(object_ := h)) == Exclusive(s) && Masked(s.(object_ := h)) == Masked(s)
    ensures Fair(s.(object_ := h)) == Fair(s)
  {
    hide Mine, Inv;
    var s1 := s.(object_ := h);
    assert Counted(s1) == Counted(s);
    if Counted(s) {
      assert forall i :: 0 <= i < |s.cores| ==> Served(s1, i) == Served(s, i);
    }
  }

  /** Only one core is inside. */
  lemma Alone(s: Machine, i: nat, j: int)
    requires Exclusive(s) && i < |s.cores| && i != j && Inside(s.cores[i])
    ensures !Owing(s, j) && !Arrived(s, j)
  {
  }

  /** A step of a core that neither loads nor writes. */
  lemma QuietLinear(s: Machine, s': Machine, i: nat, h0: Heap, ops: seq<Runs.Op>, h: Heap)
    requires Linear(s, h0, ops, h) && CoreStep(s, s', i)
    requires !s.cores[i].pc.Critical? && !s.cores[i].pc.Loaded?
    ensures Linear(s', h0, ops, h)
  {
    hide Serve, WriteBack, Inv, Runs.Runs, Answered, Asked, Runs.Legal, Exclusive, Masked, Fair, CoreStep;
    CoreExclusive(s, s', i);
    QuietSame(s, s', i);
    if s.cores[i].pc.Spinning? && !s.flag {
      FreshArrival(s, s', i, Asked(ops));
    }
  }

  lemma QuietSame(s: Machine, s': Machine, i: nat)
    requires CoreStep(s, s', i) && !s.cores[i].pc.Critical? && !s.cores[i].pc.Loaded?
    ensures i < |s.cores| && s'.object_ == s.object_ && s'.results == s.results
    ensures forall j :: (Owing(s', j) <==> Owing(s, j)) && (Owing(s, j) ==> s'.cores[j] == s.cores[j])
    ensures !(s.cores[i].pc.Spinning? && !s.flag) ==>
              && s'.acquired == s.acquired
              && forall j :: (Arrived(s', j) <==> Arrived(s, j)) && (Arrived(s, j) ==> s'.cores[j] == s.cores[j])
  {
    hide Serve, WriteBack, Inv;
    OthersStay(s, s', i);
  }

  lemma FreshArrival(s: Machine, s': Machine, i: nat, calls: seq<Call>)
    requires Exclusive(s) && CoreStep(s, s', i) && s.cores[i].pc.Spinning? && !s.flag && Queued(s, calls)
    ensures Queued(s', calls)
  {
    hide Serve, WriteBack, Inv;
    OthersStay(s, s', i);
    forall j ensures !Arrived(s, j) {
      assert 0 <= j < |s.cores| ==> !Inside(s.cores[j]);
    }
    forall j ensures Arrived(s', j) <==> j == i {
    }
    assert Arrived(s', i);
  }

  /** The load: here the call takes its place in the sequential run. */
  lemma LoadLinear(s: Machine, s': Machine, i: nat, h0: Heap, ops: seq<Runs.Op>, h: Heap)
    requires Linear(s, h0, ops, h) && CoreStep(s, s', i) && s.cores[i].pc.Critical?
    ensures var op := Op(s.cores[i].pc.op);
            Inv(h) && Runs.Legal(h, op) && Linear(s', h0, ops + [op], Runs.Apply(h, op))
  {
    hide Serve, WriteBack, Inv, Runs.Runs, Answered, Asked, Runs.Legal, Runs.Apply, Masked, Fair;
    var call := s.cores[i].pc.op;
    var op := Op(call);
    OthersStay(s, s', i);
    CoreExclusive(s, s', i);
    forall j ensures !Owing(s, j) && (Arrived(s, j) <==> j == i) {
      if j != i {
        Alone(s, i, j);
      }
    }
    assert h == s.object_;
    forall j ensures (Owing(s', j) <==> j == i) && !Arrived(s', j) {
    }
    assert Arrived(s, i) && Owing(s', i);
    assert CallOf(op) == [call] && ReplyTo(h, op) == [Serve(h, call).1];
    ServeApplies(h, call);
    Spares.CallKeys(h, op);
    WriteBackAlone(h, Runs.Apply(h, op));
    RunsExtend(h0, ops, h, op);
    AnsweredExtend(h0, ops, h, op);
    AskedExtend(ops, op);
    Runs.ApplyInv(h, op);
  }

  /** The write: the heap is what was promised. */
  lemma WriteLinear(s: Machine, s': Machine, i: nat, h0: Heap, ops: seq<Runs.Op>, h: Heap)
    requires Linear(s, h0, ops, h) && CoreStep(s, s', i) && s.cores[i].pc.Loaded?
    ensures Linear(s', h0, ops, h)
  {
    hide Serve, WriteBack, Inv, Runs.Runs, Answered, Asked, Runs.Legal, Masked, Fair;
    OthersStay(s, s', i);
    CoreExclusive(s, s', i);
    assert Owing(s, i);
    forall j ensures !Owing(s', j) && !Arrived(s', j) && !Arrived(s, j) {
      if j != i {
        Alone(s, i, j);
      }
    }
  }

  /** A store commutes with the writes still owed. */
  lemma StoreLinear(s: Machine, s': Machine, w: nat, v: Layout.Word, h0: Heap, ops: seq<Runs.Op>, h: Heap)
    requires Linear(s, h0, ops, h) && StoreStep(s, s', w, v)
    ensures var op := Runs.Store(w, v);
            Inv(h) && Runs.Legal(h, op) && Linear(s', h0, ops + [op], Runs.Apply(h, op))
  {
    hide Serve, WriteBack, Inv, Runs.Runs, Answered, Asked, Exclusive, Masked, Fair;
    var op := Runs.Store(w, v);
    WhateverObject(s, s'.object_);
    SamePromise(s, w, h);
    forall i ensures Owing(s', i) <==> Owing(s, i) {
    }
    forall i ensures Arrived(s', i) <==> Arrived(s, i) {
    }
    forall i | Owing(s, i) ensures Sane(s', i) && Written(s', i) == h.(mem := h.mem[w := v]) {
      StoreWritten(s, s', i, w, v, h);
    }
    RunsExtend(h0, ops, h, op);
    AnsweredExtend(h0, ops, h, op);
    AskedExtend(ops, op);
    assert Asked(ops) + [] == Asked(ops) && Answered(h0, ops) + [] == Answered(h0, ops);
    Runs.ApplyInv(h, op);
  }

  lemma SamePromise(s: Machine, w: nat, h: Heap)
    requires Promises(s, h) && exists h' :: Promises(s, h') && Owned(h', w)
    ensures Owned(h, w)
  {
    hide Serve, WriteBack, Owned;
    var h' :| Promises(s, h') && Owned(h', w);
    if i :| Owing(s, i) {
      assert h == Written(s, i) == h';
    }
  }

  lemma StoreWritten(s: Machine, s': Machine, i: int, w: nat, v: Layout.Word, h: Heap)
    requires Owing(s, i) && Sane(s, i) && h == Written(s, i) && Owned(h, w)
    requires s' == s.(object_ := s.object_.(mem := s.object_.mem[w := v]))
    ensures Sane(s', i) && Written(s', i) == h.(mem := h.mem[w := v])
  {
    hide Serve, Inv, Runs.Legal, Runs.Apply;
    var pc := s.cores[i].pc;
    var copy, op := pc.copy, Op(pc.op);
    var new_ := Serve(copy, pc.op).0;
    ServeApplies(copy, pc.op);
    Spares.CallKeys(copy, op);
    assert h.mem.Keys == new_.mem.Keys;
    var k: nat, j: nat :| Runs.Owns(h, k, j, w);
    assert Runs.Owns(new_, k, j, w);
    Spares.CallSpares(copy, op, k, j, w);
    WriteBackStore(copy, new_, s.object_, w, v);
  }

  /** On any number of cores and under any interleaving of the calls with each other and with stores
      into blocks, the heap in memory is, up to the writes that the core inside still owes, one that
      a sequential run of the allocator and its clients reaches.  The invariant holds for it, the
      calls are served in the order in which they took the lock, and every reply is right for the heap
      at its place in that run: the caller of an allocation gets a block of its own. */
  lemma LockedHeapSafe(run: seq<Machine>, moves: seq<Move>, t: nat) returns (ops: seq<Runs.Op>, h: Heap, replies: seq<Reply>)
    requires IsMachineRun(run, moves) && t <= |moves| && Inv(run[0].object_)
    ensures Linear(run[t], run[0].object_, ops, h)
    ensures !run[t].flag ==> h == run[t].object_ && replies == run[t].results
    ensures run[t].results <= replies && AllRight(run[0].object_, ops, replies)
  {
    hide Serve, WriteBack, Inv, Runs.Runs, Answered, Asked, Runs.Legal, Runs.Apply, AllRight;
    ops, h := RunLinear(run, moves, t);
    replies := Answered(run[0].object_, ops);
    AnsweredRight(run[0].object_, ops, h);
    if !run[t].flag {
      NoneOwing(run[t]);
    }
    if i :| Owing(run[t], i) {
    }
  }

  lemma NoneOwing(s: Machine)
    requires Exclusive(s) && !s.flag
    ensures forall i :: !Owing(s, i)
  {
    forall i ensures !Owing(s, i) {
      assert 0 <= i < |s.cores| ==> !Inside(s.cores[i]);
    }
  }

  lemma {:induction false} RunLinear(run: seq<Machine>, moves: seq<Move>, t: nat) returns (ops: seq<Runs.Op>, h: Heap)
    requires IsMachineRun(run, moves) && t <= |moves| && Inv(run[0].object_)
    ensures Linear(run[t], run[0].object_, ops, h)
  {
    hide Serve, WriteBack, Inv, Runs.Runs, Answered, Asked, Runs.Legal, Runs.Apply, CoreStep, StoreStep;
    var h0 := run[0].object_;
    if t == 0 {
      ops, h := [], h0;
      StartLinear(run[0]);
    } else {
      var ops1, h1 := RunLinear(run, moves, t - 1);
      var s, s' := run[t - 1], run[t];
      assert MoveAt(run, moves, t - 1);
      match moves[t - 1]
      case Core(i) => ops, h := CoreLinear(s, s', i, h0, ops1, h1);
      case Store(w, v) =>
        StoreLinear(s, s', w, v, h0, ops1, h1);
        ops, h := ops1 + [Runs.Store(w, v)], Runs.Apply(h1, Runs.Store(w, v));
    }
  }

  lemma CoreLinear(s: Machine, s': Machine, i: nat, h0: Heap, ops: seq<Runs.Op>, h: Heap)
    returns (ops': seq<Runs.Op>, h': Heap)
    requires Linear(s, h0, ops, h) && CoreStep(s, s', i)
    ensures Linear(s', h0, ops', h')
  {
    hide Serve, WriteBack, Inv, Linear, Step, Runs.Legal, Runs.Apply;
    ops', h' := ops, h;
    if s.cores[i].pc.Critical? {
      LoadLinear(s, s', i, h0, ops, h);
      ops', h' := ops + [Op(s.cores[i].pc.op)], Runs.Apply(h, Op(s.cores[i].pc.op));
    } else if s.cores[i].pc.Loaded? {
      WriteLinear(s, s', i, h0, ops, h);
    } else {
      QuietLinear(s, s', i, h0, ops, h);
    }
  }

  lemma StartLinear(s: Machine)
    requires Initial(s) && Inv(s.object_)
    ensures Linear(s, s.object_, [], s.object_)
  {
    hide Inv, Serve;
    forall i ensures !Owing(s, i) && !Arrived(s, i) {
    }
  }
}
