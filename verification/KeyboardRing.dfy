/** The keyboard ring of src/hal/input.rs:8-20 and 127-153 as a step system.

    `push_char` runs in the interrupt handler and `getchar_impl` polls.  Every load and store of
    `head`, `tail` and the buffer is one step, and the steps of the two sides interleave freely,
    which covers a handler that interrupts the poller between any two of its steps as well as one
    that runs on another core. */
module KeyboardRing {
  import opened Common

  const BUF_SZ := 256

  datatype Producer =
    | Waiting
    | GotHead(c: Byte, head: nat)   // head loaded
    | Checked(c: Byte, head: nat)   // tail loaded, room for one more
    | Written(c: Byte, head: nat)   // buffer cell stored

  datatype Consumer =
    | Polling
    | GotTail(tail: nat)            // tail loaded
    | Ready(tail: nat)              // head loaded and different
    | Taken(tail: nat, c: Byte)     // buffer cell loaded

  /** `offered` lists the bytes that pushes were called with, and `fates` says of each push that has
      returned whether it advanced `head` or found the ring full.  `returned` lists the bytes handed to
      the caller. */
  datatype Ring = Ring(buf: seq<Byte>, head: nat, tail: nat, producer: Producer, consumer: Consumer,
                       offered: seq<Byte>, fates: seq<bool>, returned: seq<Byte>)

  /** The bytes offered whose push advanced `head`, in order. */
  function Accepted(offered: seq<Byte>, fates: seq<bool>): seq<Byte>
    requires |fates| <= |offered|
    decreases |fates|
  {
    var n := |fates| - 1;
    if fates == [] then [] else Accepted(offered, fates[..n]) + if fates[n] then [offered[n]] else []
  }

  lemma {:induction false} AcceptedPrefix(offered: seq<Byte>, more: seq<Byte>, fates: seq<bool>)
    requires |fates| <= |offered|
    ensures Accepted(offered + more, fates) == Accepted(offered, fates)
    decreases |fates|
  {
    if fates != [] {
      AcceptedPrefix(offered, more, fates[..|fates| - 1]);
    }
  }

  lemma AcceptedNext(offered: seq<Byte>, fates: seq<bool>, fate: bool)
    requires |fates| < |offered|
    ensures Accepted(offered, fates + [fate]) == Accepted(offered, fates) + if fate then [offered[|fates|]] else []
  {
    assert (fates + [fate])[..|fates|] == fates;
  }

  function Next(i: nat): nat { (i + 1) % BUF_SZ }

  /** Number of bytes between `tail` and `head`. */
  function Queued(tail: nat, head: nat): nat
    requires tail < BUF_SZ && head < BUF_SZ
  {
    if tail <= head then head - tail else head + BUF_SZ - tail
  }

  function Cell(tail: nat, j: nat): nat { (tail + j) % BUF_SZ }

  /** The bytes in the ring, oldest first. */
  function Contents(buf: seq<Byte>, tail: nat, head: nat): seq<Byte>
    requires |buf| == BUF_SZ && tail < BUF_SZ && head < BUF_SZ
  {
    seq(Queued(tail, head), j requires j >= 0 => buf[Cell(tail, j)])
  }

  predicate ProducerStep(r: Ring, r': Ring)
    requires |r.buf| == BUF_SZ
  {
    match r.producer
    case Waiting =>
      && r'.producer.GotHead?
      && r' == r.(producer := GotHead(r'.producer.c, r.head), offered := r.offered + [r'.producer.c])
    case GotHead(c, head) =>
      if Next(head) != r.tail then r' == r.(producer := Checked(c, head))
      else r' == r.(producer := Waiting, fates := r.fates + [false])
    case Checked(c, head) => head < BUF_SZ && r' == r.(buf := r.buf[head := c], producer := Written(c, head))
    case Written(c, head) => r' == r.(head := Next(head), producer := Waiting, fates := r.fates + [true])
  }

  predicate ConsumerStep(r: Ring, r': Ring)
    requires |r.buf| == BUF_SZ
  {
    match r.consumer
    case Polling => r' == r.(consumer := GotTail(r.tail))
    case GotTail(tail) => r' == r.(consumer := if tail != r.head then Ready(tail) else Polling)
    case Ready(tail) => tail < BUF_SZ && r' == r.(consumer := Taken(tail, r.buf[tail]))
    case Taken(tail, c) => r' == r.(tail := Next(tail), consumer := Polling, returned := r.returned + [c])
  }

  predicate Inv(r: Ring) {
    && |r.buf| == BUF_SZ && r.head < BUF_SZ && r.tail < BUF_SZ
    && |r.offered| == |r.fates| + (if r.producer.Waiting? then 0 else 1)
    && Accepted(r.offered, r.fates) == r.returned + Contents(r.buf, r.tail, r.head)
    && (r.producer.Waiting? || (r.producer.head == r.head && r.producer.c == r.offered[|r.fates|]))
    && (r.producer.Checked? || r.producer.Written? ==> Next(r.head) != r.tail)
    && (r.producer.Written? ==> r.buf[r.head] == r.producer.c)
    && (match r.consumer
        case Polling => true
        case GotTail(tail) => tail == r.tail
        case Ready(tail) => tail == r.tail && tail != r.head
        case Taken(tail, c) => tail == r.tail && tail != r.head && c == r.buf[tail])
  }

  lemma ContentsPush(buf: seq<Byte>, tail: nat, head: nat)
    requires |buf| == BUF_SZ && tail < BUF_SZ && head < BUF_SZ && Next(head) != tail
    ensures Contents(buf, tail, Next(head)) == Contents(buf, tail, head) + [buf[head]]
  {
    assert Cell(tail, Queued(tail, head)) == head;
  }

  lemma CellShift(tail: nat, j: nat)
    requires tail < BUF_SZ && j < BUF_SZ
    ensures Cell(Next(tail), j) == Cell(tail, j + 1)
  {
  }

  lemma ContentsPop(buf: seq<Byte>, tail: nat, head: nat)
    requires |buf| == BUF_SZ && tail < BUF_SZ && head < BUF_SZ && tail != head
    ensures Contents(buf, tail, head) == [buf[tail]] + Contents(buf, Next(tail), head)
  {
    var a, b := Contents(buf, tail, head), Contents(buf, Next(tail), head);
    assert |a| == |b| + 1 && Cell(tail, 0) == tail;
    forall j | 0 <= j < |b| ensures a[j + 1] == b[j] {
      CellShift(tail, j);
    }
    assert a == [a[0]] + a[1..] && a[1..] == b;
  }

  /** The cell at `head` is not part of the contents. */
  lemma ContentsFrame(buf: seq<Byte>, tail: nat, head: nat, c: Byte)
    requires |buf| == BUF_SZ && tail < BUF_SZ && head < BUF_SZ
    ensures Contents(buf[head := c], tail, head) == Contents(buf, tail, head)
  {
    forall j | 0 <= j < Queued(tail, head) ensures Cell(tail, j) != head {
    }
  }

  lemma ProducerInv(r: Ring, r': Ring)
    requires Inv(r) && ProducerStep(r, r')
    ensures Inv(r')
  {
    match r.producer
    case Waiting => AcceptedPrefix(r.offered, [r'.producer.c], r.fates);
    case GotHead(_, _) => AcceptedNext(r.offered, r.fates, false);
    case Checked(c, _) => ContentsFrame(r.buf, r.tail, r.head, c);
    case Written(_, _) =>
      AcceptedNext(r.offered, r.fates, true);
      ContentsPush(r.buf, r.tail, r.head);
  }

  lemma ConsumerInv(r: Ring, r': Ring)
    requires Inv(r) && ConsumerStep(r, r')
    ensures Inv(r')
  {
    if r.consumer.Taken? {
      ContentsPop(r.buf, r.tail, r.head);
    }
  }

  /** Runs from the empty ring. */
  ghost predicate IsRun(run: seq<Ring>) {
    && run != []
    && |run[0].buf| == BUF_SZ && run[0] == Ring(run[0].buf, 0, 0, Waiting, Polling, [], [], [])
    && forall t :: 0 < t < |run| ==> Moves(run[t - 1], run[t])
  }

  predicate Moves(r: Ring, r': Ring) {
    |r.buf| == BUF_SZ && (ProducerStep(r, r') || ConsumerStep(r, r'))
  }

  /** Nothing is lost, changed, duplicated or reordered: at every moment of every run, the bytes returned
      so far followed by the bytes in the ring are the bytes offered without those that were dropped,
      and all pushes but at most the one under way have met their fate. */
  lemma {:induction false} RunFifo(run: seq<Ring>, t: nat)
    requires IsRun(run) && t < |run|
    ensures var r := run[t];
            && Inv(r) && |r.offered| == |r.fates| + (if r.producer.Waiting? then 0 else 1)
            && Accepted(r.offered, r.fates) == r.returned + Contents(r.buf, r.tail, r.head)
  {
    if t > 0 {
      RunFifo(run, t - 1);
      assert Moves(run[t - 1], run[t]);
      if ProducerStep(run[t - 1], run[t]) {
        ProducerInv(run[t - 1], run[t]);
      } else {
        ConsumerInv(run[t - 1], run[t]);
      }
    }
  }

  /** A push is dropped exactly when 255 bytes are queued at its test, so one cell stays unused. */
  lemma DropsOnlyWhenFull(run: seq<Ring>, t: nat)
    requires IsRun(run) && t + 1 < |run| && run[t].producer.GotHead? && ProducerStep(run[t], run[t + 1])
    ensures |run[t].offered| == |run[t].fates| + 1
    ensures run[t + 1].fates == run[t].fates + [false] <==>
            |Accepted(run[t].offered, run[t].fates)| == |run[t].returned| + BUF_SZ - 1
  {
    RunFifo(run, t);
    assert run[t].fates + [false] != run[t].fates;
  }

  /** A push of any byte that is not interrupted puts it behind the others if the ring is not full, ... */
  lemma PushGoesIn(r: Ring, c: Byte) returns (r1: Ring, r2: Ring, r3: Ring, r': Ring)
    requires Inv(r) && r.producer.Waiting? && |Contents(r.buf, r.tail, r.head)| < BUF_SZ - 1
    ensures ProducerStep(r, r1) && ProducerStep(r1, r2) && ProducerStep(r2, r3) && ProducerStep(r3, r')
    ensures Inv(r') && r'.producer.Waiting? && r'.returned == r.returned && r'.tail == r.tail
    ensures Contents(r'.buf, r'.tail, r'.head) == Contents(r.buf, r.tail, r.head) + [c]
  {
    r1 := r.(producer := GotHead(c, r.head), offered := r.offered + [c]);
    r2 := r1.(producer := Checked(c, r.head));
    r3 := r2.(buf := r.buf[r.head := c], producer := Written(c, r.head));
    r' := r3.(head := Next(r.head), producer := Waiting, fates := r.fates + [true]);
    ProducerInv(r, r1);
    ProducerInv(r1, r2);
    ProducerInv(r2, r3);
    ProducerInv(r3, r');
    ContentsFrame(r.buf, r.tail, r.head, c);
    ContentsPush(r3.buf, r.tail, r.head);
  }

  /** ... and a poll that is not interrupted returns the oldest byte if there is one. */
  lemma PollTakesOldest(r: Ring) returns (r1: Ring, r2: Ring, r3: Ring, r': Ring)
    requires Inv(r) && r.consumer.Polling? && Contents(r.buf, r.tail, r.head) != []
    ensures ConsumerStep(r, r1) && ConsumerStep(r1, r2) && ConsumerStep(r2, r3) && ConsumerStep(r3, r')
    ensures Inv(r') && r'.consumer.Polling? && r'.head == r.head
    ensures r'.returned == r.returned + [Contents(r.buf, r.tail, r.head)[0]]
    ensures Contents(r'.buf, r'.tail, r'.head) == Contents(r.buf, r.tail, r.head)[1..]
  {
    r1 := r.(consumer := GotTail(r.tail));
    r2 := r1.(consumer := Ready(r.tail));
    r3 := r2.(consumer := Taken(r.tail, r.buf[r.tail]));
    r' := r3.(tail := Next(r.tail), consumer := Polling, returned := r.returned + [r.buf[r.tail]]);
    ContentsPop(r.buf, r.tail, r.head);
    ConsumerInv(r3, r');
  }
}
