/** The jitter buffer over arbitrary runs of pushes and pops between two resets. */
module JitterRuns {
  import opened Text
  import opened Sets
  import opened Jitter
  import opened JitterOrder

  datatype Op = Put(x: nat, frame: Frame) | Get

  function Step(size: nat, s: State, op: Op): (State, seq<Packet>) {
    match op
    case Put(x, frame) => (AfterPush(size, s, x, frame), [])
    case Get =>
      var r := AfterPop(size, s);
      (r.0, if r.1.None? then [] else [r.1.value])
  }

  /** The state after a run, and everything it delivered. */
  function Run(size: nat, s: State, ops: seq<Op>): (State, seq<Packet>)
    decreases |ops|
  {
    if |ops| == 0 then (s, [])
    else
      var before := Run(size, s, ops[..|ops| - 1]);
      var last := Step(size, before.0, ops[|ops| - 1]);
      (last.0, before.1 + last.1)
  }

  /** The first frame ever pushed with number x. */
  function FirstPut(ops: seq<Op>, x: nat): Option<Frame>
    decreases |ops|
  {
    if |ops| == 0 then None
    else
      var before := FirstPut(ops[..|ops| - 1], x);
      if before.Some? then before
      else
        match ops[|ops| - 1]
        case Put(y, frame) => if x == y then Some(frame) else None
        case Get => None
  }

  lemma RunLast(size: nat, s: State, ops: seq<Op>, op: Op)
    ensures Run(size, s, ops + [op]).0 == Step(size, Run(size, s, ops).0, op).0
    ensures Run(size, s, ops + [op]).1 == Run(size, s, ops).1 + Step(size, Run(size, s, ops).0, op).1
  {
    assert (ops + [op])[..|ops|] == ops;
  }

  // ---------------------------------------------------------------- when the head moves

  /** Every packet held lies above the head. */
  predicate HeadMissing(s: State) {
    forall x :: x in s.buffer ==> x > s.next
  }

  /** `x` is the least number held. */
  predicate LeastHeld(s: State, x: nat) {
    x in s.buffer && forall y :: y in s.buffer ==> x <= y
  }

  /** A pop delivers exactly when the head is there, or `size` packets are held and all of them lie
      above it; it takes the least packet from the head on, and otherwise changes nothing. */
  lemma PopExactly(size: nat, s: State)
    requires size > 0
    ensures AfterPop(size, s).1.Some?
       <==> s.initialised && (s.next in s.buffer || (|s.buffer| >= size && HeadMissing(s)))
    ensures AfterPop(size, s).1.None? ==> AfterPop(size, s).0 == s
    ensures AfterPop(size, s).1.Some? ==>
              var x := AfterPop(size, s).1.value.0;
              && x in s.buffer && AfterPop(size, s).1.value.1 == s.buffer[x]
              && x >= s.next && (forall y :: y in s.buffer && y >= s.next ==> x <= y)
              && AfterPop(size, s).0 == State(s.buffer - {x}, x + 1, true, true)
  {
    if s.buffer != map[] {
      assert s.buffer.Keys != {};
      assert LeastHeld(s, Min(s.buffer.Keys));
    }
  }

  /** A push on a stream that has played stores a new packet up to 2 * size behind the head. It moves
      the head exactly when more than `size` packets are then held, all of them above it: to the least
      of them. */
  lemma PushExactly(size: nat, s: State, x: nat, frame: Frame)
    requires s.initialised && s.popped
    ensures AfterPush(size, s, x, frame).buffer
         == if x in s.buffer || x + 2 * size < s.next then s.buffer else s.buffer[x := frame]
    ensures AfterPush(size, s, x, frame).next != s.next
       <==> x !in s.buffer && x > s.next && HeadMissing(s) && |s.buffer| >= size
    ensures AfterPush(size, s, x, frame).next != s.next ==>
              LeastHeld(AfterPush(size, s, x, frame), AfterPush(size, s, x, frame).next)
  {
    var u := s.(buffer := s.buffer[x := frame]);
    assert x in u.buffer.Keys;
    assert LeastHeld(u, Min(u.buffer.Keys));
    if x !in s.buffer {
      assert |u.buffer| == |s.buffer| + 1;
      assert HeadMissing(u) <==> HeadMissing(s) && x > s.next by {
        assert forall y :: y in u.buffer <==> y == x || y in s.buffer;
      }
      assert HeadMissing(u) <==> Min(u.buffer.Keys) > s.next;
    }
  }

  // ---------------------------------------------------------------- at most once, in order

  ghost predicate Rising(d: seq<Packet>) {
    forall i, j :: 0 <= i < j < |d| ==> d[i].0 < d[j].0
  }

  /** Between resets: what is buffered from the head on is exactly what was pushed there, as it
      was first pushed; everything delivered lies below the head. */
  ghost predicate History(s: State, ops: seq<Op>, d: seq<Packet>) {
    && (!s.initialised ==> s.buffer == map[] && forall x: nat :: FirstPut(ops, x).None?)
    && (!s.popped ==> d == [] && forall x: nat :: FirstPut(ops, x).Some? ==> x >= s.next)
    && (!s.popped ==> forall x :: x in s.buffer ==> x >= s.next)
    && (forall x :: x in s.buffer && x >= s.next ==> FirstPut(ops, x) == Some(s.buffer[x]))
    && (forall x: nat :: FirstPut(ops, x).Some? && x >= s.next ==> x in s.buffer)
    && (forall i :: 0 <= i < |d| ==> d[i].0 < s.next && FirstPut(ops, d[i].0) == Some(d[i].1))
    && Rising(d)
  }

  lemma FirstPutNext(ops: seq<Op>, op: Op)
    ensures forall y: nat :: FirstPut(ops + [op], y)
              == if FirstPut(ops, y).Some? then FirstPut(ops, y)
                 else if op.Put? && op.x == y then Some(op.frame) else None
  {
    assert (ops + [op])[..|ops|] == ops;
  }

  lemma PutHistory(size: nat, s: State, ops: seq<Op>, d: seq<Packet>, x: nat, frame: Frame)
    requires History(s, ops, d)
    ensures History(AfterPush(size, s, x, frame), ops + [Put(x, frame)], d)
  {
    FirstPutNext(ops, Put(x, frame));
    var next := ops + [Put(x, frame)];
    var t := s.(next := Anchor(s, x), initialised := true);
    assert |d| > 0 ==> FirstPut(ops, d[0].0).Some?;
    assert d != [] ==> t.next == s.next;
    assert forall i :: 0 <= i < |d| ==> d[i].0 < t.next;
    assert forall y: nat :: FirstPut(ops, y).Some? && y >= t.next ==> y in s.buffer;
    assert forall y :: y in s.buffer && y >= t.next ==> FirstPut(ops, y) == Some(s.buffer[y]);
    assert forall i :: 0 <= i < |d| ==> FirstPut(next, d[i].0) == Some(d[i].1);
    if x < t.next - 2 * size || x in t.buffer {
      assert History(t, next, d);
    } else {
      var u := t.(buffer := t.buffer[x := frame]);
      assert FirstPut(ops, x).Some? ==> x < t.next;
      assert History(u, next, d);
    }
  }

  lemma GetHistory(size: nat, s: State, ops: seq<Op>, d: seq<Packet>)
    requires History(s, ops, d)
    ensures History(Step(size, s, Get).0, ops + [Get], d + Step(size, s, Get).1)
  {
    FirstPutNext(ops, Get);
  }

  lemma StepHistory(size: nat, s: State, ops: seq<Op>, d: seq<Packet>, op: Op)
    requires History(s, ops, d)
    ensures History(Step(size, s, op).0, ops + [op], d + Step(size, s, op).1)
  {
    if op.Put? {
      PutHistory(size, s, ops, d, op.x, op.frame);
      assert d + [] == d;
    } else {
      GetHistory(size, s, ops, d);
    }
  }

  lemma {:induction false} RunHistory(size: nat, ops: seq<Op>)
    ensures History(Run(size, EMPTY, ops).0, ops, Run(size, EMPTY, ops).1)
    decreases |ops|
  {
    if |ops| > 0 {
      var front, op := ops[..|ops| - 1], ops[|ops| - 1];
      RunHistory(size, front);
      var s, d := Run(size, EMPTY, front).0, Run(size, EMPTY, front).1;
      StepHistory(size, s, front, d, op);
      RunLast(size, EMPTY, front, op);
      assert front + [op] == ops;
    }
  }

  /** Over any run between resets the delivered numbers strictly increase -- so each is delivered
      at most once -- and each delivered frame is the first one ever pushed with its number. */
  lemma DeliveredOnceInOrder(size: nat, ops: seq<Op>)
    ensures var d := Run(size, EMPTY, ops).1;
            && (forall i, j :: 0 <= i < j < |d| ==> d[i].0 < d[j].0)
            && (forall i :: 0 <= i < |d| ==> FirstPut(ops, d[i].0) == Some(d[i].1))
  {
    RunHistory(size, ops);
  }

  // ---------------------------------------------------------------- stalling

  /** After a drain with nothing below the head. */
  ghost predicate Clean(size: nat, s: State) {
    s.initialised && s.popped && |s.buffer| < size && forall x :: x in s.buffer ==> x > s.next
  }

  /** A full buffer with nothing below the head always delivers. */
  lemma FullPops(size: nat, s: State)
    requires s.initialised && forall x :: x in s.buffer ==> x >= s.next
    ensures |s.buffer| >= size && |s.buffer| > 0 ==> AfterPop(size, s).1.Some?
  {
    if |s.buffer| > 0 {
      assert |s.buffer.Keys| == |s.buffer|;
      assert Min(s.buffer.Keys) in s.buffer;
    }
  }

  lemma {:induction false} DrainCleans(size: nat, s: State)
    requires size > 0 && s.initialised && (s.popped || s.next in s.buffer)
    requires forall x :: x in s.buffer ==> x >= s.next
    ensures Clean(size, Drain(size, s).0)
    decreases |s.buffer|
  {
    var r := AfterPop(size, s);
    if r.1.Some? {
      DrainNext(size, s);
      SmallerBuffer(r.0.buffer, s.buffer);
      DrainCleans(size, r.0);
    } else {
      FullPops(size, s);
    }
  }

  /** Each arrival finds the head at or below its number. */
  ghost predicate NothingLate(size: nat, s: State, arrivals: seq<Packet>)
    decreases |arrivals|
  {
    |arrivals| == 0 ||
    ((s.initialised ==> s.next <= arrivals[0].0)
     && NothingLate(size, Drain(size, AfterPush(size, s, arrivals[0].0, arrivals[0].1)).0, arrivals[1..]))
  }

  lemma CleanStep(size: nat, s: State, x: nat, frame: Frame)
    requires size > 0 && (s == EMPTY || (Clean(size, s) && s.next <= x))
    ensures Clean(size, Drain(size, AfterPush(size, s, x, frame)).0)
  {
    var t := AfterPush(size, s, x, frame);
    assert |s.buffer| < size;
    assert t.next == Anchor(s, x);
    DrainCleans(size, t);
  }

  /** If nothing arrives below the head, every push-then-drain leaves fewer than `size` packets,
      all of them above the head: the stream never stalls. */
  lemma {:induction false} NeverStalls(size: nat, s: State, arrivals: seq<Packet>)
    requires size > 0 && (s == EMPTY || Clean(size, s)) && NothingLate(size, s, arrivals) && |arrivals| > 0
    ensures Clean(size, Play(size, s, arrivals).0)
    decreases |arrivals|
  {
    CleanStep(size, s, arrivals[0].0, arrivals[0].1);
    var t := Drain(size, AfterPush(size, s, arrivals[0].0, arrivals[0].1)).0;
    if |arrivals| > 1 {
      NeverStalls(size, t, arrivals[1..]);
    }
  }

  lemma LateStep(size: nat, s: State, op: Op, x: nat)
    requires s.initialised && s.popped && x in s.buffer && x < s.next
    ensures var r := Step(size, s, op);
            && r.0.initialised && r.0.popped && x in r.0.buffer && r.0.buffer[x] == s.buffer[x]
            && r.0.next == s.next + |r.1|
            && (|r.1| == 0 || (|r.1| == 1 && r.1[0].0 == s.next))
  {
    assert Min(s.buffer.Keys) <= x;
    if op.Put? {
      var u := s.(buffer := s.buffer[op.x := op.frame]);
      assert x in u.buffer.Keys && Min(u.buffer.Keys) <= x;
    }
  }

  /** Once a packet below the head is stored it stays for the whole run, and the head never skips
      again: it moves only past packets it delivers, one number at a time. */
  lemma {:induction false} StallsOnceLate(size: nat, s: State, ops: seq<Op>, x: nat)
    requires s.initialised && s.popped && x in s.buffer && x < s.next
    ensures var r := Run(size, s, ops);
            && r.0.initialised && r.0.popped && x in r.0.buffer && r.0.buffer[x] == s.buffer[x]
            && r.0.next == s.next + |r.1|
            && (forall i :: 0 <= i < |r.1| ==> r.1[i].0 == s.next + i)
    decreases |ops|
  {
    if |ops| > 0 {
      StallsOnceLate(size, s, ops[..|ops| - 1], x);
      LateStep(size, Run(size, s, ops[..|ops| - 1]).0, ops[|ops| - 1], x);
    }
  }

  /** Exactly which late packets are stored: those at most 2 * size behind the head. */
  lemma StoredLate(size: nat, s: State, x: nat, frame: Frame)
    requires s.initialised && s.popped && x < s.next && x !in s.buffer
    ensures x in AfterPush(size, s, x, frame).buffer <==> x + 2 * size >= s.next
  {
  }

  lemma RunSnoc(size: nat, s: State, ops: seq<Op>, front: seq<Op>, op: Op)
    requires ops == front + [op]
    ensures Run(size, s, ops).0 == Step(size, Run(size, s, front).0, op).0
    ensures Run(size, s, ops).1 == Run(size, s, front).1 + Step(size, Run(size, s, front).0, op).1
  {
    RunLast(size, s, front, op);
  }

  /** So one late packet, arriving at most 2 * size behind the head, stalls the stream until a
      reset; one further behind changes nothing. */
  lemma LatePacketStalls(size: nat, s: State, x: nat, frame: Frame, ops: seq<Op>)
    requires s.initialised && s.popped && x < s.next && x !in s.buffer
    ensures x + 2 * size < s.next ==> AfterPush(size, s, x, frame) == s
    ensures x + 2 * size >= s.next ==>
              && x in Run(size, AfterPush(size, s, x, frame), ops).0.buffer
              && Run(size, AfterPush(size, s, x, frame), ops).0.next
              == AfterPush(size, s, x, frame).next + |Run(size, AfterPush(size, s, x, frame), ops).1|
  {
    StoredLate(size, s, x, frame);
    if x + 2 * size >= s.next {
      StallsOnceLate(size, AfterPush(size, s, x, frame), ops, x);
    }
  }

  // ---------------------------------------------------------------- before the first pop

  function Puts(arrivals: seq<Packet>): (ops: seq<Op>)
    ensures |ops| == |arrivals|
  {
    seq(|arrivals|, i requires 0 <= i < |arrivals| => Put(arrivals[i].0, arrivals[i].1))
  }

  function Gets(n: nat): (ops: seq<Op>)
    ensures |ops| == n
  {
    seq(n, _ => Get)
  }

  /** Pushes alone: everything is held, and the head is the smallest number held. */
  ghost predicate Holding(s: State, arrivals: seq<Packet>) {
    && !s.popped && s.buffer.Keys == Seqs(arrivals)
    && (s.initialised <==> |arrivals| > 0)
    && (|arrivals| > 0 ==> s.next in s.buffer && forall x :: x in s.buffer ==> s.next <= x)
  }

  lemma PutsLast(frame: nat -> Frame, arrivals: seq<Packet>)
    requires |arrivals| > 0 && Carries(arrivals, frame)
    ensures Puts(arrivals)
         == Puts(arrivals[..|arrivals| - 1]) + [Put(arrivals[|arrivals| - 1].0, frame(arrivals[|arrivals| - 1].0))]
  {
  }

  ghost predicate AsPushed(s: State, frame: nat -> Frame) {
    forall x :: x in s.buffer ==> s.buffer[x] == frame(x)
  }

  lemma PutHolds(size: nat, s: State, front: seq<Packet>, x: nat, frame: Frame)
    requires Holding(s, front)
    ensures var t := AfterPush(size, s, x, frame);
            && !t.popped && t.initialised && t.buffer.Keys == s.buffer.Keys + {x}
            && t.next in t.buffer && (forall y :: y in t.buffer ==> t.next <= y)
            && (forall y :: y in s.buffer ==> t.buffer[y] == s.buffer[y])
            && (x !in s.buffer ==> t.buffer[x] == frame)
  {
    if |front| == 0 {
      assert s.buffer.Keys == {};
    }
    if x !in s.buffer {
      var u := s.(next := Anchor(s, x), initialised := true, buffer := s.buffer[x := frame]);
      assert u.next in u.buffer.Keys;
    }
  }

  lemma OneMoreHeld(size: nat, frame: nat -> Frame, arrivals: seq<Packet>, s: State)
    requires |arrivals| > 0 && Carries(arrivals, frame)
    requires Holding(s, arrivals[..|arrivals| - 1]) && AsPushed(s, frame)
    ensures Holding(AfterPush(size, s, arrivals[|arrivals| - 1].0, frame(arrivals[|arrivals| - 1].0)), arrivals)
    ensures AsPushed(AfterPush(size, s, arrivals[|arrivals| - 1].0, frame(arrivals[|arrivals| - 1].0)), frame)
  {
    var last := |arrivals| - 1;
    SeqsNext(arrivals, last);
    assert arrivals[..last + 1] == arrivals;
    PutHolds(size, s, arrivals[..last], arrivals[last].0, frame(arrivals[last].0));
  }

  /** Before the first pop nothing is dropped, however many packets arrive and however small the
      buffer is, and the head is always the least number held. */
  lemma {:induction false} HoldsEverything(size: nat, frame: nat -> Frame, arrivals: seq<Packet>)
    requires Carries(arrivals, frame)
    ensures Holding(Run(size, EMPTY, Puts(arrivals)).0, arrivals)
    ensures Run(size, EMPTY, Puts(arrivals)).1 == []
    ensures AsPushed(Run(size, EMPTY, Puts(arrivals)).0, frame)
    decreases |arrivals|
  {
    if |arrivals| == 0 {
      assert Puts(arrivals) == [];
    } else {
      var front, x := arrivals[..|arrivals| - 1], arrivals[|arrivals| - 1].0;
      HoldsEverything(size, frame, front);
      OneMoreHeld(size, frame, arrivals, Run(size, EMPTY, Puts(front)).0);
      PutsLast(frame, arrivals);
      RunSnoc(size, EMPTY, Puts(arrivals), Puts(front), Put(x, frame(x)));
    }
  }

  /** The buffer holds the block lo, ..., hi - 1 and its head stands at lo. */
  ghost predicate Holds(s: State, frame: nat -> Frame, lo: nat, hi: nat) {
    && s.initialised && s.next == lo
    && (forall x :: x in s.buffer <==> lo <= x < hi)
    && (forall x :: x in s.buffer ==> s.buffer[x] == frame(x))
  }

  lemma GetHolds(size: nat, s: State, frame: nat -> Frame, lo: nat, hi: nat)
    requires Holds(s, frame, lo, hi) && lo < hi
    ensures Holds(Step(size, s, Get).0, frame, lo + 1, hi)
    ensures Step(size, s, Get).1 == [(lo, frame(lo))]
  {
    assert lo in s.buffer;
  }

  lemma BlockLast(frame: nat -> Frame, lo: nat, hi: nat)
    requires lo < hi
    ensures Block(frame, lo, hi) == Block(frame, lo, hi - 1) + [(hi - 1, frame(hi - 1))]
  {
  }

  lemma Snoc<T>(a: seq<T>, b: seq<T>)
    requires |b| > 0
    ensures b == b[..|b| - 1] + [b[|b| - 1]]
    ensures a + b == (a + b[..|b| - 1]) + [b[|b| - 1]]
  {
  }

  lemma GetsLast(k: nat)
    requires k > 0
    ensures Gets(k) == Gets(k - 1) + [Get]
  {
  }

  lemma GetsOneMore(size: nat, s: State, front: seq<Op>, ops: seq<Op>, frame: nat -> Frame, lo: nat, mid: nat, hi: nat)
    requires ops == front + [Get] && lo <= mid < hi
    requires Holds(Run(size, s, front).0, frame, mid, hi) && Run(size, s, front).1 == Block(frame, lo, mid)
    ensures Holds(Run(size, s, ops).0, frame, mid + 1, hi) && Run(size, s, ops).1 == Block(frame, lo, mid + 1)
  {
    GetHolds(size, Run(size, s, front).0, frame, mid, hi);
    RunSnoc(size, s, ops, front, Get);
    BlockLast(frame, lo, mid + 1);
  }

  lemma {:induction false} GetsBlock(size: nat, s: State, frame: nat -> Frame, lo: nat, hi: nat, k: nat)
    requires Holds(s, frame, lo, hi) && lo + k <= hi
    ensures Holds(Run(size, s, Gets(k)).0, frame, lo + k, hi)
    ensures Run(size, s, Gets(k)).1 == Block(frame, lo, lo + k)
    decreases k
  {
    var ops := Gets(k);
    if k == 0 {
      assert Run(size, s, ops).1 == [] == Block(frame, lo, lo + k);
    } else {
      GetsBlock(size, s, frame, lo, hi, k - 1);
      GetsLast(k);
      GetsOneMore(size, s, Gets(k - 1), ops, frame, lo, lo + k - 1, hi);
    }
  }

  lemma {:induction false} RunJoin(size: nat, s: State, a: seq<Op>, b: seq<Op>)
    ensures Run(size, s, a + b).0 == Run(size, Run(size, s, a).0, b).0
    ensures Run(size, s, a + b).1 == Run(size, s, a).1 + Run(size, Run(size, s, a).0, b).1
    decreases |b|
  {
    if |b| == 0 {
      assert a + b == a;
    } else {
      var front, op := b[..|b| - 1], b[|b| - 1];
      var m := Run(size, s, a).0;
      RunJoin(size, s, a, front);
      Snoc(a, b);
      RunSnoc(size, s, a + b, a + front, op);
      RunSnoc(size, m, b, front, op);
    }
  }

  /** Once the whole block has arrived the buffer holds it and stands at its start. */
  lemma HoldsBlock(s: State, frame: nat -> Frame, arrivals: seq<Packet>, h: nat, n: nat)
    requires n > 0 && Permutes(arrivals, h, n) && Holding(s, arrivals)
    requires AsPushed(s, frame)
    ensures Holds(s, frame, h, h + n)
  {
    SeqsSize(arrivals);
    SpanSize(h, n);
    assert Seqs(arrivals) <= Span(h, n);
    SubsetSize(Seqs(arrivals), Span(h, n));
    assert h in Span(h, n);
    assert h in s.buffer.Keys;
  }

  /** Before the first pop the buffer sorts: any permutation of a block, pushed whole and then
      popped packet by packet, comes out in order, for every size. */
  lemma SortsBlock(size: nat, frame: nat -> Frame, arrivals: seq<Packet>, h: nat, n: nat)
    requires n > 0 && Permutes(arrivals, h, n) && Carries(arrivals, frame)
    ensures Run(size, EMPTY, Puts(arrivals) + Gets(n)).1 == Block(frame, h, h + n)
  {
    var s := Run(size, EMPTY, Puts(arrivals)).0;
    HoldsEverything(size, frame, arrivals);
    HoldsBlock(s, frame, arrivals, h, n);
    GetsBlock(size, s, frame, h, h + n, n);
    RunJoin(size, EMPTY, Puts(arrivals), Gets(n));
    var block := Block(frame, h, h + n);
    assert [] + block == block;
  }
}
