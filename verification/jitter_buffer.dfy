/** client/audio/jitter_buffer.py. Sequence numbers are naturals: the receive loop unpacks them from
    an unsigned field. */
module Jitter {
  import opened Bytes
  import opened Text
  import opened Sets

  type Frame = seq<byte>
  type Packet = (nat, Frame)

  datatype State = State(buffer: map<nat, Frame>, next: nat, initialised: bool, popped: bool)

  const EMPTY := State(map[], 0, false, false)

  /** _advance_to_earliest: the head skips forward to the smallest buffered number, never back. */
  function Advance(s: State): State {
    if s.buffer == map[] then s
    else
      var earliest := Min(s.buffer.Keys);
      if earliest > s.next then s.(next := earliest) else s
  }

  /** The head after a packet with number x has been seen: anchored to the first arrival, lowered
      by earlier numbers until the first pop. */
  function Anchor(s: State, x: nat): nat {
    if !s.initialised then x
    else if !s.popped && x < s.next then x
    else s.next
  }

  function AfterPush(size: nat, s: State, x: nat, frame: Frame): State {
    var t := s.(next := Anchor(s, x), initialised := true);
    if x < t.next - 2 * size || x in t.buffer then t
    else
      var u := t.(buffer := t.buffer[x := frame]);
      if |u.buffer| > size then Advance(u) else u
  }

  /** The state after a pop, and the packet it delivers. */
  function AfterPop(size: nat, s: State): (State, Option<Packet>) {
    if !s.initialised then (s, None)
    else
      var t := if |s.buffer| >= size && s.next !in s.buffer then Advance(s) else s;
      if t.next in t.buffer then
        (t.(buffer := t.buffer - {t.next}, next := t.next + 1, popped := true),
         Some((t.next, t.buffer[t.next])))
      else (t, None)
  }

  lemma SmallerBuffer(a: map<nat, Frame>, b: map<nat, Frame>)
    requires a.Keys < b.Keys
    ensures |a| < |b|
  {
    assert b.Keys == a.Keys + (b.Keys - a.Keys);
    assert |a| == |a.Keys| && |b| == |b.Keys|;
  }

  /** Popping until nothing comes. */
  function Drain(size: nat, s: State): (State, seq<Packet>)
    decreases |s.buffer|
  {
    var (t, packet) := AfterPop(size, s);
    if packet.None? then (t, [])
    else
      assert t.buffer.Keys < s.buffer.Keys;
      SmallerBuffer(t.buffer, s.buffer);
      var (u, rest) := Drain(size, t);
      (u, [packet.value] + rest)
  }

  /** The receive loop: push each packet, then drain. */
  function Play(size: nat, s: State, arrivals: seq<Packet>): (State, seq<Packet>)
    decreases |arrivals|
  {
    if |arrivals| == 0 then (s, [])
    else
      var (t, now) := Drain(size, AfterPush(size, s, arrivals[0].0, arrivals[0].1));
      var (u, later) := Play(size, t, arrivals[1..]);
      (u, now + later)
  }

  class JitterBuffer {
    const maxSize: nat
    var buffer: map<nat, Frame>
    var nextSeq: nat
    var initialised: bool
    var popped: bool

    function View(): State
      reads this
    {
      State(buffer, nextSeq, initialised, popped)
    }

    constructor (size: nat)
      requires size >= 1
      ensures maxSize == size && View() == EMPTY
    {
      maxSize := size;
      buffer, nextSeq, initialised, popped := map[], 0, false, false;
    }

    method Push(x: nat, frame: Frame)
      modifies this
      ensures View() == AfterPush(maxSize, old(View()), x, frame)
    {
      if !initialised {
        nextSeq, initialised := x, true;
      } else if !popped && x < nextSeq {
        nextSeq := x;
      }
      if x < nextSeq - 2 * maxSize {
        return;
      }
      if x in buffer {
        return;
      }
      buffer := buffer[x := frame];
      if |buffer| > maxSize {
        AdvanceToEarliest();
      }
    }

    method Pop() returns (frame: Option<Frame>)
      modifies this
      ensures View() == AfterPop(maxSize, old(View())).0
      ensures frame == match AfterPop(maxSize, old(View())).1
                       case None => None
                       case Some(packet) => Some(packet.1)
    {
      if !initialised {
        return None;
      }
      if |buffer| >= maxSize && nextSeq !in buffer {
        AdvanceToEarliest();
      }
      if nextSeq in buffer {
        frame := Some(buffer[nextSeq]);
        buffer := buffer - {nextSeq};
        nextSeq := nextSeq + 1;
        popped := true;
        return;
      }
      return None;
    }

    method Reset()
      modifies this
      ensures View() == EMPTY
    {
      buffer, nextSeq, initialised, popped := map[], 0, false, false;
    }

    method AdvanceToEarliest()
      modifies this
      ensures View() == Advance(old(View()))
    {
      if buffer == map[] {
        return;
      }
      var earliest := Min(buffer.Keys);
      if earliest > nextSeq {
        nextSeq := earliest;
      }
    }
  }
}
