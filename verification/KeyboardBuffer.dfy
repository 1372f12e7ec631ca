/** The keyboard buffer of a process: a ring of 1024 events. */
module KeyboardBuffer {
  import opened Status

  const CAPACITY: nat := 1024  // written out under %, so that the arithmetic is linear

  type u16 = x: int | 0 <= x < 0x1_0000

  /** The remainder of C, which is negative for a negative n. */
  function Remainder(n: int): int {
    if n >= 0 then n % 1024 else -((-n) % 1024)
  }

  /** Index arithmetic on the ring: the remainder, corrected when it is negative. */
  function Circular(n: int): int {
    var rem := Remainder(n);
    if rem < 0 then rem + CAPACITY else rem
  }

  lemma ResidueUnique(n: int, q: int, r: int)
    requires n == 1024 * q + r && 0 <= r < 1024
    ensures n % 1024 == r
  {
  }

  /** The index is the least non-negative residue, which is what % means here, of every n. */
  lemma CircularIsResidue(n: int)
    ensures 0 <= Circular(n) < CAPACITY && Circular(n) == n % 1024
  {
    if n < 0 {
      var q, r := (-n) / 1024, (-n) % 1024;
      assert n == 1024 * -q - r;
      ResidueUnique(n, if r == 0 then -q else -q - 1, Circular(n));
    }
  }

  /** Where the event number i after the head lies. */
  function Place(head: int, i: nat): (p: nat)
    ensures p < CAPACITY
  {
    (head + i) % 1024
  }

  lemma PlacesDiffer(head: int, n: nat)
    requires n < CAPACITY
    ensures forall i: nat | i < n :: Place(head, i) != Place(head, n)
  {
    forall i: nat | i < n
      ensures Place(head, i) != Place(head, n)
    {
    }
  }

  lemma PlaceOfTail(head: int, n: nat)
    ensures Circular(Place(head, n) + 1) == Place(head, n + 1)
  {
  }

  lemma PlaceOfHead(head: int, n: nat)
    requires 0 <= head < CAPACITY && n > 0
    ensures Place(head, 0) == head
    ensures Place(head, n) == Place(Circular(head + 1), n - 1)
  {
  }

  lemma PlaceOfNext(head: int, i: nat)
    ensures Place(Circular(head + 1), i) == Place(head, i + 1)
    ensures Circular(head + 1) == Place(head, 1)
  {
  }

  class Buffer {
    var head: int
    var tail: int
    var size: int
    const buffer: array<u16>

    constructor ()
      ensures Valid() && Contents() == [] && fresh(buffer)
    {
      head, tail, size := 0, 0, 0;
      buffer := new u16[CAPACITY];
    }

    ghost predicate Valid()
      reads this
    {
      && buffer.Length == CAPACITY
      && 0 <= head < CAPACITY && 0 <= size <= CAPACITY
      && tail == Place(head, size)
    }

    /** The pending events, oldest first. */
    ghost function Contents(): (s: seq<u16>)
      requires Valid()
      reads this, buffer
      ensures |s| == size
      ensures forall i | 0 <= i < size :: s[i] == buffer[Place(head, i)]
    {
      seq<u16>(size, i requires 0 <= i < size && Valid() reads this, buffer => buffer[Place(head, i)])
    }

    method Push(event: u16) returns (res: Status)
      requires Valid()
      modifies this, buffer
      ensures Valid()
      ensures res == if event == 0 then EInvArg else if |old(Contents())| == CAPACITY then ENoMem else AllOk
      ensures Contents() == if res == AllOk then old(Contents()) + [event] else old(Contents())
      ensures var accepted := if res == AllOk then [event] else [];
        Step(History(old(Contents()), [], []), Event.Push(event)) == History(Contents(), accepted, [])
    {
      if event == 0 {
        return EInvArg;
      }
      if size == CAPACITY {
        return ENoMem;
      }
      ghost var was := Contents();
      hide Place;
      PlacesDiffer(head, size);
      PlaceOfTail(head, size);
      buffer[tail] := event;
      tail := Circular(tail + 1);
      size := size + 1;
      return AllOk;
    }

    method Pop() returns (event: u16)
      requires Valid()
      modifies this
      ensures Valid()
      ensures old(Contents()) == [] ==> event == 0 && Contents() == []
      ensures old(Contents()) != [] ==> event == old(Contents())[0] && Contents() == old(Contents())[1..]
      ensures var popped := if old(Contents()) != [] then [event] else [];
        Step(History(old(Contents()), [], []), Event.Pop) == History(Contents(), [], popped)
    {
      if size == 0 {
        return 0;
      }
      hide Place, Circular;
      ghost var was, first := Contents(), head;
      PlaceOfHead(head, size);
      event := buffer[head];
      head := Circular(head + 1);
      size := size - 1;
      forall i: nat | i < size
        ensures Contents()[i] == was[i + 1]
      {
        PlaceOfNext(first, i);
      }
    }
  }

  // ----- runs

  datatype Event = Push(event: u16) | Pop

  /** The pending events, the events accepted so far and the events handed out so far; a pop of an
      empty buffer hands out nothing. */
  datatype History = History(pending: seq<u16>, accepted: seq<u16>, popped: seq<u16>)

  function Step(h: History, e: Event): History {
    match e
    case Push(event) =>
      if event == 0 || |h.pending| == CAPACITY then h
      else h.(pending := h.pending + [event], accepted := h.accepted + [event])
    case Pop =>
      if h.pending == [] then h
      else h.(pending := h.pending[1..], popped := h.popped + [h.pending[0]])
  }

  function Run(h: History, events: seq<Event>): History
    decreases |events|
  {
    if events == [] then h else Run(Step(h, events[0]), events[1..])
  }

  /** A bounded queue: what came out, followed by what is pending, is what went in; and no event is 0,
      so that a pop that yields 0 found nothing. */
  ghost predicate Fifo(h: History) {
    && h.popped + h.pending == h.accepted
    && |h.pending| <= CAPACITY
    && 0 !in h.accepted && 0 !in h.pending
  }

  lemma {:induction false} RunsAreFifo(h: History, events: seq<Event>)
    requires Fifo(h)
    ensures Fifo(Run(h, events))
    ensures h.accepted <= Run(h, events).accepted && h.popped <= Run(h, events).popped
    decreases |events|
  {
    if events != [] {
      var h' := Step(h, events[0]);
      if events[0].Pop? && h.pending != [] {
        assert h.pending == [h.pending[0]] + h.pending[1..];
        assert h'.popped + h'.pending == h.popped + h.pending;
      } else if h' != h {
        assert h'.popped + h'.pending == h.popped + h.pending + [events[0].event];
      }
      RunsAreFifo(h', events[1..]);
    }
  }
}
