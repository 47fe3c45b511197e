/**
 kernel/keyboard.c: the ring buffer between the keyboard interrupt and one reader.

 keyboard_getchar is three separate steps (test, load, advance), and the interrupt may come between any two
 of them.  The ring refines a bounded queue over every interleaving.
 */
module Keyboard {
  const KBD_BUF_SIZE := 32
  const LSHIFT := 0x2a
  const RSHIFT := 0x36

  /** What the reader does next. */
  datatype Phase = Test | Load | Advance
  datatype Event = Key(scancode: int) | Reader

  type Keymap = (bool, int) -> int

  // ---------------------------------------------------------------- the queue

  /** items wait to be read; held is the reader's local c; out was returned; log is all that was accepted. */
  datatype Queue = Queue(items: seq<int>, shift: bool, phase: Phase, held: int, out: seq<int>, log: seq<int>)

  function IsShift(code: int): bool { code == LSHIFT || code == RSHIFT }

  function Typed(q: Queue, code: int, keymap: Keymap): Queue {
    if code >= 0x80 then (if IsShift(code - 0x80) then q.(shift := false) else q)
    else if IsShift(code) then q.(shift := true)
    else if |q.items| == KBD_BUF_SIZE - 1 then q
    else q.(items := q.items + [keymap(q.shift, code)], log := q.log + [keymap(q.shift, code)])
  }

  function Read(q: Queue): Queue
    requires q.phase != Test ==> q.items != []
  {
    match q.phase
    case Test => if q.items == [] then q else q.(phase := Load)
    case Load => q.(phase := Advance, held := q.items[0])
    case Advance => q.(phase := Test, items := q.items[1..], out := q.out + [q.held])
  }

  /** What was accepted has been returned, in order, or waits; at most 31 characters wait. */
  ghost predicate Orderly(q: Queue) {
    && q.log == q.out + q.items && |q.items| <= KBD_BUF_SIZE - 1
    && (q.phase != Test ==> q.items != []) && (q.phase == Advance ==> q.held == q.items[0])
  }

  function Next(q: Queue, e: Event, keymap: Keymap): (q': Queue)
    requires Orderly(q)
    ensures Orderly(q')
  {
    match e
    case Key(code) => Typed(q, code, keymap)
    case Reader => Read(q)
  }

  function After(q: Queue, events: seq<Event>, keymap: Keymap): (q': Queue)
    requires Orderly(q)
    ensures Orderly(q') && q.out <= q'.out && q.log <= q'.log
    decreases |events|
  {
    if events == [] then q else After(Next(q, events[0], keymap), events[1..], keymap)
  }

  const Empty := Queue([], false, Test, 0, [], [])

  lemma {:induction false} AfterSnoc(q: Queue, events: seq<Event>, e: Event, keymap: Keymap)
    requires Orderly(q)
    ensures After(q, events + [e], keymap) == Next(After(q, events, keymap), e, keymap)
    decreases |events|
  {
    var all := events + [e];
    if events == [] {
      assert all == [e] && all[1..] == [];
      assert After(Next(q, e, keymap), [], keymap) == Next(q, e, keymap);
    } else {
      assert all[0] == events[0] && all[1..] == events[1..] + [e];
      AfterSnoc(Next(q, events[0], keymap), events[1..], e, keymap);
    }
  }

  /** The characters that the keys type, if every one of them is accepted. */
  function Text(shift: bool, events: seq<Event>, keymap: Keymap): seq<int>
    decreases |events|
  {
    if events == [] then [] else
      var e, rest := events[0], events[1..];
      if e.Reader? then Text(shift, rest, keymap)
      else if e.scancode >= 0x80 then Text(shift && !IsShift(e.scancode - 0x80), rest, keymap)
      else if IsShift(e.scancode) then Text(true, rest, keymap)
      else [keymap(shift, e.scancode)] + Text(shift, rest, keymap)
  }

  /** However the reader is delayed or interrupted, up to 31 characters arrive as typed. */
  lemma {:induction false} NothingLost(q: Queue, events: seq<Event>, keymap: Keymap)
    requires Orderly(q) && |q.items| + |Text(q.shift, events, keymap)| <= KBD_BUF_SIZE - 1
    ensures After(q, events, keymap).log == q.log + Text(q.shift, events, keymap)
    decreases |events|
  {
    if events != [] {
      if events[0].Key? { TypedText(q, events, keymap); }
      NothingLost(Next(q, events[0], keymap), events[1..], keymap);
    }
  }

  lemma TypedText(q: Queue, events: seq<Event>, keymap: Keymap)
    requires events != [] && events[0].Key? && |q.items| + |Text(q.shift, events, keymap)| <= KBD_BUF_SIZE - 1
    ensures var q', rest := Typed(q, events[0].scancode, keymap), events[1..];
            && |q'.items| + |Text(q'.shift, rest, keymap)| <= KBD_BUF_SIZE - 1
            && q'.log + Text(q'.shift, rest, keymap) == q.log + Text(q.shift, events, keymap)
  {
    var code, rest := events[0].scancode, events[1..];
    if code < 0x80 && !IsShift(code) {
      var c, t := keymap(q.shift, code), Text(q.shift, rest, keymap);
      assert q.log + ([c] + t) == q.log + [c] + t;
    }
  }

  // ---------------------------------------------------------------- the reader gets on

  function Readers(events: seq<Event>): nat {
    if events == [] then 0 else (if events[0].Reader? then 1 else 0) + Readers(events[1..])
  }

  /** How many of the three steps for the next character have been made. */
  function Made(q: Queue): nat {
    match q.phase
    case Test => 0
    case Load => 1
    case Advance => 2
  }

  /** One reader step: it makes one of three steps towards the first waiting character, and the third returns it. */
  lemma OneStep(q: Queue, keymap: Keymap)
    requires Orderly(q)
    ensures var q' := Next(q, Reader, keymap);
            && q'.log == q.log && q'.shift == q.shift
            && (q.items == [] ==> q' == q && q.phase == Test)
            && (q.items != [] && Made(q) < 2 ==> q'.items == q.items && q'.out == q.out && Made(q') == Made(q) + 1)
            && (Made(q) == 2 ==> q'.out == q.out + [q.items[0]] && q'.items == q.items[1..] && Made(q') == 0)
  {
  }

  /** An interrupt does not touch the reader: what waits stays in front of what arrives. */
  lemma OneKey(q: Queue, code: int, keymap: Keymap)
    requires Orderly(q)
    ensures var q' := Next(q, Key(code), keymap);
            q'.out == q.out && Made(q') == Made(q) && q.items <= q'.items
  {
  }

  /** Three reader steps for each of k waiting characters return them, in order, whatever interrupts come in between. */
  lemma {:induction false} Progress(q: Queue, events: seq<Event>, k: nat, keymap: Keymap)
    requires Orderly(q) && k <= |q.items| && Made(q) + Readers(events) >= 3 * k
    ensures q.out + q.items[..k] <= After(q, events, keymap).out
    decreases |events|
  {
    if k == 0 {
      assert q.out + q.items[..0] == q.out;
    } else if events != [] {
      var e, rest := events[0], events[1..];
      var q' := Next(q, e, keymap);
      if e.Key? {
        OneKey(q, e.scancode, keymap);
        assert q'.items[..k] == q.items[..k];
        Progress(q', rest, k, keymap);
      } else {
        OneStep(q, keymap);
        if Made(q) == 2 {
          Progress(q', rest, k - 1, keymap);
          assert q.items[..k] == [q.items[0]] + q.items[1..][..k - 1];
          assert q.out + q.items[..k] == q'.out + q'.items[..k - 1];
        } else {
          Progress(q', rest, k, keymap);
        }
      }
    }
  }

  /** The reader is never faster than that. */
  lemma {:induction false} Pace(q: Queue, events: seq<Event>, keymap: Keymap)
    requires Orderly(q)
    ensures 3 * (|After(q, events, keymap).out| - |q.out|) <= Made(q) + Readers(events)
    decreases |events|
  {
    if events != [] {
      if events[0].Key? { OneKey(q, events[0].scancode, keymap); } else { OneStep(q, keymap); }
      Pace(Next(q, events[0], keymap), events[1..], keymap);
    }
  }

  lemma {:induction false} AfterCat(q: Queue, events: seq<Event>, more: seq<Event>, keymap: Keymap)
    requires Orderly(q)
    ensures After(q, events + more, keymap) == After(After(q, events, keymap), more, keymap)
    decreases |events|
  {
    if events == [] {
      assert events + more == more;
    } else {
      assert (events + more)[1..] == events[1..] + more;
      AfterCat(Next(q, events[0], keymap), events[1..], more, keymap);
    }
  }

  /** Up to 31 characters, however typed, reach the reader as typed once it has made three steps for each. */
  lemma Delivered(events: seq<Event>, more: seq<Event>, keymap: Keymap)
    requires |Text(false, events, keymap)| <= KBD_BUF_SIZE - 1 && Readers(more) >= 3 * |Text(false, events, keymap)|
    ensures Text(false, events, keymap) <= After(Empty, events + more, keymap).out
  {
    var q := After(Empty, events, keymap);
    NothingLost(Empty, events, keymap);
    assert q.out + q.items == Text(false, events, keymap);
    Progress(q, more, |q.items|, keymap);
    assert q.items[..|q.items|] == q.items;
    AfterCat(Empty, events, more, keymap);
  }

  // ---------------------------------------------------------------- the ring

  function Slot(r: int, k: int): int { (r + k) % KBD_BUF_SIZE }

  ghost predicate Stored(b: seq<int>, r: int, items: seq<int>) {
    && |b| == KBD_BUF_SIZE && 0 <= r < KBD_BUF_SIZE && |items| <= KBD_BUF_SIZE - 1
    && forall k {:trigger items[k]} :: 0 <= k < |items| ==> b[Slot(r, k)] == items[k]
  }

  /** The slot that the interrupt fills holds no character that waits; the ring is full with one slot to spare. */
  lemma Push(b: seq<int>, r: int, items: seq<int>, x: int)
    requires Stored(b, r, items)
    ensures Slot(Slot(r, |items|), 1) != r <==> |items| < KBD_BUF_SIZE - 1
    ensures |items| < KBD_BUF_SIZE - 1 ==>
              Stored(b[Slot(r, |items|) := x], r, items + [x]) && Slot(Slot(r, |items|), 1) == Slot(r, |items| + 1)
  {
    var b', items' := b[Slot(r, |items|) := x], items + [x];
    forall k | 0 <= k < |items'| && |items| < KBD_BUF_SIZE - 1 ensures b'[Slot(r, k)] == items'[k] {
      assert k < |items| ==> Slot(r, k) != Slot(r, |items|) && items[k] == items'[k];
    }
  }

  lemma NextSlot(r: int, k: int)
    requires 0 <= r < KBD_BUF_SIZE && 0 <= k
    ensures Slot(Slot(r, 1), k) == Slot(r, k + 1)
  {
  }

  lemma Pop(b: seq<int>, r: int, items: seq<int>)
    requires Stored(b, r, items) && items != []
    ensures Stored(b, Slot(r, 1), items[1..]) && Slot(Slot(r, 1), |items| - 1) == Slot(r, |items|) && b[r] == items[0]
  {
    assert Slot(r, 0) == r;
    NextSlot(r, |items| - 1);
    forall k | 0 <= k < |items| - 1 ensures b[Slot(Slot(r, 1), k)] == items[1..][k] {
      NextSlot(r, k);
      assert items[1..][k] == items[k + 1];
    }
  }

  class Ring {
    var buffer: array<int>
    var readIdx: int
    var writeIdx: int
    var shiftPressed: bool
    var lastChar: int
    var phase: Phase
    var c: int
    ghost var q: Queue

    ghost predicate Valid()
      reads this, buffer
    {
      && Stored(buffer[..], readIdx, q.items) && writeIdx == Slot(readIdx, |q.items|)
      && Orderly(q) && q.shift == shiftPressed && q.phase == phase && (phase == Advance ==> q.held == c)
    }

    constructor ()
      ensures Valid() && q == Empty && fresh(buffer)
    {
      buffer := new int[KBD_BUF_SIZE];
      readIdx, writeIdx, shiftPressed, lastChar, phase, c := 0, 0, false, 0, Test, 0;
      q := Empty;
    }

    /** keyboard.c:91-123 */
    method Handler(scancode: int, keymap: Keymap)
      requires Valid()
      modifies this, buffer
      ensures Valid() && buffer == old(buffer) && q == Typed(old(q), scancode, keymap) && phase == old(phase)
      ensures lastChar == if scancode < 0x80 && !IsShift(scancode) then keymap(old(shiftPressed), scancode)
              else old(lastChar)
    {
      Push(buffer[..], readIdx, q.items, keymap(shiftPressed, scancode));
      q := Typed(q, scancode, keymap);
      if scancode >= 0x80 {
        var code := scancode - 0x80;
        if code == LSHIFT || code == RSHIFT {
          shiftPressed := false;
        }
      } else {
        if scancode == LSHIFT || scancode == RSHIFT {
          shiftPressed := true;
        } else {
          lastChar := keymap(shiftPressed, scancode);
          if (writeIdx + 1) % KBD_BUF_SIZE != readIdx {
            buffer[writeIdx] := lastChar;
            writeIdx := (writeIdx + 1) % KBD_BUF_SIZE;
          }
        }
      }
    }

    /** One of the steps of keyboard.c:125-134. */
    method ReaderStep() returns (done: bool, got: int)
      requires Valid()
      modifies this
      ensures Valid() && buffer == old(buffer) && q == Read(old(q)) && q.out == old(q).out + if done then [got] else []
      ensures old(phase) == Test ==> !done && phase == (if old(q).items == [] then Test else Load)
      ensures old(phase) == Load ==> !done && phase == Advance
      ensures old(phase) == Advance ==> done && phase == Test && got == old(q).items[0] && q.items == old(q).items[1..]
      ensures old(phase) != Advance ==> q.items == old(q).items
    {
      done, got := false, 0;
      if phase != Test { Pop(buffer[..], readIdx, q.items); }
      q := Read(q);
      match phase {
        case Test =>
          if readIdx != writeIdx {
            phase := Load;
          }
        case Load =>
          c := buffer[readIdx];
          phase := Advance;
        case Advance =>
          readIdx := (readIdx + 1) % KBD_BUF_SIZE;
          phase := Test;
          done, got := true, c;
      }
    }
  }

  /** Every interleaving of the interrupt with the reader's steps. */
  method Interleave(events: seq<Event>, keymap: Keymap) returns (out: seq<int>)
    ensures out == After(Empty, events, keymap).out
    ensures out <= After(Empty, events, keymap).log
  {
    var ring := new Ring();
    out := [];
    var i := 0;
    while i < |events|
      invariant 0 <= i <= |events| && ring.Valid() && fresh(ring) && fresh(ring.buffer)
      invariant ring.q == After(Empty, events[..i], keymap) && out == ring.q.out
    {
      assert events[..i + 1] == events[..i] + [events[i]];
      AfterSnoc(Empty, events[..i], events[i], keymap);
      match events[i] {
        case Key(code) => ring.Handler(code, keymap);
        case Reader =>
          var done, got := ring.ReaderStep();
          if done {
            out := out + [got];
          }
      }
      i := i + 1;
    }
    assert events[..i] == events;
  }
}
