/**
 * The sequential bookkeeping of the pthread port of the OS abstraction
 * layer: tick conversions, the split of a tick for `clock_nanosleep`, the
 * absolute deadline of a timed wait, and the state of semaphores, event
 * flags and message boxes.
 *
 * There is one thread in this model. A wait that would block until another
 * thread acts is excluded by a precondition when it waits forever, and
 * times out (returns false) when it has a deadline.
 */
module Osal {
  import opened MaTypes

  const NsPerSec: nat := 1_000_000_000
  const NsPerMs: nat := 1_000_000

  // ---------------------------------------------------------------------------
  // Tick conversions
  // ---------------------------------------------------------------------------

  /** `Tick::fromMicroseconds`: `us * 1000` formed in `uint32_t`. */
  function FromMicroseconds(us: nat): (r: nat)
    requires us < Pow32
    ensures r < Pow32
  {
    (us * 1000) % Pow32
  }

  /**
   * `Tick::fromMilliseconds`: `ms * 1000 * 1000` formed in `uint32_t`;
   * wrapping after each product leaves the same value modulo 2^32 as
   * wrapping once.
   */
  function FromMilliseconds(ms: nat): (r: nat)
    requires ms < Pow32
    ensures r < Pow32
  {
    (ms * NsPerMs) % Pow32
  }

  /** The microsecond conversion is exact exactly up to 4294967 us. */
  lemma FromMicrosecondsExactIff(us: nat)
    requires us < Pow32
    ensures FromMicroseconds(us) == us * 1000 <==> us <= 4294967
  {
    if us <= 4294967 {
      assert (us * 1000) % Pow32 == us * 1000;
    } else {
      assert us * 1000 >= Pow32;
      assert FromMicroseconds(us) < us * 1000;
    }
  }

  /**
   * The millisecond conversion is exact exactly up to 4294 ms; five
   * seconds come out as 705032704 ns.
   */
  lemma FromMillisecondsWraps(ms: nat)
    requires ms < Pow32
    ensures FromMilliseconds(ms) == ms * NsPerMs <==> ms <= 4294
    ensures ms == 5000 ==> FromMilliseconds(ms) == 705032704
  {
    if ms <= 4294 {
      assert (ms * NsPerMs) % Pow32 == ms * NsPerMs;
    } else {
      assert ms * NsPerMs >= Pow32;
      assert FromMilliseconds(ms) < ms * NsPerMs;
    }
  }

  // ---------------------------------------------------------------------------
  // Clock values
  // ---------------------------------------------------------------------------

  /** A `struct timespec`; a valid one has `nsec < 10^9`. */
  datatype Timespec = Timespec(sec: nat, nsec: nat)

  predicate ValidTimespec(ts: Timespec) { ts.nsec < NsPerSec }

  /** Total nanoseconds of a timespec. */
  function Nanos(ts: Timespec): nat { ts.sec * NsPerSec + ts.nsec }

  /** `Tick::sleep`'s split of a tick, in nanoseconds, into `tv_sec` and `tv_nsec`. */
  function SleepSplit(tick: nat): (r: Timespec)
    ensures ValidTimespec(r) && Nanos(r) == tick
  {
    Timespec(tick / NsPerSec, tick % NsPerSec)
  }

  /** A later second means a longer timespec, whatever the nanoseconds. */
  lemma NanosBySecond(a: Timespec, b: Timespec)
    requires ValidTimespec(a)
    ensures a.sec < b.sec ==> Nanos(a) < Nanos(b)
  {
    if a.sec < b.sec {
      assert (a.sec + 1) * NsPerSec <= b.sec * NsPerSec;
    }
  }

  lemma SplitUnique(a: Timespec, b: Timespec)
    requires ValidTimespec(a) && ValidTimespec(b) && Nanos(a) == Nanos(b)
    ensures a == b
  {
    NanosBySecond(a, b);
    NanosBySecond(b, a);
  }

  /** The split is the only valid timespec with the tick's length. */
  lemma SleepSplitUnique(tick: nat, ts: Timespec)
    requires ValidTimespec(ts) && Nanos(ts) == tick
    ensures SleepSplit(tick) == ts
  {
    SplitUnique(SleepSplit(tick), ts);
  }

  /**
   * `Tick::current` as written: seconds scaled by 10^6, plus nanoseconds. It
   * agrees with a microsecond reading only on a whole second.
   */
  function CurrentAsWritten(ts: Timespec): (r: nat)
    ensures r == ts.sec * 1_000_000 + ts.nsec / 1000 <==> ts.nsec == 0
  {
    ts.sec * 1_000_000 + ts.nsec
  }

  /**
   * `Tick::current` with the unit `sleep` and `fromMicroseconds` use:
   * nanoseconds, from which a valid reading is recovered exactly.
   */
  function Current(ts: Timespec): (r: nat)
    ensures ValidTimespec(ts) ==> r / NsPerSec == ts.sec && r % NsPerSec == ts.nsec
  {
    if ValidTimespec(ts) then
      SleepSplitUnique(Nanos(ts), ts);
      Nanos(ts)
    else Nanos(ts)
  }

  /** Clock readings in order: a later second, or the same second and later nanoseconds. */
  predicate Earlier(a: Timespec, b: Timespec)
  {
    a.sec < b.sec || (a.sec == b.sec && a.nsec < b.nsec)
  }

  /** As written, a later clock reading can give a smaller tick. */
  lemma CurrentAsWrittenNotMonotone()
    ensures var a := Timespec(0, 999_999_999);
            var b := Timespec(1, 0);
            ValidTimespec(a) && ValidTimespec(b) && Earlier(a, b) && CurrentAsWritten(a) > CurrentAsWritten(b)
  {
  }

  /** In nanoseconds, ticks order exactly as clock readings do, and `sleep` splits a tick back into the reading. */
  lemma CurrentMonotone(a: Timespec, b: Timespec)
    requires ValidTimespec(a) && ValidTimespec(b)
    ensures Earlier(a, b) <==> Current(a) < Current(b)
    ensures SleepSplit(Current(a)) == a
  {
    NanosBySecond(a, b);
    NanosBySecond(b, a);
    SleepSplitUnique(Current(a), a);
  }

  // ---------------------------------------------------------------------------
  // Deadlines of timed waits
  // ---------------------------------------------------------------------------

  /**
   * The absolute deadline `wait`, `fetch` and `post` compute from the clock
   * reading `now` and a timeout in milliseconds: seconds are carried only
   * when the nanoseconds strictly exceed 10^9.
   */
  function DeadlineAsWritten(now: Timespec, timeoutMs: nat): (r: Timespec)
    requires ValidTimespec(now) && timeoutMs < Pow32
    ensures now.sec <= r.sec && r.nsec <= NsPerSec
    ensures timeoutMs == 0 ==> r == now
  {
    var nsec := timeoutMs * NsPerMs + now.nsec;
    if nsec > NsPerSec then Timespec(now.sec + nsec / NsPerSec, nsec % NsPerSec)
    else Timespec(now.sec, nsec)
  }

  /** The deadline with the carry taken at 10^9 itself: never before `now`, and `now` for a zero timeout. */
  function Deadline(now: Timespec, timeoutMs: nat): (r: Timespec)
    requires ValidTimespec(now) && timeoutMs < Pow32
    ensures now.sec <= r.sec
    ensures timeoutMs == 0 ==> r == now
  {
    var nsec := timeoutMs * NsPerMs + now.nsec;
    if nsec >= NsPerSec then Timespec(now.sec + nsec / NsPerSec, nsec % NsPerSec)
    else Timespec(now.sec, nsec)
  }

  lemma CarryTotal(sec: nat, nsec: nat)
    ensures (sec + nsec / NsPerSec) * NsPerSec + nsec % NsPerSec == sec * NsPerSec + nsec
  {
    assert (sec + nsec / NsPerSec) * NsPerSec == sec * NsPerSec + (nsec / NsPerSec) * NsPerSec;
  }

  /**
   * As written, the deadline lies `timeoutMs` after `now`, but its
   * nanoseconds reach 10^9, an invalid timespec, exactly when the sum lands
   * on 10^9.
   */
  lemma DeadlineAsWrittenSpec(now: Timespec, timeoutMs: nat)
    requires ValidTimespec(now) && timeoutMs < Pow32
    ensures Nanos(DeadlineAsWritten(now, timeoutMs)) == Nanos(now) + timeoutMs * NsPerMs
    ensures !ValidTimespec(DeadlineAsWritten(now, timeoutMs)) <==> timeoutMs * NsPerMs + now.nsec == NsPerSec
  {
    CarryTotal(now.sec, timeoutMs * NsPerMs + now.nsec);
  }

  /** One millisecond from 0.999 s past a second gives `tv_nsec == 10^9`. */
  lemma DeadlineAsWrittenBoundary(sec: nat)
    ensures DeadlineAsWritten(Timespec(sec, 999_000_000), 1) == Timespec(sec, NsPerSec)
  {
  }

  /** The corrected deadline lies `timeoutMs` after `now` and is always a valid timespec. */
  lemma DeadlineSpec(now: Timespec, timeoutMs: nat)
    requires ValidTimespec(now) && timeoutMs < Pow32
    ensures Nanos(Deadline(now, timeoutMs)) == Nanos(now) + timeoutMs * NsPerMs
    ensures ValidTimespec(Deadline(now, timeoutMs))
    ensures Deadline(now, timeoutMs) == SleepSplit(Nanos(now) + timeoutMs * NsPerMs)
  {
    CarryTotal(now.sec, timeoutMs * NsPerMs + now.nsec);
    SleepSplitUnique(Nanos(now) + timeoutMs * NsPerMs, Deadline(now, timeoutMs));
  }

  // ---------------------------------------------------------------------------
  // Semaphore
  // ---------------------------------------------------------------------------

  /** A timeout: `Tick::waitForever`, or a number of milliseconds. */
  datatype Timeout = Forever | Ms(ms: nat)

  class Semaphore {
    var count: nat

    constructor (count: nat)
      ensures this.count == count
    {
      this.count := count;
    }

    /** Takes one unit; a timed wait on an empty semaphore times out. */
    method Wait(timeout: Timeout) returns (ok: bool)
      requires timeout.Forever? ==> count > 0
      modifies this
      ensures ok <==> old(count) > 0
      ensures ok ==> count == old(count) - 1
      ensures !ok ==> count == old(count)
    {
      if count == 0 {
        return false;
      }
      count := count - 1;
      ok := true;
    }

    function GetCount(): nat
      reads this
    {
      count
    }

    method Signal()
      modifies this
      ensures count == old(count) + 1
    {
      count := count + 1;
    }
  }

  // ---------------------------------------------------------------------------
  // Event flags
  // ---------------------------------------------------------------------------

  /** `set`: the bits of `bits` are raised and no other bit changes. */
  function SetBits(value: bv32, bits: bv32): (r: bv32)
    ensures r & bits == bits
    ensures r & !bits == value & !bits
  {
    value | bits
  }

  /** `clear`: exactly the bits of `bits` are lowered. */
  function ClearBits(value: bv32, bits: bv32): (r: bv32)
    ensures r & bits == 0
    ensures r & !bits == value & !bits
  {
    value & !bits
  }

  /** Clearing bits just set forgets that they were set. */
  lemma ClearUndoesSet(value: bv32, bits: bv32)
    ensures ClearBits(SetBits(value, bits), bits) == ClearBits(value, bits)
  {
  }

  /** Setting and clearing are idempotent. */
  lemma SetClearIdempotent(value: bv32, bits: bv32)
    ensures SetBits(SetBits(value, bits), bits) == SetBits(value, bits)
    ensures ClearBits(ClearBits(value, bits), bits) == ClearBits(value, bits)
  {
  }

  class Event {
    var value: bv32

    /** The initial flags come from the declaration, which is not part of this model. */
    constructor (initial: bv32)
      ensures value == initial
    {
      value := initial;
    }

    method Set(bits: bv32)
      modifies this
      ensures value == SetBits(old(value), bits)
    {
      value := value | bits;
    }

    method Clear(bits: bv32)
      modifies this
      ensures value == ClearBits(old(value), bits)
    {
      value := value & !bits;
    }

    function Get(): bv32
      reads this
    {
      value
    }

    /** Waits for a bit of `mask`; reports the raised bits of `mask`. The flags are left as they are. */
    method Wait(mask: bv32, timeout: Timeout) returns (ok: bool, got: bv32)
      requires timeout.Forever? ==> value & mask != 0
      ensures ok <==> value & mask != 0
      ensures ok ==> got == value & mask && got != 0
    {
      if value & mask == 0 {
        return false, 0;
      }
      ok, got := true, value & mask;
    }
  }

  // ---------------------------------------------------------------------------
  // Message box
  // ---------------------------------------------------------------------------

  /** The slot `(r + i) % size` of the `i`-th oldest message, for `r < size` and `i <= size`. */
  function SlotOf(r: nat, i: nat, size: nat): nat
  {
    if r + i < size then r + i else r + i - size
  }

  /** A slot index below the ring size is its own remainder (kept apart so the ring proofs stay small). */
  lemma RemainderBelow(x: nat, size: nat)
    requires x < size
    ensures x % size == x
  {
  }

  /** Consecutive slots follow each other round the ring. */
  lemma SlotNext(r: nat, n: nat, size: nat)
    requires r < size && n < size
    ensures SlotOf(r, n, size) < size
    ensures (SlotOf(r, n, size) + 1) % size == SlotOf(r, n + 1, size)
  {
    var x := SlotOf(r, n, size);
    if x + 1 < size {
      RemainderBelow(x + 1, size);
    } else {
      assert x + 1 == size;
    }
  }

  /** `SlotOf` is the ring's `(r + i) % size`, as the write index is kept by the program. */
  lemma SlotOfIsMod(r: nat, i: nat, size: nat)
    requires r < size && i <= size
    ensures SlotOf(r, i, size) == (r + i) % size
  {
    var x := SlotOf(r, i, size);
    RemainderBelow(x, size);
    if r + i >= size {
      assert r + i == x + size;
    }
  }

  /** Advancing the read index by one slot shifts every later slot by one. */
  lemma SlotShift(r: nat, i: nat, size: nat)
    requires r < size && i + 1 <= size
    ensures SlotOf(SlotOf(r, 1, size), i, size) == SlotOf(r, i + 1, size)
  {
  }

  /** Fewer than `size` messages occupy distinct slots. */
  lemma SlotsDistinct(r: nat, i: nat, n: nat, size: nat)
    requires r < size && i < n < size
    ensures SlotOf(r, i, size) != SlotOf(r, n, size)
  {
  }

  /** A bounded FIFO of `size` slots, read at `r`, written at `w`, holding `count` messages. */
  class MessageBox<T(0)> {
    var msg: array<T>
    var r: nat
    var w: nat
    var count: nat
    const size: nat
    /** The messages held, oldest first. */
    ghost var Contents: seq<T>

    ghost predicate Valid()
      reads this, msg
    {
      && msg.Length == size
      && count <= size
      && (size == 0 ==> r == 0 && w == 0)
      && (size > 0 ==> r < size && w == SlotOf(r, count, size))
      && |Contents| == count
      && (forall i :: 0 <= i < count ==> SlotOf(r, i, size) < size && Contents[i] == msg[SlotOf(r, i, size)])
    }

    constructor (size: nat)
      ensures Valid() && fresh(msg)
      ensures this.size == size && Contents == []
    {
      this.size := size;
      msg := new T[size];
      r, w, count := 0, 0, 0;
      Contents := [];
    }

    /** Takes the oldest message; a timed fetch from an empty box times out (`None`). */
    method Fetch(timeout: Timeout) returns (m: Option<T>)
      requires Valid()
      requires timeout.Forever? ==> count > 0
      modifies this
      ensures Valid() && msg == old(msg)
      ensures m.Some? <==> old(count) > 0
      ensures m.Some? ==> m.value == old(Contents)[0] && Contents == old(Contents)[1..]
      ensures m.None? ==> Contents == old(Contents)
      ensures size > 0 ==> w == (r + count) % size
    {
      if size > 0 {
        SlotOfIsMod(r, count, size);
      }
      if count == 0 {
        return None;
      }
      ghost var r0 := r;
      count := count - 1;
      m := Some(msg[r]);
      SlotNext(r0, 0, size);
      r := (r + 1) % size;
      forall i | 0 <= i <= count
        ensures SlotOf(r, i, size) == SlotOf(r0, i + 1, size)
      {
        SlotShift(r0, i, size);
      }
      Contents := Contents[1..];
      SlotOfIsMod(r, count, size);
    }

    /** Appends `m`; a timed post to a full box times out. */
    method Post(m: T, timeout: Timeout) returns (ok: bool)
      requires Valid()
      requires timeout.Forever? ==> count < size
      modifies this, msg
      ensures Valid() && msg == old(msg)
      ensures ok <==> old(count) < size
      ensures ok ==> Contents == old(Contents) + [m]
      ensures !ok ==> Contents == old(Contents)
      ensures size > 0 ==> w == (r + count) % size
    {
      if size > 0 {
        SlotOfIsMod(r, count, size);
      }
      if count == size {
        return false;
      }
      SlotNext(r, count, size);
      forall i | 0 <= i < count
        ensures SlotOf(r, i, size) != w
      {
        SlotsDistinct(r, i, count, size);
      }
      msg[w] := m;
      count := count + 1;
      w := (w + 1) % size;
      Contents := Contents + [m];
      SlotOfIsMod(r, count, size);
      ok := true;
    }
  }
}
