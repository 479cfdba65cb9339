/** The two short-read loops: `read_fingerprint` (forensic/src/analyse.rs) and `fill` (core/src/vfs.rs). */
module Reads {
  import opened Machine

  /** What the next read call does: be interrupted, fail, or return at most `n` bytes, and at least
      one while there is data and room. */
  datatype Event = Interrupted | Failed | Chunk(n: nat)

  datatype Outcome = Count(n: nat) | Interrupt | Error

  datatype IoError = IoError

  /** How many bytes a read of `len` at `offset` can reach. */
  function Reach(data: Bytes, offset: int, len: int): nat
    requires offset >= 0 && len >= 0
  {
    if offset >= |data| then 0 else if offset + len <= |data| then len else |data| - offset
  }

  /** `w` is all of `data` that lies in the `len` bytes from `offset` on. */
  predicate IsWindow(w: Bytes, data: Bytes, offset: nat, len: nat) {
    && |w| <= len && (w != [] ==> offset + |w| <= |data|) && (forall k :: 0 <= k < |w| ==> w[k] == data[offset + k])
    && (|w| == len || offset + |w| >= |data|)
  }

  /** A byte source that answers by a schedule of events; once the schedule is used up every read
      is complete. */
  class Source {
    const data: Bytes
    const seekFails: int -> bool
    var pos: nat
    var schedule: seq<Event>

    constructor (data: Bytes, seekFails: int -> bool, schedule: seq<Event>)
      ensures this.data == data && this.seekFails == seekFails && this.schedule == schedule && pos == 0
    {
      this.data, this.seekFails, this.schedule, this.pos := data, seekFails, schedule, 0;
    }

    /** One positioned read into `buf[from..]`. */
    method ReadAt(offset: nat, buf: array<U8>, from: nat) returns (r: Outcome)
      requires from <= buf.Length
      modifies this`schedule, buf
      ensures schedule == Consumed(old(schedule)) && Obeys(r, old(schedule))
      ensures r.Count? ==> r.n == Taken(old(schedule), Reach(data, offset, buf.Length - from))
      ensures forall k :: 0 <= k < buf.Length ==>
                buf[k] == if r.Count? && from <= k < from + r.n then data[offset + k - from] else old(buf[k])
    {
      var limit := Reach(data, offset, buf.Length - from);
      if schedule != [] {
        var event := schedule[0];
        schedule := schedule[1..];
        match event {
          case Interrupted => return Interrupt;
          case Failed => return Error;
          case Chunk(_) =>
            limit := Least(Offered(event), limit);
        }
      }
      for i := 0 to limit
        modifies buf
        invariant forall k :: 0 <= k < buf.Length ==>
                    buf[k] == if from <= k < from + i then data[offset + k - from] else old(buf[k])
      {
        buf[from + i] := data[offset + i];
      }
      r := Count(limit);
    }

    /** `Read::read`: at the current position, which it advances. */
    method Read(buf: array<U8>, from: nat) returns (r: Outcome)
      requires from <= buf.Length
      modifies this`pos, this`schedule, buf
      ensures schedule == Consumed(old(schedule)) && Obeys(r, old(schedule))
      ensures pos == if r.Count? then old(pos) + r.n else old(pos)
      ensures r.Count? ==> r.n == Taken(old(schedule), Reach(data, old(pos), buf.Length - from))
      ensures forall k :: 0 <= k < buf.Length ==>
                buf[k] == if r.Count? && from <= k < from + r.n then data[old(pos) + k - from] else old(buf[k])
    {
      r := ReadAt(pos, buf, from);
      if r.Count? {
        pos := pos + r.n;
      }
    }
  }

  function Consumed(schedule: seq<Event>): seq<Event> {
    if schedule == [] then [] else schedule[1..]
  }

  /** The kind of outcome is the kind of the scheduled event. */
  predicate Obeys(r: Outcome, schedule: seq<Event>) {
    && (r.Count? <==> schedule == [] || schedule[0].Chunk?)
    && (r.Interrupt? <==> schedule != [] && schedule[0].Interrupted?)
  }

  /** How much an event offers: a chunk at least one byte. */
  function Offered(e: Event): nat {
    if !e.Chunk? then 0 else if e.n == 0 then 1 else e.n
  }

  /** How many of `reach` bytes the next read takes. */
  function Taken(schedule: seq<Event>, reach: nat): nat {
    if schedule == [] || reach < Offered(schedule[0]) then reach else Offered(schedule[0])
  }

  /** What the first `n` events offer together. */
  function Delivered(schedule: seq<Event>, n: nat): nat
    requires n <= |schedule|
  {
    if n == 0 then 0 else Delivered(schedule, n - 1) + Offered(schedule[n - 1])
  }

  lemma {:induction false} DeliveredGrows(schedule: seq<Event>, m: nat, n: nat)
    requires m <= n <= |schedule|
    ensures Delivered(schedule, m) <= Delivered(schedule, n)
  {
    if m < n { DeliveredGrows(schedule, m, n - 1); }
  }

  /** The first `n` events pass: none is fatal, and each chunk comes while some of the `avail` bytes
      are still to be delivered. */
  predicate Passes(schedule: seq<Event>, fatal: Event -> bool, avail: nat, n: nat)
    requires n <= |schedule|
  {
    forall j :: 0 <= j < n ==> !fatal(schedule[j]) && (schedule[j].Chunk? ==> Delivered(schedule, j) < avail)
  }

  /** A fatal event is reached: every event before it passes, and the buffer of `max` bytes is not
      full yet. (With fewer than `max` bytes available one more read follows the last of them.) */
  ghost predicate FailureReached(schedule: seq<Event>, fatal: Event -> bool, avail: nat, max: nat) {
    exists k :: 0 <= k < |schedule| && fatal(schedule[k]) && Passes(schedule, fatal, avail, k)
                && (avail == max ==> Delivered(schedule, k) < max)
  }

  /** The loop's position in the schedule: the events before `rest` have passed, and `filled` bytes
      have arrived. */
  ghost predicate Reading(all: seq<Event>, rest: seq<Event>, fatal: Event -> bool, avail: nat, filled: nat) {
    && |rest| <= |all| && rest == all[|all| - |rest|..] && filled <= avail
    && Passes(all, fatal, avail, |all| - |rest|)
    && (rest != [] ==> filled == Least(Delivered(all, |all| - |rest|), avail))
  }

  function Least(a: nat, b: nat): nat { if a <= b then a else b }

  lemma ReadPasses(all: seq<Event>, rest: seq<Event>, fatal: Event -> bool, avail: nat, filled: nat)
    requires Reading(all, rest, fatal, avail, filled)
    requires rest == [] || (!fatal(rest[0]) && (rest[0].Chunk? ==> filled < avail))
    ensures Reading(all, Consumed(rest), fatal, avail, filled + Taken(rest, avail - filled))
  {
    if rest != [] {
      var n := |all| - |rest|;
      assert rest[0] == all[n] && Consumed(rest) == all[n + 1..];
      assert Delivered(all, n + 1) == Delivered(all, n) + Offered(all[n]);
    }
  }

  lemma ReadFails(all: seq<Event>, rest: seq<Event>, fatal: Event -> bool, avail: nat, filled: nat, max: nat)
    requires Reading(all, rest, fatal, avail, filled) && filled < max && rest != [] && fatal(rest[0])
    ensures FailureReached(all, fatal, avail, max)
  {
    var n := |all| - |rest|;
    assert rest[0] == all[n];
  }

  /** With the buffer full, or the data used up and no event but a chunk to come, no failure is reached. */
  lemma ReadEnds(all: seq<Event>, rest: seq<Event>, fatal: Event -> bool, avail: nat, filled: nat, max: nat)
    requires Reading(all, rest, fatal, avail, filled) && filled == avail <= max
    requires filled == max || rest == [] || (rest[0].Chunk? && !fatal(rest[0]))
    ensures !FailureReached(all, fatal, avail, max)
  {
    var n := |all| - |rest|;
    if rest != [] { assert rest[0] == all[n]; }
    forall k | 0 <= k < |all| && fatal(all[k]) && Passes(all, fatal, avail, k)
      ensures avail == max && Delivered(all, k) >= max
    {
      assert k >= n;
      if filled == max { DeliveredGrows(all, n, k); }
    }
  }

  function FailedOnly(): Event -> bool { (e: Event) => e.Failed? }

  function AnyError(): Event -> bool { (e: Event) => !e.Chunk? }

  lemma ReachLess(data: Bytes, offset: nat, len: nat, filled: nat)
    requires filled <= Reach(data, offset, len)
    ensures filled <= len && Reach(data, offset + filled, len - filled) == Reach(data, offset, len) - filled
  {
  }

  /** `read_fingerprint`: whatever the schedule of short reads and interrupts, the available window,
      unless the seek fails or a failing read is reached. */
  method ReadFingerprint(src: Source, byteOffset: U64, max: nat) returns (r: Result<Bytes, IoError>)
    modifies src`pos, src`schedule
    ensures r.Ok? ==> IsWindow(r.value, src.data, byteOffset, max)
    ensures r.Err? <==>
            || src.seekFails(byteOffset)
            || FailureReached(old(src.schedule), FailedOnly(), Reach(src.data, byteOffset, max), max)
  {
    hide FailureReached, Reading;
    if src.seekFails(byteOffset) {
      return Err(IoError);
    }
    src.pos := byteOffset;
    var buf := new U8[max](_ => 0);
    var filled: nat := 0;
    ghost var all, fatal, avail := src.schedule, FailedOnly(), Reach(src.data, byteOffset, max);
    ReadStarts(all, fatal, avail);
    while filled < max
      invariant filled <= avail && src.pos == byteOffset + filled
      invariant forall k :: 0 <= k < filled ==> buf[k] == src.data[byteOffset + k]
      invariant Reading(all, src.schedule, fatal, avail, filled)
      decreases |src.schedule|, max - filled
    {
      ReachLess(src.data, byteOffset, max, filled);
      ghost var rest := src.schedule;
      var got := src.Read(buf, filled);
      match got {
        case Count(n) =>
          if n == 0 {
            ReadEnds(all, rest, fatal, avail, filled, max);
            break;
          }
          ReadPasses(all, rest, fatal, avail, filled);
          filled := filled + n;
        case Interrupt =>
          ReadPasses(all, rest, fatal, avail, filled);
        case Error =>
          ReadFails(all, rest, fatal, avail, filled, max);
          return Err(IoError);
      }
    }
    if filled == max { ReadEnds(all, src.schedule, fatal, avail, filled, max); }
    r := Ok(buf[..filled]);
  }

  lemma ReadStarts(all: seq<Event>, fatal: Event -> bool, avail: nat)
    ensures Reading(all, all, fatal, avail, 0)
  {
  }

  /** `fill`: the exact available prefix, the rest of the buffer untouched; an error, exactly when any
      failing read is reached, leaves a shorter prefix. `done` is the length of that prefix. */
  method Fill(src: Source, offset: U64, buf: array<U8>) returns (r: Result<(), IoError>, ghost done: nat)
    requires |src.data| <= U64_MAX
    modifies src`schedule, buf
    ensures done <= Reach(src.data, offset, buf.Length)
    ensures forall k :: 0 <= k < buf.Length ==> buf[k] == if k < done then src.data[offset + k] else old(buf[k])
    ensures r.Ok? ==> done == buf.Length || offset + done >= |src.data|
    ensures r.Err? <==>
            FailureReached(old(src.schedule), AnyError(), Reach(src.data, offset, buf.Length), buf.Length)
  {
    hide FailureReached, Reading;
    var off := offset;
    var start: nat := 0;
    ghost var all, fatal, avail := src.schedule, AnyError(), Reach(src.data, offset, buf.Length);
    ReadStarts(all, fatal, avail);
    while start < buf.Length
      invariant off == offset + start && start <= avail
      invariant forall k :: 0 <= k < buf.Length ==> buf[k] == if k < start then src.data[offset + k] else old(buf[k])
      invariant Reading(all, src.schedule, fatal, avail, start)
      decreases |src.schedule|, buf.Length - start
    {
      ReachLess(src.data, offset, buf.Length, start);
      ghost var rest := src.schedule;
      var got := src.ReadAt(off, buf, start);
      if !got.Count? {
        ReadFails(all, rest, fatal, avail, start, buf.Length);
        return Err(IoError), start;
      }
      if got.n == 0 {
        ReadEnds(all, rest, fatal, avail, start, buf.Length);
        break;
      }
      ReadPasses(all, rest, fatal, avail, start);
      off := SaturatingAdd(off, got.n);
      start := start + got.n;
    }
    if start == buf.Length { ReadEnds(all, src.schedule, fatal, avail, start, buf.Length); }
    r, done := Ok(()), start;
  }
}
