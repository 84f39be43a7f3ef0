/** The Snowflake identifier generator (snowflake/snowflake.go): a state
    machine over (lastTime, sequence) with a fixed worker id. The clock is
    an input: every `Generate` call is given the millisecond reading it
    starts from and the readings its busy-wait would take. The mutex is
    not modelled; each call is one atomic transition. */
module Snowflake {

  /** Milliseconds since the Unix epoch at which timestamps start. */
  const Epoch: int := 1288834974657
  const WorkerIdBits: nat := 10
  const SequenceBits: nat := 12
  /** 1 << WorkerIdBits */
  const MaxWorkerId: nat := 1024
  /** 1 << SequenceBits */
  const MaxSequence: nat := 4096
  const TimestampShift: nat := WorkerIdBits + SequenceBits
  const WorkerIdShift: nat := SequenceBits
  /** The weight of the timestamp field, 1 << TimestampShift. */
  const TimestampUnit: nat := 0x40_0000
  /** The weight of the worker-id field, 1 << WorkerIdShift. */
  const WorkerIdUnit: nat := 0x1000

  const TwoTo63: int := 0x8000_0000_0000_0000
  /** Timestamps are taken within 2^41 ms either side of the epoch, where
      the shifted timestamp still fits a signed 64-bit id. */
  const ClockLimit: int := 0x200_0000_0000

  predicate IsInt64(x: int)
  {
    -TwoTo63 <= x < TwoTo63
  }

  predicate InClock(t: int)
  {
    -ClockLimit <= t < ClockLimit
  }

  /** Elapsed milliseconds since `Epoch` for a Unix-millisecond reading. */
  function Elapsed(unixMillis: int): int
  {
    unixMillis - Epoch
  }

  datatype Generator = Generator(workerId: int, sequence: int, lastTime: int)

  datatype ConfigError = WorkerIdTooLarge | WorkerIdNegative

  datatype Result<T> = Ok(value: T) | Fail(error: ConfigError)

  /** The state every generator is in between calls: the worker id fits
      its 10 bits, the sequence its 12 bits. */
  predicate Valid(g: Generator)
  {
    && 0 <= g.workerId < MaxWorkerId
    && 0 <= g.sequence < MaxSequence
    && InClock(g.lastTime)
  }

  /** `NewSnowFlake` as written: only worker ids of 1024 and above are
      refused, so a negative worker id is accepted. */
  function NewSnowflakeAsWritten(workerId: int): (r: Result<Generator>)
    requires IsInt64(workerId)
    ensures r.Fail? <==> workerId >= MaxWorkerId
    ensures r.Ok? ==> r.value.workerId == workerId && r.value.sequence == 0 && r.value.lastTime == 0
  {
    if workerId >= MaxWorkerId then Fail(WorkerIdTooLarge)
    else Ok(Generator(workerId, 0, 0))
  }

  /** `NewSnowFlake` with the range check the ten-bit field needs: a worker
      id is accepted exactly when it fits, and the generator starts at
      sequence 0 and lastTime 0. */
  function NewSnowflake(workerId: int): (r: Result<Generator>)
    requires IsInt64(workerId)
    ensures r.Ok? <==> 0 <= workerId < MaxWorkerId
    ensures r.Ok? ==>
      Valid(r.value) && r.value.workerId == workerId && r.value.sequence == 0 && r.value.lastTime == 0
  {
    if workerId >= MaxWorkerId then Fail(WorkerIdTooLarge)
    else if workerId < 0 then Fail(WorkerIdNegative)
    else Ok(Generator(workerId, 0, 0))
  }

  /** The three fields of an identifier. */
  datatype Fields = Fields(time: int, workerId: int, sequence: int)

  /** Bit packing of an identifier, written as arithmetic: with the worker
      id and sequence inside their widths the fields occupy disjoint bits,
      so shifting and or-ing them is the same as this weighted sum (see
      `OrIsAddWhenDisjoint`). */
  function Pack(time: int, workerId: int, sequence: int): int
  {
    time * TimestampUnit + workerId * WorkerIdUnit + sequence
  }

  function Unpack(id: int): Fields
  {
    Fields(id / TimestampUnit, (id / WorkerIdUnit) % MaxWorkerId, id % MaxSequence)
  }

  /** Field non-overlap: unpacking recovers each field, and the id is a
      signed 64-bit value. */
  lemma UnpackPack(time: int, workerId: int, sequence: int)
    requires InClock(time)
    requires 0 <= workerId < MaxWorkerId && 0 <= sequence < MaxSequence
    ensures Unpack(Pack(time, workerId, sequence)) == Fields(time, workerId, sequence)
    ensures IsInt64(Pack(time, workerId, sequence))
  {
    var low := workerId * WorkerIdUnit + sequence;
    assert 0 <= low < TimestampUnit;
    var id := Pack(time, workerId, sequence);
    assert id == time * TimestampUnit + low;
    assert id / TimestampUnit == time;
    assert id / WorkerIdUnit == time * MaxWorkerId + workerId;
    assert (id / WorkerIdUnit) % MaxWorkerId == workerId;
  }

  /** Fields that fit their widths occupy disjoint bits, so the `|` of
      line 51 adds them. */
  lemma OrIsAddWhenDisjoint(time: bv64, workerId: bv64, sequence: bv64)
    requires workerId < 1024 && sequence < 4096
    ensures (time << TimestampShift) | (workerId << WorkerIdShift) | sequence
         == (time << TimestampShift) + (workerId << WorkerIdShift) + sequence
  {
  }

  function ToBv64(x: int): bv64
    requires IsInt64(x)
  {
    if x >= 0 then x as bv64 else 0 - ((-x) as bv64)
  }

  function FromBv64(b: bv64): int
  {
    if b >= 0x8000_0000_0000_0000 then -((0 - b) as int) else b as int
  }

  /** Line 51 as written, on two's-complement 64-bit words. */
  function PackAsWritten(time: int, workerId: int, sequence: int): int
    requires IsInt64(time) && IsInt64(workerId) && IsInt64(sequence)
  {
    FromBv64((ToBv64(time) << TimestampShift) | (ToBv64(workerId) << WorkerIdShift) | ToBv64(sequence))
  }

  /** What a negative worker id does to the packing as written: its sign
      bits cover the timestamp field, so two different milliseconds give
      the same identifier, while the checked constructor refuses that
      worker id. */
  lemma NegativeWorkerIdCollides()
    ensures NewSnowflakeAsWritten(-1).Ok?
    ensures PackAsWritten(5, -1, 0) == PackAsWritten(6, -1, 0)
    ensures NewSnowflake(-1) == Fail(WorkerIdNegative)
  {
  }

  /** With the checked constructor the packing is injective: two ids that
      are equal have equal fields. */
  lemma PackInjective(a: Fields, b: Fields)
    requires InClock(a.time) && 0 <= a.workerId < MaxWorkerId && 0 <= a.sequence < MaxSequence
    requires InClock(b.time) && 0 <= b.workerId < MaxWorkerId && 0 <= b.sequence < MaxSequence
    ensures Pack(a.time, a.workerId, a.sequence) == Pack(b.time, b.workerId, b.sequence) ==> a == b
  {
    UnpackPack(a.time, a.workerId, a.sequence);
    UnpackPack(b.time, b.workerId, b.sequence);
  }

  /** One call's clock: the first reading, and the readings the busy-wait
      would take after it (all in Unix milliseconds). */
  datatype Tick = Tick(now: int, resamples: seq<int>)

  predicate Advances(samples: seq<int>, last: int)
  {
    exists i :: 0 <= i < |samples| && Elapsed(samples[i]) > last
  }

  /** The busy-wait of lines 41-44: the position of the first reading past
      `last`. */
  function CatchUp(samples: seq<int>, last: int): (k: nat)
    requires Advances(samples, last)
    ensures k < |samples| && Elapsed(samples[k]) > last
    ensures forall j :: 0 <= j < k ==> Elapsed(samples[j]) <= last
    decreases |samples|
  {
    if Elapsed(samples[0]) > last then 0
    else
      assert Advances(samples[1..], last) by {
        var i :| 0 <= i < |samples| && Elapsed(samples[i]) > last;
        assert samples[1..][i - 1] == samples[i];
      }
      1 + CatchUp(samples[1..], last)
  }

  /** The increment of line 39 wraps to zero: the millisecond's sequence
      space is exhausted. */
  predicate Wraps(g: Generator, now: int)
  {
    now == g.lastTime && (g.sequence + 1) % MaxSequence == 0
  }

  /** A call can complete within the modelled clock range: the reading is
      in range and, if the sequence wraps, the clock eventually passes the
      last timestamp at a reading also in range. */
  predicate CanIssue(g: Generator, t: Tick)
  {
    && InClock(Elapsed(t.now))
    && (Wraps(g, Elapsed(t.now)) ==>
          Advances(t.resamples, g.lastTime)
          && InClock(Elapsed(t.resamples[CatchUp(t.resamples, g.lastTime)])))
  }

  /** The most recent identifier recorded by a generator's state. */
  function LastId(g: Generator): int
  {
    Pack(g.lastTime, g.workerId, g.sequence)
  }

  datatype Issued = Issued(id: int, gen: Generator)

  /** `Generate`: same millisecond bumps the sequence modulo 4096 (waiting
      for a later millisecond when it wraps), any other millisecond,
      earlier or later, resets it to 0. */
  function Generate(g: Generator, t: Tick): (r: Issued)
    requires Valid(g) && CanIssue(g, t)
    ensures Valid(r.gen) && r.gen.workerId == g.workerId
    ensures r.id == LastId(r.gen)
    ensures Unpack(r.id) == Fields(r.gen.lastTime, g.workerId, r.gen.sequence)
    ensures IsInt64(r.id)
    ensures Elapsed(t.now) == g.lastTime && !Wraps(g, Elapsed(t.now)) ==>
      r.gen.sequence == g.sequence + 1 && r.gen.lastTime == g.lastTime
    ensures Wraps(g, Elapsed(t.now)) ==>
      r.gen.sequence == 0 && r.gen.lastTime > g.lastTime
      && r.gen.lastTime == Elapsed(t.resamples[CatchUp(t.resamples, g.lastTime)])
    ensures Elapsed(t.now) != g.lastTime ==>
      r.gen.sequence == 0 && r.gen.lastTime == Elapsed(t.now)
  {
    var now := Elapsed(t.now);
    var next :=
      if now == g.lastTime then
        var sequence := (g.sequence + 1) % MaxSequence;
        if sequence == 0 then
          g.(sequence := 0, lastTime := Elapsed(t.resamples[CatchUp(t.resamples, g.lastTime)]))
        else g.(sequence := sequence)
      else g.(sequence := 0, lastTime := now);
    UnpackPack(next.lastTime, next.workerId, next.sequence);
    Issued(LastId(next), next)
  }

  /** One step of monotonicity: with a clock that has not gone back past
      the last timestamp, the new id exceeds the last one. */
  lemma GenerateIncreases(g: Generator, t: Tick)
    requires Valid(g) && CanIssue(g, t)
    requires Elapsed(t.now) >= g.lastTime
    ensures Generate(g, t).id > LastId(g)
  {
    var r := Generate(g, t);
    if r.gen.lastTime > g.lastTime {
      assert r.gen.lastTime * TimestampUnit >= g.lastTime * TimestampUnit + TimestampUnit;
    }
  }

  /** The code does not guard against clock regression: any reading
      earlier than the last timestamp resets the sequence, records the
      earlier timestamp and yields a smaller id than the last one. */
  lemma ClockRegressionDecreases(g: Generator, t: Tick)
    requires Valid(g) && CanIssue(g, t)
    requires Elapsed(t.now) < g.lastTime
    ensures Generate(g, t).gen.sequence == 0
    ensures Generate(g, t).gen.lastTime == Elapsed(t.now)
    ensures Generate(g, t).id < LastId(g)
  {
  }

  /** Clock regression is reachable from a valid state: worker 1 at
      sequence 5 and timestamp 100 reads timestamp 40 next. */
  lemma ClockRegressionReachable()
    ensures var g := Generator(1, 5, 100);
      var t := Tick(Epoch + 40, []);
      && Valid(g) && CanIssue(g, t) && Elapsed(t.now) < g.lastTime
      && Generate(g, t).id < LastId(g)
  {
  }

  /** A schedule of calls in which no reading goes back past the
      generator's last timestamp. */
  predicate Schedulable(g: Generator, ticks: seq<Tick>)
    decreases |ticks|
  {
    ticks == [] ||
      (&& Valid(g) && CanIssue(g, ticks[0])
       && Elapsed(ticks[0].now) >= g.lastTime
       && Schedulable(Generate(g, ticks[0]).gen, ticks[1..]))
  }

  /** The ids of successive calls on one generator. */
  function Run(g: Generator, ticks: seq<Tick>): (ids: seq<int>)
    requires Schedulable(g, ticks)
    ensures |ids| == |ticks|
    decreases |ticks|
  {
    if ticks == [] then []
    else
      var r := Generate(g, ticks[0]);
      [r.id] + Run(r.gen, ticks[1..])
  }

  /** Successive ids from one generator strictly increase, all above the
      last id it had recorded, so they are pairwise distinct. */
  lemma {:induction false} RunStrictlyIncreasing(g: Generator, ticks: seq<Tick>)
    requires Schedulable(g, ticks)
    ensures var ids := Run(g, ticks);
      (forall i :: 0 <= i < |ids| ==> ids[i] > LastId(g))
      && (forall i, j :: 0 <= i < j < |ids| ==> ids[i] < ids[j])
    decreases |ticks|
  {
    if ticks != [] {
      var r := Generate(g, ticks[0]);
      GenerateIncreases(g, ticks[0]);
      RunStrictlyIncreasing(r.gen, ticks[1..]);
      var ids := Run(g, ticks);
      assert ids[1..] == Run(r.gen, ticks[1..]);
      forall i | 1 <= i < |ids|
        ensures ids[i] > r.id
      {
        assert ids[i] == ids[1..][i - 1];
      }
    }
  }
}
