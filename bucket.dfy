/**
 * `struct Bucket` of `src/bucket.rs` and its methods. `take` mutates the fields in place;
 * `peek` reads them. The host clock `time()` is the `clock` argument: `Some(ms)` is its
 * reading, `None` stands for the host lacking `RedisModule_Milliseconds`.
 */
module TokenBucket {
  import opened Wrappers
  import opened RustInt
  import BucketSpec

  class Bucket {
    var value: int
    var capacity: int
    var fillRate: int
    var lastFill: int

    /** The four fields as a value of the pure model. */
    function Snapshot(): (s: BucketSpec.State)
      reads this
      ensures s.value == value && s.capacity == capacity
      ensures s.fillRate == fillRate && s.lastFill == lastFill
    {
      BucketSpec.State(value, capacity, fillRate, lastFill)
    }

    /** The struct literal of `Bucket::new`: empty, stamped with `now`. */
    constructor (capacity: int, fillRate: int, now: int)
      ensures Snapshot() == BucketSpec.State(0, capacity, fillRate, now)
    {
      this.value := 0;
      this.capacity := capacity;
      this.fillRate := fillRate;
      this.lastFill := now;
    }

    /**
     * `Bucket::new`: fails only when the clock is unavailable; capacity and fill rate are
     * stored as given, without validation.
     */
    static method New(capacity: int, fillRate: int, clock: Option<int>)
      returns (r: Result<Bucket, BucketSpec.Error>)
      ensures r.Failure? <==> clock.None?
      ensures r.Failure? ==> r.error == BucketSpec.ClockUnavailable
      ensures r.Success? ==> fresh(r.value)
      ensures r.Success? ==>
                BucketSpec.Create(capacity, fillRate, clock) == Success(r.value.Snapshot())
    {
      match clock
      case None =>
        r := Failure(BucketSpec.ClockUnavailable);
      case Some(now) =>
        var b := new Bucket(capacity, fillRate, now);
        r := Success(b);
    }

    /**
     * `Bucket::take`: the reply and the new fields are those of `BucketSpec.Take`. Only a
     * grant writes `value` and `lastFill`; errors and refusals change nothing, and
     * `capacity` and `fillRate` never change.
     */
    method Take(tokens: int, clock: Option<int>) returns (r: Result<int, BucketSpec.Error>)
      requires tokens >= 1 && clock.Some? ==> fillRate != 0
      modifies this
      ensures BucketSpec.Take(old(Snapshot()), tokens, clock) == BucketSpec.TakeResult(r, Snapshot())
      ensures r != Success(tokens) ==> unchanged(this)
      ensures capacity == old(capacity) && fillRate == old(fillRate)
      ensures old(Snapshot().Valid()) ==> Snapshot().Valid()
      ensures r == Success(tokens) && fillRate > 0 && old(lastFill) <= clock.value ==>
                old(lastFill) <= lastFill <= clock.value
    {
      if tokens < 1 {
        return Failure(BucketSpec.InvalidTokens);
      }
      if clock.None? {
        return Failure(BucketSpec.ClockUnavailable);
      }
      var p := BucketSpec.NewValue(Snapshot(), clock.value);
      if p.value > tokens {
        value := p.value - tokens;
        lastFill := p.lastFill;
        r := Success(tokens);
      } else {
        r := Success(0);
      }
    }

    /** `Bucket::peek`: the projected value at the current time; takes `&self`. */
    function Peek(clock: Option<int>): (r: Result<int, BucketSpec.Error>)
      reads this
      requires clock.Some? ==> fillRate != 0
      ensures r.Failure? <==> clock.None?
      ensures r.Failure? ==> r.error == BucketSpec.ClockUnavailable
      ensures r.Success? ==> r.value <= capacity
      ensures r.Success? && lastFill <= clock.value && fillRate > 0 ==> r.value >= Min(value, capacity)
    {
      BucketSpec.Peek(Snapshot(), clock)
    }
  }

  /**
   * A caller's view: capacity 10, one token per 1000 ms, created at t = 0. The strict
   * threshold refuses the request at t = 1500 although one token is available; at
   * t = 2500 the grant leaves `lastFill` on the 2000 ms boundary, not at 2500.
   */
  method StrictThresholdScenario() {
    QuotOfSmall(500, 1000);
    QuotUnique(1500, 1000, 1);
    QuotUnique(2500, 1000, 2);
    var b := new Bucket(10, 1000, 0);
    var r := b.Take(1, Some(500));
    assert r == Success(0) && b.value == 0 && b.lastFill == 0;
    r := b.Take(1, Some(1500));
    assert r == Success(0) && b.value == 0 && b.lastFill == 0;
    r := b.Take(1, Some(2500));
    assert r == Success(1) && b.value == 1 && b.lastFill == 2000;
    assert b.Peek(Some(2500)) == Success(1);
    var e := b.Take(0, Some(3000));
    assert e == Failure(BucketSpec.InvalidTokens) && b.value == 1 && b.lastFill == 2000;
  }

  /** A full bucket left alone for a long time still reports exactly its capacity. */
  method CapacityCapScenario() {
    QuotUnique(1_000_000, 100, 10_000);
    var b := new Bucket(5, 100, 0);
    b.value := 5;
    assert b.Peek(Some(1_000_000)) == Success(5);
  }
}
