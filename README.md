# Token bucket rate limiter (rust_bucket), modelled in Dafny

This project models the token-bucket algorithm at the heart of a Redis module written in
Rust (`src/bucket.rs`). A bucket holds a number of tokens, up to a capacity, and earns one
token every `fill_rate` milliseconds. Refill is lazy: nothing happens between commands.
Each `take` or `peek` first projects how many tokens have been earned since `last_fill`.

- `take(tokens)` rejects a request for fewer than one token.
- It grants the request only when the projected value is strictly greater than the request.
- A grant commits the projection minus the tokens. A refusal replies 0 and changes nothing.
- `peek` reports the projection and commits nothing.

`last_fill` moves on by whole fill periods only, so it is never set to "now" as such.
Partial progress toward the next token is therefore kept between commands.

Files:

- `wrappers.dfy`: `Option` and `Result`, standing in for Rust's.
- `rust_int.dfy` (module `RustInt`): Rust's `/` on `i64`, which truncates toward zero
  (Dafny's `/` is Euclidean), and `std::cmp::min`.
- `bucket_spec.dfy` (module `BucketSpec`): the bucket as a value.
  - `State` holds the four fields.
  - `NewValue` is the refill projection.
  - `Create`, `Take` and `Peek` give the results of `new`, `take` and `peek` as functions
    of the old fields and the clock reading.
  - `Run` serves a sequence of `take` requests, with lemmas about such sequences.
- `bucket.dfy` (module `TokenBucket`): `class Bucket` with the four mutable fields.
  - `Take` updates the fields in place (`modifies this`) and is proved against `BucketSpec.Take`.
  - `Peek` is a function that only reads the fields.
  - `New` and the constructor build a fresh bucket.
  - Two client scenarios walk through a concrete trace.

The host clock `time()` (a foreign call to `RedisModule_Milliseconds`) becomes a parameter
`clock: Option<int>`. `Some(ms)` is the reading; `None` is the host lacking the call, which
the source reports as an error. `take` checks `tokens` before it reads the clock, and the
model keeps that order.

The intended behaviour of such a rate limiter differs from this code in three places, and
the model follows the code:

- A fill rate `<= 0` would be rejected at creation. Here `new` validates neither `capacity`
  nor `fill_rate`. A zero fill rate makes the source divide by zero, so `fillRate != 0` is a
  precondition of exactly the calls that divide. Negative fill rates are ordinary Rust
  arithmetic and are modelled as such.
- Elapsed time would be clamped at zero. Here it is not. With a positive fill rate and the
  clock at least one fill period behind `last_fill`, the projection loses tokens and moves
  `last_fill` backwards (`BackwardClockDrains`); less than one period behind, the truncating
  division gives no additions. So `last_fill` is proved monotone, for a positive fill rate,
  only on a clock that does not go back (`TakeLastFillMonotone`, `RunMonotone`). A backward
  clock can also make `peek` report a level below zero, although the stored value never
  goes negative (`BackwardClockNegativePeek`, `RunValid`).
- Bucket state would be persisted as a fixed 32-byte record. Here the codec for it is
  commented out and not registered with the host, so it is not modelled.

## Model

| member | source | states |
|---|---|---|
| `RustInt.Quot` | src/bucket.rs:65 | Rust `/` truncates toward zero: `q * b` lies between 0 and `a`, within `abs(b)` of `a` |
| `RustInt.QuotUnique` | src/bucket.rs:65 | those remainder conditions determine the quotient uniquely, so `Quot` is the Rust quotient and no other |
| `RustInt.QuotOfNonNegative` | src/bucket.rs:65 | on a non-negative dividend and a positive divisor the Rust quotient equals floor division |
| `RustInt.Min` | src/bucket.rs:67 | `std::cmp::min` returns one of its arguments and is below both |
| `BucketSpec.Time` | src/bucket.rs:51-62 | the clock reading, or `ClockUnavailable` exactly when the host lacks it |
| `BucketSpec.Create` | src/bucket.rs:21-28 | with a clock: `value == 0`, `last_fill == now`, capacity and fill rate exactly as passed (no validation); without one: `ClockUnavailable` |
| `BucketSpec.NewValue` | src/bucket.rs:64-68 | with `additions` the truncating quotient `(time - last_fill) / fill_rate` (`BucketSpec.Additions`): projected value is at most capacity and at most `value + additions`, and equals one of them; projected `last_fill` lies between the old `last_fill` and `time`, less than one fill period from `time`, in either clock direction |
| `BucketSpec.NewValueForward` | src/bucket.rs:64-68 | with a positive fill rate, on a clock at or past `last_fill`, one token per full `fill_rate` ms (floor division), capped at capacity; `last_fill` advances by exactly that many periods |
| `BucketSpec.NewValueWholePeriods` | src/bucket.rs:65-66 | the projected `last_fill` differs from the old one by a whole multiple of `fill_rate` |
| `BucketSpec.ProjectionSettled` | src/bucket.rs:64-68 | committing a projection and projecting again at the same instant gives the same projection |
| `BucketSpec.RefillComposes` | src/bucket.rs:64-68 | with a positive fill rate, on a clock that does not go back from `last_fill`, projecting at `t1`, committing, then projecting at `t2` equals projecting at `t2` directly: no partial progress is lost |
| `BucketSpec.BackwardClockDrains` | src/bucket.rs:65-67 | for every bucket with a positive fill rate, with the clock a fill period or more behind `last_fill`, the projection has fewer tokens and an earlier `last_fill` (no clamping) |
| `BucketSpec.BackwardClockNegativePeek` | src/bucket.rs:46-49 | a valid empty bucket read 3000 ms before its `last_fill` (1000 ms per token) reports -3 tokens |
| `BucketSpec.Commit` | src/bucket.rs:37-38 | the grant branch's assignments: new value plus tokens equals the projected value, `last_fill` becomes the projected one, capacity and fill rate untouched |
| `BucketSpec.Take` | src/bucket.rs:30-44 | fails exactly when `tokens < 1` (`InvalidTokens`, checked first) or the clock is missing (`ClockUnavailable`); replies `tokens` or 0; anything but a grant leaves the fields unchanged; capacity and fill rate never change; a grant leaves `1 <= value < capacity`; `0 <= value <= capacity` is preserved |
| `BucketSpec.TakeGrantRule` | src/bucket.rs:35-43 | a valid request is granted iff the projected value is strictly greater than it; a grant leaves projected value minus tokens and the projected `last_fill`; otherwise the reply is 0 and the state is unchanged |
| `BucketSpec.RefusalIdempotent` | src/bucket.rs:31-43 | repeating a refused or failed request gives the same reply and the same fields |
| `BucketSpec.TakeLastFillMonotone` | src/bucket.rs:35-38 | with a positive fill rate, on a clock at or past `last_fill`, `take` keeps `last_fill` between its old value and now; after a grant it is less than one fill period behind now |
| `BucketSpec.TakeWholePeriods` | src/bucket.rs:35-43 | one take, granted or not, moves `last_fill` by a whole multiple of `fill_rate` |
| `BucketSpec.TakeConserves` | src/bucket.rs:35-43 | with a positive fill rate, tokens granted by one take plus the change in value, times `fill_rate`, is at most the distance `last_fill` moved |
| `BucketSpec.TakeThenPeek` | src/bucket.rs:35-49 | a peek right after a take at the same instant reports the earlier projection minus exactly the tokens granted |
| `BucketSpec.Peek` | src/bucket.rs:46-49 | fails exactly when the clock is missing; the reported value is at most capacity, and on a forward clock with a positive fill rate at least `min(value, capacity)` |
| `BucketSpec.Run` | src/bucket.rs:30-44 | serving any sequence of take requests never changes capacity or fill rate |
| `BucketSpec.RunValid` | src/bucket.rs:30-44 | `0 <= value <= capacity` holds after any sequence of take requests once it held at the start |
| `BucketSpec.RunWholePeriods` | src/bucket.rs:30-44 | whatever the clock does, `last_fill` moves by whole multiples of `fill_rate` over any sequence of requests |
| `BucketSpec.RunMonotone` | src/bucket.rs:30-44 | with a positive fill rate, on a clock that never goes back and starts at or past `last_fill`, `last_fill` never decreases and never passes the latest reading |
| `BucketSpec.RunConserves` | src/bucket.rs:30-44 | with a positive fill rate, tokens granted plus tokens left, less tokens at the start, times `fill_rate`, is at most the distance `last_fill` moved |
| `BucketSpec.RateLimit` | src/bucket.rs:30-68 | from a valid bucket with a positive fill rate, on a clock that never goes back and starts at or past `last_fill`, the tokens granted never exceed the starting value plus one per `fill_rate` ms up to the latest reading |
| `TokenBucket.Bucket.Snapshot` | src/bucket.rs:12-18 | the four `i64` fields of the struct, as a `BucketSpec.State` |
| `TokenBucket.Bucket.constructor` | src/bucket.rs:22-27 | the struct literal of `new`: value 0, capacity and fill rate as given, `last_fill` the clock reading |
| `TokenBucket.Bucket.New` | src/bucket.rs:21-28 | fails only with `ClockUnavailable` when the clock is missing; otherwise a fresh bucket whose fields are those of `BucketSpec.Create` |
| `TokenBucket.Bucket.Take` | src/bucket.rs:30-44 | the reply and the new fields are those of `BucketSpec.Take`; an error or refusal leaves the object unchanged; capacity and fill rate never change; the invariant is preserved; with a positive fill rate and a forward clock, a grant keeps `last_fill` between its old value and now |
| `TokenBucket.Bucket.Peek` | src/bucket.rs:46-49 | reads the fields only (`&self`); fails exactly when the clock is missing; reports at most capacity, and on a forward clock with a positive fill rate at least `min(value, capacity)` |

## Left out

- `src/lib.rs` is not part of this model. It registers the Redis type and its `free` hook,
  and it parses command arguments, opens keys and logs. That is host plumbing. Its one
  decision, that `amount` defaults to 1 when the argument is missing or not an integer, is
  also left out.
- The clock `time()` calls into the host through an unsafe function pointer. It is modelled
  only by its result, the `clock: Option<int>` parameter.
- The 32-byte big-endian codec (`to_buf`/`from_buf`, src/bucket.rs:70-86) is not modelled.
  It is commented out in the source, and the host's save/load hooks are unset. Three of its
  four slices (`[..7]`, `[8..15]`, `[16..23]`) are 7 bytes wide, so `write_i64`/`read_i64`
  would panic; there is no working behaviour to state.
- `i64` overflow is not modelled: integers are unbounded. The source does not guard
  `value + additions`, `additions * fill_rate` or `time - last_fill`; overflow there, and
  the panic of `i64::MIN / -1`, are outside the model.
- A zero `fill_rate` makes the source panic on division by zero. The model makes
  `fillRate != 0` a precondition of the calls that divide, rather than modelling the panic.
- The `Debug` derive and the logging it serves are not modelled.
