# ringo `manyToOne`: a lossy many-producer, single-consumer ring buffer

This project models, in Dafny, the `manyToOne` buffer of the Go package
`ringo` (`many_to_one.go`). The buffer has a fixed number of slots. Producers
`Push` payloads and never block. The single consumer `Shift`s them out.
When producers outrun the consumer, older unread entries are overwritten.

Everything is in `ringo.dfy`, module `Ringo`:

- `Box<T>` is what a producer installs: the sequence number it reserved
  (`index`) and its payload (`data`). A slot is an `Option<Box<T>>`, where
  `None` is the Go `nil` of a never-written slot.
- `ManyToOne<T>` is a class with the source's fields: `head` (producer
  counter), `tail` (consumer counter), `capacity` and `buffer`, an
  `array<Option<Box<T>>>`. A ghost field `pushed` records every payload
  pushed so far. `Valid()` ties the real fields to it.
- Both counters are `uint64` in the source. The model keeps them in
  `[0, 2^64)` and increments them modulo 2^64, as `atomic.AddUint64` and
  `tail++` do. So `head` starts at 2^64 - 1 (`^uint64(0)`), and the first
  push wraps it to sequence 0.
- `Slots(cap, pushed)` is the reference semantics. It gives the slot array
  of a fresh buffer after the given pushes. Push number n (from 0) installs
  a box tagged `n mod 2^64` in slot `(n mod 2^64) mod cap`. `Valid()`
  requires `buffer[..] == Slots(capacity, pushed)`.
- `SlotHoldsLatest` gives the closed form of `Slots` for the first 2^64
  pushes. Slot i is empty until some push maps to it. After that it holds
  the most recent push whose sequence number is congruent to i.
- `Observe` is what Shift reports for the slot it read.
  `ShiftFlagMeansLapped` says what the freshness flag means. The flag is
  the source's own test, "stored sequence number > tail after the
  increment". For capacity > 1 it is true exactly when producers have
  lapped the consumer. This means the push with sequence number
  `t + capacity` has already overwritten position `t`. The entry the
  consumer expected, sequence `t`, reads as not fresh. For capacity 1 the
  flag needs two pushes beyond `t`. The model keeps this comparison exactly
  as written: strict `>` against the incremented tail.
- Shifts do not observe sequence numbers in increasing order once producers
  have pushed more than `capacity` entries ahead of the consumer. Each slot
  keeps only its latest entry, and those entries come from different laps.
  `LappedShiftsOutOfOrder` shows this for capacity 3 and five pushes: the
  consumer reads sequence numbers 3, 4, then 2.
- `OnePushOneShift`, `ShiftNeverWritten`, `FillThenShift` and
  `OverfillThenShift` are client methods. Each drives a fresh buffer
  through Push and Shift and states what the consumer observes.

Each Push and each Shift is one indivisible step. The results hold for any
interleaving of such steps.

## Model

| member | source | states |
|---|---|---|
| `Ringo.ManyToOne.constructor` | many_to_one.go:11-17 | a fresh buffer has `capacity` slots, all empty; `head` is 2^64 - 1, `tail` is 0 and nothing has been pushed |
| `Ringo.ManyToOne.Cap` | many_to_one.go:19-21 | the capacity is positive, fits in 32 bits and equals the number of slots |
| `Ringo.ManyToOne.Push` | many_to_one.go:24-34 | `head` advances by one modulo 2^64 to the sequence number of this push; slot `head % capacity` now holds a box with that number and the data, whatever it held before; every other slot and `tail` are unchanged; the buffer stays valid |
| `Ringo.ManyToOne.Shift` | many_to_one.go:38-49 | reads the slot at `old(tail) % capacity` and advances `tail` by one modulo 2^64 whether or not the slot was written; returns no value for an empty slot, otherwise the slot's data and whether its sequence number exceeds the new `tail`; the slots, `head` and the push history are unchanged |
| `Ringo.SeqOf` | many_to_one.go:25-26 | the sequence number of push n is below 2^64, and within the first 2^64 pushes it is n itself |
| `Ringo.HeadAfter` | many_to_one.go:13-25 | `head` is 2^64 - 1 on a fresh buffer and n - 1 after n pushes (n up to 2^64); one more increment yields the next push's sequence number |
| `Ringo.Slots` | many_to_one.go:24-34 | after any pushes, the slot array still has `cap` slots, and a written slot i holds a sequence number congruent to i modulo `cap` |
| `Ringo.SlotHoldsLatest` | many_to_one.go:26-33 | within the first 2^64 pushes, slot i is empty if fewer than i + 1 pushes happened, and otherwise holds the box of the latest push whose sequence number is congruent to i |
| `Ringo.FirstEntryOverwritten` | many_to_one.go:26-33 | after `cap + 1` pushes into a fresh buffer, slot 0 holds sequence `cap`, and no slot still holds the entry of sequence 0 |
| `Ringo.LappedShiftsOutOfOrder` | many_to_one.go:26-48 | after five pushes into a fresh buffer of capacity 3 the slots hold sequence numbers 3, 4 and 2, so three shifts from tail 0 return the payloads of pushes 3, 4 and then 2 |
| `Ringo.SingleSlotLatestWins` | many_to_one.go:24-34 | with capacity 1, the only slot holds the most recent push |
| `Ringo.ShiftFlagMeansLapped` | many_to_one.go:38-48 | a Shift at position t returns a value iff some push mapped to slot `t % cap`; its flag is true iff more than `t + cap` pushes happened (for `cap == 1`, more than `t + 2`) |
| `Ringo.OnePushOneShift` | many_to_one.go:38-48 | one push then one shift on a fresh buffer returns the payload with flag false |
| `Ringo.ShiftNeverWritten` | many_to_one.go:42-45 | every shift on a buffer that was never pushed to returns no value and flag false |
| `Ringo.FillThenShift` | many_to_one.go:38-48 | `cap` pushes then one shift returns the first payload with flag false |
| `Ringo.OverfillThenShift` | many_to_one.go:24-48 | `cap + 1` pushes then one shift returns the payload of push `cap`, not the first one; its flag is true iff `cap > 1` |

## Left out

- Atomicity and memory ordering of `atomic.AddUint64` and `atomic.SwapPointer`, and the unsynchronised slot read in `Shift`: each operation is one atomic step here.
- Concurrent interleavings inside an operation, and any enforcement of the single-consumer rule: these are concurrency concerns, not sequential behaviour.
- The `Buffer` interface and the `Generic`, `box`, `buffer` and `oneToOne` type declarations are not part of this model. The payload is a type parameter `T`, and a slot is `Option<Box<T>>`.
- The `unsafe` pointer conversions between `Generic` and `*box`: slots hold plain values.
- Ringo.ManyToOne.constructor: requires `0 < capacity`. The source accepts 0 and then divides by zero in every Push and Shift. It also requires `capacity < 2^32`, because the source's parameter is a `uint32`.
- The source constructor builds a `&oneToOne{...}` value, not a `manyToOne`, and returns it as a `Buffer`. Calls to Push and Shift on that value run `oneToOne`'s methods, so `manyToOne.Push` and `manyToOne.Shift` are never reached through `ManyToOne(...)`. The model pairs the constructor with `manyToOne`'s own methods, because that is evidently what was intended. It constructs a `ManyToOne` with the same field values.
- Ringo.ManyToOne.Shift: returns `Option<T>`, so a pushed payload that is itself `nil` in Go is `Some(x)` here, and it stays distinguishable from an empty slot.
- `Ringo.SlotHoldsLatest`, `Ringo.FirstEntryOverwritten`, `Ringo.SingleSlotLatestWins` and `Ringo.ShiftFlagMeansLapped` hold for the first 2^64 pushes only. Push and Shift themselves wrap exactly as the source does, but these closed forms do not describe a head counter that has wrapped. `Ringo.ShiftFlagMeansLapped` also compares against `t + 1`, not `(t + 1) mod 2^64`, so it does not describe the one Shift at which the tail counter wraps (t = 2^64 - 1).
- `Cap`'s truncation to `uint32` is lossless because the capacity came in as a `uint32`, so the model returns the capacity unchanged.
