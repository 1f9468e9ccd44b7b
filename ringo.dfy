/** A lossy, fixed-capacity ring buffer for many producers and one consumer
    (`manyToOne` of package ringo).  Each Push and each Shift is modelled as one
    indivisible step; the slot array is an array of optional sequence-tagged
    boxes and the two counters are unsigned 64-bit integers. */
module Ringo {

  /** 2^64: the counters `head` and `tail` are uint64 and wrap modulo this. */
  const U64: nat := 0x1_0000_0000_0000_0000
  /** 2^32: the capacity enters the constructor as a uint32. */
  const U32: nat := 0x1_0000_0000

  datatype Option<T> = None | Some(value: T)

  /** What a producer installs in a slot: the sequence number it reserved and its payload. */
  datatype Box<T> = Box(index: nat, data: T)

  type Slot<T> = Option<Box<T>>

  /** The sequence number the n-th push (counting from 0) reserves: the head
      counter starts at 2^64 - 1, so the first increment wraps to 0. */
  function SeqOf(n: nat): (s: nat)
    ensures s < U64
    ensures n < U64 ==> s == n
  {
    n % U64
  }

  /** The value of `head` after n pushes on a fresh buffer. */
  function HeadAfter(n: nat): (h: nat)
    ensures h < U64
    ensures n == 0 ==> h == U64 - 1
    ensures 0 < n <= U64 ==> h == n - 1
    ensures (h + 1) % U64 == SeqOf(n)
  {
    if n == 0 then U64 - 1 else SeqOf(n - 1)
  }

  /** The slot array of a fresh buffer of capacity `cap` after the payloads
      `pushed` were pushed in this order: push n installs a box tagged
      SeqOf(n) into slot SeqOf(n) % cap, replacing what was there. */
  function Slots<T>(cap: nat, pushed: seq<T>): (s: seq<Slot<T>>)
    requires 0 < cap
    ensures |s| == cap
    ensures forall i :: 0 <= i < cap && s[i].Some? ==> s[i].value.index % cap == i
  {
    if pushed == [] then seq(cap, _ => None)
    else
      var n := |pushed| - 1;
      Slots(cap, pushed[..n])[SeqOf(n) % cap := Some(Box(SeqOf(n), pushed[n]))]
  }

  /** The most recent sequence number below n that maps to slot i. */
  function LastSeqAt(cap: nat, n: nat, i: nat): (k: nat)
    requires i < cap && i < n
    ensures k < n && k % cap == i && n <= k + cap
  {
    if n <= i + cap then
      ModUnique(i, cap, 0, i);
      i
    else
      var k := LastSeqAt(cap, n - cap, i) + cap;
      ModUnique(k, cap, (k - cap) / cap + 1, i);
      k
  }

  /** Euclidean division is unique: a quotient and remainder in range are
      the ones `/` and `%` give. */
  lemma {:induction false} ModUnique(a: int, m: int, q: int, r: int)
    requires 0 < m && 0 <= r < m && a == q * m + r
    ensures a % m == r && a / m == q
  {
    var q0, r0 := a / m, a % m;
    assert (q - q0) * m == r0 - r;
    if q > q0 {
      MulAtLeast(q - q0, m);
    } else if q < q0 {
      MulAtLeast(q0 - q, m);
    }
  }

  lemma {:induction false} MulAtLeast(x: int, m: int)
    requires 1 <= x && 0 < m
    ensures x * m >= m
  {
    assert x * m == (x - 1) * m + m;
  }

  /** Two sequence numbers below n with the same slot and both among the last
      `cap` numbers are the same. */
  lemma {:induction false} LastSeqUnique(cap: nat, n: nat, k1: nat, k2: nat)
    requires 0 < cap
    requires k1 < n && n <= k1 + cap && k2 < n && n <= k2 + cap
    requires k1 % cap == k2 % cap
    ensures k1 == k2
  {
    if k1 < k2 {
      assert k2 - k1 < cap;
      ModDiff(cap, k1, k2);
    } else if k2 < k1 {
      assert k1 - k2 < cap;
      ModDiff(cap, k2, k1);
    }
  }

  lemma {:induction false} ModDiff(cap: nat, a: nat, b: nat)
    requires 0 < cap && a < b && b - a < cap
    ensures a % cap != b % cap
  {
    var q, r := a / cap, a % cap;
    var d := b - a;
    if r + d < cap {
      ModUnique(b, cap, q, r + d);
    } else {
      ModUnique(b, cap, q + 1, r + d - cap);
    }
  }

  /** Within the first 2^64 pushes, slot i holds exactly the most recent push
      whose sequence number maps to i, and is empty if no push mapped to it. */
  lemma {:induction false} SlotHoldsLatest<T>(cap: nat, pushed: seq<T>, i: nat)
    requires 0 < cap && i < cap && |pushed| <= U64
    ensures i < |pushed| ==>
      var k := LastSeqAt(cap, |pushed|, i);
      Slots(cap, pushed)[i] == Some(Box(k, pushed[k]))
    ensures |pushed| <= i ==> Slots(cap, pushed)[i] == None
  {
    if pushed != [] {
      var n := |pushed| - 1;
      var prev := pushed[..n];
      SlotHoldsLatest(cap, prev, i);
      assert SeqOf(n) == n;
      var j := n % cap;
      assert Slots(cap, pushed) == Slots(cap, prev)[j := Some(Box(n, pushed[n]))];
      ModBelow(n, cap);
      if j == i {
        var k' := LastSeqAt(cap, n + 1, i);
        LastSeqUnique(cap, n + 1, n, k');
      } else if i < n {
        var k := LastSeqAt(cap, n, i);
        var k' := LastSeqAt(cap, n + 1, i);
        ModAddCap(k, cap);
        LastSeqUnique(cap, n + 1, k, k');
        assert prev[k] == pushed[k];
      } else if i == n {
        ModUnique(n, cap, 0, n);
      }
    }
  }

  lemma {:induction false} ModAddCap(k: nat, cap: nat)
    requires 0 < cap
    ensures (k + cap) % cap == k % cap
  {
    ModUnique(k + cap, cap, k / cap + 1, k % cap);
  }

  lemma {:induction false} ModBelow(n: nat, cap: nat)
    requires 0 < cap
    ensures n % cap <= n && n % cap < cap
  {
  }

  /** What Shift reports for the slot it read, given the tail after the
      increment: nothing for an unwritten slot, otherwise the payload and
      whether the stored sequence number exceeds that tail. */
  function Observe<T>(slot: Slot<T>, tail: nat): (Option<T>, bool)
  {
    match slot
    case None => (None, false)
    case Some(b) => (Some(b.data), b.index > tail)
  }

  /** Lapping: after cap + 1 pushes into a fresh buffer, slot 0 holds the
      entry with sequence number cap, and no slot still holds sequence 0. */
  lemma {:induction false} FirstEntryOverwritten<T>(cap: nat, pushed: seq<T>)
    requires 0 < cap && |pushed| == cap + 1 && |pushed| <= U64
    ensures Slots(cap, pushed)[0] == Some(Box(cap, pushed[cap]))
    ensures forall i :: 0 <= i < cap ==> Slots(cap, pushed)[i] != Some(Box(0, pushed[0]))
  {
    SlotHoldsLatest(cap, pushed, 0);
    LastSeqUnique(cap, cap + 1, cap, LastSeqAt(cap, cap + 1, 0));
    forall i | 0 <= i < cap
      ensures Slots(cap, pushed)[i] != Some(Box(0, pushed[0]))
    {
      SlotHoldsLatest(cap, pushed, i);
      if i > 0 {
        assert LastSeqAt(cap, cap + 1, i) % cap == i;
      }
    }
  }

  /** A buffer of capacity 1 is a "latest value wins" cell. */
  lemma {:induction false} SingleSlotLatestWins<T>(pushed: seq<T>)
    requires 0 < |pushed| <= U64
    ensures Slots(1, pushed)[0] == Some(Box(|pushed| - 1, pushed[|pushed| - 1]))
  {
  }

  /** Once producers have lapped the consumer, shifts do not observe sequence
      numbers in increasing order: after five pushes into a fresh buffer of
      capacity 3, the slots hold sequence numbers 3, 4 and 2, so shifts from
      tail 0 read 3, 4, then 2, and the third shift returns an earlier payload
      than the first two. */
  lemma {:induction false} LappedShiftsOutOfOrder<T>(xs: seq<T>)
    requires |xs| == 5
    ensures Slots(3, xs) == [Some(Box(3, xs[3])), Some(Box(4, xs[4])), Some(Box(2, xs[2]))]
    ensures Observe(Slots(3, xs)[0 % 3], 1).0 == Some(xs[3])
    ensures Observe(Slots(3, xs)[1 % 3], 2).0 == Some(xs[4])
    ensures Observe(Slots(3, xs)[2 % 3], 3).0 == Some(xs[2])
  {
    assert xs[..4][..3] == xs[..3];
    assert xs[..4][..3][..2] == xs[..2];
    assert xs[..4][..3][..2][..1] == xs[..1];
    assert xs[..1][..0] == [];
    assert Slots(3, xs[..1]) == [Some(Box(0, xs[0])), None, None];
    assert Slots(3, xs[..2]) == [Some(Box(0, xs[0])), Some(Box(1, xs[1])), None];
    assert Slots(3, xs[..3]) == [Some(Box(0, xs[0])), Some(Box(1, xs[1])), Some(Box(2, xs[2]))];
    assert Slots(3, xs[..4]) == [Some(Box(3, xs[3])), Some(Box(1, xs[1])), Some(Box(2, xs[2]))];
  }

  /** The freshness flag of a Shift at consumer position t (the tail before
      the increment), within the first 2^64 pushes.  The slot read holds a value
      once any push mapped to it.  For cap > 1 the flag is true exactly when
      producers have lapped the consumer, that is, the push with sequence
      number t + cap has already overwritten position t; the entry with
      sequence number t itself reads as not fresh.  For cap == 1 the flag
      needs two pushes beyond position t. */
  lemma {:induction false} ShiftFlagMeansLapped<T>(cap: nat, pushed: seq<T>, t: nat)
    requires 0 < cap && |pushed| <= U64
    ensures var r := Observe(Slots(cap, pushed)[t % cap], t + 1);
      (r.0.Some? <==> t % cap < |pushed|) &&
      (r.1 <==> |pushed| > t + cap && (cap > 1 || |pushed| > t + 2))
  {
    var i := t % cap;
    var n := |pushed|;
    SlotHoldsLatest(cap, pushed, i);
    if i < n {
      var k := LastSeqAt(cap, n, i);
      if k > t + 1 {
        SameResidueBelow(cap, t, k);
      }
      if n > t + cap {
        ModAddCap(t, cap);
        if k < t + cap {
          SameResidueBelow(cap, k, t + cap);
        }
      }
    }
  }

  lemma {:induction false} SameResidueBelow(cap: nat, a: nat, b: nat)
    requires 0 < cap && a < b && a % cap == b % cap
    ensures a + cap <= b
  {
    if b - a < cap {
      ModDiff(cap, a, b);
    }
  }

  /** The many-producer, single-consumer lossy ring buffer. */
  class ManyToOne<T> {
    /** producer counter: the sequence number of the last push */
    var head: nat
    /** consumer counter: the next position the consumer reads */
    var tail: nat
    var capacity: nat
    var buffer: array<Slot<T>>
    /** every payload pushed so far, in the order the pushes took effect */
    ghost var pushed: seq<T>

    ghost predicate Valid()
      reads this, buffer
    {
      0 < capacity < U32 && buffer.Length == capacity &&
      head == HeadAfter(|pushed|) && tail < U64 &&
      buffer[..] == Slots(capacity, pushed)
    }

    /** Construction: an all-empty slot array and the head counter at 2^64 - 1. */
    constructor (capacity: nat)
      requires 0 < capacity < U32
      ensures Valid() && fresh(buffer)
      ensures this.capacity == capacity && buffer.Length == capacity
      ensures forall i :: 0 <= i < buffer.Length ==> buffer[i] == None
      ensures head == U64 - 1 && tail == 0 && pushed == []
    {
      head := U64 - 1;
      tail := 0;
      this.capacity := capacity;
      buffer := new Slot<T>[capacity](_ => None);
      pushed := [];
    }

    /** The capacity the buffer was created with: its number of slots. */
    function Cap(): (c: nat)
      reads this, buffer
      requires Valid()
      ensures 0 < c < U32 && c == buffer.Length
    {
      capacity
    }

    /** Push: reserve the next sequence number and install a box tagged with
        it in its slot, overwriting whatever the slot held. */
    method Push(data: T)
      requires Valid()
      modifies this`head, this`pushed, buffer
      ensures Valid()
      ensures pushed == old(pushed) + [data]
      ensures head == (old(head) + 1) % U64 == SeqOf(|old(pushed)|)
      ensures buffer[..] == old(buffer[..])[head % capacity := Some(Box(head, data))]
      ensures tail == old(tail)
    {
      head := (head + 1) % U64;
      var index := head % capacity;
      buffer[index] := Some(Box(head, data));
      pushed := pushed + [data];
      assert pushed[..|pushed| - 1] == old(pushed);
    }

    /** Shift: read the slot at the consumer position, advance the position by
        one whether or not the slot was written, and report the payload with
        the freshness flag "stored sequence number > new tail". */
    method Shift() returns (data: Option<T>, valid: bool)
      requires Valid()
      modifies this`tail
      ensures Valid()
      ensures tail == (old(tail) + 1) % U64
      ensures (data, valid) == Observe(Slots(capacity, pushed)[old(tail) % capacity], tail)
      ensures buffer[..] == old(buffer[..]) && head == old(head) && pushed == old(pushed)
    {
      var i := tail % capacity;
      tail := (tail + 1) % U64;
      var box := buffer[i];
      if box.None? {
        return None, false;
      }
      return Some(box.value.data), box.value.index > tail;
    }
  }

  /** One push followed by one shift on a fresh buffer yields the payload,
      flagged not fresh (0 > 1 fails). */
  method OnePushOneShift<T>(cap: nat, x: T) returns (data: Option<T>, valid: bool)
    requires 0 < cap < U32
    ensures data == Some(x) && !valid
  {
    var b := new ManyToOne<T>(cap);
    b.Push(x);
    data, valid := b.Shift();
  }

  /** Every shift on a buffer that was never pushed to reports no value. */
  method ShiftNeverWritten<T>(cap: nat, count: nat) returns (results: seq<(Option<T>, bool)>)
    requires 0 < cap < U32
    ensures |results| == count
    ensures forall j :: 0 <= j < count ==> results[j] == (None, false)
  {
    var b := new ManyToOne<T>(cap);
    results := [];
    while |results| < count
      invariant b.Valid() && b.pushed == [] && b.capacity == cap
      invariant |results| <= count
      invariant forall j :: 0 <= j < |results| ==> results[j] == (None, false)
    {
      var data, valid := b.Shift();
      results := results + [(data, valid)];
    }
  }

  /** Pushes every payload of xs, in order, into a fresh buffer. */
  method Filled<T>(cap: nat, xs: seq<T>) returns (b: ManyToOne<T>)
    requires 0 < cap < U32
    ensures fresh(b) && fresh(b.buffer) && b.Valid()
    ensures b.capacity == cap && b.pushed == xs && b.tail == 0
  {
    b := new ManyToOne<T>(cap);
    for k := 0 to |xs|
      invariant fresh(b) && fresh(b.buffer) && b.Valid()
      invariant b.capacity == cap && b.pushed == xs[..k] && b.tail == 0
    {
      b.Push(xs[k]);
    }
    assert xs[..|xs|] == xs;
  }

  /** Exactly cap pushes, then one shift: the first payload comes back,
      flagged not fresh. */
  method FillThenShift<T>(cap: nat, xs: seq<T>) returns (data: Option<T>, valid: bool)
    requires 0 < cap < U32 && |xs| == cap
    ensures data == Some(xs[0]) && !valid
  {
    var b := Filled(cap, xs);
    SlotHoldsLatest(cap, xs, 0);
    LastSeqUnique(cap, cap, 0, LastSeqAt(cap, cap, 0));
    data, valid := b.Shift();
  }

  /** cap + 1 pushes, then one shift: the consumer sees the entry with
      sequence number cap, which lapped the first one; it is flagged fresh
      exactly when cap > 1. */
  method OverfillThenShift<T>(cap: nat, xs: seq<T>) returns (data: Option<T>, valid: bool)
    requires 0 < cap < U32 && |xs| == cap + 1
    ensures data == Some(xs[cap]) && valid == (cap > 1)
  {
    var b := Filled(cap, xs);
    FirstEntryOverwritten(cap, xs);
    data, valid := b.Shift();
  }
}
