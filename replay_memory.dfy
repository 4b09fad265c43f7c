/** The experience buffer of the actor-critic player: `ReplayMemory`, a list that
    grows to a fixed capacity and is then overwritten slot by slot at a cursor,
    and `sample`, which draws a batch without replacement.

    The functions `Cursor` and `Contents` give the state after a given sequence
    of pushes; the class keeps its fields equal to them.  `FifoContents` is an
    oldest-first ring buffer, which overwrites the oldest entry; the buffer as
    written is compared against it. */
module ReplayBuffer {
  import opened Arith

  function Min(a: int, b: int): int { if a <= b then a else b }

  /** The error `random.sample` raises for a sample larger than the population or negative. */
  datatype Error = SampleLargerThanPopulationOrNegative

  datatype Result<T> = Ok(value: T) | Err(error: Error)

  /** The cursor `position` after `n` pushes: it starts at -1 and every push
      advances it modulo the capacity. */
  function Cursor(n: nat, capacity: int): (p: int)
    requires capacity >= 1
    ensures -1 <= p < capacity
    ensures p == -1 <==> n == 0
  {
    if n == 0 then -1 else (n - 1) % capacity
  }

  /** The `memory` list after the given pushes, in order: while the list is
      shorter than the capacity a push appends, afterwards it overwrites the slot
      at the cursor as it stood before the push. */
  function Contents<T>(pushes: seq<T>, capacity: int): (r: seq<T>)
    requires capacity >= 1
    ensures |r| == Min(|pushes|, capacity)
    ensures forall i :: 0 <= i < |r| ==> r[i] in pushes
    decreases |pushes|
  {
    if pushes == [] then []
    else
      var n := |pushes| - 1;
      var prev := Contents(pushes[..n], capacity);
      if n < capacity then prev + [pushes[n]]
      else prev[Cursor(n, capacity) := pushes[n]]
  }

  /** The oldest-first ring buffer: the cursor starts at slot 0, so once
      the list is full every push overwrites the oldest entry. */
  function FifoContents<T>(pushes: seq<T>, capacity: int): (r: seq<T>)
    requires capacity >= 1
    ensures |r| == Min(|pushes|, capacity)
    decreases |pushes|
  {
    if pushes == [] then []
    else
      var n := |pushes| - 1;
      var prev := FifoContents(pushes[..n], capacity);
      if n < capacity then prev + [pushes[n]]
      else prev[n % capacity := pushes[n]]
  }

  /** No two pushes carry the same item. */
  ghost predicate Distinct<T>(s: seq<T>)
  {
    forall i, j :: 0 <= i < j < |s| ==> s[i] != s[j]
  }

  class ReplayMemory<T> {
    var position: int
    const capacity: int
    var memory: seq<T>
    /** Every item pushed so far, oldest first. */
    ghost var pushed: seq<T>

    ghost predicate Valid()
      reads this
    {
      && capacity >= 1
      && memory == Contents(pushed, capacity)
      && position == Cursor(|pushed|, capacity)
    }

    constructor (capacity: int)
      requires capacity >= 1
      ensures Valid()
      ensures this.capacity == capacity
      ensures memory == [] && position == -1 && pushed == []
    {
      position := -1;
      this.capacity := capacity;
      memory := [];
      pushed := [];
    }

    /** `push`: append while there is room, else overwrite the slot at the
        cursor; in both cases advance the cursor modulo the capacity. */
    method Push(x: T)
      requires Valid()
      modifies this
      ensures Valid()
      ensures pushed == old(pushed) + [x]
      ensures |memory| <= capacity
      ensures old(|memory|) < capacity ==> memory == old(memory) + [x]
      ensures old(|memory|) >= capacity ==>
                0 <= old(position) < |memory| && memory == old(memory)[old(position) := x]
      ensures position == (old(position) + 1) % capacity
    {
      ghost var n := |pushed|;
      CursorStep(n, capacity);
      if |memory| < capacity {
        memory := memory + [x];
        position := (position + 1) % capacity;
      } else {
        memory := memory[position := x];
        position := (position + 1) % capacity;
      }
      pushed := pushed + [x];
      assert pushed[..n] == old(pushed);
    }

    /** `sample`: `k` entries taken from `k` distinct slots, in a random order.
        The random choice is left open: each round takes any remaining slot and
        moves the last remaining slot into the gap. */
    method Sample(k: int) returns (r: Result<seq<T>>)
      ensures r.Err? <==> k < 0 || k > |memory|
      ensures r.Ok? ==> |r.value| == k && multiset(r.value) <= multiset(memory)
      ensures r.Ok? && k == |memory| ==> multiset(r.value) == multiset(memory)
    {
      if k < 0 || k > |memory| {
        return Err(SampleLargerThanPopulationOrNegative);
      }
      var pool := memory;
      var batch := [];
      var i := 0;
      while i < k
        invariant 0 <= i <= k
        invariant |batch| == i && |pool| == |memory| - i
        invariant multiset(batch) + multiset(pool) == multiset(memory)
      {
        var j :| 0 <= j < |pool|;
        var last := |pool| - 1;
        RemoveBySwap(pool, j);
        batch := batch + [pool[j]];
        pool := pool[j := pool[last]][..last];
        i := i + 1;
      }
      return Ok(batch);
    }
  }

  /** Moving the last element into slot `j` and dropping the last slot removes
      exactly one copy of `s[j]`. */
  lemma RemoveBySwap<T>(s: seq<T>, j: int)
    requires 0 <= j < |s|
    ensures multiset(s[j := s[|s| - 1]][..|s| - 1]) + multiset{s[j]} == multiset(s)
  {
    var last := |s| - 1;
    if j == last {
      assert s == s[..last] + [s[last]];
      assert s[j := s[last]] == s;
    } else {
      var t := s[j := s[last]][..last];
      assert s == s[..j] + [s[j]] + s[j + 1..last] + [s[last]];
      assert t == s[..j] + [s[last]] + s[j + 1..last];
    }
  }

  /** Each push moves the cursor one step on. */
  lemma CursorStep(n: nat, capacity: int)
    requires capacity >= 1
    ensures (Cursor(n, capacity) + 1) % capacity == Cursor(n + 1, capacity)
  {
    if n == 0 {
      DivModUnique(0, 0, 0, capacity);
    } else {
      ModStep(n - 1, capacity);
    }
  }

  /** While the buffer is filling, `memory` is exactly the pushes in order. */
  lemma {:induction false} ContentsWhileFilling<T>(pushes: seq<T>, capacity: int)
    requires capacity >= 1 && |pushes| <= capacity
    ensures Contents(pushes, capacity) == pushes
    decreases |pushes|
  {
    if pushes != [] {
      var n := |pushes| - 1;
      ContentsWhileFilling(pushes[..n], capacity);
      assert pushes == pushes[..n] + [pushes[n]];
    }
  }

  /** The same holds for the oldest-first ring buffer. */
  lemma {:induction false} FifoWhileFilling<T>(pushes: seq<T>, capacity: int)
    requires capacity >= 1 && |pushes| <= capacity
    ensures FifoContents(pushes, capacity) == pushes
    decreases |pushes|
  {
    if pushes != [] {
      var n := |pushes| - 1;
      FifoWhileFilling(pushes[..n], capacity);
      assert pushes == pushes[..n] + [pushes[n]];
    }
  }

  /** The cursor is `len - 1` while filling, so push number `capacity + 1`
      overwrites slot `capacity - 1`, which holds the item pushed just before. */
  lemma FirstOverwriteHitsNewest<T>(pushes: seq<T>, capacity: int)
    requires capacity >= 1 && |pushes| == capacity + 1
    ensures Contents(pushes, capacity) == pushes[..capacity - 1] + [pushes[capacity]]
  {
    ContentsWhileFilling(pushes[..capacity], capacity);
    DivModUnique(capacity - 1, 0, capacity - 1, capacity);
  }

  /** With distinct items and capacity at least 2, after `capacity + 1` pushes
      the oldest item is still stored and the one pushed just before the last is
      gone; a ring buffer that overwrites the oldest entry would do the reverse. */
  lemma FirstOverwriteLosesNewest<T>(pushes: seq<T>, capacity: int)
    requires capacity >= 2 && |pushes| == capacity + 1 && Distinct(pushes)
    ensures pushes[0] in Contents(pushes, capacity)
    ensures pushes[capacity - 1] !in Contents(pushes, capacity)
    ensures pushes[0] !in FifoContents(pushes, capacity)
    ensures pushes[capacity - 1] in FifoContents(pushes, capacity)
  {
    var r := Contents(pushes, capacity);
    FirstOverwriteHitsNewest(pushes, capacity);
    assert r[0] == pushes[0];
    forall i | 0 <= i < |r|
      ensures r[i] != pushes[capacity - 1]
    {
      if i < capacity - 1 {
        assert r[i] == pushes[i];
      } else {
        assert r[i] == pushes[capacity];
      }
    }
    var f := FifoContents(pushes, capacity);
    FifoWhileFilling(pushes[..capacity], capacity);
    assert f == pushes[..capacity][0 := pushes[capacity]];
    assert f[capacity - 1] == pushes[capacity - 1];
    forall i | 0 <= i < |f|
      ensures f[i] != pushes[0]
    {
      if i == 0 {
        assert f[i] == pushes[capacity];
      } else {
        assert f[i] == pushes[i];
      }
    }
  }

  /** Capacity 3, pushes A, B, C, D: the buffer holds A, B, D. */
  lemma CapacityThreeExample()
    ensures Contents(['A', 'B', 'C', 'D'], 3) == ['A', 'B', 'D']
  {
    FirstOverwriteHitsNewest(['A', 'B', 'C', 'D'], 3);
  }

  /** The oldest-first ring buffer keeps exactly the last `capacity` pushes:
      push number `n` among them sits in slot `n % capacity`. */
  lemma {:induction false} FifoKeepsNewest<T>(pushes: seq<T>, capacity: int)
    requires capacity >= 1
    ensures forall n :: |pushes| - capacity <= n < |pushes| && 0 <= n ==>
              n % capacity < |FifoContents(pushes, capacity)| &&
              FifoContents(pushes, capacity)[n % capacity] == pushes[n]
    decreases |pushes|
  {
    if pushes != [] {
      var last := |pushes| - 1;
      var prefix := pushes[..last];
      FifoKeepsNewest(prefix, capacity);
      var prev := FifoContents(prefix, capacity);
      var r := FifoContents(pushes, capacity);
      forall n | |pushes| - capacity <= n < |pushes| && 0 <= n
        ensures n % capacity < |r| && r[n % capacity] == pushes[n]
      {
        if last < capacity {
          DivModUnique(n, 0, n, capacity);
          DivModUnique(last, 0, last, capacity);
        }
        if n != last {
          ModDistinct(n, last, capacity);
          assert r[n % capacity] == prev[n % capacity];
        }
      }
    }
  }

  /** The pushes with push number `capacity - 1` removed. */
  function WithoutSlotOwner<T>(pushes: seq<T>, capacity: int): seq<T>
    requires 1 <= capacity < |pushes|
  {
    pushes[..capacity - 1] + pushes[capacity..]
  }

  /** Once the first overwrite has happened, the buffer as written is the
      oldest-first ring buffer fed with every push but number `capacity - 1`. */
  lemma {:induction false} ContentsIsFifoWithoutOne<T>(pushes: seq<T>, capacity: int)
    requires 1 <= capacity < |pushes|
    ensures Contents(pushes, capacity) == FifoContents(WithoutSlotOwner(pushes, capacity), capacity)
    decreases |pushes|
  {
    var q := WithoutSlotOwner(pushes, capacity);
    if |pushes| == capacity + 1 {
      FirstOverwriteHitsNewest(pushes, capacity);
      FifoWhileFilling(q, capacity);
    } else {
      var last := |pushes| - 1;
      var prefix := pushes[..last];
      ContentsIsFifoWithoutOne(prefix, capacity);
      var qp := WithoutSlotOwner(prefix, capacity);
      assert q == qp + [pushes[last]];
      assert q[..|q| - 1] == qp;
      assert Cursor(last, capacity) == (|q| - 1) % capacity;
    }
  }

  /** From `2 * capacity` pushes on, the buffer as written again holds exactly
      the last `capacity` pushes; push number `n` among them sits in slot
      `(n - 1) % capacity`. */
  lemma LossHealsAfterTwoRounds<T>(pushes: seq<T>, capacity: int)
    requires capacity >= 1 && |pushes| >= 2 * capacity
    ensures forall n :: |pushes| - capacity <= n < |pushes| ==>
              (n - 1) % capacity < |Contents(pushes, capacity)| &&
              Contents(pushes, capacity)[(n - 1) % capacity] == pushes[n]
  {
    var q := WithoutSlotOwner(pushes, capacity);
    ContentsIsFifoWithoutOne(pushes, capacity);
    FifoKeepsNewest(q, capacity);
    forall n | |pushes| - capacity <= n < |pushes|
      ensures (n - 1) % capacity < |Contents(pushes, capacity)|
      ensures Contents(pushes, capacity)[(n - 1) % capacity] == pushes[n]
    {
      assert q[n - 1] == pushes[n];
      assert |q| - capacity <= n - 1 < |q|;
    }
  }
}
