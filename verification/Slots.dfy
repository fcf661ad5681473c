/** Whose turn it is: a schedule of `size` producers, each holding `reps` slots in a row, repeated
    for ever. */
module Slots {

  /** The position in the schedule that owns a slot. */
  function Index(slot: nat, size: nat, reps: nat): (i: nat)
    requires size > 0 && reps > 0
    ensures i < size
  {
    TurnBound(slot, size, reps);
    (slot % (size * reps)) / reps
  }

  lemma TurnBound(slot: nat, size: nat, reps: nat)
    requires size > 0 && reps > 0
    ensures size * reps > 0 && (slot % (size * reps)) / reps < size
  {
    NextMultiple(0, size, reps);
    var x := slot % (size * reps);
    Division(x, reps);
    if x / reps >= size {
      MultiplesGrow(size, x / reps, reps);
    }
  }

  lemma MultiplesGrow(a: nat, b: nat, d: nat)
    requires a <= b
    ensures a * d <= b * d
  {
    assert b * d == a * d + (b - a) * d;
  }

  lemma NextMultiple(a: nat, b: nat, d: nat)
    requires a < b
    ensures a * d + d <= b * d
  {
    MultiplesGrow(a + 1, b, d);
    assert (a + 1) * d == a * d + d;
  }

  lemma Division(x: nat, d: nat)
    requires d > 0
    ensures x == (x / d) * d + x % d && 0 <= x % d < d
  {}

  lemma QuotientIs(x: nat, d: nat, q: nat)
    requires d > 0
    ensures x / d == q <==> q * d <= x < q * d + d
  {
    Division(x, d);
    if x / d < q {
      NextMultiple(x / d, q, d);
    } else if q < x / d {
      NextMultiple(q, x / d, d);
    }
  }

  lemma RemainderIs(x: nat, d: nat, q: nat)
    requires d > 0 && q * d <= x < q * d + d
    ensures x % d == x - q * d
  {
    QuotientIs(x, d, q);
    Division(x, d);
  }

  /** How many of the slots start, ..., start + len - 1 belong to a position. */
  ghost function Turns(pos: nat, start: nat, len: nat, size: nat, reps: nat): nat
    requires size > 0 && reps > 0
  {
    if len == 0 then 0
    else Turns(pos, start, len - 1, size, reps) + if Index(start + len - 1, size, reps) == pos then 1 else 0
  }

  lemma {:induction false} DropFirst(pos: nat, start: nat, len: nat, size: nat, reps: nat)
    requires size > 0 && reps > 0 && len > 0
    ensures Turns(pos, start, len, size, reps) ==
            (if Index(start, size, reps) == pos then 1 else 0) + Turns(pos, start + 1, len - 1, size, reps)
    decreases len
  {
    if len > 1 {
      DropFirst(pos, start, len - 1, size, reps);
      assert start + len - 1 == (start + 1) + (len - 1) - 1;
    }
  }

  /** A round later it is the same producer's turn. */
  lemma RoundLater(slot: nat, size: nat, reps: nat)
    requires size > 0 && reps > 0
    ensures Index(slot + size * reps, size, reps) == Index(slot, size, reps)
  {
    TurnBound(slot, size, reps);
    SameRemainder(slot, size * reps);
  }

  lemma SameRemainder(x: nat, d: nat)
    requires d > 0
    ensures (x + d) % d == x % d
  {
    Division(x, d);
    assert (x / d + 1) * d == (x / d) * d + d;
    RemainderIs(x + d, d, x / d + 1);
  }

  /** In the first round the slots are dealt out in blocks of `reps`. */
  lemma {:induction false} FirstRound(pos: nat, len: nat, size: nat, reps: nat)
    requires size > 0 && reps > 0 && len <= size * reps
    ensures Turns(pos, 0, len, size, reps) ==
            if len <= pos * reps then 0 else if len <= pos * reps + reps then len - pos * reps else reps
    decreases len
  {
    if len > 0 {
      FirstRound(pos, len - 1, size, reps);
      QuotientIs(len - 1, reps, pos);
      RemainderIs(len - 1, size * reps, 0);
    }
  }

  /** Every window of one round, wherever it starts, gives each position exactly `reps` slots. */
  lemma {:induction false} EveryRoundIsFair(pos: nat, start: nat, size: nat, reps: nat)
    requires size > 0 && reps > 0 && pos < size
    ensures Turns(pos, start, size * reps, size, reps) == reps
    decreases start
  {
    var round := size * reps;
    TurnBound(start, size, reps);
    if start == 0 {
      NextMultiple(pos, size, reps);
      FirstRound(pos, round, size, reps);
    } else {
      EveryRoundIsFair(pos, start - 1, size, reps);
      DropFirst(pos, start - 1, round, size, reps);
      RoundLater(start - 1, size, reps);
    }
  }

  lemma RemainderStep(x: nat, d: nat)
    requires d > 0
    ensures (x + 1) % d == if x % d + 1 == d then 0 else x % d + 1
  {
    Division(x, d);
    StepFrom(x, d, x / d, x % d);
  }

  lemma StepFrom(x: nat, d: nat, q: nat, r: nat)
    requires d > 0 && x == q * d + r && r < d
    ensures (x + 1) % d == (if r + 1 == d then 0 else r + 1) && (x + 1) / d == if r + 1 == d then q + 1 else q
  {
    if r + 1 == d {
      assert (q + 1) * d == q * d + d;
      RemainderIs(x + 1, d, q + 1);
      QuotientIs(x + 1, d, q + 1);
    } else {
      RemainderIs(x + 1, d, q);
      QuotientIs(x + 1, d, q);
    }
  }

  lemma QuotientStep(x: nat, d: nat)
    requires d > 0
    ensures (x + 1) / d == if (x + 1) % d == 0 then x / d + 1 else x / d
  {
    Division(x, d);
    StepFrom(x, d, x / d, x % d);
  }

  /** The place of a slot in its round has the same place in its turn. */
  lemma SamePlace(slot: nat, size: nat, reps: nat)
    requires size > 0 && reps > 0 && size * reps > 0
    ensures (slot + 1) % reps == (slot % (size * reps) + 1) % reps
  {
    var round := size * reps;
    Division(slot, round);
    assert slot / round * round == (slot / round * size) * reps;
    SameRemainders(slot + 1, slot % round + 1, slot / round * size, reps);
  }

  lemma LastPlace(x: nat, size: nat, reps: nat)
    requires size > 0 && reps > 0 && x + 1 == size * reps
    ensures x / reps == size - 1 && (x + 1) % reps == 0
  {
    RemainderIs(x + 1, reps, size);
    assert (size - 1) * reps + reps == size * reps;
    QuotientIs(x, reps, size - 1);
  }

  /** A position owns `reps` slots in a row, and the next position follows. */
  lemma TurnsInARow(slot: nat, size: nat, reps: nat)
    requires size > 0 && reps > 0
    ensures var i, next := Index(slot, size, reps), Index(slot + 1, size, reps);
            next == if (slot + 1) % reps != 0 then i else if i + 1 < size then i + 1 else 0
  {
    TurnBound(slot, size, reps);
    TurnBound(slot + 1, size, reps);
    var x := slot % (size * reps);
    SamePlace(slot, size, reps);
    RemainderStep(slot, size * reps);
    QuotientStep(x, reps);
    if x + 1 == size * reps {
      LastPlace(x, size, reps);
    }
  }

  lemma SameRemainders(x: nat, y: nat, k: nat, d: nat)
    requires d > 0 && x == k * d + y
    ensures x % d == y % d
  {
    Division(y, d);
    assert (k + y / d) * d == k * d + y / d * d;
    RemainderIs(x, d, k + y / d);
  }

  /** Every position gets a slot within one round after any given one. */
  lemma TurnComes(slot: nat, i: nat, size: nat, reps: nat) returns (later: nat)
    requires i < size && reps > 0
    ensures slot < later <= slot + size * reps && Index(later, size, reps) == i
  {
    TurnBound(slot, size, reps);
    var round, start := size * reps, i * reps;
    NextMultiple(i, size, reps);
    Division(slot + 1, round);
    var q := (slot + 1) / round + if (slot + 1) % round <= start then 0 else 1;
    assert ((slot + 1) / round + 1) * round == (slot + 1) / round * round + round;
    later := q * round + start;
    RemainderIs(later, round, q);
    QuotientIs(start, reps, i);
  }

  /** The first block of the next round: the least multiple of the round length above the head. */
  method NextRoundFirst(head: nat, size: nat, reps: nat) returns (res: nat)
    requires size > 0 && reps > 0
    ensures head < res <= head + size * reps
    ensures res % (size * reps) == 0
    ensures forall k :: head < k < res ==> k % (size * reps) != 0
  {
    TurnBound(head, size, reps);
    var round := size * reps;
    ghost var target := (head / round) * round + round;
    Division(head, round);
    assert target == (head / round + 1) * round;
    RemainderIs(target, round, head / round + 1);
    res := head + 1;
    while res % round != 0
      invariant head < res <= target
      invariant forall k :: head < k < res ==> k % round != 0
      decreases target - res
    {
      res := res + 1;
    }
  }

  /** A round starts at position 0, and the slot before it belongs to the last position. */
  lemma RoundBoundary(first: nat, size: nat, reps: nat)
    requires size > 0 && reps > 0 && first > 0
    requires first % (size * reps) == 0
    ensures Index(first, size, reps) == 0 && Index(first - 1, size, reps) == size - 1
  {
    TurnBound(first, size, reps);
    var round := size * reps;
    Division(first, round);
    var n := first / round - 1;
    assert first == (n + 1) * round == n * round + round;
    RemainderIs(first - 1, round, n);
    assert (size - 1) * reps + reps == round;
    QuotientIs(round - 1, reps, size - 1);
  }
}
