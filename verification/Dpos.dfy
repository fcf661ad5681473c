/** Delegated proof of stake, as one block header after another: who may confirm what,
    when a block is proposed as irreversible, and when it becomes irreversible. */
module Dpos {
  import opened Options
  import Slots

  datatype Result<T> = Ok(value: T) | Rejected

  type Name = nat

  const PRODUCER_REPETITIONS: nat := 12
  const MAX_PRODUCERS: nat := 125
  const MAX_TRACKED_CONFIRMATIONS: nat := 1024
  const UINT32: nat := 0x1_0000_0000
  const UINT8: nat := 0x100

  datatype Schedule = Schedule(version: nat, producers: seq<Name>)

  /** A schedule waiting for block `libNum` to become irreversible. */
  datatype ScheduleInfo = ScheduleInfo(libNum: nat, schedule: Schedule)

  datatype HeaderState = HeaderState(
    blockNum: nat,
    slot: nat,
    proposed: nat,
    irreversible: nat,
    active: Schedule,
    lastProduced: map<Name, nat>,
    lastImplied: map<Name, nat>,
    confirmCount: seq<nat>,
    pending: ScheduleInfo)

  /** The fields of a signed header that the transition reads. */
  datatype Header = Header(
    slot: nat,
    producer: Name,
    confirmed: nat,
    scheduleVersion: nat,
    newProducers: Option<Schedule>)

  // ----- whose turn it is

  function ScheduledIndex(slot: nat, size: nat): (i: nat)
    requires size > 0
    ensures i < size
  {
    Slots.Index(slot, size, PRODUCER_REPETITIONS)
  }

  /** Every producer has twelve slots in a row, in the order of the schedule. */
  lemma TwelveInARow(slot: nat, size: nat)
    requires size > 0
    ensures var i := ScheduledIndex(slot, size);
            ScheduledIndex(slot + 1, size) == if (slot + 1) % 12 != 0 then i else if i + 1 < size then i + 1 else 0
  {
    Slots.TurnsInARow(slot, size, PRODUCER_REPETITIONS);
  }

  function ScheduledProducer(s: HeaderState, slot: nat): Name
    requires s.active.producers != []
  {
    s.active.producers[ScheduledIndex(slot, |s.active.producers|)]
  }

  // ----- the last irreversible block

  /** Producers whose vote is at least `v`. */
  ghost function Supporters(votes: map<Name, nat>, v: nat): set<Name> {
    set p | p in votes && votes[p] >= v
  }

  /** More than two thirds of the producers vote for `v` or more. */
  ghost predicate Supermajority(votes: map<Name, nat>, v: nat) {
    3 * |Supporters(votes, v)| > 2 * |votes|
  }

  /** The highest number with a supermajority behind it. */
  ghost predicate IsLib(votes: map<Name, nat>, lib: nat) {
    forall v: nat :: v <= lib <==> Supermajority(votes, v)
  }

  /** The votes read for the next block: its producer counts as voting for the current proposal. */
  function Votes(s: HeaderState, next: Name): map<Name, nat> {
    map p | p in s.lastImplied :: if p == next then s.proposed else s.lastImplied[p]
  }

  /** Producers whose vote is below `v`. */
  ghost function Below(votes: map<Name, nat>, v: nat): set<Name> {
    set p | p in votes && votes[p] < v
  }

  /** What std::nth_element leaves at position `k`: some vote with at most `k` votes below it
      and more than `k` at or below it. */
  ghost predicate IsNth(votes: map<Name, nat>, k: nat, v: nat) {
    v in votes.Values && |Below(votes, v)| <= k < |Below(votes, v + 1)|
  }

  ghost function Bound(s: set<nat>): (b: nat)
    ensures forall x :: x in s ==> x <= b
  {
    if s == {} then 0
    else
      var x :| x in s;
      var b := Bound(s - {x});
      assert forall y :: y in s ==> y == x || y in s - {x};
      if x <= b then b else x
  }

  lemma BelowMonotone(votes: map<Name, nat>, v: nat, w: nat)
    requires v <= w
    ensures |Below(votes, v)| <= |Below(votes, w)|
  {
    SubsetSize(Below(votes, v), Below(votes, w));
  }

  lemma {:induction false} SubsetSize<T>(a: set<T>, b: set<T>)
    requires a <= b
    ensures |a| <= |b|
  {
    assert b == a + (b - a);
  }

  /** Walking down from a value above every vote meets position `k`. */
  lemma {:induction false} NthBelow(votes: map<Name, nat>, k: nat, top: nat) returns (v: nat)
    requires |Below(votes, top)| > k
    ensures IsNth(votes, k, v)
    decreases top
  {
    assert Below(votes, 0) == {};
    if |Below(votes, top - 1)| > k {
      v := NthBelow(votes, k, top - 1);
    } else {
      v := top - 1;
      if v !in votes.Values {
        assert Below(votes, v + 1) == Below(votes, v);
      }
    }
  }

  lemma NthExists(votes: map<Name, nat>, k: nat)
    requires k < |votes|
    ensures exists v :: IsNth(votes, k, v)
  {
    var top := Bound(votes.Values) + 1;
    assert Below(votes, top) == votes.Keys by {
      forall p | p in votes
        ensures votes[p] < top
      {
        assert votes[p] in votes.Values;
      }
    }
    var v := NthBelow(votes, k, top);
  }

  ghost function Nth(votes: map<Name, nat>, k: nat): (v: nat)
    requires k < |votes|
    ensures IsNth(votes, k, v)
  {
    NthExists(votes, k);
    var v :| IsNth(votes, k, v);
    v
  }

  ghost function CalcLastIrreversible(s: HeaderState, next: Name): nat {
    var votes := Votes(s, next);
    if |votes| == 0 then 0 else Nth(votes, (|votes| - 1) / 3)
  }

  lemma SupportersComplement(votes: map<Name, nat>, v: nat)
    ensures |Supporters(votes, v)| + |Below(votes, v)| == |votes|
  {
    assert Supporters(votes, v) + Below(votes, v) == votes.Keys;
    assert Supporters(votes, v) !! Below(votes, v);
  }

  /** Going a third of the way up the sorted votes finds the highest block number that
      more than two thirds of the producers stand behind. */
  lemma NthIsLib(votes: map<Name, nat>, lib: nat)
    requires votes != map[] && IsNth(votes, (|votes| - 1) / 3, lib)
    ensures IsLib(votes, lib)
  {
    assert |votes| > 0;
    forall v: nat
      ensures v <= lib <==> Supermajority(votes, v)
    {
      SupportersComplement(votes, v);
      if v <= lib {
        BelowMonotone(votes, v, lib);
      } else {
        BelowMonotone(votes, lib + 1, v);
      }
    }
  }

  lemma LibIsHighestSupermajority(s: HeaderState, next: Name)
    ensures var votes := Votes(s, next);
            var lib := CalcLastIrreversible(s, next);
            if votes == map[] then lib == 0 else IsLib(votes, lib)
  {
    var votes := Votes(s, next);
    if votes != map[] {
      assert |votes| > 0;
      NthIsLib(votes, CalcLastIrreversible(s, next));
    }
  }

  // ----- confirmations

  /** Decrement of an unsigned byte. */
  function Decremented(c: nat): nat { (c + UINT8 - 1) % UINT8 }

  function RequiredConfirmations(producers: nat): nat { producers * 2 / 3 + 1 }

  /** The required number is the least one above two thirds. */
  lemma RequiredIsSupermajority(n: nat)
    requires n > 0
    ensures RequiredConfirmations(n) <= n && 3 * RequiredConfirmations(n) > 2 * n && 3 * (RequiredConfirmations(n) - 1) <= 2 * n
  {}

  /** The counters once the new block has been given its own, the oldest dropped when full. */
  function Grown(s: HeaderState): (counts: seq<nat>)
    ensures counts != []
  {
    var kept := if |s.confirmCount| < MAX_TRACKED_CONFIRMATIONS then s.confirmCount else s.confirmCount[1..];
    kept + [RequiredConfirmations(|s.active.producers|) % UINT8]
  }

  /** What confirming does to the counters: the survivors, and the index of the block whose
      counter reached zero, if one did. */
  datatype Confirmation = Confirmation(counts: seq<nat>, done: Option<nat>)

  /** The youngest of the `left` counters ending at index `i` that one more confirmation takes to zero. */
  function FirstDone(counts: seq<nat>, i: int, left: nat): (done: Option<nat>)
    requires -1 <= i < |counts|
    ensures done.Some? ==> i - left < done.value <= i && Decremented(counts[done.value]) == 0
    ensures forall x :: 0 <= x < |counts| && i - left < x <= i && (done.Some? ==> done.value < x)
              ==> Decremented(counts[x]) != 0
    decreases left
  {
    if i < 0 || left == 0 then None
    else if Decremented(counts[i]) == 0 then Some(i)
    else FirstDone(counts, i - 1, left - 1)
  }

  /** Confirm the last `left` blocks. Once a counter reaches zero its block and the older ones
      are no longer tracked. */
  function Confirm(counts: seq<nat>, left: nat): Confirmation {
    var n, done := |counts|, FirstDone(counts, |counts| - 1, left);
    Confirmation(
      if done.Some? then seq(n - done.value - 1, y requires 0 <= y < n - done.value - 1 => Decremented(counts[y + done.value + 1]))
      else seq(n, x requires 0 <= x < n => if n - left <= x then Decremented(counts[x]) else counts[x]),
      done)
  }

  /** The new block confirms itself and the `confirmed` blocks before it. */
  function Confirmed(s: HeaderState, confirmed: nat): Confirmation {
    Confirm(Grown(s), confirmed + 1)
  }

  /** The block number behind the index that reached zero, among `size` counters. */
  function NextProposal(s: HeaderState, c: Confirmation, size: nat): nat {
    if c.done.Some? then (s.blockNum + 1 - (size - 1 - c.done.value)) % UINT32 else s.proposed
  }

  /** The double-confirmation guard, in 32-bit unsigned arithmetic. */
  predicate MayConfirm(s: HeaderState, producer: Name, confirmed: nat) {
    producer in s.lastProduced ==> s.lastProduced[producer] < (s.blockNum + 1 - confirmed) % UINT32
  }

  // ----- the next header state

  /** The state of a block being produced, before its header is known. */
  datatype PendingState = PendingState(
    state: HeaderState,
    promoted: bool,
    producer: Name,
    confirmed: nat,
    scheduleVersion: nat)

  /** The producers of `schedule`, each with its prior entry, `value` for `producer`, and
      `initial` for one that has no prior entry. */
  function Carried(prior: map<Name, nat>, schedule: Schedule, producer: Name, value: nat, initial: nat): map<Name, nat> {
    map p | p in schedule.producers :: if p == producer then value else if p in prior then prior[p] else initial
  }

  ghost function Next(s: HeaderState, when: nat, confirmed: nat): Result<PendingState>
    requires s.active.producers != []
  {
    if when != 0 && when <= s.slot then Rejected
    else
      var slot := if when != 0 then when else s.slot + 1;
      var producer := ScheduledProducer(s, slot);
      if !MayConfirm(s, producer, confirmed) then Rejected
      else
        Ok(Successor(s, slot, producer, confirmed))
  }

  /** The block that `producer` makes in `slot`, confirming itself and `confirmed` blocks before. */
  ghost function Successor(s: HeaderState, slot: nat, producer: Name, confirmed: nat): PendingState {
    var c := Confirmed(s, confirmed);
    Promote(s, slot, producer, confirmed, NextProposal(s, c, |Grown(s)|), c.counts,
            CalcLastIrreversible(s, producer))
  }

  /** The second half of `next`: a pending schedule whose block is irreversible takes over. */
  function Promote(s: HeaderState, slot: nat, producer: Name, confirmed: nat,
                   proposed: nat, counts: seq<nat>, lib: nat): PendingState
  {
    var n := s.blockNum + 1;
    var promoted := s.pending.schedule.producers != [] && lib >= s.pending.libNum;
    var t := HeaderState(n, slot, proposed, lib, s.active, s.lastProduced[producer := n],
                         s.lastImplied[producer := s.proposed], counts, s.pending);
    PendingState(
      if !promoted then t
      else t.(active := s.pending.schedule,
              lastProduced := Carried(s.lastProduced, s.pending.schedule, producer, n, lib)[producer := n],
              lastImplied := Carried(s.lastImplied, s.pending.schedule, producer, s.proposed, lib),
              pending := s.pending.(schedule := s.pending.schedule.(producers := []))),
      promoted, producer, confirmed, s.active.version)
  }

  function FinishNext(p: PendingState, h: Header): Result<HeaderState> {
    if h.slot != p.state.slot || h.confirmed != p.confirmed || h.producer != p.producer
       || h.scheduleVersion != p.scheduleVersion then Rejected
    else if h.newProducers.None? then Ok(p.state)
    else if p.promoted || h.newProducers.value.version != p.state.active.version + 1
            || p.state.pending.schedule.producers != [] then Rejected
    else Ok(p.state.(pending := ScheduleInfo(p.state.blockNum, h.newProducers.value)))
  }

  /** One block header applied to the state of its parent. */
  ghost function Apply(s: HeaderState, h: Header): Result<HeaderState>
    requires s.active.producers != []
  {
    var p := Next(s, h.slot, h.confirmed);
    if p.Rejected? then Rejected else FinishNext(p.value, h)
  }

  /** When a header is accepted: a later slot of its producer's own, no block confirmed twice, the
      version of the active schedule, and a new schedule only as its next version while none is
      pending. */
  lemma AcceptedIff(s: HeaderState, h: Header)
    requires s.active.producers != []
    ensures Apply(s, h).Ok? <==>
              && h.slot > s.slot && h.producer == ScheduledProducer(s, h.slot)
              && MayConfirm(s, h.producer, h.confirmed)
              && h.scheduleVersion == s.active.version
              && (h.newProducers.Some? ==>
                    h.newProducers.value.version == s.active.version + 1 && s.pending.schedule.producers == [])
  {}

  /** What an accepted header leaves: who is active, and which schedule waits for which block. */
  lemma SchedulesAfter(s: HeaderState, h: Header)
    requires s.active.producers != [] && Apply(s, h).Ok?
    ensures var t, lib := Apply(s, h).value, CalcLastIrreversible(s, h.producer);
            var ready := s.pending.schedule.producers != [] && lib >= s.pending.libNum;
            && t.blockNum == s.blockNum + 1 && t.slot == h.slot && t.irreversible == lib
            && t.active == (if ready then s.pending.schedule else s.active)
            && t.pending ==
                 (if h.newProducers.Some? then ScheduleInfo(t.blockNum, h.newProducers.value)
                  else if ready then ScheduleInfo(s.pending.libNum, Schedule(s.pending.schedule.version, []))
                  else s.pending)
  {}

  /** Who is on record after an accepted header, and with which block: the producer with its new block
      and the old proposal, everyone else as before, and a newcomer with the last irreversible block.
      When a schedule takes over, only its producers keep a vote. */
  lemma RecordsAfter(s: HeaderState, h: Header, p: Name)
    requires s.active.producers != [] && Apply(s, h).Ok?
    ensures var t := Apply(s, h).value;
            var ready := s.pending.schedule.producers != [] && t.irreversible >= s.pending.libNum;
            && (p in t.lastProduced <==>
                  p == h.producer || (if ready then p in s.pending.schedule.producers else p in s.lastProduced))
            && (p in t.lastProduced ==>
                  t.lastProduced[p] ==
                  if p == h.producer then t.blockNum else if p in s.lastProduced then s.lastProduced[p] else t.irreversible)
            && (p in t.lastImplied <==>
                  if ready then p in s.pending.schedule.producers else p == h.producer || p in s.lastImplied)
            && (p in t.lastImplied ==>
                  t.lastImplied[p] ==
                  if p == h.producer then s.proposed else if p in s.lastImplied then s.lastImplied[p] else t.irreversible)
  {}

  // ----- what really happened: who confirmed which block

  /** For every block of the run, the producers whose headers confirm it, and how many
      confirmations it needs. */
  datatype History = History(confirmers: map<nat, set<Name>>, needed: map<nat, nat>)

  /** A header confirms its own block and the `confirmed` blocks before it. */
  ghost function Recorded(hist: History, s: HeaderState, producer: Name, confirmed: nat): History {
    var n := s.blockNum + 1;
    History(
      map b | b in hist.confirmers.Keys + {n} ::
        (if b in hist.confirmers then hist.confirmers[b] else {}) + (if n - confirmed <= b then {producer} else {}),
      hist.needed[n := RequiredConfirmations(|s.active.producers|)])
  }

  /** A full quorum of distinct producers confirmed block `v` (0 stands for no block). */
  ghost predicate Decided(hist: History, v: nat) {
    v != 0 ==> v in hist.confirmers && v in hist.needed && |hist.confirmers[v]| >= hist.needed[v]
  }

  ghost predicate Bounded(s: HeaderState) {
    && s.active.producers != [] && |s.active.producers| <= MAX_PRODUCERS
    && |s.pending.schedule.producers| <= MAX_PRODUCERS
    && s.irreversible <= s.proposed <= s.blockNum && s.pending.libNum <= s.blockNum
    && (forall p :: p in s.lastImplied ==> s.lastImplied[p] <= s.proposed)
    && (forall p :: p in s.lastProduced ==> s.lastProduced[p] <= s.blockNum)
  }

  /** The block whose counter sits at index `x` of `size` counters ending at block `last`. */
  function BlockAt(last: nat, size: nat, x: nat): int { last - (size - 1 - x) }

  /** Every counter is what is missing from the block's quorum. */
  ghost predicate Counts(counts: seq<nat>, last: nat, hist: History) {
    forall x :: 0 <= x < |counts| ==>
      var b := BlockAt(last, |counts|, x);
      b in hist.confirmers && b in hist.needed && counts[x] >= 1
      && counts[x] + |hist.confirmers[b]| == hist.needed[b]
  }

  /** How many blocks up to `last` have a counter: those above the proposed one and above block 1,
      at most 1024. */
  function TrackedBlocks(last: nat, proposed: nat): int {
    var open := last - if proposed == 0 then 1 else proposed;
    if open < 1024 then open else 1024
  }

  ghost predicate Tracked(s: HeaderState, hist: History) {
    && |s.confirmCount| == TrackedBlocks(s.blockNum, s.proposed)
    && hist.confirmers.Keys == hist.needed.Keys
    && (forall b :: b in hist.needed ==> hist.needed[b] < UINT8)
    && Counts(s.confirmCount, s.blockNum, hist)
  }

  /** No producer has confirmed anything beyond what the guard knows about it. */
  ghost predicate Attributed(s: HeaderState, hist: History) {
    && (forall b :: b in hist.confirmers ==> b <= s.blockNum)
    && (forall b, p :: b in hist.confirmers && p in hist.confirmers[b] && p in s.lastProduced
          ==> b <= s.lastProduced[p])
    && (forall b, p :: b in hist.confirmers && p in hist.confirmers[b] && p !in s.lastProduced
          ==> p !in s.active.producers && (s.pending.schedule.producers != [] ==> b <= s.pending.libNum))
  }

  /** Every number the protocol acts on was confirmed by a quorum. */
  ghost predicate Justified(s: HeaderState, hist: History) {
    && Decided(hist, s.proposed)
    && Decided(hist, s.irreversible)
    && forall p :: p in s.lastImplied ==> Decided(hist, s.lastImplied[p])
  }

  ghost predicate Inv(s: HeaderState, hist: History) {
    Bounded(s) && Tracked(s, hist) && Attributed(s, hist) && Justified(s, hist)
  }

  /** The 32-bit guard, where it applies, reads the count as meant. */
  predicate InRange(s: HeaderState, producer: Name, confirmed: nat) {
    producer in s.lastProduced ==> confirmed <= s.blockNum + 1
  }

  /** The guard reads the header as meant, and schedules have the size the chain allows. */
  predicate Admissible(s: HeaderState, h: Header) {
    && s.blockNum + 1 < UINT32
    && InRange(s, h.producer, h.confirmed)
    && (h.newProducers.Some? ==> |h.newProducers.value.producers| <= MAX_PRODUCERS)
  }

  // ----- one step

  /** Who confirms a block now has not confirmed it before. */
  lemma NotConfirmedTwice(s: HeaderState, hist: History, producer: Name, confirmed: nat, b: nat)
    requires Inv(s, hist) && s.blockNum + 1 < UINT32 && InRange(s, producer, confirmed)
    requires producer in s.active.producers && MayConfirm(s, producer, confirmed)
    requires b in hist.confirmers && s.blockNum + 1 - confirmed <= b
    ensures producer !in hist.confirmers[b]
  {
    if producer in s.lastProduced {
      var d := s.blockNum + 1 - confirmed;
      assert d % UINT32 == d;
    }
  }

  /** A counter and its quorum move together. */
  lemma ConfirmersGrow(s: HeaderState, hist: History, producer: Name, confirmed: nat, b: nat)
    requires Inv(s, hist) && s.blockNum + 1 < UINT32 && InRange(s, producer, confirmed)
    requires producer in s.active.producers && MayConfirm(s, producer, confirmed)
    requires b in hist.confirmers
    ensures var after := Recorded(hist, s, producer, confirmed);
            && b in after.confirmers && b in after.needed && after.needed[b] == hist.needed[b]
            && |after.confirmers[b]| == |hist.confirmers[b]| + (if s.blockNum + 1 - confirmed <= b then 1 else 0)
  {
    if s.blockNum + 1 - confirmed <= b {
      NotConfirmedTwice(s, hist, producer, confirmed, b);
    }
  }

  lemma DecidedStays(s: HeaderState, hist: History, producer: Name, confirmed: nat, v: nat)
    requires Decided(hist, v) && Attributed(s, hist)
    ensures Decided(Recorded(hist, s, producer, confirmed), v)
  {
    if v != 0 {
      SubsetSize(hist.confirmers[v], Recorded(hist, s, producer, confirmed).confirmers[v]);
    }
  }

  /** The history once the new block exists and nobody has confirmed it yet. */
  ghost function Begun(hist: History, s: HeaderState): History {
    var n := s.blockNum + 1;
    History(hist.confirmers[n := {}], hist.needed[n := RequiredConfirmations(|s.active.producers|)])
  }

  ghost predicate CanStep(s: HeaderState, hist: History, producer: Name, confirmed: nat) {
    && Inv(s, hist) && s.blockNum + 1 < UINT32 && InRange(s, producer, confirmed)
    && producer in s.active.producers && MayConfirm(s, producer, confirmed)
  }

  /** The counter at one index once the new block has been given its own. */
  lemma GrownCountAt(s: HeaderState, hist: History, x: nat)
    requires Tracked(s, hist) && 0 < |s.active.producers| <= MAX_PRODUCERS && x < |Grown(s)|
    ensures var grown, begun := Grown(s), Begun(hist, s);
            var b := BlockAt(s.blockNum + 1, |grown|, x);
            && b in begun.confirmers && b in begun.needed && UINT8 > grown[x] >= 1
            && grown[x] + |begun.confirmers[b]| == begun.needed[b]
  {
    var grown, n := Grown(s), s.blockNum + 1;
    var skip := if |s.confirmCount| < MAX_TRACKED_CONFIRMATIONS then 0 else 1;
    if x < |grown| - 1 {
      assert grown[x] == s.confirmCount[x + skip];
      assert BlockAt(n, |grown|, x) == BlockAt(s.blockNum, |s.confirmCount|, x + skip);
    }
  }

  lemma GrownCounts(s: HeaderState, hist: History)
    requires Inv(s, hist)
    ensures Counts(Grown(s), s.blockNum + 1, Begun(hist, s))
    ensures |Grown(s)| == TrackedBlocks(s.blockNum + 1, s.proposed)
    ensures forall c :: c in Grown(s) ==> c < UINT8
  {
    var grown, begun, n := Grown(s), Begun(hist, s), s.blockNum + 1;
    forall x | 0 <= x < |grown|
      ensures var b := BlockAt(n, |grown|, x);
              b in begun.confirmers && b in begun.needed && grown[x] >= 1
              && grown[x] + |begun.confirmers[b]| == begun.needed[b]
    {
      GrownCountAt(s, hist, x);
    }
    forall c | c in grown
      ensures c < UINT8
    {
      var x :| 0 <= x < |grown| && grown[x] == c;
      GrownCountAt(s, hist, x);
    }
    assert Counts(grown, n, begun);
    GrownSize(s, hist);
  }

  /** A header adds its producer to exactly the blocks it confirms, and it is new to each. */
  lemma QuorumGrows(s: HeaderState, hist: History, producer: Name, confirmed: nat, b: nat)
    requires CanStep(s, hist, producer, confirmed)
    requires b in Begun(hist, s).confirmers
    ensures var begun, after := Begun(hist, s), Recorded(hist, s, producer, confirmed);
            && b in after.confirmers && b in after.needed && b in begun.needed
            && after.needed[b] == begun.needed[b]
            && |after.confirmers[b]| ==
                 |begun.confirmers[b]| + (if s.blockNum + 1 - confirmed <= b then 1 else 0)
  {
    var n := s.blockNum + 1;
    assert n !in hist.confirmers;
    if b == n {
      assert Recorded(hist, s, producer, confirmed).confirmers[n] == {producer};
    } else {
      ConfirmersGrow(s, hist, producer, confirmed, b);
    }
  }

  /** `after` is `before` with one more producer on each of the last `confirmed` + 1 blocks up to `n`. */
  ghost predicate OneMore(before: History, after: History, n: nat, confirmed: nat) {
    forall b :: b in before.confirmers && b in before.needed ==>
      && b in after.confirmers && b in after.needed
      && after.needed[b] == before.needed[b]
      && |after.confirmers[b]| == |before.confirmers[b]| + (if n - confirmed <= b then 1 else 0)
  }

  /** The counter at one index of the confirmed counters. */
  lemma CountAfter(counts: seq<nat>, n: nat, before: History, after: History, confirmed: nat, y: nat)
    requires Counts(counts, n, before) && OneMore(before, after, n, confirmed) && counts != []
    requires forall c :: c in counts ==> c < UINT8
    requires y < |Confirm(counts, confirmed + 1).counts|
    ensures var c := Confirm(counts, confirmed + 1).counts;
            var b := BlockAt(n, |c|, y);
            b in after.confirmers && b in after.needed && c[y] >= 1 && c[y] + |after.confirmers[b]| == after.needed[b]
  {
    var c, m := Confirm(counts, confirmed + 1), |counts|;
    var x := y + if c.done.Some? then c.done.value + 1 else 0;
    assert BlockAt(n, m, x) == BlockAt(n, |c.counts|, y);
    assert 1 <= counts[x] < UINT8 by { assert counts[x] in counts; }
  }

  lemma CountsAfter(counts: seq<nat>, n: nat, before: History, after: History, confirmed: nat)
    requires Counts(counts, n, before) && OneMore(before, after, n, confirmed) && counts != []
    requires forall c :: c in counts ==> c < UINT8
    ensures var c := Confirm(counts, confirmed + 1);
            && Counts(c.counts, n, after)
            && (c.done.None? ==> |c.counts| == |counts|)
            && (c.done.Some? ==>
                  && c.done.value < |counts| && |c.counts| == |counts| - 1 - c.done.value
                  && var b := BlockAt(n, |counts|, c.done.value);
                     b in after.confirmers && b in after.needed && |after.confirmers[b]| == after.needed[b])
  {
    var c := Confirm(counts, confirmed + 1);
    forall y | 0 <= y < |c.counts|
      ensures var b := BlockAt(n, |c.counts|, y);
              b in after.confirmers && b in after.needed && c.counts[y] >= 1
              && c.counts[y] + |after.confirmers[b]| == after.needed[b]
    {
      CountAfter(counts, n, before, after, confirmed, y);
    }
    if c.done.Some? {
      assert counts[c.done.value] in counts;
      assert BlockAt(n, |counts|, c.done.value) in before.confirmers;
    }
  }

  lemma HeaderAddsOne(s: HeaderState, hist: History, producer: Name, confirmed: nat)
    requires CanStep(s, hist, producer, confirmed)
    ensures OneMore(Begun(hist, s), Recorded(hist, s, producer, confirmed), s.blockNum + 1, confirmed)
  {
    forall b | b in Begun(hist, s).confirmers && b in Begun(hist, s).needed
      ensures var before, after := Begun(hist, s), Recorded(hist, s, producer, confirmed);
              && b in after.confirmers && b in after.needed
              && after.needed[b] == before.needed[b]
              && |after.confirmers[b]| ==
                   |before.confirmers[b]| + (if s.blockNum + 1 - confirmed <= b then 1 else 0)
    {
      QuorumGrows(s, hist, producer, confirmed, b);
    }
  }

  /** What the confirmation loop leaves behind: right counters, and a decided block if it found one. */
  ghost predicate ConfirmedWell(c: Confirmation, grown: nat, n: nat, after: History) {
    && Counts(c.counts, n, after)
    && (c.done.None? ==> |c.counts| == grown)
    && (c.done.Some? ==>
          && c.done.value < grown && |c.counts| == grown - 1 - c.done.value && |c.counts| < n
          && Decided(after, n - |c.counts|))
  }

  lemma ConfirmingWell(counts: seq<nat>, n: nat, before: History, after: History, confirmed: nat)
    requires Counts(counts, n, before) && OneMore(before, after, n, confirmed) && counts != []
    requires forall c :: c in counts ==> c < UINT8
    requires |counts| <= n
    ensures ConfirmedWell(Confirm(counts, confirmed + 1), |counts|, n, after)
  {
    CountsAfter(counts, n, before, after, confirmed);
    var c := Confirm(counts, confirmed + 1);
    if c.done.Some? {
      assert BlockAt(n, |counts|, c.done.value) == n - |c.counts|;
    }
  }

  lemma StepCounts(s: HeaderState, hist: History, producer: Name, confirmed: nat)
    requires CanStep(s, hist, producer, confirmed)
    ensures ConfirmedWell(Confirmed(s, confirmed), |Grown(s)|, s.blockNum + 1, Recorded(hist, s, producer, confirmed))
  {
    var grown, n := Grown(s), s.blockNum + 1;
    var before, after := Begun(hist, s), Recorded(hist, s, producer, confirmed);
    assert Counts(grown, n, before) && grown != [] && |grown| <= n && forall c :: c in grown ==> c < UINT8 by {
      GrownCounts(s, hist);
    }
    assert OneMore(before, after, n, confirmed) by { HeaderAddsOne(s, hist, producer, confirmed); }
    ConfirmingWell(grown, n, before, after, confirmed);
  }

  /** The last irreversible block is some producer's vote, so it is bounded and decided too. */
  lemma LibIsAVote(s: HeaderState, hist: History, next: Name)
    requires Bounded(s) && Justified(s, hist)
    ensures CalcLastIrreversible(s, next) <= s.proposed
    ensures Decided(hist, CalcLastIrreversible(s, next))
  {
    var votes, lib := Votes(s, next), CalcLastIrreversible(s, next);
    if |votes| != 0 {
      assert lib in votes.Values;
      var p :| p in votes && votes[p] == lib;
    }
  }

  /** `proposed` is unchanged, or a decided block above everything proposed before. */
  ghost predicate Progress(s: HeaderState, proposed: nat, counts: seq<nat>, after: History) {
    && s.proposed <= proposed && |counts| == TrackedBlocks(s.blockNum + 1, proposed)
    && Counts(counts, s.blockNum + 1, after) && Decided(after, proposed)
  }

  lemma PromoteBounded(s: HeaderState, slot: nat, producer: Name, confirmed: nat,
                       proposed: nat, counts: seq<nat>, lib: nat)
    requires Bounded(s) && lib <= s.proposed <= proposed <= s.blockNum + 1
    ensures Bounded(Promote(s, slot, producer, confirmed, proposed, counts, lib).state)
  {}

  lemma PromoteTracked(s: HeaderState, hist: History, slot: nat, producer: Name, confirmed: nat,
                       proposed: nat, counts: seq<nat>, lib: nat)
    requires CanStep(s, hist, producer, confirmed)
    requires Progress(s, proposed, counts, Recorded(hist, s, producer, confirmed))
    ensures Tracked(Promote(s, slot, producer, confirmed, proposed, counts, lib).state,
                    Recorded(hist, s, producer, confirmed))
  {
    RecordedNeeds(s, hist, producer, confirmed);
    PromotedCounters(s, slot, producer, confirmed, proposed, counts, lib, Recorded(hist, s, producer, confirmed));
  }

  lemma PromotedCounters(s: HeaderState, slot: nat, producer: Name, confirmed: nat,
                         proposed: nat, counts: seq<nat>, lib: nat, after: History)
    requires Progress(s, proposed, counts, after) && after.confirmers.Keys == after.needed.Keys
    requires forall b :: b in after.needed ==> after.needed[b] < UINT8
    ensures Tracked(Promote(s, slot, producer, confirmed, proposed, counts, lib).state, after)
  {}

  lemma RecordedNeeds(s: HeaderState, hist: History, producer: Name, confirmed: nat)
    requires hist.confirmers.Keys == hist.needed.Keys && |s.active.producers| <= MAX_PRODUCERS
    requires forall b :: b in hist.needed ==> hist.needed[b] < UINT8
    ensures var after := Recorded(hist, s, producer, confirmed);
            && after.confirmers.Keys == after.needed.Keys
            && forall b :: b in after.needed ==> after.needed[b] < UINT8
  {}

  /** What is known of producer `p` and a block `b` it confirmed. */
  ghost predicate AttributedAt(s: HeaderState, b: nat, p: Name) {
    && b <= s.blockNum
    && (p in s.lastProduced ==> b <= s.lastProduced[p])
    && (p !in s.lastProduced ==>
          p !in s.active.producers && (s.pending.schedule.producers != [] ==> b <= s.pending.libNum))
  }

  lemma PromoteAttributedAt(s: HeaderState, slot: nat, producer: Name, confirmed: nat,
                            proposed: nat, counts: seq<nat>, lib: nat, b: nat, p: Name)
    requires if p == producer then b <= s.blockNum + 1 else AttributedAt(s, b, p)
    ensures AttributedAt(Promote(s, slot, producer, confirmed, proposed, counts, lib).state, b, p)
  {}

  lemma PromoteAttributed(s: HeaderState, hist: History, slot: nat, producer: Name, confirmed: nat,
                          proposed: nat, counts: seq<nat>, lib: nat)
    requires CanStep(s, hist, producer, confirmed)
    ensures Attributed(Promote(s, slot, producer, confirmed, proposed, counts, lib).state,
                       Recorded(hist, s, producer, confirmed))
  {
    var t, after := Promote(s, slot, producer, confirmed, proposed, counts, lib).state, Recorded(hist, s, producer, confirmed);
    forall b | b in after.confirmers
      ensures b <= t.blockNum
    {
      assert b == s.blockNum + 1 || b in hist.confirmers;
    }
    forall b, p | b in after.confirmers && p in after.confirmers[b]
      ensures AttributedAt(t, b, p)
    {
      if p != producer {
        assert b in hist.confirmers && p in hist.confirmers[b];
      }
      PromoteAttributedAt(s, slot, producer, confirmed, proposed, counts, lib, b, p);
    }
  }

  lemma PromoteJustified(s: HeaderState, hist: History, slot: nat, producer: Name, confirmed: nat,
                         proposed: nat, counts: seq<nat>, lib: nat)
    requires Justified(s, hist) && Attributed(s, hist) && Decided(hist, lib)
    requires Decided(Recorded(hist, s, producer, confirmed), proposed)
    ensures Justified(Promote(s, slot, producer, confirmed, proposed, counts, lib).state,
                      Recorded(hist, s, producer, confirmed))
  {
    var t, after := Promote(s, slot, producer, confirmed, proposed, counts, lib).state, Recorded(hist, s, producer, confirmed);
    DecidedStays(s, hist, producer, confirmed, lib);
    DecidedStays(s, hist, producer, confirmed, s.proposed);
    forall p | p in t.lastImplied
      ensures Decided(after, t.lastImplied[p])
    {
      if p in s.lastImplied {
        DecidedStays(s, hist, producer, confirmed, s.lastImplied[p]);
      }
    }
  }

  lemma ConfirmedProgress(s: HeaderState, c: Confirmation, grown: nat, after: History)
    requires ConfirmedWell(c, grown, s.blockNum + 1, after) && Decided(after, s.proposed)
    requires grown == TrackedBlocks(s.blockNum + 1, s.proposed) && s.blockNum + 1 < UINT32
    ensures Progress(s, NextProposal(s, c, grown), c.counts, after)
  {}

  lemma StepProgress(s: HeaderState, hist: History, producer: Name, confirmed: nat)
    requires CanStep(s, hist, producer, confirmed)
    ensures var c := Confirmed(s, confirmed);
            Progress(s, NextProposal(s, c, |Grown(s)|), c.counts, Recorded(hist, s, producer, confirmed))
  {
    StepCounts(s, hist, producer, confirmed);
    DecidedStays(s, hist, producer, confirmed, s.proposed);
    GrownSize(s, hist);
    ConfirmedProgress(s, Confirmed(s, confirmed), |Grown(s)|, Recorded(hist, s, producer, confirmed));
  }

  lemma GrownSize(s: HeaderState, hist: History)
    requires Inv(s, hist)
    ensures |Grown(s)| == TrackedBlocks(s.blockNum + 1, s.proposed)
  {}

  lemma PromoteInv(s: HeaderState, hist: History, slot: nat, producer: Name, confirmed: nat,
                   proposed: nat, counts: seq<nat>, lib: nat)
    requires CanStep(s, hist, producer, confirmed)
    requires Progress(s, proposed, counts, Recorded(hist, s, producer, confirmed))
    requires lib <= s.proposed && Decided(hist, lib)
    ensures Inv(Promote(s, slot, producer, confirmed, proposed, counts, lib).state,
                Recorded(hist, s, producer, confirmed))
  {
    PromoteBounded(s, slot, producer, confirmed, proposed, counts, lib);
    PromoteTracked(s, hist, slot, producer, confirmed, proposed, counts, lib);
    PromoteAttributed(s, hist, slot, producer, confirmed, proposed, counts, lib);
    PromoteJustified(s, hist, slot, producer, confirmed, proposed, counts, lib);
  }

  lemma SuccessorKeepsInv(s: HeaderState, hist: History, slot: nat, producer: Name, confirmed: nat)
    requires CanStep(s, hist, producer, confirmed)
    ensures Inv(Successor(s, slot, producer, confirmed).state, Recorded(hist, s, producer, confirmed))
  {
    var c := Confirmed(s, confirmed);
    StepProgress(s, hist, producer, confirmed);
    LibIsAVote(s, hist, producer);
    PromoteInv(s, hist, slot, producer, confirmed, NextProposal(s, c, |Grown(s)|), c.counts,
               CalcLastIrreversible(s, producer));
  }

  lemma NextIsSuccessor(s: HeaderState, when: nat, confirmed: nat)
    requires s.active.producers != [] && Next(s, when, confirmed).Ok?
    ensures var slot := if when != 0 then when else s.slot + 1;
            var producer := ScheduledProducer(s, slot);
            var p := Successor(s, slot, producer, confirmed);
            Next(s, when, confirmed).value == p && p.producer == producer && MayConfirm(s, producer, confirmed)
  {}

  lemma NextKeepsInv(s: HeaderState, hist: History, when: nat, confirmed: nat)
    requires Inv(s, hist) && s.blockNum + 1 < UINT32 && Next(s, when, confirmed).Ok?
    requires InRange(s, Next(s, when, confirmed).value.producer, confirmed)
    ensures Inv(Next(s, when, confirmed).value.state, Recorded(hist, s, Next(s, when, confirmed).value.producer, confirmed))
  {
    var slot := if when != 0 then when else s.slot + 1;
    NextIsSuccessor(s, when, confirmed);
    SuccessorKeepsInv(s, hist, slot, ScheduledProducer(s, slot), confirmed);
  }

  lemma ApplyKeepsInv(s: HeaderState, hist: History, h: Header)
    requires Inv(s, hist) && Admissible(s, h) && Apply(s, h).Ok?
    ensures Inv(Apply(s, h).value, Recorded(hist, s, h.producer, h.confirmed))
  {
    NextKeepsInv(s, hist, h.slot, h.confirmed);
  }

  // ----- completed quorums

  /** Block `b` is one of the last 1024 up to `last`, above block 1 and above what is proposed. */
  predicate Open(last: nat, proposed: nat, b: nat) {
    1 < b <= last < b + 1024 && proposed < b
  }

  /** No open block has its quorum. */
  lemma OpenIsUndecided(s: HeaderState, hist: History, b: nat)
    requires Tracked(s, hist) && Open(s.blockNum, s.proposed, b)
    ensures !Decided(hist, b)
  {
    var x := b - (s.blockNum - |s.confirmCount| + 1);
    assert BlockAt(s.blockNum, |s.confirmCount|, x) == b;
    assert s.confirmCount[x] >= 1;
  }

  lemma ProposalWasOpen(s: HeaderState, hist: History, producer: Name, confirmed: nat)
    requires CanStep(s, hist, producer, confirmed)
    ensures var b := NextProposal(s, Confirmed(s, confirmed), |Grown(s)|);
            b != s.proposed ==> Open(s.blockNum + 1, s.proposed, b)
  {
    StepProgress(s, hist, producer, confirmed);
    StepCounts(s, hist, producer, confirmed);
    GrownSize(s, hist);
  }

  /** Block `b`, open below block `n`, has its quorum in `after` and had none in `hist`. */
  ghost predicate Completed(n: nat, proposed: nat, hist: History, after: History, b: nat) {
    Open(n, proposed, b) && !Decided(hist, b) && Decided(after, b)
  }

  /** `next` is the youngest completed block, or the old proposal when no block is. */
  ghost predicate YoungestCompleted(n: nat, proposed: nat, hist: History, after: History, next: nat) {
    if exists b: nat :: Completed(n, proposed, hist, after, b)
    then Completed(n, proposed, hist, after, next) && forall b: nat :: Completed(n, proposed, hist, after, b) ==> b <= next
    else next == proposed
  }

  lemma YoungestBy(n: nat, proposed: nat, hist: History, after: History, next: nat)
    requires next == proposed || Completed(n, proposed, hist, after, next)
    requires forall b: nat :: Open(n, next, b) ==> !Decided(after, b)
    ensures YoungestCompleted(n, proposed, hist, after, next)
  {
    forall b: nat | Completed(n, proposed, hist, after, b)
      ensures proposed < b <= next
    {
      assert !Open(n, next, b);
    }
  }

  /** The youngest open block whose quorum a header completes is proposed; without one the proposal
      stays. */
  lemma CompletedIsProposed(s: HeaderState, hist: History, h: Header)
    requires Inv(s, hist) && Admissible(s, h) && Apply(s, h).Ok?
    ensures YoungestCompleted(s.blockNum + 1, s.proposed, hist, Recorded(hist, s, h.producer, h.confirmed),
                              Apply(s, h).value.proposed)
  {
    ApplyKeepsInv(s, hist, h);
    AppliedProposal(s, hist, h);
    ProposedYoungest(s, hist, Apply(s, h).value, Recorded(hist, s, h.producer, h.confirmed));
  }

  lemma AppliedProposal(s: HeaderState, hist: History, h: Header)
    requires Inv(s, hist) && Admissible(s, h) && Apply(s, h).Ok?
    ensures var t := Apply(s, h).value;
            t.blockNum == s.blockNum + 1 && (t.proposed == s.proposed || Open(t.blockNum, s.proposed, t.proposed))
  {
    NextIsSuccessor(s, h.slot, h.confirmed);
    ProposalWasOpen(s, hist, h.producer, h.confirmed);
  }

  lemma ProposedYoungest(s: HeaderState, hist: History, t: HeaderState, after: History)
    requires Tracked(s, hist) && Attributed(s, hist) && Tracked(t, after) && Decided(after, t.proposed)
    requires t.blockNum == s.blockNum + 1 && (t.proposed == s.proposed || Open(t.blockNum, s.proposed, t.proposed))
    ensures YoungestCompleted(t.blockNum, s.proposed, hist, after, t.proposed)
  {
    ProposedWasUndecided(s, hist, t.proposed);
    forall b: nat | Open(t.blockNum, t.proposed, b)
      ensures !Decided(after, b)
    {
      OpenIsUndecided(t, after, b);
    }
    YoungestBy(t.blockNum, s.proposed, hist, after, t.proposed);
  }

  lemma ProposedWasUndecided(s: HeaderState, hist: History, b: nat)
    requires Tracked(s, hist) && Attributed(s, hist)
    ensures Open(s.blockNum + 1, s.proposed, b) ==> !Decided(hist, b)
  {
    if Open(s.blockNum, s.proposed, b) {
      OpenIsUndecided(s, hist, b);
    }
  }

  // ----- whole chains

  /** The state and history after applying `headers` in order, if all are accepted. */
  ghost function Chain(s: HeaderState, hist: History, headers: seq<Header>): Result<(HeaderState, History)>
    decreases |headers|
  {
    if headers == [] then Ok((s, hist))
    else if s.active.producers == [] || Apply(s, headers[0]).Rejected? then Rejected
    else Chain(Apply(s, headers[0]).value, Recorded(hist, s, headers[0].producer, headers[0].confirmed), headers[1..])
  }

  ghost predicate AllAdmissible(s: HeaderState, headers: seq<Header>)
    decreases |headers|
  {
    headers != [] && s.active.producers != [] && Apply(s, headers[0]).Ok? ==>
      Admissible(s, headers[0]) && AllAdmissible(Apply(s, headers[0]).value, headers[1..])
  }

  /** Block 1, with the system account as its only producer, active and pending. */
  function Genesis(system: Name, slot: nat): HeaderState {
    var schedule := Schedule(0, [system]);
    HeaderState(1, slot, 0, 0, schedule, map[], map[], [], ScheduleInfo(0, schedule))
  }

  lemma ChainStep(s: HeaderState, hist: History, h: Header, rest: seq<Header>, t: HeaderState)
    requires s.active.producers != [] && Apply(s, h) == Ok(t)
    ensures Chain(s, hist, [h] + rest) == Chain(t, Recorded(hist, s, h.producer, h.confirmed), rest)
  {
    assert ([h] + rest)[1..] == rest;
  }

  lemma {:induction false} ChainKeepsInv(s: HeaderState, hist: History, headers: seq<Header>)
    requires Inv(s, hist) && AllAdmissible(s, headers) && Chain(s, hist, headers).Ok?
    ensures var (t, after) := Chain(s, hist, headers).value; Inv(t, after)
    decreases |headers|
  {
    if headers != [] {
      ApplyKeepsInv(s, hist, headers[0]);
      ChainKeepsInv(Apply(s, headers[0]).value, Recorded(hist, s, headers[0].producer, headers[0].confirmed), headers[1..]);
    }
  }

  /** On every chain from genesis, the block proposed as irreversible, the irreversible block
      and every producer's vote were each confirmed by a quorum of different producers. */
  lemma ChainIsSafe(system: Name, slot: nat, headers: seq<Header>)
    ensures var genesis := Genesis(system, slot);
            var end := Chain(genesis, History(map[], map[]), headers);
            AllAdmissible(genesis, headers) && end.Ok? ==>
              var (t, hist) := end.value;
              && t.irreversible <= t.proposed <= t.blockNum
              && Decided(hist, t.irreversible) && Decided(hist, t.proposed)
              && forall p :: p in t.lastImplied ==> Decided(hist, t.lastImplied[p])
  {
    var genesis := Genesis(system, slot);
    if AllAdmissible(genesis, headers) && Chain(genesis, History(map[], map[]), headers).Ok? {
      ChainKeepsInv(genesis, History(map[], map[]), headers);
    }
  }

  /** On such a chain no quorum is missed: of the last 1024 blocks, none above the proposed one has
      been confirmed by a quorum. */
  lemma ChainMissesNoQuorum(system: Name, slot: nat, headers: seq<Header>, b: nat)
    ensures var genesis := Genesis(system, slot);
            var end := Chain(genesis, History(map[], map[]), headers);
            AllAdmissible(genesis, headers) && end.Ok? ==>
              var (t, hist) := end.value;
              1 < b <= t.blockNum < b + 1024 && t.proposed < b ==> !Decided(hist, b)
  {
    var genesis := Genesis(system, slot);
    var end := Chain(genesis, History(map[], map[]), headers);
    if AllAdmissible(genesis, headers) && end.Ok? {
      ChainKeepsInv(genesis, History(map[], map[]), headers);
      var (t, hist) := end.value;
      if Open(t.blockNum, t.proposed, b) {
        OpenIsUndecided(t, hist, b);
      }
    }
  }

  /** The counters from index `i` on have been taken down by one. */
  ghost predicate CountedFrom(grown: seq<nat>, counts: seq<nat>, i: int) {
    |counts| == |grown| && forall x :: 0 <= x < |grown| ==> counts[x] == if i <= x then Decremented(grown[x]) else grown[x]
  }

  lemma CountOne(grown: seq<nat>, counts: seq<nat>, i: nat)
    requires i < |grown| && CountedFrom(grown, counts, i + 1)
    ensures counts[i] == grown[i] && CountedFrom(grown, counts[i := Decremented(grown[i])], i)
  {}

  lemma FirstDoneStep(counts: seq<nat>, i: nat, left: nat)
    requires i < |counts| && left > 0
    ensures FirstDone(counts, i, left) == if Decremented(counts[i]) == 0 then Some(i) else FirstDone(counts, i - 1, left - 1)
  {}

  lemma ConfirmStopped(grown: seq<nat>, left: nat, i: nat, counts: seq<nat>)
    requires FirstDone(grown, |grown| - 1, left) == Some(i) && i < |grown| && CountedFrom(grown, counts, i)
    ensures Confirmation(counts[i + 1..], Some(i)) == Confirm(grown, left)
  {
    assert counts[i + 1..] == Confirm(grown, left).counts;
  }

  lemma ConfirmWent(grown: seq<nat>, left: nat, counts: seq<nat>)
    requires FirstDone(grown, |grown| - 1, left) == None && CountedFrom(grown, counts, |grown| - left)
    ensures Confirmation(counts, None) == Confirm(grown, left)
  {
    assert counts == Confirm(grown, left).counts;
  }

  /** The confirmation loop as it runs: downwards from the new block, stopping early when a
      counter reaches zero and then cutting that block and the older ones off the front. */
  method ConfirmLoop(grown: seq<nat>, confirmed: nat) returns (counts: seq<nat>, done: Option<nat>)
    requires grown != []
    ensures Confirmation(counts, done) == Confirm(grown, confirmed + 1)
  {
    counts, done := grown, None;
    ghost var target := FirstDone(grown, |grown| - 1, confirmed + 1);
    var i, blocksToConfirm: nat := |grown| - 1, confirmed + 1;
    while i >= 0 && blocksToConfirm != 0
      invariant -1 <= i < |grown| && blocksToConfirm == confirmed + 1 - (|grown| - 1 - i)
      invariant target == FirstDone(grown, i, blocksToConfirm)
      invariant CountedFrom(grown, counts, i + 1)
      invariant done == None
    {
      FirstDoneStep(grown, i, blocksToConfirm);
      CountOne(grown, counts, i);
      counts := counts[i := Decremented(counts[i])];
      if counts[i] == 0 {
        ConfirmStopped(grown, confirmed + 1, i, counts);
        return counts[i + 1..], Some(i);
      }
      i, blocksToConfirm := i - 1, blocksToConfirm - 1;
    }
    assert CountedFrom(grown, counts, |grown| - (confirmed + 1));
    ConfirmWent(grown, confirmed + 1, counts);
  }

  // ----- the guard and 32-bit arithmetic

  /** The guard refuses every repeated confirmation exactly when the confirmed range does not
      reach below block 0; beyond that the subtraction wraps and everything passes. */
  lemma GuardIsExact(s: HeaderState, producer: Name, confirmed: nat)
    requires producer in s.lastProduced && s.lastProduced[producer] <= s.blockNum
    requires s.blockNum + 1 < UINT32 && confirmed < 0x1_0000
    ensures (MayConfirm(s, producer, confirmed) <==> s.lastProduced[producer] < s.blockNum + 1 - confirmed)
            <==> confirmed <= s.blockNum + 1
  {
    var d := s.blockNum + 1 - confirmed;
    if d < 0 {
      assert d % UINT32 == d + UINT32;
    } else {
      assert d % UINT32 == d;
    }
  }
}
