/** When the last irreversible block number can go back, and what two branches must share. */
module DposFinality {
  import Options
  import Slots
  import opened Dpos

  /** Producers still standing behind an older block than the irreversible one. */
  ghost function Laggards(s: HeaderState): set<Name> {
    Below(s.lastImplied, s.irreversible)
  }

  /** The recorded votes alone already support the irreversible block. */
  ghost predicate Steady(s: HeaderState) {
    if s.lastImplied == map[] then s.irreversible == 0 else Supermajority(s.lastImplied, s.irreversible)
  }

  lemma VotesBelow(s: HeaderState, next: Name)
    requires s.irreversible <= s.proposed
    ensures Below(Votes(s, next), s.irreversible) == Laggards(s) - {next}
    ensures |Votes(s, next)| == |s.lastImplied|
  {
    assert Votes(s, next).Keys == s.lastImplied.Keys;
  }

  /** The next block keeps the irreversible number exactly when fewer than a third of the
      producers, its own aside, lag behind it. */
  lemma LibHoldsIff(s: HeaderState, next: Name)
    requires Bounded(s) && s.lastImplied != map[]
    ensures CalcLastIrreversible(s, next) >= s.irreversible <==> 3 * |Laggards(s) - {next}| < |s.lastImplied|
  {
    var votes := Votes(s, next);
    VotesBelow(s, next);
    assert |s.lastImplied| > 0;
    LibIsHighestSupermajority(s, next);
    SupportersComplement(votes, s.irreversible);
    assert s.irreversible <= CalcLastIrreversible(s, next) <==> Supermajority(votes, s.irreversible);
  }

  lemma SteadyMeansFewLaggards(s: HeaderState)
    requires s.lastImplied != map[]
    ensures Steady(s) <==> 3 * |Laggards(s)| < |s.lastImplied|
  {
    SupportersComplement(s.lastImplied, s.irreversible);
  }

  /** From a steady state the irreversible number does not go back. */
  lemma SteadyLibHolds(s: HeaderState, next: Name)
    requires Bounded(s) && Steady(s)
    ensures CalcLastIrreversible(s, next) >= s.irreversible
  {
    if s.lastImplied != map[] {
      SteadyMeansFewLaggards(s);
      SubsetSize(Laggards(s) - {next}, Laggards(s));
      LibHoldsIff(s, next);
    }
  }

  /** Recording the producer's vote keeps the new irreversible number supported. */
  lemma VoteKeepsSupport(s: HeaderState, producer: Name)
    requires Bounded(s)
    ensures Supermajority(s.lastImplied[producer := s.proposed], CalcLastIrreversible(s, producer))
  {
    var votes, lib := Votes(s, producer), CalcLastIrreversible(s, producer);
    var after := s.lastImplied[producer := s.proposed];
    LibIsHighestSupermajority(s, producer);
    if s.lastImplied == map[] {
      assert votes == map[];
      assert Supporters(after, 0) == {producer};
    } else {
      assert Supermajority(votes, lib);
      assert votes.Keys == s.lastImplied.Keys;
      LibBelowProposed(s, producer);
      if producer in s.lastImplied {
        assert after == votes;
      } else {
        assert Supporters(after, lib) == Supporters(votes, lib) + {producer};
        assert after.Keys == votes.Keys + {producer};
      }
    }
  }

  lemma LibBelowProposed(s: HeaderState, next: Name)
    requires Bounded(s)
    ensures CalcLastIrreversible(s, next) <= s.proposed
  {
    var votes := Votes(s, next);
    if |votes| != 0 {
      var p :| p in votes && votes[p] == CalcLastIrreversible(s, next);
    }
  }

  /** Whoever produces the next block, fewer than a third of the other votes lag behind. */
  ghost predicate Firm(s: HeaderState) {
    if s.lastImplied == map[] then s.irreversible == 0
    else forall p :: p in s.active.producers ==> 3 * |Laggards(s) - {p}| < |s.lastImplied|
  }

  lemma SteadyIsFirm(s: HeaderState)
    requires Steady(s)
    ensures Firm(s)
  {
    if s.lastImplied != map[] {
      SteadyMeansFewLaggards(s);
      forall p | p in s.active.producers
        ensures 3 * |Laggards(s) - {p}| < |s.lastImplied|
      {
        SubsetSize(Laggards(s) - {p}, Laggards(s));
      }
    }
  }

  /** A step that installs no schedule leaves a supermajority behind its irreversible block. */
  lemma UnpromotedStepIsSteady(s: HeaderState, slot: nat, producer: Name, confirmed: nat)
    requires Bounded(s) && !Successor(s, slot, producer, confirmed).promoted
    ensures Steady(Successor(s, slot, producer, confirmed).state)
  {
    VoteKeepsSupport(s, producer);
    assert producer in s.lastImplied[producer := s.proposed];
  }

  lemma AppliedIsSuccessor(s: HeaderState, h: Header)
    requires s.active.producers != [] && Apply(s, h).Ok?
    ensures h.producer in s.active.producers
    ensures exists slot: nat :: var p := Successor(s, slot, h.producer, h.confirmed);
              && p == Next(s, h.slot, h.confirmed).value
              && Apply(s, h).value == p.state.(pending := Apply(s, h).value.pending)
  {
    var slot := if h.slot != 0 then h.slot else s.slot + 1;
    NextIsSuccessor(s, h.slot, h.confirmed);
    assert Successor(s, slot, h.producer, h.confirmed) == Next(s, h.slot, h.confirmed).value;
  }

  /** The header of the next block takes the irreversible block back exactly when a third or more of
      the votes, its producer's aside, lag behind. */
  lemma HeaderHoldsIff(s: HeaderState, h: Header)
    requires Bounded(s) && s.lastImplied != map[] && Apply(s, h).Ok?
    ensures Apply(s, h).value.irreversible >= s.irreversible <==> 3 * |Laggards(s) - {h.producer}| < |s.lastImplied|
  {
    AppliedIsSuccessor(s, h);
    LibHoldsIff(s, h.producer);
  }

  lemma UnpromotedHeaderIsSteady(s: HeaderState, h: Header)
    requires Bounded(s) && Apply(s, h).Ok? && !Next(s, h.slot, h.confirmed).value.promoted
    ensures Steady(Apply(s, h).value)
  {
    AppliedIsSuccessor(s, h);
    var slot: nat :| var p := Successor(s, slot, h.producer, h.confirmed);
              && p == Next(s, h.slot, h.confirmed).value
              && Apply(s, h).value == p.state.(pending := Apply(s, h).value.pending);
    UnpromotedStepIsSteady(s, slot, h.producer, h.confirmed);
  }

  // ----- the next header

  /** No header that is accepted next, in a slot of 32 bits, takes the irreversible block back. */
  ghost predicate Holds(s: HeaderState)
    requires s.active.producers != []
  {
    forall h: Header :: h.slot < UINT32 && Apply(s, h).Ok? ==> Apply(s, h).value.irreversible >= s.irreversible
  }

  lemma FirmHeaderHolds(s: HeaderState, h: Header)
    requires Bounded(s) && Firm(s) && Apply(s, h).Ok?
    ensures Apply(s, h).value.irreversible >= s.irreversible
  {
    AppliedIsSuccessor(s, h);
    if s.lastImplied != map[] {
      HeaderHoldsIff(s, h);
    }
  }

  lemma FirmHolds(s: HeaderState)
    requires Bounded(s) && Firm(s)
    ensures Holds(s)
  {
    forall h: Header | h.slot < UINT32 && Apply(s, h).Ok?
      ensures Apply(s, h).value.irreversible >= s.irreversible
    {
      FirmHeaderHolds(s, h);
    }
  }

  /** The 32 bits of block numbers and slots leave room for one more block by any producer. */
  ghost predicate Room(s: HeaderState) {
    s.blockNum + 1 < UINT32 && s.slot + |s.active.producers| * PRODUCER_REPETITIONS < UINT32
  }

  /** Every producer of the schedule gets a slot within one round. */
  lemma TurnComes(s: HeaderState, i: nat) returns (slot: nat)
    requires i < |s.active.producers|
    ensures s.slot < slot <= s.slot + |s.active.producers| * PRODUCER_REPETITIONS
    ensures ScheduledProducer(s, slot) == s.active.producers[i]
  {
    slot := Slots.TurnComes(s.slot, i, |s.active.producers|, PRODUCER_REPETITIONS);
  }

  function Plain(s: HeaderState, slot: nat, producer: Name): Header {
    Header(slot, producer, 0, s.active.version, Options.None)
  }

  lemma PlainIsAccepted(s: HeaderState, slot: nat, producer: Name)
    requires Bounded(s) && s.blockNum + 1 < UINT32 && slot > s.slot && ScheduledProducer(s, slot) == producer
    ensures Apply(s, Plain(s, slot, producer)).Ok? && Admissible(s, Plain(s, slot, producer))
    ensures Apply(s, Plain(s, slot, producer)).value.irreversible == CalcLastIrreversible(s, producer)
  {
    assert (s.blockNum + 1 - 0) % UINT32 == s.blockNum + 1;
    assert MayConfirm(s, producer, 0);
  }

  /** In a state that is not firm some producer's next header takes the irreversible block back. */
  lemma UnfirmFalls(s: HeaderState) returns (h: Header)
    requires Bounded(s) && Room(s) && !Firm(s)
    ensures h.slot < UINT32
    ensures Apply(s, h).Ok? && Admissible(s, h) && Apply(s, h).value.irreversible < s.irreversible
  {
    var i := 0;
    if s.lastImplied != map[] {
      var p :| p in s.active.producers && 3 * |Laggards(s) - {p}| >= |s.lastImplied|;
      i :| 0 <= i < |s.active.producers| && s.active.producers[i] == p;
    }
    var p := s.active.producers[i];
    var slot := TurnComes(s, i);
    h := Plain(s, slot, p);
    PlainIsAccepted(s, slot, p);
    if s.lastImplied != map[] {
      LibHoldsIff(s, p);
    } else {
      assert Votes(s, p) == map[];
    }
  }

  /** Firmness is exactly what the next header needs. */
  lemma HoldsIffFirm(s: HeaderState)
    requires Bounded(s) && Room(s)
    ensures Holds(s) <==> Firm(s)
  {
    if Firm(s) {
      FirmHolds(s);
    } else {
      var h := UnfirmFalls(s);
    }
  }

  // ----- whole chains

  /** Every take-over leaves a firm state. */
  ghost predicate FirmTakeovers(s: HeaderState, headers: seq<Header>)
    decreases |headers|
  {
    headers != [] && s.active.producers != [] && Apply(s, headers[0]).Ok? ==>
      var t := Apply(s, headers[0]).value;
      (Next(s, headers[0].slot, headers[0].confirmed).value.promoted ==> Firm(t)) && FirmTakeovers(t, headers[1..])
  }

  /** At no point of the chain could an accepted header take the irreversible block back. */
  ghost predicate AlwaysHolds(s: HeaderState, headers: seq<Header>)
    decreases |headers|
  {
    && (s.active.producers != [] ==> Holds(s))
    && (headers != [] && s.active.producers != [] && Apply(s, headers[0]).Ok? ==>
          AlwaysHolds(Apply(s, headers[0]).value, headers[1..]))
  }

  lemma StepFirm(s: HeaderState, hist: History, h: Header)
    requires Inv(s, hist) && Firm(s) && Admissible(s, h) && Apply(s, h).Ok?
    ensures var t := Apply(s, h).value;
            && Inv(t, Recorded(hist, s, h.producer, h.confirmed))
            && t.irreversible >= s.irreversible
            && (!Next(s, h.slot, h.confirmed).value.promoted ==> Firm(t))
  {
    ApplyKeepsInv(s, hist, h);
    FirmHeaderHolds(s, h);
    if !Next(s, h.slot, h.confirmed).value.promoted {
      UnpromotedHeaderIsSteady(s, h);
      SteadyIsFirm(Apply(s, h).value);
    }
  }

  lemma {:induction false} FirmChain(s: HeaderState, hist: History, headers: seq<Header>)
    requires Inv(s, hist) && Firm(s) && AllAdmissible(s, headers) && Chain(s, hist, headers).Ok?
    requires FirmTakeovers(s, headers)
    ensures Chain(s, hist, headers).value.0.irreversible >= s.irreversible && Firm(Chain(s, hist, headers).value.0)
    decreases |headers|
  {
    if headers != [] {
      var h := headers[0];
      StepFirm(s, hist, h);
      FirmChain(Apply(s, h).value, Recorded(hist, s, h.producer, h.confirmed), headers[1..]);
    }
  }

  lemma {:induction false} TakeoversDecideFrom(s: HeaderState, hist: History, headers: seq<Header>)
    requires Inv(s, hist) && Firm(s) && AllAdmissible(s, headers) && Chain(s, hist, headers).Ok?
    requires RoomAfter(Chain(s, hist, headers).value.0)
    ensures FirmTakeovers(s, headers) <==> AlwaysHolds(s, headers)
    decreases |headers|
  {
    FirmHolds(s);
    if headers != [] {
      var h := headers[0];
      var t, after := Apply(s, h).value, Recorded(hist, s, h.producer, h.confirmed);
      StepFirm(s, hist, h);
      if Firm(t) {
        TakeoversDecideFrom(t, after, headers[1..]);
      } else {
        StillRoom(t, after, headers[1..]);
        HoldsIffFirm(t);
      }
    }
  }

  /** Room for one more block, whatever schedule the code allows. */
  ghost predicate RoomAfter(s: HeaderState) {
    s.blockNum + 1 < UINT32 && s.slot + MAX_PRODUCERS * PRODUCER_REPETITIONS < UINT32
  }

  /** Numbers and slots only grow, so room at the end is room everywhere. */
  lemma {:induction false} StillRoom(s: HeaderState, hist: History, headers: seq<Header>)
    requires Chain(s, hist, headers).Ok? && RoomAfter(Chain(s, hist, headers).value.0)
    ensures RoomAfter(s)
    decreases |headers|
  {
    if headers != [] {
      var h := headers[0];
      StillRoom(Apply(s, h).value, Recorded(hist, s, h.producer, h.confirmed), headers[1..]);
    }
  }

  lemma GenesisIsFirm(system: Name, slot: nat)
    ensures Inv(Genesis(system, slot), History(map[], map[])) && Firm(Genesis(system, slot))
  {}

  /** On a chain from genesis no accepted header could ever take the irreversible block back, if and
      only if every take-over leaves a firm state. */
  lemma TakeoversDecide(system: Name, slot: nat, headers: seq<Header>)
    requires AllAdmissible(Genesis(system, slot), headers)
    requires var end := Chain(Genesis(system, slot), History(map[], map[]), headers);
             end.Ok? && RoomAfter(end.value.0)
    ensures FirmTakeovers(Genesis(system, slot), headers) <==> AlwaysHolds(Genesis(system, slot), headers)
  {
    GenesisIsFirm(system, slot);
    TakeoversDecideFrom(Genesis(system, slot), History(map[], map[]), headers);
  }

  /** A chain with only admissible headers whose take-overs leave firm states. */
  ghost predicate Regular(s: HeaderState, hist: History, headers: seq<Header>) {
    AllAdmissible(s, headers) && FirmTakeovers(s, headers) && Chain(s, hist, headers).Ok?
  }

  /** On such a chain from genesis, cut anywhere, the irreversible block never goes back from the
      first part to the second. */
  lemma LibIsMonotone(system: Name, slot: nat, first: seq<Header>, rest: seq<Header>)
    requires Regular(Genesis(system, slot), History(map[], map[]), first)
    requires var mid := Chain(Genesis(system, slot), History(map[], map[]), first).value; Regular(mid.0, mid.1, rest)
    ensures var mid := Chain(Genesis(system, slot), History(map[], map[]), first).value;
            var end := Chain(mid.0, mid.1, rest).value.0;
            mid.0.irreversible <= end.irreversible && Firm(end)
  {
    var genesis, empty := Genesis(system, slot), History(map[], map[]);
    GenesisIsFirm(system, slot);
    FirmChain(genesis, empty, first);
    ChainKeepsInv(genesis, empty, first);
    var mid := Chain(genesis, empty, first).value;
    FirmChain(mid.0, mid.1, rest);
  }

  /** After a take-over the laggards are the producers kept from the old schedule that were behind. */
  lemma PromotionLaggards(s: HeaderState, slot: nat, producer: Name, confirmed: nat)
    requires Bounded(s) && Successor(s, slot, producer, confirmed).promoted
    ensures var t := Successor(s, slot, producer, confirmed).state;
            Laggards(t) == set p | p in s.pending.schedule.producers && p != producer
                                   && p in s.lastImplied && s.lastImplied[p] < t.irreversible
  {
    LibBelowProposed(s, producer);
  }

  // ----- two branches

  /** No header of the chain installs a new schedule. */
  ghost predicate KeepsSchedule(s: HeaderState, headers: seq<Header>)
    decreases |headers|
  {
    headers != [] && s.active.producers != [] && Apply(s, headers[0]).Ok? ==>
      && !Next(s, headers[0].slot, headers[0].confirmed).value.promoted
      && KeepsSchedule(Apply(s, headers[0]).value, headers[1..])
  }

  /** Blocks above `base` are confirmed by scheduled producers only and need the schedule's quorum. */
  ghost predicate Scheduled(hist: History, base: nat, producers: seq<Name>) {
    forall b :: b in hist.confirmers && b > base ==>
      && b in hist.needed && hist.needed[b] == RequiredConfirmations(|producers|)
      && forall p :: p in hist.confirmers[b] ==> p in producers
  }

  lemma RecordedScheduled(s: HeaderState, hist: History, h: Header, base: nat)
    requires Scheduled(hist, base, s.active.producers) && h.producer in s.active.producers && base <= s.blockNum
    ensures Scheduled(Recorded(hist, s, h.producer, h.confirmed), base, s.active.producers)
  {}

  lemma {:induction false} ConfirmersAreScheduled(s: HeaderState, hist: History, headers: seq<Header>, base: nat)
    requires s.active.producers != [] && base <= s.blockNum && Scheduled(hist, base, s.active.producers)
    requires KeepsSchedule(s, headers) && Chain(s, hist, headers).Ok?
    ensures Scheduled(Chain(s, hist, headers).value.1, base, s.active.producers)
    decreases |headers|
  {
    if headers != [] {
      var h := headers[0];
      AppliedIsSuccessor(s, h);
      RecordedScheduled(s, hist, h, base);
      ConfirmersAreScheduled(Apply(s, h).value, Recorded(hist, s, h.producer, h.confirmed), headers[1..], base);
    }
  }

  function NameSet(producers: seq<Name>): (r: set<Name>)
    ensures |r| <= |producers|
  {
    if producers == [] then {} else {producers[0]} + NameSet(producers[1..])
  }

  lemma {:induction false} NameSetMember(producers: seq<Name>, p: Name)
    requires p in producers
    ensures p in NameSet(producers)
  {
    if p != producers[0] {
      NameSetMember(producers[1..], p);
    }
  }

  /** Any two quorums of a schedule share more than a third of its producers. */
  lemma QuorumsOverlap(producers: seq<Name>, a: set<Name>, b: set<Name>)
    requires producers != [] && forall p :: p in a + b ==> p in producers
    requires |a| >= RequiredConfirmations(|producers|) && |b| >= RequiredConfirmations(|producers|)
    ensures 3 * |a * b| > |producers|
  {
    forall p | p in a + b
      ensures p in NameSet(producers)
    {
      NameSetMember(producers, p);
    }
    SubsetSize(a + b, NameSet(producers));
    RequiredIsSupermajority(|producers|);
  }

  /** The chain acts on block `b`: it has proposed it as irreversible, or it is irreversible. */
  ghost predicate ActsOn(s: HeaderState, hist: History, headers: seq<Header>, b: nat) {
    && AllAdmissible(s, headers) && KeepsSchedule(s, headers) && Chain(s, hist, headers).Ok?
    && (b == Chain(s, hist, headers).value.0.proposed || b == Chain(s, hist, headers).value.0.irreversible)
  }

  lemma ActsOnQuorum(s: HeaderState, hist: History, headers: seq<Header>, b: nat)
    requires Inv(s, hist) && ActsOn(s, hist, headers, b) && b > s.blockNum
    ensures var after := Chain(s, hist, headers).value.1;
            && b in after.confirmers && |after.confirmers[b]| >= RequiredConfirmations(|s.active.producers|)
            && forall p :: p in after.confirmers[b] ==> p in s.active.producers
  {
    ChainKeepsInv(s, hist, headers);
    ConfirmersAreScheduled(s, hist, headers, s.blockNum);
  }

  /** Accountable safety: when two branches from one state, under one schedule, act on blocks `b` and
      `c` of their own, more than a third of the producers confirmed both, one on each branch. */
  lemma ConflictingBranches(s: HeaderState, hist: History, left: seq<Header>, right: seq<Header>, b: nat, c: nat)
    requires Inv(s, hist) && b > s.blockNum && c > s.blockNum
    requires ActsOn(s, hist, left, b) && ActsOn(s, hist, right, c)
    ensures var l, r := Chain(s, hist, left).value.1, Chain(s, hist, right).value.1;
            b in l.confirmers && c in r.confirmers && 3 * |l.confirmers[b] * r.confirmers[c]| > |s.active.producers|
  {
    ActsOnQuorum(s, hist, left, b);
    ActsOnQuorum(s, hist, right, c);
    var l, r := Chain(s, hist, left).value.1, Chain(s, hist, right).value.1;
    QuorumsOverlap(s.active.producers, l.confirmers[b], r.confirmers[c]);
  }
}
