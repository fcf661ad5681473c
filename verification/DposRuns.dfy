/** Two chains from genesis, header by header: one where the wrapped guard lets a single producer
    stand for a quorum, and one where the irreversible block goes back after a take-over. */
module DposRuns {
  import opened Options
  import opened Dpos
  import opened DposFinality

  // ----- evaluating one header

  /** The conditions under which a header is accepted, with what it leads to. */
  ghost predicate Fits(s: HeaderState, h: Header, c: Confirmation, lib: nat, t: HeaderState) {
    && s.active.producers != [] && s.slot < h.slot && ScheduledProducer(s, h.slot) == h.producer
    && MayConfirm(s, h.producer, h.confirmed) && h.scheduleVersion == s.active.version
    && Confirmed(s, h.confirmed) == c && CalcLastIrreversible(s, h.producer) == lib
    && t.blockNum == s.blockNum + 1 && t.slot == h.slot && t.proposed == NextProposal(s, c, |Grown(s)|)
    && t.irreversible == lib && t.confirmCount == c.counts
  }

  /** The schedules stay as they are. */
  lemma Continues(s: HeaderState, h: Header, c: Confirmation, lib: nat, t: HeaderState)
    requires Fits(s, h, c, lib, t) && h.newProducers.None?
    requires s.pending.schedule.producers != [] ==> lib < s.pending.libNum
    requires t.active == s.active && t.pending == s.pending
    requires t.lastProduced == s.lastProduced[h.producer := t.blockNum]
    requires t.lastImplied == s.lastImplied[h.producer := s.proposed]
    ensures Apply(s, h) == Ok(t)
  {}

  /** The header announces a schedule. */
  lemma Announces(s: HeaderState, h: Header, c: Confirmation, lib: nat, t: HeaderState)
    requires Fits(s, h, c, lib, t) && h.newProducers.Some? && s.pending.schedule.producers == []
    requires h.newProducers.value.version == s.active.version + 1
    requires t.active == s.active && t.pending == ScheduleInfo(t.blockNum, h.newProducers.value)
    requires t.lastProduced == s.lastProduced[h.producer := t.blockNum]
    requires t.lastImplied == s.lastImplied[h.producer := s.proposed]
    ensures Apply(s, h) == Ok(t)
  {}

  /** The pending schedule takes over. */
  lemma Installs(s: HeaderState, h: Header, c: Confirmation, lib: nat, t: HeaderState)
    requires Fits(s, h, c, lib, t) && h.newProducers.None?
    requires s.pending.schedule.producers != [] && lib >= s.pending.libNum
    requires t.active == s.pending.schedule
    requires t.pending == ScheduleInfo(s.pending.libNum, s.pending.schedule.(producers := []))
    requires t.lastProduced == Carried(s.lastProduced, t.active, h.producer, t.blockNum, lib)[h.producer := t.blockNum]
    requires t.lastImplied == Carried(s.lastImplied, t.active, h.producer, s.proposed, lib)
    ensures Apply(s, h) == Ok(t)
  {}

  /** The computed number, from who supports it and who supports more. */
  lemma LibIs(s: HeaderState, next: Name, lib: nat, votes: map<Name, nat>, with: set<Name>, above: set<Name>)
    requires votes == Votes(s, next) && votes != map[]
    requires Supporters(votes, lib) == with && Supporters(votes, lib + 1) == above
    requires 3 * |with| > 2 * |votes| >= 3 * |above|
    ensures CalcLastIrreversible(s, next) == lib
  {
    LibIsHighestSupermajority(s, next);
    assert Supermajority(votes, lib) && !Supermajority(votes, lib + 1);
  }

  /** A block that confirms only itself. */
  lemma ConfirmsItself(rest: seq<nat>, last: nat)
    requires 1 <= last < UINT8
    ensures Confirm(rest + [last], 1) ==
            if last == 1 then Confirmation([], Some(|rest|)) else Confirmation(rest + [last - 1], None)
  {
    var counts := rest + [last];
    assert counts[|rest|] == last && Decremented(last) == last - 1;
    if last > 1 {
      assert FirstDone(counts, |rest|, 1) == FirstDone(counts, |rest| - 1, 0) == None;
      assert Confirm(counts, 1).counts == rest + [last - 1];
    } else {
      assert Confirm(counts, 1).counts == [];
    }
  }

  lemma ConfirmsTwo(left: nat)
    requires left >= 2
    ensures Confirm([2, 3], left) == Confirmation([1, 2], None)
  {
    assert Decremented(3) == 2 && Decremented(2) == 1;
    assert FirstDone([2, 3], 1, left) == FirstDone([2, 3], 0, left - 1) == FirstDone([2, 3], -1, left - 2) == None;
    assert Confirm([2, 3], left).counts == [1, 2];
  }

  lemma ConfirmsThree(left: nat)
    requires left >= 3
    ensures Confirm([1, 2, 3], left) == Confirmation([1, 2], Some(0))
  {
    assert Decremented(3) == 2 && Decremented(2) == 1 && Decremented(1) == 0;
    assert FirstDone([1, 2, 3], 2, left) == FirstDone([1, 2, 3], 1, left - 1);
    assert FirstDone([1, 2, 3], 1, left - 1) == FirstDone([1, 2, 3], 0, left - 2) == Some(0);
    assert Confirm([1, 2, 3], left).counts == [1, 2];
  }

  // ----- evaluating chains

  /** From `s` the headers lead to `end`. */
  ghost predicate Reaches(s: HeaderState, headers: seq<Header>, end: HeaderState) {
    forall hist :: Chain(s, hist, headers).Ok? && Chain(s, hist, headers).value.0 == end
  }

  predicate Modest(h: Header) {
    h.confirmed <= 2 && (h.newProducers.Some? ==> |h.newProducers.value.producers| <= MAX_PRODUCERS)
  }

  /** Headers that confirm at most two earlier blocks are within the range of the guard. */
  lemma {:induction false} ModestIsAdmissible(s: HeaderState, headers: seq<Header>)
    requires 1 <= s.blockNum && s.blockNum + |headers| < UINT32 && forall h :: h in headers ==> Modest(h)
    ensures AllAdmissible(s, headers)
    decreases |headers|
  {
    if headers != [] && s.active.producers != [] && Apply(s, headers[0]).Ok? {
      assert Modest(headers[0]);
      ModestIsAdmissible(Apply(s, headers[0]).value, headers[1..]);
    }
  }

  /** Nobody but producer 1 has confirmed anything, and block 5, once there, has one and needs three. */
  ghost predicate OnlyFirst(hist: History, last: nat) {
    && (forall b :: b in hist.confirmers ==> hist.confirmers[b] <= {1})
    && (last >= 5 ==> 5 in hist.confirmers && hist.confirmers[5] == {1} && 5 in hist.needed && hist.needed[5] == 3)
  }

  /** From `s` the headers, all of producer 1, get block 5 proposed. */
  ghost predicate Misleads(s: HeaderState, headers: seq<Header>) {
    forall hist :: OnlyFirst(hist, s.blockNum) ==>
      var end := Chain(s, hist, headers);
      end.Ok? && end.value.0.blockNum >= 5 && end.value.0.proposed == 5 && OnlyFirst(end.value.1, end.value.0.blockNum)
  }

  lemma AcceptedReaches(s: HeaderState, h: Header, t: HeaderState, rest: seq<Header>, end: HeaderState)
    requires s.active.producers != [] && Apply(s, h) == Ok(t) && Reaches(t, rest, end)
    ensures Reaches(s, [h] + rest, end)
  {
    forall hist: History
      ensures Chain(s, hist, [h] + rest).Ok? && Chain(s, hist, [h] + rest).value.0 == end
    {
      ChainStep(s, hist, h, rest, t);
    }
  }

  lemma OnlyFirstAgain(hist: History, s: HeaderState, confirmed: nat)
    requires OnlyFirst(hist, s.blockNum) && (s.blockNum == 4 ==> |s.active.producers| == 4)
    ensures OnlyFirst(Recorded(hist, s, 1, confirmed), s.blockNum + 1)
  {}

  lemma AcceptedMisleads(s: HeaderState, h: Header, t: HeaderState, rest: seq<Header>)
    requires s.active.producers != [] && Apply(s, h) == Ok(t) && t.blockNum == s.blockNum + 1 && h.producer == 1
    requires (s.blockNum == 4 ==> |s.active.producers| == 4) && Misleads(t, rest)
    ensures Misleads(s, [h] + rest)
  {
    forall hist | OnlyFirst(hist, s.blockNum)
      ensures var end := Chain(s, hist, [h] + rest);
              end.Ok? && end.value.0.blockNum >= 5 && end.value.0.proposed == 5 && OnlyFirst(end.value.1, end.value.0.blockNum)
    {
      ChainStep(s, hist, h, rest, t);
      OnlyFirstAgain(hist, s, h.confirmed);
    }
  }

  // ----- the headers and the states between them

  const FIRST: Schedule := Schedule(0, [1])
  const SECOND: Schedule := Schedule(1, [1, 2, 3, 4])
  const THIRD: Schedule := Schedule(2, [1, 5])

  const HEADER2: Header := Header(1, 1, 0, 0, None)
  const HEADER3: Header := Header(2, 1, 0, 0, Some(SECOND))
  const HEADER4: Header := Header(3, 1, 0, 0, None)
  const HEADER5: Header := Header(4, 1, 0, 1, Some(THIRD))
  const HEADER6: Header := Header(12, 2, 1, 1, None)
  const HEADER7: Header := Header(24, 3, 2, 1, None)
  const HEADER8: Header := Header(60, 2, 0, 1, None)
  const HEADER9: Header := Header(72, 3, 0, 1, None)
  const HEADER10: Header := Header(84, 4, 0, 1, None)
  const WRAP6: Header := Header(5, 1, 7, 1, None)
  const WRAP7: Header := Header(6, 1, 8, 1, None)

  function Block2(): HeaderState {
    HeaderState(2, 1, 2, 0, FIRST, map[1 := 2],
                map[1 := 0], [], ScheduleInfo(0, Schedule(0, [])))
  }

  function Block3(): HeaderState {
    HeaderState(3, 2, 3, 2, FIRST, map[1 := 3],
                map[1 := 2], [], ScheduleInfo(3, SECOND))
  }

  function Block4(): HeaderState {
    HeaderState(4, 3, 4, 3, SECOND, map[1 := 4, 2 := 3, 3 := 3, 4 := 3],
                map[1 := 3, 2 := 3, 3 := 3, 4 := 3], [], ScheduleInfo(3, Schedule(1, [])))
  }

  function Block5(): HeaderState {
    HeaderState(5, 4, 4, 3, SECOND, map[1 := 5, 2 := 3, 3 := 3, 4 := 3],
                map[1 := 4, 2 := 3, 3 := 3, 4 := 3], [2], ScheduleInfo(5, THIRD))
  }

  function Block6(): HeaderState {
    HeaderState(6, 12, 4, 3, SECOND, map[1 := 5, 2 := 6, 3 := 3, 4 := 3],
                map[1 := 4, 2 := 4, 3 := 3, 4 := 3], [1, 2], ScheduleInfo(5, THIRD))
  }

  function Block7(): HeaderState {
    HeaderState(7, 24, 5, 4, SECOND, map[1 := 5, 2 := 6, 3 := 7, 4 := 3],
                map[1 := 4, 2 := 4, 3 := 4, 4 := 3], [1, 2], ScheduleInfo(5, THIRD))
  }

  function Block8(): HeaderState {
    HeaderState(8, 60, 5, 4, SECOND, map[1 := 5, 2 := 8, 3 := 7, 4 := 3],
                map[1 := 4, 2 := 5, 3 := 4, 4 := 3], [1, 2, 2], ScheduleInfo(5, THIRD))
  }

  function Block9(): HeaderState {
    HeaderState(9, 72, 5, 4, SECOND, map[1 := 5, 2 := 8, 3 := 9, 4 := 3],
                map[1 := 4, 2 := 5, 3 := 5, 4 := 3], [1, 2, 2, 2], ScheduleInfo(5, THIRD))
  }

  function Block10(): HeaderState {
    HeaderState(10, 84, 5, 5, THIRD, map[1 := 5, 5 := 5, 4 := 10],
                map[1 := 4, 5 := 5], [1, 2, 2, 2, 2], ScheduleInfo(5, Schedule(2, [])))
  }

  function Wrapped6(): HeaderState {
    HeaderState(6, 5, 4, 3, SECOND, map[1 := 6, 2 := 3, 3 := 3, 4 := 3],
                map[1 := 4, 2 := 3, 3 := 3, 4 := 3], [1, 2], ScheduleInfo(5, THIRD))
  }

  function Wrapped7(): HeaderState {
    HeaderState(7, 6, 5, 3, SECOND, map[1 := 7, 2 := 3, 3 := 3, 4 := 3],
                map[1 := 4, 2 := 3, 3 := 3, 4 := 3], [1, 2], ScheduleInfo(5, THIRD))
  }

  lemma ToBlock2Lib()
    ensures CalcLastIrreversible(Genesis(1, 0), 1) == 0
  {
    assert Votes(Genesis(1, 0), 1) == map[];
  }

  lemma ToBlock2Counts()
    ensures Grown(Genesis(1, 0)) == [1] && Confirmed(Genesis(1, 0), 0) == Confirmation([], Some(0))
  {
    assert Grown(Genesis(1, 0)) == [] + [1] == [1];
    ConfirmsItself([], 1);
  }

  lemma ToBlock2Carried()
    ensures map[1 := 2] ==
            Carried(map[], FIRST, 1, 2, 0)[1 := 2]
    ensures map[1 := 0] == Carried(map[], FIRST, 1, 0, 0)
  {}

  lemma ToBlock2()
    ensures Apply(Genesis(1, 0), HEADER2) == Ok(Block2())
  {
    var s, t := Genesis(1, 0), Block2();
    ToBlock2Lib();
    ToBlock2Counts();
    ToBlock2Carried();
    Installs(s, HEADER2, Confirmation([], Some(0)), 0, t);
  }

  lemma ToBlock3Lib()
    ensures CalcLastIrreversible(Block2(), 1) == 2
  {
    var votes := map[1 := 2];
    assert Votes(Block2(), 1) == votes;
    assert Supporters(votes, 2) == {1} && Supporters(votes, 3) == {};
    LibIs(Block2(), 1, 2, votes, {1}, {});
  }

  lemma ToBlock3Counts()
    ensures Grown(Block2()) == [1] && Confirmed(Block2(), 0) == Confirmation([], Some(0))
  {
    assert Grown(Block2()) == [] + [1] == [1];
    ConfirmsItself([], 1);
  }

  lemma ToBlock3()
    ensures Apply(Block2(), HEADER3) == Ok(Block3())
  {
    var s, t := Block2(), Block3();
    ToBlock3Lib();
    ToBlock3Counts();
    assert t.lastProduced == s.lastProduced[1 := 3];
    assert t.lastImplied == s.lastImplied[1 := 2];
    Announces(s, HEADER3, Confirmation([], Some(0)), 2, t);
  }

  lemma ToBlock4Lib()
    ensures CalcLastIrreversible(Block3(), 1) == 3
  {
    var votes := map[1 := 3];
    assert Votes(Block3(), 1) == votes;
    assert Supporters(votes, 3) == {1} && Supporters(votes, 4) == {};
    LibIs(Block3(), 1, 3, votes, {1}, {});
  }

  lemma ToBlock4Counts()
    ensures Grown(Block3()) == [1] && Confirmed(Block3(), 0) == Confirmation([], Some(0))
  {
    assert Grown(Block3()) == [] + [1] == [1];
    ConfirmsItself([], 1);
  }

  lemma ToBlock4Carried()
    ensures map[1 := 4, 2 := 3, 3 := 3, 4 := 3] == Carried(map[1 := 3], SECOND, 1, 4, 3)[1 := 4]
    ensures map[1 := 3, 2 := 3, 3 := 3, 4 := 3] == Carried(map[1 := 2], SECOND, 1, 3, 3)
  {
    CarriedToFour(map[1 := 3], 4, 3);
    CarriedToFour(map[1 := 2], 3, 3);
  }

  lemma CarriedToFour(prior: map<Name, nat>, value: nat, initial: nat)
    requires prior.Keys == {1}
    ensures Carried(prior, SECOND, 1, value, initial) == map[1 := value, 2 := initial, 3 := initial, 4 := initial]
  {
    assert forall p :: p in SECOND.producers <==> p in {1, 2, 3, 4};
  }

  lemma ToBlock4()
    ensures Apply(Block3(), HEADER4) == Ok(Block4())
  {
    var s, t := Block3(), Block4();
    ToBlock4Lib();
    ToBlock4Counts();
    ToBlock4Carried();
    Installs(s, HEADER4, Confirmation([], Some(0)), 3, t);
  }

  lemma ToBlock5Lib()
    ensures CalcLastIrreversible(Block4(), 1) == 3
  {
    var votes := map[1 := 4, 2 := 3, 3 := 3, 4 := 3];
    assert Votes(Block4(), 1) == votes;
    assert Supporters(votes, 3) == {1, 2, 3, 4} && Supporters(votes, 4) == {1};
    LibIs(Block4(), 1, 3, votes, {1, 2, 3, 4}, {1});
  }

  lemma ToBlock5Counts()
    ensures Grown(Block4()) == [3] && Confirmed(Block4(), 0) == Confirmation([2], None)
  {
    assert Grown(Block4()) == [] + [3] == [3];
    ConfirmsItself([], 3);
  }

  lemma ToBlock5()
    ensures Apply(Block4(), HEADER5) == Ok(Block5())
  {
    var s, t := Block4(), Block5();
    ToBlock5Lib();
    ToBlock5Counts();
    assert t.lastProduced == s.lastProduced[1 := 5];
    assert t.lastImplied == s.lastImplied[1 := 4];
    Announces(s, HEADER5, Confirmation([2], None), 3, t);
  }

  lemma ToBlock6Lib()
    ensures CalcLastIrreversible(Block5(), 2) == 3
  {
    var votes := map[1 := 4, 2 := 4, 3 := 3, 4 := 3];
    assert Votes(Block5(), 2) == votes;
    assert Supporters(votes, 3) == {1, 2, 3, 4} && Supporters(votes, 4) == {1, 2};
    LibIs(Block5(), 2, 3, votes, {1, 2, 3, 4}, {1, 2});
  }

  lemma ToBlock6Counts()
    ensures Grown(Block5()) == [2, 3] && Confirmed(Block5(), 1) == Confirmation([1, 2], None)
  {
    assert Grown(Block5()) == [2] + [3] == [2, 3];
    ConfirmsTwo(2);
  }

  lemma ToBlock6()
    ensures Apply(Block5(), HEADER6) == Ok(Block6())
  {
    var s, t := Block5(), Block6();
    ToBlock6Lib();
    ToBlock6Counts();
    assert t.lastProduced == s.lastProduced[2 := 6];
    assert t.lastImplied == s.lastImplied[2 := 4];
    Continues(s, HEADER6, Confirmation([1, 2], None), 3, t);
  }

  lemma ToBlock7Lib()
    ensures CalcLastIrreversible(Block6(), 3) == 4
  {
    var votes := map[1 := 4, 2 := 4, 3 := 4, 4 := 3];
    assert Votes(Block6(), 3) == votes;
    assert Supporters(votes, 4) == {1, 2, 3} && Supporters(votes, 5) == {};
    LibIs(Block6(), 3, 4, votes, {1, 2, 3}, {});
  }

  lemma ToBlock7Counts()
    ensures Grown(Block6()) == [1, 2, 3] && Confirmed(Block6(), 2) == Confirmation([1, 2], Some(0))
  {
    assert Grown(Block6()) == [1, 2] + [3] == [1, 2, 3];
    ConfirmsThree(3);
  }

  lemma ToBlock7()
    ensures Apply(Block6(), HEADER7) == Ok(Block7())
  {
    var s, t := Block6(), Block7();
    ToBlock7Lib();
    ToBlock7Counts();
    assert t.lastProduced == s.lastProduced[3 := 7];
    assert t.lastImplied == s.lastImplied[3 := 4];
    Continues(s, HEADER7, Confirmation([1, 2], Some(0)), 4, t);
  }

  lemma ToBlock8Lib()
    ensures CalcLastIrreversible(Block7(), 2) == 4
  {
    var votes := map[1 := 4, 2 := 5, 3 := 4, 4 := 3];
    assert Votes(Block7(), 2) == votes;
    assert Supporters(votes, 4) == {1, 2, 3} && Supporters(votes, 5) == {2};
    LibIs(Block7(), 2, 4, votes, {1, 2, 3}, {2});
  }

  lemma ToBlock8Counts()
    ensures Grown(Block7()) == [1, 2, 3] && Confirmed(Block7(), 0) == Confirmation([1, 2, 2], None)
  {
    assert Grown(Block7()) == [1, 2] + [3] == [1, 2, 3];
    ConfirmsItself([1, 2], 3);
  }

  lemma ToBlock8()
    ensures Apply(Block7(), HEADER8) == Ok(Block8())
  {
    var s, t := Block7(), Block8();
    ToBlock8Lib();
    ToBlock8Counts();
    assert t.lastProduced == s.lastProduced[2 := 8];
    assert t.lastImplied == s.lastImplied[2 := 5];
    Continues(s, HEADER8, Confirmation([1, 2, 2], None), 4, t);
  }

  lemma ToBlock9Lib()
    ensures CalcLastIrreversible(Block8(), 3) == 4
  {
    var votes := map[1 := 4, 2 := 5, 3 := 5, 4 := 3];
    assert Votes(Block8(), 3) == votes;
    assert Supporters(votes, 4) == {1, 2, 3} && Supporters(votes, 5) == {2, 3};
    LibIs(Block8(), 3, 4, votes, {1, 2, 3}, {2, 3});
  }

  lemma ToBlock9Counts()
    ensures Grown(Block8()) == [1, 2, 2, 3] && Confirmed(Block8(), 0) == Confirmation([1, 2, 2, 2], None)
  {
    assert Grown(Block8()) == [1, 2, 2] + [3] == [1, 2, 2, 3];
    ConfirmsItself([1, 2, 2], 3);
  }

  lemma ToBlock9()
    ensures Apply(Block8(), HEADER9) == Ok(Block9())
  {
    var s, t := Block8(), Block9();
    ToBlock9Lib();
    ToBlock9Counts();
    assert t.lastProduced == s.lastProduced[3 := 9];
    assert t.lastImplied == s.lastImplied[3 := 5];
    Continues(s, HEADER9, Confirmation([1, 2, 2, 2], None), 4, t);
  }

  lemma ToBlock10Lib()
    ensures CalcLastIrreversible(Block9(), 4) == 5
  {
    var votes := map[1 := 4, 2 := 5, 3 := 5, 4 := 5];
    assert Votes(Block9(), 4) == votes;
    assert Supporters(votes, 5) == {2, 3, 4} && Supporters(votes, 6) == {};
    LibIs(Block9(), 4, 5, votes, {2, 3, 4}, {});
  }

  lemma ToBlock10Counts()
    ensures Grown(Block9()) == [1, 2, 2, 2, 3] && Confirmed(Block9(), 0) == Confirmation([1, 2, 2, 2, 2], None)
  {
    assert Grown(Block9()) == [1, 2, 2, 2] + [3] == [1, 2, 2, 2, 3];
    ConfirmsItself([1, 2, 2, 2], 3);
  }

  lemma ToBlock10Carried()
    ensures map[1 := 5, 5 := 5, 4 := 10] ==
            Carried(map[1 := 5, 2 := 8, 3 := 9, 4 := 3], THIRD, 4, 10, 5)[4 := 10]
    ensures map[1 := 4, 5 := 5] == Carried(map[1 := 4, 2 := 5, 3 := 5, 4 := 3], THIRD, 4, 5, 5)
  {}

  lemma ToBlock10()
    ensures Apply(Block9(), HEADER10) == Ok(Block10())
  {
    var s, t := Block9(), Block10();
    ToBlock10Lib();
    ToBlock10Counts();
    ToBlock10Carried();
    Installs(s, HEADER10, Confirmation([1, 2, 2, 2, 2], None), 5, t);
  }

  lemma ToWrapped6Lib()
    ensures CalcLastIrreversible(Block5(), 1) == 3
  {
    var votes := map[1 := 4, 2 := 3, 3 := 3, 4 := 3];
    assert Votes(Block5(), 1) == votes;
    assert Supporters(votes, 3) == {1, 2, 3, 4} && Supporters(votes, 4) == {1};
    LibIs(Block5(), 1, 3, votes, {1, 2, 3, 4}, {1});
  }

  lemma ToWrapped6Counts()
    ensures Grown(Block5()) == [2, 3] && Confirmed(Block5(), 7) == Confirmation([1, 2], None)
  {
    assert Grown(Block5()) == [2] + [3] == [2, 3];
    ConfirmsTwo(8);
  }

  lemma ToWrapped6()
    ensures Apply(Block5(), WRAP6) == Ok(Wrapped6())
  {
    var s, t := Block5(), Wrapped6();
    ToWrapped6Lib();
    ToWrapped6Counts();
    assert t.lastProduced == s.lastProduced[1 := 6];
    assert t.lastImplied == s.lastImplied[1 := 4];
    Continues(s, WRAP6, Confirmation([1, 2], None), 3, t);
  }

  lemma ToWrapped7Lib()
    ensures CalcLastIrreversible(Wrapped6(), 1) == 3
  {
    var votes := map[1 := 4, 2 := 3, 3 := 3, 4 := 3];
    assert Votes(Wrapped6(), 1) == votes;
    assert Supporters(votes, 3) == {1, 2, 3, 4} && Supporters(votes, 4) == {1};
    LibIs(Wrapped6(), 1, 3, votes, {1, 2, 3, 4}, {1});
  }

  lemma ToWrapped7Counts()
    ensures Grown(Wrapped6()) == [1, 2, 3] && Confirmed(Wrapped6(), 8) == Confirmation([1, 2], Some(0))
  {
    assert Grown(Wrapped6()) == [1, 2] + [3] == [1, 2, 3];
    ConfirmsThree(9);
  }

  lemma ToWrapped7()
    ensures Apply(Wrapped6(), WRAP7) == Ok(Wrapped7())
  {
    var s, t := Wrapped6(), Wrapped7();
    ToWrapped7Lib();
    ToWrapped7Counts();
    assert t.lastProduced == s.lastProduced[1 := 7];
    assert t.lastImplied == s.lastImplied[1 := 4];
    Continues(s, WRAP7, Confirmation([1, 2], Some(0)), 3, t);
  }

  // ----- a take-over that loses ground

  const FROM10: seq<Header> := [HEADER10]
  const FROM9: seq<Header> := [HEADER9] + FROM10
  const FROM8: seq<Header> := [HEADER8] + FROM9
  const FROM7: seq<Header> := [HEADER7] + FROM8
  const FROM6: seq<Header> := [HEADER6] + FROM7
  const FROM5: seq<Header> := [HEADER5] + FROM6
  const FROM4: seq<Header> := [HEADER4] + FROM5
  const FROM3: seq<Header> := [HEADER3] + FROM4
  const FROM2: seq<Header> := [HEADER2] + FROM3

  lemma FromBlock9()
    ensures Reaches(Block9(), FROM10, Block10())
  {
    ToBlock10();
    assert Reaches(Block10(), [], Block10());
    AcceptedReaches(Block9(), HEADER10, Block10(), [], Block10());
    assert [HEADER10] + [] == FROM10;
  }

  lemma FromBlock8()
    ensures Reaches(Block8(), FROM9, Block10())
  {
    FromBlock9();
    ToBlock9();
    AcceptedReaches(Block8(), HEADER9, Block9(), FROM10, Block10());
  }

  lemma FromBlock7()
    ensures Reaches(Block7(), FROM8, Block10())
  {
    FromBlock8();
    ToBlock8();
    AcceptedReaches(Block7(), HEADER8, Block8(), FROM9, Block10());
  }

  lemma FromBlock6()
    ensures Reaches(Block6(), FROM7, Block10())
  {
    FromBlock7();
    ToBlock7();
    AcceptedReaches(Block6(), HEADER7, Block7(), FROM8, Block10());
  }

  lemma FromBlock5()
    ensures Reaches(Block5(), FROM6, Block10())
  {
    FromBlock6();
    ToBlock6();
    AcceptedReaches(Block5(), HEADER6, Block6(), FROM7, Block10());
  }

  lemma FromBlock4()
    ensures Reaches(Block4(), FROM5, Block10())
  {
    FromBlock5();
    ToBlock5();
    AcceptedReaches(Block4(), HEADER5, Block5(), FROM6, Block10());
  }

  lemma FromBlock3()
    ensures Reaches(Block3(), FROM4, Block10())
  {
    FromBlock4();
    ToBlock4();
    AcceptedReaches(Block3(), HEADER4, Block4(), FROM5, Block10());
  }

  lemma FromBlock2()
    ensures Reaches(Block2(), FROM3, Block10())
  {
    FromBlock3();
    ToBlock3();
    AcceptedReaches(Block2(), HEADER3, Block3(), FROM4, Block10());
  }

  lemma FromBlock1()
    ensures Reaches(Genesis(1, 0), FROM2, Block10())
  {
    FromBlock2();
    ToBlock2();
    AcceptedReaches(Genesis(1, 0), HEADER2, Block2(), FROM3, Block10());
  }

  lemma Block10IsNotFirm()
    ensures !Firm(Block10())
  {
    var s := Block10();
    assert Laggards(s) - {5} == {1};
    assert s.lastImplied.Keys == {1, 5};
    assert 5 in s.active.producers;
  }

  /** A chain of accepted headers from genesis, every one within the range of the guard, that makes
      block 5 irreversible and installs a new schedule; the next header takes it back. */
  lemma TakeoverCanLoseGround() returns (h: Header)
    ensures var end := Chain(Genesis(1, 0), History(map[], map[]), FROM2);
            && AllAdmissible(Genesis(1, 0), FROM2) && end.Ok?
            && var t := end.value.0;
               && t.irreversible == 5 && t.active.producers != []
               && Apply(t, h).Ok? && Admissible(t, h) && Apply(t, h).value.irreversible < 5
  {
    FromBlock1();
    var genesis, empty := Genesis(1, 0), History(map[], map[]);
    assert AllAdmissible(genesis, FROM2) by {
      assert FROM2 == [HEADER2, HEADER3, HEADER4, HEADER5, HEADER6, HEADER7, HEADER8, HEADER9, HEADER10];
      ModestIsAdmissible(genesis, FROM2);
     }
    assert Bounded(Block10()) by {
      GenesisIsFirm(1, 0);
      ChainKeepsInv(genesis, empty, FROM2);
      assert Chain(genesis, empty, FROM2).value.0 == Block10();
    }
    Block10IsNotFirm();
    h := UnfirmFalls(Block10());
  }

  // ----- one producer for a quorum

  const WRAPPED7: seq<Header> := [WRAP7]
  const WRAPPED6: seq<Header> := [WRAP6] + WRAPPED7
  const WRAPPED5: seq<Header> := [HEADER5] + WRAPPED6
  const WRAPPED4: seq<Header> := [HEADER4] + WRAPPED5
  const WRAPPED3: seq<Header> := [HEADER3] + WRAPPED4
  const WRAPPED2: seq<Header> := [HEADER2] + WRAPPED3

  lemma MisledFrom6()
    ensures Misleads(Wrapped6(), WRAPPED7)
  {
    ToWrapped7();
    assert Misleads(Wrapped7(), []);
    AcceptedMisleads(Wrapped6(), WRAP7, Wrapped7(), []);
    assert [WRAP7] + [] == WRAPPED7;
  }

  lemma MisledFrom5()
    ensures Misleads(Block5(), WRAPPED6)
  {
    MisledFrom6();
    ToWrapped6();
    AcceptedMisleads(Block5(), WRAP6, Wrapped6(), WRAPPED7);
  }

  lemma MisledFrom4()
    ensures Misleads(Block4(), WRAPPED5)
  {
    MisledFrom5();
    ToBlock5();
    AcceptedMisleads(Block4(), HEADER5, Block5(), WRAPPED6);
  }

  lemma MisledFrom3()
    ensures Misleads(Block3(), WRAPPED4)
  {
    MisledFrom4();
    ToBlock4();
    AcceptedMisleads(Block3(), HEADER4, Block4(), WRAPPED5);
  }

  lemma MisledFrom2()
    ensures Misleads(Block2(), WRAPPED3)
  {
    MisledFrom3();
    ToBlock3();
    AcceptedMisleads(Block2(), HEADER3, Block3(), WRAPPED4);
  }

  lemma MisledFrom1()
    ensures Misleads(Genesis(1, 0), WRAPPED2)
  {
    MisledFrom2();
    ToBlock2();
    AcceptedMisleads(Genesis(1, 0), HEADER2, Block2(), WRAPPED3);
  }

  /** Accepted headers from genesis, the last two claiming more confirmations than there are blocks:
      block 5 is proposed as irreversible although one producer of the required three confirmed it. */
  lemma WrappedGuardLosesQuorum()
    ensures var end := Chain(Genesis(1, 0), History(map[], map[]), WRAPPED2);
            && end.Ok? && end.value.0.proposed == 5 && !Decided(end.value.1, 5)
            && 5 in end.value.1.confirmers && end.value.1.confirmers[5] == {1}
            && 5 in end.value.1.needed && end.value.1.needed[5] == 3
  {
    MisledFrom1();
    var hist := History(map[], map[]);
    assert OnlyFirst(hist, 1);
  }
}
