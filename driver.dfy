/** The simulation driver: an initial `check_happy`, then rounds of
    `moving_time` followed by `check_happy`, recording both fractions, until
    everybody is happy, the last ten rounds show neither a change in
    happiness nor movement, or the round budget runs out. */
module Driver {
  import opened Outcomes
  import opened Agents
  import opened Grid
  import opened Sweeps

  /** The number of trailing rounds the convergence test looks at. */
  const Window: nat := 10

  function Abs(x: real): (r: real)
    ensures r >= 0.0 && (r == x || r == -x)
  {
    if x < 0.0 then -x else x
  }

  /** `xs[-10:]`: the last ten entries, or all of them when there are fewer. */
  function Trailing(xs: seq<real>): (r: seq<real>)
    ensures |r| == if |xs| < Window then |xs| else Window
    ensures forall k :: 0 <= k < |r| ==> r[k] == xs[|xs| - |r| + k]
  {
    if |xs| <= Window then xs else xs[|xs| - Window..]
  }

  /** `max([abs(last - h) for h in hs])`. */
  function MaxDeviation(last: real, hs: seq<real>): (r: real)
    requires hs != []
    ensures forall k :: 0 <= k < |hs| ==> Abs(last - hs[k]) <= r
    ensures exists k :: 0 <= k < |hs| && r == Abs(last - hs[k])
  {
    if |hs| == 1 then Abs(last - hs[0])
    else
      var rest := MaxDeviation(last, hs[1..]);
      assert forall k :: 1 <= k < |hs| ==> hs[k] == hs[1..][k - 1];
      if Abs(last - hs[0]) >= rest then Abs(last - hs[0]) else rest
  }

  /** `xs[-1]`. */
  function Last(xs: seq<real>): real
    requires xs != []
  {
    xs[|xs| - 1]
  }

  /** `sum(xs)`, added from the left. */
  function Sum(xs: seq<real>): (s: real)
    ensures (forall j :: 0 <= j < |xs| ==> xs[j] >= 0.0) ==> s >= 0.0
  {
    if xs == [] then 0.0 else xs[0] + Sum(xs[1..])
  }

  /** A sum of non-negative terms bounds each of them. */
  lemma {:induction false} SumBoundsEach(xs: seq<real>, k: nat)
    requires forall j :: 0 <= j < |xs| ==> xs[j] >= 0.0
    requires k < |xs|
    ensures 0.0 <= xs[k] <= Sum(xs)
  {
    if k > 0 {
      SumBoundsEach(xs[1..], k - 1);
    } else if |xs| > 1 {
      SumBoundsEach(xs[1..], 0);
    }
  }

  lemma {:induction false} SumOfZeros(xs: seq<real>)
    requires forall j :: 0 <= j < |xs| ==> xs[j] == 0.0
    ensures Sum(xs) == 0.0
  {
    if xs != [] {
      SumOfZeros(xs[1..]);
    }
  }

  /** The convergence test of lines 192-193: over the trailing window every
      recorded happiness lies within `critH` of the latest one, and the
      recorded move fractions add up to at most `critM`. */
  function Plateau(happies: seq<real>, moves: seq<real>, critH: real, critM: real): (r: bool)
    requires happies != []
    ensures r <==>
      && (forall k :: 0 <= k < |Trailing(happies)| ==> Abs(happies[|happies| - 1] - Trailing(happies)[k]) <= critH)
      && Sum(Trailing(moves)) <= critM
  {
    MaxDeviation(happies[|happies| - 1], Trailing(happies)) <= critH && Sum(Trailing(moves)) <= critM
  }

  /** The loop-exit test after round `sim`, when `|happies| == sim + 1`:
      everybody is happy, or at least ten rounds came before and the run
      has reached a plateau. */
  function ShouldStop(happies: seq<real>, moves: seq<real>, critH: real, critM: real): (r: bool)
    requires happies != []
    ensures |happies| <= Window ==> (r <==> happies[|happies| - 1] == 1.0)
    ensures r <==>
      || happies[|happies| - 1] == 1.0
      || (&& |happies| > Window
          && (forall k :: |happies| - Window <= k < |happies| ==> Abs(happies[|happies| - 1] - happies[k]) <= critH)
          && Sum(moves[if |moves| < Window then 0 else |moves| - Window..]) <= critM)
  {
    var last := |happies| - 1;
    if last >= Window then
      WindowByIndex(happies, critH);
      assert Trailing(moves) == moves[if |moves| < Window then 0 else |moves| - Window..];
      happies[last] == 1.0 || Plateau(happies, moves, critH, critM)
    else
      happies[last] == 1.0
  }

  /** The trailing-window half of the plateau test, read by index. */
  lemma WindowByIndex(happies: seq<real>, critH: real)
    requires |happies| > Window
    ensures var last, tail := |happies| - 1, Trailing(happies);
      (forall k :: 0 <= k < |tail| ==> Abs(happies[last] - tail[k]) <= critH)
      <==> (forall k :: |happies| - Window <= k < |happies| ==> Abs(happies[last] - happies[k]) <= critH)
  {
    var tail := Trailing(happies);
    forall k | |happies| - Window <= k < |happies|
      ensures happies[k] == tail[k - (|happies| - Window)]
    {
    }
  }

  /** A run whose last ten rounds kept the happy fraction fixed and moved
      nobody stops, whatever non-negative criteria are used. */
  lemma FrozenRunStops(happies: seq<real>, moves: seq<real>, critH: real, critM: real)
    requires |happies| > Window && critH >= 0.0 && critM >= 0.0
    requires forall k :: |happies| - Window <= k < |happies| ==> happies[k] == happies[|happies| - 1]
    requires forall k :: |moves| - Window <= k < |moves| && k >= 0 ==> moves[k] == 0.0
    ensures ShouldStop(happies, moves, critH, critM)
  {
    var tail := Trailing(moves);
    assert forall k :: 0 <= k < |tail| ==> tail[k] == moves[|moves| - |tail| + k];
    SumOfZeros(tail);
  }

  /** On a plateau every one of the trailing move fractions is at most
      `critM` when none of them is negative (see `CountedNonNegative`). */
  lemma PlateauBoundsMoves(happies: seq<real>, moves: seq<real>, critH: real, critM: real, k: nat)
    requires happies != [] && Plateau(happies, moves, critH, critM)
    requires forall j :: 0 <= j < |moves| ==> moves[j] >= 0.0
    requires k < |Trailing(moves)|
    ensures Trailing(moves)[k] <= critM
  {
    SumBoundsEach(Trailing(moves), k);
  }

  /** What a completed run recorded: one happy fraction and one moved
      fraction per round. */
  datatype Trace = Trace(happies: seq<real>, moves: seq<real>)

  /** The exit test as it was evaluated after round `k` of the run. */
  predicate StopsAfter(t: Trace, k: nat, critH: real, critM: real)
    requires k < |t.happies| == |t.moves|
  {
    ShouldStop(t.happies[..k + 1], t.moves[..k + 1], critH, critM)
  }

  /** No round before the last one met the exit test. */
  predicate NoEarlierStop(t: Trace, critH: real, critM: real)
    requires |t.happies| == |t.moves|
  {
    forall k :: 0 <= k < |t.happies| - 1 ==> !StopsAfter(t, k, critH, critM)
  }

  /** Recording a round after one that did not stop keeps the earlier
      rounds' tests as they were. */
  lemma NoEarlierStopStep(t: Trace, happy: real, moved: real, critH: real, critM: real)
    requires |t.happies| == |t.moves| && NoEarlierStop(t, critH, critM)
    requires t.happies != [] ==> !ShouldStop(t.happies, t.moves, critH, critM)
    ensures NoEarlierStop(Trace(t.happies + [happy], t.moves + [moved]), critH, critM)
  {
    var u := Trace(t.happies + [happy], t.moves + [moved]);
    forall k | 0 <= k < |u.happies| - 1
      ensures !StopsAfter(u, k, critH, critM)
    {
      assert u.happies[..k + 1] == t.happies[..k + 1] && u.moves[..k + 1] == t.moves[..k + 1];
      if k == |t.happies| - 1 {
        assert t.happies[..k + 1] == t.happies && t.moves[..k + 1] == t.moves;
      } else {
        assert !StopsAfter(t, k, critH, critM);
      }
    }
  }

  /** `x` is a whole, non-negative number of people. */
  predicate IsCount(x: real) {
    x >= 0.0 && x.Floor as real == x
  }

  /** Every recorded fraction is a whole number of people over `peopleCnt`. */
  predicate Counted(fracs: seq<real>, peopleCnt: real) {
    forall j :: 0 <= j < |fracs| ==> IsCount(fracs[j] * peopleCnt)
  }

  /** Recording `count / peopleCnt` keeps every fraction a count of people. */
  lemma CountedStep(fracs: seq<real>, count: nat, fraction: real, peopleCnt: real)
    requires Counted(fracs, peopleCnt) && Rate(count, peopleCnt) == Ok(fraction)
    ensures Counted(fracs + [fraction], peopleCnt)
  {
    var next := fracs + [fraction];
    forall j | 0 <= j < |next|
      ensures IsCount(next[j] * peopleCnt)
    {
      if j < |fracs| {
        var y := fracs[j] * peopleCnt;
        assert IsCount(y);
        assert next[j] * peopleCnt == y by {
          assert next[j] == fracs[j];
        }
      } else {
        var x := next[j] * peopleCnt;
        assert x == count as real by {
          assert next[j] == fraction && fraction * peopleCnt == count as real;
        }
        assert x.Floor == count;
      }
    }
    assert Counted(next, peopleCnt);
  }

  /** With a positive population no recorded fraction is negative, which is
      what `PlateauBoundsMoves` asks of the move history of a run. */
  lemma CountedNonNegative(fracs: seq<real>, peopleCnt: real)
    requires peopleCnt > 0.0 && Counted(fracs, peopleCnt)
    ensures forall j :: 0 <= j < |fracs| ==> fracs[j] >= 0.0
  {
    forall j | 0 <= j < |fracs|
      ensures fracs[j] >= 0.0
    {
      ProductSign(fracs[j], peopleCnt);
    }
  }


  /** The figures of one round. */
  datatype Round = Round(moved: Stat, happy: Stat)

  /** One round of the loop body: `moving_time`, then `check_happy`. */
  method PlayRound(m: Map) returns (res: Result<Round>, ghost trail: seq<Move>)
    requires m.Valid() && m.peopleCnt != 0.0
    modifies m, m.houses, m.Home.Keys
    ensures m.Valid() && m.Home.Keys == old(m.Home.Keys) && |m.empties| == old(|m.empties|)
    ensures res.Err? <==> old(|m.empties|) == 0 && !old(m.AllContent())
    ensures res.Err? ==> res.fault == NoVacancy
    ensures res.Ok? ==> (res.value.moved.count == 0 <==> old(m.AllContent()))
    ensures res.Ok? ==> Swept(old(m.Home), old(m.Contented()), trail, m.width, m.height) && Replay(old(m.Home), trail) == m.Home
    ensures res.Ok? ==> res.value.moved.count == |trail| <= m.width * m.height
    ensures res.Ok? ==> Movers(trail) == old(m.Home.Keys) - old(m.Contented())
    ensures res.Ok? ==> Rate(res.value.moved.count, m.peopleCnt) == Ok(res.value.moved.fraction)
    ensures res.Ok? ==> m.FlagsCurrent() && res.value.happy.count == |m.HappyPeople()|
    ensures res.Ok? ==> Rate(res.value.happy.count, m.peopleCnt) == Ok(res.value.happy.fraction)
  {
    var moved;
    moved, trail := m.MovingTime();
    if moved.Err? {
      return Err(moved.fault), trail;
    }
    var happy := Assess(m);
    // a failure here would have shown up as the same failure in `moved`
    res := if happy.Ok? then Ok(Round(moved.value, happy.value)) else Err(ZeroPopulation);
  }

  /** A `check_happy` seen from the driver: it stores every verdict and
      reports how many people are happy, as a count and as a fraction of
      `people_cnt`. */
  method Assess(m: Map) returns (res: Result<Stat>)
    requires m.Valid()
    modifies m.Home.Keys
    ensures unchanged(m) && m.Valid() && m.FlagsCurrent()
    ensures res.Err? <==> m.peopleCnt == 0.0
    ensures res.Err? ==> res.fault == ZeroPopulation
    ensures res.Ok? ==> res.value.count == |m.HappyPeople()|
    ensures res.Ok? ==> Rate(res.value.count, m.peopleCnt) == Ok(res.value.fraction)
  {
    res := m.CheckHappy();
  }

  /** The driver loop of lines 174-196 with `MCmaxsims = maxSims` and the two
      convergence criteria as parameters. */
  method Run(m: Map, maxSims: nat, critH: real, critM: real) returns (res: Result<Trace>)
    requires m.Valid()
    modifies m, m.houses, m.Home.Keys
    ensures m.Valid() && m.Home.Keys == old(m.Home.Keys) && |m.empties| == old(|m.empties|)
    ensures res.Err? ==> res.fault in {NoVacancy, ZeroPopulation}
    ensures res.Err? && res.fault == ZeroPopulation ==> m.peopleCnt == 0.0
    ensures res.Err? && res.fault == NoVacancy ==> old(|m.empties|) == 0
    ensures old(|m.empties|) > 0 && m.peopleCnt != 0.0 ==> res.Ok?
    ensures res.Ok? ==> m.peopleCnt != 0.0 && m.FlagsCurrent()
    ensures res.Ok? && res.value.happies != [] ==> Rate(|m.HappyPeople()|, m.peopleCnt) == Ok(Last(res.value.happies))
    ensures res.Ok? ==> Counted(res.value.happies, m.peopleCnt) && Counted(res.value.moves, m.peopleCnt)
    ensures res.Ok? ==> |res.value.happies| == |res.value.moves| <= maxSims
    ensures res.Ok? ==> NoEarlierStop(res.value, critH, critM)
    ensures res.Ok? && |res.value.happies| < maxSims ==>
      res.value.happies != [] && ShouldStop(res.value.happies, res.value.moves, critH, critM)
  {
    var initial := Assess(m);
    if initial.Err? {
      return Err(initial.fault);
    }
    res := Simulate(m, maxSims, critH, critM);
  }

  /** The loop of lines 174-196 itself, once the initial report succeeded. */
  method Simulate(m: Map, maxSims: nat, critH: real, critM: real) returns (res: Result<Trace>)
    requires m.Valid() && m.FlagsCurrent() && m.peopleCnt != 0.0
    modifies m, m.houses, m.Home.Keys
    ensures m.Valid() && m.Home.Keys == old(m.Home.Keys) && |m.empties| == old(|m.empties|)
    ensures res.Err? ==> res.fault == NoVacancy && old(|m.empties|) == 0
    ensures old(|m.empties|) > 0 ==> res.Ok?
    ensures res.Ok? ==> m.FlagsCurrent()
    ensures res.Ok? && res.value.happies != [] ==> Rate(|m.HappyPeople()|, m.peopleCnt) == Ok(Last(res.value.happies))
    ensures res.Ok? ==> Counted(res.value.happies, m.peopleCnt) && Counted(res.value.moves, m.peopleCnt)
    ensures res.Ok? ==> |res.value.happies| == |res.value.moves| <= maxSims
    ensures res.Ok? ==> NoEarlierStop(res.value, critH, critM)
    ensures res.Ok? && |res.value.happies| < maxSims ==>
      res.value.happies != [] && ShouldStop(res.value.happies, res.value.moves, critH, critM)
  {
    var t := Trace([], []);
    var sim := 0;
    while sim < maxSims
      invariant 0 <= sim <= maxSims && |t.happies| == |t.moves| == sim
      invariant m.Valid() && m.Home.Keys == old(m.Home.Keys) && m.peopleCnt != 0.0
      invariant |m.empties| == old(|m.empties|)
      invariant m.FlagsCurrent()
      invariant t.happies != [] ==> Rate(|m.HappyPeople()|, m.peopleCnt) == Ok(Last(t.happies))
      invariant Counted(t.happies, m.peopleCnt) && Counted(t.moves, m.peopleCnt)
      invariant NoEarlierStop(t, critH, critM)
      invariant t.happies != [] ==> !ShouldStop(t.happies, t.moves, critH, critM)
    {
      var next, stop, _ := Step(m, t, critH, critM);
      if next.Err? {
        return Err(next.fault);
      }
      t := next.value;
      if stop {
        return Ok(t);
      }
      sim := sim + 1;
    }
    res := Ok(t);
  }

  /** The histories after appending the two fractions of `round`. */
  function Record(t: Trace, round: Round): Trace {
    Trace(t.happies + [round.happy.fraction], t.moves + [round.moved.fraction])
  }

  /** Appending a round keeps the earlier entries, keeps every fraction a
      count of people, and keeps "no earlier stop" when the last recorded
      round did not stop. */
  lemma RecordKeeps(t: Trace, round: Round, peopleCnt: real, critH: real, critM: real)
    requires |t.happies| == |t.moves| && NoEarlierStop(t, critH, critM)
    requires t.happies != [] ==> !ShouldStop(t.happies, t.moves, critH, critM)
    requires Counted(t.happies, peopleCnt) && Counted(t.moves, peopleCnt)
    requires Rate(round.happy.count, peopleCnt) == Ok(round.happy.fraction)
    requires Rate(round.moved.count, peopleCnt) == Ok(round.moved.fraction)
    ensures var next := Record(t, round);
      && |next.happies| == |next.moves| == |t.happies| + 1
      && next.happies[..|t.happies|] == t.happies && next.moves[..|t.moves|] == t.moves
      && next.happies[|t.happies|] == round.happy.fraction && next.moves[|t.moves|] == round.moved.fraction
      && NoEarlierStop(next, critH, critM)
      && Counted(next.happies, peopleCnt) && Counted(next.moves, peopleCnt)
    ensures round.moved.fraction == 0.0 <==> round.moved.count == 0
  {
    var next := Record(t, round);
    CountedStep(t.happies, round.happy.count, round.happy.fraction, peopleCnt);
    CountedStep(t.moves, round.moved.count, round.moved.fraction, peopleCnt);
    NoEarlierStopStep(t, round.happy.fraction, round.moved.fraction, critH, critM);
    assert next.happies[..|t.happies|] == t.happies && next.moves[..|t.moves|] == t.moves;
    if round.moved.count == 0 {
      assert round.moved.fraction * peopleCnt == 0.0;
    }
  }

  /** One pass of the loop body: play a round, record its two fractions and
      evaluate the exit test. */
  method Step(m: Map, t: Trace, critH: real, critM: real) returns (res: Result<Trace>, stop: bool, ghost trail: seq<Move>)
    requires m.Valid() && m.peopleCnt != 0.0
    requires |t.happies| == |t.moves| && NoEarlierStop(t, critH, critM)
    requires t.happies != [] ==> !ShouldStop(t.happies, t.moves, critH, critM)
    requires Counted(t.happies, m.peopleCnt) && Counted(t.moves, m.peopleCnt)
    modifies m, m.houses, m.Home.Keys
    ensures m.Valid() && m.Home.Keys == old(m.Home.Keys) && |m.empties| == old(|m.empties|)
    ensures res.Err? <==> old(|m.empties|) == 0 && !old(m.AllContent())
    ensures res.Err? ==> res.fault == NoVacancy
    ensures res.Ok? ==> |res.value.happies| == |res.value.moves| == |t.happies| + 1
    ensures res.Ok? ==> res.value.happies[..|t.happies|] == t.happies && res.value.moves[..|t.moves|] == t.moves
    ensures res.Ok? ==> NoEarlierStop(res.value, critH, critM)
    ensures res.Ok? ==> (stop <==> ShouldStop(res.value.happies, res.value.moves, critH, critM))
    ensures res.Ok? ==> m.FlagsCurrent() && Rate(|m.HappyPeople()|, m.peopleCnt) == Ok(res.value.happies[|t.happies|])
    ensures res.Ok? ==> (res.value.moves[|t.moves|] == 0.0 <==> old(m.AllContent()))
    ensures res.Ok? ==> Counted(res.value.happies, m.peopleCnt) && Counted(res.value.moves, m.peopleCnt)
    ensures res.Ok? ==> Swept(old(m.Home), old(m.Contented()), trail, m.width, m.height) && Replay(old(m.Home), trail) == m.Home
    ensures res.Ok? ==> Movers(trail) == old(m.Home.Keys) - old(m.Contented())
    ensures res.Ok? ==> Rate(|trail|, m.peopleCnt) == Ok(res.value.moves[|t.moves|]) && |trail| <= m.width * m.height
  {
    var round;
    round, trail := PlayRound(m);
    if round.Err? {
      return Err(round.fault), true, trail;
    }
    var next := Record(t, round.value);
    RecordKeeps(t, round.value, m.peopleCnt, critH, critM);
    res, stop := Ok(next), ShouldStop(next.happies, next.moves, critH, critM);
  }

}
