/** Races, people and the neighbourhood happiness rule (`Race`, `Person`,
    `Person.is_happy`). */
module Agents {
  import opened Outcomes

  /** A grid coordinate (row, column) in the padded `houses` array. */
  type Cell = (int, int)

  /** A race is shared by reference; two races are the same only when they
      are the same object, exactly as `==` compares them in Python. */
  class Race {
    const name: string
    const plotColor: string
    const similPref: real

    constructor (name: string, plotColor: string, similPref: real)
      ensures this.name == name && this.plotColor == plotColor && this.similPref == similPref
    {
      this.name := name;
      this.plotColor := plotColor;
      this.similPref := similPref;
    }
  }

  class Person {
    const race: Race
    /** None until the first evaluation, then the last verdict. */
    var happy: Option<bool>

    constructor (race: Race)
      ensures this.race == race && happy == None
    {
      this.race := race;
      happy := None;
    }

    /** Counts same-race and different-race occupants over the eight
        offsets, stores the verdict in `happy` and returns it. */
    method IsHappy(loc: Cell, houses: array2<Person?>) returns (r: bool)
      requires Inner(houses, loc)
      modifies this
      ensures r == HappyAt(houses, loc, race)
      ensures happy == Some(r)
    {
      ghost var ns := Neighbourhood(houses, loc);
      var different, similar := 0, 0;
      var i := 0;
      while i < |Offsets|
        invariant 0 <= i <= |Offsets|
        invariant Tally(different, similar) == TallyOf(race, ns[..i])
      {
        var n := NeighbourCell(loc, i);
        var neighbour := houses[n.0, n.1];
        NeighbourhoodAt(houses, loc, i);
        TallyStep(race, ns, i);
        if neighbour != null {
          if race == neighbour.race {
            similar := similar + 1;
          } else {
            different := different + 1;
          }
        }
        i := i + 1;
      }
      assert ns[..|Offsets|] == ns;
      ghost var verdict := Verdict(Tally(different, similar), race.similPref);
      assert verdict == HappyAt(houses, loc, race);
      if different + similar == 0 {
        happy := Some(false);
      } else {
        happy := Some(similar as real / (different + similar) as real >= race.similPref);
      }
      assert happy == Some(verdict);
      r := happy.value;
    }
  }

  /** The eight Moore-neighbourhood offsets, in the order `is_happy` visits them. */
  const Offsets: seq<Cell> := [(-1, -1), (-1, 0), (-1, 1), (0, 1), (1, 1), (1, 0), (1, -1), (0, -1)]

  /** `loc` is at least one cell away from every edge of `houses`, so all
      eight neighbour lookups stay inside the array. */
  predicate Inner(houses: array2<Person?>, loc: Cell) {
    1 <= loc.0 < houses.Length0 - 1 && 1 <= loc.1 < houses.Length1 - 1
  }

  /** The `k`-th neighbour of `loc`. */
  function NeighbourCell(loc: Cell, k: nat): (n: Cell)
    requires k < |Offsets|
    ensures -1 <= n.0 - loc.0 <= 1 && -1 <= n.1 - loc.1 <= 1
    ensures n != loc
  {
    (loc.0 + Offsets[k].0, loc.1 + Offsets[k].1)
  }

  /** Every neighbour of an inner cell is a valid index of the array. */
  lemma NeighbourInArray(houses: array2<Person?>, loc: Cell, k: nat)
    requires Inner(houses, loc) && k < |Offsets|
    ensures 0 <= NeighbourCell(loc, k).0 < houses.Length0
    ensures 0 <= NeighbourCell(loc, k).1 < houses.Length1
  {
  }

  /** The offsets enumerate the Moore neighbourhood: each of the eight cells
      around `loc` is reached by exactly one offset, and nothing else is. */
  lemma {:induction false} MooreNeighbourhood(loc: Cell, n: Cell)
    ensures (exists k :: 0 <= k < |Offsets| && NeighbourCell(loc, k) == n)
        <==> (-1 <= n.0 - loc.0 <= 1 && -1 <= n.1 - loc.1 <= 1 && n != loc)
    ensures forall j, k :: 0 <= j < k < |Offsets| ==> NeighbourCell(loc, j) != NeighbourCell(loc, k)
  {
    var dr, dc := n.0 - loc.0, n.1 - loc.1;
    if -1 <= dr <= 1 && -1 <= dc <= 1 && n != loc {
      var k :=
        if dr == -1 then (if dc == -1 then 0 else if dc == 0 then 1 else 2)
        else if dr == 0 then (if dc == 1 then 3 else 7)
        else (if dc == 1 then 4 else if dc == 0 then 5 else 6);
      assert NeighbourCell(loc, k) == n;
    }
  }

  /** The occupants of the eight neighbours of `loc`, in visiting order. */
  function Neighbourhood(houses: array2<Person?>, loc: Cell): seq<Person?>
    requires Inner(houses, loc)
    reads houses
  {
    var (r, c) := loc;
    [houses[r - 1, c - 1], houses[r - 1, c], houses[r - 1, c + 1], houses[r, c + 1],
     houses[r + 1, c + 1], houses[r + 1, c], houses[r + 1, c - 1], houses[r, c - 1]]
  }

  /** Entry `k` of the neighbourhood is the occupant of the `k`-th neighbour. */
  lemma NeighbourhoodAt(houses: array2<Person?>, loc: Cell, k: nat)
    requires Inner(houses, loc) && k < |Offsets|
    ensures |Neighbourhood(houses, loc)| == |Offsets|
    ensures Neighbourhood(houses, loc)[k] == houses[NeighbourCell(loc, k).0, NeighbourCell(loc, k).1]
  {
  }

  /** The two counters of `race_diff_simil`. */
  datatype Tally = Tally(different: nat, similar: nat) {
    function Total(): nat { different + similar }
    function Plus(other: Tally): Tally { Tally(different + other.different, similar + other.similar) }
  }

  /** What one neighbour adds to the tally of a person of race `me`. */
  function Contribution(me: Race, n: Person?): Tally {
    if n == null then Tally(0, 0)
    else if me == n.race then Tally(0, 1)
    else Tally(1, 0)
  }

  /** The tally over a sequence of neighbours, accumulated front to back. */
  function TallyOf(me: Race, ns: seq<Person?>): Tally {
    if ns == [] then Tally(0, 0)
    else
      TallyOf(me, ns[..|ns| - 1]).Plus(Contribution(me, ns[|ns| - 1]))
  }

  /** Extending the prefix by one neighbour adds that neighbour's contribution. */
  lemma TallyStep(me: Race, ns: seq<Person?>, i: nat)
    requires i < |ns|
    ensures TallyOf(me, ns[..i + 1]) == TallyOf(me, ns[..i]).Plus(Contribution(me, ns[i]))
  {
    assert ns[..i + 1][..i] == ns[..i];
  }

  /** Positions holding someone of race `me`. */
  ghost function SameRaceAt(me: Race, ns: seq<Person?>): set<nat> {
    set i: nat | i < |ns| && ns[i] != null && ns[i].race == me
  }

  /** Positions holding someone of another race. */
  ghost function OtherRaceAt(me: Race, ns: seq<Person?>): set<nat> {
    set i: nat | i < |ns| && ns[i] != null && ns[i].race != me
  }

  /** The counters are the numbers of same-race and other-race positions. */
  lemma {:induction false} TallyCounts(me: Race, ns: seq<Person?>)
    ensures TallyOf(me, ns) == Tally(|OtherRaceAt(me, ns)|, |SameRaceAt(me, ns)|)
  {
    if ns != [] {
      var m := |ns| - 1;
      TallyCounts(me, ns[..m]);
      PositionsStep(me, ns);
    }
  }

  /** How the two position sets grow when the last neighbour is added. */
  lemma PositionsStep(me: Race, ns: seq<Person?>)
    requires ns != []
    ensures var m, n := |ns| - 1, ns[|ns| - 1];
      && |SameRaceAt(me, ns)| == |SameRaceAt(me, ns[..m])| + Contribution(me, n).similar
      && |OtherRaceAt(me, ns)| == |OtherRaceAt(me, ns[..m])| + Contribution(me, n).different
  {
    var m := |ns| - 1;
    var front := ns[..m];
    var n := ns[m];
    PositionsSplit(me, ns);
    if n == null {
      assert SameRaceAt(me, ns) == SameRaceAt(me, front);
      assert OtherRaceAt(me, ns) == OtherRaceAt(me, front);
    } else if n.race == me {
      assert SameRaceAt(me, ns) == SameRaceAt(me, front) + {m};
      assert OtherRaceAt(me, ns) == OtherRaceAt(me, front);
    } else {
      assert SameRaceAt(me, ns) == SameRaceAt(me, front);
      assert OtherRaceAt(me, ns) == OtherRaceAt(me, front) + {m};
    }
  }

  lemma PositionsSplit(me: Race, ns: seq<Person?>)
    requires ns != []
    ensures var m := |ns| - 1;
      && SameRaceAt(me, ns) - {m} == SameRaceAt(me, ns[..m])
      && OtherRaceAt(me, ns) - {m} == OtherRaceAt(me, ns[..m])
      && (m in SameRaceAt(me, ns) <==> ns[m] != null && ns[m].race == me)
      && (m in OtherRaceAt(me, ns) <==> ns[m] != null && ns[m].race != me)
  {
    var m := |ns| - 1;
    forall i: nat | i < m
      ensures ns[i] == ns[..m][i]
    {
    }
  }

  /** At most one of the two counters grows per neighbour. */
  lemma {:induction false} TallyBound(me: Race, ns: seq<Person?>)
    ensures TallyOf(me, ns).Total() <= |ns|
  {
    if ns != [] {
      TallyBound(me, ns[..|ns| - 1]);
    }
  }

  /** A sequence of vacant neighbours tallies to nothing. */
  lemma {:induction false} TallyOfVacant(me: Race, ns: seq<Person?>)
    requires forall i :: 0 <= i < |ns| ==> ns[i] == null
    ensures TallyOf(me, ns).Total() == 0
  {
    if ns != [] {
      TallyOfVacant(me, ns[..|ns| - 1]);
    }
  }

  /** The decision of `is_happy` for a tally and a similarity preference:
      unhappy when isolated, otherwise happy when the similar fraction is at
      least `pref`. */
  function Verdict(t: Tally, pref: real): (r: bool)
    ensures r ==> t.Total() > 0
  {
    if t.Total() == 0 then false else t.similar as real / t.Total() as real >= pref
  }

  /** The verdict stated without division. */
  lemma VerdictByProduct(t: Tally, pref: real)
    ensures Verdict(t, pref) <==> t.Total() > 0 && t.similar as real >= pref * t.Total() as real
  {
    if t.Total() > 0 {
      var total := t.Total() as real;
      var ratio := t.similar as real / total;
      assert ratio * total == t.similar as real;
      RatioCompare(ratio, pref, total);
    }
  }

  lemma RatioCompare(ratio: real, pref: real, total: real)
    requires total > 0.0
    ensures ratio >= pref <==> ratio * total >= pref * total
  {
    if ratio >= pref {
      assert (ratio - pref) * total >= 0.0;
    } else {
      assert (pref - ratio) * total > 0.0;
    }
  }

  /** The decision of `is_happy` for a person of race `me` with neighbours `ns`. */
  function Judgement(me: Race, ns: seq<Person?>): bool {
    Verdict(TallyOf(me, ns), me.similPref)
  }

  /** `is_happy` for a person of race `me` living at `loc`. */
  function HappyAt(houses: array2<Person?>, loc: Cell, me: Race): (r: bool)
    requires Inner(houses, loc)
    reads houses
    ensures r ==> TallyOf(me, Neighbourhood(houses, loc)).Total() > 0
  {
    Judgement(me, Neighbourhood(houses, loc))
  }

  /** Multiplying by a positive number keeps the sign. */
  lemma ProductSign(x: real, n: real)
    requires n > 0.0
    ensures x * n <= 0.0 ==> x <= 0.0
    ensures x * n >= 0.0 ==> x >= 0.0
  {
  }

  /** A person none of whose eight neighbours is occupied is unhappy. */
  lemma IsolatedIsUnhappy(houses: array2<Person?>, loc: Cell, me: Race)
    requires Inner(houses, loc)
    requires forall k :: 0 <= k < |Offsets| ==> houses[NeighbourCell(loc, k).0, NeighbourCell(loc, k).1] == null
    ensures !HappyAt(houses, loc, me)
  {
    forall k | 0 <= k < |Offsets| ensures Neighbourhood(houses, loc)[k] == null {
      NeighbourhoodAt(houses, loc, k);
    }
    TallyOfVacant(me, Neighbourhood(houses, loc));
  }

  /** A similar fraction exactly equal to the preference counts as happy. */
  lemma TieIsHappy(t: Tally, pref: real)
    requires t.Total() > 0
    requires t.similar as real / t.Total() as real == pref
    ensures Verdict(t, pref)
  {
    VerdictByProduct(t, pref);
  }

  /** With no different neighbours and at least one similar one, a person is
      happy exactly when its preference is at most one. */
  lemma HomogeneousIsHappy(t: Tally, pref: real)
    requires t.different == 0 && t.similar > 0
    ensures Verdict(t, pref) <==> pref <= 1.0
  {
    VerdictByProduct(t, pref);
    var s := t.similar as real;
    if pref <= 1.0 {
      assert pref * s <= s by { assert (1.0 - pref) * s >= 0.0; }
    } else {
      assert pref * s > s by { assert (pref - 1.0) * s > 0.0; }
    }
  }

  /** One more similar neighbour never makes a happy person unhappy. */
  lemma MoreSimilarStaysHappy(t: Tally, pref: real)
    requires Verdict(t, pref)
    ensures Verdict(Tally(t.different, t.similar + 1), pref)
  {
    VerdictByProduct(t, pref);
    VerdictByProduct(Tally(t.different, t.similar + 1), pref);
    var s, n := t.similar as real, t.Total() as real;
    assert (pref - 1.0) * n <= 0.0;
    ProductSign(pref - 1.0, n);
  }

  /** One fewer different neighbour never makes a happy person unhappy, as
      long as a similar neighbour remains (otherwise the person becomes
      isolated, which is unhappy). */
  lemma FewerDifferentStaysHappy(t: Tally, pref: real)
    requires t.similar > 0 && t.different > 0
    requires Verdict(t, pref)
    ensures Verdict(Tally(t.different - 1, t.similar), pref)
  {
    VerdictByProduct(t, pref);
    VerdictByProduct(Tally(t.different - 1, t.similar), pref);
    var s, n := t.similar as real, t.Total() as real;
    if pref > 0.0 {
      assert pref * (n - 1.0) <= pref * n;
    } else {
      assert pref * (n - 1.0) <= 0.0;
    }
  }

  /** Isolation is unhappy whatever the preference, while a person with at
      least one occupied neighbour and a preference of at most zero is
      happy, whoever the neighbours are. */
  lemma IsolationOverridesPreference(t: Tally, pref: real)
    ensures !Verdict(Tally(0, 0), pref)
    ensures t.Total() > 0 && pref <= 0.0 ==> Verdict(t, pref)
  {
    if t.Total() > 0 && pref <= 0.0 {
      VerdictByProduct(t, pref);
      assert pref * t.Total() as real <= 0.0 by {
        assert (0.0 - pref) * t.Total() as real >= 0.0;
      }
    }
  }
}
