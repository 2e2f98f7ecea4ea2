/** The slot vector `Map.__init__` builds before shuffling: for each race in
    turn `int(p_races[i] * width * height)` new people, then
    `int(p_empty * width * height)` empty houses. */
module Population {
  import opened Outcomes

  /** `int(p * n)` used as a list length: truncation drops the fraction of
      a non-negative product, and a negative product gives an empty list.
      A share is the floor of the product, and no share is taken from a
      product below one. */
  function Share(p: real, n: nat): (r: nat)
    ensures p * n as real >= 0.0 ==> r as real <= p * n as real < r as real + 1.0
    ensures p * n as real < 1.0 ==> r == 0
  {
    var x := p * n as real;
    if x < 0.0 then 0 else x.Floor
  }

  /** The number of people created for the first `count` races. */
  function HeadCount(pRaces: seq<real>, count: nat, n: nat): nat
    requires count <= |pRaces|
  {
    if count == 0 then 0 else HeadCount(pRaces, count - 1, n) + Share(pRaces[count - 1], n)
  }

  /** The people part of the slot vector for the first `count` races, in
      creation order; `Some(i)` is a new person of race `i`. */
  function RaceSlots(pRaces: seq<real>, count: nat, n: nat): (s: seq<Option<nat>>)
    requires count <= |pRaces|
    ensures forall j :: 0 <= j < |s| ==> s[j].Some? && s[j].value < count
  {
    if count == 0 then []
    else RaceSlots(pRaces, count - 1, n) + seq(Share(pRaces[count - 1], n), _ => Some(count - 1))
  }

  lemma {:induction false} RaceSlotsLength(pRaces: seq<real>, count: nat, n: nat)
    requires count <= |pRaces|
    ensures |RaceSlots(pRaces, count, n)| == HeadCount(pRaces, count, n)
  {
    if count > 0 {
      RaceSlotsLength(pRaces, count - 1, n);
    }
  }

  /** Race `i` gets exactly `int(p_races[i] * n)` people. */
  lemma {:induction false} RaceCensus(pRaces: seq<real>, count: nat, n: nat, i: nat)
    requires count <= |pRaces|
    ensures multiset(RaceSlots(pRaces, count, n))[Some(i)] == if i < count then Share(pRaces[i], n) else 0
  {
    if count > 0 {
      RaceCensus(pRaces, count - 1, n, i);
      var block := seq(Share(pRaces[count - 1], n), _ => Some(count - 1));
      assert RaceSlots(pRaces, count, n) == RaceSlots(pRaces, count - 1, n) + block;
      BlockCount(block, Some(count - 1), Some(i));
    }
  }

  /** A block of copies of `x` holds `|block|` copies of `x` and nothing else. */
  lemma {:induction false} BlockCount<T>(block: seq<T>, x: T, y: T)
    requires forall j :: 0 <= j < |block| ==> block[j] == x
    ensures multiset(block)[y] == if y == x then |block| else 0
  {
    if block != [] {
      var last := |block| - 1;
      assert block == block[..last] + [block[last]];
      BlockCount(block[..last], x, y);
    }
  }

  /** The full slot vector, or the exception `Map.__init__` raises: indexing
      `p_races` past its end, or a slot count that does not reshape to
      `height x width`. */
  function Layout(numRaces: nat, pRaces: seq<real>, pEmpty: real, width: nat, height: nat): (r: Result<seq<Option<nat>>>)
    ensures r.Err? && r.fault == MissingProportion <==> |pRaces| < numRaces
    ensures r.Ok? <==> (|pRaces| >= numRaces
      && HeadCount(pRaces, numRaces, width * height) + Share(pEmpty, width * height) == width * height)
    ensures r.Ok? ==> |r.value| == width * height
    ensures r.Ok? ==> forall j :: 0 <= j < |r.value| && r.value[j].Some? ==> r.value[j].value < numRaces
  {
    if |pRaces| < numRaces then Err(MissingProportion)
    else
      var n := width * height;
      RaceSlotsLength(pRaces, numRaces, n);
      var slots := RaceSlots(pRaces, numRaces, n) + seq(Share(pEmpty, n), _ => None);
      if |slots| != n then Err(ShapeMismatch) else Ok(slots)
  }

  /** A successful layout has `int(p_races[i] * n)` people of each race `i`
      and `int(p_empty * n)` empty houses, `n` being `width * height`. */
  lemma LayoutCensus(numRaces: nat, pRaces: seq<real>, pEmpty: real, width: nat, height: nat, i: nat)
    requires Layout(numRaces, pRaces, pEmpty, width, height).Ok?
    ensures var slots := Layout(numRaces, pRaces, pEmpty, width, height).value;
      && multiset(slots)[Some(i)] == (if i < numRaces then Share(pRaces[i], width * height) else 0)
      && multiset(slots)[None] == Share(pEmpty, width * height)
  {
    var n := width * height;
    var people := RaceSlots(pRaces, numRaces, n);
    var vacant := seq(Share(pEmpty, n), _ => None);
    assert Layout(numRaces, pRaces, pEmpty, width, height).value == people + vacant;
    RaceCensus(pRaces, numRaces, n, i);
    BlockCount(vacant, None, Some(i));
    BlockCount(vacant, None, None);
    assert None !in people;
  }
}
