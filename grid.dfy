/** The bordered housing grid (`Map`): a `(height+2) x (width+2)` array of
    houses whose outer ring stays empty, the list of interior empty houses,
    relocation of one person (`move_empty`) and the two full-grid sweeps
    (`check_happy`, `moving_time`). */
module Grid {
  import opened Outcomes
  import opened Agents
  import opened Population
  import opened Sweeps

  predicate Distinct<T(==)>(s: seq<T>) {
    forall i, j :: 0 <= i < j < |s| ==> s[i] != s[j]
  }

  /** `perm` rearranges the positions `0 .. n-1`: the shuffle of the slot vector. */
  predicate IsPermutation(perm: seq<nat>, n: nat) {
    && |perm| == n
    && (forall i :: 0 <= i < n ==> perm[i] < n)
    && (forall i, j :: 0 <= i < j < n ==> perm[i] != perm[j])
  }

  /** Distinct houses take distinct slots. */
  lemma SlotInjective(r1: int, c1: int, r2: int, c2: int, width: nat)
    requires 1 <= c1 <= width && 1 <= c2 <= width
    requires SlotOf(r1, c1, width) == SlotOf(r2, c2, width)
    ensures r1 == r2 && c1 == c2
  {
    if r1 != r2 {
      var lo, hi := if r1 < r2 then r1 else r2, if r1 < r2 then r2 else r1;
      MulMono(lo, hi - 1, width);
    }
  }

  /** The value of `reshape(shuffled, (height, width))` placed inside the
      border: house `(r, c)` of the padded array. */
  function Placed(shuffled: seq<Person?>, width: nat, height: nat, r: int, c: int): (p: Person?)
    requires |shuffled| == width * height
    ensures !Interior((r, c), width, height) ==> p == null
    ensures Interior((r, c), width, height) ==> 0 <= SlotOf(r, c, width) < |shuffled| && p == shuffled[SlotOf(r, c, width)]
  {
    if Interior((r, c), width, height) then
      SlotInRange(r, c, width, height);
      shuffled[SlotOf(r, c, width)]
    else null
  }

  /** The slot of a successful layout that the shuffle puts at house `(r, c)`. */
  function ShuffledSlot(slots: seq<Option<nat>>, perm: seq<nat>, width: nat, height: nat, r: int, c: int): Option<nat>
    requires |slots| == width * height && IsPermutation(perm, width * height)
    requires Interior((r, c), width, height)
  {
    SlotInRange(r, c, width, height);
    Shuffle(slots, perm)[SlotOf(r, c, width)]
  }

  /** House contents `p` agree with layout slot `slot`. */
  predicate Resident(p: Person?, races: seq<Race>, slot: Option<nat>) {
    match slot
    case None => p == null
    case Some(i) => p != null && i < |races| && p.race == races[i]
  }

  /** The position of the first occurrence of `x`, which `list.remove` looks for. */
  function FirstIndex(s: seq<Cell>, x: Cell): (i: nat)
    requires x in s
    ensures i < |s| && s[i] == x && x !in s[..i]
  {
    if s[0] == x then 0
    else
      var j := FirstIndex(s[1..], x);
      assert s[..j + 1] == [s[0]] + s[1..][..j];
      j + 1
  }

  /** `list.remove(x)`: drops the first occurrence of `x`. */
  function RemoveFirst(s: seq<Cell>, x: Cell): (r: seq<Cell>)
    requires x in s
    ensures |r| == |s| - 1
    ensures multiset(r) == multiset(s) - multiset{x}
  {
    var i := FirstIndex(s, x);
    assert s == s[..i] + [x] + s[i + 1..];
    s[..i] + s[i + 1..]
  }

  /** When index `k` holds the first occurrence of its element, removing
      that element cuts the list at `k`. */
  lemma RemoveFirstAt(s: seq<Cell>, k: nat)
    requires k < |s| && s[k] !in s[..k]
    ensures RemoveFirst(s, s[k]) == s[..k] + s[k + 1..]
  {
  }

  lemma {:induction false} SubsetCard<T>(a: set<T>, b: set<T>)
    requires a <= b
    ensures |a| <= |b|
    decreases b
  {
    if a != {} {
      var x :| x in a;
      SubsetCard(a - {x}, b - {x});
    }
  }

  /** The people with a true verdict. */
  ghost function Approved(verdict: map<Person, bool>): set<Person> {
    set p | p in verdict && verdict[p]
  }

  /** Visiting house `(r+1, c+1)` adds its occupant `x`, and nobody else, to
      the people already visited. */
  lemma VisitedStep(home: map<Person, Cell>, r: int, c: int, x: Person?)
    requires forall q :: q in home && home[q] == (r + 1, c + 1) ==> q == x
    requires x != null ==> x in home && home[x] == (r + 1, c + 1)
    ensures x != null ==> !Before(home[x], r, c)
    ensures forall q :: q in home ==> (Before(home[q], r, c + 1) <==> Before(home[q], r, c) || q == x)
  {
  }

  /** The end of one row is the start of the next, and after the last row
      everybody has been visited. */
  lemma VisitedRow(home: map<Person, Cell>, r: int, width: nat, height: nat)
    requires forall q :: q in home ==> Interior(home[q], width, height)
    ensures forall q :: q in home ==> (Before(home[q], r, width) <==> Before(home[q], r + 1, 0))
    ensures forall q :: q in home ==> Before(home[q], height, 0)
  {
  }

  /** Recording one more verdict counts one more approval when it is true. */
  lemma ApprovedStep(verdict: map<Person, bool>, x: Person, b: bool)
    requires x !in verdict
    ensures |Approved(verdict[x := b])| == |Approved(verdict)| + (if b then 1 else 0)
  {
    if b {
      assert Approved(verdict[x := b]) == Approved(verdict) + {x};
    } else {
      assert Approved(verdict[x := b]) == Approved(verdict);
    }
  }

  /** `np.random.shuffle` applied to the slot vector, the permutation being
      an input of the model: position `j` receives the element at `perm[j]`,
      so the result is a rearrangement of `xs`. */
  function Shuffle<T>(xs: seq<T>, perm: seq<nat>): (r: seq<T>)
    requires IsPermutation(perm, |xs|)
    ensures |r| == |xs| && forall j :: 0 <= j < |r| ==> r[j] == xs[perm[j]]
    ensures multiset(r) == multiset(xs)
  {
    var r := seq(|xs|, j requires 0 <= j < |xs| => xs[perm[j]]);
    PermutedMultiset(xs, perm, r);
    r
  }

  /** `perm` with the value `p` taken out and the values above it closed up. */
  function Collapse(perm: seq<nat>, p: nat): seq<nat> {
    seq(|perm|, j requires 0 <= j < |perm| => if perm[j] <= p then perm[j] else perm[j] - 1)
  }

  /** Reading `xs` through a permutation of its positions rearranges it. */
  lemma {:induction false} PermutedMultiset<T>(xs: seq<T>, perm: seq<nat>, r: seq<T>)
    requires IsPermutation(perm, |xs|) && |r| == |xs|
    requires forall j :: 0 <= j < |r| ==> r[j] == xs[perm[j]]
    ensures multiset(r) == multiset(xs)
    decreases |xs|
  {
    var n := |xs|;
    if n > 0 {
      // the last position reads `xs[p]`; the others read the rest of `xs`
      var p := perm[n - 1];
      var rest := xs[..p] + xs[p + 1..];
      var perm' := Collapse(perm[..n - 1], p);
      forall j | 0 <= j < n - 1
        ensures perm'[j] < n - 1 && r[j] == rest[perm'[j]]
      {
        assert perm[j] != p;
        if perm[j] < p {
          assert rest[perm[j]] == xs[perm[j]];
        } else {
          assert rest[perm[j] - 1] == xs[perm[j]];
        }
      }
      forall i, j | 0 <= i < j < n - 1
        ensures perm'[i] != perm'[j]
      {
        assert perm[i] != p && perm[j] != p && perm[i] != perm[j];
      }
      PermutedMultiset(rest, perm', r[..n - 1]);
      assert r == r[..n - 1] + [r[n - 1]];
      assert xs == xs[..p] + [xs[p]] + xs[p + 1..];
    }
  }

  /** The shuffled layout keeps the census of the layout: `int(p_races[i] * n)`
      people of each race `i` and `int(p_empty * n)` empty houses. */
  lemma DealtCensus(numRaces: nat, pRaces: seq<real>, pEmpty: real, width: nat, height: nat, perm: seq<nat>, i: nat)
    requires Layout(numRaces, pRaces, pEmpty, width, height).Ok? && IsPermutation(perm, width * height)
    ensures var dealt := Shuffle(Layout(numRaces, pRaces, pEmpty, width, height).value, perm);
      && multiset(dealt)[Some(i)] == (if i < numRaces then Share(pRaces[i], width * height) else 0)
      && multiset(dealt)[None] == Share(pEmpty, width * height)
  {
    LayoutCensus(numRaces, pRaces, pEmpty, width, height, i);
  }

  /** Every house of the reshaped grid holds what its shuffled slot says. */
  lemma PlacedResident(people: seq<Person?>, perm: seq<nat>, slots: seq<Option<nat>>, races: seq<Race>, width: nat, height: nat, r: int, c: int)
    requires |people| == |slots| == width * height && IsPermutation(perm, width * height)
    requires forall j :: 0 <= j < |slots| ==> Resident(people[j], races, slots[j])
    requires Interior((r, c), width, height)
    ensures Resident(Placed(Shuffle(people, perm), width, height, r, c), races, ShuffledSlot(slots, perm, width, height, r, c))
  {
    SlotInRange(r, c, width, height);
  }

  /** A person appears in at most one position of `people`. */
  predicate OnceEach(people: seq<Person?>) {
    forall j, k :: 0 <= j < k < |people| && people[j] != null ==> people[j] != people[k]
  }

  /** After shuffling and reshaping, no person occupies two houses. */
  lemma PlacedUnshared(people: seq<Person?>, perm: seq<nat>, width: nat, height: nat, r1: int, c1: int, r2: int, c2: int)
    requires |people| == width * height && IsPermutation(perm, width * height) && OnceEach(people)
    requires Interior((r1, c1), width, height) && Interior((r2, c2), width, height)
    ensures var shuffled := Shuffle(people, perm);
      (Placed(shuffled, width, height, r1, c1) != null &&
       Placed(shuffled, width, height, r1, c1) == Placed(shuffled, width, height, r2, c2)) ==> r1 == r2 && c1 == c2
  {
    var shuffled := Shuffle(people, perm);
    SlotInRange(r1, c1, width, height);
    SlotInRange(r2, c2, width, height);
    var s1, s2 := SlotOf(r1, c1, width), SlotOf(r2, c2, width);
    if shuffled[s1] != null && shuffled[s1] == shuffled[s2] {
      assert people[perm[s1]] == people[perm[s2]];
      assert perm[s1] == perm[s2] by {
        if perm[s1] < perm[s2] { assert false; } else if perm[s2] < perm[s1] { assert false; }
      }
      if s1 != s2 {
        if s1 < s2 { assert false; } else { assert false; }
      }
      SlotInjective(r1, c1, r2, c2, width);
    }
  }

  /** `count` new people of race `race`, each created once. */
  method CreateRace(race: Race, count: nat) returns (block: seq<Person>)
    ensures |block| == count
    ensures forall j :: 0 <= j < |block| ==> fresh(block[j]) && block[j].race == race && block[j].happy == None
    ensures forall j, k :: 0 <= j < k < |block| ==> block[j] != block[k]
  {
    block := [];
    while |block| < count
      invariant |block| <= count
      invariant forall j :: 0 <= j < |block| ==> fresh(block[j]) && block[j].race == race && block[j].happy == None
      invariant forall j, k :: 0 <= j < k < |block| ==> block[j] != block[k]
    {
      var p := new Person(race);
      block := block + [p];
    }
  }

  /** The people part of the slot vector: `int(p_races[i] * n)` new people of
      race `i`, race after race. */
  method CreatePeople(pRaces: seq<real>, races: seq<Race>, n: nat) returns (people: seq<Person>)
    requires |races| <= |pRaces|
    ensures |people| == |RaceSlots(pRaces, |races|, n)|
    ensures forall j :: 0 <= j < |people| ==> Resident(people[j], races, RaceSlots(pRaces, |races|, n)[j])
    ensures forall j :: 0 <= j < |people| ==> fresh(people[j]) && people[j].happy == None
    ensures OnceEach(people)
  {
    people := [];
    var i := 0;
    while i < |races|
      invariant 0 <= i <= |races|
      invariant |people| == |RaceSlots(pRaces, i, n)|
      invariant forall j :: 0 <= j < |people| ==> Resident(people[j], races, RaceSlots(pRaces, i, n)[j])
      invariant forall j :: 0 <= j < |people| ==> fresh(people[j]) && people[j].happy == None
      invariant OnceEach(people)
    {
      var block := CreateRace(races[i], Share(pRaces[i], n));
      ghost var before := people;
      people := people + block;
      assert RaceSlots(pRaces, i + 1, n) == RaceSlots(pRaces, i, n) + seq(Share(pRaces[i], n), _ => Some(i));
      forall j | 0 <= j < |people|
        ensures Resident(people[j], races, RaceSlots(pRaces, i + 1, n)[j])
      {
        if j >= |before| { assert people[j] == block[j - |before|]; }
      }
      i := i + 1;
    }
  }

  /** No person occupies two interior houses of `grid`. */
  ghost predicate Unshared(grid: array2<Person?>, width: nat, height: nat)
    reads grid
    requires grid.Length0 == height + 2 && grid.Length1 == width + 2
  {
    forall r1, c1, r2, c2 ::
      (Interior((r1, c1), width, height) && Interior((r2, c2), width, height) &&
       grid[r1, c1] != null && grid[r1, c1] == grid[r2, c2]) ==> r1 == r2 && c1 == c2
  }

  /** The sweep that records the empty houses has passed every house before
      loop position `(r, c)`: `vacant` lists the empty ones in row-major
      order and `home` maps the occupants of the others to their houses. */
  ghost predicate Surveyed(grid: array2<Person?>, width: nat, height: nat, vacant: seq<Cell>, home: map<Person, Cell>, r: int, c: int)
    reads grid
    requires grid.Length0 == height + 2 && grid.Length1 == width + 2
  {
    && (forall k :: 0 <= k < |vacant| ==>
          Interior(vacant[k], width, height) && Before(vacant[k], r, c) && grid[vacant[k].0, vacant[k].1] == null)
    && (forall rr, cc :: Interior((rr, cc), width, height) && Before((rr, cc), r, c) && grid[rr, cc] == null ==> (rr, cc) in vacant)
    && (forall a, b :: 0 <= a < b < |vacant| ==> Precedes(vacant[a], vacant[b]))
    && (forall p :: p in home ==> Interior(home[p], width, height) && Before(home[p], r, c) && grid[home[p].0, home[p].1] == p)
    && (forall rr, cc :: Interior((rr, cc), width, height) && Before((rr, cc), r, c) && grid[rr, cc] != null ==>
          grid[rr, cc] in home && home[grid[rr, cc]] == (rr, cc))
  }

  /** The number of empty slots in `cells`. */
  function Vacancies(cells: seq<Person?>): nat {
    if cells == [] then 0
    else Vacancies(cells[..|cells| - 1]) + (if cells[|cells| - 1] == null then 1 else 0)
  }

  lemma {:induction false} VacanciesCount(cells: seq<Person?>)
    ensures Vacancies(cells) == multiset(cells)[null]
  {
    if cells != [] {
      var last := |cells| - 1;
      VacanciesCount(cells[..last]);
      assert cells == cells[..last] + [cells[last]];
    }
  }

  /** Shuffling a vector that ends in `e` empty slots, and has no other
      empty slot, leaves `e` empty slots. */
  lemma VacanciesOfDeal(people: seq<Person?>, perm: seq<nat>, e: nat)
    requires IsPermutation(perm, |people|) && e <= |people|
    requires forall j :: 0 <= j < |people| ==> (people[j] == null <==> j >= |people| - e)
    ensures Vacancies(Shuffle(people, perm)) == e
  {
    var k := |people| - e;
    VacanciesCount(Shuffle(people, perm));
    assert people == people[..k] + people[k..];
    BlockCount(people[k..], null, null);
    assert null !in people[..k];
  }

  /** `grid` is `cells` reshaped to `height x width` inside an empty border. */
  ghost predicate Reshaped(grid: array2<Person?>, cells: seq<Person?>, width: nat, height: nat)
    reads grid
    requires grid.Length0 == height + 2 && grid.Length1 == width + 2 && |cells| == width * height
  {
    forall r, c {:trigger Placed(cells, width, height, r, c)} ::
      0 <= r < height + 2 && 0 <= c < width + 2 ==> grid[r, c] == Placed(cells, width, height, r, c)
  }

  /** After passing the first `k` slots of `cells`, `vacant` has one entry
      per empty slot among them. */
  ghost predicate Tallied(cells: seq<Person?>, vacant: seq<Cell>, k: int) {
    0 <= k <= |cells| && |vacant| == Vacancies(cells[..k])
  }

  lemma TalliedVacant(cells: seq<Person?>, vacant: seq<Cell>, k: int, cell: Cell)
    requires Tallied(cells, vacant, k) && k < |cells| && cells[k] == null
    ensures Tallied(cells, vacant + [cell], k + 1)
  {
    assert cells[..k + 1][..k] == cells[..k];
  }

  lemma TalliedOccupied(cells: seq<Person?>, vacant: seq<Cell>, k: int)
    requires Tallied(cells, vacant, k) && k < |cells| && cells[k] != null
    ensures Tallied(cells, vacant, k + 1)
  {
    assert cells[..k + 1][..k] == cells[..k];
  }

  lemma NextRowStart(r: int, width: nat)
    ensures (r + 1) * width == r * width + width
  {
  }

  lemma AreaCommutes(width: nat, height: nat)
    ensures height * width == width * height
  {
  }

  /** The empty-house recording loops of `Map.__init__`: `vacant` lists
      every interior empty house once, in row-major order, and `home` maps
      every occupant to its house. */
  method Survey(grid: array2<Person?>, width: nat, height: nat, ghost cells: seq<Person?>) returns (vacant: seq<Cell>, ghost home: map<Person, Cell>)
    requires grid.Length0 == height + 2 && grid.Length1 == width + 2 && Unshared(grid, width, height)
    requires |cells| == width * height && Reshaped(grid, cells, width, height)
    ensures |vacant| == Vacancies(cells)
    ensures forall k :: 0 <= k < |vacant| ==> Interior(vacant[k], width, height) && grid[vacant[k].0, vacant[k].1] == null
    ensures forall rr, cc :: Interior((rr, cc), width, height) && grid[rr, cc] == null ==> (rr, cc) in vacant
    ensures forall a, b :: 0 <= a < b < |vacant| ==> Precedes(vacant[a], vacant[b])
    ensures forall p :: p in home ==> Interior(home[p], width, height) && grid[home[p].0, home[p].1] == p
    ensures forall rr, cc :: Interior((rr, cc), width, height) && grid[rr, cc] != null ==>
      grid[rr, cc] in home && home[grid[rr, cc]] == (rr, cc)
  {
    vacant, home := [], map[];
    var r := 0;
    ghost var k := 0;
    while r < height
      invariant 0 <= r <= height
      invariant Surveyed(grid, width, height, vacant, home, r, 0)
      invariant k == r * width && Tallied(cells, vacant, k)
    {
      vacant, home, k := SurveyRow(grid, width, height, r, vacant, home, cells, k);
      NextRowStart(r, width);
      r := r + 1;
    }
    SurveyedAll(grid, width, height, vacant, home);
    TalliedAll(cells, vacant, width, height);
  }

  /** One pass of the inner recording loop, over row `r`. */
  method SurveyRow(grid: array2<Person?>, width: nat, height: nat, r: int, vacant0: seq<Cell>, ghost home0: map<Person, Cell>,
                   ghost cells: seq<Person?>, ghost k0: int)
    returns (vacant: seq<Cell>, ghost home: map<Person, Cell>, ghost k: int)
    requires grid.Length0 == height + 2 && grid.Length1 == width + 2 && Unshared(grid, width, height)
    requires 0 <= r < height && Surveyed(grid, width, height, vacant0, home0, r, 0)
    requires |cells| == width * height && Reshaped(grid, cells, width, height)
    requires k0 == r * width && Tallied(cells, vacant0, k0)
    ensures Surveyed(grid, width, height, vacant, home, r + 1, 0)
    ensures k == k0 + width && Tallied(cells, vacant, k)
  {
    vacant, home := vacant0, home0;
    var c := 0;
    k := k0;
    while c < width
      invariant 0 <= c <= width && k == k0 + c
      invariant Surveyed(grid, width, height, vacant, home, r, c)
      invariant Tallied(cells, vacant, k)
    {
      vacant, home := SurveyCell(grid, width, height, r, c, vacant, home, cells, k);
      c, k := c + 1, k + 1;
    }
    SurveyedRowEnd(grid, width, height, vacant, home, r);
  }

  /** One pass of the body of the inner recording loop, at house `(r+1, c+1)`. */
  method SurveyCell(grid: array2<Person?>, width: nat, height: nat, r: int, c: int, vacant0: seq<Cell>, ghost home0: map<Person, Cell>,
                    ghost cells: seq<Person?>, ghost k: int)
    returns (vacant: seq<Cell>, ghost home: map<Person, Cell>)
    requires grid.Length0 == height + 2 && grid.Length1 == width + 2 && Unshared(grid, width, height)
    requires 0 <= r < height && 0 <= c < width && Surveyed(grid, width, height, vacant0, home0, r, c)
    requires |cells| == width * height && Reshaped(grid, cells, width, height)
    requires k == r * width + c && Tallied(cells, vacant0, k)
    ensures Surveyed(grid, width, height, vacant, home, r, c + 1)
    ensures Tallied(cells, vacant, k + 1)
  {
    vacant, home := vacant0, home0;
    assert k < |cells| && grid[r + 1, c + 1] == cells[k] by {
      SlotInRange(r + 1, c + 1, width, height);
      assert grid[r + 1, c + 1] == Placed(cells, width, height, r + 1, c + 1);
    }
    if grid[r + 1, c + 1] == null {
      SurveyedVacant(grid, width, height, vacant, home, r, c);
      TalliedVacant(cells, vacant, k, (r + 1, c + 1));
      vacant := vacant + [(r + 1, c + 1)];
    } else {
      SurveyedOccupied(grid, width, height, vacant, home, r, c);
      TalliedOccupied(cells, vacant, k);
      home := home[grid[r + 1, c + 1] := (r + 1, c + 1)];
    }
  }

  /** Passing an empty house appends it to `vacant`. */
  lemma SurveyedVacant(grid: array2<Person?>, width: nat, height: nat, vacant: seq<Cell>, home: map<Person, Cell>, r: int, c: int)
    requires grid.Length0 == height + 2 && grid.Length1 == width + 2
    requires 0 <= r < height && 0 <= c < width && grid[r + 1, c + 1] == null
    requires Surveyed(grid, width, height, vacant, home, r, c)
    ensures Surveyed(grid, width, height, vacant + [(r + 1, c + 1)], home, r, c + 1)
  {
  }

  /** Passing an occupied house records its occupant, who cannot have been
      met before. */
  lemma SurveyedOccupied(grid: array2<Person?>, width: nat, height: nat, vacant: seq<Cell>, home: map<Person, Cell>, r: int, c: int)
    requires grid.Length0 == height + 2 && grid.Length1 == width + 2 && Unshared(grid, width, height)
    requires 0 <= r < height && 0 <= c < width && grid[r + 1, c + 1] != null
    requires Surveyed(grid, width, height, vacant, home, r, c)
    ensures Surveyed(grid, width, height, vacant, home[grid[r + 1, c + 1] := (r + 1, c + 1)], r, c + 1)
  {
    assert grid[r + 1, c + 1] !in home;
  }

  /** After the last row every house has been passed. */
  lemma SurveyedAll(grid: array2<Person?>, width: nat, height: nat, vacant: seq<Cell>, home: map<Person, Cell>)
    requires grid.Length0 == height + 2 && grid.Length1 == width + 2
    requires Surveyed(grid, width, height, vacant, home, height, 0)
    ensures forall k :: 0 <= k < |vacant| ==> Interior(vacant[k], width, height) && grid[vacant[k].0, vacant[k].1] == null
    ensures forall rr, cc :: Interior((rr, cc), width, height) && grid[rr, cc] == null ==> (rr, cc) in vacant
    ensures forall a, b :: 0 <= a < b < |vacant| ==> Precedes(vacant[a], vacant[b])
    ensures forall p :: p in home ==> Interior(home[p], width, height) && grid[home[p].0, home[p].1] == p
    ensures forall rr, cc :: Interior((rr, cc), width, height) && grid[rr, cc] != null ==>
      grid[rr, cc] in home && home[grid[rr, cc]] == (rr, cc)
  {
  }

  /** Past the last row, every slot of `cells` has been tallied. */
  lemma TalliedAll(cells: seq<Person?>, vacant: seq<Cell>, width: nat, height: nat)
    requires |cells| == width * height && Tallied(cells, vacant, height * width)
    ensures |vacant| == Vacancies(cells)
  {
    AreaCommutes(width, height);
    assert cells[..height * width] == cells;
  }

  /** The end of one row is the start of the next. */
  lemma SurveyedRowEnd(grid: array2<Person?>, width: nat, height: nat, vacant: seq<Cell>, home: map<Person, Cell>, r: int)
    requires grid.Length0 == height + 2 && grid.Length1 == width + 2
    requires Surveyed(grid, width, height, vacant, home, r, width)
    ensures Surveyed(grid, width, height, vacant, home, r + 1, 0)
  {
  }

  /** The slot vector of `Map.__init__` before the shuffle: each race's new
      people in turn, then `int(p_empty * n)` empty houses. */
  method SlotVector(width: nat, height: nat, pEmpty: real, pRaces: seq<real>, races: seq<Race>)
    returns (people: seq<Person?>)
    requires Layout(|races|, pRaces, pEmpty, width, height).Ok?
    ensures var slots := Layout(|races|, pRaces, pEmpty, width, height).value;
      |people| == |slots| && forall j :: 0 <= j < |people| ==> Resident(people[j], races, slots[j])
    ensures forall j :: 0 <= j < |people| ==> (people[j] == null <==> j >= |people| - Share(pEmpty, width * height))
    ensures forall j :: 0 <= j < |people| && people[j] != null ==> fresh(people[j]) && people[j].happy == None
    ensures OnceEach(people)
  {
    var n := width * height;
    ghost var slots := Layout(|races|, pRaces, pEmpty, width, height).value;
    var created := CreatePeople(pRaces, races, n);
    RaceSlotsLength(pRaces, |races|, n);
    assert slots == RaceSlots(pRaces, |races|, n) + seq(Share(pEmpty, n), _ => None);
    people := created + seq(Share(pEmpty, n), _ => null);
    assert forall j :: 0 <= j < |created| ==> people[j] == created[j];
  }

  /** The part of `Map.__init__` that fills the padded grid: create the
      people race by race, append the empty houses, shuffle by `perm` and
      place the result inside an empty border. */
  method Populate(width: nat, height: nat, pEmpty: real, pRaces: seq<real>, races: seq<Race>, perm: seq<nat>)
    returns (grid: array2<Person?>, ghost cells: seq<Person?>)
    requires Layout(|races|, pRaces, pEmpty, width, height).Ok?
    requires IsPermutation(perm, width * height)
    ensures fresh(grid) && grid.Length0 == height + 2 && grid.Length1 == width + 2
    ensures |cells| == width * height && Reshaped(grid, cells, width, height)
    ensures Vacancies(cells) == Share(pEmpty, width * height)
    ensures forall r, c :: 0 <= r < height + 2 && 0 <= c < width + 2 && !Interior((r, c), width, height) ==> grid[r, c] == null
    ensures forall r, c :: Interior((r, c), width, height) ==>
      Resident(grid[r, c], races, ShuffledSlot(Layout(|races|, pRaces, pEmpty, width, height).value, perm, width, height, r, c))
    ensures forall r, c :: Interior((r, c), width, height) && grid[r, c] != null ==> fresh(grid[r, c]) && grid[r, c].happy == None
    ensures Unshared(grid, width, height)
  {
    var n := width * height;
    ghost var slots := Layout(|races|, pRaces, pEmpty, width, height).value;
    var people := SlotVector(width, height, pEmpty, pRaces, races);
    // shuffle, reshape and surround with the empty border
    var shuffled := Shuffle(people, perm);
    grid := new Person?[height + 2, width + 2]((r, c) => Placed(shuffled, width, height, r, c));
    cells := shuffled;
    VacanciesOfDeal(people, perm, Share(pEmpty, n));
    forall r1, c1, r2, c2 | Interior((r1, c1), width, height) && Interior((r2, c2), width, height)
      ensures grid[r1, c1] != null && grid[r1, c1] == grid[r2, c2] ==> r1 == r2 && c1 == c2
    {
      PlacedUnshared(people, perm, width, height, r1, c1, r2, c2);
    }
    forall rr, cc | Interior((rr, cc), width, height) && grid[rr, cc] != null
      ensures fresh(grid[rr, cc]) && grid[rr, cc].happy == None
    {
      SlotInRange(rr, cc, width, height);
      assert grid[rr, cc] == people[perm[SlotOf(rr, cc, width)]];
    }
    forall rr, cc | Interior((rr, cc), width, height)
      ensures Resident(grid[rr, cc], races, ShuffledSlot(slots, perm, width, height, rr, cc))
    {
      PlacedResident(people, perm, slots, races, width, height, rr, cc);
    }
  }

  /** `content` holds exactly those of `people` whose flag is True. */
  ghost predicate FlagsTrue(people: set<Person>, content: set<Person>)
    reads people
  {
    forall p :: p in people ==> (p in content <==> p.happy == Some(true))
  }

  class Map {
    const width: nat
    const height: nat
    const races: seq<Race>
    /** `width * height * (1 - p_empty)`, the divisor of both round fractions. */
    const peopleCnt: real
    const houses: array2<Person?>
    /** Interior empty houses, as the list of coordinates `Map` keeps. */
    var empties: seq<Cell>
    /** Where each person lives; ties people to houses one to one. */
    ghost var Home: map<Person, Cell>

    ghost predicate Framed() {
      houses.Length0 == height + 2 && houses.Length1 == width + 2
    }

    /** The sentinel ring around the grid is empty. */
    ghost predicate BorderEmpty()
      reads houses
      requires Framed()
    {
      forall r, c :: 0 <= r < height + 2 && 0 <= c < width + 2 && !Interior((r, c), width, height) ==> houses[r, c] == null
    }

    /** `empties` lists each interior empty house exactly once and nothing else. */
    ghost predicate EmptiesExact()
      reads this, houses
      requires Framed()
    {
      && (forall k :: 0 <= k < |empties| ==>
            Interior(empties[k], width, height) && houses[empties[k].0, empties[k].1] == null)
      && (forall r, c :: Interior((r, c), width, height) && houses[r, c] == null ==> (r, c) in empties)
      && Distinct(empties)
    }

    /** Every person lives in exactly one interior house, recorded in `Home`. */
    ghost predicate HomesExact()
      reads this, houses
      requires Framed()
    {
      && (forall p :: p in Home ==> Interior(Home[p], width, height) && houses[Home[p].0, Home[p].1] == p)
      && (forall r, c :: Interior((r, c), width, height) && houses[r, c] != null ==>
            houses[r, c] in Home && Home[houses[r, c]] == (r, c))
    }

    ghost predicate Valid()
      reads this, houses
    {
      Framed() && BorderEmpty() && EmptiesExact() && HomesExact()
    }

    /** Nobody wants to move: every person's `happy` flag is True. */
    ghost predicate AllContent()
      reads this, Home.Keys
    {
      forall p :: p in Home ==> p.happy == Some(true)
    }

    /** The people whose `happy` flag is True. */
    ghost function Contented(): (s: set<Person>)
      reads this, Home.Keys
      ensures s <= Home.Keys
      ensures forall p :: p in s ==> p.happy == Some(true)
      ensures forall p :: p in Home && p.happy == Some(true) ==> p in s
    {
      set p | p in Home && p.happy == Some(true)
    }

    /** The people for whom `is_happy` holds at their current house. */
    ghost function HappyPeople(): (s: set<Person>)
      reads this, houses
      requires Valid()
      ensures s <= Home.Keys
    {
      set p | p in Home && HappyAt(houses, Home[p], p.race)
    }

    /** `Map.__init__` for a layout that tiles the grid: create the people
        race by race, append the empty houses, shuffle by `perm`, place the
        result inside an empty border and record the empty houses. */
    constructor (width: nat, height: nat, pEmpty: real, pRaces: seq<real>, races: seq<Race>, perm: seq<nat>)
      requires Layout(|races|, pRaces, pEmpty, width, height).Ok?
      requires IsPermutation(perm, width * height)
      ensures Valid() && fresh(houses)
      ensures this.width == width && this.height == height && this.races == races
      ensures peopleCnt == (width * height) as real * (1.0 - pEmpty)
      ensures forall r, c :: Interior((r, c), width, height) ==>
        Resident(houses[r, c], races, ShuffledSlot(Layout(|races|, pRaces, pEmpty, width, height).value, perm, width, height, r, c))
      ensures forall p :: p in Home ==> fresh(p) && p.happy == None
      ensures forall i, j :: 0 <= i < j < |empties| ==> Precedes(empties[i], empties[j])
      ensures |empties| == Share(pEmpty, width * height)
      ensures width * height - |empties| == HeadCount(pRaces, |races|, width * height)
    {
      var grid: array2<Person?>;
      ghost var cells: seq<Person?>;
      grid, cells := Populate(width, height, pEmpty, pRaces, races, perm);
      // record the empty houses and, in the proof, every person's house
      var vacant: seq<Cell>;
      ghost var home: map<Person, Cell>;
      vacant, home := Survey(grid, width, height, cells);
      forall p | p in home
        ensures fresh(p) && p.happy == None
      {
        assert grid[home[p].0, home[p].1] == p;
      }
      this.width, this.height, this.races := width, height, races;
      peopleCnt := (width * height) as real * (1.0 - pEmpty);
      houses := grid;
      empties := vacant;
      Home := home;
      new;
      forall a, b | 0 <= a < b < |empties|
        ensures empties[a] != empties[b]
      {
        assert Precedes(empties[a], empties[b]);
      }
    }

    /** One pass of the inner loop of `moving_time`, over row `r`: everybody
        whose `happy` flag is not True moves, and `moved` adds the number of
        moves to `moved0`. `stuck` reports the exception `move_empty` raises
        when a person must move and there is no empty house. */
    method MoveRow(r: int, moved0: nat, ghost empties0: seq<Cell>, ghost content: set<Person>, ghost home0: map<Person, Cell>, ghost trail0: seq<Move>)
      returns (moved: nat, stuck: bool, ghost trail: seq<Move>)
      requires 0 <= r < height
      requires Valid() && Progress(empties0, empties, content, home0, Home, trail0, r, 0, width, height) && moved0 == |trail0|
      requires FlagsTrue(home0.Keys, content)
      requires forall p :: p in home0 ==> Interior(home0[p], width, height)
      modifies this, houses
      ensures Valid()
      ensures stuck ==> |empties0| == 0 && home0.Keys - content != {} && Home == home0 && empties == empties0
      ensures !stuck ==> Progress(empties0, empties, content, home0, Home, trail, r + 1, 0, width, height) && moved == |trail|
      ensures !stuck ==> RowMoves(trail0, trail, r)
      ensures FlagsTrue(home0.Keys, content)
    {
      moved, stuck, trail := moved0, false, trail0;
      var c := 0;
      while c < width
        invariant 0 <= c <= width
        invariant Valid() && Progress(empties0, empties, content, home0, Home, trail, r, c, width, height) && moved == |trail|
        invariant RowMoves(trail0, trail, r)
        invariant FlagsTrue(home0.Keys, content)
      {
        ghost var before := trail;
        moved, stuck, trail := Attend(r, c, moved, empties0, content, home0, trail);
        if stuck {
          return;
        }
        RowMovesStep(trail0, before, trail, r, c);
        c := c + 1;
      }
      LogRow(empties0, empties, content, home0, Home, trail, r, width, height);
    }

    /** The body of the inner loop of `moving_time` at house `(r+1, c+1)`:
        its occupant moves when its `happy` flag is not True, to a house that
        was empty, and `moved` counts the move; otherwise nothing changes. */
    method Attend(r: int, c: int, moved0: nat, ghost empties0: seq<Cell>, ghost content: set<Person>, ghost home0: map<Person, Cell>, ghost trail0: seq<Move>)
      returns (moved: nat, stuck: bool, ghost trail: seq<Move>)
      requires 0 <= r < height && 0 <= c < width
      requires Valid() && Progress(empties0, empties, content, home0, Home, trail0, r, c, width, height) && moved0 == |trail0|
      requires FlagsTrue(home0.Keys, content)
      modifies this, houses
      ensures Valid()
      ensures moved == moved0 || moved == moved0 + 1
      ensures moved == moved0 ==> empties == old(empties) && Home == old(Home) && trail == trail0
      ensures moved == moved0 && !stuck && old(houses[r + 1, c + 1]) != null ==> old(houses[r + 1, c + 1].happy) == Some(true)
      ensures moved != moved0 ==> old(houses[r + 1, c + 1]) != null && old(houses[r + 1, c + 1].happy) != Some(true)
      ensures moved != moved0 ==> var x := old(houses[r + 1, c + 1]);
        && x in Home && houses[r + 1, c + 1] == null && Home[x] in old(empties) && Home == old(Home)[x := Home[x]]
        && trail == trail0 + [Move(x, (r + 1, c + 1), Home[x])]
      ensures stuck ==> moved == moved0 && |empties0| == 0 && home0.Keys - content != {} && Home == home0 && empties == empties0
      ensures !stuck ==> Progress(empties0, empties, content, home0, Home, trail, r, c + 1, width, height) && moved == |trail|
      ensures Extends(trail0, trail, (r + 1, c + 1))
      ensures FlagsTrue(home0.Keys, content)
    {
      moved, stuck, trail := moved0, false, trail0;
      var thisPerson := houses[r + 1, c + 1];
      assert forall q :: q in Home && Home[q] == (r + 1, c + 1) ==> q == thisPerson;
      if thisPerson != null && thisPerson.happy != Some(true) {
        ghost var home, vacant := Home, empties;
        assert thisPerson in home0.Keys - content;
        EmptiesVacant();
        var newHome := MoveEmpty(thisPerson, (r + 1, c + 1));
        stuck := newHome.None?;
        if stuck {
          LogStuck(empties0, empties, content, home0, Home, trail0, r, c, width, height);
        } else {
          trail := trail0 + [Move(thisPerson, (r + 1, c + 1), newHome.value)];
          LogMove(empties0, vacant, empties, content, home0, home, Home, trail0, trail, r, c, width, height, thisPerson, newHome.value);
          moved := moved + 1;
        }
      } else {
        LogStay(empties0, empties, content, home0, Home, trail0, r, c, width, height, thisPerson);
      }
    }

    /** Under `Valid()` nobody lives at a house listed in `empties`. */
    lemma EmptiesVacant()
      requires Valid()
      ensures forall k :: 0 <= k < |empties| ==> Vacant(Home, empties[k])
    {
      forall k, q | 0 <= k < |empties| && q in Home
        ensures Home[q] != empties[k]
      {
        assert houses[Home[q].0, Home[q].1] == q;
      }
    }

    /** Moves `person` from `curHome` to an empty house chosen from `empties`
        (any of them: `move_empty` draws one at random), which is taken off the
        list before `curHome` is added to it. With no empty house `move_empty`
        fails before changing anything. */
    method MoveEmpty(person: Person, curHome: Cell) returns (newHome: Option<Cell>)
      requires Valid()
      requires Interior(curHome, width, height) && houses[curHome.0, curHome.1] == person
      modifies this, houses
      ensures Valid()
      ensures newHome.Some? <==> old(|empties|) > 0
      ensures unchanged(old(Home).Keys)
      ensures |empties| == old(|empties|) && Home.Keys == old(Home.Keys)
      ensures newHome.None? ==> empties == old(empties) && Home == old(Home)
      ensures newHome.Some? ==>
        && newHome.value in old(empties) && newHome.value != curHome
        && empties == RemoveFirst(old(empties), newHome.value) + [curHome]
        && houses[curHome.0, curHome.1] == null
        && houses[newHome.value.0, newHome.value.1] == person
        && Home == old(Home)[person := newHome.value]
      ensures forall r, c :: (0 <= r < houses.Length0 && 0 <= c < houses.Length1 && (r, c) != curHome
        && (newHome.None? || (r, c) != newHome.value)) ==> houses[r, c] == old(houses[r, c])
    {
      if |empties| == 0 {
        return None;
      }
      var k :| 0 <= k < |empties|;
      var dest := empties[k];
      assert dest != curHome && curHome !in empties;
      Relocate(curHome, k);
      newHome := Some(dest);
      MoveKeepsBorder(k);
      MoveKeepsEmpties(k);
      MoveKeepsHomes(k);
    }

    /** The updates of `move_empty` once the empty house at index `k` of
        `empties` has been drawn. */
    method Relocate(curHome: Cell, k: nat)
      requires Framed() && Distinct(empties)
      requires Interior(curHome, width, height) && houses[curHome.0, curHome.1] != null
      requires k < |empties| && empties[k] != curHome && curHome !in empties
      requires Interior(empties[k], width, height) && houses[empties[k].0, empties[k].1] == null
      modifies this, houses
      ensures Relocation(k)
      ensures empties == RemoveFirst(old(empties), old(empties[k])) + [curHome]
    {
      var person := houses[curHome.0, curHome.1];
      var dest := empties[k];
      assert dest !in empties[..k] by {
        forall j | 0 <= j < k ensures empties[..k][j] != dest {
          assert empties[..k][j] == empties[j];
        }
      }
      RemoveFirstAt(empties, k);
      empties := RemoveFirst(empties, dest);
      empties := empties + [curHome];
      houses[curHome.0, curHome.1] := null;
      houses[dest.0, dest.1] := person;
      Home := Home[person := dest];
    }

    /** Under `Valid()` the grid is determined by `Home`: when nobody's house
        changed, no house of the grid changed either. */
    twostate lemma SameHomesSameGrid()
      requires old(Valid()) && Valid() && Home == old(Home)
      ensures forall r, c :: 0 <= r < height + 2 && 0 <= c < width + 2 ==> houses[r, c] == old(houses[r, c])
    {
      forall r, c | 0 <= r < height + 2 && 0 <= c < width + 2
        ensures houses[r, c] == old(houses[r, c])
      {
        if Interior((r, c), width, height) {
          if old(houses[r, c]) != null {
            assert Home[old(houses[r, c])] == (r, c);
          }
        }
      }
    }

    /** The state change `move_empty` makes when it takes the empty house at
        index `k` of `empties` for the person living at the house it then
        appends to `empties`. */
    twostate predicate Relocation(k: nat)
      reads this, houses
    {
      && Framed()
      && k < old(|empties|) && old(Interior(empties[k], width, height)) && empties != []
      && var cur := empties[|empties| - 1];
        && Interior(cur, width, height) && old(houses[cur.0, cur.1]) != null
        && empties == old(empties[..k] + empties[k + 1..]) + [cur]
        && houses[cur.0, cur.1] == null && houses[old(empties[k]).0, old(empties[k]).1] == old(houses[cur.0, cur.1])
        && (forall r, c :: 0 <= r < height + 2 && 0 <= c < width + 2 && (r, c) != cur && (r, c) != old(empties[k]) ==>
              houses[r, c] == old(houses[r, c]))
        && Home == old(Home)[old(houses[cur.0, cur.1]) := old(empties[k])]
    }

    twostate lemma MoveKeepsBorder(k: nat)
      requires old(Valid()) && Relocation(k)
      ensures BorderEmpty()
    {
    }

    twostate lemma MoveKeepsEmpties(k: nat)
      requires old(Valid()) && Relocation(k)
      ensures EmptiesExact()
    {
      ghost var before := old(empties);
      var cur := empties[|empties| - 1];
      assert cur !in before;
      assert forall j :: 0 <= j < |empties| - 1 ==> empties[j] == before[if j < k then j else j + 1];
      forall rr, cc | Interior((rr, cc), width, height) && houses[rr, cc] == null
        ensures (rr, cc) in empties
      {
        if (rr, cc) != cur {
          var j :| 0 <= j < |before| && before[j] == (rr, cc);
          assert j != k;
          assert (rr, cc) == empties[if j < k then j else j - 1];
        }
      }
    }

    twostate lemma MoveKeepsHomes(k: nat)
      requires old(Valid()) && Relocation(k)
      ensures HomesExact()
    {
    }

    /** `check_happy`: evaluates every person in row-major order, storing each
        verdict, and counts the happy ones. */
    method CheckHappy() returns (res: Result<Stat>)
      requires Valid()
      modifies Home.Keys
      ensures Valid() && FlagsCurrent()
      ensures res.Err? <==> peopleCnt == 0.0
      ensures res.Err? ==> res.fault == ZeroPopulation
      ensures res.Ok? ==> res.value.count == |HappyPeople()| <= |Home|
      ensures res.Ok? ==> Rate(res.value.count, peopleCnt) == Ok(res.value.fraction)
    {
      // `verdict` holds the verdicts given so far
      ghost var verdict: map<Person, bool> := map[];
      var happies: nat := 0;
      var r := 0;
      while r < height
        invariant 0 <= r <= height
        invariant Valid()
        invariant Judged(verdict, r, 0)
        invariant happies == |Approved(verdict)|
      {
        verdict, happies := CheckRow(r, verdict, happies);
        r := r + 1;
      }
      JudgedAll(verdict);
      SubsetCard(HappyPeople(), Home.Keys);
      var fraction := Rate(happies, peopleCnt);
      if fraction.Err? {
        return Err(fraction.fault);
      }
      res := Ok(Stat(happies, fraction.value));
    }

    /** Every person's `happy` flag is the verdict of `is_happy` at the house
        they now live in. */
    ghost predicate FlagsCurrent()
      reads this, houses, Home.Keys
      requires Valid()
    {
      forall p :: p in Home ==> p.happy == Some(HappyAt(houses, Home[p], p.race))
    }

    /** `verdict` records, for exactly the people living before loop position
        `(r, c)`, the `happy` flag they now carry, which is the value of
        `is_happy` at their house. */
    ghost predicate Judged(verdict: map<Person, bool>, r: int, c: int)
      reads this, houses, Home.Keys
      requires Valid()
    {
      && (forall p :: p in Home && Before(Home[p], r, c) ==> p in verdict)
      && (forall p :: p in verdict ==> p in Home && Before(Home[p], r, c))
      && (forall p :: p in verdict ==> p.happy == Some(verdict[p]) && verdict[p] == HappyAt(houses, Home[p], p.race))
    }

    /** Once every row has been passed, the verdicts cover everybody and the
        approved people are exactly the happy ones. */
    lemma JudgedAll(verdict: map<Person, bool>)
      requires Valid() && Judged(verdict, height, 0)
      ensures FlagsCurrent()
      ensures HappyPeople() == Approved(verdict)
    {
      forall p | p in Home ensures p in verdict {
        assert Interior(Home[p], width, height);
      }
    }

    /** One pass of the inner loop of `check_happy`, over row `r`. */
    method CheckRow(r: int, ghost verdict0: map<Person, bool>, happies0: nat) returns (ghost verdict: map<Person, bool>, happies: nat)
      requires Valid() && 0 <= r < height
      requires Judged(verdict0, r, 0) && happies0 == |Approved(verdict0)|
      modifies Home.Keys
      ensures Valid()
      ensures Judged(verdict, r + 1, 0) && happies == |Approved(verdict)|
    {
      verdict, happies := verdict0, happies0;
      var c := 0;
      while c < width
        invariant 0 <= c <= width
        invariant Valid()
        invariant Judged(verdict, r, c) && happies == |Approved(verdict)|
      {
        var thisPerson := houses[r + 1, c + 1];
        VisitedStep(Home, r, c, thisPerson);
        if thisPerson != null {
          var happy := Visit(r, c);
          ApprovedStep(verdict, thisPerson, happy);
          verdict := verdict[thisPerson := happy];
          if happy {
            happies := happies + 1;
          }
        }
        c := c + 1;
      }
      VisitedRow(Home, r, width, height);
    }

    /** `is_happy` for the occupant of house `(r+1, c+1)`. */
    method Visit(r: int, c: int) returns (happy: bool)
      requires Valid() && 0 <= r < height && 0 <= c < width && houses[r + 1, c + 1] != null
      modifies houses[r + 1, c + 1]
      ensures Valid() && Home == old(Home)
      ensures happy == HappyAt(houses, (r + 1, c + 1), houses[r + 1, c + 1].race)
      ensures houses[r + 1, c + 1].happy == Some(happy)
    {
      happy := houses[r + 1, c + 1].IsHappy((r + 1, c + 1), houses);
    }

    /** `moving_time`: sweeps the live grid in row-major order and moves every
        person met whose `happy` flag is not True. A person moved to a house
        later in the sweep is met, and moved, again. */
    method MovingTime() returns (res: Result<Stat>, ghost trail: seq<Move>)
      requires Valid()
      modifies this, houses
      ensures Valid()
      ensures |empties| == old(|empties|) && Home.Keys == old(Home.Keys)
      ensures res.Err? && res.fault == NoVacancy <==> old(|empties|) == 0 && !old(AllContent())
      ensures res.Err? && res.fault != NoVacancy ==> res.fault == ZeroPopulation && peopleCnt == 0.0
      ensures res.Ok? <==> (old(|empties|) > 0 || old(AllContent())) && peopleCnt != 0.0
      ensures old(AllContent()) ==> empties == old(empties)
      ensures old(AllContent()) ==> forall r, c :: 0 <= r < houses.Length0 && 0 <= c < houses.Length1 ==> houses[r, c] == old(houses[r, c])
      ensures Among(Home, old(Contented())) == Among(old(Home), old(Contented()))
      ensures res.Ok? ==> (res.value.count == 0 <==> old(AllContent()))
      ensures res.Ok? ==> Rate(res.value.count, peopleCnt) == Ok(res.value.fraction)
      ensures res.Ok? ==> Swept(old(Home), old(Contented()), trail, width, height) && Replay(old(Home), trail) == Home
      ensures res.Ok? ==> res.value.count == |trail| <= width * height
      ensures res.Ok? ==> Movers(trail) == old(Home.Keys) - old(Contented())
      ensures res.Ok? ==> old(|Home.Keys - Contented()|) <= res.value.count
    {
      ghost var content := Contented();
      assert AllContent() <==> Home.Keys <= content;
      var moved, stuck;
      moved, stuck, trail := Sweep(content);
      if stuck {
        res := Err(NoVacancy);
      } else {
        SweepDone(old(Home), content, Home, trail, width, height);
        if moved == 0 {
          SameHomesSameGrid();
        }
        var fraction := Rate(moved, peopleCnt);
        res := if fraction.Err? then Err(fraction.fault) else Ok(Stat(moved, fraction.value));
      }
    }

    /** The outer loop of `moving_time`, row by row: on return without
        `stuck` the whole grid has been swept and `trail` logs every move. */
    method Sweep(ghost content: set<Person>) returns (moved: nat, stuck: bool, ghost trail: seq<Move>)
      requires Valid()
      requires FlagsTrue(Home.Keys, content)
      modifies this, houses
      ensures Valid()
      ensures stuck ==> old(|empties|) == 0 && old(Home.Keys) - content != {} && Home == old(Home) && empties == old(empties)
      ensures !stuck ==> Progress(old(empties), empties, content, old(Home), Home, trail, height, 0, width, height) && moved == |trail|
    {
      LogStart(Home, content, width, height);
      moved, stuck, trail := 0, false, [];
      var r := 0;
      while r < height
        invariant 0 <= r <= height
        invariant Valid() && Progress(old(empties), empties, content, old(Home), Home, trail, r, 0, width, height) && moved == |trail|
        invariant FlagsTrue(old(Home).Keys, content)
      {
        moved, stuck, trail := MoveRow(r, moved, old(empties), content, old(Home), trail);
        if stuck {
          return;
        }
        r := r + 1;
      }
    }
  }

  /** `Map(width, height, p_empty, p_races, races)`, including the
      exceptions it raises for a configuration that does not tile the grid. */
  method NewMap(width: nat, height: nat, pEmpty: real, pRaces: seq<real>, races: seq<Race>, perm: seq<nat>)
    returns (res: Result<Map>)
    requires IsPermutation(perm, width * height)
    ensures res.Err? <==> Layout(|races|, pRaces, pEmpty, width, height).Err?
    ensures res.Err? ==> res.fault == Layout(|races|, pRaces, pEmpty, width, height).fault
    ensures res.Ok? ==> (fresh(res.value) && fresh(res.value.houses) && res.value.Valid() && res.value.races == races
      && res.value.width == width && res.value.height == height)
    ensures res.Ok? ==> res.value.peopleCnt == (width * height) as real * (1.0 - pEmpty)
    ensures res.Ok? ==> forall r, c :: Interior((r, c), width, height) ==>
      Resident(res.value.houses[r, c], races, ShuffledSlot(Layout(|races|, pRaces, pEmpty, width, height).value, perm, width, height, r, c))
    ensures res.Ok? ==> forall p :: p in res.value.Home ==> fresh(p) && p.happy == None
    ensures res.Ok? ==> forall i, j :: 0 <= i < j < |res.value.empties| ==> Precedes(res.value.empties[i], res.value.empties[j])
    ensures res.Ok? ==> |res.value.empties| == Share(pEmpty, width * height)
    ensures res.Ok? ==> width * height - |res.value.empties| == HeadCount(pRaces, |races|, width * height)
  {
    var layout := Layout(|races|, pRaces, pEmpty, width, height);
    if layout.Err? {
      return Err(layout.fault);
    }
    var m := new Map(width, height, pEmpty, pRaces, races, perm);
    res := Ok(m);
  }
}
