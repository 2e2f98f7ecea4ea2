/** The row-major sweeps over the interior of the grid, and the log of the
    relocations `moving_time` makes during its sweep. */
module Sweeps {
  import opened Outcomes
  import opened Agents

  /** `cell` is a house of a `height x width` grid, in padded coordinates. */
  predicate Interior(cell: Cell, width: nat, height: nat) {
    1 <= cell.0 <= height && 1 <= cell.1 <= width
  }

  /** `a` strictly precedes `b` in row-major order. */
  predicate Precedes(a: Cell, b: Cell) {
    a.0 < b.0 || (a.0 == b.0 && a.1 < b.1)
  }

  /** Position of interior house `(r, c)` in the row-major slot vector
      laid out by `reshape`. */
  function SlotOf(r: int, c: int, width: nat): int {
    (r - 1) * width + (c - 1)
  }

  lemma {:induction false} MulMono(a: int, b: int, w: nat)
    requires a <= b
    ensures a * w <= b * w
    decreases b - a
  {
    if a < b {
      MulMono(a + 1, b, w);
      assert (a + 1) * w == a * w + w;
    }
  }

  lemma SlotInRange(r: int, c: int, width: nat, height: nat)
    requires 1 <= r <= height && 1 <= c <= width
    ensures 0 <= SlotOf(r, c, width) < width * height
  {
    MulMono(0, r - 1, width);
    MulMono(r, height, width);
    assert r * width == (r - 1) * width + width;
  }

  /** The row-major sweeps have visited `cell` before reaching loop row `r`,
      column `c` (both counted from zero, as in `range(height)`). */
  predicate Before(cell: Cell, r: int, c: int) {
    cell.0 - 1 < r || (cell.0 - 1 == r && cell.1 - 1 < c)
  }

  /** The houses of the people of `s`, as recorded in `home`. */
  function Among(home: map<Person, Cell>, s: set<Person>): map<Person, Cell> {
    map p | p in home && p in s :: home[p]
  }

  /** One relocation made by `move_empty`: `who` leaves house `from` for
      house `to`. */
  datatype Move = Move(who: Person, from: Cell, to: Cell)

  /** Where everybody lives once the moves of `trail` are made, in order,
      starting from `home`. */
  function Replay(home: map<Person, Cell>, trail: seq<Move>): map<Person, Cell>
    decreases |trail|
  {
    if trail == [] then home
    else
      var last := trail[|trail| - 1];
      Replay(home, trail[..|trail| - 1])[last.who := last.to]
  }

  /** Nobody lives at `cell` according to `home`. */
  predicate Vacant(home: map<Person, Cell>, cell: Cell) {
    forall q :: q in home ==> home[q] != cell
  }

  /** Every move of `trail` takes its person from the house they live in at
      that point to another house where nobody lives. */
  predicate Lawful(home: map<Person, Cell>, trail: seq<Move>)
    decreases |trail|
  {
    trail == [] ||
    var n := |trail| - 1;
    var before := Replay(home, trail[..n]);
    && Lawful(home, trail[..n])
    && trail[n].who in before && before[trail[n].who] == trail[n].from
    && trail[n].to != trail[n].from && Vacant(before, trail[n].to)
  }

  /** The people `trail` moves. */
  function Movers(trail: seq<Move>): set<Person> {
    set i | 0 <= i < |trail| :: trail[i].who
  }

  /** A person who moves several times counts once among the movers, so
      there are never more movers than moves. */
  lemma {:induction false} MoversBound(trail: seq<Move>)
    ensures |Movers(trail)| <= |trail|
  {
    if trail != [] {
      var n := |trail| - 1;
      MoversBound(trail[..n]);
      assert Movers(trail) == Movers(trail[..n]) + {trail[n].who} by {
        forall i | 0 <= i < n ensures trail[..n][i] == trail[i] { }
      }
    }
  }

  /** The departures `trail` logs: who left which house. */
  function Departures(trail: seq<Move>): set<(Person, Cell)> {
    set i | 0 <= i < |trail| :: (trail[i].who, trail[i].from)
  }

  /** Appending a lawful move keeps the trail lawful, updates the replayed
      homes by that move, adds its person to the movers and its departure to
      the departures. */
  lemma LogStep(home: map<Person, Cell>, trail: seq<Move>, m: Move)
    requires Lawful(home, trail)
    requires m.who in Replay(home, trail) && Replay(home, trail)[m.who] == m.from
    requires m.to != m.from && Vacant(Replay(home, trail), m.to)
    ensures Lawful(home, trail + [m])
    ensures Replay(home, trail + [m]) == Replay(home, trail)[m.who := m.to]
    ensures Movers(trail + [m]) == Movers(trail) + {m.who}
    ensures Departures(trail + [m]) == Departures(trail) + {(m.who, m.from)}
  {
    assert (trail + [m])[..|trail|] == trail;
    assert forall i :: 0 <= i < |trail| ==> (trail + [m])[i] == trail[i];
  }

  /** A person with a logged departure is one of the movers. */
  lemma DepartureMover(trail: seq<Move>, p: Person, h: Cell)
    requires (p, h) in Departures(trail)
    ensures p in Movers(trail)
  {
    var i :| 0 <= i < |trail| && (trail[i].who, trail[i].from) == (p, h);
  }

  /** Somebody the log never moves is still at home. */
  lemma {:induction false} Unmoved(home: map<Person, Cell>, trail: seq<Move>, p: Person)
    requires p in home && p !in Movers(trail)
    ensures p in Replay(home, trail) && Replay(home, trail)[p] == home[p]
  {
    if trail != [] {
      var n := |trail| - 1;
      assert forall k :: 0 <= k < n ==> trail[..n][k] == trail[k];
      Unmoved(home, trail[..n], p);
    }
  }

  /** The first logged move of a person leaves their starting house. */
  lemma {:induction false} FirstDeparture(home: map<Person, Cell>, trail: seq<Move>, p: Person)
    requires Lawful(home, trail) && p in home && p in Movers(trail)
    ensures (p, home[p]) in Departures(trail)
  {
    var n := |trail| - 1;
    var prefix := trail[..n];
    assert forall k :: 0 <= k < n ==> prefix[k] == trail[k];
    if p in Movers(prefix) {
      FirstDeparture(home, prefix, p);
    } else {
      Unmoved(home, prefix, p);
      assert (trail[n].who, trail[n].from) in Departures(trail);
    }
  }

  /** After the move `trail[i]` its person stays at its destination until
      the log shows them leaving it. */
  lemma {:induction false} Arrived(home: map<Person, Cell>, trail: seq<Move>, i: int)
    requires Lawful(home, trail) && 0 <= i < |trail|
    requires (trail[i].who, trail[i].to) !in Departures(trail)
    ensures trail[i].who in Replay(home, trail) && Replay(home, trail)[trail[i].who] == trail[i].to
  {
    var n := |trail| - 1;
    var prefix := trail[..n];
    assert (trail[n].who, trail[n].from) in Departures(trail);
    if i < n {
      assert forall k :: 0 <= k < n ==> prefix[k] == trail[k];
      Arrived(home, prefix, i);
    }
  }

  /** The moves of `trail` are sound for the sweep of `moving_time` on
      reaching loop row `r`, column `c`, of a `height x width` grid, from
      the houses `home0` to `home`; `content` holds the people whose flag is
      True. The moves are lawful and replay to `home`. Each moved a person
      outside `content` between interior houses, from a house the sweep has
      passed, and their starting houses come strictly in row-major order. */
  ghost predicate Traced(home0: map<Person, Cell>, content: set<Person>, home: map<Person, Cell>, trail: seq<Move>, r: int, c: int, width: nat, height: nat) {
    && Lawful(home0, trail) && Replay(home0, trail) == home
    && (forall i :: 0 <= i < |trail| ==>
          && trail[i].who in home0 && trail[i].who !in content && Before(trail[i].from, r, c)
          && Interior(trail[i].from, width, height) && Interior(trail[i].to, width, height))
    && (forall i :: 0 < i < |trail| ==> Precedes(trail[i - 1].from, trail[i].from))
  }

  /** The log misses no move of the sweep up to loop row `r`, column `c`:
      everybody outside `content` whose starting house has been passed left
      it, and whoever was moved to a house ahead of the sweep that it has
      since passed left that house too. */
  ghost predicate Complete(home0: map<Person, Cell>, content: set<Person>, trail: seq<Move>, r: int, c: int) {
    && (forall p :: p in home0 && p !in content && Before(home0[p], r, c) ==> (p, home0[p]) in Departures(trail))
    && (forall i :: 0 <= i < |trail| && Precedes(trail[i].from, trail[i].to) && Before(trail[i].to, r, c) ==>
          (trail[i].who, trail[i].to) in Departures(trail))
  }

  /** The moves of `trail` are exactly what the sweep of `moving_time` has
      done on reaching loop row `r`, column `c`. */
  ghost predicate Logged(home0: map<Person, Cell>, content: set<Person>, home: map<Person, Cell>, trail: seq<Move>, r: int, c: int, width: nat, height: nat) {
    Traced(home0, content, home, trail, r, c, width, height) && Complete(home0, content, trail, r, c)
  }

  /** The bookkeeping of the sweep of `moving_time` on reaching loop row
      `r`, column `c`, from the empty houses `empties0` and the houses
      `home0` of the start to `empties` and `home`: the number of empty
      houses and the people are unchanged, the empty houses are untouched
      until somebody moves, nobody moves when there is no empty house, and
      `trail` logs every move so far. */
  ghost predicate Progress(empties0: seq<Cell>, empties: seq<Cell>, content: set<Person>, home0: map<Person, Cell>, home: map<Person, Cell>,
                           trail: seq<Move>, r: int, c: int, width: nat, height: nat) {
    && |empties| == |empties0| && home.Keys == home0.Keys
    && (trail == [] ==> empties == empties0)
    && (|empties0| == 0 ==> trail == [])
    && Logged(home0, content, home, trail, r, c, width, height)
  }

  /** `trail` is the log of a whole sweep of `moving_time` over a
      `height x width` grid from the houses `home0`, where `content` holds
      the people whose flag is True. Each move is lawful and moves a person
      outside `content` away from an interior house. The starting houses of
      the moves come strictly in row-major order, so no house is left twice.
      Everybody outside `content` leaves their starting house, and whoever
      is moved to a house the sweep has yet to reach leaves it again. */
  ghost predicate Swept(home0: map<Person, Cell>, content: set<Person>, trail: seq<Move>, width: nat, height: nat) {
    && Lawful(home0, trail)
    && (forall i :: 0 <= i < |trail| ==> trail[i].who in home0 && trail[i].who !in content && Interior(trail[i].from, width, height))
    && (forall i, j :: 0 <= i < j < |trail| ==> Precedes(trail[i].from, trail[j].from))
    && (forall p :: p in home0 && p !in content ==> (p, home0[p]) in Departures(trail))
    && (forall i :: 0 <= i < |trail| && Precedes(trail[i].from, trail[i].to) ==> (trail[i].who, trail[i].to) in Departures(trail))
  }

  /** Before the sweep nobody has moved. */
  lemma LogStart(home0: map<Person, Cell>, content: set<Person>, width: nat, height: nat)
    requires forall p :: p in home0 ==> Interior(home0[p], width, height)
    ensures Logged(home0, content, home0, [], 0, 0, width, height)
  {
  }

  /** With no empty house at the start nobody can have moved. */
  lemma LogStuck(empties0: seq<Cell>, empties: seq<Cell>, content: set<Person>, home0: map<Person, Cell>, home: map<Person, Cell>,
                 trail: seq<Move>, r: int, c: int, width: nat, height: nat)
    requires Progress(empties0, empties, content, home0, home, trail, r, c, width, height) && |empties0| == 0
    ensures trail == [] && empties == empties0 && home == home0
  {
  }

  /** Passing house `(r+1, c+1)`, whose only possible occupant is `x`:
      a person outside `content` whose starting house that is has left it,
      unless it is `x`, still there. */
  lemma PassStart(home0: map<Person, Cell>, content: set<Person>, home: map<Person, Cell>, trail: seq<Move>, r: int, c: int, x: Person?)
    requires Lawful(home0, trail) && Replay(home0, trail) == home
    requires Complete(home0, content, trail, r, c)
    requires forall q :: q in home && home[q] == (r + 1, c + 1) ==> q == x
    ensures forall p :: p in home0 && p !in content && Before(home0[p], r, c + 1) ==>
      (p, home0[p]) in Departures(trail) || (p == x && home0[p] == (r + 1, c + 1) && p in home && home[p] == home0[p])
  {
    forall p | p in home0 && p !in content && Before(home0[p], r, c + 1) && (p, home0[p]) !in Departures(trail)
      ensures p == x && home0[p] == (r + 1, c + 1) && p in home && home[p] == home0[p]
    {
      if p in Movers(trail) {
        FirstDeparture(home0, trail, p);
      } else {
        Unmoved(home0, trail, p);
      }
    }
  }

  /** Passing house `(r+1, c+1)`, whose only possible occupant is `x`:
      whoever was moved there ahead of the sweep has left it, unless it is
      `x`, still there. */
  lemma PassArrivals(home0: map<Person, Cell>, content: set<Person>, home: map<Person, Cell>, trail: seq<Move>, r: int, c: int, x: Person?)
    requires Lawful(home0, trail) && Replay(home0, trail) == home
    requires Complete(home0, content, trail, r, c)
    requires forall q :: q in home && home[q] == (r + 1, c + 1) ==> q == x
    ensures forall i :: 0 <= i < |trail| && Precedes(trail[i].from, trail[i].to) && Before(trail[i].to, r, c + 1) ==>
      (trail[i].who, trail[i].to) in Departures(trail) || (trail[i].who == x && trail[i].to == (r + 1, c + 1))
  {
    forall i | 0 <= i < |trail| && Precedes(trail[i].from, trail[i].to) && Before(trail[i].to, r, c + 1) && (trail[i].who, trail[i].to) !in Departures(trail)
      ensures trail[i].who == x && trail[i].to == (r + 1, c + 1)
    {
      Arrived(home0, trail, i);
    }
  }

  /** Moving the occupant `x` of house `(r+1, c+1)` to `dest` keeps the
      log sound one house further on. */
  lemma TracedMove(home0: map<Person, Cell>, content: set<Person>, home: map<Person, Cell>, trail: seq<Move>,
                   r: int, c: int, width: nat, height: nat, x: Person, dest: Cell)
    requires Traced(home0, content, home, trail, r, c, width, height) && home.Keys == home0.Keys
    requires 0 <= r < height && 0 <= c < width
    requires x in home && home[x] == (r + 1, c + 1) && x !in content
    requires dest != (r + 1, c + 1) && Vacant(home, dest) && Interior(dest, width, height)
    ensures Traced(home0, content, home[x := dest], trail + [Move(x, (r + 1, c + 1), dest)], r, c + 1, width, height)
    ensures Departures(trail + [Move(x, (r + 1, c + 1), dest)]) == Departures(trail) + {(x, (r + 1, c + 1))}
  {
    var m := Move(x, (r + 1, c + 1), dest);
    var next := trail + [m];
    LogStep(home0, trail, m);
    forall i | 0 <= i < |next|
      ensures && next[i].who in home0 && next[i].who !in content && Before(next[i].from, r, c + 1)
              && Interior(next[i].from, width, height) && Interior(next[i].to, width, height)
    {
      if i < |trail| {
        assert next[i] == trail[i];
      }
    }
    forall i | 0 < i < |next|
      ensures Precedes(next[i - 1].from, next[i].from)
    {
      assert next[i - 1] == trail[i - 1];
      if i < |trail| {
        assert next[i] == trail[i];
      }
    }
  }

  /** Moving the occupant `x` of house `(r+1, c+1)` keeps the log complete
      one house further on. */
  lemma CompleteMove(home0: map<Person, Cell>, content: set<Person>, home: map<Person, Cell>, trail: seq<Move>,
                     r: int, c: int, x: Person, dest: Cell)
    requires Lawful(home0, trail) && Replay(home0, trail) == home
    requires Complete(home0, content, trail, r, c)
    requires forall q :: q in home && home[q] == (r + 1, c + 1) ==> q == x
    requires Departures(trail + [Move(x, (r + 1, c + 1), dest)]) == Departures(trail) + {(x, (r + 1, c + 1))}
    ensures Complete(home0, content, trail + [Move(x, (r + 1, c + 1), dest)], r, c + 1)
  {
    var next := trail + [Move(x, (r + 1, c + 1), dest)];
    PassStart(home0, content, home, trail, r, c, x);
    PassArrivals(home0, content, home, trail, r, c, x);
    assert forall i :: 0 <= i < |trail| ==> next[i] == trail[i];
  }

  /** The sweep moves the occupant `x` of house `(r+1, c+1)`, whose flag is
      not True, to the vacant interior house `dest`; `move_empty` leaves as
      many empty houses (`after`) as there were. */
  lemma LogMove(empties0: seq<Cell>, empties: seq<Cell>, after: seq<Cell>, content: set<Person>, home0: map<Person, Cell>,
                home: map<Person, Cell>, moved: map<Person, Cell>, trail: seq<Move>, next: seq<Move>,
                r: int, c: int, width: nat, height: nat, x: Person, dest: Cell)
    requires Progress(empties0, empties, content, home0, home, trail, r, c, width, height)
    requires 0 <= r < height && 0 <= c < width
    requires x in home && home[x] == (r + 1, c + 1) && x !in content
    requires forall q :: q in home && home[q] == (r + 1, c + 1) ==> q == x
    requires dest != (r + 1, c + 1) && Vacant(home, dest) && Interior(dest, width, height)
    requires |after| == |empties| > 0
    requires moved == home[x := dest] && next == trail + [Move(x, (r + 1, c + 1), dest)]
    ensures Progress(empties0, after, content, home0, moved, next, r, c + 1, width, height)
  {
    TracedMove(home0, content, home, trail, r, c, width, height, x, dest);
    CompleteMove(home0, content, home, trail, r, c, x, dest);
  }

  /** The sweep passes house `(r+1, c+1)` without moving anybody: it is
      empty, or its occupant `x` has flag True. */
  lemma LogStay(empties0: seq<Cell>, empties: seq<Cell>, content: set<Person>, home0: map<Person, Cell>, home: map<Person, Cell>,
                trail: seq<Move>, r: int, c: int, width: nat, height: nat, x: Person?)
    requires Progress(empties0, empties, content, home0, home, trail, r, c, width, height)
    requires forall q :: q in home && home[q] == (r + 1, c + 1) ==> q == x
    requires x != null ==> x in content
    ensures Progress(empties0, empties, content, home0, home, trail, r, c + 1, width, height)
  {
    PassStart(home0, content, home, trail, r, c, x);
    PassArrivals(home0, content, home, trail, r, c, x);
  }

  /** Nobody in `content` has moved. */
  lemma LogKeepsContent(home0: map<Person, Cell>, content: set<Person>, home: map<Person, Cell>, trail: seq<Move>, r: int, c: int, width: nat, height: nat)
    requires Logged(home0, content, home, trail, r, c, width, height) && home.Keys == home0.Keys
    ensures Among(home, content) == Among(home0, content)
  {
    forall p | p in content && p in home0
      ensures p in home && home[p] == home0[p]
    {
      assert p !in Movers(trail);
      Unmoved(home0, trail, p);
    }
  }

  /** `trail` extends `trail0` by moves that start in row `r` of the
      loop, house row `r + 1`. */
  predicate RowMoves(trail0: seq<Move>, trail: seq<Move>, r: int) {
    && |trail0| <= |trail|
    && (forall i :: 0 <= i < |trail0| ==> trail[i] == trail0[i])
    && (forall i :: |trail0| <= i < |trail| ==> trail[i].from.0 == r + 1)
  }

  /** `next` is `trail`, or `trail` and one more move, from house `from`. */
  predicate Extends(trail: seq<Move>, next: seq<Move>, from: Cell) {
    next == trail || (|next| == |trail| + 1 && next[..|trail|] == trail && next[|trail|].from == from)
  }

  /** A house of row `r` adds at most one move, which starts in that row. */
  lemma RowMovesStep(trail0: seq<Move>, trail: seq<Move>, next: seq<Move>, r: int, c: int)
    requires RowMoves(trail0, trail, r) && Extends(trail, next, (r + 1, c + 1))
    ensures RowMoves(trail0, next, r)
  {
    if next != trail {
      assert forall i :: 0 <= i < |trail| ==> next[i] == next[..|trail|][i];
    }
  }

  /** The end of a row of the sweep is the start of the next. */
  lemma LogRow(empties0: seq<Cell>, empties: seq<Cell>, content: set<Person>, home0: map<Person, Cell>, home: map<Person, Cell>,
               trail: seq<Move>, r: int, width: nat, height: nat)
    requires Progress(empties0, empties, content, home0, home, trail, r, width, width, height)
    requires forall p :: p in home0 ==> Interior(home0[p], width, height)
    ensures Progress(empties0, empties, content, home0, home, trail, r + 1, 0, width, height)
  {
  }

  /** A later house in row-major order has a later slot. */
  lemma SlotOrder(a: Cell, b: Cell, width: nat)
    requires Precedes(a, b) && 1 <= a.1 <= width && 1 <= b.1 <= width
    ensures SlotOf(a.0, a.1, width) < SlotOf(b.0, b.1, width)
  {
    if a.0 < b.0 {
      MulMono(a.0, b.0 - 1, width);
    }
  }

  /** Starting houses in strictly increasing row-major order are in
      increasing order pairwise, and at most `width * height` of them are
      interior. */
  lemma {:induction false} Ordered(trail: seq<Move>, width: nat, height: nat)
    requires forall i :: 0 <= i < |trail| ==> Interior(trail[i].from, width, height)
    requires forall i :: 0 < i < |trail| ==> Precedes(trail[i - 1].from, trail[i].from)
    ensures forall i, j :: 0 <= i < j < |trail| ==> Precedes(trail[i].from, trail[j].from)
    ensures trail != [] ==> |trail| - 1 <= SlotOf(trail[|trail| - 1].from.0, trail[|trail| - 1].from.1, width)
    ensures |trail| <= width * height
  {
    if trail != [] {
      var n := |trail| - 1;
      var prefix := trail[..n];
      assert forall k :: 0 <= k < n ==> prefix[k] == trail[k];
      Ordered(prefix, width, height);
      SlotInRange(trail[n].from.0, trail[n].from.1, width, height);
      if n > 0 {
        SlotOrder(trail[n - 1].from, trail[n].from, width);
      }
    }
  }

  /** After the whole sweep the log is that of a complete sweep with at
      most `width * height` moves; the movers are exactly the people outside
      `content`, there are at least as many moves as movers, nobody in
      `content` has moved, and there was no move at all exactly when
      everybody is in `content`. */
  lemma SweepDone(home0: map<Person, Cell>, content: set<Person>, home: map<Person, Cell>, trail: seq<Move>, width: nat, height: nat)
    requires Logged(home0, content, home, trail, height, 0, width, height) && home.Keys == home0.Keys
    requires forall p :: p in home0 ==> Interior(home0[p], width, height)
    ensures Swept(home0, content, trail, width, height)
    ensures |trail| <= width * height
    ensures Movers(trail) == home0.Keys - content
    ensures |home0.Keys - content| <= |trail|
    ensures Among(home, content) == Among(home0, content)
    ensures trail == [] <==> home0.Keys <= content
    ensures trail == [] ==> home == home0
  {
    MoversBound(trail);
    SweptAll(home0, content, home, trail, width, height);
    LogKeepsContent(home0, content, home, trail, height, 0, width, height);
    forall p | p in home0 && p !in content
      ensures p in Movers(trail)
    {
      DepartureMover(trail, p, home0[p]);
    }
  }

  /** Once the sweep has passed the last row, every interior house lies
      behind it, so the log is that of a complete sweep. */
  lemma SweptAll(home0: map<Person, Cell>, content: set<Person>, home: map<Person, Cell>, trail: seq<Move>, width: nat, height: nat)
    requires Logged(home0, content, home, trail, height, 0, width, height)
    requires forall p :: p in home0 ==> Interior(home0[p], width, height)
    ensures Swept(home0, content, trail, width, height)
    ensures |trail| <= width * height
  {
    Ordered(trail, width, height);
  }
}
