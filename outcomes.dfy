/** Small value types shared by the whole model: optional values, the
    failures the simulation can run into, and per-round statistics. */
module Outcomes {

  datatype Option<T> = None | Some(value: T)

  /** The ways the simulation stops with an exception. */
  datatype Fault =
    | MissingProportion  // `p_races[i]` indexed past its end while building the map
    | ShapeMismatch      // the slot vector does not reshape to height x width
    | NoVacancy          // `move_empty` drawing from an empty `empties` list
    | ZeroPopulation     // dividing by a `people_cnt` of zero

  datatype Result<T> = Ok(value: T) | Err(fault: Fault)

  /** A count of people and that count as a fraction of the nominal population. */
  datatype Stat = Stat(count: nat, fraction: real)

  /** `count / people_cnt`, which fails when the nominal population is zero. */
  function Rate(count: nat, peopleCnt: real): (r: Result<real>)
    ensures r.Err? <==> peopleCnt == 0.0
    ensures r.Err? ==> r.fault == ZeroPopulation
    ensures r.Ok? ==> r.value * peopleCnt == count as real
  {
    if peopleCnt == 0.0 then Err(ZeroPopulation) else Ok(count as real / peopleCnt)
  }
}
