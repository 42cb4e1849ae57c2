/** Entities shared by the campaign components. */
module CampaignTypes {
  datatype Option<+T> = None | Some(value: T) {
    function GetOr(default: T): T { if Some? then value else default }
  }

  datatype Direction = Minimize | Maximize
  datatype Objective = Objective(name: string, direction: Direction)

  datatype Value = Number(n: real) | Text(s: string)

  /** The id is opaque here: a hash of the variables. */
  datatype DesignPoint = DesignPoint(id: string, variables: map<string, Value>)

  datatype EvaluationResult = EvaluationResult(
    designPoint: DesignPoint, objectives: map<string, real>, feasible: bool, fidelity: nat)

  /** `r.objectives[o.name] ?? 0` */
  function Coordinate(o: Objective, r: EvaluationResult): real {
    if o.name in r.objectives then r.objectives[o.name] else 0.0
  }

  /** For crowding and hypervolume a missing objective counts as one of value 0; other objectives do not matter. */
  lemma MissingCountsAsZero(o: Objective, r: EvaluationResult, other: string, v: real)
    ensures o.name !in r.objectives ==> Coordinate(o, r) == Coordinate(o, r.(objectives := r.objectives[o.name := 0.0]))
    ensures Coordinate(o, r.(objectives := r.objectives[o.name := v])) == v
    ensures other != o.name ==> Coordinate(o, r.(objectives := r.objectives[other := v])) == Coordinate(o, r)
  {}

  datatype ParetoFront = ParetoFront(
    rank1: seq<EvaluationResult>, allRanks: seq<seq<EvaluationResult>>, hypervolume: Option<real>)

  datatype CampaignPhase =
    | Idle | Sampling
    | EvaluatingL0 | ParetoReadyL0
    | EscalatingL1 | ParetoReadyL1
    | EscalatingL2 | ParetoReadyL2
    | Reporting | Done | Failed

  /** VALID_TRANSITIONS */
  function ValidTransitions(phase: CampaignPhase): set<CampaignPhase> {
    match phase
    case Idle => {Sampling, Failed}
    case Sampling => {EvaluatingL0, Failed}
    case EvaluatingL0 => {ParetoReadyL0, Failed}
    case ParetoReadyL0 => {EscalatingL1, Reporting, Done, Failed}
    case EscalatingL1 => {ParetoReadyL1, Failed}
    case ParetoReadyL1 => {EscalatingL2, Reporting, Done, Failed}
    case EscalatingL2 => {ParetoReadyL2, Failed}
    case ParetoReadyL2 => {Reporting, Done, Failed}
    case Reporting => {Done, Failed}
    case Done => {}
    case Failed => {Sampling}
  }

  /** The way a campaign goes, if nothing fails. */
  function Place(phase: CampaignPhase): int {
    match phase
    case Idle => 0
    case Sampling => 1
    case EvaluatingL0 => 2
    case ParetoReadyL0 => 3
    case EscalatingL1 => 4
    case ParetoReadyL1 => 5
    case EscalatingL2 => 6
    case ParetoReadyL2 => 7
    case Reporting => 8
    case Done => 9
    case Failed => -1
  }

  /**
   * A phase may go one place on, from a Pareto checkpoint also to the report or the end, fail unless it is
   * the end or has failed already, and after a failure start again by sampling; and nothing else.
   */
  lemma TransitionsAreForward(phase: CampaignPhase, to: CampaignPhase)
    ensures to in ValidTransitions(phase) <==>
              || (phase != Failed && Place(to) == Place(phase) + 1)
              || (phase in {ParetoReadyL0, ParetoReadyL1, ParetoReadyL2} && to in {Reporting, Done})
              || (phase !in {Done, Failed} && to == Failed)
              || (phase == Failed && to == Sampling)
  {}
}
