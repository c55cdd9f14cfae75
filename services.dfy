/**
 * ResultsService (runners/services/resultsService.go): validation of a new
 * race result, its insertion, and the personal-best / season-best rules
 * applied on create and on delete.
 *
 * The service's behaviour is stated twice: as functions on an abstract store
 * (Validate, ImproveBest, ApplyBests, Create, Delete), about which the lemmas
 * of ServiceProperties are proved, and as the class ResultsService, whose
 * methods take the same steps as the Go code, one early return at a time, and
 * are proved to agree with those functions.
 */
module Services {
  import opened Wrappers
  import opened Models
  import opened RaceTime
  import opened Repositories

  const StatusBadRequest := 400
  const StatusNotFound := 404
  const StatusInternalServerError := 500

  /**
   * What a service call returns: a value, an error response with its HTTP
   * status, or a Go run-time panic (slicing a too-short string, dereferencing
   * a nil runner).
   */
  datatype Outcome<T> = Done(value: T) | Failed(status: int) | Panicked

  /**
   * The error, given by its status, that each store call returns if it fails;
   * None where the call succeeds. The service hands such an error back
   * unchanged.
   */
  datatype Faults = Faults(
    insertResult: Option<int>,
    deleteResult: Option<int>,
    getRunner: Option<int>,
    personalBestQuery: Option<int>,
    seasonBestQuery: Option<int>,
    updateRunner: Option<int>)

  const NoFaults := Faults(None, None, None, None, None, None)

  /** The two repositories: the results table and the runners table, keyed by runner identifier. */
  datatype Store = Store(results: seq<Result>, runners: map<string, Runner>)

  predicate StoreValid(st: Store)
  {
    TimesWellFormed(st.results) && UniqueIds(st.results)
  }

  // ---------------------------------------------------------------------
  // Validation (CreateResult, lines 26-68)
  // ---------------------------------------------------------------------

  /** The checks CreateResult makes before touching any store. */
  datatype Check = RunnerIdCheck | RaceResultCheck | LocationCheck | PositionCheck | YearCheck | ParseCheck

  /** The order in which the checks are made. */
  const CheckOrder: seq<Check> := [RunnerIdCheck, RaceResultCheck, LocationCheck, PositionCheck, YearCheck, ParseCheck]

  /** Whether `c` rejects `r`. The parse check rejects a string of eight or more characters that does not parse. */
  predicate Fails(c: Check, r: Result, currentYear: int)
  {
    match c
    case RunnerIdCheck => r.runnerId == ""
    case RaceResultCheck => r.raceResult == ""
    case LocationCheck => r.location == ""
    case PositionCheck => r.position < 0
    case YearCheck => r.year < 0 || r.year > currentYear
    case ParseCheck => |r.raceResult| >= 8 && ParseRaceResult(r.raceResult).None?
  }

  datatype Validation = Accepted | Rejected(failed: Check) | Crashed

  /** The validation chain, first failure wins; a race result shorter than eight characters crashes the parser. */
  function Validate(r: Result, currentYear: int): (v: Validation)
    ensures v.Accepted? ==> WellFormed(r.raceResult)
  {
    if r.runnerId == "" then Rejected(RunnerIdCheck)
    else if r.raceResult == "" then Rejected(RaceResultCheck)
    else if r.location == "" then Rejected(LocationCheck)
    else if r.position < 0 then Rejected(PositionCheck)
    else if r.year < 0 || r.year > currentYear then Rejected(YearCheck)
    else if |r.raceResult| < 8 then Crashed
    else if ParseRaceResult(r.raceResult).None? then Rejected(ParseCheck)
    else Accepted
  }

  // ---------------------------------------------------------------------
  // Best-time update on create (lines 89-122)
  // ---------------------------------------------------------------------

  /**
   * The rule applied to a stored best time `best` and a new, parsed race time
   * `candidate`: an empty best becomes the candidate; a stored best is
   * replaced only by a strictly faster candidate. A stored best that does not
   * parse is a server error (500); one shorter than eight characters crashes
   * the parser.
   */
  function ImproveBest(best: string, candidate: string): (r: Outcome<string>)
    requires WellFormed(candidate)
    ensures best == "" ==> r == Done(candidate)
    ensures r.Failed? <==> best != "" && |best| >= 8 && !WellFormed(best)
    ensures r.Failed? ==> r.status == StatusInternalServerError
    ensures r.Panicked? <==> best != "" && |best| < 8
    ensures r.Done? && best != "" ==>
              WellFormed(best) && WellFormed(r.value)
              && (if Seconds(candidate) < Seconds(best) then r.value == candidate else r.value == best)
  {
    if best == "" then Done(candidate)
    else if |best| < 8 then Panicked
    else match ParseRaceResult(best)
      case None => Failed(StatusInternalServerError)
      case Some(b) => if Seconds(candidate) < b then Done(candidate) else Done(best)
  }

  /**
   * The runner record after a validated result: the personal best follows
   * ImproveBest; the season best follows it too, but only for a result from
   * the current year. Line 118 assigns the parsed duration to the string
   * field; the model stores the race-time string, as line 108 does.
   */
  function ApplyBests(runner: Runner, result: Result, currentYear: int): (r: Outcome<Runner>)
    requires WellFormed(result.raceResult)
    ensures r.Failed? ==> r.status == StatusInternalServerError
    ensures r.Done? ==>
              ImproveBest(runner.personalBest, result.raceResult) == Done(r.value.personalBest)
              && r.value.name == runner.name
              && (result.year == currentYear ==>
                    ImproveBest(runner.seasonBest, result.raceResult) == Done(r.value.seasonBest))
              && (result.year != currentYear ==> r.value.seasonBest == runner.seasonBest)
    ensures r.Done? <==>
              ImproveBest(runner.personalBest, result.raceResult).Done?
              && (result.year == currentYear ==> ImproveBest(runner.seasonBest, result.raceResult).Done?)
    ensures r.Panicked? <==>
              ImproveBest(runner.personalBest, result.raceResult).Panicked?
              || (result.year == currentYear && ImproveBest(runner.personalBest, result.raceResult).Done?
                  && ImproveBest(runner.seasonBest, result.raceResult).Panicked?)
  {
    match ImproveBest(runner.personalBest, result.raceResult)
    case Failed(status) => Failed(status)
    case Panicked => Panicked
    case Done(pb) =>
      var withPersonal := runner.(personalBest := pb);
      if result.year != currentYear then Done(withPersonal)
      else match ImproveBest(runner.seasonBest, result.raceResult)
        case Failed(status) => Failed(status)
        case Panicked => Panicked
        case Done(sb) => Done(withPersonal.(seasonBest := sb))
  }

  // ---------------------------------------------------------------------
  // CreateResult and DeleteResult on the abstract store
  // ---------------------------------------------------------------------

  /**
   * CreateResult (lines 25-129): validate; insert the result under the
   * store-assigned identifier `newId`; fetch the runner; apply the best-time
   * rules; write the runner back; return the stored record. Every error after
   * the insert leaves the inserted result in place.
   */
  function Create(st: Store, result: Result, currentYear: int, newId: string, faults: Faults): (r: (Outcome<Result>, Store))
    ensures Validate(result, currentYear) != Accepted ==> r.1 == st
    ensures r.1.results == st.results || r.1.results == st.results + [result.(id := newId)]
    ensures r.0.Done? ==> r.0.value == result.(id := newId) && r.1.results == st.results + [r.0.value]
    ensures r.0.Done? ==> r.1.runners.Keys == st.runners.Keys
    ensures !r.0.Done? ==> r.1.runners == st.runners
  {
    match Validate(result, currentYear)
    case Rejected(_) => (Failed(StatusBadRequest), st)
    case Crashed => (Panicked, st)
    case Accepted =>
      if faults.insertResult.Some? then (Failed(faults.insertResult.value), st)
      else
        var stored := result.(id := newId);
        var inserted := st.(results := st.results + [stored]);
        if faults.getRunner.Some? then (Failed(faults.getRunner.value), inserted)
        else if result.runnerId !in st.runners then (Failed(StatusNotFound), inserted)
        else match ApplyBests(st.runners[result.runnerId], result, currentYear)
          case Failed(status) => (Failed(status), inserted)
          case Panicked => (Panicked, inserted)
          case Done(runner) =>
            if faults.updateRunner.Some? then (Failed(faults.updateRunner.value), inserted)
            else (Done(stored), inserted.(runners := st.runners[result.runnerId := runner]))
  }

  /**
   * DeleteResult (lines 131-174): delete the result; fetch its runner (a
   * missing runner is dereferenced as nil: a panic); recompute the personal
   * best if it is the deleted time, and the season best if it is the deleted
   * time and the result is from the current year; write the runner back. An
   * unknown identifier is reported by the results repository as not found.
   */
  function Delete(st: Store, resultId: string, currentYear: int, faults: Faults): (r: (Outcome<()>, Store))
    requires StoreValid(st)
    ensures resultId == "" || IdFree(st.results, resultId) ==> r.1 == st
    ensures r.1.results == st.results
            || (|r.1.results| == |st.results| - 1 && forall x :: x in r.1.results ==> x in st.results)
    ensures r.0.Done? ==> |r.1.results| == |st.results| - 1 && r.1.runners.Keys == st.runners.Keys
    ensures !r.0.Done? ==> r.1.runners == st.runners
  {
    if resultId == "" then (Failed(StatusBadRequest), st)
    else if faults.deleteResult.Some? then (Failed(faults.deleteResult.value), st)
    else match FindResult(st.results, resultId)
      case None => (Failed(StatusNotFound), st)
      case Some(k) =>
        var deleted := st.results[k];
        var after := st.(results := RemoveAt(st.results, k));
        if faults.getRunner.Some? then (Failed(faults.getRunner.value), after)
        else if deleted.runnerId !in st.runners then (Panicked, after)
        else
          var runner := st.runners[deleted.runnerId];
          var recomputePersonal := runner.personalBest == deleted.raceResult;
          var recomputeSeason := runner.seasonBest == deleted.raceResult && deleted.year == currentYear;
          if recomputePersonal && faults.personalBestQuery.Some? then (Failed(faults.personalBestQuery.value), after)
          else if recomputeSeason && faults.seasonBestQuery.Some? then (Failed(faults.seasonBestQuery.value), after)
          else if faults.updateRunner.Some? then (Failed(faults.updateRunner.value), after)
          else
            var pb := if recomputePersonal then BestTime(after.results, deleted.runnerId, None) else runner.personalBest;
            var sb := if recomputeSeason then BestTime(after.results, deleted.runnerId, Some(deleted.year)) else runner.seasonBest;
            (Done(()), after.(runners := st.runners[deleted.runnerId := runner.(personalBest := pb, seasonBest := sb)]))
  }

  // ---------------------------------------------------------------------
  // The service object
  // ---------------------------------------------------------------------

  /**
   * The service with its two repositories, whose contents are the fields
   * `results` and `runners`. The clock is the `currentYear` parameter; the
   * identifier the results store assigns is `newId`; store failures are
   * `faults`.
   */
  class ResultsService {
    var results: seq<Result>
    var runners: map<string, Runner>

    function State(): Store
      reads this
    {
      Store(results, runners)
    }

    ghost predicate Valid()
      reads this
    {
      StoreValid(State())
    }

    /** NewResultsService: a service over repositories with the given contents. */
    constructor (results0: seq<Result>, runners0: map<string, Runner>)
      requires StoreValid(Store(results0, runners0))
      ensures Valid() && State() == Store(results0, runners0)
    {
      results := results0;
      runners := runners0;
    }

    method CreateResult(result: Result, currentYear: int, newId: string, faults: Faults) returns (outcome: Outcome<Result>)
      requires Valid() && IdFree(results, newId)
      modifies this
      ensures Valid()
      ensures (outcome, State()) == Create(old(State()), result, currentYear, newId, faults)
    {
      if result.runnerId == "" { return Failed(StatusBadRequest); }
      if result.raceResult == "" { return Failed(StatusBadRequest); }
      if result.location == "" { return Failed(StatusBadRequest); }
      if result.position < 0 { return Failed(StatusBadRequest); }
      if result.year < 0 || result.year > currentYear { return Failed(StatusBadRequest); }
      // parseRaceResult slices result.RaceResult[6:8]
      if |result.raceResult| < 8 { return Panicked; }
      var parsed := ParseRaceResult(result.raceResult);
      if parsed.None? { return Failed(StatusBadRequest); }
      var raceResult := parsed.value;

      // resultsRepository.CreateResult
      if faults.insertResult.Some? { return Failed(faults.insertResult.value); }
      var response := result.(id := newId);
      AppendUnique(results, response);
      results := results + [response];

      // runnersRepository.GetRunner
      if faults.getRunner.Some? { return Failed(faults.getRunner.value); }
      if result.runnerId !in runners { return Failed(StatusNotFound); }
      var runner := runners[result.runnerId];

      if runner.personalBest == "" {
        runner := runner.(personalBest := result.raceResult);
      } else {
        if |runner.personalBest| < 8 { return Panicked; }
        var personalBest := ParseRaceResult(runner.personalBest);
        if personalBest.None? { return Failed(StatusInternalServerError); }
        if raceResult < personalBest.value {
          runner := runner.(personalBest := result.raceResult);
        }
      }

      if result.year == currentYear {
        if runner.seasonBest == "" {
          runner := runner.(seasonBest := result.raceResult);
        } else {
          if |runner.seasonBest| < 8 { return Panicked; }
          var seasonBest := ParseRaceResult(runner.seasonBest);
          if seasonBest.None? { return Failed(StatusInternalServerError); }
          if raceResult < seasonBest.value {
            runner := runner.(seasonBest := result.raceResult);
          }
        }
      }

      // runnersRepository.UpdateRunnerResults
      if faults.updateRunner.Some? { return Failed(faults.updateRunner.value); }
      runners := runners[result.runnerId := runner];
      return Done(response);
    }

    method DeleteResult(resultId: string, currentYear: int, faults: Faults) returns (outcome: Outcome<()>)
      requires Valid()
      modifies this
      ensures Valid()
      ensures (outcome, State()) == Delete(old(State()), resultId, currentYear, faults)
    {
      if resultId == "" { return Failed(StatusBadRequest); }

      // resultsRepository.DeleteResult
      if faults.deleteResult.Some? { return Failed(faults.deleteResult.value); }
      var found := FindResult(results, resultId);
      if found.None? { return Failed(StatusNotFound); }
      var deleted := results[found.value];
      RemoveAtUnique(results, found.value);
      results := RemoveAt(results, found.value);

      // runnersRepository.GetRunner; a nil runner is dereferenced below
      if faults.getRunner.Some? { return Failed(faults.getRunner.value); }
      if deleted.runnerId !in runners { return Panicked; }
      var runner := runners[deleted.runnerId];

      if runner.personalBest == deleted.raceResult {
        if faults.personalBestQuery.Some? { return Failed(faults.personalBestQuery.value); }
        runner := runner.(personalBest := BestTime(results, deleted.runnerId, None));
      }

      if runner.seasonBest == deleted.raceResult && deleted.year == currentYear {
        if faults.seasonBestQuery.Some? { return Failed(faults.seasonBestQuery.value); }
        runner := runner.(seasonBest := BestTime(results, deleted.runnerId, Some(deleted.year)));
      }

      // runnersRepository.UpdateRunnerResults
      if faults.updateRunner.Some? { return Failed(faults.updateRunner.value); }
      runners := runners[deleted.runnerId := runner];
      return Done(());
    }
  }
}
