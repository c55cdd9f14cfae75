/**
 * What CreateResult and DeleteResult promise, proved about the store
 * functions Services.Create and Services.Delete (which the methods of
 * Services.ResultsService are proved to follow).
 */
module ServiceProperties {
  import opened Wrappers
  import opened Models
  import opened RaceTime
  import opened Repositories
  import opened Services

  // ---------------------------------------------------------------------
  // Validation
  // ---------------------------------------------------------------------

  /**
   * The checks are made in the order of CheckOrder and the first one that
   * fails decides the answer; when all pass, a race result shorter than eight
   * characters crashes the parser, and otherwise the result is accepted.
   */
  lemma ValidationIsFirstFailure(r: Result, currentYear: int, k: nat)
    requires k < |CheckOrder|
    ensures Validate(r, currentYear) == Rejected(CheckOrder[k]) <==>
              Fails(CheckOrder[k], r, currentYear) && forall j :: 0 <= j < k ==> !Fails(CheckOrder[j], r, currentYear)
    ensures Validate(r, currentYear) == Crashed <==>
              (forall j :: 0 <= j < |CheckOrder| ==> !Fails(CheckOrder[j], r, currentYear)) && |r.raceResult| < 8
    ensures Validate(r, currentYear) == Accepted <==>
              (forall j :: 0 <= j < |CheckOrder| ==> !Fails(CheckOrder[j], r, currentYear)) && |r.raceResult| >= 8
  {
    var c := CheckOrder;
    assert c[0] == RunnerIdCheck && c[1] == RaceResultCheck && c[2] == LocationCheck;
    assert c[3] == PositionCheck && c[4] == YearCheck && c[5] == ParseCheck;
  }

  /** A result that fails validation gets 400 (or crashes the parser) and changes no store. */
  lemma CreateRejectedChangesNothing(st: Store, result: Result, currentYear: int, newId: string, faults: Faults)
    requires !Validate(result, currentYear).Accepted?
    ensures Create(st, result, currentYear, newId, faults).1 == st
    ensures Validate(result, currentYear).Rejected? ==> Create(st, result, currentYear, newId, faults).0 == Failed(StatusBadRequest)
    ensures Validate(result, currentYear).Crashed? ==> Create(st, result, currentYear, newId, faults).0 == Panicked
  {
  }

  // ---------------------------------------------------------------------
  // Create: what happens after validation
  // ---------------------------------------------------------------------

  /**
   * Once validation passes, the insert comes first. If it fails, its error is
   * returned and nothing changes. Otherwise the result is in the table from
   * then on, whatever happens next, and the runners table changes only on
   * success.
   */
  lemma CreateInsertsFirst(st: Store, result: Result, currentYear: int, newId: string, faults: Faults)
    requires Validate(result, currentYear).Accepted?
    ensures var (out, st') := Create(st, result, currentYear, newId, faults);
            && (faults.insertResult.Some? ==> out == Failed(faults.insertResult.value) && st' == st)
            && (faults.insertResult.None? ==> st'.results == st.results + [result.(id := newId)])
            && (!out.Done? ==> st'.runners == st.runners)
  {
  }

  /**
   * Store errors after the insert are returned unchanged, with the inserted
   * result left in place and the runner not written.
   */
  lemma CreateStoreErrorsPassThrough(st: Store, result: Result, currentYear: int, newId: string, faults: Faults)
    requires Validate(result, currentYear).Accepted? && faults.insertResult.None?
    ensures var (out, st') := Create(st, result, currentYear, newId, faults);
            && (faults.getRunner.Some? ==> out == Failed(faults.getRunner.value))
            && (faults.getRunner.None? && result.runnerId in st.runners && faults.updateRunner.Some?
                && ApplyBests(st.runners[result.runnerId], result, currentYear).Done? ==>
                  out == Failed(faults.updateRunner.value))
            && (!out.Done? ==> st' == st.(results := st.results + [result.(id := newId)]))
  {
  }

  /**
   * A non-empty stored best shorter than eight characters is sliced out of
   * range: the personal best always, the season best for a current-year
   * result whose personal best was handled. The inserted result stays and no
   * runner is written.
   */
  lemma CreateShortBestPanics(st: Store, result: Result, currentYear: int, newId: string, faults: Faults)
    requires Validate(result, currentYear).Accepted?
    requires faults.insertResult.None? && faults.getRunner.None? && result.runnerId in st.runners
    requires var runner := st.runners[result.runnerId];
             (runner.personalBest != "" && |runner.personalBest| < 8)
             || (result.year == currentYear && ImproveBest(runner.personalBest, result.raceResult).Done?
                 && runner.seasonBest != "" && |runner.seasonBest| < 8)
    ensures Create(st, result, currentYear, newId, faults) ==
              (Panicked, st.(results := st.results + [result.(id := newId)]))
  {
  }

  /** A runner that does not exist gives 404, after the result has been inserted. */
  lemma CreateMissingRunner(st: Store, result: Result, currentYear: int, newId: string, faults: Faults)
    requires Validate(result, currentYear).Accepted?
    requires faults.insertResult.None? && faults.getRunner.None?
    requires result.runnerId !in st.runners
    ensures Create(st, result, currentYear, newId, faults) ==
              (Failed(StatusNotFound), st.(results := st.results + [result.(id := newId)]))
  {
  }

  /**
   * A stored personal best, or for a current-year result a stored season
   * best, that does not parse gives 500; the result stays inserted and the
   * runner is not updated.
   */
  lemma CreateUnparsableBest(st: Store, result: Result, currentYear: int, newId: string, faults: Faults)
    requires Validate(result, currentYear).Accepted?
    requires faults.insertResult.None? && faults.getRunner.None?
    requires result.runnerId in st.runners
    requires var runner := st.runners[result.runnerId];
             || (runner.personalBest != "" && |runner.personalBest| >= 8 && !WellFormed(runner.personalBest))
             || ((runner.personalBest == "" || WellFormed(runner.personalBest)) && result.year == currentYear
                 && runner.seasonBest != "" && |runner.seasonBest| >= 8 && !WellFormed(runner.seasonBest))
    ensures Create(st, result, currentYear, newId, faults) ==
              (Failed(StatusInternalServerError), st.(results := st.results + [result.(id := newId)]))
  {
  }

  /**
   * On success the stored record is returned, and only the result's runner
   * changes: its personal best becomes the new time exactly when it was empty
   * or the new time is strictly faster; its season best follows the same rule
   * for a current-year result and is untouched for an earlier year; its other
   * fields stay as they were.
   */
  lemma CreateSuccess(st: Store, result: Result, currentYear: int, newId: string, faults: Faults)
    requires Create(st, result, currentYear, newId, faults).0.Done?
    ensures var (out, st') := Create(st, result, currentYear, newId, faults);
            var time := result.raceResult;
            && WellFormed(time)
            && out.value == result.(id := newId)
            && st'.results == st.results + [out.value]
            && result.runnerId in st.runners && st'.runners.Keys == st.runners.Keys
            && (forall id :: id in st.runners && id != result.runnerId ==> st'.runners[id] == st.runners[id])
            && var before, after := st.runners[result.runnerId], st'.runners[result.runnerId];
            && after.name == before.name
            && (before.personalBest == "" ==> after.personalBest == time)
            && (before.personalBest != "" ==>
                  WellFormed(before.personalBest)
                  && (after.personalBest == time <== Seconds(time) < Seconds(before.personalBest))
                  && (after.personalBest == before.personalBest <== Seconds(time) >= Seconds(before.personalBest)))
            && (result.year != currentYear ==> after.seasonBest == before.seasonBest)
            && (result.year == currentYear && before.seasonBest == "" ==> after.seasonBest == time)
            && (result.year == currentYear && before.seasonBest != "" ==>
                  WellFormed(before.seasonBest)
                  && (after.seasonBest == time <== Seconds(time) < Seconds(before.seasonBest))
                  && (after.seasonBest == before.seasonBest <== Seconds(time) >= Seconds(before.seasonBest)))
  {
  }

  /**
   * A successful create never makes a best time slower: the new personal
   * best is no slower than the old one and no slower than the new result; the
   * same holds for the season best of a current-year result.
   */
  lemma CreateBestsNeverSlower(st: Store, result: Result, currentYear: int, newId: string, faults: Faults)
    requires Create(st, result, currentYear, newId, faults).0.Done?
    ensures var (out, st') := Create(st, result, currentYear, newId, faults);
            var before, after := st.runners[result.runnerId], st'.runners[result.runnerId];
            && WellFormed(result.raceResult) && WellFormed(after.personalBest)
            && Seconds(after.personalBest) <= Seconds(result.raceResult)
            && (before.personalBest != "" ==>
                  WellFormed(before.personalBest) && Seconds(after.personalBest) <= Seconds(before.personalBest))
            && (result.year == currentYear ==>
                  WellFormed(after.seasonBest) && Seconds(after.seasonBest) <= Seconds(result.raceResult)
                  && (before.seasonBest != "" ==>
                        WellFormed(before.seasonBest) && Seconds(after.seasonBest) <= Seconds(before.seasonBest)))
  {
    CreateSuccess(st, result, currentYear, newId, faults);
  }

  // ---------------------------------------------------------------------
  // Delete
  // ---------------------------------------------------------------------

  /** An empty result identifier gives 400 and changes nothing; an unknown one gives 404 and changes nothing. */
  lemma DeleteRejects(st: Store, resultId: string, currentYear: int, faults: Faults)
    requires StoreValid(st)
    requires resultId == "" || (faults.deleteResult.None? && IdFree(st.results, resultId))
    ensures Delete(st, resultId, currentYear, faults).1 == st
    ensures Delete(st, resultId, currentYear, faults).0 ==
              Failed(if resultId == "" then StatusBadRequest else StatusNotFound)
  {
  }

  /**
   * A delete of a stored result takes exactly that result out of the table,
   * whatever happens afterwards; the runners table changes only on success.
   */
  lemma DeleteRemovesResult(st: Store, resultId: string, currentYear: int, faults: Faults)
    requires StoreValid(st) && resultId != "" && faults.deleteResult.None? && !IdFree(st.results, resultId)
    ensures var (out, st') := Delete(st, resultId, currentYear, faults);
            && StoreValid(st')
            && (forall r :: r in st'.results <==> r in st.results && r.id != resultId)
            && |st'.results| == |st.results| - 1
            && (!out.Done? ==> st'.runners == st.runners)
  {
    var k := FindResult(st.results, resultId).value;
    RemoveAtUnique(st.results, k);
  }

  /**
   * Errors from the store are returned unchanged: a failing delete leaves the
   * table as it was; a failing runner fetch, best-time query (made only when
   * that best is the deleted time, the season one only for a current-year
   * result) or runner update comes after the delete, which stays. A missing
   * runner is dereferenced as nil: a panic, after the delete.
   */
  lemma DeleteStoreErrorsPassThrough(st: Store, resultId: string, currentYear: int, faults: Faults)
    requires StoreValid(st) && resultId != ""
    ensures faults.deleteResult.Some? ==> Delete(st, resultId, currentYear, faults) == (Failed(faults.deleteResult.value), st)
    ensures faults.deleteResult.None? && !IdFree(st.results, resultId) ==>
              var k := FindResult(st.results, resultId).value;
              var deleted := st.results[k];
              var after := st.(results := RemoveAt(st.results, k));
              var (out, st') := Delete(st, resultId, currentYear, faults);
              && (!out.Done? ==> st' == after)
              && (faults.getRunner.Some? ==> out == Failed(faults.getRunner.value))
              && (faults.getRunner.None? && deleted.runnerId !in st.runners ==> out == Panicked)
              && (faults.getRunner.None? && deleted.runnerId in st.runners ==>
                    var runner := st.runners[deleted.runnerId];
                    var recomputePersonal := runner.personalBest == deleted.raceResult;
                    var recomputeSeason := runner.seasonBest == deleted.raceResult && deleted.year == currentYear;
                    && (recomputePersonal && faults.personalBestQuery.Some? ==>
                          out == Failed(faults.personalBestQuery.value))
                    && (!(recomputePersonal && faults.personalBestQuery.Some?)
                        && recomputeSeason && faults.seasonBestQuery.Some? ==>
                          out == Failed(faults.seasonBestQuery.value))
                    && (!(recomputePersonal && faults.personalBestQuery.Some?)
                        && !(recomputeSeason && faults.seasonBestQuery.Some?)
                        && faults.updateRunner.Some? ==>
                          out == Failed(faults.updateRunner.value)))
  {
  }

  /**
   * After a successful delete only the deleted result's runner changes. Its
   * personal best is recomputed from the remaining results (the fastest
   * remaining time, "" if none) exactly when it equals the deleted time;
   * otherwise it is kept. Its season best is recomputed over the remaining
   * current-year results exactly when it equals the deleted time and the
   * deleted result is from the current year; otherwise it is kept. Other
   * fields are unchanged.
   */
  lemma DeleteRecomputesBests(st: Store, resultId: string, currentYear: int, faults: Faults)
    requires StoreValid(st)
    requires Delete(st, resultId, currentYear, faults).0.Done?
    ensures var (out, st') := Delete(st, resultId, currentYear, faults);
            && StoreValid(st')
            && (exists deleted :: deleted in st.results && deleted.id == resultId
                  && deleted.runnerId in st.runners
                  && st'.runners.Keys == st.runners.Keys
                  && (forall id :: id in st.runners && id != deleted.runnerId ==> st'.runners[id] == st.runners[id])
                  && var before, after := st.runners[deleted.runnerId], st'.runners[deleted.runnerId];
                  && after.name == before.name
                  && (before.personalBest == deleted.raceResult ==>
                        IsBestOf(after.personalBest, st'.results, deleted.runnerId, None))
                  && (before.personalBest != deleted.raceResult ==> after.personalBest == before.personalBest)
                  && (before.seasonBest == deleted.raceResult && deleted.year == currentYear ==>
                        IsBestOf(after.seasonBest, st'.results, deleted.runnerId, Some(currentYear)))
                  && (!(before.seasonBest == deleted.raceResult && deleted.year == currentYear) ==>
                        after.seasonBest == before.seasonBest))
  {
    var k := FindResult(st.results, resultId).value;
    RemoveAtUnique(st.results, k);
    var deleted := st.results[k];
    assert deleted in st.results;
    var runner := st.runners[deleted.runnerId];
    var rest := RemoveAt(st.results, k);
    var pb := if runner.personalBest == deleted.raceResult then BestTime(rest, deleted.runnerId, None) else runner.personalBest;
    var sb := if runner.seasonBest == deleted.raceResult && deleted.year == currentYear
              then BestTime(rest, deleted.runnerId, Some(deleted.year)) else runner.seasonBest;
    var st' := Store(rest, st.runners[deleted.runnerId := runner.(personalBest := pb, seasonBest := sb)]);
    assert Delete(st, resultId, currentYear, faults) == (Done(()), st');
    DeletedRunnerRecomputed(st, st', deleted, currentYear);
  }

  /** The per-runner part of DeleteRecomputesBests, stated on the explicit new store. */
  lemma DeletedRunnerRecomputed(st: Store, st': Store, deleted: Result, currentYear: int)
    requires deleted in st.results && deleted.runnerId in st.runners && TimesWellFormed(st'.results)
    requires var runner := st.runners[deleted.runnerId];
             var pb := if runner.personalBest == deleted.raceResult then BestTime(st'.results, deleted.runnerId, None) else runner.personalBest;
             var sb := if runner.seasonBest == deleted.raceResult && deleted.year == currentYear
                       then BestTime(st'.results, deleted.runnerId, Some(deleted.year)) else runner.seasonBest;
             st'.runners == st.runners[deleted.runnerId := runner.(personalBest := pb, seasonBest := sb)]
    ensures st'.runners.Keys == st.runners.Keys
    ensures forall id :: id in st.runners && id != deleted.runnerId ==> st'.runners[id] == st.runners[id]
    ensures var before, after := st.runners[deleted.runnerId], st'.runners[deleted.runnerId];
            && after.name == before.name
            && (before.personalBest == deleted.raceResult ==>
                  IsBestOf(after.personalBest, st'.results, deleted.runnerId, None))
            && (before.personalBest != deleted.raceResult ==> after.personalBest == before.personalBest)
            && (before.seasonBest == deleted.raceResult && deleted.year == currentYear ==>
                  IsBestOf(after.seasonBest, st'.results, deleted.runnerId, Some(currentYear)))
            && (!(before.seasonBest == deleted.raceResult && deleted.year == currentYear) ==>
                  after.seasonBest == before.seasonBest)
  {
  }

  // ---------------------------------------------------------------------
  // The best-time invariant
  // ---------------------------------------------------------------------

  /**
   * Every runner's personal best is its best time over all its stored
   * results, and its season best is its best time over its stored results of
   * `currentYear` (each "" when there are none).
   */
  ghost predicate BestsConsistent(st: Store, currentYear: int)
    requires TimesWellFormed(st.results)
  {
    forall id :: id in st.runners ==>
      IsBestOf(st.runners[id].personalBest, st.results, id, None)
      && IsBestOf(st.runners[id].seasonBest, st.results, id, Some(currentYear))
  }

  /** A best time is "" or a time that parses. */
  lemma BestIsWellFormed(best: string, rs: seq<Result>, runnerId: string, season: Option<int>)
    requires TimesWellFormed(rs) && IsBestOf(best, rs, runnerId, season)
    ensures best == "" || WellFormed(best)
  {
    if exists r :: r in rs && Matches(r, runnerId, season) {
      var w :| w in rs && Matches(w, runnerId, season) && w.raceResult == best;
    }
  }

  /**
   * Appending a result keeps a best time correct when the create rule is
   * applied to it: a counting result goes through ImproveBest, any other
   * leaves the best as it was.
   */
  lemma BestOfAppend(best: string, rs: seq<Result>, x: Result, runnerId: string, season: Option<int>)
    requires TimesWellFormed(rs) && WellFormed(x.raceResult) && IsBestOf(best, rs, runnerId, season)
    ensures TimesWellFormed(rs + [x])
    ensures Matches(x, runnerId, season) ==>
              ImproveBest(best, x.raceResult).Done?
              && IsBestOf(ImproveBest(best, x.raceResult).value, rs + [x], runnerId, season)
    ensures !Matches(x, runnerId, season) ==> IsBestOf(best, rs + [x], runnerId, season)
  {
    var rs' := rs + [x];
    assert forall r :: r in rs' <==> r in rs || r == x;
    BestIsWellFormed(best, rs, runnerId, season);
    if forall r :: r in rs ==> !Matches(r, runnerId, season) {
      if Matches(x, runnerId, season) {
        assert x in rs';
      }
    } else {
      var w :| w in rs && Matches(w, runnerId, season) && w.raceResult == best
               && forall r :: r in rs && Matches(r, runnerId, season) ==> Seconds(best) <= Seconds(r.raceResult);
      assert w in rs';
      if Matches(x, runnerId, season) {
        if Seconds(x.raceResult) < Seconds(best) {
          assert ImproveBest(best, x.raceResult).value == x.raceResult;
          assert x in rs';
        }
      }
    }
  }

  /**
   * Removing a result keeps a best time correct unless the removed result
   * counts and carries that very time string.
   */
  lemma BestOfRemove(best: string, rs: seq<Result>, k: nat, runnerId: string, season: Option<int>)
    requires TimesWellFormed(rs) && k < |rs| && IsBestOf(best, rs, runnerId, season)
    requires !(Matches(rs[k], runnerId, season) && rs[k].raceResult == best)
    ensures TimesWellFormed(RemoveAt(rs, k))
    ensures IsBestOf(best, RemoveAt(rs, k), runnerId, season)
  {
    var rest := RemoveAt(rs, k);
    if !forall r :: r in rs ==> !Matches(r, runnerId, season) {
      var w :| w in rs && Matches(w, runnerId, season) && w.raceResult == best
               && forall r :: r in rs && Matches(r, runnerId, season) ==> Seconds(best) <= Seconds(r.raceResult);
      assert w != rs[k];
      assert w in rest;
    }
  }

  /** Writing back one runner whose best times are correct keeps the invariant. */
  lemma ConsistentAfterWrite(results: seq<Result>, runners: map<string, Runner>, runnerId: string, runner: Runner, currentYear: int)
    requires TimesWellFormed(results)
    requires forall id :: id in runners && id != runnerId ==>
               IsBestOf(runners[id].personalBest, results, id, None)
               && IsBestOf(runners[id].seasonBest, results, id, Some(currentYear))
    requires IsBestOf(runner.personalBest, results, runnerId, None)
    requires IsBestOf(runner.seasonBest, results, runnerId, Some(currentYear))
    ensures BestsConsistent(Store(results, runners[runnerId := runner]), currentYear)
  {
  }

  /** Appending a result whose runner is not touched keeps every other runner's best times correct. */
  lemma OthersAfterAppend(st: Store, x: Result, currentYear: int)
    requires TimesWellFormed(st.results) && WellFormed(x.raceResult) && BestsConsistent(st, currentYear)
    ensures TimesWellFormed(st.results + [x])
    ensures forall id :: id in st.runners && id != x.runnerId ==>
              IsBestOf(st.runners[id].personalBest, st.results + [x], id, None)
              && IsBestOf(st.runners[id].seasonBest, st.results + [x], id, Some(currentYear))
  {
    assert forall r :: r in st.results + [x] ==> r in st.results || r == x;
    forall id | id in st.runners && id != x.runnerId
      ensures IsBestOf(st.runners[id].personalBest, st.results + [x], id, None)
      ensures IsBestOf(st.runners[id].seasonBest, st.results + [x], id, Some(currentYear))
    {
      BestOfAppend(st.runners[id].personalBest, st.results, x, id, None);
      BestOfAppend(st.runners[id].seasonBest, st.results, x, id, Some(currentYear));
    }
  }

  /** Removing a result keeps the best times of every runner but its own correct. */
  lemma OthersAfterRemove(st: Store, k: nat, currentYear: int)
    requires TimesWellFormed(st.results) && k < |st.results| && BestsConsistent(st, currentYear)
    ensures TimesWellFormed(RemoveAt(st.results, k))
    ensures forall id :: id in st.runners && id != st.results[k].runnerId ==>
              IsBestOf(st.runners[id].personalBest, RemoveAt(st.results, k), id, None)
              && IsBestOf(st.runners[id].seasonBest, RemoveAt(st.results, k), id, Some(currentYear))
  {
    forall id | id in st.runners && id != st.results[k].runnerId
      ensures IsBestOf(st.runners[id].personalBest, RemoveAt(st.results, k), id, None)
      ensures IsBestOf(st.runners[id].seasonBest, RemoveAt(st.results, k), id, Some(currentYear))
    {
      BestOfRemove(st.runners[id].personalBest, st.results, k, id, None);
      BestOfRemove(st.runners[id].seasonBest, st.results, k, id, Some(currentYear));
    }
  }

  /**
   * Without store failures, CreateResult keeps every best time correct: the
   * new result is counted by its runner's personal best and, for a current
   * year result, season best. Under the invariant the server errors cannot
   * occur: a validated result either succeeds or meets a missing runner.
   */
  lemma CreatePreservesBests(st: Store, result: Result, currentYear: int, newId: string)
    requires StoreValid(st) && IdFree(st.results, newId) && BestsConsistent(st, currentYear)
    ensures var (out, st') := Create(st, result, currentYear, newId, NoFaults);
            && StoreValid(st') && BestsConsistent(st', currentYear)
            && (Validate(result, currentYear).Accepted? ==>
                  out == (if result.runnerId in st.runners then Done(result.(id := newId)) else Failed(StatusNotFound)))
  {
    if Validate(result, currentYear).Accepted? {
      var x := result.(id := newId);
      var results' := st.results + [x];
      AppendUnique(st.results, x);
      OthersAfterAppend(st, x, currentYear);
      if result.runnerId in st.runners {
        var runner := st.runners[result.runnerId];
        BestOfAppend(runner.personalBest, st.results, x, result.runnerId, None);
        BestOfAppend(runner.seasonBest, st.results, x, result.runnerId, Some(currentYear));
        var applied := ApplyBests(runner, result, currentYear);
        assert applied.Done?;
        ConsistentAfterWrite(results', st.runners, result.runnerId, applied.value, currentYear);
        assert Create(st, result, currentYear, newId, NoFaults)
               == (Done(x), Store(results', st.runners[result.runnerId := applied.value]));
      } else {
        assert Create(st, result, currentYear, newId, NoFaults) == (Failed(StatusNotFound), Store(results', st.runners));
      }
    }
  }

  /**
   * Without store failures, DeleteResult keeps every best time correct: a
   * best time that is not the deleted one still has its fastest result, and
   * one that is gets recomputed from what remains.
   */
  lemma DeletePreservesBests(st: Store, resultId: string, currentYear: int)
    requires StoreValid(st) && BestsConsistent(st, currentYear)
    ensures var (out, st') := Delete(st, resultId, currentYear, NoFaults);
            StoreValid(st') && BestsConsistent(st', currentYear)
  {
    if resultId != "" && !IdFree(st.results, resultId) {
      var k := FindResult(st.results, resultId).value;
      var deleted := st.results[k];
      var rest := RemoveAt(st.results, k);
      RemoveAtUnique(st.results, k);
      OthersAfterRemove(st, k, currentYear);
      if deleted.runnerId in st.runners {
        var runner := st.runners[deleted.runnerId];
        var pb := if runner.personalBest == deleted.raceResult then BestTime(rest, deleted.runnerId, None)
                  else runner.personalBest;
        var sb := if runner.seasonBest == deleted.raceResult && deleted.year == currentYear
                  then BestTime(rest, deleted.runnerId, Some(deleted.year))
                  else runner.seasonBest;
        if runner.personalBest != deleted.raceResult {
          BestOfRemove(runner.personalBest, st.results, k, deleted.runnerId, None);
        }
        if !(runner.seasonBest == deleted.raceResult && deleted.year == currentYear) {
          BestOfRemove(runner.seasonBest, st.results, k, deleted.runnerId, Some(currentYear));
        }
        var runner' := runner.(personalBest := pb, seasonBest := sb);
        ConsistentAfterWrite(rest, st.runners, deleted.runnerId, runner', currentYear);
        assert Delete(st, resultId, currentYear, NoFaults)
               == (Done(()), Store(rest, st.runners[deleted.runnerId := runner']));
      } else {
        assert Delete(st, resultId, currentYear, NoFaults) == (Panicked, Store(rest, st.runners));
      }
    }
  }

  // ---------------------------------------------------------------------
  // A worked example
  // ---------------------------------------------------------------------

  // Runner R1 without results records 01:30:00 (2024), then 01:25:00 (2024),
  // then 01:40:00 (2023), in the year 2024; then the 01:25:00 result is
  // deleted.
  const Boston := Result("", "R1", "01:30:00", "Boston", 5, 2024)
  const NewYork := Result("", "R1", "01:25:00", "NYC", 3, 2024)
  const Chicago := Result("", "R1", "01:40:00", "Chicago", 10, 2023)
  const Stored1 := Boston.(id := "res-1")
  const Stored2 := NewYork.(id := "res-2")
  const Stored3 := Chicago.(id := "res-3")
  const Start := Store([], map["R1" := Runner("R1", "", "")])
  const AfterBoston := Store([Stored1], map["R1" := Runner("R1", "01:30:00", "01:30:00")])
  const AfterNewYork := Store([Stored1, Stored2], map["R1" := Runner("R1", "01:25:00", "01:25:00")])
  const AfterChicago := Store([Stored1, Stored2, Stored3], map["R1" := Runner("R1", "01:25:00", "01:25:00")])
  const AfterDelete := Store([Stored1, Stored3], map["R1" := Runner("R1", "01:30:00", "01:30:00")])

  lemma ScenarioTimes()
    ensures WellFormed("01:30:00") && Seconds("01:30:00") == 5400
    ensures WellFormed("01:25:00") && Seconds("01:25:00") == 5100
    ensures WellFormed("01:40:00") && Seconds("01:40:00") == 6000
  {
    ParseFormatted(1, 30, 0);
    ParseFormatted(1, 25, 0);
    ParseFormatted(1, 40, 0);
    assert FormatRaceResult(1, 30, 0) == "01:30:00";
    assert FormatRaceResult(1, 25, 0) == "01:25:00";
    assert FormatRaceResult(1, 40, 0) == "01:40:00";
  }

  lemma BostonStep()
    ensures Create(Start, Boston, 2024, "res-1", NoFaults) == (Done(Stored1), AfterBoston)
  {
    ScenarioTimes();
    assert Validate(Boston, 2024) == Accepted;
    assert ApplyBests(Start.runners["R1"], Boston, 2024) == Done(AfterBoston.runners["R1"]);
    assert Start.runners["R1" := AfterBoston.runners["R1"]] == AfterBoston.runners;
    assert Start.results + [Stored1] == AfterBoston.results;
  }

  lemma NewYorkStep()
    ensures Create(AfterBoston, NewYork, 2024, "res-2", NoFaults) == (Done(Stored2), AfterNewYork)
  {
    ScenarioTimes();
    assert Validate(NewYork, 2024) == Accepted;
    assert ApplyBests(AfterBoston.runners["R1"], NewYork, 2024) == Done(AfterNewYork.runners["R1"]);
    assert AfterBoston.runners["R1" := AfterNewYork.runners["R1"]] == AfterNewYork.runners;
    assert AfterBoston.results + [Stored2] == AfterNewYork.results;
  }

  lemma ChicagoStep()
    ensures Create(AfterNewYork, Chicago, 2024, "res-3", NoFaults) == (Done(Stored3), AfterChicago)
  {
    ScenarioTimes();
    assert Validate(Chicago, 2024) == Accepted;
    assert ApplyBests(AfterNewYork.runners["R1"], Chicago, 2024) == Done(AfterChicago.runners["R1"]);
    assert AfterNewYork.runners["R1" := AfterChicago.runners["R1"]] == AfterChicago.runners;
    assert AfterNewYork.results + [Stored3] == AfterChicago.results;
  }

  lemma ScenarioStoresValid()
    ensures StoreValid(Start) && StoreValid(AfterBoston) && StoreValid(AfterNewYork)
    ensures StoreValid(AfterChicago) && StoreValid(AfterDelete)
  {
    ScenarioTimes();
  }

  lemma RemainingBests()
    ensures TimesWellFormed(AfterDelete.results)
    ensures BestTime(AfterDelete.results, "R1", None) == "01:30:00"
    ensures BestTime(AfterDelete.results, "R1", Some(2024)) == "01:30:00"
  {
    ScenarioTimes();
    assert AfterDelete.results[1..] == [Stored3];
    assert [Stored3][1..] == [];
    assert BestTime([], "R1", None) == "";
    assert BestTime([Stored3], "R1", None) == "01:40:00";
    assert BestTime([Stored3], "R1", Some(2024)) == "";
  }

  lemma DeletedRow()
    ensures FindResult(AfterChicago.results, "res-2") == Some(1)
    ensures RemoveAt(AfterChicago.results, 1) == AfterDelete.results
  {
    assert AfterChicago.results[1..] == [Stored2, Stored3];
  }

  /** A delete without store failures of a stored result whose runner exists, spelled out. */
  lemma DeleteWithoutFaults(st: Store, resultId: string, currentYear: int, k: nat)
    requires StoreValid(st) && resultId != "" && FindResult(st.results, resultId) == Some(k)
    requires st.results[k].runnerId in st.runners
    ensures var deleted, rest := st.results[k], RemoveAt(st.results, k);
            var runner := st.runners[deleted.runnerId];
            Delete(st, resultId, currentYear, NoFaults) == (Done(()), Store(rest, st.runners[deleted.runnerId :=
              runner.(personalBest := if runner.personalBest == deleted.raceResult
                                      then BestTime(rest, deleted.runnerId, None) else runner.personalBest,
                      seasonBest := if runner.seasonBest == deleted.raceResult && deleted.year == currentYear
                                    then BestTime(rest, deleted.runnerId, Some(deleted.year)) else runner.seasonBest)]))
  {
  }

  lemma DeleteStep()
    ensures StoreValid(AfterChicago) && Delete(AfterChicago, "res-2", 2024, NoFaults) == (Done(()), AfterDelete)
  {
    var runner := AfterChicago.runners["R1"];
    var runner' := runner.(personalBest := "01:30:00", seasonBest := "01:30:00");
    assert AfterChicago.runners["R1" := runner'] == AfterDelete.runners by {
      assert runner' == AfterDelete.runners["R1"];
    }
    assert AfterChicago.results[1] == Stored2;
    ScenarioStoresValid();
    DeletedRow();
    RemainingBests();
    DeleteWithoutFaults(AfterChicago, "res-2", 2024, 1);
  }

  /**
   * The first two results set both bests; the slower 2023 result changes
   * neither; deleting the 01:25:00 result brings both back to 01:30:00.
   */
  lemma WorkedExample()
    ensures Create(Start, Boston, 2024, "res-1", NoFaults) == (Done(Stored1), AfterBoston)
    ensures Create(AfterBoston, NewYork, 2024, "res-2", NoFaults) == (Done(Stored2), AfterNewYork)
    ensures Create(AfterNewYork, Chicago, 2024, "res-3", NoFaults) == (Done(Stored3), AfterChicago)
    ensures StoreValid(AfterChicago) && Delete(AfterChicago, "res-2", 2024, NoFaults) == (Done(()), AfterDelete)
  {
    BostonStep();
    NewYorkStep();
    ChicagoStep();
    DeleteStep();
  }

  /** The same sequence of calls on the service object; returns R1's record after each call. */
  method WorkedExampleOnService() returns (first: Runner, second: Runner, third: Runner, last: Runner)
    ensures first == Runner("R1", "01:30:00", "01:30:00") && second == Runner("R1", "01:25:00", "01:25:00")
    ensures third == second && last == first
  {
    var service := new ResultsService(Start.results, Start.runners);
    BostonStep();
    var created := service.CreateResult(Boston, 2024, "res-1", NoFaults);
    first := service.runners["R1"];
    NewYorkStep();
    created := service.CreateResult(NewYork, 2024, "res-2", NoFaults);
    second := service.runners["R1"];
    ChicagoStep();
    created := service.CreateResult(Chicago, 2024, "res-3", NoFaults);
    third := service.runners["R1"];
    DeleteStep();
    var deleted := service.DeleteResult("res-2", 2024, NoFaults);
    last := service.runners["R1"];
  }
}
