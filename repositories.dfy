/**
 * The results table and the queries the results service asks of it. The SQL
 * repositories are not part of this model; the table is a sequence of rows in
 * insertion order and each query is stated by what it returns.
 */
module Repositories {
  import opened Wrappers
  import opened Models
  import opened RaceTime

  /** Every stored race time parses: the service stores only results that passed validation. */
  predicate TimesWellFormed(rs: seq<Result>)
  {
    forall r :: r in rs ==> WellFormed(r.raceResult)
  }

  /** Result identifiers are a primary key. */
  predicate UniqueIds(rs: seq<Result>)
  {
    forall i, j :: 0 <= i < j < |rs| ==> rs[i].id != rs[j].id
  }

  /** No stored result has identifier `id`. */
  predicate IdFree(rs: seq<Result>, id: string)
  {
    forall r :: r in rs ==> r.id != id
  }

  /** A result counts for a runner's best time: it is the runner's, and from `season` when one is given. */
  predicate Matches(r: Result, runnerId: string, season: Option<int>)
  {
    r.runnerId == runnerId && (season.None? || r.year == season.value)
  }

  /**
   * `best` is the runner's best time among `rs`: "" when no result counts,
   * otherwise the race-time string of a counting result that is at least as
   * fast as every counting result.
   */
  ghost predicate IsBestOf(best: string, rs: seq<Result>, runnerId: string, season: Option<int>)
    requires TimesWellFormed(rs)
  {
    if forall r :: r in rs ==> !Matches(r, runnerId, season) then best == ""
    else exists w :: w in rs && Matches(w, runnerId, season) && w.raceResult == best
           && forall r :: r in rs && Matches(r, runnerId, season) ==> Seconds(best) <= Seconds(r.raceResult)
  }

  /**
   * GetPersonalBestResults (season None) and GetSeasonBestResults (season
   * Some(year)): the fastest counting race time, "" when none; among equally
   * fast results the earliest row wins.
   */
  function BestTime(rs: seq<Result>, runnerId: string, season: Option<int>): (best: string)
    requires TimesWellFormed(rs)
    ensures IsBestOf(best, rs, runnerId, season)
  {
    if |rs| == 0 then ""
    else
      assert forall r :: r in rs[1..] ==> r in rs;
      var rest := BestTime(rs[1..], runnerId, season);
      if !Matches(rs[0], runnerId, season) then
        assert forall r :: r in rs ==> r == rs[0] || r in rs[1..];
        rest
      else if rest == "" || Seconds(rs[0].raceResult) <= Seconds(rest) then
        assert forall r :: r in rs ==> r == rs[0] || r in rs[1..];
        rs[0].raceResult
      else
        assert forall r :: r in rs ==> r == rs[0] || r in rs[1..];
        rest
  }

  /** The position of the result with identifier `id`, if any. */
  function FindResult(rs: seq<Result>, id: string): (k: Option<nat>)
    ensures k.Some? ==> k.value < |rs| && rs[k.value].id == id
    ensures k.None? <==> IdFree(rs, id)
  {
    if |rs| == 0 then None
    else if rs[0].id == id then Some(0)
    else
      match FindResult(rs[1..], id)
      case None =>
        assert forall r :: r in rs ==> r == rs[0] || r in rs[1..];
        None
      case Some(k) => Some(k + 1)
  }

  /** The table without its row at index k. */
  function RemoveAt(rs: seq<Result>, k: nat): (rest: seq<Result>)
    requires k < |rs|
    ensures |rest| == |rs| - 1
    ensures forall r :: r in rest ==> r in rs
    ensures forall r :: r in rs && r != rs[k] ==> r in rest
  {
    assert forall r :: r in rs && r != rs[k] ==> r in rs[..k] || r in rs[k + 1..] by {
      forall r | r in rs && r != rs[k]
        ensures r in rs[..k] || r in rs[k + 1..]
      {
        var i :| 0 <= i < |rs| && rs[i] == r;
        if i < k { assert rs[..k][i] == r; } else { assert rs[k + 1..][i - k - 1] == r; }
      }
    }
    rs[..k] + rs[k + 1..]
  }

  /** Removing a row keeps the identifiers unique, and removes exactly the rows with that row's identifier. */
  lemma RemoveAtUnique(rs: seq<Result>, k: nat)
    requires k < |rs| && UniqueIds(rs)
    ensures UniqueIds(RemoveAt(rs, k))
    ensures forall r :: r in RemoveAt(rs, k) <==> r in rs && r.id != rs[k].id
  {
    var rest := RemoveAt(rs, k);
    assert forall i :: 0 <= i < |rest| ==> rest[i] == rs[if i < k then i else i + 1];
    forall r | r in rs && r.id == rs[k].id
      ensures r == rs[k]
    {
      var i :| 0 <= i < |rs| && rs[i] == r;
      assert i == k;
    }
  }

  /** Appending a row with a fresh identifier keeps the identifiers unique. */
  lemma AppendUnique(rs: seq<Result>, x: Result)
    requires UniqueIds(rs) && IdFree(rs, x.id)
    ensures UniqueIds(rs + [x])
  {
    var s := rs + [x];
    forall i, j | 0 <= i < j < |s|
      ensures s[i].id != s[j].id
    {
      if j == |rs| { assert s[i] in rs; }
    }
  }
}
