/** `load_actor_movie_lines` in movie_prediction/data_loaders/processed.py:
    the path check, the cache short-cut, the from-scratch build and the
    export decision. */
module Pipeline {
  import opened Wrappers
  import opened Tables
  import opened Merge
  import opened Resolution

  datatype LoadError =
    | SameCacheAndExportPath   // the `ValueError` of the path check
    | NoAmbiguousLinesKeyError // the `KeyError` of the ambiguity count

  /** Python truthiness of an optional path: `None` and `""` are false. */
  predicate Truthy(fp: Option<string>) {
    fp.Some? && fp.value != ""
  }

  /** The candidate table of the five merge passes over the numbered lines:
      each row pairs a dialogue line with a cast record matching it on a key
      column, and its line ids are those of the lines some record matches. */
  function CandidateTable(dialogue: seq<DialogueRow>, cast: seq<CastRecord>): (t: seq<Candidate>)
    ensures forall r :: r in t ==> r.line in NumberLines(dialogue) && r.cast in cast && MatchesSomeColumn(r.line, r.cast)
    ensures LineIds(t) == set l | l in NumberLines(dialogue) && Matched(l, cast) :: l.lineId
  {
    var ls := NumberLines(dialogue);
    NumberLinesUnique(dialogue);
    MergedLineIds(ls, cast);
    MergedRowsMatch(ls, cast);
    Concat(Passes(ls, cast))
  }

  /** The table built without a cache, or the `KeyError` that aborts the
      build exactly when no line id is repeated among the candidates. */
  function BuildFromScratch(dialogue: seq<DialogueRow>, cast: seq<CastRecord>): (r: Result<seq<Resolved>, LoadError>)
    ensures r.Err? <==> DistinctLineIds(CandidateTable(dialogue, cast))
    ensures r.Err? ==> r.error == NoAmbiguousLinesKeyError
  {
    var candidates := CandidateTable(dialogue, cast);
    AmbiguousRowCountFails(candidates);
    if AmbiguousRowCount(candidates).Err? then Err(NoAmbiguousLinesKeyError) else Ok(Resolve(candidates))
  }

  /** The loader. `cacheFile` is the table stored at `cacheFp` when that
      path names an existing file (None otherwise); `dialogue` and `cast` are
      the cleaned raw tables. `exportTo` is the path the result is written
      to, if any. */
  method LoadActorMovieLines(cacheFp: Option<string>, exportFp: Option<string>, cacheFile: Option<seq<Resolved>>,
                             dialogue: seq<DialogueRow>, cast: seq<CastRecord>)
    returns (res: Result<seq<Resolved>, LoadError>, exportTo: Option<string>)
    ensures cacheFp == exportFp ==> res == Err(SameCacheAndExportPath)
    ensures cacheFp != exportFp && Truthy(cacheFp) && cacheFile.Some? ==> res == Ok(cacheFile.value)
    ensures cacheFp != exportFp && !(Truthy(cacheFp) && cacheFile.Some?) ==> res == BuildFromScratch(dialogue, cast)
    ensures exportTo == if res.Ok? && Truthy(exportFp) then exportFp else None
  {
    if cacheFp == exportFp {
      return Err(SameCacheAndExportPath), None;
    }
    var table: seq<Resolved>;
    if Truthy(cacheFp) && cacheFile.Some? {
      table := cacheFile.value;
    } else {
      var lines := NumberLines(dialogue);
      var actorLines, mergedLineIds := MergeLines(lines, cast);
      var numDuplicates := AmbiguousRowCount(actorLines);
      if numDuplicates.Err? {
        return Err(NoAmbiguousLinesKeyError), None;
      }
      table := Resolve(actorLines);
    }
    exportTo := if Truthy(exportFp) then exportFp else None;
    res := Ok(table);
  }

  /** The from-scratch build aborts exactly when no line id is claimed by two
      candidate rows. When it succeeds, the table has one row per dialogue
      line that some cast record matches on a key column and no other row;
      each row pairs that line with a matching cast record; and each row
      carries the principal that ranks highest by (candidate rows, name)
      among that line's candidates. */
  lemma BuildFromScratchResolves(dialogue: seq<DialogueRow>, cast: seq<CastRecord>)
    ensures BuildFromScratch(dialogue, cast).Err? <==> DistinctLineIds(CandidateTable(dialogue, cast))
    ensures BuildFromScratch(dialogue, cast).Ok? ==>
              ResolvedIds(BuildFromScratch(dialogue, cast).value)
                == set l | l in NumberLines(dialogue) && Matched(l, cast) :: l.lineId
    ensures BuildFromScratch(dialogue, cast).Ok? ==> DistinctResolvedIds(BuildFromScratch(dialogue, cast).value)
    ensures BuildFromScratch(dialogue, cast).Ok? ==>
              forall x :: x in BuildFromScratch(dialogue, cast).value ==>
                && x.row.line in NumberLines(dialogue) && x.row.cast in cast
                && MatchesSomeColumn(x.row.line, x.row.cast)
    ensures BuildFromScratch(dialogue, cast).Ok? ==>
              forall x, y :: x in BuildFromScratch(dialogue, cast).value
                && y in WithPrincipalLines(CandidateTable(dialogue, cast)) && y.LineId() == x.LineId()
                ==> RanksAbove(x, y)
  {
    var candidates := CandidateTable(dialogue, cast);
    ResolveRowsAreCandidates(candidates);
    ResolveKeepsBest(candidates);
  }
}
