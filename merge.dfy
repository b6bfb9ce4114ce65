/** The multi-pass merge of movie_prediction/data_loaders/processed.py: each
    of the five key columns in turn joins the dialogue lines that no earlier
    pass claimed with the cast records, and the pass's line ids are claimed. */
module Merge {
  import opened Tables

  /** `reset_index().rename(columns={'index': LINE_ID})`: the line id of a
      row is its position in the loaded table. */
  function NumberLines(rows: seq<DialogueRow>): (ls: seq<Line>)
    ensures |ls| == |rows|
    ensures forall i :: 0 <= i < |ls| ==>
              ls[i] == Line(i, rows[i].character, rows[i].title, rows[i].year, rows[i].utterance)
  {
    seq(|rows|, i requires 0 <= i < |rows| =>
      Line(i, rows[i].character, rows[i].title, rows[i].year, rows[i].utterance))
  }

  /** No two lines share a line id. */
  ghost predicate UniqueIds(ls: seq<Line>) {
    forall i, j :: 0 <= i < |ls| && 0 <= j < |ls| && ls[i].lineId == ls[j].lineId ==> i == j
  }

  lemma NumberLinesUnique(rows: seq<DialogueRow>)
    ensures UniqueIds(NumberLines(rows))
  {
  }

  /** `movie_lines[~movie_lines[LINE_ID].isin(claimed)]`, keeping the order. */
  function Unclaimed(ls: seq<Line>, claimed: set<int>): (r: seq<Line>)
    ensures |r| <= |ls|
  {
    if ls == [] then []
    else (if ls[0].lineId in claimed then [] else [ls[0]]) + Unclaimed(ls[1..], claimed)
  }

  /** The filter keeps exactly the lines whose id is not claimed. */
  lemma {:induction false} UnclaimedMembers(ls: seq<Line>, claimed: set<int>)
    ensures forall l :: l in Unclaimed(ls, claimed) <==> l in ls && l.lineId !in claimed
  {
    if ls != [] {
      UnclaimedMembers(ls[1..], claimed);
      assert ls == [ls[0]] + ls[1..];
    }
  }

  /** The filter keeps each unclaimed line as often as the input holds it,
      and no claimed line. */
  lemma {:induction false} UnclaimedCount(ls: seq<Line>, claimed: set<int>, l: Line)
    ensures multiset(Unclaimed(ls, claimed))[l] == if l.lineId in claimed then 0 else multiset(ls)[l]
  {
    if ls != [] {
      var h: seq<Line> := if ls[0].lineId in claimed then [] else [ls[0]];
      UnclaimedCount(ls[1..], claimed, l);
      CountAppend(h, Unclaimed(ls[1..], claimed), l);
      CountCons(ls, l);
    }
  }

  /** With unique line ids, each line occurs once. */
  lemma {:induction false} UniqueCount(ls: seq<Line>, l: Line)
    requires UniqueIds(ls) && l in ls
    ensures multiset(ls)[l] == 1
  {
    CountCons(ls, l);
    if ls[0] == l {
      forall j | 0 <= j < |ls[1..]| ensures ls[1..][j] != l {
        assert ls[1..][j] == ls[j + 1];
      }
      assert l !in ls[1..];
    } else {
      forall i, j | 0 <= i < |ls[1..]| && 0 <= j < |ls[1..]| && ls[1..][i].lineId == ls[1..][j].lineId
        ensures i == j
      {
        assert ls[1..][i] == ls[i + 1] && ls[1..][j] == ls[j + 1];
      }
      UniqueCount(ls[1..], l);
    }
  }

  /** The rows one line contributes to an inner join: one per matching cast
      record, in the cast table's order. */
  function JoinLine(l: Line, cast: seq<CastRecord>, col: KeyColumn): (rows: seq<Candidate>)
    ensures |rows| <= |cast|
    ensures forall r :: r in rows ==> r.line == l && r.cast in cast && Matches(l, r.cast, col)
  {
    if cast == [] then []
    else (if Matches(l, cast[0], col) then [Candidate(l, cast[0])] else []) + JoinLine(l, cast[1..], col)
  }

  /** The inner join of `ls` with `cast` on `(Character = col, Title, Year)`:
      each line pairs with at most every cast record. */
  function Join(ls: seq<Line>, cast: seq<CastRecord>, col: KeyColumn): (rows: seq<Candidate>)
    ensures |rows| <= |ls| * |cast|
  {
    if ls == [] then []
    else
      OneMore(|ls| - 1, |cast|);
      JoinLine(ls[0], cast, col) + Join(ls[1..], cast, col)
  }

  /** Every row of the join pairs a line of its input with a cast record that
      matches it on the key column. */
  lemma {:induction false} JoinSound(ls: seq<Line>, cast: seq<CastRecord>, col: KeyColumn)
    ensures forall r :: r in Join(ls, cast, col) ==> r.line in ls && r.cast in cast && Matches(r.line, r.cast, col)
  {
    if ls != [] {
      JoinSound(ls[1..], cast, col);
    }
  }

  /** A line's rows hold a pair as often as the cast table holds the record,
      when the line is the pair's line and matches the record. */
  lemma JoinLineMultiplicity(l0: Line, cast: seq<CastRecord>, col: KeyColumn, l: Line, c: CastRecord)
    ensures multiset(JoinLine(l0, cast, col))[Candidate(l, c)]
         == if l0 == l && Matches(l, c, col) then multiset(cast)[c] else 0
  {
    if l0 != l {
      assert Candidate(l, c) !in JoinLine(l0, cast, col);
    } else {
      JoinLineCount(l, cast, col, c);
    }
  }

  lemma {:induction false} JoinLineCount(l: Line, cast: seq<CastRecord>, col: KeyColumn, c: CastRecord)
    ensures multiset(JoinLine(l, cast, col))[Candidate(l, c)] == if Matches(l, c, col) then multiset(cast)[c] else 0
  {
    if cast != [] {
      var x := Candidate(l, c);
      var h: seq<Candidate> := if Matches(l, cast[0], col) then [Candidate(l, cast[0])] else [];
      var t := JoinLine(l, cast[1..], col);
      assert JoinLine(l, cast, col) == h + t;
      JoinLineCount(l, cast[1..], col, c);
      CountAppend(h, t, x);
      CountCons(cast, c);
      assert multiset(h)[x] == if Matches(l, c, col) && cast[0] == c then 1 else 0;
    }
  }

  /** The join is an inner join with bag semantics: a pair of a line and a
      matching cast record appears once for every copy of each, so a line
      matching k cast records yields k rows and none is dropped. */
  lemma {:induction false} JoinMultiplicity(ls: seq<Line>, cast: seq<CastRecord>, col: KeyColumn, l: Line, c: CastRecord)
    ensures multiset(Join(ls, cast, col))[Candidate(l, c)]
         == if Matches(l, c, col) then multiset(ls)[l] * multiset(cast)[c] else 0
  {
    if ls != [] {
      var x := Candidate(l, c);
      var head := JoinLine(ls[0], cast, col);
      var tail := Join(ls[1..], cast, col);
      JoinMultiplicity(ls[1..], cast, col, l, c);
      JoinLineMultiplicity(ls[0], cast, col, l, c);
      CountAppend(head, tail, x);
      CountCons(ls, l);
      if Matches(l, c, col) {
        OneMore(multiset(ls[1..])[l], multiset(cast)[c]);
      }
    }
  }

  /** Within one pass, an unclaimed line that matches a cast record on the
      pass's column is paired with it once per copy of the record: a line
      matching k cast records yields k rows. */
  lemma PassMultiplicity(ls: seq<Line>, cast: seq<CastRecord>, col: KeyColumn, claimed: set<int>, l: Line, c: CastRecord)
    requires UniqueIds(ls) && l in ls && l.lineId !in claimed && Matches(l, c, col)
    ensures multiset(Join(Unclaimed(ls, claimed), cast, col))[Candidate(l, c)] == multiset(cast)[c]
  {
    var u := Unclaimed(ls, claimed);
    UniqueCount(ls, l);
    UnclaimedCount(ls, claimed, l);
    assert multiset(u)[l] == 1;
    JoinMultiplicity(u, cast, col, l, c);
  }

  lemma CountAppend<T>(a: seq<T>, b: seq<T>, x: T)
    ensures multiset(a + b)[x] == multiset(a)[x] + multiset(b)[x]
  {
  }

  lemma CountCons<T>(s: seq<T>, x: T)
    requires s != []
    ensures multiset(s)[x] == multiset(s[1..])[x] + if s[0] == x then 1 else 0
  {
    assert s == [s[0]] + s[1..];
  }

  lemma OneMore(n: nat, m: nat)
    ensures m + n * m == (n + 1) * m
  {
  }

  /** A line in the join's input with a matching cast record gives the join
      at least one row. */
  lemma {:induction false} JoinCovers(ls: seq<Line>, cast: seq<CastRecord>, col: KeyColumn, l: Line, c: CastRecord)
    requires l in ls && c in cast && Matches(l, c, col)
    ensures Candidate(l, c) in Join(ls, cast, col)
  {
    JoinMultiplicity(ls, cast, col, l, c);
    assert multiset(Join(ls, cast, col))[Candidate(l, c)] > 0;
  }

  /** The table produced by each pass, given the key columns still to try
      and the line ids claimed so far. */
  function PassesFrom(ls: seq<Line>, cast: seq<CastRecord>, cols: seq<KeyColumn>, claimed: set<int>): (ps: seq<seq<Candidate>>)
    ensures |ps| == |cols|
    decreases |cols|
  {
    if cols == [] then []
    else
      var data := Join(Unclaimed(ls, claimed), cast, cols[0]);
      [data] + PassesFrom(ls, cast, cols[1..], claimed + LineIds(data))
  }

  /** The five passes of the merge over `MERG_COLS`. */
  function Passes(ls: seq<Line>, cast: seq<CastRecord>): (ps: seq<seq<Candidate>>)
    ensures |ps| == |MergeColumns|
    ensures RowsMatch(ps, ls, cast, MergeColumns, {})
    ensures ClaimsDisjoint(ps, {})
  {
    PassRowsMatch(ls, cast, MergeColumns, {});
    PassesDisjoint(ls, cast, MergeColumns, {});
    PassesFrom(ls, cast, MergeColumns, {})
  }

  /** One turn of the merge loop: pass k is the join of the lines not yet
      claimed, and what remains is the passes from column k + 1 on. */
  lemma PassStep(ls: seq<Line>, cast: seq<CastRecord>, cols: seq<KeyColumn>, k: nat, claimed: set<int>)
    requires k < |cols|
    ensures var data := Join(Unclaimed(ls, claimed), cast, cols[k]);
      PassesFrom(ls, cast, cols[k..], claimed) == [data] + PassesFrom(ls, cast, cols[k + 1..], claimed + LineIds(data))
  {
    assert cols[k..][0] == cols[k];
    assert cols[k..][1..] == cols[k + 1..];
  }

  lemma ConcatStep(parts: seq<seq<Candidate>>, data: seq<Candidate>)
    ensures Concat(parts + [data]) == Concat(parts) + data
    ensures LineIds(Concat(parts + [data])) == LineIds(Concat(parts)) + LineIds(data)
  {
    assert (parts + [data])[..|parts|] == parts;
    LineIdsAppend(Concat(parts), data);
  }

  /** The loop invariant of the merge survives one turn. */
  lemma LoopStep(ls: seq<Line>, cast: seq<CastRecord>, cols: seq<KeyColumn>, k: nat, claimed: set<int>,
                 parts: seq<seq<Candidate>>, data: seq<Candidate>, all: seq<seq<Candidate>>)
    requires k < |cols| && data == Join(Unclaimed(ls, claimed), cast, cols[k])
    requires parts + PassesFrom(ls, cast, cols[k..], claimed) == all
    requires claimed == LineIds(Concat(parts))
    ensures (parts + [data]) + PassesFrom(ls, cast, cols[k + 1..], claimed + LineIds(data)) == all
    ensures claimed + LineIds(data) == LineIds(Concat(parts + [data]))
  {
    PassStep(ls, cast, cols, k, claimed);
    var rest := PassesFrom(ls, cast, cols[k + 1..], claimed + LineIds(data));
    assert parts + ([data] + rest) == (parts + [data]) + rest;
    ConcatStep(parts, data);
  }

  /** The merge loop of `load_actor_movie_lines`: the candidate table is the
      concatenation of the five passes, and the claimed set is exactly the
      set of line ids in it. */
  method MergeLines(lines: seq<Line>, cast: seq<CastRecord>) returns (actorLines: seq<Candidate>, mergedLineIds: set<int>)
    ensures actorLines == Concat(Passes(lines, cast))
    ensures mergedLineIds == LineIds(actorLines)
  {
    ghost var all := Passes(lines, cast);
    var mergeCols := MergeColumns;
    mergedLineIds := {};
    var parts: seq<seq<Candidate>> := [];
    for k := 0 to |mergeCols|
      invariant parts + PassesFrom(lines, cast, mergeCols[k..], mergedLineIds) == all
      invariant mergedLineIds == LineIds(Concat(parts))
    {
      var data := Join(Unclaimed(lines, mergedLineIds), cast, mergeCols[k]);
      LoopStep(lines, cast, mergeCols, k, mergedLineIds, parts, data, all);
      mergedLineIds := mergedLineIds + LineIds(data);
      parts := parts + [data];
    }
    assert mergeCols[|mergeCols|..] == [];
    assert parts + [] == parts;
    actorLines := Concat(parts);
  }

  // ---------------------------------------------------------------------
  // What the passes guarantee.

  /** Every row of pass i pairs a line of `ls` that was not claimed before
      the passes began with a cast record that matches it on column i. */
  ghost predicate RowsMatch(ps: seq<seq<Candidate>>, ls: seq<Line>, cast: seq<CastRecord>, cols: seq<KeyColumn>, claimed: set<int>)
    requires |ps| == |cols|
  {
    forall i, r :: 0 <= i < |ps| && r in ps[i] ==>
      r.line in ls && r.line.lineId !in claimed && r.cast in cast && Matches(r.line, r.cast, cols[i])
  }

  /** No pass holds a line id claimed before the passes began, and no two
      passes share a line id. */
  ghost predicate ClaimsDisjoint(ps: seq<seq<Candidate>>, claimed: set<int>) {
    && (forall i :: 0 <= i < |ps| ==> LineIds(ps[i]) !! claimed)
    && (forall i, j :: 0 <= i < j < |ps| ==> LineIds(ps[i]) !! LineIds(ps[j]))
  }

  /** Every row of pass i joins its line to its cast record on key column i. */
  lemma PassRowsMatch(ls: seq<Line>, cast: seq<CastRecord>, cols: seq<KeyColumn>, claimed: set<int>)
    ensures RowsMatch(PassesFrom(ls, cast, cols, claimed), ls, cast, cols, claimed)
  {
    var ps := PassesFrom(ls, cast, cols, claimed);
    forall i, r: Candidate | 0 <= i < |ps| && r in ps[i]
      ensures r.line in ls && r.line.lineId !in claimed && r.cast in cast && Matches(r.line, r.cast, cols[i])
    {
      PassRowMatches(ls, cast, cols, claimed, i, r);
    }
  }

  /** One row of pass i: pass 0 rows come from the join of the unclaimed
      lines, later ones from the remaining passes. */
  lemma {:induction false} PassRowMatches(ls: seq<Line>, cast: seq<CastRecord>, cols: seq<KeyColumn>, claimed: set<int>, i: nat, r: Candidate)
    requires i < |cols| && r in PassesFrom(ls, cast, cols, claimed)[i]
    ensures r.line in ls && r.line.lineId !in claimed && r.cast in cast && Matches(r.line, r.cast, cols[i])
    decreases |cols|
  {
    var data := Join(Unclaimed(ls, claimed), cast, cols[0]);
    PassesIndex(ls, cast, cols, claimed, data, i);
    if i == 0 {
      UnclaimedMembers(ls, claimed);
      JoinSound(Unclaimed(ls, claimed), cast, cols[0]);
    } else {
      PassRowMatches(ls, cast, cols[1..], claimed + LineIds(data), i - 1, r);
      assert cols[i] == cols[1..][i - 1];
    }
  }

  /** A line id claimed in one pass is excluded from every later pass: the
      passes have pairwise disjoint line ids, none of them claimed before. */
  lemma {:induction false} PassesDisjoint(ls: seq<Line>, cast: seq<CastRecord>, cols: seq<KeyColumn>, claimed: set<int>)
    ensures ClaimsDisjoint(PassesFrom(ls, cast, cols, claimed), claimed)
    decreases |cols|
  {
    if cols != [] {
      var data := Join(Unclaimed(ls, claimed), cast, cols[0]);
      var rest := PassesFrom(ls, cast, cols[1..], claimed + LineIds(data));
      PassesDisjoint(ls, cast, cols[1..], claimed + LineIds(data));
      var ps := PassesFrom(ls, cast, cols, claimed);
      assert ps == [data] + rest;
      UnclaimedMembers(ls, claimed);
      JoinSound(Unclaimed(ls, claimed), cast, cols[0]);
      assert LineIds(data) !! claimed;
      forall i | 0 <= i < |ps| ensures LineIds(ps[i]) !! claimed {
        if i > 0 {
          assert ps[i] == rest[i - 1];
        }
      }
      forall i, j | 0 <= i < j < |ps| ensures LineIds(ps[i]) !! LineIds(ps[j]) {
        assert ps[j] == rest[j - 1];
        if i > 0 {
          assert ps[i] == rest[i - 1];
        }
      }
    }
  }

  /** Two rows of the candidate table with the same line id come from the
      same pass, hence from the same key column. */
  lemma SinglePassPerLine(ls: seq<Line>, cast: seq<CastRecord>, i: nat, j: nat, a: Candidate, b: Candidate)
    requires i < 5 && j < 5
    requires a in Passes(ls, cast)[i] && b in Passes(ls, cast)[j]
    requires a.line.lineId == b.line.lineId
    ensures i == j
  {
    PassesDisjoint(ls, cast, MergeColumns, {});
    var ps := Passes(ls, cast);
    assert a.line.lineId in LineIds(ps[i]) && b.line.lineId in LineIds(ps[j]);
  }

  /** Some cast record joins the line on this key column. */
  ghost predicate HasMatch(l: Line, cast: seq<CastRecord>, col: KeyColumn) {
    exists c :: c in cast && Matches(l, c, col)
  }

  /** With unique line ids, an unclaimed line is claimed by a pass exactly
      when some cast record matches it on that pass's key column. */
  lemma PassClaims(ls: seq<Line>, cast: seq<CastRecord>, col: KeyColumn, claimed: set<int>, l: Line)
    requires UniqueIds(ls) && l in ls && l.lineId !in claimed
    ensures l.lineId in LineIds(Join(Unclaimed(ls, claimed), cast, col)) <==> HasMatch(l, cast, col)
  {
    var data := Join(Unclaimed(ls, claimed), cast, col);
    UnclaimedMembers(ls, claimed);
    JoinSound(Unclaimed(ls, claimed), cast, col);
    if l.lineId in LineIds(data) {
      var r :| r in data && r.line.lineId == l.lineId;
      assert r.line in ls;
      assert r.line == l;
    }
    if HasMatch(l, cast, col) {
      var c :| c in cast && Matches(l, c, col);
      JoinCovers(Unclaimed(ls, claimed), cast, col, l, c);
    }
  }

  /** A line id claimed before the passes begin is in none of them. */
  lemma ClaimedExcluded(ls: seq<Line>, cast: seq<CastRecord>, cols: seq<KeyColumn>, claimed: set<int>, id: int, k: nat)
    requires id in claimed && k < |cols|
    ensures id !in LineIds(PassesFrom(ls, cast, cols, claimed)[k])
  {
    PassesDisjoint(ls, cast, cols, claimed);
  }

  /** The first key column on which a line matches wins: with unique line
      ids, an unclaimed line is claimed by pass i exactly when column i
      matches it and no earlier column does. */
  lemma {:induction false} FirstMatchWins(ls: seq<Line>, cast: seq<CastRecord>, cols: seq<KeyColumn>, claimed: set<int>, l: Line, i: nat)
    requires UniqueIds(ls) && l in ls && l.lineId !in claimed && i < |cols|
    ensures l.lineId in LineIds(PassesFrom(ls, cast, cols, claimed)[i]) <==>
              HasMatch(l, cast, cols[i]) && forall j :: 0 <= j < i ==> !HasMatch(l, cast, cols[j])
    decreases |cols|, 1
  {
    if i == 0 {
      var data := Join(Unclaimed(ls, claimed), cast, cols[0]);
      PassClaims(ls, cast, cols[0], claimed, l);
      PassesIndex(ls, cast, cols, claimed, data, 0);
    } else {
      LaterPassWins(ls, cast, cols, claimed, l, i);
    }
  }

  /** The case i > 0 of FirstMatchWins: a line pass 0 claims is excluded
      from the later passes, and one it leaves is decided by them. */
  lemma {:induction false} LaterPassWins(ls: seq<Line>, cast: seq<CastRecord>, cols: seq<KeyColumn>, claimed: set<int>, l: Line, i: nat)
    requires UniqueIds(ls) && l in ls && l.lineId !in claimed && 0 < i < |cols|
    ensures l.lineId in LineIds(PassesFrom(ls, cast, cols, claimed)[i]) <==>
              HasMatch(l, cast, cols[i]) && forall j :: 0 <= j < i ==> !HasMatch(l, cast, cols[j])
    decreases |cols|, 0
  {
    var data := Join(Unclaimed(ls, claimed), cast, cols[0]);
    PassClaims(ls, cast, cols[0], claimed, l);
    if l.lineId in LineIds(data) {
      EarlyClaimExcluded(ls, cast, cols, claimed, data, l, i);
      ShiftNoMatch(l, cast, cols, i);
    } else {
      FirstMatchWins(ls, cast, cols[1..], claimed + LineIds(data), l, i - 1);
      LaterClaim(ls, cast, cols, claimed, data, l, i);
    }
  }

  /** A line pass 0 claims is in no later pass. */
  lemma EarlyClaimExcluded(ls: seq<Line>, cast: seq<CastRecord>, cols: seq<KeyColumn>, claimed: set<int>, data: seq<Candidate>, l: Line, i: nat)
    requires 0 < i < |cols| && data == Join(Unclaimed(ls, claimed), cast, cols[0]) && l.lineId in LineIds(data)
    ensures l.lineId !in LineIds(PassesFrom(ls, cast, cols, claimed)[i])
  {
    PassesIndex(ls, cast, cols, claimed, data, i);
    ClaimedExcluded(ls, cast, cols[1..], claimed + LineIds(data), l.lineId, i - 1);
  }

  /** A line pass 0 leaves is claimed by pass i exactly when it is claimed
      by pass i - 1 of the remaining columns. */
  lemma LaterClaim(ls: seq<Line>, cast: seq<CastRecord>, cols: seq<KeyColumn>, claimed: set<int>, data: seq<Candidate>, l: Line, i: nat)
    requires 0 < i < |cols| && data == Join(Unclaimed(ls, claimed), cast, cols[0]) && !HasMatch(l, cast, cols[0])
    requires l.lineId in LineIds(PassesFrom(ls, cast, cols[1..], claimed + LineIds(data))[i - 1]) <==>
               HasMatch(l, cast, cols[1..][i - 1]) && forall j :: 0 <= j < i - 1 ==> !HasMatch(l, cast, cols[1..][j])
    ensures l.lineId in LineIds(PassesFrom(ls, cast, cols, claimed)[i]) <==>
              HasMatch(l, cast, cols[i]) && forall j :: 0 <= j < i ==> !HasMatch(l, cast, cols[j])
  {
    PassesIndex(ls, cast, cols, claimed, data, i);
    ShiftNoMatch(l, cast, cols, i);
  }

  /** Pass 0 joins the unclaimed lines on the first column; pass i > 0 is
      pass i - 1 of the remaining columns, after pass 0's claims. */
  lemma PassesIndex(ls: seq<Line>, cast: seq<CastRecord>, cols: seq<KeyColumn>, claimed: set<int>, data: seq<Candidate>, i: nat)
    requires i < |cols| && data == Join(Unclaimed(ls, claimed), cast, cols[0])
    ensures i == 0 ==> PassesFrom(ls, cast, cols, claimed)[0] == data
    ensures i > 0 ==> PassesFrom(ls, cast, cols, claimed)[i] == PassesFrom(ls, cast, cols[1..], claimed + LineIds(data))[i - 1]
  {
  }

  /** No match before column i is no match on column 0 and none before
      column i - 1 of the remaining columns. */
  lemma ShiftNoMatch(l: Line, cast: seq<CastRecord>, cols: seq<KeyColumn>, i: nat)
    requires 0 < i < |cols|
    ensures cols[i] == cols[1..][i - 1]
    ensures (forall j :: 0 <= j < i ==> !HasMatch(l, cast, cols[j]))
        <==> !HasMatch(l, cast, cols[0]) && forall j :: 0 <= j < i - 1 ==> !HasMatch(l, cast, cols[1..][j])
  {
    assert forall j :: 0 < j < i ==> cols[j] == cols[1..][j - 1];
  }


  /** With unique line ids, an unclaimed line that matches on one of the
      columns is claimed by one of the passes; `i` is that pass. */
  lemma {:induction false} MatchClaimed(ls: seq<Line>, cast: seq<CastRecord>, cols: seq<KeyColumn>, claimed: set<int>, l: Line, col: KeyColumn)
      returns (i: nat)
    requires UniqueIds(ls) && l in ls && l.lineId !in claimed && col in cols && HasMatch(l, cast, col)
    ensures i < |cols| && l.lineId in LineIds(PassesFrom(ls, cast, cols, claimed)[i])
    decreases |cols|
  {
    var data := Join(Unclaimed(ls, claimed), cast, cols[0]);
    PassClaims(ls, cast, cols[0], claimed, l);
    var claimed' := claimed + LineIds(data);
    var rest := PassesFrom(ls, cast, cols[1..], claimed');
    assert PassesFrom(ls, cast, cols, claimed) == [data] + rest;
    if l.lineId in LineIds(data) {
      i := 0;
    } else {
      assert col != cols[0] && col in cols[1..];
      var i' := MatchClaimed(ls, cast, cols[1..], claimed', l, col);
      i := i' + 1;
    }
  }

  /** A line that matches a cast record on its raw character name is claimed
      by the first pass and by no later one. */
  lemma RawMatchIsFinal(ls: seq<Line>, cast: seq<CastRecord>, l: Line, c: CastRecord)
    requires UniqueIds(ls) && l in ls && c in cast && Matches(l, c, Raw)
    ensures l.lineId in LineIds(Passes(ls, cast)[0])
    ensures forall i :: 1 <= i < 5 ==> l.lineId !in LineIds(Passes(ls, cast)[i])
  {
    FirstMatchWins(ls, cast, MergeColumns, {}, l, 0);
    forall i | 1 <= i < 5 ensures l.lineId !in LineIds(Passes(ls, cast)[i]) {
      FirstMatchWins(ls, cast, MergeColumns, {}, l, i);
      assert MergeColumns[0] == Raw;
    }
  }

  /** The line joins the cast record on at least one of the key columns. */
  ghost predicate MatchesSomeColumn(l: Line, c: CastRecord) {
    exists col :: col in MergeColumns && Matches(l, c, col)
  }

  /** Some cast record joins the line on at least one of the key columns. */
  ghost predicate Matched(l: Line, cast: seq<CastRecord>) {
    exists col :: col in MergeColumns && HasMatch(l, cast, col)
  }

  /** Every row of the candidate table pairs a dialogue line with a cast
      record that matches it on a key column. */
  lemma MergedRowsMatch(ls: seq<Line>, cast: seq<CastRecord>)
    ensures forall r :: r in Concat(Passes(ls, cast)) ==> r.line in ls && r.cast in cast && MatchesSomeColumn(r.line, r.cast)
  {
    var ps := Passes(ls, cast);
    ConcatMembers(ps);
    PassRowsMatch(ls, cast, MergeColumns, {});
    forall r | r in Concat(ps) ensures r.line in ls && r.cast in cast && MatchesSomeColumn(r.line, r.cast) {
      var i :| 0 <= i < |ps| && r in ps[i];
      assert MergeColumns[i] in MergeColumns;
    }
  }

  /** Every line id of the candidate table is that of a line some cast
      record matches. */
  lemma MergedIdsMatched(ls: seq<Line>, cast: seq<CastRecord>)
    ensures forall id :: id in LineIds(Concat(Passes(ls, cast))) ==> exists l :: l in ls && Matched(l, cast) && l.lineId == id
  {
    var ps := Passes(ls, cast);
    ConcatMembers(ps);
    PassRowsMatch(ls, cast, MergeColumns, {});
    forall id | id in LineIds(Concat(ps)) ensures exists l :: l in ls && Matched(l, cast) && l.lineId == id {
      var r :| r in Concat(ps) && r.line.lineId == id;
      var i :| 0 <= i < |ps| && r in ps[i];
      assert MergeColumns[i] in MergeColumns && HasMatch(r.line, cast, MergeColumns[i]);
    }
  }

  /** With unique line ids, every line some cast record matches is in the
      candidate table. */
  lemma MatchedLinesMerged(ls: seq<Line>, cast: seq<CastRecord>, l: Line)
    requires UniqueIds(ls) && l in ls && Matched(l, cast)
    ensures l.lineId in LineIds(Concat(Passes(ls, cast)))
  {
    var ps := Passes(ls, cast);
    var col :| col in MergeColumns && HasMatch(l, cast, col);
    var i := MatchClaimed(ls, cast, MergeColumns, {}, l, col);
    var r: Candidate :| r in ps[i] && r.line.lineId == l.lineId;
    ConcatHas(ps, i, r);
  }

  /** With unique line ids, the candidate table covers exactly the lines that
      some cast record matches on some key column. */
  lemma MergedLineIds(ls: seq<Line>, cast: seq<CastRecord>)
    requires UniqueIds(ls)
    ensures LineIds(Concat(Passes(ls, cast))) == set l | l in ls && Matched(l, cast) :: l.lineId
  {
    MergedIdsMatched(ls, cast);
    forall l | l in ls && Matched(l, cast) ensures l.lineId in LineIds(Concat(Passes(ls, cast))) {
      MatchedLinesMerged(ls, cast, l);
    }
  }
}
