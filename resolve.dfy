/** Conflict resolution in movie_prediction/data_loaders/processed.py: count
    the ambiguous rows, attach to each candidate row the number of candidate
    rows of its principal, sort by (count, principal) descending and keep the
    first row of every line id. */
module Resolution {
  import opened Wrappers
  import opened Tables

  // ---------------------------------------------------------------------
  // `actor_lines[LINE_ID].duplicated(keep=False).value_counts()[True]`

  /** How many rows carry line id `id`. */
  function IdCount(rows: seq<Candidate>, id: int): nat {
    if rows == [] then 0 else (if rows[0].LineId() == id then 1 else 0) + IdCount(rows[1..], id)
  }

  /** `duplicated(keep=False)`: each row is marked when its line id occurs
      more than once. */
  function Duplicated(rows: seq<Candidate>): (d: seq<bool>)
    ensures |d| == |rows|
  {
    seq(|rows|, i requires 0 <= i < |rows| => IdCount(rows, rows[i].LineId()) > 1)
  }

  function CountTrue(bs: seq<bool>): (n: nat)
    ensures n <= |bs|
    ensures n == 0 <==> forall i :: 0 <= i < |bs| ==> !bs[i]
  {
    if bs == [] then 0 else (if bs[0] then 1 else 0) + CountTrue(bs[1..])
  }

  /** No two candidate rows share a line id. */
  ghost predicate DistinctLineIds(rows: seq<Candidate>) {
    forall i, j :: 0 <= i < |rows| && 0 <= j < |rows| && i != j ==> rows[i].LineId() != rows[j].LineId()
  }

  /** Looking up `True` in the value counts of an all-`False` column raises `KeyError`. */
  datatype AmbiguityError = NoAmbiguousLines

  /** The number of ambiguous rows, or the `KeyError` of the lookup when no
      row is marked. */
  function AmbiguousRowCount(rows: seq<Candidate>): (r: Result<nat, AmbiguityError>)
    ensures r.Err? <==> forall i :: 0 <= i < |rows| ==> !Duplicated(rows)[i]
    ensures r.Ok? ==> r.value <= |rows|
  {
    var n := CountTrue(Duplicated(rows));
    if n == 0 then Err(NoAmbiguousLines) else Ok(n)
  }

  lemma {:induction false} IdCountPair(rows: seq<Candidate>, i: nat, j: nat)
    requires i < |rows| && j < |rows| && i != j && rows[i].LineId() == rows[j].LineId()
    ensures IdCount(rows, rows[i].LineId()) >= 2
  {
    if i > 0 && j > 0 {
      IdCountPair(rows[1..], i - 1, j - 1);
    } else {
      var k := if i == 0 then j else i;
      IdCountAtLeastOne(rows[1..], k - 1, rows[0].LineId());
    }
  }

  lemma {:induction false} IdCountAtLeastOne(rows: seq<Candidate>, k: nat, id: int)
    requires k < |rows| && rows[k].LineId() == id
    ensures IdCount(rows, id) >= 1
  {
    if k > 0 {
      IdCountAtLeastOne(rows[1..], k - 1, id);
    }
  }

  /** A line id held by one row only is counted once. */
  lemma {:induction false} IdCountSingle(rows: seq<Candidate>, id: int)
    requires forall j :: 0 <= j < |rows| ==> rows[j].LineId() != id
    ensures IdCount(rows, id) == 0
  {
    if rows != [] {
      IdCountSingle(rows[1..], id);
    }
  }

  lemma {:induction false} IdCountOnly(rows: seq<Candidate>, i: nat)
    requires i < |rows|
    requires forall j :: 0 <= j < |rows| && j != i ==> rows[j].LineId() != rows[i].LineId()
    ensures IdCount(rows, rows[i].LineId()) == 1
  {
    var id := rows[i].LineId();
    if i == 0 {
      IdCountSingle(rows[1..], id);
    } else {
      IdCountOnly(rows[1..], i - 1);
    }
  }

  /** A row is marked exactly when another row carries its line id. */
  lemma DuplicatedMarksRepeats(rows: seq<Candidate>, i: nat)
    requires i < |rows|
    ensures Duplicated(rows)[i] <==> exists j :: 0 <= j < |rows| && j != i && rows[j].LineId() == rows[i].LineId()
  {
    if exists j :: 0 <= j < |rows| && j != i && rows[j].LineId() == rows[i].LineId() {
      var j :| 0 <= j < |rows| && j != i && rows[j].LineId() == rows[i].LineId();
      IdCountPair(rows, i, j);
    } else {
      IdCountOnly(rows, i);
    }
  }

  /** The ambiguity count fails exactly when no line id is repeated among the
      candidates (the empty table included); otherwise it counts at least the
      two rows of a repeated line id. */
  lemma AmbiguousRowCountFails(rows: seq<Candidate>)
    ensures AmbiguousRowCount(rows).Err? <==> DistinctLineIds(rows)
    ensures AmbiguousRowCount(rows).Ok? ==> 2 <= AmbiguousRowCount(rows).value <= |rows|
  {
    var d := Duplicated(rows);
    if DistinctLineIds(rows) {
      forall i | 0 <= i < |d| ensures !d[i] {
        IdCountOnly(rows, i);
      }
    } else {
      var i, j :| 0 <= i < |rows| && 0 <= j < |rows| && i != j && rows[i].LineId() == rows[j].LineId();
      IdCountPair(rows, i, j);
      IdCountPair(rows, j, i);
      assert d[i] && d[j];
      CountTrueTwo(d, i, j);
    }
  }

  lemma {:induction false} CountTrueTwo(bs: seq<bool>, i: nat, j: nat)
    requires i < |bs| && j < |bs| && i != j && bs[i] && bs[j]
    ensures CountTrue(bs) >= 2
  {
    if i > 0 && j > 0 {
      CountTrueTwo(bs[1..], i - 1, j - 1);
    } else {
      var k := if i == 0 then j else i;
      assert bs[1..][k - 1];
    }
  }

  // ---------------------------------------------------------------------
  // `actor_lines[PRINCIPAL].value_counts()`, left-merged on `Principal`.

  /** The `Principal` column. */
  function Principals(rows: seq<Candidate>): (ps: seq<string>)
    ensures |ps| == |rows|
    ensures forall i :: 0 <= i < |rows| ==> ps[i] == rows[i].Principal()
  {
    seq(|rows|, i requires 0 <= i < |rows| => rows[i].Principal())
  }

  /** The value counts, built in one pass over the rows: every principal of
      the table is a key, and its value is its number of rows, duplicates included. */
  function ValueCounts(rows: seq<Candidate>): (m: map<string, nat>)
    ensures forall p :: p in m <==> p in Principals(rows)
    ensures forall p :: p in m ==> m[p] == multiset(Principals(rows))[p]
  {
    if rows == [] then map[]
    else
      var init := rows[..|rows| - 1];
      var m := ValueCounts(init);
      var p := rows[|rows| - 1].Principal();
      assert Principals(rows) == Principals(init) + [p];
      m[p := (if p in m then m[p] else 0) + 1]
  }

  /** A candidate row with its `Principal Lines` column. */
  datatype Resolved = Resolved(row: Candidate, principalLines: nat) {
    function LineId(): int { row.LineId() }
    function Principal(): string { row.Principal() }
  }

  /** The left merge with the value counts: the rows keep their order, and
      each one's `Principal Lines` is the number of candidate rows naming
      its principal. */
  function WithPrincipalLines(rows: seq<Candidate>): (r: seq<Resolved>)
    ensures |r| == |rows|
    ensures forall i :: 0 <= i < |rows| ==>
              r[i].row == rows[i] && r[i].principalLines == multiset(Principals(rows))[rows[i].Principal()]
  {
    var counts := ValueCounts(rows);
    assert forall i :: 0 <= i < |rows| ==> Principals(rows)[i] in counts;
    seq(|rows|, i requires 0 <= i < |rows| => Resolved(rows[i], counts[rows[i].Principal()]))
  }

  // ---------------------------------------------------------------------
  // The sort key: `(Principal Lines, Principal)`, both descending.

  /** Python's `a <= b` on strings: lexicographic by code point, a proper
      prefix first. */
  predicate StrLe(a: string, b: string) {
    a == [] || (b != [] && (a[0] < b[0] || (a[0] == b[0] && StrLe(a[1..], b[1..]))))
  }

  lemma {:induction false} StrLeTotal(a: string, b: string)
    ensures StrLe(a, b) || StrLe(b, a)
  {
    if a != [] && b != [] && a[0] == b[0] {
      StrLeTotal(a[1..], b[1..]);
    }
  }

  lemma {:induction false} StrLeTrans(a: string, b: string, c: string)
    requires StrLe(a, b) && StrLe(b, c)
    ensures StrLe(a, c)
  {
    if a != [] && a[0] == b[0] && b[0] == c[0] {
      StrLeTrans(a[1..], b[1..], c[1..]);
    }
  }

  lemma {:induction false} StrLeAntisym(a: string, b: string)
    requires StrLe(a, b) && StrLe(b, a)
    ensures a == b
  {
    if a != [] {
      StrLeAntisym(a[1..], b[1..]);
      assert a == [a[0]] + a[1..] && b == [b[0]] + b[1..];
    }
  }

  /** `x` sorts no later than `y`: a greater count, or an equal count and a
      principal that is not smaller. */
  predicate RanksAbove(x: Resolved, y: Resolved) {
    x.principalLines > y.principalLines
    || (x.principalLines == y.principalLines && StrLe(y.Principal(), x.Principal()))
  }

  lemma RanksAboveTotal(x: Resolved, y: Resolved)
    ensures RanksAbove(x, y) || RanksAbove(y, x)
  {
    StrLeTotal(x.Principal(), y.Principal());
  }

  lemma RanksAboveTrans(x: Resolved, y: Resolved, z: Resolved)
    requires RanksAbove(x, y) && RanksAbove(y, z)
    ensures RanksAbove(x, z)
  {
    if x.principalLines == y.principalLines == z.principalLines {
      StrLeTrans(z.Principal(), y.Principal(), x.Principal());
    }
  }

  /** Two rows that each rank above the other agree on both sort fields. */
  lemma RanksAboveAntisym(x: Resolved, y: Resolved)
    requires RanksAbove(x, y) && RanksAbove(y, x)
    ensures x.principalLines == y.principalLines && x.Principal() == y.Principal()
  {
    StrLeAntisym(x.Principal(), y.Principal());
  }

  ghost predicate SortedDesc(s: seq<Resolved>) {
    forall i, j :: 0 <= i < j < |s| ==> RanksAbove(s[i], s[j])
  }

  lemma SortedCons(x: Resolved, s: seq<Resolved>)
    requires SortedDesc(s)
    requires forall k :: 0 <= k < |s| ==> RanksAbove(x, s[k])
    ensures SortedDesc([x] + s)
  {
    var r := [x] + s;
    forall i, j | 0 <= i < j < |r| ensures RanksAbove(r[i], r[j]) {
      assert r[j] == s[j - 1];
      if i > 0 { assert r[i] == s[i - 1]; }
    }
  }

  /** A row that ranks above the head of a sorted sequence ranks above all of it. */
  lemma AboveHead(x: Resolved, s: seq<Resolved>)
    requires SortedDesc(s) && s != [] && RanksAbove(x, s[0])
    ensures forall k :: 0 <= k < |s| ==> RanksAbove(x, s[k])
  {
    forall k | 0 < k < |s| ensures RanksAbove(x, s[k]) {
      RanksAboveTrans(x, s[0], s[k]);
    }
  }

  /** The head of a sorted sequence ranks above every row of a permutation of
      its tail with `x` added, when it ranks above `x`. */
  lemma HeadAbove(h: Resolved, x: Resolved, tail: seq<Resolved>, rest: seq<Resolved>)
    requires SortedDesc([h] + tail) && RanksAbove(h, x)
    requires multiset(rest) == multiset(tail) + multiset{x}
    ensures forall k :: 0 <= k < |rest| ==> RanksAbove(h, rest[k])
  {
    var s := [h] + tail;
    forall k | 0 <= k < |rest| ensures RanksAbove(h, rest[k]) {
      assert rest[k] in multiset(rest);
      if rest[k] != x {
        assert rest[k] in multiset(tail);
        var j :| 0 <= j < |tail| && tail[j] == rest[k];
        assert s[0] == h && s[j + 1] == rest[k];
        assert RanksAbove(s[0], s[j + 1]);
      }
    }
  }

  /** Inserts `x` before the first row it ranks above or ties with. */
  function Insert(x: Resolved, s: seq<Resolved>): (r: seq<Resolved>)
    requires SortedDesc(s)
    ensures SortedDesc(r)
    ensures multiset(r) == multiset(s) + multiset{x}
  {
    if s == [] then [x]
    else if RanksAbove(x, s[0]) then
      AboveHead(x, s);
      SortedCons(x, s);
      [x] + s
    else
      RanksAboveTotal(x, s[0]);
      assert s == [s[0]] + s[1..];
      assert SortedDesc(s[1..]);
      var rest := Insert(x, s[1..]);
      HeadAbove(s[0], x, s[1..], rest);
      SortedCons(s[0], rest);
      [s[0]] + rest
  }

  /** `sort_values(by=[PRINCIPAL_LINES, PRINCIPAL], ascending=False)`: the
      rows in descending order of (count, principal), ties in their original order. */
  function SortDesc(s: seq<Resolved>): (r: seq<Resolved>)
    ensures SortedDesc(r)
    ensures multiset(r) == multiset(s)
  {
    if s == [] then []
    else
      assert s == [s[0]] + s[1..];
      Insert(s[0], SortDesc(s[1..]))
  }

  // ---------------------------------------------------------------------
  // `drop_duplicates(subset=[LINE_ID], keep='first')`

  function ResolvedIds(s: seq<Resolved>): set<int> {
    set x | x in s :: x.LineId()
  }

  lemma ResolvedIdsCons(x: Resolved, t: seq<Resolved>)
    ensures ResolvedIds([x] + t) == {x.LineId()} + ResolvedIds(t)
  {
    assert forall y :: y in [x] + t <==> y == x || y in t;
  }

  /** No two rows share a line id. */
  ghost predicate DistinctResolvedIds(r: seq<Resolved>) {
    forall i, j :: 0 <= i < j < |r| ==> r[i].LineId() != r[j].LineId()
  }

  /** Keeps the first row of every line id not in `seen`. Every kept row is
      a row of the input with a line id not seen before, and the kept line
      ids are the input's minus those seen. */
  function KeepFirst(s: seq<Resolved>, seen: set<int>): (r: seq<Resolved>)
    ensures forall x :: x in r ==> x in s && x.LineId() !in seen
    ensures ResolvedIds(r) == ResolvedIds(s) - seen
  {
    if s == [] then []
    else
      assert s == [s[0]] + s[1..];
      ResolvedIdsCons(s[0], s[1..]);
      if s[0].LineId() in seen then KeepFirst(s[1..], seen)
      else
        var rest := KeepFirst(s[1..], seen + {s[0].LineId()});
        ResolvedIdsCons(s[0], rest);
        [s[0]] + rest
  }

  /** `drop_duplicates(subset=[LINE_ID], keep='first')`: one row per line id
      of the input and no other, each a row of the input. */
  function DropDuplicateLines(s: seq<Resolved>): (r: seq<Resolved>)
    ensures forall x :: x in r ==> x in s
    ensures ResolvedIds(r) == ResolvedIds(s)
    ensures DistinctResolvedIds(r)
  {
    KeepFirstDistinct(s, {});
    KeepFirst(s, {})
  }

  /** `keep='first'`: a kept row is the first row of the input with its line
      id. */
  lemma {:induction false} KeepFirstIsFirst(s: seq<Resolved>, seen: set<int>, x: Resolved)
    requires x in KeepFirst(s, seen)
    ensures exists j :: 0 <= j < |s| && s[j] == x && forall k :: 0 <= k < j ==> s[k].LineId() != x.LineId()
  {
    var seen' := if s[0].LineId() in seen then seen else seen + {s[0].LineId()};
    if x != s[0] || s[0].LineId() in seen {
      assert x in KeepFirst(s[1..], seen');
      KeepFirstIsFirst(s[1..], seen', x);
      var j :| 0 <= j < |s[1..]| && s[1..][j] == x && forall k :: 0 <= k < j ==> s[1..][k].LineId() != x.LineId();
      assert s[j + 1] == x;
      forall k | 0 <= k < j + 1 ensures s[k].LineId() != x.LineId() {
        if k > 0 {
          assert s[k] == s[1..][k - 1];
        }
      }
    } else {
      assert s[0] == x;
    }
  }

  /** `drop_duplicates(keep='first')`: every row left is the first row of the
      input with its line id. */
  lemma DropDuplicateLinesKeepsFirst(s: seq<Resolved>, x: Resolved)
    requires x in DropDuplicateLines(s)
    ensures exists j :: 0 <= j < |s| && s[j] == x && forall k :: 0 <= k < j ==> s[k].LineId() != x.LineId()
  {
    KeepFirstIsFirst(s, {}, x);
  }

  /** No two kept rows share a line id. */
  lemma {:induction false} KeepFirstDistinct(s: seq<Resolved>, seen: set<int>)
    ensures DistinctResolvedIds(KeepFirst(s, seen))
  {
    if s != [] {
      if s[0].LineId() in seen {
        KeepFirstDistinct(s[1..], seen);
      } else {
        var seen' := seen + {s[0].LineId()};
        var rest := KeepFirst(s[1..], seen');
        KeepFirstDistinct(s[1..], seen');
        var r := KeepFirst(s, seen);
        assert r == [s[0]] + rest;
        forall i, j | 0 <= i < j < |r| ensures r[i].LineId() != r[j].LineId() {
          assert r[j] == rest[j - 1] && rest[j - 1] in rest;
          if i > 0 {
            assert r[i] == rest[i - 1];
          }
        }
      }
    }
  }

  /** On a sorted input the kept row of a line id ranks above every row of
      that line id. */
  lemma {:induction false} KeepFirstBest(s: seq<Resolved>, seen: set<int>)
    requires SortedDesc(s)
    ensures forall x, y :: x in KeepFirst(s, seen) && y in s && y.LineId() == x.LineId() ==> RanksAbove(x, y)
  {
    if s != [] {
      assert SortedDesc(s[1..]);
      var seen' := if s[0].LineId() in seen then seen else seen + {s[0].LineId()};
      var rest := KeepFirst(s[1..], seen');
      KeepFirstBest(s[1..], seen');
      assert s == [s[0]] + s[1..];
      forall x, y | x in KeepFirst(s, seen) && y in s && y.LineId() == x.LineId() ensures RanksAbove(x, y) {
        if x !in rest {
          if y != s[0] {
            var j :| 0 < j < |s| && s[j] == y;
          } else {
            RanksAboveTotal(x, x);
          }
        }
      }
    }
  }

  /** Dropping rows keeps a sorted input sorted. */
  lemma {:induction false} KeepFirstSorted(s: seq<Resolved>, seen: set<int>)
    requires SortedDesc(s)
    ensures SortedDesc(KeepFirst(s, seen))
  {
    if s != [] {
      assert SortedDesc(s[1..]);
      if s[0].LineId() in seen {
        KeepFirstSorted(s[1..], seen);
      } else {
        var rest := KeepFirst(s[1..], seen + {s[0].LineId()});
        KeepFirstSorted(s[1..], seen + {s[0].LineId()});
        forall k | 0 <= k < |rest| ensures RanksAbove(s[0], rest[k]) {
          assert rest[k] in rest;
          assert rest[k] in s[1..];
          var m :| 0 <= m < |s[1..]| && s[1..][m] == rest[k];
          assert s[m + 1] == rest[k];
        }
        SortedCons(s[0], rest);
      }
    }
  }

  // ---------------------------------------------------------------------
  // The resolution.

  /** Counts attached, sorted, first row per line id kept: exactly one row
      per line id of the candidates, and no other line id. */
  function Resolve(rows: seq<Candidate>): (r: seq<Resolved>)
    ensures ResolvedIds(r) == LineIds(rows)
    ensures DistinctResolvedIds(r)
  {
    var w := WithPrincipalLines(rows);
    SortKeepsIds(w);
    WithPrincipalLinesIds(rows);
    DropDuplicateLines(SortDesc(w))
  }

  lemma SortKeepsIds(w: seq<Resolved>)
    ensures ResolvedIds(SortDesc(w)) == ResolvedIds(w)
  {
    var sorted := SortDesc(w);
    forall x ensures x in sorted <==> x in w {
      assert x in sorted <==> x in multiset(sorted);
      assert x in w <==> x in multiset(w);
    }
  }

  lemma WithPrincipalLinesIds(rows: seq<Candidate>)
    ensures ResolvedIds(WithPrincipalLines(rows)) == LineIds(rows)
  {
    var w := WithPrincipalLines(rows);
    forall id | id in LineIds(rows) ensures id in ResolvedIds(w) {
      var c :| c in rows && c.LineId() == id;
      var i :| 0 <= i < |rows| && rows[i] == c;
      assert w[i] in w;
    }
  }

  /** Each resolved row is a candidate row carrying its principal's count. */
  lemma ResolveRowsAreCandidates(rows: seq<Candidate>)
    ensures forall x :: x in Resolve(rows) ==>
              x.row in rows && x.principalLines == multiset(Principals(rows))[x.Principal()]
  {
    var w := WithPrincipalLines(rows);
    var sorted := SortDesc(w);
    forall x | x in Resolve(rows)
      ensures x.row in rows && x.principalLines == multiset(Principals(rows))[x.Principal()]
    {
      assert x in multiset(sorted);
      var i :| 0 <= i < |w| && w[i] == x;
    }
  }

  /** The row kept for a line id has the greatest (count, principal) among
      that line's candidate rows, and any candidate row that ties with it
      names the same principal: the resolved principal does not depend on
      how ties are ordered. */
  lemma ResolveKeepsBest(rows: seq<Candidate>)
    ensures forall x, y :: x in Resolve(rows) && y in WithPrincipalLines(rows) && y.LineId() == x.LineId() ==>
              && RanksAbove(x, y)
              && (RanksAbove(y, x) ==> y.Principal() == x.Principal() && y.principalLines == x.principalLines)
  {
    var w := WithPrincipalLines(rows);
    var sorted := SortDesc(w);
    KeepFirstBest(sorted, {});
    forall x, y | x in Resolve(rows) && y in w && y.LineId() == x.LineId()
      ensures RanksAbove(x, y)
      ensures RanksAbove(y, x) ==> y.Principal() == x.Principal() && y.principalLines == x.principalLines
    {
      assert y in multiset(w);
      if RanksAbove(y, x) { RanksAboveAntisym(x, y); }
    }
  }

  /** The resolved table comes out in descending (count, principal) order. */
  lemma ResolveSorted(rows: seq<Candidate>)
    ensures SortedDesc(Resolve(rows))
  {
    KeepFirstSorted(SortDesc(WithPrincipalLines(rows)), {});
  }
}
