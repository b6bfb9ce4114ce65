/** The rows of the tables the pipeline joins: dialogue lines, cast records
    and the joined candidate rows. Field names follow the column names of
    movie_prediction/constants.py. */
module Tables {
  import opened Wrappers
  import opened Names

  /** A dialogue line as the loader delivers it: `Character` (sanitized,
      `None` for a missing name), `Title`, `Year`, `Utterance`. */
  datatype DialogueRow = DialogueRow(character: Option<string>, title: string, year: int, utterance: string)

  /** A dialogue line with its `Line ID`. */
  datatype Line = Line(lineId: int, character: Option<string>, title: string, year: int, utterance: string)

  /** A cast record: `Character (Raw)`, the four name variants that
      `extract_names` derives from it, `Principal`, `Title`, `Year`. */
  datatype CastRecord = CastRecord(raw: string, names: NameVariants, principal: string, title: string, year: int)

  /** The five key columns of the merge, in the order they are tried. */
  datatype KeyColumn = Raw | First | Last | FirstLast | Full

  const MergeColumns: seq<KeyColumn> := [Raw, First, Last, FirstLast, Full]

  /** The value of a key column of a cast record; `None` where the variant is absent. */
  function Key(c: CastRecord, col: KeyColumn): Option<string> {
    match col
    case Raw => Some(c.raw)
    case First => Some(c.names.first)
    case Last => c.names.last
    case FirstLast => c.names.firstLast
    case Full => Some(c.names.full)
  }

  /** The join condition `[Character, Title, Year] == [col, Title, Year]`;
      missing keys match each other, as they do in a pandas merge. */
  predicate Matches(l: Line, c: CastRecord, col: KeyColumn) {
    l.character == Key(c, col) && l.title == c.title && l.year == c.year
  }

  /** A line without a character name matches only where the cast record
      lacks the variant too, which can happen on the last-name and
      first+last columns only; the raw, first and full columns always hold
      a name. */
  lemma MatchesMissing(l: Line, c: CastRecord, col: KeyColumn)
    requires l.character == None
    ensures Matches(l, c, col) <==>
              (col == Last || col == FirstLast) && Key(c, col) == None && l.title == c.title && l.year == c.year
  {
  }

  /** A row of the inner join: every column of the line and of the cast record. */
  datatype Candidate = Candidate(line: Line, cast: CastRecord) {
    function LineId(): int { line.lineId }
    function Principal(): string { cast.principal }
  }

  function LineIds(rows: seq<Candidate>): set<int> {
    set r | r in rows :: r.line.lineId
  }

  lemma LineIdsAppend(a: seq<Candidate>, b: seq<Candidate>)
    ensures LineIds(a + b) == LineIds(a) + LineIds(b)
  {
    assert forall r :: r in a + b <==> r in a || r in b;
  }

  /** `pd.concat` of a list of tables. */
  function Concat(parts: seq<seq<Candidate>>): seq<Candidate> {
    if parts == [] then [] else Concat(parts[..|parts| - 1]) + parts[|parts| - 1]
  }

  /** A row of the concatenation is a row of one of the parts, and back. */
  lemma {:induction false} ConcatMembers(parts: seq<seq<Candidate>>)
    ensures forall r :: r in Concat(parts) <==> exists i :: 0 <= i < |parts| && r in parts[i]
  {
    if parts != [] {
      var init := parts[..|parts| - 1];
      ConcatMembers(init);
      assert forall i :: 0 <= i < |init| ==> init[i] == parts[i];
    }
  }

  /** A row of one part is a row of the concatenation. */
  lemma {:induction false} ConcatHas(parts: seq<seq<Candidate>>, i: nat, r: Candidate)
    requires i < |parts| && r in parts[i]
    ensures r in Concat(parts)
  {
    if i < |parts| - 1 {
      var init := parts[..|parts| - 1];
      assert init[i] == parts[i];
      ConcatHas(init, i, r);
    }
  }
}
