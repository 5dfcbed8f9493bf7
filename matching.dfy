/** The place-name matcher of cenpy/utilities.py: `_fuzzy_match` and its
    tie-breaker `_break_ties`.

    A query such as "Los Angeles, CA" is split at commas into a place name
    and an optional state. Every candidate is scored against the name with a
    partial-ratio scorer; with a state, only candidates ending with it are
    kept; the best-scoring candidate wins, and ties at the best score are
    broken by a full-ratio scorer and then by candidate order. Both scorers
    are parameters: any function into 0..100. */
module Matching {
  import opened Optional
  import opened Text
  import opened Tables

  /** A similarity score, as fuzz.partial_ratio and fuzz.ratio return. */
  type Score = x: int | 0 <= x <= 100

  /** A string-similarity scorer. */
  type Scorer = (string, string) -> Score

  /** One row of the scored table: the row's index label (the candidate's
      position in the candidate list), the candidate text, its primary
      (partial-ratio) score and, once the tie-break has added that column,
      its secondary (full-ratio) score. */
  datatype Row = Row(index: nat, target: string, score: Score, score2: Option<Score>)

  /** The advisory warning of the tie-break: the query, the candidate picked
      and the names of all candidates it could not tell apart. */
  datatype Ambiguity = Ambiguity(query: string, chosen: string, tied: seq<string>)

  /** A successful match: the winning row and, when asked for, the scored
      table sorted by primary score; `warning` replaces the warn() call. */
  datatype Match = Match(best: Row, table: Option<seq<Row>>, warning: Option<Ambiguity>)

  datatype MatchError =
    | MalformedQuery(query: string)
    | UnboundLocal(name: string)
    | StateNotFound(state: string, query: string)
    | NoCandidates

  datatype Result<T> = Ok(value: T) | Err(error: MatchError)

  function ScoreKey(r: Row): int { r.score }

  /** The score2 column; every row has it once the tie-break has added it. */
  function Score2Key(r: Row): int { if r.score2.Some? then r.score2.value else -1 }

  function IndexKey(r: Row): int { r.index }

  // ---------------------------------------------------------------------
  // The query

  /** The comma split of the query, refused when it has more than two
      parts; the failure names the query. */
  function SplitQuery(matchtarget: string): (r: Result<seq<string>>)
    ensures r.Ok? <==> Count(matchtarget, ',') <= 1
    ensures r.Ok? ==> r.value == Split(matchtarget, ',') && 1 <= |r.value| <= 2
    ensures r.Err? ==> r.error == MalformedQuery(matchtarget)
  {
    var split := Split(matchtarget, ',');
    if |split| == 2 || |split| == 1 then Ok(split) else Err(MalformedQuery(matchtarget))
  }

  /** The same split as the source writes it: the message of its failure
      formats `target`, which no branch has bound on that path, so the call
      dies with UnboundLocalError instead of the intended message. */
  function SplitQueryAsWritten(matchtarget: string): (r: Result<seq<string>>)
    ensures r.Err? ==> r.error == UnboundLocal("target")
  {
    var split := Split(matchtarget, ',');
    if |split| == 2 || |split| == 1 then Ok(split) else Err(UnboundLocal("target"))
  }

  /** The query "a,b,c" shows the difference: as written the failure is a
      name error that does not mention the query at all. */
  lemma MalformedQueryAsWritten()
    ensures SplitQueryAsWritten("a,b,c") == Err(UnboundLocal("target"))
    ensures SplitQuery("a,b,c") == Err(MalformedQuery("a,b,c"))
  {
    assert Count("a,b,c", ',') == 2 by {
      assert "a,b,c"[1..] == ",b,c";
      assert ",b,c"[1..] == "b,c";
      assert "b,c"[1..] == ",c";
      assert ",c"[1..] == "c";
      assert "c"[1..] == "";
    }
  }

  // ---------------------------------------------------------------------
  // The scored table

  /** The scored table: one row per candidate, labelled by its position and
      scored with `partial` between the stripped, lower-cased name and the
      lower-cased candidate. */
  function ScoreTable(target: string, matchlist: seq<string>, partial: Scorer): seq<Row> {
    seq(|matchlist|, i requires 0 <= i < |matchlist| =>
      Row(i, matchlist[i], partial(Lower(Strip(target)), Lower(matchlist[i])), None))
  }

  /** The rows whose lower-cased candidate ends with the stripped,
      lower-cased state. */
  function InState(table: seq<Row>, state: string): seq<Row> {
    Filter(table, (r: Row) => EndsWith(Lower(r.target), Lower(Strip(state))))
  }

  /** How many rows share the best primary score. */
  function TopCount(table: seq<Row>): nat
    requires |table| > 0
  {
    |AtMax(table, ScoreKey)|
  }

  /** The table with the score2 column added: `ratio` between the stripped,
      lower-cased name and each lower-cased candidate. */
  function WithScore2(target: string, table: seq<Row>, ratio: Scorer): seq<Row> {
    var name := Lower(Strip(target));
    seq(|table|, i requires 0 <= i < |table| =>
      table[i].(score2 := Some(ratio(name, Lower(table[i].target)))))
  }

  /** What `_break_ties` leaves behind: the caller's table, now carrying the
      score2 column, the index label and row it picked, and its warning. */
  datatype Tie = Tie(table: seq<Row>, ixmax: nat, row: Row, warning: Option<Ambiguity>)

  function Targets(rows: seq<Row>): seq<string> {
    seq(|rows|, i requires 0 <= i < |rows| => rows[i].target)
  }

  /** `_break_ties`: among the rows at the best primary score, keep those at
      the best secondary score and take the first of them (idxmax); warn
      when more than one is left. */
  function BreakTies(matchtarget: string, table: seq<Row>, ratio: Scorer): Tie
    requires |table| > 0
  {
    var split := Split(matchtarget, ',');
    // both branches of the source take the first part as the name
    var target := split[0];
    var scored := WithScore2(target, table, ratio);
    var amongWinners := AtMax(scored, ScoreKey);
    var doubleWinners := AtMax(amongWinners, Score2Key);
    var ixmax := IdxMax(doubleWinners, Score2Key);
    var row := doubleWinners[ixmax];
    var warning :=
      if |doubleWinners| > 1 then Some(Ambiguity(matchtarget, row.target, Targets(doubleWinners)))
      else None;
    Tie(scored, row.index, row, warning)
  }

  /** The selection step, which `_fuzzy_match` repeats word for word for a
      query with and without a state: break a tie at the best score,
      otherwise take the first best row (idxmax), and return the table
      sorted by score when asked. An empty table has no idxmax. */
  function Pick(matchtarget: string, table: seq<Row>, returnTable: bool, ratio: Scorer): Result<Match> {
    if |table| == 0 then Err(NoCandidates)
    else if TopCount(table) > 1 then
      var tie := BreakTies(matchtarget, table, ratio);
      Ok(Match(tie.row, if returnTable then Some(SortBy(tie.table, ScoreKey)) else None, tie.warning))
    else
      var ixmax := IdxMax(table, ScoreKey);
      Ok(Match(table[ixmax], if returnTable then Some(SortBy(table, ScoreKey)) else None, None))
  }

  /** `_fuzzy_match`: the best candidate of `matchlist` for `matchtarget`,
      with `partial` as the primary scorer and `ratio` as the tie-breaker. */
  function FuzzyMatch(matchtarget: string, matchlist: seq<string>, returnTable: bool,
                      partial: Scorer, ratio: Scorer): Result<Match>
  {
    match SplitQuery(matchtarget)
    case Err(e) => Err(e)
    case Ok(split) =>
      var target := split[0];
      var table := ScoreTable(target, matchlist, partial);
      if |split| == 1 then Pick(matchtarget, table, returnTable, ratio)
      else
        var state := split[1];
        var inState := InState(table, state);
        if |inState| == 0 then Err(StateNotFound(state, matchtarget))
        else Pick(matchtarget, inState, returnTable, ratio)
  }

  // ---------------------------------------------------------------------
  // Table-level properties

  /** The query's name part as both scorers see it: stripped and lower-cased. */
  function QueryName(matchtarget: string): string {
    Lower(Strip(Split(matchtarget, ',')[0]))
  }

  /** The tie-break score of a candidate text. */
  function Secondary(matchtarget: string, ratio: Scorer, text: string): Score {
    ratio(QueryName(matchtarget), Lower(text))
  }

  /** A row with its score2 cell filled in for the name `name`. */
  function Rescored(r: Row, name: string, ratio: Scorer): Row {
    r.(score2 := Some(ratio(name, Lower(r.target))))
  }

  /** Adding the score2 column keeps every row and its position. */
  lemma WithScore2Rows(target: string, table: seq<Row>, ratio: Scorer)
    ensures var scored := WithScore2(target, table, ratio);
      && |scored| == |table|
      && forall i :: 0 <= i < |table| ==> scored[i] == Rescored(table[i], Lower(Strip(target)), ratio)
  {
  }

  /** Adding the score2 column keeps the rows in index order. */
  lemma WithScore2Increasing(target: string, table: seq<Row>, ratio: Scorer)
    requires Increasing(table, IndexKey)
    ensures Increasing(WithScore2(target, table, ratio), IndexKey)
  {
    WithScore2Rows(target, table, ratio);
  }

  /** The rows of the rescored table are the rescored rows. */
  lemma WithScore2Members(target: string, table: seq<Row>, ratio: Scorer)
    ensures forall r :: r in WithScore2(target, table, ratio) <==>
              exists x :: x in table && r == Rescored(x, Lower(Strip(target)), ratio)
  {
    var name := Lower(Strip(target));
    var scored := WithScore2(target, table, ratio);
    WithScore2Rows(target, table, ratio);
    forall r | r in scored
      ensures exists x :: x in table && r == Rescored(x, name, ratio)
    {
      var p :| 0 <= p < |scored| && scored[p] == r;
      assert table[p] in table;
    }
    forall x | x in table
      ensures Rescored(x, name, ratio) in scored
    {
      var p :| 0 <= p < |table| && table[p] == x;
      assert scored[p] == Rescored(x, name, ratio);
    }
  }

  /** Adding the score2 column keeps the best primary score. */
  lemma WithScore2Top(target: string, table: seq<Row>, ratio: Scorer)
    requires |table| > 0
    ensures MaxOf(WithScore2(target, table, ratio), ScoreKey) == MaxOf(table, ScoreKey)
  {
    var name := Lower(Strip(target));
    var scored := WithScore2(target, table, ratio);
    WithScore2Members(target, table, ratio);
    var m, m' := MaxOf(scored, ScoreKey), MaxOf(table, ScoreKey);
    var x :| x in table && ScoreKey(x) == m';
    assert Rescored(x, name, ratio) in scored;
    var y :| y in scored && ScoreKey(y) == m;
    var x' :| x' in table && y == Rescored(x', name, ratio);
  }

  /** TopCount counts the rows at the best primary score: with rows in
      index order, more than one exactly when two distinct rows share it. */
  lemma TopCountTies(table: seq<Row>)
    requires |table| > 0 && Increasing(table, IndexKey)
    ensures TopCount(table) > 1 <==> TwoRowsAt(table, MaxOf(table, ScoreKey))
  {
    AtMaxIncreasing(table, ScoreKey, IndexKey);
    MoreThanOne(AtMax(table, ScoreKey), IndexKey);
  }

  /** The rows `_break_ties` narrows the table to, as in its body. */
  function DoubleWinners(matchtarget: string, table: seq<Row>, ratio: Scorer): seq<Row>
    requires |table| > 0
  {
    var scored := WithScore2(Split(matchtarget, ',')[0], table, ratio);
    AtMax(AtMax(scored, ScoreKey), Score2Key)
  }

  /** What `_break_ties` returns, in terms of its double winners: the
      rescored table, the first double winner, and a warning exactly when
      there are several. */
  lemma BreakTiesShape(matchtarget: string, table: seq<Row>, ratio: Scorer)
    requires |table| > 0 && Increasing(table, IndexKey)
    ensures var d := DoubleWinners(matchtarget, table, ratio);
            var b := BreakTies(matchtarget, table, ratio);
      && Increasing(d, IndexKey)
      && b.table == WithScore2(Split(matchtarget, ',')[0], table, ratio)
      && b.row == d[0] && b.ixmax == d[0].index
      && (b.warning.Some? <==> |d| > 1)
      && (b.warning.Some? ==> b.warning.value == Ambiguity(matchtarget, d[0].target, Targets(d)))
  {
    var target := Split(matchtarget, ',')[0];
    var scored := WithScore2(target, table, ratio);
    WithScore2Increasing(target, table, ratio);
    assert |scored| > 0 by { WithScore2Rows(target, table, ratio); }
    var among := AtMax(scored, ScoreKey);
    AtMaxIncreasing(scored, ScoreKey, IndexKey);
    AtMaxIncreasing(among, Score2Key, IndexKey);
    IdxMaxAtMax(among, Score2Key);
  }

  /** The double winners are the rescored rows at the best primary score
      whose secondary score is the best among those. */
  lemma DoubleWinnersRows(matchtarget: string, table: seq<Row>, ratio: Scorer)
    requires |table| > 0
    ensures var d := DoubleWinners(matchtarget, table, ratio);
            var scored := WithScore2(Split(matchtarget, ',')[0], table, ratio);
      forall r :: r in d <==>
        && r in scored && r.score == MaxOf(table, ScoreKey)
        && forall r' :: r' in scored && r'.score == r.score ==> Score2Key(r') <= Score2Key(r)
  {
    var target := Split(matchtarget, ',')[0];
    var scored := WithScore2(target, table, ratio);
    WithScore2Top(target, table, ratio);
    assert |scored| > 0 by { WithScore2Rows(target, table, ratio); }
    var among := AtMax(scored, ScoreKey);
    var d := AtMax(among, Score2Key);
    forall r | r in scored && r.score == MaxOf(table, ScoreKey) &&
               (forall r' :: r' in scored && r'.score == r.score ==> Score2Key(r') <= Score2Key(r))
      ensures r in d
    {
      var y :| y in among && Score2Key(y) == MaxOf(among, Score2Key);
    }
  }

  /** The double winners share both scores: each is a rescored row with
      the first one's primary and secondary score. */
  lemma DoubleWinnersTie(matchtarget: string, table: seq<Row>, ratio: Scorer)
    requires |table| > 0
    ensures var d := DoubleWinners(matchtarget, table, ratio);
            var scored := WithScore2(Split(matchtarget, ',')[0], table, ratio);
      && |d| > 0
      && forall r :: r in d ==> r in scored && r.score == d[0].score && Score2Key(r) == Score2Key(d[0])
  {
    var target := Split(matchtarget, ',')[0];
    var scored := WithScore2(target, table, ratio);
    assert |scored| > 0 by { WithScore2Rows(target, table, ratio); }
    var d := AtMax(AtMax(scored, ScoreKey), Score2Key);
    assert d[0] in d;
  }

  /** On a table in index order, the first double winner has the best
      secondary score among the rescored rows at its primary score, and
      precedes every other row that reaches it. */
  lemma DoubleWinnersBest(matchtarget: string, table: seq<Row>, ratio: Scorer)
    requires |table| > 0 && Increasing(table, IndexKey)
    ensures var d := DoubleWinners(matchtarget, table, ratio);
            var scored := WithScore2(Split(matchtarget, ',')[0], table, ratio);
      && |d| > 0
      && forall r :: r in scored && r.score == d[0].score ==>
           && Score2Key(r) <= Score2Key(d[0])
           && (Score2Key(r) == Score2Key(d[0]) ==> d[0].index <= r.index)
  {
    var target := Split(matchtarget, ',')[0];
    var scored := WithScore2(target, table, ratio);
    assert |scored| > 0 by { WithScore2Rows(target, table, ratio); }
    WithScore2Increasing(target, table, ratio);
    FirstAtMaxMax(scored, ScoreKey, Score2Key, IndexKey);
  }

  /** Every row of the rescored table carries its own secondary score. */
  lemma RescoredCell(matchtarget: string, table: seq<Row>, ratio: Scorer, r: Row)
    requires r in WithScore2(Split(matchtarget, ',')[0], table, ratio)
    ensures r.score2 == Some(Secondary(matchtarget, ratio, r.target))
  {
    var target := Split(matchtarget, ',')[0];
    var scored := WithScore2(target, table, ratio);
    var p :| 0 <= p < |scored| && scored[p] == r;
    assert r == table[p].(score2 := Some(ratio(Lower(Strip(target)), Lower(table[p].target))));
  }

  /** `_break_ties` on a table in index order: the pick is a row of the
      rescored table at the best primary score, labelled by its own index,
      and it carries its secondary score. */
  lemma BreakTiesRow(matchtarget: string, table: seq<Row>, ratio: Scorer)
    requires |table| > 0 && Increasing(table, IndexKey)
    ensures var b := BreakTies(matchtarget, table, ratio);
      && b.table == WithScore2(Split(matchtarget, ',')[0], table, ratio)
      && b.row in b.table && b.ixmax == b.row.index
      && b.row.score == MaxOf(table, ScoreKey)
      && b.row.score2 == Some(Secondary(matchtarget, ratio, b.row.target))
  {
    var b := BreakTies(matchtarget, table, ratio);
    var d := DoubleWinners(matchtarget, table, ratio);
    BreakTiesShape(matchtarget, table, ratio);
    DoubleWinnersRows(matchtarget, table, ratio);
    assert d[0] in d;
    RescoredCell(matchtarget, table, ratio, b.row);
  }

  /** `_break_ties` on a table in index order: no row at the pick's primary
      score has a better secondary score, and none with an equal one comes
      before the pick. */
  lemma BreakTiesBest(matchtarget: string, table: seq<Row>, ratio: Scorer)
    requires |table| > 0 && Increasing(table, IndexKey)
    ensures var b := BreakTies(matchtarget, table, ratio);
      forall r :: r in b.table && r.score == b.row.score ==>
        && Score2Key(r) <= Score2Key(b.row)
        && (Score2Key(r) == Score2Key(b.row) ==> b.row.index <= r.index)
  {
    BreakTiesShape(matchtarget, table, ratio);
    DoubleWinnersBest(matchtarget, table, ratio);
  }

  /** The double winners are exactly the rows of the rescored table that
      match the pick in both scores. */
  lemma DoubleWinnersMatchPick(matchtarget: string, table: seq<Row>, ratio: Scorer)
    requires |table| > 0 && Increasing(table, IndexKey)
    ensures var d := DoubleWinners(matchtarget, table, ratio);
            var b := BreakTies(matchtarget, table, ratio);
      forall r :: r in d <==>
        r in b.table && r.score == b.row.score && Score2Key(r) == Score2Key(b.row)
  {
    BreakTiesShape(matchtarget, table, ratio);
    DoubleWinnersRows(matchtarget, table, ratio);
    BreakTiesRow(matchtarget, table, ratio);
    BreakTiesBest(matchtarget, table, ratio);
  }

  /** `_break_ties` warns exactly when two rows at the best primary score
      also share the best secondary score. */
  lemma BreakTiesWarns(matchtarget: string, table: seq<Row>, ratio: Scorer)
    requires |table| > 0 && Increasing(table, IndexKey)
    ensures var b := BreakTies(matchtarget, table, ratio);
      b.warning.Some? <==>
        exists r, r' :: && r in b.table && r' in b.table && r.index < r'.index
                        && r.score == b.row.score && r'.score == b.row.score
                        && Score2Key(r) == Score2Key(b.row) && Score2Key(r') == Score2Key(b.row)
  {
    var d := DoubleWinners(matchtarget, table, ratio);
    BreakTiesShape(matchtarget, table, ratio);
    DoubleWinnersMatchPick(matchtarget, table, ratio);
    MoreThanOne(d, IndexKey);
  }

  /** The warning names the query, the pick and every row the tie-break
      could not tell apart from it, the pick first. */
  lemma BreakTiesWarning(matchtarget: string, table: seq<Row>, ratio: Scorer)
    requires |table| > 0 && Increasing(table, IndexKey)
    ensures var b := BreakTies(matchtarget, table, ratio);
      b.warning.Some? ==>
        && b.warning.value.query == matchtarget
        && b.warning.value.chosen == b.row.target
        && |b.warning.value.tied| >= 2 && b.warning.value.tied[0] == b.row.target
        && forall k :: 0 <= k < |b.warning.value.tied| ==>
             exists r :: && r in b.table && r.score == b.row.score
                         && Score2Key(r) == Score2Key(b.row) && r.target == b.warning.value.tied[k]
  {
    var b := BreakTies(matchtarget, table, ratio);
    var d := DoubleWinners(matchtarget, table, ratio);
    BreakTiesShape(matchtarget, table, ratio);
    DoubleWinnersTie(matchtarget, table, ratio);
    if b.warning.Some? {
      var tied := Targets(d);
      assert |tied| == |d| && tied[0] == d[0].target;
      forall k | 0 <= k < |tied|
        ensures exists r :: && r in b.table && r.score == b.row.score
                            && Score2Key(r) == Score2Key(b.row) && r.target == tied[k]
      {
        var r := d[k];
        assert r in d;
        assert r in b.table && r.score == b.row.score && Score2Key(r) == Score2Key(b.row) && r.target == tied[k];
      }
    }
  }

  /** Two rows of `t`, in index order, have primary score `score`. */
  predicate TwoRowsAt(t: seq<Row>, score: int) {
    exists x, y :: x in t && y in t && x.index < y.index && x.score == score && y.score == score
  }

  /** Two rows of `t`, in index order, have primary score `score` and
      secondary score `s2`. */
  predicate TwoRowsTied(matchtarget: string, ratio: Scorer, t: seq<Row>, score: int, s2: int) {
    exists x, y :: && x in t && y in t && x.index < y.index
                   && x.score == score && y.score == score
                   && Secondary(matchtarget, ratio, x.target) == s2
                   && Secondary(matchtarget, ratio, y.target) == s2
  }

  /** No row carries a score2 cell yet. */
  predicate Unbroken(table: seq<Row>) {
    forall x :: x in table ==> x.score2 == None
  }

  /** A row of the rescored table is a row of the table with its secondary
      score filled in. */
  lemma RescoredFrom(matchtarget: string, table: seq<Row>, ratio: Scorer, r: Row)
    requires Unbroken(table)
    requires r in WithScore2(Split(matchtarget, ',')[0], table, ratio)
    ensures r.(score2 := None) in table
    ensures r.score2 == Some(Secondary(matchtarget, ratio, r.target))
  {
    var target := Split(matchtarget, ',')[0];
    var scored := WithScore2(target, table, ratio);
    WithScore2Rows(target, table, ratio);
    var p :| 0 <= p < |scored| && scored[p] == r;
    assert table[p] in table;
  }

  /** Every row of the table appears in the rescored table. */
  lemma RescoredOf(matchtarget: string, table: seq<Row>, ratio: Scorer, x: Row)
    requires x in table
    ensures x.(score2 := Some(Secondary(matchtarget, ratio, x.target)))
              in WithScore2(Split(matchtarget, ',')[0], table, ratio)
  {
    var target := Split(matchtarget, ',')[0];
    var scored := WithScore2(target, table, ratio);
    WithScore2Rows(target, table, ratio);
    var p :| 0 <= p < |table| && table[p] == x;
    assert scored[p] == x.(score2 := Some(Secondary(matchtarget, ratio, x.target)));
  }

  /** The two branches of the selection step. */
  lemma PickCases(matchtarget: string, table: seq<Row>, returnTable: bool, ratio: Scorer)
    requires |table| > 0
    ensures var p := Pick(matchtarget, table, returnTable, ratio);
            var b := BreakTies(matchtarget, table, ratio);
            var k := IdxMax(table, ScoreKey);
      && p.Ok?
      && (TopCount(table) > 1 ==>
            p.value == Match(b.row, if returnTable then Some(SortBy(b.table, ScoreKey)) else None, b.warning))
      && (TopCount(table) <= 1 ==>
            p.value == Match(table[k], if returnTable then Some(SortBy(table, ScoreKey)) else None, None))
  {
  }

  /** The selection step on a table in index order with no score2 column
      always succeeds, and the winner is a row of the table at the best
      primary score. It carries a score2 cell exactly when two rows tie at
      that score. */
  lemma PickTop(matchtarget: string, table: seq<Row>, returnTable: bool, ratio: Scorer)
    requires |table| > 0 && Increasing(table, IndexKey) && Unbroken(table)
    ensures Pick(matchtarget, table, returnTable, ratio).Ok?
    ensures var best := Pick(matchtarget, table, returnTable, ratio).value.best;
            var top := MaxOf(table, ScoreKey);
      && best.(score2 := None) in table && best.score == top
      && (best.score2.Some? <==> TwoRowsAt(table, top))
  {
    PickOutcome(matchtarget, table, returnTable, ratio);
    TopCountTies(table);
    if TopCount(table) > 1 {
      var b := BreakTies(matchtarget, table, ratio);
      BreakTiesRow(matchtarget, table, ratio);
      RescoredFrom(matchtarget, table, ratio, b.row);
    } else {
      var k := IdxMax(table, ScoreKey);
      IdxMaxIsMax(table, ScoreKey);
      assert table[k] in table;
    }
  }

  /** When the selection step breaks a tie, the winner carries its secondary
      score, which is the best among the rows at the best primary score, and
      it is the first of those rows that reach it. */
  lemma PickBest(matchtarget: string, table: seq<Row>, returnTable: bool, ratio: Scorer)
    requires |table| > 0 && Increasing(table, IndexKey) && Unbroken(table)
    ensures Pick(matchtarget, table, returnTable, ratio).Ok?
    ensures var best := Pick(matchtarget, table, returnTable, ratio).value.best;
            var top := MaxOf(table, ScoreKey);
      best.score2.Some? ==>
        && best.score2 == Some(Secondary(matchtarget, ratio, best.target))
        && forall x :: x in table && x.score == top ==>
             && Secondary(matchtarget, ratio, x.target) <= Secondary(matchtarget, ratio, best.target)
             && (Secondary(matchtarget, ratio, x.target) == Secondary(matchtarget, ratio, best.target) ==>
                   best.index <= x.index)
  {
    PickOutcome(matchtarget, table, returnTable, ratio);
    var top := MaxOf(table, ScoreKey);
    if TopCount(table) > 1 {
      var b := BreakTies(matchtarget, table, ratio);
      BreakTiesRow(matchtarget, table, ratio);
      BreakTiesBest(matchtarget, table, ratio);
      forall x | x in table && x.score == top
        ensures Secondary(matchtarget, ratio, x.target) <= Secondary(matchtarget, ratio, b.row.target)
        ensures Secondary(matchtarget, ratio, x.target) == Secondary(matchtarget, ratio, b.row.target) ==>
                  b.row.index <= x.index
      {
        RescoredOf(matchtarget, table, ratio, x);
      }
    } else {
      var k := IdxMax(table, ScoreKey);
      assert table[k] in table;
    }
  }

  /** A warning from `_break_ties` comes from two rows of the table at the
      best primary score sharing the pick's secondary score. */
  lemma BreakTiesTiedRows(matchtarget: string, table: seq<Row>, ratio: Scorer)
    requires |table| > 0 && Increasing(table, IndexKey) && Unbroken(table)
    ensures var b := BreakTies(matchtarget, table, ratio);
      b.warning.Some? ==>
        TwoRowsTied(matchtarget, ratio, table, MaxOf(table, ScoreKey), Secondary(matchtarget, ratio, b.row.target))
  {
    var b := BreakTies(matchtarget, table, ratio);
    BreakTiesRow(matchtarget, table, ratio);
    BreakTiesWarns(matchtarget, table, ratio);
    if b.warning.Some? {
      var r, r' :| && r in b.table && r' in b.table && r.index < r'.index
                   && r.score == b.row.score && r'.score == b.row.score
                   && Score2Key(r) == Score2Key(b.row) && Score2Key(r') == Score2Key(b.row);
      RescoredFrom(matchtarget, table, ratio, r);
      RescoredFrom(matchtarget, table, ratio, r');
      var x, y := r.(score2 := None), r'.(score2 := None);
      assert x in table && y in table && x.index < y.index;
    }
  }

  /** Two rows of the table at the best primary score sharing the pick's
      secondary score make `_break_ties` warn. */
  lemma TiedRowsBreakTies(matchtarget: string, table: seq<Row>, ratio: Scorer)
    requires |table| > 0 && Increasing(table, IndexKey) && Unbroken(table)
    ensures var b := BreakTies(matchtarget, table, ratio);
      TwoRowsTied(matchtarget, ratio, table, MaxOf(table, ScoreKey), Secondary(matchtarget, ratio, b.row.target)) ==>
        b.warning.Some?
  {
    var b := BreakTies(matchtarget, table, ratio);
    var top := MaxOf(table, ScoreKey);
    var s2 := Secondary(matchtarget, ratio, b.row.target);
    BreakTiesRow(matchtarget, table, ratio);
    BreakTiesWarns(matchtarget, table, ratio);
    if TwoRowsTied(matchtarget, ratio, table, top, s2) {
      var x, y :| && x in table && y in table && x.index < y.index
                  && x.score == top && y.score == top
                  && Secondary(matchtarget, ratio, x.target) == s2
                  && Secondary(matchtarget, ratio, y.target) == s2;
      RescoredOf(matchtarget, table, ratio, x);
      RescoredOf(matchtarget, table, ratio, y);
      var r, r' := x.(score2 := Some(s2)), y.(score2 := Some(s2));
      assert && r in b.table && r' in b.table && r.index < r'.index
             && r.score == b.row.score && r'.score == b.row.score
             && Score2Key(r) == Score2Key(b.row) && Score2Key(r') == Score2Key(b.row);
    }
  }

  /** The selection step warns exactly when two rows at the best primary
      score also share the winner's secondary score. */
  lemma PickWarns(matchtarget: string, table: seq<Row>, returnTable: bool, ratio: Scorer)
    requires |table| > 0 && Increasing(table, IndexKey) && Unbroken(table)
    ensures Pick(matchtarget, table, returnTable, ratio).Ok?
    ensures var m := Pick(matchtarget, table, returnTable, ratio).value;
            var top := MaxOf(table, ScoreKey);
            var s2 := Secondary(matchtarget, ratio, m.best.target);
      m.warning.Some? <==> TwoRowsTied(matchtarget, ratio, table, top, s2)
  {
    PickOutcome(matchtarget, table, returnTable, ratio);
    var top := MaxOf(table, ScoreKey);
    TopCountTies(table);
    if TopCount(table) > 1 {
      BreakTiesTiedRows(matchtarget, table, ratio);
      TiedRowsBreakTies(matchtarget, table, ratio);
    }
  }

  /** Some row of the table at the best primary score, with secondary score
      `s2`, has the candidate text `name`. */
  predicate TiedName(matchtarget: string, table: seq<Row>, ratio: Scorer, name: string, s2: int)
    requires |table| > 0
  {
    exists x :: && x in table && x.score == MaxOf(table, ScoreKey)
                && Secondary(matchtarget, ratio, x.target) == s2 && x.target == name
  }

  /** Every name in the tie-break's warning is a row of the table at the
      best primary score sharing the pick's secondary score. */
  lemma TiedInTable(matchtarget: string, table: seq<Row>, ratio: Scorer, name: string)
    requires |table| > 0 && Increasing(table, IndexKey) && Unbroken(table)
    requires var b := BreakTies(matchtarget, table, ratio);
      b.warning.Some? && name in b.warning.value.tied
    ensures var b := BreakTies(matchtarget, table, ratio);
      TiedName(matchtarget, table, ratio, name, Secondary(matchtarget, ratio, b.row.target))
  {
    var b := BreakTies(matchtarget, table, ratio);
    BreakTiesRow(matchtarget, table, ratio);
    BreakTiesWarning(matchtarget, table, ratio);
    var tied := b.warning.value.tied;
    var k :| 0 <= k < |tied| && tied[k] == name;
    var r :| && r in b.table && r.score == b.row.score
             && Score2Key(r) == Score2Key(b.row) && r.target == tied[k];
    RescoredFrom(matchtarget, table, ratio, r);
    assert r.(score2 := None) in table;
  }

  /** A row of the table at the best primary score whose secondary score is
      that of the first double winner is, rescored, a double winner. */
  lemma InDoubleWinners(matchtarget: string, table: seq<Row>, ratio: Scorer, x: Row)
    requires |table| > 0 && x in table && x.score == MaxOf(table, ScoreKey)
    requires Secondary(matchtarget, ratio, x.target) == Score2Key(DoubleWinners(matchtarget, table, ratio)[0])
    ensures x.(score2 := Some(Secondary(matchtarget, ratio, x.target))) in DoubleWinners(matchtarget, table, ratio)
  {
    var target := Split(matchtarget, ',')[0];
    var scored := WithScore2(target, table, ratio);
    WithScore2Top(target, table, ratio);
    RescoredOf(matchtarget, table, ratio, x);
    var r := x.(score2 := Some(Secondary(matchtarget, ratio, x.target)));
    var among := AtMax(scored, ScoreKey);
    var d := AtMax(among, Score2Key);
    assert d[0] in d;
    assert r in among;
  }

  /** The text of every row is among the texts of its table. */
  lemma TargetsIn(rows: seq<Row>, r: Row)
    requires r in rows
    ensures r.target in Targets(rows)
  {
    var p :| 0 <= p < |rows| && rows[p] == r;
    assert Targets(rows)[p] == r.target;
  }

  /** Every row of the table at the best primary score that shares the
      pick's secondary score is named in the tie-break's warning. */
  lemma ListedInTie(matchtarget: string, table: seq<Row>, ratio: Scorer, name: string)
    requires |table| > 0 && Increasing(table, IndexKey) && Unbroken(table)
    requires var b := BreakTies(matchtarget, table, ratio);
      b.warning.Some? && TiedName(matchtarget, table, ratio, name, Secondary(matchtarget, ratio, b.row.target))
    ensures var b := BreakTies(matchtarget, table, ratio);
      name in b.warning.value.tied
  {
    var b := BreakTies(matchtarget, table, ratio);
    var d := DoubleWinners(matchtarget, table, ratio);
    BreakTiesShape(matchtarget, table, ratio);
    BreakTiesRow(matchtarget, table, ratio);
    var x :| && x in table && x.score == MaxOf(table, ScoreKey)
             && Secondary(matchtarget, ratio, x.target) == Secondary(matchtarget, ratio, b.row.target)
             && x.target == name;
    InDoubleWinners(matchtarget, table, ratio, x);
    TargetsIn(d, x.(score2 := Some(Secondary(matchtarget, ratio, x.target))));
  }

  /** The winner and warning of the selection step, by branch. */
  lemma PickOutcome(matchtarget: string, table: seq<Row>, returnTable: bool, ratio: Scorer)
    requires |table| > 0
    ensures var p := Pick(matchtarget, table, returnTable, ratio);
            var b := BreakTies(matchtarget, table, ratio);
      && p.Ok?
      && (TopCount(table) > 1 ==> p.value.best == b.row && p.value.warning == b.warning)
      && (TopCount(table) <= 1 ==> p.value.best == table[IdxMax(table, ScoreKey)] && p.value.warning == None)
  {
  }

  /** The warning names the query and the winner, and its list of tied
      names, the winner first, holds exactly the rows at the best primary
      score that share the winner's secondary score. */
  lemma PickWarning(matchtarget: string, table: seq<Row>, returnTable: bool, ratio: Scorer)
    requires |table| > 0 && Increasing(table, IndexKey) && Unbroken(table)
    ensures Pick(matchtarget, table, returnTable, ratio).Ok?
    ensures var m := Pick(matchtarget, table, returnTable, ratio).value;
            var s2 := Secondary(matchtarget, ratio, m.best.target);
      m.warning.Some? ==>
        && m.warning.value.query == matchtarget
        && m.warning.value.chosen == m.best.target
        && |m.warning.value.tied| >= 2 && m.warning.value.tied[0] == m.best.target
        && (forall k :: 0 <= k < |m.warning.value.tied| ==>
              TiedName(matchtarget, table, ratio, m.warning.value.tied[k], s2))
        && forall name :: TiedName(matchtarget, table, ratio, name, s2) ==> name in m.warning.value.tied
  {
    PickOutcome(matchtarget, table, returnTable, ratio);
    if TopCount(table) > 1 {
      var b := BreakTies(matchtarget, table, ratio);
      BreakTiesWarning(matchtarget, table, ratio);
      if b.warning.Some? {
        var tied := b.warning.value.tied;
        var s2 := Secondary(matchtarget, ratio, b.row.target);
        forall k | 0 <= k < |tied|
          ensures TiedName(matchtarget, table, ratio, tied[k], s2)
        {
          TiedInTable(matchtarget, table, ratio, tied[k]);
        }
        forall name | TiedName(matchtarget, table, ratio, name, s2)
          ensures name in tied
        {
          ListedInTie(matchtarget, table, ratio, name);
        }
      }
    }
  }

  /** With return_table the selection step also returns its table sorted
      ascending by primary score: a permutation of the rows it chose from,
      carrying the score2 column exactly when the tie-break ran. */
  lemma PickTable(matchtarget: string, table: seq<Row>, returnTable: bool, ratio: Scorer)
    requires |table| > 0 && Increasing(table, IndexKey) && Unbroken(table)
    ensures Pick(matchtarget, table, returnTable, ratio).Ok?
    ensures var m := Pick(matchtarget, table, returnTable, ratio).value;
      && (m.table.Some? <==> returnTable)
      && (m.table.Some? ==>
            && SortedBy(m.table.value, ScoreKey)
            && Distinct(m.table.value, IndexKey)
            && forall r: Row :: r in m.table.value <==>
                 && r.(score2 := None) in table
                 && r.score2 == (if m.best.score2.Some? then Some(Secondary(matchtarget, ratio, r.target)) else None))
  {
    PickCases(matchtarget, table, returnTable, ratio);
    var m := Pick(matchtarget, table, returnTable, ratio).value;
    if returnTable {
      var t := m.table.value;
      if TopCount(table) > 1 {
        var b := BreakTies(matchtarget, table, ratio);
        BreakTiesRow(matchtarget, table, ratio);
        WithScore2Increasing(Split(matchtarget, ',')[0], table, ratio);
        SortDistinct(b.table, ScoreKey, IndexKey);
        assert t == SortBy(b.table, ScoreKey);
        forall r | r in t
          ensures r.(score2 := None) in table && r.score2 == Some(Secondary(matchtarget, ratio, r.target))
        {
          assert r in multiset(t);
          RescoredFrom(matchtarget, table, ratio, r);
        }
        forall r: Row | r.(score2 := None) in table && r.score2 == Some(Secondary(matchtarget, ratio, r.target))
          ensures r in t
        {
          RescoredOf(matchtarget, table, ratio, r.(score2 := None));
          assert r.(score2 := None).(score2 := Some(Secondary(matchtarget, ratio, r.target))) == r;
          assert r in multiset(b.table);
        }
      } else {
        var k := IdxMax(table, ScoreKey);
        assert table[k] in table;
        SortDistinct(table, ScoreKey, IndexKey);
        assert t == SortBy(table, ScoreKey);
        forall r | r in t ensures r in table { assert r in multiset(t); }
        forall r | r in table ensures r in t { assert r in multiset(table); }
        forall r: Row | r.(score2 := None) in table && r.score2 == None ensures r in table {
          assert r == r.(score2 := None);
        }
      }
    }
  }

  // ---------------------------------------------------------------------
  // What `_fuzzy_match` promises about the candidate list

  /** The primary score of a candidate text. */
  function Primary(matchtarget: string, partial: Scorer, text: string): Score {
    partial(QueryName(matchtarget), Lower(text))
  }

  /** A candidate is considered when the query names no state, or when its
      lower-cased text ends with the stripped, lower-cased state. */
  predicate Considered(matchtarget: string, text: string) {
    var split := Split(matchtarget, ',');
    |split| != 2 || EndsWith(Lower(text), Lower(Strip(split[1])))
  }

  /** The table the selection step chooses from. */
  function Candidates(matchtarget: string, matchlist: seq<string>, partial: Scorer): seq<Row>
    requires Count(matchtarget, ',') <= 1
  {
    var split := Split(matchtarget, ',');
    var table := ScoreTable(split[0], matchlist, partial);
    if |split| == 1 then table else InState(table, split[1])
  }

  /** `x` is the scored row of a considered candidate, labelled by its position. */
  predicate CandidateRow(matchtarget: string, matchlist: seq<string>, partial: Scorer, x: Row) {
    && x.index < |matchlist| && x.target == matchlist[x.index]
    && Considered(matchtarget, x.target)
    && x.score == Primary(matchtarget, partial, x.target) && x.score2 == None
  }

  /** Position `i` holds a considered candidate whose primary score is `score`. */
  predicate Contender(matchtarget: string, matchlist: seq<string>, partial: Scorer, i: int, score: int) {
    0 <= i < |matchlist| && Considered(matchtarget, matchlist[i])
    && Primary(matchtarget, partial, matchlist[i]) == score
  }

  /** The rows the selection step sees are exactly the considered candidates. */
  lemma CandidatesIn(matchtarget: string, matchlist: seq<string>, partial: Scorer, x: Row)
    requires Count(matchtarget, ',') <= 1
    ensures x in Candidates(matchtarget, matchlist, partial) <==> CandidateRow(matchtarget, matchlist, partial, x)
  {
    var split := Split(matchtarget, ',');
    var table := ScoreTable(split[0], matchlist, partial);
    if x in table {
      var p :| 0 <= p < |table| && table[p] == x;
    }
    if x.index < |matchlist| && x.target == matchlist[x.index]
       && x.score == Primary(matchtarget, partial, x.target) && x.score2 == None
    {
      assert table[x.index] == x;
    }
  }

  /** The table the selection step sees is in index order and has no score2 column. */
  lemma CandidatesOrdered(matchtarget: string, matchlist: seq<string>, partial: Scorer)
    requires Count(matchtarget, ',') <= 1
    ensures var t := Candidates(matchtarget, matchlist, partial);
      Increasing(t, IndexKey) && Unbroken(t)
  {
    var split := Split(matchtarget, ',');
    var table := ScoreTable(split[0], matchlist, partial);
    assert Increasing(table, IndexKey);
    if |split| == 2 {
      var state := split[1];
      FilterIncreasing(table, (r: Row) => EndsWith(Lower(r.target), Lower(Strip(state))), IndexKey);
    }
    var t := Candidates(matchtarget, matchlist, partial);
    forall x | x in t ensures x.score2 == None {
      CandidatesIn(matchtarget, matchlist, partial, x);
    }
  }

  /** The table is non-empty exactly when some candidate is considered. */
  lemma CandidatesExist(matchtarget: string, matchlist: seq<string>, partial: Scorer)
    requires Count(matchtarget, ',') <= 1
    ensures |Candidates(matchtarget, matchlist, partial)| > 0 <==>
              exists i :: 0 <= i < |matchlist| && Considered(matchtarget, matchlist[i])
  {
    var t := Candidates(matchtarget, matchlist, partial);
    if |t| > 0 {
      CandidatesIn(matchtarget, matchlist, partial, t[0]);
    }
    if exists i :: 0 <= i < |matchlist| && Considered(matchtarget, matchlist[i]) {
      var i :| 0 <= i < |matchlist| && Considered(matchtarget, matchlist[i]);
      CandidatesIn(matchtarget, matchlist, partial,
                   Row(i, matchlist[i], Primary(matchtarget, partial, matchlist[i]), None));
    }
  }

  /** `_fuzzy_match` is the query check, the state check and the selection
      step on the considered candidates. */
  lemma FuzzyMatchCases(matchtarget: string, matchlist: seq<string>, returnTable: bool,
                        partial: Scorer, ratio: Scorer)
    ensures var f := FuzzyMatch(matchtarget, matchlist, returnTable, partial, ratio);
      && (Count(matchtarget, ',') > 1 ==> f == Err(MalformedQuery(matchtarget)))
      && (Count(matchtarget, ',') <= 1 ==>
            var t := Candidates(matchtarget, matchlist, partial);
            && (|t| == 0 && Count(matchtarget, ',') == 1 ==>
                  f == Err(StateNotFound(Split(matchtarget, ',')[1], matchtarget)))
            && (|t| == 0 && Count(matchtarget, ',') == 0 ==> f == Err(NoCandidates))
            && (|t| > 0 ==> f == Pick(matchtarget, t, returnTable, ratio)))
  {
  }

  /** A match is found exactly when the query has at most one comma and
      some candidate is considered. */
  lemma SucceedsIff(matchtarget: string, matchlist: seq<string>, returnTable: bool,
                    partial: Scorer, ratio: Scorer)
    ensures FuzzyMatch(matchtarget, matchlist, returnTable, partial, ratio).Ok? <==>
              && Count(matchtarget, ',') <= 1
              && exists i :: 0 <= i < |matchlist| && Considered(matchtarget, matchlist[i])
  {
    FuzzyMatchCases(matchtarget, matchlist, returnTable, partial, ratio);
    if Count(matchtarget, ',') <= 1 {
      CandidatesExist(matchtarget, matchlist, partial);
    }
  }

  /** Each failure has exactly one cause: a query with two or more commas;
      a state that no candidate ends with; or, without a state, an empty
      candidate list. */
  lemma FailsIff(matchtarget: string, matchlist: seq<string>, returnTable: bool,
                 partial: Scorer, ratio: Scorer)
    ensures var f := FuzzyMatch(matchtarget, matchlist, returnTable, partial, ratio);
      && (f == Err(MalformedQuery(matchtarget)) <==> Count(matchtarget, ',') >= 2)
      && (f.Err? && f.error.StateNotFound? <==>
            && Count(matchtarget, ',') == 1
            && forall i :: 0 <= i < |matchlist| ==> !Considered(matchtarget, matchlist[i]))
      && (f.Err? && f.error.StateNotFound? ==>
            f.error == StateNotFound(Split(matchtarget, ',')[1], matchtarget))
      && (f == Err(NoCandidates) <==> Count(matchtarget, ',') == 0 && |matchlist| == 0)
  {
    FuzzyMatchCases(matchtarget, matchlist, returnTable, partial, ratio);
    if Count(matchtarget, ',') <= 1 {
      CandidatesExist(matchtarget, matchlist, partial);
      var t := Candidates(matchtarget, matchlist, partial);
      if |t| > 0 {
        PickCases(matchtarget, t, returnTable, ratio);
      }
      if Count(matchtarget, ',') == 0 && |matchlist| > 0 {
        assert Considered(matchtarget, matchlist[0]);
      }
    }
  }

  /** A row of the chosen-from table at its best primary score is a
      considered candidate that no considered candidate outscores. */
  lemma TopOfCandidates(matchtarget: string, matchlist: seq<string>, partial: Scorer, best: Row)
    requires Count(matchtarget, ',') <= 1
    requires var t := Candidates(matchtarget, matchlist, partial);
      best.(score2 := None) in t && best.score == MaxOf(t, ScoreKey)
    ensures && Contender(matchtarget, matchlist, partial, best.index, best.score)
            && best.target == matchlist[best.index]
            && forall i :: 0 <= i < |matchlist| && Considered(matchtarget, matchlist[i]) ==>
                 Primary(matchtarget, partial, matchlist[i]) <= best.score
  {
    var t := Candidates(matchtarget, matchlist, partial);
    CandidatesIn(matchtarget, matchlist, partial, best.(score2 := None));
    forall i | 0 <= i < |matchlist| && Considered(matchtarget, matchlist[i])
      ensures Primary(matchtarget, partial, matchlist[i]) <= best.score
    {
      var x := Row(i, matchlist[i], Primary(matchtarget, partial, matchlist[i]), None);
      CandidatesIn(matchtarget, matchlist, partial, x);
      assert ScoreKey(x) <= MaxOf(t, ScoreKey);
    }
  }

  /** The winner is a considered candidate, carried with its own text and
      position, and no considered candidate scores higher. */
  lemma BestIsMaximal(matchtarget: string, matchlist: seq<string>, returnTable: bool,
                      partial: Scorer, ratio: Scorer)
    requires FuzzyMatch(matchtarget, matchlist, returnTable, partial, ratio).Ok?
    ensures var best := FuzzyMatch(matchtarget, matchlist, returnTable, partial, ratio).value.best;
      && Contender(matchtarget, matchlist, partial, best.index, best.score)
      && best.target == matchlist[best.index]
      && forall i :: 0 <= i < |matchlist| && Considered(matchtarget, matchlist[i]) ==>
           Primary(matchtarget, partial, matchlist[i]) <= best.score
  {
    FuzzyMatchCases(matchtarget, matchlist, returnTable, partial, ratio);
    var t := Candidates(matchtarget, matchlist, partial);
    CandidatesOrdered(matchtarget, matchlist, partial);
    PickTop(matchtarget, t, returnTable, ratio);
    TopOfCandidates(matchtarget, matchlist, partial, Pick(matchtarget, t, returnTable, ratio).value.best);
  }

  /** A considered candidate that alone reaches the best primary score is
      the winner, and no tie-break runs. */
  lemma UniqueMaximumWins(matchtarget: string, matchlist: seq<string>, returnTable: bool,
                          partial: Scorer, ratio: Scorer, i: nat)
    requires FuzzyMatch(matchtarget, matchlist, returnTable, partial, ratio).Ok?
    requires i < |matchlist| && Considered(matchtarget, matchlist[i])
    requires forall j :: 0 <= j < |matchlist| && j != i && Considered(matchtarget, matchlist[j]) ==>
               Primary(matchtarget, partial, matchlist[j]) < Primary(matchtarget, partial, matchlist[i])
    ensures var best := FuzzyMatch(matchtarget, matchlist, returnTable, partial, ratio).value.best;
      best.index == i && best.target == matchlist[i] && best.score2 == None
  {
    BestIsMaximal(matchtarget, matchlist, returnTable, partial, ratio);
    TieBroken(matchtarget, matchlist, returnTable, partial, ratio);
  }

  /** Two considered candidates, at different positions, have primary score `score`. */
  predicate TwoContenders(matchtarget: string, matchlist: seq<string>, partial: Scorer, score: int) {
    exists i, j :: && 0 <= i < j < |matchlist|
                   && Contender(matchtarget, matchlist, partial, i, score)
                   && Contender(matchtarget, matchlist, partial, j, score)
  }

  lemma TwoRowsAtIff(matchtarget: string, matchlist: seq<string>, partial: Scorer, score: int)
    requires Count(matchtarget, ',') <= 1
    ensures TwoRowsAt(Candidates(matchtarget, matchlist, partial), score) <==>
              TwoContenders(matchtarget, matchlist, partial, score)
  {
    var t := Candidates(matchtarget, matchlist, partial);
    if TwoRowsAt(t, score) {
      var x, y :| x in t && y in t && x.index < y.index && x.score == score && y.score == score;
      CandidatesIn(matchtarget, matchlist, partial, x);
      CandidatesIn(matchtarget, matchlist, partial, y);
      assert Contender(matchtarget, matchlist, partial, x.index, score);
      assert Contender(matchtarget, matchlist, partial, y.index, score);
    }
    if TwoContenders(matchtarget, matchlist, partial, score) {
      var i, j :| && 0 <= i < j < |matchlist|
                  && Contender(matchtarget, matchlist, partial, i, score)
                  && Contender(matchtarget, matchlist, partial, j, score);
      var x := Row(i, matchlist[i], score, None);
      var y := Row(j, matchlist[j], score, None);
      CandidatesIn(matchtarget, matchlist, partial, x);
      CandidatesIn(matchtarget, matchlist, partial, y);
    }
  }

  /** The tie-break runs, and the winner carries a score2 cell, exactly when
      two considered candidates share the best primary score. */
  lemma TieBroken(matchtarget: string, matchlist: seq<string>, returnTable: bool,
                  partial: Scorer, ratio: Scorer)
    requires FuzzyMatch(matchtarget, matchlist, returnTable, partial, ratio).Ok?
    ensures var best := FuzzyMatch(matchtarget, matchlist, returnTable, partial, ratio).value.best;
      best.score2.Some? <==> TwoContenders(matchtarget, matchlist, partial, best.score)
  {
    FuzzyMatchCases(matchtarget, matchlist, returnTable, partial, ratio);
    var t := Candidates(matchtarget, matchlist, partial);
    CandidatesOrdered(matchtarget, matchlist, partial);
    PickTop(matchtarget, t, returnTable, ratio);
    var best := Pick(matchtarget, t, returnTable, ratio).value.best;
    assert best.score2.Some? <==> TwoRowsAt(t, best.score);
    TwoRowsAtIff(matchtarget, matchlist, partial, best.score);
  }

  /** A winner whose secondary score beats every row at its primary score,
      and precedes those that equal it, does so for every contender. */
  lemma BestAmongContenders(matchtarget: string, matchlist: seq<string>, partial: Scorer, ratio: Scorer,
                            best: Row)
    requires Count(matchtarget, ',') <= 1
    requires forall x :: x in Candidates(matchtarget, matchlist, partial) && x.score == best.score ==>
               && Secondary(matchtarget, ratio, x.target) <= Secondary(matchtarget, ratio, best.target)
               && (Secondary(matchtarget, ratio, x.target) == Secondary(matchtarget, ratio, best.target) ==>
                     best.index <= x.index)
    ensures forall i :: Contender(matchtarget, matchlist, partial, i, best.score) ==>
              && Secondary(matchtarget, ratio, matchlist[i]) <= Secondary(matchtarget, ratio, best.target)
              && (Secondary(matchtarget, ratio, matchlist[i]) == Secondary(matchtarget, ratio, best.target) ==>
                    best.index <= i)
  {
    forall i | Contender(matchtarget, matchlist, partial, i, best.score)
      ensures && Secondary(matchtarget, ratio, matchlist[i]) <= Secondary(matchtarget, ratio, best.target)
              && (Secondary(matchtarget, ratio, matchlist[i]) == Secondary(matchtarget, ratio, best.target) ==>
                    best.index <= i)
    {
      CandidatesIn(matchtarget, matchlist, partial, Row(i, matchlist[i], best.score, None));
    }
  }

  /** After a tie-break the winner carries its secondary score, which is
      the best among the considered candidates at the best primary score,
      and it is the first of those that reach it. */
  lemma TieBreakPicks(matchtarget: string, matchlist: seq<string>, returnTable: bool,
                      partial: Scorer, ratio: Scorer)
    requires FuzzyMatch(matchtarget, matchlist, returnTable, partial, ratio).Ok?
    ensures var best := FuzzyMatch(matchtarget, matchlist, returnTable, partial, ratio).value.best;
            var s2 := Secondary(matchtarget, ratio, best.target);
      best.score2.Some? ==>
        && best.score2 == Some(s2)
        && forall i :: Contender(matchtarget, matchlist, partial, i, best.score) ==>
             && Secondary(matchtarget, ratio, matchlist[i]) <= s2
             && (Secondary(matchtarget, ratio, matchlist[i]) == s2 ==> best.index <= i)
  {
    FuzzyMatchCases(matchtarget, matchlist, returnTable, partial, ratio);
    var t := Candidates(matchtarget, matchlist, partial);
    CandidatesOrdered(matchtarget, matchlist, partial);
    PickTop(matchtarget, t, returnTable, ratio);
    PickBest(matchtarget, t, returnTable, ratio);
    var best := Pick(matchtarget, t, returnTable, ratio).value.best;
    if best.score2.Some? {
      BestAmongContenders(matchtarget, matchlist, partial, ratio, best);
    }
  }

  /** Two considered candidates, at different positions, have primary score
      `score` and secondary score `s2`. */
  predicate TwoContendersTied(matchtarget: string, matchlist: seq<string>, partial: Scorer, ratio: Scorer,
                              score: int, s2: int)
  {
    exists i, j :: && 0 <= i < j < |matchlist|
                   && Contender(matchtarget, matchlist, partial, i, score)
                   && Contender(matchtarget, matchlist, partial, j, score)
                   && Secondary(matchtarget, ratio, matchlist[i]) == s2
                   && Secondary(matchtarget, ratio, matchlist[j]) == s2
  }

  lemma TwoRowsTiedIff(matchtarget: string, matchlist: seq<string>, partial: Scorer, ratio: Scorer,
                       score: int, s2: int)
    requires Count(matchtarget, ',') <= 1
    ensures TwoRowsTied(matchtarget, ratio, Candidates(matchtarget, matchlist, partial), score, s2) <==>
              TwoContendersTied(matchtarget, matchlist, partial, ratio, score, s2)
  {
    var t := Candidates(matchtarget, matchlist, partial);
    if TwoRowsTied(matchtarget, ratio, t, score, s2) {
      var x, y :| && x in t && y in t && x.index < y.index
                  && x.score == score && y.score == score
                  && Secondary(matchtarget, ratio, x.target) == s2
                  && Secondary(matchtarget, ratio, y.target) == s2;
      CandidatesIn(matchtarget, matchlist, partial, x);
      CandidatesIn(matchtarget, matchlist, partial, y);
      assert Contender(matchtarget, matchlist, partial, x.index, score);
      assert Contender(matchtarget, matchlist, partial, y.index, score);
    }
    if TwoContendersTied(matchtarget, matchlist, partial, ratio, score, s2) {
      var i, j :| && 0 <= i < j < |matchlist|
                  && Contender(matchtarget, matchlist, partial, i, score)
                  && Contender(matchtarget, matchlist, partial, j, score)
                  && Secondary(matchtarget, ratio, matchlist[i]) == s2
                  && Secondary(matchtarget, ratio, matchlist[j]) == s2;
      var x := Row(i, matchlist[i], score, None);
      var y := Row(j, matchlist[j], score, None);
      CandidatesIn(matchtarget, matchlist, partial, x);
      CandidatesIn(matchtarget, matchlist, partial, y);
    }
  }

  /** The ambiguity warning is raised exactly when two considered candidates
      share both the best primary score and the winner's secondary score. */
  lemma WarnsIffDoubleTie(matchtarget: string, matchlist: seq<string>, returnTable: bool,
                          partial: Scorer, ratio: Scorer)
    requires FuzzyMatch(matchtarget, matchlist, returnTable, partial, ratio).Ok?
    ensures var m := FuzzyMatch(matchtarget, matchlist, returnTable, partial, ratio).value;
      m.warning.Some? <==>
        TwoContendersTied(matchtarget, matchlist, partial, ratio, m.best.score,
                          Secondary(matchtarget, ratio, m.best.target))
  {
    FuzzyMatchCases(matchtarget, matchlist, returnTable, partial, ratio);
    var t := Candidates(matchtarget, matchlist, partial);
    CandidatesOrdered(matchtarget, matchlist, partial);
    PickTop(matchtarget, t, returnTable, ratio);
    PickWarns(matchtarget, t, returnTable, ratio);
    var m := Pick(matchtarget, t, returnTable, ratio).value;
    TwoRowsTiedIff(matchtarget, matchlist, partial, ratio, m.best.score,
                   Secondary(matchtarget, ratio, m.best.target));
  }

  /** Some considered candidate with primary score `score` and secondary
      score `s2` has the text `name`. */
  predicate TiedCandidate(matchtarget: string, matchlist: seq<string>, partial: Scorer, ratio: Scorer,
                          name: string, score: int, s2: int)
  {
    exists i :: && 0 <= i < |matchlist| && Contender(matchtarget, matchlist, partial, i, score)
                && Secondary(matchtarget, ratio, matchlist[i]) == s2 && matchlist[i] == name
  }

  /** A name belongs to a row of the chosen-from table at its best primary
      score with secondary score `s2` exactly when it is a considered
      candidate with those scores. */
  lemma TiedNameIff(matchtarget: string, matchlist: seq<string>, partial: Scorer, ratio: Scorer,
                    name: string, s2: int)
    requires Count(matchtarget, ',') <= 1 && |Candidates(matchtarget, matchlist, partial)| > 0
    ensures var t := Candidates(matchtarget, matchlist, partial);
      TiedName(matchtarget, t, ratio, name, s2) <==>
        TiedCandidate(matchtarget, matchlist, partial, ratio, name, MaxOf(t, ScoreKey), s2)
  {
    var t := Candidates(matchtarget, matchlist, partial);
    var top := MaxOf(t, ScoreKey);
    if TiedName(matchtarget, t, ratio, name, s2) {
      var x :| && x in t && x.score == top
               && Secondary(matchtarget, ratio, x.target) == s2 && x.target == name;
      CandidatesIn(matchtarget, matchlist, partial, x);
      assert Contender(matchtarget, matchlist, partial, x.index, top);
    }
    if TiedCandidate(matchtarget, matchlist, partial, ratio, name, top, s2) {
      var i :| && 0 <= i < |matchlist| && Contender(matchtarget, matchlist, partial, i, top)
               && Secondary(matchtarget, ratio, matchlist[i]) == s2 && matchlist[i] == name;
      var x := Row(i, matchlist[i], top, None);
      CandidatesIn(matchtarget, matchlist, partial, x);
    }
  }

  /** The warning names the query and the winner, and its list of tied
      names, the winner first, holds exactly the considered candidates it
      could not tell apart from the winner. */
  lemma WarningNames(matchtarget: string, matchlist: seq<string>, returnTable: bool,
                     partial: Scorer, ratio: Scorer)
    requires FuzzyMatch(matchtarget, matchlist, returnTable, partial, ratio).Ok?
    ensures var m := FuzzyMatch(matchtarget, matchlist, returnTable, partial, ratio).value;
            var s2 := Secondary(matchtarget, ratio, m.best.target);
      m.warning.Some? ==>
        && m.warning.value.query == matchtarget
        && m.warning.value.chosen == m.best.target
        && |m.warning.value.tied| >= 2 && m.warning.value.tied[0] == m.best.target
        && (forall k :: 0 <= k < |m.warning.value.tied| ==>
              TiedCandidate(matchtarget, matchlist, partial, ratio, m.warning.value.tied[k], m.best.score, s2))
        && forall name :: TiedCandidate(matchtarget, matchlist, partial, ratio, name, m.best.score, s2) ==>
             name in m.warning.value.tied
  {
    FuzzyMatchCases(matchtarget, matchlist, returnTable, partial, ratio);
    var t := Candidates(matchtarget, matchlist, partial);
    CandidatesOrdered(matchtarget, matchlist, partial);
    PickTop(matchtarget, t, returnTable, ratio);
    PickWarning(matchtarget, t, returnTable, ratio);
    var m := Pick(matchtarget, t, returnTable, ratio).value;
    var s2 := Secondary(matchtarget, ratio, m.best.target);
    if m.warning.Some? {
      var tied := m.warning.value.tied;
      forall k | 0 <= k < |tied|
        ensures TiedCandidate(matchtarget, matchlist, partial, ratio, tied[k], m.best.score, s2)
      {
        TiedNameIff(matchtarget, matchlist, partial, ratio, tied[k], s2);
      }
      forall name | TiedCandidate(matchtarget, matchlist, partial, ratio, name, m.best.score, s2)
        ensures name in tied
      {
        TiedNameIff(matchtarget, matchlist, partial, ratio, name, s2);
      }
    }
  }

  /** With return_table the scored table comes back sorted ascending by
      primary score, one row per considered candidate, with the score2
      column exactly when the tie-break ran. */
  lemma ReturnedTable(matchtarget: string, matchlist: seq<string>, returnTable: bool,
                      partial: Scorer, ratio: Scorer)
    requires FuzzyMatch(matchtarget, matchlist, returnTable, partial, ratio).Ok?
    ensures var m := FuzzyMatch(matchtarget, matchlist, returnTable, partial, ratio).value;
      && (m.table.Some? <==> returnTable)
      && (m.table.Some? ==>
            && SortedBy(m.table.value, ScoreKey)
            && Distinct(m.table.value, IndexKey)
            && forall r: Row :: r in m.table.value <==>
                 && CandidateRow(matchtarget, matchlist, partial, r.(score2 := None))
                 && r.score2 == (if m.best.score2.Some? then Some(Secondary(matchtarget, ratio, r.target)) else None))
  {
    FuzzyMatchCases(matchtarget, matchlist, returnTable, partial, ratio);
    var t := Candidates(matchtarget, matchlist, partial);
    CandidatesOrdered(matchtarget, matchlist, partial);
    PickTable(matchtarget, t, returnTable, ratio);
    var m := Pick(matchtarget, t, returnTable, ratio).value;
    if m.table.Some? {
      forall r: Row ensures r.(score2 := None) in t <==> CandidateRow(matchtarget, matchlist, partial, r.(score2 := None)) {
        CandidatesIn(matchtarget, matchlist, partial, r.(score2 := None));
      }
    }
  }

  /** A considered candidate spelled exactly like the place name, up to
      case, wins, for scorers that give a string a perfect score against
      itself and for which only identical strings have a perfect `ratio`. */
  lemma ExactNameWins(matchtarget: string, matchlist: seq<string>, returnTable: bool,
                      partial: Scorer, ratio: Scorer, i: nat)
    requires Count(matchtarget, ',') <= 1
    requires i < |matchlist| && Considered(matchtarget, matchlist[i])
    requires Lower(matchlist[i]) == QueryName(matchtarget)
    requires forall a :: partial(a, a) == 100
    requires forall a, b :: ratio(a, b) == 100 <==> a == b
    ensures FuzzyMatch(matchtarget, matchlist, returnTable, partial, ratio).Ok?
    ensures Lower(FuzzyMatch(matchtarget, matchlist, returnTable, partial, ratio).value.best.target)
              == QueryName(matchtarget)
  {
    SucceedsIff(matchtarget, matchlist, returnTable, partial, ratio);
    var best := FuzzyMatch(matchtarget, matchlist, returnTable, partial, ratio).value.best;
    var name := QueryName(matchtarget);
    assert Contender(matchtarget, matchlist, partial, i, 100) by {
      assert partial(name, name) == 100;
    }
    assert best.score == 100 && best.target == matchlist[best.index]
           && Contender(matchtarget, matchlist, partial, best.index, 100) by {
      BestIsMaximal(matchtarget, matchlist, returnTable, partial, ratio);
      assert Primary(matchtarget, partial, matchlist[i]) <= best.score;
    }
    if best.score2.Some? {
      assert Secondary(matchtarget, ratio, matchlist[i]) == 100 by {
        assert ratio(name, name) == 100;
      }
      assert Secondary(matchtarget, ratio, best.target) == 100 by {
        TieBreakPicks(matchtarget, matchlist, returnTable, partial, ratio);
      }
    } else if i != best.index {
      assert TwoContenders(matchtarget, matchlist, partial, 100) by {
        if i < best.index {
          assert 0 <= i < best.index < |matchlist|;
        } else {
          assert 0 <= best.index < i < |matchlist|;
        }
      }
      TieBroken(matchtarget, matchlist, returnTable, partial, ratio);
      assert false;
    }
  }
}
