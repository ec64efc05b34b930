/** `write_players_stats`: turning the rows of a game's box-score tables into
    per-player stat records, team by team. */
module BoxScore {
  import opened Wrappers
  import opened Errors
  import opened PyStr
  import opened PyDict

  /** The column names of a box-score row, for cells 1 onward. */
  const StatHeaders: seq<string> := [
    "minutes", "fgm", "fga", "fg%", "3pm", "3pa", "3p%", "ftm", "fta", "ft%",
    "oreb", "dreb", "reb", "ast", "tov", "stl", "blk", "pf", "pts", "+/-"
  ]

  /** A player's entry: `started` and the stat columns read so far. */
  type Record = map<string, string>

  /** One `tr` of a box-score table: the `innerHTML` of each `td`, the `innerHTML` of
      the anchor inside the first `td` (None when it has none), and the `innerHTML`
      of the row's first `sup` (None when it has none). */
  datatype BoxRow = BoxRow(cells: seq<string>, anchor: Option<string>, sup: Option<string>)

  lemma HeadersDistinct()
    ensures |StatHeaders| == 20
    ensures forall a, b :: 0 <= a < b < |StatHeaders| ==> StatHeaders[a] != StatHeaders[b]
    ensures "started" !in StatHeaders
  {
  }

  // ---------------------------------------------------------------------------
  // One cell
  // ---------------------------------------------------------------------------

  /** An empty stat is recorded as "0". */
  function ZeroIfEmpty(t: string): (r: string)
    ensures r != []
    ensures r == "0" <==> t == [] || t == "0"
  {
    if t == [] then "0" else t
  }

  /** `innerHTML.split('>')[1].split('<')[0].strip()`, falling back to the whole
      `innerHTML` stripped when there is no `>`, and an empty result read as "0". */
  function CellStat(html: string): (r: string)
    ensures r != []
  {
    var parts := Split(html, ">");
    var t := if |parts| >= 2 then Strip(Split(parts[1], "<")[0]) else Strip(html);
    ZeroIfEmpty(t)
  }

  /** Piece 1 of `html.split(c)` is the text between the first and the second `c`. */
  lemma SecondPiece(html: string, c: char, i: nat)
    requires i < |html| && html[i] == c
    requires forall k :: 0 <= k < i ==> html[k] != c
    ensures |Split(html, [c])| >= 2
    ensures Split(html, [c])[1] == html[i + 1..][..Find(html[i + 1..], [c])]
  {
    FindChar(html, c, i);
    OccursAtChar(html, c, i);
    FindContains(html, [c]);
    SplitRest(html, [c]);
    SplitFirst(html[i + 1..], [c]);
  }

  /** With a tag in the cell, the stat is the text from just after the first `>` up to
      the next `<` or `>` (or the end), stripped. */
  lemma CellStatBetween(html: string, i: nat, j: nat)
    requires i < |html| && html[i] == '>'
    requires forall k :: 0 <= k < i ==> html[k] != '>'
    requires i < j <= |html|
    requires forall k :: i < k < j ==> html[k] != '<' && html[k] != '>'
    requires j < |html| ==> html[j] == '<' || html[j] == '>'
    ensures CellStat(html) == ZeroIfEmpty(Strip(html[i + 1..j]))
  {
    InnerText(html, i, j);
  }

  /** The piece the stat is read from is the text between the first `>` and what follows. */
  lemma InnerText(html: string, i: nat, j: nat)
    requires i < |html| && html[i] == '>'
    requires forall k :: 0 <= k < i ==> html[k] != '>'
    requires i < j <= |html|
    requires forall k :: i < k < j ==> html[k] != '<' && html[k] != '>'
    requires j < |html| ==> html[j] == '<' || html[j] == '>'
    ensures |Split(html, ">")| >= 2
    ensures Split(Split(html, ">")[1], "<")[0] == html[i + 1..j]
  {
    var rest := html[i + 1..];
    var jj := j - (i + 1);
    forall k | 0 <= k < jj
      ensures rest[k] != '<' && rest[k] != '>'
    {
      assert rest[k] == html[i + 1 + k];
    }
    assert jj < |rest| ==> rest[jj] == html[j];
    assert rest[..jj] == html[i + 1..j];
    PieceUpTo(rest, jj);
    SecondPiece(html, '>', i);
  }

  /** Cutting `rest` at its first `>` and that at its first `<` leaves the text before
      the first of the two. */
  lemma PieceUpTo(rest: string, jj: nat)
    requires jj <= |rest|
    requires forall k :: 0 <= k < jj ==> rest[k] != '<' && rest[k] != '>'
    requires jj < |rest| ==> rest[jj] == '<' || rest[jj] == '>'
    ensures Split(rest[..Find(rest, ">")], "<")[0] == rest[..jj]
  {
    UpToNext(rest, jj);
    var piece := rest[..Find(rest, ">")];
    SplitFirst(piece, "<");
    assert piece[..jj] == rest[..jj];
  }

  /** In `rest`, cutting at the first `>` and then at the first `<` stops at the first of the two. */
  lemma UpToNext(rest: string, jj: nat)
    requires jj <= |rest|
    requires forall k :: 0 <= k < jj ==> rest[k] != '<' && rest[k] != '>'
    requires jj < |rest| ==> rest[jj] == '<' || rest[jj] == '>'
    ensures Find(rest, ">") >= jj
    ensures Find(rest[..Find(rest, ">")], "<") == jj
  {
    var f := Find(rest, ">");
    OccursAtChar(rest, '>', f);
    if jj < f {
      assert rest[jj] != '>' by {
        OccursAtChar(rest, '>', jj);
      }
    }
    FindChar(rest[..f], '<', jj);
  }

  /** Without a `>` the stat is the whole cell, stripped. */
  lemma CellStatNoTag(html: string)
    requires '>' !in html
    ensures CellStat(html) == ZeroIfEmpty(Strip(html))
  {
    SplitCharNone(html, '>');
  }

  /** A cell holding only whitespace reads as "0". */
  lemma CellStatBlank(html: string)
    requires AllSpace(html)
    ensures CellStat(html) == "0"
  {
    forall k | 0 <= k < |html|
      ensures html[k] != '>'
    {
      assert IsSpace(html[k]);
    }
    CellStatNoTag(html);
    StripEmptyIff(html);
  }

  // ---------------------------------------------------------------------------
  // One row
  // ---------------------------------------------------------------------------

  /** `anchor.split('<')[0].replace('.', '')`: the anchor text before the first tag, without dots. */
  function PlayerName(anchor: string): (r: string)
    ensures r == RemoveChar(anchor[..Find(anchor, "<")], '.')
    ensures '.' !in r
  {
    SplitFirst(anchor, "<");
    RemoveChar(Split(anchor, "<")[0], '.')
  }

  /** "yes" when a `sup` was found with non-empty text, otherwise "no". */
  function Started(sup: Option<string>): string {
    if sup.Some? && sup.value != "" then "yes" else "no"
  }

  /** Every cell of a row, normalised. */
  function CellStats(cells: seq<string>): (r: seq<string>)
    ensures |r| == |cells|
    ensures forall k :: 0 <= k < |cells| ==> r[k] == CellStat(cells[k])
  {
    seq(|cells|, k requires 0 <= k < |cells| => CellStat(cells[k]))
  }

  /** The loop over cells 1.. of a row, given the cells already normalised (normalising
      is pure, so doing it up front changes nothing): cell `i` goes under
      `StatHeaders[i - 1]`; a minutes value of "0" ends the loop, and a cell past the
      last header raises. */
  function StatLoop(stats: seq<string>, i: nat, rec: Record): Result<Record, Fault>
    requires 1 <= i <= |stats|
    decreases |stats| - i
  {
    if i == |stats| then Success(rec)
    else if i - 1 >= |StatHeaders| then Failure(IndexOutOfRange)
    else
      var rec' := rec[StatHeaders[i - 1] := stats[i]];
      if stats[i] == "0" && StatHeaders[i - 1] == "minutes" then Success(rec')
      else StatLoop(stats, i + 1, rec')
  }

  /** The names of columns `lo` .. `hi - 1`. */
  function HeaderKeys(lo: nat, hi: nat): set<string>
    requires 1 <= lo <= hi <= |StatHeaders| + 1
  {
    set x | lo - 1 <= x < hi - 1 :: StatHeaders[x]
  }

  /** One pass of the loop past the minutes column stores the cell and moves on. */
  lemma StatLoopStep(stats: seq<string>, i: nat, rec: Record)
    requires 2 <= i < |stats| <= |StatHeaders| + 1
    ensures StatLoop(stats, i, rec) == StatLoop(stats, i + 1, rec[StatHeaders[i - 1] := stats[i]])
  {
    HeadersDistinct();
    assert StatHeaders[i - 1] != StatHeaders[0];
  }

  /** Column `i` is not among the columns after it. */
  lemma HeaderKeysSplit(i: nat, n: nat)
    requires 1 <= i < n <= |StatHeaders| + 1
    ensures HeaderKeys(i, n) == {StatHeaders[i - 1]} + HeaderKeys(i + 1, n)
    ensures StatHeaders[i - 1] !in HeaderKeys(i + 1, n)
  {
    HeadersDistinct();
  }

  /** Past the minutes column the loop never stops early, and adds exactly the
      remaining column names ... */
  lemma {:induction false} StatLoopFromKeys(stats: seq<string>, i: nat, rec: Record)
    requires 2 <= i <= |stats| <= |StatHeaders| + 1
    ensures StatLoop(stats, i, rec).Success?
    ensures StatLoop(stats, i, rec).value.Keys == rec.Keys + HeaderKeys(i, |stats|)
    decreases |stats| - i
  {
    if i < |stats| {
      StatLoopStep(stats, i, rec);
      StatLoopFromKeys(stats, i + 1, rec[StatHeaders[i - 1] := stats[i]]);
      HeaderKeysSplit(i, |stats|);
    } else {
      assert HeaderKeys(i, |stats|) == {};
    }
  }

  /** ... leaving every other key as it was ... */
  lemma {:induction false} StatLoopFromKeeps(stats: seq<string>, i: nat, rec: Record, k: string)
    requires 2 <= i <= |stats| <= |StatHeaders| + 1
    requires k in rec && k !in HeaderKeys(i, |stats|)
    ensures StatLoop(stats, i, rec).Success?
    ensures k in StatLoop(stats, i, rec).value && StatLoop(stats, i, rec).value[k] == rec[k]
    decreases |stats| - i
  {
    StatLoopFromKeys(stats, i, rec);
    if i < |stats| {
      StatLoopStep(stats, i, rec);
      HeaderKeysSplit(i, |stats|);
      StatLoopFromKeeps(stats, i + 1, rec[StatHeaders[i - 1] := stats[i]], k);
    }
  }

  /** ... and storing cell `j` under column `j`. */
  lemma {:induction false} StatLoopFromStores(stats: seq<string>, i: nat, rec: Record, j: nat)
    requires 2 <= i <= j < |stats| <= |StatHeaders| + 1
    ensures StatLoop(stats, i, rec).Success?
    ensures StatHeaders[j - 1] in StatLoop(stats, i, rec).value && StatLoop(stats, i, rec).value[StatHeaders[j - 1]] == stats[j]
    decreases |stats| - i
  {
    StatLoopFromKeys(stats, i, rec);
    StatLoopStep(stats, i, rec);
    var rec' := rec[StatHeaders[i - 1] := stats[i]];
    if j == i {
      HeaderKeysSplit(i, |stats|);
      if i + 1 < |stats| {
        StatLoopFromKeeps(stats, i + 1, rec', StatHeaders[i - 1]);
      }
    } else {
      StatLoopFromStores(stats, i + 1, rec', j);
    }
  }

  lemma StatLoopFrom(stats: seq<string>, i: nat, rec: Record)
    requires 2 <= i <= |stats| <= |StatHeaders| + 1
    ensures StatLoop(stats, i, rec).Success?
    ensures var r := StatLoop(stats, i, rec).value;
            && r.Keys == rec.Keys + HeaderKeys(i, |stats|)
            && (forall j :: i <= j < |stats| ==> StatHeaders[j - 1] in r && r[StatHeaders[j - 1]] == stats[j])
            && (forall k :: k in rec && k !in HeaderKeys(i, |stats|) ==> k in r && r[k] == rec[k])
  {
    StatLoopFromKeys(stats, i, rec);
    forall j | i <= j < |stats|
      ensures StatHeaders[j - 1] in StatLoop(stats, i, rec).value && StatLoop(stats, i, rec).value[StatHeaders[j - 1]] == stats[j]
    {
      StatLoopFromStores(stats, i, rec, j);
    }
    forall k | k in rec && k !in HeaderKeys(i, |stats|)
      ensures k in StatLoop(stats, i, rec).value && StatLoop(stats, i, rec).value[k] == rec[k]
    {
      StatLoopFromKeeps(stats, i, rec, k);
    }
  }

  /** The entry for one row, under the player's name: IndexError for a row without
      cells, NoSuchElement when the first cell has no anchor. */
  function PlayerRecord(row: BoxRow): (r: Result<(string, Record), Fault>)
    ensures r.Success? ==> |row.cells| >= 1 && row.anchor.Some? && r.value.0 == PlayerName(row.anchor.value)
  {
    if |row.cells| == 0 then Failure(IndexOutOfRange)
    else if row.anchor.None? then Failure(NoSuchElement)
    else
      match StatLoop(CellStats(row.cells), 1, map["started" := Started(row.sup)])
      case Failure(e) => Failure(e)
      case Success(rec) => Success((PlayerName(row.anchor.value), rec))
  }

  /** A row that cannot be read makes the whole extraction fail. */
  lemma MalformedRow(row: BoxRow)
    ensures |row.cells| == 0 ==> PlayerRecord(row) == Failure(IndexOutOfRange)
    ensures |row.cells| > 0 && row.anchor.None? ==> PlayerRecord(row) == Failure(NoSuchElement)
  {
  }

  /** Did-not-play truncation: when the minutes cell reads "0", the entry holds exactly
      `started` and `minutes`, whatever the later cells hold. */
  lemma DidNotPlay(row: BoxRow)
    requires |row.cells| >= 2 && row.anchor.Some?
    requires CellStat(row.cells[1]) == "0"
    ensures PlayerRecord(row) ==
      Success((PlayerName(row.anchor.value), map["started" := Started(row.sup), "minutes" := "0"]))
  {
  }

  /** A player who played: every cell `i >= 1` is stored under `StatHeaders[i - 1]` (a "0"
      in any column but minutes does not stop the row), `started` says whether a
      non-empty `sup` was found, and no other key appears. */
  lemma {:induction false} Played(row: BoxRow)
    requires 1 <= |row.cells| <= |StatHeaders| + 1 && row.anchor.Some?
    requires |row.cells| >= 2 ==> CellStat(row.cells[1]) != "0"
    ensures PlayerRecord(row).Success?
    ensures var (name, rec) := PlayerRecord(row).value;
            && name == PlayerName(row.anchor.value)
            && rec.Keys == {"started"} + HeaderKeys(1, |row.cells|)
            && rec["started"] == (if row.sup.Some? && row.sup.value != "" then "yes" else "no")
            && forall i :: 1 <= i < |row.cells| ==> StatHeaders[i - 1] in rec && rec[StatHeaders[i - 1]] == CellStat(row.cells[i])
  {
    var stats := CellStats(row.cells);
    var start := map["started" := Started(row.sup)];
    StatLoopPlayed(stats, start);
  }

  /** The whole loop over a played row, stated on the normalised cells. */
  lemma StatLoopPlayed(stats: seq<string>, start: Record)
    requires 1 <= |stats| <= |StatHeaders| + 1
    requires |stats| >= 2 ==> stats[1] != "0"
    requires start.Keys == {"started"}
    ensures StatLoop(stats, 1, start).Success?
    ensures var rec := StatLoop(stats, 1, start).value;
            && rec.Keys == {"started"} + HeaderKeys(1, |stats|)
            && rec["started"] == start["started"]
            && forall i :: 1 <= i < |stats| ==> StatHeaders[i - 1] in rec && rec[StatHeaders[i - 1]] == stats[i]
  {
    if |stats| > 1 {
      var rec1 := start[StatHeaders[0] := stats[1]];
      assert StatLoop(stats, 1, start) == StatLoop(stats, 2, rec1);
      StatLoopFrom(stats, 2, rec1);
      assert "started" !in HeaderKeys(2, |stats|) && StatHeaders[0] !in HeaderKeys(2, |stats|) by {
        HeadersDistinct();
      }
      assert HeaderKeys(1, |stats|) == {StatHeaders[0]} + HeaderKeys(2, |stats|);
    } else {
      assert HeaderKeys(1, 1) == {};
    }
  }

  /** A row longer than the header list, for a player who played, raises IndexError. */
  lemma {:induction false} OverLongRow(row: BoxRow)
    requires |row.cells| > |StatHeaders| + 1 && row.anchor.Some?
    requires CellStat(row.cells[1]) != "0"
    ensures PlayerRecord(row) == Failure(IndexOutOfRange)
  {
    var stats := CellStats(row.cells);
    var start := map["started" := Started(row.sup)];
    var rec1 := start[StatHeaders[0] := stats[1]];
    assert StatLoop(stats, 1, start) == StatLoop(stats, 2, rec1);
    StatLoopOverflow(stats, 2, rec1);
  }

  lemma {:induction false} StatLoopOverflow(stats: seq<string>, i: nat, rec: Record)
    requires 2 <= i <= |StatHeaders| + 1 < |stats|
    ensures StatLoop(stats, i, rec) == Failure(IndexOutOfRange)
    decreases |StatHeaders| + 1 - i
  {
    if i <= |StatHeaders| {
      assert StatHeaders[i - 1] != "minutes" by {
        HeadersDistinct();
        assert StatHeaders[0] == "minutes";
      }
      StatLoopOverflow(stats, i + 1, rec[StatHeaders[i - 1] := stats[i]]);
    }
  }

  // ---------------------------------------------------------------------------
  // Tables
  // ---------------------------------------------------------------------------

  /** The (name, entry) pairs of a team's rows, in order; the first row that cannot be
      read makes the whole call raise. */
  function PlayerRecords(rows: seq<BoxRow>): (r: Result<seq<(string, Record)>, Fault>)
    ensures r.Success? <==> forall i :: 0 <= i < |rows| ==> PlayerRecord(rows[i]).Success?
    ensures r.Success? ==> |r.value| == |rows|
    ensures r.Success? ==> forall i :: 0 <= i < |rows| ==> r.value[i] == PlayerRecord(rows[i]).value
    decreases |rows|
  {
    if rows == [] then Success([])
    else
      match PlayerRecord(rows[0])
      case Failure(e) => Failure(e)
      case Success(p) =>
        match PlayerRecords(rows[1..])
        case Failure(e) => Failure(e)
        case Success(rest) => Success([p] + rest)
  }

  /** One team's `{player name: entry}`: `team_dict[team][name] = {}` and the fill that
      follows act as one assignment per row, so a later row for the same name wins. */
  function TeamTable(rows: seq<BoxRow>): Result<map<string, Record>, Fault>
  {
    match PlayerRecords(rows)
    case Failure(e) => Failure(e)
    case Success(ps) => Success(SetAll(Empty(), ps).entries)
  }

  /** A player appears in the team table exactly when some row carries the name, and
      holds the entry of the last such row. */
  lemma TeamTableLastWins(rows: seq<BoxRow>, name: string)
    requires TeamTable(rows).Success?
    ensures name in TeamTable(rows).value <==> exists i :: 0 <= i < |rows| && PlayerRecord(rows[i]).value.0 == name
    ensures forall j :: (0 <= j < |rows| && PlayerRecord(rows[j]).value.0 == name &&
                         (forall i :: j < i < |rows| ==> PlayerRecord(rows[i]).value.0 != name)) ==>
              TeamTable(rows).value[name] == PlayerRecord(rows[j]).value.1
  {
    TeamTableKeys(rows, name);
    forall j | 0 <= j < |rows| && PlayerRecord(rows[j]).value.0 == name &&
               (forall i :: j < i < |rows| ==> PlayerRecord(rows[i]).value.0 != name)
      ensures TeamTable(rows).value[name] == PlayerRecord(rows[j]).value.1
    {
      TeamTableValue(rows, name, j);
    }
  }

  lemma TeamTableKeys(rows: seq<BoxRow>, name: string)
    requires TeamTable(rows).Success?
    ensures name in TeamTable(rows).value <==> exists i :: 0 <= i < |rows| && PlayerRecord(rows[i]).value.0 == name
  {
    var ps := PlayerRecords(rows).value;
    assert name in TeamTable(rows).value <==> name in KeysOf(ps) by {
      TeamTableIs(rows);
      SetAllKeysOf(Empty(), ps, name);
    }
    RecordNames(rows, ps, name);
  }

  /** The names keyed by the records are the names of the rows. */
  lemma RecordNames(rows: seq<BoxRow>, ps: seq<(string, Record)>, name: string)
    requires |ps| == |rows|
    requires forall i :: 0 <= i < |rows| ==> PlayerRecord(rows[i]).Success? && ps[i] == PlayerRecord(rows[i]).value
    ensures name in KeysOf(ps) <==> exists i :: 0 <= i < |rows| && PlayerRecord(rows[i]).value.0 == name
  {
    var ks := KeysOf(ps);
    if name in ks {
      var i :| 0 <= i < |ks| && ks[i] == name;
      assert PlayerRecord(rows[i]).value.0 == name;
    }
  }

  lemma TeamTableValue(rows: seq<BoxRow>, name: string, j: nat)
    requires TeamTable(rows).Success?
    requires j < |rows| && PlayerRecord(rows[j]).value.0 == name
    requires forall i :: j < i < |rows| ==> PlayerRecord(rows[i]).value.0 != name
    ensures name in TeamTable(rows).value && TeamTable(rows).value[name] == PlayerRecord(rows[j]).value.1
  {
    var ps := PlayerRecords(rows).value;
    TeamTableIs(rows);
    SetAllLastWins(Empty(), ps, j);
  }

  /** Unfolds `TeamTable` once, so that callers do not carry its body into their own proofs. */
  lemma TeamTableIs(rows: seq<BoxRow>)
    requires TeamTable(rows).Success?
    ensures PlayerRecords(rows).Success?
    ensures TeamTable(rows).value == SetAll(Empty(), PlayerRecords(rows).value).entries
  {
  }

  /** `write_players_stats(ps)`: for each (team name, rows) a one-key dict
      `{team name: {player name: entry}}`; any row that cannot be read makes the
      whole call raise. */
  function WritePlayersStats(ps: seq<(string, seq<BoxRow>)>): (r: Result<seq<map<string, map<string, Record>>>, Fault>)
    ensures r.Success? <==> forall t :: 0 <= t < |ps| ==> TeamTable(ps[t].1).Success?
    ensures r.Success? ==> |r.value| == |ps|
    ensures r.Success? ==> forall t :: 0 <= t < |ps| ==>
              r.value[t] == map[ps[t].0 := TeamTable(ps[t].1).value]
    decreases |ps|
  {
    if ps == [] then Success([])
    else
      match TeamTable(ps[0].1)
      case Failure(e) => Failure(e)
      case Success(table) =>
        match WritePlayersStats(ps[1..])
        case Failure(e) => Failure(e)
        case Success(rest) => Success([map[ps[0].0 := table]] + rest)
  }
}
