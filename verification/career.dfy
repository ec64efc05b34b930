/** `get_stat_line`, `format_statline` and `write_by_alpha`: finding a player's line for
    one season on their career page, turning it into a record, and doing so for every
    catalogued player whose name starts with a given string. */
module Career {
  import opened Wrappers
  import opened Errors
  import opened PyStr
  import opened PyDict
  import Catalog

  /** The column names of a career row. Cells 0 and 1 (season and team) are read
      separately, so the two leading placeholders are never used as keys. */
  const StatTypes: seq<string> := [
    "0", "0", "age", "gp", "gs", "min", "pts", "fgm", "fga", "fg%",
    "3pm", "3pa", "3p%", "ftm", "fta", "ft%", "oreb", "dreb",
    "reb", "ast", "stl", "blk", "tov", "pf"
  ]

  /** The keys every record starts with, in the order they are assigned. */
  const IdentityKeys: seq<string> := ["_id", "name", "season", "seasontype", "permode", "team"]

  lemma StatTypesShape()
    ensures |StatTypes| == 24
    ensures forall a, b :: 2 <= a < b < |StatTypes| ==> StatTypes[a] != StatTypes[b]
    ensures forall a, k :: 2 <= a < |StatTypes| && 0 <= k < |IdentityKeys| ==> StatTypes[a] != IdentityKeys[k]
    ensures forall a :: 2 <= a < |StatTypes| ==> StatTypes[a] != "0"
  {
  }

  /** One `td` of a career row: its `innerHTML`, the `innerHTML` of the anchor inside it
      and that of its `.text span` (None when the element is absent). */
  datatype Td = Td(innerHtml: string, anchor: Option<string>, teamSpan: Option<string>)

  type StatRow = seq<Td>

  /** What the browser shows on a player's career page: whether the page finished
      loading within the wait, whether the `PerMode` control exists, how many `option`
      elements there are, and the body rows of each `nba-stat-table`. */
  datatype CareerPage = CareerPage(ready: bool, perModeControl: bool, optionCount: nat, tables: seq<seq<StatRow>>)

  /** The keyword arguments `season`, `seasontype` and `permode`, each possibly absent. */
  datatype Kwargs = Kwargs(season: Option<string>, seasontype: Option<string>, permode: Option<string>)

  const NoKwargs: Kwargs := Kwargs(None, None, None)

  // ---------------------------------------------------------------------------
  // Row selection
  // ---------------------------------------------------------------------------

  /** Whether setting the per-mode goes through without raising: the control must exist,
      'totals' indexes the first option of a list, and 'per36' subscripts a single
      element, which always raises. Any other mode leaves the page as it is. */
  predicate PerModeSelected(permode: string, page: CareerPage) {
    if !page.perModeControl then false
    else if permode == "totals" then page.optionCount >= 1
    else permode != "per36"
  }

  /** 'regular' selects the first table, anything else the second. */
  function TableIndex(seasontype: string): nat {
    if seasontype == "regular" then 0 else 1
  }

  /** A row whose first cell can be read: it has cells and the first one has an anchor. */
  predicate Readable(row: StatRow) {
    |row| >= 1 && row[0].anchor.Some?
  }

  predicate Matches(row: StatRow, season: string) {
    Readable(row) && row[0].anchor.value == season
  }

  /** Row `k` matches, and every row before it is readable and does not. */
  predicate FirstMatchAt(rows: seq<StatRow>, season: string, k: nat) {
    && k < |rows|
    && Matches(rows[k], season)
    && forall j :: 0 <= j < k ==> Readable(rows[j]) && !Matches(rows[j], season)
  }

  /** The loop over the table's rows: the first row labelled `season`. A row that cannot
      be read raises, and the handler turns that into None as well. */
  function FindSeasonRow(rows: seq<StatRow>, season: string): (r: Option<StatRow>)
    ensures r.Some? ==> r.value in rows && Matches(r.value, season)
  {
    if rows == [] then None
    else if !Readable(rows[0]) then None
    else if rows[0][0].anchor.value == season then Some(rows[0])
    else FindSeasonRow(rows[1..], season)
  }

  lemma {:induction false} FindSeasonRowFirstMatch(rows: seq<StatRow>, season: string, k: nat)
    requires FirstMatchAt(rows, season, k)
    ensures FindSeasonRow(rows, season) == Some(rows[k])
  {
    if k > 0 {
      assert Readable(rows[0]) && !Matches(rows[0], season);
      assert FirstMatchAt(rows[1..], season, k - 1) by {
        forall j | 0 <= j < k - 1
          ensures Readable(rows[1..][j]) && !Matches(rows[1..][j], season)
        {
          assert rows[1..][j] == rows[j + 1];
        }
      }
      FindSeasonRowFirstMatch(rows[1..], season, k - 1);
    }
  }

  lemma {:induction false} FindSeasonRowSound(rows: seq<StatRow>, season: string)
    requires FindSeasonRow(rows, season).Some?
    ensures exists k: nat :: FirstMatchAt(rows, season, k) && rows[k] == FindSeasonRow(rows, season).value
  {
    if !Matches(rows[0], season) {
      FindSeasonRowSound(rows[1..], season);
      var k: nat :| FirstMatchAt(rows[1..], season, k) && rows[1..][k] == FindSeasonRow(rows[1..], season).value;
      assert rows[1..][k] == rows[k + 1];
      assert FirstMatchAt(rows, season, k + 1) by {
        forall j | 0 <= j < k + 1
          ensures Readable(rows[j]) && !Matches(rows[j], season)
        {
          if j > 0 {
            assert rows[j] == rows[1..][j - 1];
          }
        }
      }
    } else {
      assert FirstMatchAt(rows, season, 0);
    }
  }

  /** `get_stat_line`. Before the handler: the default season is looked up even when a
      season is given (KeyError 'current'), the player's id is looked up (KeyError), and
      the page wait can time out. Inside the handler every failure is None. */
  function GetStatLine(cats: Catalog.Catalogs, player: string, kw: Kwargs, page: CareerPage): (r: Result<Option<StatRow>, Fault>)
    ensures cats.currentSeason.None? ==> r == Failure(MissingKey("current"))
    ensures cats.currentSeason.Some? && player !in cats.players.entries ==> r == Failure(MissingKey(player))
    ensures r.Failure? <==> cats.currentSeason.None? || player !in cats.players.entries || !page.ready
    ensures r.Success? && r.value.Some? ==>
              && PerModeSelected(kw.permode.GetOr("pergame"), page)
              && TableIndex(kw.seasontype.GetOr("regular")) < |page.tables|
              && r.value.value in page.tables[TableIndex(kw.seasontype.GetOr("regular"))]
              && Matches(r.value.value, kw.season.GetOr(cats.currentSeason.value))
  {
    if cats.currentSeason.None? then Failure(MissingKey("current"))
    else if player !in cats.players.entries then Failure(MissingKey(player))
    else if !page.ready then Failure(WaitTimedOut)
    else
      var season := kw.season.GetOr(cats.currentSeason.value);
      var t := TableIndex(kw.seasontype.GetOr("regular"));
      if !PerModeSelected(kw.permode.GetOr("pergame"), page) then Success(None)
      else if t >= |page.tables| then Success(None)
      else Success(FindSeasonRow(page.tables[t], season))
  }

  /** Asking for the per-36 figures never yields a row. */
  lemma GetStatLinePer36(cats: Catalog.Catalogs, player: string, kw: Kwargs, page: CareerPage)
    requires kw.permode == Some("per36")
    ensures GetStatLine(cats, player, kw, page).Success? ==> GetStatLine(cats, player, kw, page).value == None
  {
  }

  /** With the catalogs and page in order, the line is the first row of the selected
      table labelled with the season. */
  lemma GetStatLineFinds(cats: Catalog.Catalogs, player: string, kw: Kwargs, page: CareerPage, k: nat)
    requires cats.currentSeason.Some? && player in cats.players.entries && page.ready
    requires PerModeSelected(kw.permode.GetOr("pergame"), page)
    requires TableIndex(kw.seasontype.GetOr("regular")) < |page.tables|
    requires FirstMatchAt(page.tables[TableIndex(kw.seasontype.GetOr("regular"))], kw.season.GetOr(cats.currentSeason.value), k)
    ensures GetStatLine(cats, player, kw, page) == Success(Some(page.tables[TableIndex(kw.seasontype.GetOr("regular"))][k]))
  {
    FindSeasonRowFirstMatch(page.tables[TableIndex(kw.seasontype.GetOr("regular"))], kw.season.GetOr(cats.currentSeason.value), k);
  }

  // ---------------------------------------------------------------------------
  // The record
  // ---------------------------------------------------------------------------

  /** The loop over cells `i` onward: cell `i` goes under `StatTypes[i]`, and a cell past
      the last column name raises. */
  function FillStats(row: StatRow, i: nat, d: Dict<string>): Option<Dict<string>>
    requires PyDict.Valid(d)
    decreases |row| - i
  {
    if i >= |row| then Some(d)
    else if i >= |StatTypes| then None
    else FillStats(row, i + 1, Set(d, StatTypes[i], row[i].innerHtml))
  }

  /** The (column, cell) assignments the loop makes from cell `i` on. */
  function StatPairs(row: StatRow, i: nat): (ps: seq<(string, string)>)
    requires i <= |row| <= |StatTypes|
    ensures |ps| == |row| - i
    ensures forall k :: 0 <= k < |ps| ==> ps[k] == (StatTypes[i + k], row[i + k].innerHtml)
  {
    seq(|row| - i, k requires 0 <= k < |row| - i => (StatTypes[i + k], row[i + k].innerHtml))
  }

  lemma StatPairsTail(row: StatRow, i: nat)
    requires i < |row| <= |StatTypes|
    ensures StatPairs(row, i)[0] == (StatTypes[i], row[i].innerHtml)
    ensures StatPairs(row, i)[1..] == StatPairs(row, i + 1)
  {
  }

  /** Within the column list, the loop is a run of dict assignments. */
  lemma {:induction false} FillStatsAssigns(row: StatRow, i: nat, d: Dict<string>)
    requires i <= |row| <= |StatTypes|
    requires PyDict.Valid(d)
    ensures FillStats(row, i, d) == Some(SetAll(d, StatPairs(row, i)))
    decreases |row| - i
  {
    if i < |row| {
      var d' := Set(d, StatTypes[i], row[i].innerHtml);
      FillStatsAssigns(row, i + 1, d');
      StatPairsTail(row, i);
    } else {
      assert StatPairs(row, i) == [];
    }
  }

  /** Past the column list, the loop raises. */
  lemma {:induction false} FillStatsOverflow(row: StatRow, i: nat, d: Dict<string>)
    requires i <= |StatTypes| < |row|
    requires PyDict.Valid(d)
    ensures FillStats(row, i, d) == None
    decreases |StatTypes| - i
  {
    if i < |StatTypes| {
      FillStatsOverflow(row, i + 1, Set(d, StatTypes[i], row[i].innerHtml));
    }
  }

  /** The identity assignments, in the order they are made. */
  function IdentityPairs(id: string, player: string, season: string, seasontype: string, permode: string, team: string): (ps: seq<(string, string)>)
    ensures |ps| == |IdentityKeys|
    ensures forall i :: 0 <= i < |ps| ==> ps[i].0 == IdentityKeys[i]
  {
    [("_id", id), ("name", player), ("season", season), ("seasontype", seasontype), ("permode", permode), ("team", team)]
  }

  lemma IdentityKeysDistinct()
    ensures |IdentityKeys| == 6
    ensures forall a, b :: 0 <= a < b < |IdentityKeys| ==> IdentityKeys[a] != IdentityKeys[b]
  {
  }

  /** The stat column names from index 2 are different from each other and from the
      identity keys. */
  lemma StatKeysFresh(row: StatRow)
    requires 2 <= |row| <= |StatTypes|
    ensures forall j :: 0 <= j < |StatPairs(row, 2)| ==> StatPairs(row, 2)[j].0 !in IdentityKeys
    ensures forall a, b :: 0 <= a < b < |StatPairs(row, 2)| ==> StatPairs(row, 2)[a].0 != StatPairs(row, 2)[b].0
    ensures KeysOf(StatPairs(row, 2)) == StatTypes[2..|row|]
  {
    StatTypesShape();
  }

  /** The identity fields alone, assigned to an empty dict, keep their order ... */
  lemma IdentityOrder(id: string, player: string, season: string, seasontype: string, permode: string, team: string)
    ensures var d := SetAll(Empty(), IdentityPairs(id, player, season, seasontype, permode, team));
            && d.order == IdentityKeys
            && (forall k :: k in d.entries <==> k in IdentityKeys)
  {
    var ids := IdentityPairs(id, player, season, seasontype, permode, team);
    IdentityKeysDistinct();
    assert KeysOf(ids) == IdentityKeys;
    SetAllFreshOrder(Empty(), ids);
    var e: Dict<string> := Empty();
    assert e.order == [];
  }

  /** ... and each gets its own value. */
  lemma IdentityValuesAt(id: string, player: string, season: string, seasontype: string, permode: string, team: string)
    ensures var ids := IdentityPairs(id, player, season, seasontype, permode, team);
            var d := SetAll(Empty(), ids);
            forall j :: 0 <= j < |ids| ==> IdentityKeys[j] in d.entries && d.entries[IdentityKeys[j]] == ids[j].1
  {
    var ids := IdentityPairs(id, player, season, seasontype, permode, team);
    IdentityKeysDistinct();
    forall j | 0 <= j < |ids|
      ensures IdentityKeys[j] in SetAll(Empty(), ids).entries && SetAll(Empty(), ids).entries[IdentityKeys[j]] == ids[j].1
    {
      SetAllLastWins(Empty(), ids, j);
    }
  }

  lemma IdentityValues(id: string, player: string, season: string, seasontype: string, permode: string, team: string)
    ensures var d := SetAll(Empty(), IdentityPairs(id, player, season, seasontype, permode, team));
            && "_id" in d.entries && d.entries["_id"] == id
            && "name" in d.entries && d.entries["name"] == player
            && "season" in d.entries && d.entries["season"] == season
            && "seasontype" in d.entries && d.entries["seasontype"] == seasontype
            && "permode" in d.entries && d.entries["permode"] == permode
            && "team" in d.entries && d.entries["team"] == team
  {
    IdentityValuesAt(id, player, season, seasontype, permode, team);
    var ids := IdentityPairs(id, player, season, seasontype, permode, team);
    assert IdentityKeys[0] == "_id" && ids[0].1 == id;
    assert IdentityKeys[1] == "name" && ids[1].1 == player;
    assert IdentityKeys[2] == "season" && ids[2].1 == season;
    assert IdentityKeys[3] == "seasontype" && ids[3].1 == seasontype;
    assert IdentityKeys[4] == "permode" && ids[4].1 == permode;
    assert IdentityKeys[5] == "team" && ids[5].1 == team;
  }

  /** The `try` block of `format_statline` once a row was found: a row without a second
      cell, or whose second cell has no team span, raises, as does one longer than the
      column list; the handler then returns None, so no partial record escapes. */
  function AssembleRecord(id: string, player: string, season: string, seasontype: string, permode: string, row: StatRow): Option<Dict<string>> {
    if |row| < 2 || row[1].teamSpan.None? then None
    else FillStats(row, 2, SetAll(Empty(), IdentityPairs(id, player, season, seasontype, permode, row[1].teamSpan.value)))
  }

  /** A record is produced exactly for rows of 2 to 24 cells with a team span. */
  lemma AssembleRecordSome(id: string, player: string, season: string, seasontype: string, permode: string, row: StatRow)
    ensures AssembleRecord(id, player, season, seasontype, permode, row).Some?
            <==> 2 <= |row| <= |StatTypes| && row[1].teamSpan.Some?
  {
    if 2 <= |row| && row[1].teamSpan.Some? {
      var d0 := SetAll(Empty(), IdentityPairs(id, player, season, seasontype, permode, row[1].teamSpan.value));
      if |row| <= |StatTypes| {
        FillStatsAssigns(row, 2, d0);
      } else {
        FillStatsOverflow(row, 2, d0);
      }
    }
  }

  lemma NoPlaceholderKey(n: nat)
    requires 2 <= n <= |StatTypes|
    ensures "0" !in IdentityKeys && "0" !in StatTypes[2..n]
  {
    StatTypesShape();
  }

  /** A record that fits is the identity assignments followed by fresh stat assignments. */
  lemma RecordAssignments(id: string, player: string, season: string, seasontype: string, permode: string, row: StatRow)
    requires 2 <= |row| <= |StatTypes| && row[1].teamSpan.Some?
    ensures var d0 := SetAll(Empty(), IdentityPairs(id, player, season, seasontype, permode, row[1].teamSpan.value));
            && AssembleRecord(id, player, season, seasontype, permode, row) == Some(SetAll(d0, StatPairs(row, 2)))
            && d0.order == IdentityKeys
            && (forall k :: k in d0.entries <==> k in IdentityKeys)
            && FreshKeys(d0, StatPairs(row, 2))
  {
    var d0 := SetAll(Empty(), IdentityPairs(id, player, season, seasontype, permode, row[1].teamSpan.value));
    IdentityOrder(id, player, season, seasontype, permode, row[1].teamSpan.value);
    FillStatsAssigns(row, 2, d0);
    StatKeysFresh(row);
  }

  /** The record's keys are the identity keys followed by the stat column names of
      cells 2 onward, in that insertion order; so a placeholder is never a key. */
  lemma AssembleRecordKeys(id: string, player: string, season: string, seasontype: string, permode: string, row: StatRow)
    requires 2 <= |row| <= |StatTypes| && row[1].teamSpan.Some?
    ensures AssembleRecord(id, player, season, seasontype, permode, row).Some?
    ensures var d := AssembleRecord(id, player, season, seasontype, permode, row).value;
            && d.order == IdentityKeys + StatTypes[2..|row|]
            && (forall k :: k in d.entries <==> k in IdentityKeys || k in StatTypes[2..|row|])
            && "0" !in d.entries
  {
    var d0 := SetAll(Empty(), IdentityPairs(id, player, season, seasontype, permode, row[1].teamSpan.value));
    RecordAssignments(id, player, season, seasontype, permode, row);
    SetAllFreshOrder(d0, StatPairs(row, 2));
    StatKeysFresh(row);
    assert "0" !in IdentityKeys + StatTypes[2..|row|] by {
      NoPlaceholderKey(|row|);
    }
  }

  /** The identity fields hold the given values and the team span's text. */
  lemma AssembleRecordIdentity(id: string, player: string, season: string, seasontype: string, permode: string, row: StatRow)
    requires 2 <= |row| <= |StatTypes| && row[1].teamSpan.Some?
    ensures AssembleRecord(id, player, season, seasontype, permode, row).Some?
    ensures var d := AssembleRecord(id, player, season, seasontype, permode, row).value;
            && "_id" in d.entries && d.entries["_id"] == id
            && "name" in d.entries && d.entries["name"] == player
            && "season" in d.entries && d.entries["season"] == season
            && "seasontype" in d.entries && d.entries["seasontype"] == seasontype
            && "permode" in d.entries && d.entries["permode"] == permode
            && "team" in d.entries && d.entries["team"] == row[1].teamSpan.value
  {
    var d0 := SetAll(Empty(), IdentityPairs(id, player, season, seasontype, permode, row[1].teamSpan.value));
    RecordAssignments(id, player, season, seasontype, permode, row);
    IdentityValues(id, player, season, seasontype, permode, row[1].teamSpan.value);
    forall k | k in d0.entries
      ensures k in SetAll(d0, StatPairs(row, 2)).entries && SetAll(d0, StatPairs(row, 2)).entries[k] == d0.entries[k]
    {
      SetAllUntouched(d0, StatPairs(row, 2), k);
    }
  }

  /** Cell `i` (from 2 on) is stored under `StatTypes[i]`. */
  lemma AssembleRecordStats(id: string, player: string, season: string, seasontype: string, permode: string, row: StatRow)
    requires 2 <= |row| <= |StatTypes| && row[1].teamSpan.Some?
    ensures AssembleRecord(id, player, season, seasontype, permode, row).Some?
    ensures var d := AssembleRecord(id, player, season, seasontype, permode, row).value;
            forall i :: 2 <= i < |row| ==> StatTypes[i] in d.entries && d.entries[StatTypes[i]] == row[i].innerHtml
  {
    var d0 := SetAll(Empty(), IdentityPairs(id, player, season, seasontype, permode, row[1].teamSpan.value));
    var stats := StatPairs(row, 2);
    RecordAssignments(id, player, season, seasontype, permode, row);
    SetAllFreshValues(d0, stats);
    forall i | 2 <= i < |row|
      ensures StatTypes[i] in SetAll(d0, stats).entries && SetAll(d0, stats).entries[StatTypes[i]] == row[i].innerHtml
    {
      assert stats[i - 2] == (StatTypes[i], row[i].innerHtml);
    }
  }

  /** `format_statline`: the season default is looked up first (KeyError 'current'),
      failures of `get_stat_line` pass through, no row gives None, and otherwise the row
      is assembled with the defaults 'regular' and 'pergame' filled in. */
  function FormatStatline(cats: Catalog.Catalogs, player: string, kw: Kwargs, page: CareerPage): (r: Result<Option<Dict<string>>, Fault>)
    ensures r.Failure? <==> GetStatLine(cats, player, kw, page).Failure?
    ensures r.Success? && r.value.Some? ==> GetStatLine(cats, player, kw, page).value.Some?
  {
    if cats.currentSeason.None? then Failure(MissingKey("current"))
    else
      match GetStatLine(cats, player, kw, page)
      case Failure(e) => Failure(e)
      case Success(None) => Success(None)
      case Success(Some(row)) =>
        Success(AssembleRecord(cats.players.entries[player], player, kw.season.GetOr(cats.currentSeason.value),
                               kw.seasontype.GetOr("regular"), kw.permode.GetOr("pergame"), row))
  }

  /** Called with no keyword arguments, a record found for a row describes the current
      season's regular-season per-game line, under the player's catalogued id. */
  lemma FormatStatlineDefaults(cats: Catalog.Catalogs, player: string, page: CareerPage)
    requires FormatStatline(cats, player, NoKwargs, page).Success?
    requires FormatStatline(cats, player, NoKwargs, page).value.Some?
    ensures var d := FormatStatline(cats, player, NoKwargs, page).value.value;
            && cats.currentSeason.Some? && player in cats.players.entries
            && "_id" in d.entries && d.entries["_id"] == cats.players.entries[player]
            && "name" in d.entries && d.entries["name"] == player
            && "season" in d.entries && d.entries["season"] == cats.currentSeason.value
            && "seasontype" in d.entries && d.entries["seasontype"] == "regular"
            && "permode" in d.entries && d.entries["permode"] == "pergame"
  {
    var row := GetStatLine(cats, player, NoKwargs, page).value.value;
    AssembleRecordSome(cats.players.entries[player], player, cats.currentSeason.value, "regular", "pergame", row);
    AssembleRecordIdentity(cats.players.entries[player], player, cats.currentSeason.value, "regular", "pergame", row);
  }

  /** The record for the first matching row is that row, assembled; a row over 24 cells
      or without a team span gives None. */
  lemma FormatStatlineFinds(cats: Catalog.Catalogs, player: string, kw: Kwargs, page: CareerPage, k: nat)
    requires cats.currentSeason.Some? && player in cats.players.entries && page.ready
    requires PerModeSelected(kw.permode.GetOr("pergame"), page)
    requires TableIndex(kw.seasontype.GetOr("regular")) < |page.tables|
    requires FirstMatchAt(page.tables[TableIndex(kw.seasontype.GetOr("regular"))], kw.season.GetOr(cats.currentSeason.value), k)
    ensures var row := page.tables[TableIndex(kw.seasontype.GetOr("regular"))][k];
            FormatStatline(cats, player, kw, page) ==
              Success(AssembleRecord(cats.players.entries[player], player, kw.season.GetOr(cats.currentSeason.value),
                                     kw.seasontype.GetOr("regular"), kw.permode.GetOr("pergame"), row))
  {
    GetStatLineFinds(cats, player, kw, page, k);
  }

  /** The per-36 request never produces a record. */
  lemma FormatStatlinePer36(cats: Catalog.Catalogs, player: string, kw: Kwargs, page: CareerPage)
    requires kw.permode == Some("per36")
    ensures FormatStatline(cats, player, kw, page).Success? ==> FormatStatline(cats, player, kw, page).value == None
  {
    GetStatLinePer36(cats, player, kw, page);
  }

  // ---------------------------------------------------------------------------
  // Bulk processing
  // ---------------------------------------------------------------------------

  /** The names that start with `prefix`, in the given order. */
  function Selected(names: seq<string>, prefix: string): (r: seq<string>)
    ensures |r| <= |names|
  {
    if names == [] then []
    else
      var last := names[|names| - 1];
      Selected(names[..|names| - 1], prefix) + (if StartsWith(last, prefix) then [last] else [])
  }

  lemma {:induction false} SelectedMembers(names: seq<string>, prefix: string, x: string)
    ensures x in Selected(names, prefix) <==> x in names && StartsWith(x, prefix)
  {
    if names != [] {
      var init := names[..|names| - 1];
      SelectedMembers(init, prefix, x);
      assert names == init + [names[|names| - 1]];
    }
  }

  /** Filtering keeps the relative order: it distributes over concatenation. */
  lemma {:induction false} SelectedAppend(a: seq<string>, b: seq<string>, prefix: string)
    ensures Selected(a + b, prefix) == Selected(a, prefix) + Selected(b, prefix)
    decreases |b|
  {
    if b == [] {
      assert a + b == a;
    } else {
      var init := b[..|b| - 1];
      assert (a + b)[..|a + b| - 1] == a + init;
      SelectedAppend(a, init, prefix);
    }
  }

  /** What happens to one player's line: an escaping failure (which the loop reports
      and skips), no line, or the record handed on for storing. */
  type Outcome = Result<Option<Dict<string>>, Fault>

  /** `write_by_alpha`: every catalogued player, in catalog order, whose name starts with
      `prefix` gets `format_statline` with the defaults; `pageOf` gives the career page
      the browser shows for each player. */
  method WriteByAlpha(cats: Catalog.Catalogs, prefix: string, pageOf: string -> CareerPage) returns (out: seq<(string, Outcome)>)
    ensures |out| == |Selected(cats.players.order, prefix)|
    ensures forall i :: 0 <= i < |out| ==>
              && out[i].0 == Selected(cats.players.order, prefix)[i]
              && out[i].1 == FormatStatline(cats, out[i].0, NoKwargs, pageOf(out[i].0))
  {
    var names := cats.players.order;
    out := [];
    for n := 0 to |names|
      invariant |out| == |Selected(names[..n], prefix)|
      invariant forall i :: 0 <= i < |out| ==>
                  && out[i].0 == Selected(names[..n], prefix)[i]
                  && out[i].1 == FormatStatline(cats, out[i].0, NoKwargs, pageOf(out[i].0))
    {
      var player := names[n];
      assert names[..n + 1][..n] == names[..n];
      if StartsWith(player, prefix) {
        out := out + [(player, FormatStatline(cats, player, NoKwargs, pageOf(player)))];
      }
    }
    assert names[..|names|] == names;
  }
}
