# NBA stat scraper, modelled in Dafny

`statScraper.py` scrapes stats.nba.com with a browser. Its four main jobs are:

- Build three identifier catalogs and write them to hand-formatted JSON files:
  player name to player id, team name to team id, and the current season.
- Read those files back with a quote-splitting reader.
- Find a player's season line on their career page and turn it into a record.
- Turn the rows of a game's box-score tables into per-player stat entries, team by team.

It also lists the coming week's games (`get_schedule`) and today's game ids from www.nba.com
(`get_games_today`).

This project models the string and dictionary logic of those functions as pure Dafny functions
over explicit inputs. A web page is a datatype that holds what the browser would show: the
`innerHTML` of the cells, whether an anchor, `span` or `sup` is present, and whether the page
loaded. An exception that escapes a Python function is a `Failure(Fault)`. An exception
that the function catches itself becomes the value its handler returns (`None`).

The modules are:

- `Wrappers` (`wrappers.dfy`): `Option`, `Result`.
- `Errors` (`errors.dfy`): `Fault`, one value for each exception that can escape.
- `PyStr`: `str.split`, `str.strip`, `str.replace(c, '')`, `str.startswith`, and the way a text
  file is read: universal newlines, and lines that keep their `\n`.
- `PyDict`: an insertion-ordered `str` dict in which a later assignment to a key wins.
- `Catalog`: `update_players`, `update_teams`, `update_season` and `load_from_json`.
- `BoxScore`: `write_players_stats`.
- `Career`: `get_stat_line`, `format_statline` and `write_by_alpha`.
- `Schedule`: the two string splits of `get_schedule`.

The main properties proved are:

- A catalog file that is written and then loaded gives back the pairs it was written from.
- For a repeated name, the last assignment wins, in both the catalogs and the box-score tables.
- A career record has exactly these keys, in this order: the six identity keys, then the column
  names of the cells present.
- Outcomes follow the code's exception paths, including the cases where a `KeyError` escapes.

Behaviours of the code that the model keeps:

- A box-score cell is cut after its first `>` at the next `<` or the next `>`, whichever comes
  first. This is `CellStatBetween`.
- `get_stat_line` passes `current_season['current']` as the default of `kwargs.get('season', …)`.
  Python evaluates that argument before the call, so the function raises a `KeyError` when no
  current season is loaded, even if a `season` keyword is given. `format_statline` does the same.
  It raises a `KeyError` for a player missing from the catalog, and a timeout when the page wait
  expires. None of these is inside its `try`.
- `format_statline` builds a record for any found row of 2 to 24 cells that has a team span. It
  returns `None` for a row of one cell, a row longer than 24 cells, or a row without a team span.
- In `write_players_stats`, a row longer than 21 cells whose minutes are not `"0"` raises an
  `IndexError` outside the `try`, and the whole call fails.
- In `get_stat_line`, a row without cells or without an anchor in its first cell ends the search
  with `None`, even when a later row matches.
- `update_season` assigns its scraped label to a local variable, so the module-level
  `current_season` is only ever set by `load_from_json('season')`.
- For `per36`, `get_stat_line` subscripts a single element. That raises inside the `try`, so the
  result is always `None`.
- For `totals`, `get_stat_line` clicks the first `option`. A page with no `option` raises inside
  the `try`, and the result is `None`.

## Model

| member | source | states |
|---|---|---|
| Catalog.WriteCatalog | statScraper.py:61-69 | the first-flag loop writes `{`, then the entry lines separated by `",` and a newline, then the closing quote and `}`: the catalog text for the entries in order |
| Catalog.SeasonTextIsCatalog | statScraper.py:46-49 | the three writes of the season file form a catalog file with one entry, `current_season`, so the same reader handles it |
| Catalog.PlayerId | statScraper.py:68 | a player id is extracted exactly when the href contains `/player/`; otherwise the `IndexError` escapes |
| Catalog.PlayerIdAfterMarker | statScraper.py:68 | the id is the text after the first `/player/`, up to the next `/` or the end of the href |
| Catalog.PlayerEntry | statScraper.py:68 | a link yields an entry exactly when its href has `/player/`; the name is the `innerHTML` with every `.` removed and the id is the extracted one |
| Catalog.PlayerEntries | statScraper.py:65-68 | all links yield entries exactly when every href has `/player/`; otherwise `update_players` raises. Entry `i` is link `i`'s `innerHTML` without dots and its extracted id |
| Catalog.TeamName | statScraper.py:89 | the team name is the title up to its first ` logo`, or the whole title when there is none; it contains no ` logo` |
| Catalog.TeamId | statScraper.py:90 | the team id exists exactly when the href has at least four `/`, otherwise the `IndexError` escapes; the id contains no `/` |
| Catalog.TeamIdOf | statScraper.py:90 | a link `p0/p1/p2/p3/id`, with slash-free pieces and optionally followed by `/` and more, yields `id` |
| Catalog.TeamEntries | statScraper.py:86-91 | entries exist exactly when there are at least as many links as titles and each of the first links, one per title, has at least four `/` (further links are ignored); otherwise an `IndexError` escapes. Entry `i` is title `i` up to its first ` logo` and the id of link `i` |
| Catalog.ParseLineNoneIff | statScraper.py:104-108 | a line is skipped exactly when it has fewer than three double quotes |
| Catalog.ParseLineFields | statScraper.py:105-106 | on a line `a"k"b"v…`, the key is the text between the first two quotes and the value the text after the third quote, up to the next quote |
| Catalog.LoadFromJson | statScraper.py:95-114 | only `players`, `teams` and `season` succeed; each changes only its own catalog, keeps catalogs well formed and only appends to their key order |
| Catalog.CatalogRoundTrip | statScraper.py:103-112 | loading a written players or teams file assigns exactly the written pairs, in order, to the dict |
| Catalog.LoadedPlayers | statScraper.py:103-110 | after loading into empty catalogs, a name is present exactly when some line carried it, and it maps to the id of its last line |
| Catalog.SeasonRoundTrip | statScraper.py:113-114 | loading the season file sets the current season to the written season |
| BoxScore.CellStatBetween | statScraper.py:263-268 | with a tag in the cell, the stat is the stripped text between the first `>` and the next `<` or `>`, with empty read as `"0"` |
| BoxScore.CellStatNoTag | statScraper.py:265-268 | without a `>`, the handler path gives the whole cell, stripped, with empty read as `"0"` |
| BoxScore.CellStatBlank | statScraper.py:265-268 | a whitespace-only cell reads as `"0"` |
| BoxScore.PlayerName | statScraper.py:250-251 | the name is the anchor text before the first `<`, with every `.` removed |
| BoxScore.MalformedRow | statScraper.py:249-250 | a row without cells raises `IndexError`, and one whose first cell has no anchor raises `NoSuchElement` |
| BoxScore.DidNotPlay | statScraper.py:262-271 | when the minutes cell reads `"0"`, the entry holds exactly `started` and `minutes` |
| BoxScore.Played | statScraper.py:252-271 | for a player who played, each cell `i >= 1` is stored under header `i - 1`, `started` reflects a non-empty `sup`, and no other key appears |
| BoxScore.OverLongRow | statScraper.py:269 | a row with more than 21 cells for a player who played raises `IndexError` |
| BoxScore.PlayerRecords | statScraper.py:248-271 | a team's rows succeed exactly when every row can be read, giving one entry per row, in order |
| BoxScore.TeamTableLastWins | statScraper.py:247-252 | a name is in the team table exactly when some row carries it, and it holds the entry of the last such row |
| BoxScore.WritePlayersStats | statScraper.py:242-273 | the call succeeds exactly when every team's rows succeed, giving one `{team: table}` dict per team, in order |
| Career.StatTypesShape | statScraper.py:36-39 | 24 column names; the names used as keys (from index 2) are distinct, are never `"0"` and never clash with an identity key |
| Career.FindSeasonRow | statScraper.py:139-146 | a returned row belongs to the table and is labelled with the season |
| Career.FindSeasonRowFirstMatch | statScraper.py:141-143 | when row `k` is the first row labelled with the season and every earlier row is readable, row `k` is returned |
| Career.FindSeasonRowSound | statScraper.py:141-144 | a returned row is such a first match, so the two lemmas together describe the search exactly |
| Career.GetStatLine | statScraper.py:117-146 | it fails exactly when the season is unset, the player unknown or the wait times out; a row is returned only when the per-mode can be set (the control exists, `totals` has an option, the mode is not `per36`) and the chosen table exists, and that row is in the table and labelled with the season |
| Career.GetStatLinePer36 | statScraper.py:130-131 | the per-36 mode never yields a row |
| Career.GetStatLineFinds | statScraper.py:127-143 | with everything in order, the result is the first row of the chosen table that is labelled with the season |
| Career.AssembleRecordSome | statScraper.py:159-170 | a record is built exactly for rows of 2 to 24 cells that have a team span |
| Career.AssembleRecordKeys | statScraper.py:160-167 | the record's keys are the six identity keys followed by the column names of cells 2 onward, in insertion order, and never `"0"` |
| Career.AssembleRecordIdentity | statScraper.py:160-165 | the identity fields hold the id, name, season, season type, per-mode and the team span's text |
| Career.AssembleRecordStats | statScraper.py:166-167 | cell `i` (from 2 on) is stored under column name `i` |
| Career.FormatStatline | statScraper.py:149-170 | it fails exactly when `get_stat_line` does, and a record exists only when a row was found |
| Career.FormatStatlineDefaults | statScraper.py:150-152 | without keywords, a record carries the catalogued id, the name, the current season, `regular` and `pergame` |
| Career.FormatStatlineFinds | statScraper.py:156-167 | the record for the first matching row is that row, assembled |
| Career.FormatStatlinePer36 | statScraper.py:130-131 | the per-36 mode never yields a record |
| Career.SelectedMembers | statScraper.py:277-279 | a name is handled exactly when it is catalogued and starts with the prefix |
| Career.SelectedAppend | statScraper.py:277-279 | filtering keeps catalog order: it distributes over concatenation |
| Career.WriteByAlpha | statScraper.py:276-284 | every catalogued name with the prefix, in catalog order, gets the outcome of `format_statline` with defaults; a failure is recorded and the loop goes on |
| Schedule.GameDate | statScraper.py:186 | a date is extracted exactly when the link contains `scores/`; otherwise the index raises |
| Schedule.GameDateAfterMarker | statScraper.py:186 | the date is the text after the first `scores/`, up to the next `scores/` or the end |
| Schedule.GameId | statScraper.py:191 | a game id is extracted exactly when the element id contains `_` |
| Schedule.GameIdOf | statScraper.py:191 | an element id `prefix_game` or `prefix_game_more` yields `game` |
| PyStr.Split | statScraper.py:105-106 | `str.split` yields at least one piece, and the pieces joined with the separator give back the string |
| PyStr.SplitCharCount | statScraper.py:105-106 | splitting on one character gives one more piece than the character has occurrences |
| PyStr.Strip | statScraper.py:264 | the result is a slice whose surroundings are all whitespace, and it starts and ends with a non-space character |
| PyStr.StripOf | statScraper.py:264 | whitespace around a core that starts and ends with a non-space character is removed, and the core is kept whole |
| PyStr.RemoveChar | statScraper.py:68 | `replace('.', '')` removes every `.` and keeps every other character |
| PyStr.Lines | statScraper.py:103 | the file's lines concatenate to its text, and every line except the last ends with its newline |
| PyStr.UniversalNewlines | statScraper.py:103 | reading leaves no `\r` in the text, and text without `\r` arrives unchanged |
| PyStr.CrLfRead | statScraper.py:103 | lines that end in `\r\n` are read with `\n` endings and their contents unchanged |
| PyStr.LoneCrRead | statScraper.py:103 | lines that end in a lone `\r` are read with `\n` endings and their contents unchanged |
| PyDict.Set | statScraper.py:109-112 | `d[k] = v` makes `k` map to `v`, leaves every other key's value alone, adds only `k`, and keeps the earlier key order as a prefix |
| PyDict.SetOrder | statScraper.py:109-112 | `d[k] = v` leaves the key order unchanged when `k` is already present, and appends `k` at the end when it is new |
| PyDict.SetAllLastWins | statScraper.py:109-112 | after a series of assignments, a key holds the value of its last assignment |
| PyDict.SetAllFreshOrder | statScraper.py:160-167 | assigning keys that are new and distinct appends them to the insertion order |

## Left out

- The browser: navigation, clicks and waits are not modelled. A page is the datatype of what it
  shows, and a wait that times out is a `ready` flag.
- Setting the per-mode in the browser: only whether the `PerMode` control and the options
  allow the calls to succeed is modelled, not the change in the page.
- MongoDB and `send_data`: the module creates the client and selects the `stats` database, but
  `db` is used only in commented-out insert calls, so `send_data` does nothing but print. So
  `write_by_alpha`'s effect is the list of outcomes it passes on.
- Key order in the box-score dicts: a player's entry and a team's `{player name: entry}` table
  are plain maps, so their insertion order is not modelled. `get_game_stats` reads only the
  single outer key of each team dict, so nothing in the scraper depends on that order.
- File handling: opening, truncating and closing files, and the partial file left behind when a
  write loop raises midway. The writers are modelled as the text they produce. The round trip
  assumes no newline translation on write and text decoding that maps characters one to one.
- `print`: the console output of `get_schedule`, `get_games_today` and `write_by_alpha`.
- `get_games_today`: it only collects one attribute per element of a page.
- `get_game_stats`: the lookup of team captions and the indexing of the first two result dicts
  depend on the page layout. It is not modelled apart from the `write_players_stats` it calls.
- `get_schedule`: the page traversal and the pop-up handling are not modelled. Only the date and
  id splits are.
- The module-level `try`/`finally` that loads the three files and quits the browser.
- Catalog.CatalogRoundTrip, Catalog.SeasonRoundTrip: require names, ids and the season without
  double quotes or line breaks. The source writes such values as they are, and they do not read
  back.
- Career.WriteByAlpha: takes the career page of each player as a function of the name. The
  browser's state from one page to the next is not modelled.

