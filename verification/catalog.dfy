/** The identifier catalogs and their flat files: `update_players`, `update_teams` and
    `update_season` write them, `load_from_json` reads them back into the module-level
    dicts `players`, `teams` and `current_season`. */
module Catalog {
  import opened Wrappers
  import opened Errors
  import opened PyStr
  import opened PyDict

  /** The process-wide catalogs. `current_season` only ever holds the key 'current',
      so it is modelled as the optional value under that key. */
  datatype Catalogs = Catalogs(players: Dict<string>, teams: Dict<string>, currentSeason: Option<string>)

  ghost predicate Valid(c: Catalogs) {
    PyDict.Valid(c.players) && PyDict.Valid(c.teams)
  }

  /** The state at start-up: three empty dicts. */
  const Initial: Catalogs := Catalogs(Empty(), Empty(), None)

  /** A (name, id) pair as the files store it. */
  type Entry = (string, string)

  // ---------------------------------------------------------------------------
  // Writing
  // ---------------------------------------------------------------------------

  /** What one loop iteration writes for an entry: `\t"name":"id`, the closing quote left off. */
  function EntryLine(e: Entry): string {
    "\t\"" + e.0 + "\":\"" + e.1
  }

  function EntryLines(es: seq<Entry>): (ls: seq<string>)
    ensures |ls| == |es|
    ensures forall i :: 0 <= i < |es| ==> ls[i] == EntryLine(es[i])
  {
    seq(|es|, i requires 0 <= i < |es| => EntryLine(es[i]))
  }

  /** The whole file: `{` and a newline, the entries separated by `",` and a newline,
      then `"`, a newline and `}`. */
  function CatalogText(es: seq<Entry>): string {
    "{\n" + Join(EntryLines(es), "\",\n") + "\"\n}"
  }

  /** The writing loop of `update_players` and `update_teams`: a `first` flag decides
      whether the separator goes before the next entry. */
  method WriteCatalog(es: seq<Entry>) returns (file: string)
    ensures file == CatalogText(es)
  {
    file := "{\n";
    var first := true;
    for i := 0 to |es|
      invariant first <==> i == 0
      invariant file == "{\n" + Join(EntryLines(es[..i]), "\",\n")
    {
      assert EntryLines(es[..i + 1]) == EntryLines(es[..i]) + [EntryLine(es[i])];
      if !first {
        JoinSnoc(EntryLines(es[..i]), EntryLine(es[i]), "\",\n");
        file := file + "\",\n";
      } else {
        first := false;
      }
      file := file + EntryLine(es[i]);
    }
    assert es[..|es|] == es;
    file := file + "\"\n}";
  }

  /** The three writes of `update_season`. */
  function SeasonText(season: string): string {
    "{\n\t\"current_season\":\"" + season + "\"\n}"
  }

  /** The season file is a catalog file with the single entry ("current_season", season). */
  lemma SeasonTextIsCatalog(season: string)
    ensures SeasonText(season) == CatalogText([("current_season", season)])
  {
    var e := ("current_season", season);
    assert Join(EntryLines([e]), "\",\n") == EntryLine(e) by {
      assert EntryLines([e]) == [EntryLine(e)];
    }
    assert "{\n" + EntryLine(e) + "\"\n}" == SeasonText(season) by {
      assert "{\n" + EntryLine(e) + "\"\n}" == "{\n\t\"current_season\":\"" + season + "\"\n}";
    }
  }

  /** A link of the players list: its `innerHTML` and its `href`. */
  datatype PlayerLink = PlayerLink(innerHtml: string, href: string)

  /** `href.split('/player/')[1].split('/')[0]`; the IndexError of the first index escapes
      `update_players`. */
  function PlayerId(href: string): (r: Result<string, Fault>)
    ensures r.Success? <==> Contains(href, "/player/")
  {
    var parts := Split(href, "/player/");
    SplitSingle(href, "/player/");
    if |parts| >= 2 then Success(Split(parts[1], "/")[0]) else Failure(IndexOutOfRange)
  }

  /** The id is the text after the first `/player/` up to the next `/` or the end. */
  lemma PlayerIdAfterMarker(href: string, i: nat)
    requires i == Find(href, "/player/") && i < |href|
    ensures i + 8 <= |href|
    ensures PlayerId(href) == Success(href[i + 8..][..Find(href[i + 8..], "/")])
  {
    var rest := href[i + 8..];
    assert Split(href, "/player/")[1] == rest[..Find(rest, "/player/")] by {
      SplitSecond(href, "/player/");
    }
    assert Split(rest[..Find(rest, "/player/")], "/")[0] == rest[..Find(rest, "/")] by {
      CutAtSlash(rest);
    }
  }

  /** The marker starts with `/`, so cutting at the next marker and then at `/` is the
      same as cutting at `/`. */
  lemma CutAtSlash(rest: string)
    ensures Split(rest[..Find(rest, "/player/")], "/")[0] == rest[..Find(rest, "/")]
  {
    var f1 := Find(rest, "/player/");
    var mid := rest[..f1];
    var f2 := Find(rest, "/");
    if f1 < |rest| {
      assert OccursAt(rest, "/player/", f1);
      assert rest[f1] == rest[f1..f1 + 8][0];
      OccursAtChar(rest, '/', f1);
    }
    assert f2 <= f1;
    FindCharInPrefix(rest, '/', f1);
    SplitFirst(mid, "/");
    assert mid[..f2] == rest[..f2];
  }

  /** The entry `update_players` writes for a link: the name with every `.` removed, and the id. */
  function PlayerEntry(link: PlayerLink): (r: Result<Entry, Fault>)
    ensures r.Success? <==> Contains(link.href, "/player/")
    ensures r.Success? ==> r.value.0 == RemoveChar(link.innerHtml, '.') && '.' !in r.value.0
    ensures r.Success? ==> Success(r.value.1) == PlayerId(link.href)
  {
    match PlayerId(link.href)
    case Failure(e) => Failure(e)
    case Success(id) => Success((RemoveChar(link.innerHtml, '.'), id))
  }

  /** The entries for all links; when some link's id cannot be extracted, the IndexError
      escapes `update_players`. */
  function PlayerEntries(links: seq<PlayerLink>): (r: Result<seq<Entry>, Fault>)
    ensures r.Success? <==> forall i :: 0 <= i < |links| ==> Contains(links[i].href, "/player/")
    ensures r.Failure? ==> r.error == IndexOutOfRange
    ensures r.Success? ==> |r.value| == |links|
    ensures r.Success? ==> forall i :: 0 <= i < |links| ==>
              && r.value[i].0 == RemoveChar(links[i].innerHtml, '.') && '.' !in r.value[i].0
              && Success(r.value[i].1) == PlayerId(links[i].href)
  {
    if forall i :: 0 <= i < |links| ==> PlayerEntry(links[i]).Success? then
      Success(seq(|links|, i requires 0 <= i < |links| => PlayerEntry(links[i]).value))
    else Failure(IndexOutOfRange)
  }

  /** `title.split(' logo')[0]`: the team name is the title up to the first ` logo`. */
  function TeamName(title: string): (r: string)
    ensures |r| <= |title| && r == title[..Find(title, " logo")]
    ensures !Contains(r, " logo")
    ensures !Contains(title, " logo") ==> r == title
  {
    SplitFirst(title, " logo");
    SplitPiecesFree(title, " logo");
    FindContains(title, " logo");
    Split(title, " logo")[0]
  }

  /** `href.split('/')[4]`: the piece after the fourth `/`; the IndexError escapes
      `update_teams` when there are fewer than four. */
  function TeamId(href: string): (r: Result<string, Fault>)
    ensures r.Success? <==> multiset(href)['/'] >= 4
    ensures r.Success? ==> '/' !in r.value
  {
    var parts := Split(href, "/");
    SplitCharCount(href, '/');
    if |parts| >= 5 then
      SplitPiecesFree(href, "/");
      ContainsChar(parts[4], '/');
      Success(parts[4])
    else Failure(IndexOutOfRange)
  }

  /** A link `p0/p1/p2/p3/id`, possibly followed by `/` and more, yields `id`: the text
      after the fourth `/` up to the next `/` or the end. */
  lemma TeamIdOf(p0: string, p1: string, p2: string, p3: string, id: string, more: string)
    requires '/' !in p0 && '/' !in p1 && '/' !in p2 && '/' !in p3 && '/' !in id
    requires more == [] || more[0] == '/'
    ensures TeamId(p0 + "/" + (p1 + "/" + (p2 + "/" + (p3 + "/" + (id + more))))) == Success(id)
  {
    var tail := id + more;
    var t3 := p3 + "/" + tail;
    var t2 := p2 + "/" + t3;
    var t1 := p1 + "/" + t2;
    SlashCons(p0, t1);
    SlashCons(p1, t2);
    SlashCons(p2, t3);
    SlashCons(p3, tail);
    assert Split(tail, "/")[0] == id by {
      FindChar(tail, '/', |id|);
      SplitFirst(tail, "/");
      assert tail[..|id|] == id;
    }
  }

  /** A slash-free piece followed by `/` is the first piece of the split. */
  lemma SlashCons(a: string, b: string)
    requires '/' !in a
    ensures Split(a + "/" + b, "/") == [a] + Split(b, "/")
  {
    SplitCharCons(a, '/', b);
  }

  /** The entries `update_teams` writes: one per title, paired by position with the links.
      When a link is missing or its id cannot be extracted, the IndexError escapes. */
  function TeamEntries(titles: seq<string>, hrefs: seq<string>): (r: Result<seq<Entry>, Fault>)
    ensures r.Success? <==> |titles| <= |hrefs| && forall i :: 0 <= i < |titles| ==> multiset(hrefs[i])['/'] >= 4
    ensures r.Failure? ==> r.error == IndexOutOfRange
    ensures r.Success? ==> |r.value| == |titles|
    ensures r.Success? ==> forall i :: 0 <= i < |titles| ==>
              && r.value[i].0 == titles[i][..Find(titles[i], " logo")] && !Contains(r.value[i].0, " logo")
              && Success(r.value[i].1) == TeamId(hrefs[i]) && '/' !in r.value[i].1
  {
    if |titles| <= |hrefs| && forall i :: 0 <= i < |titles| ==> TeamId(hrefs[i]).Success? then
      Success(seq(|titles|, i requires 0 <= i < |titles| => (TeamName(titles[i]), TeamId(hrefs[i]).value)))
    else Failure(IndexOutOfRange)
  }

  // ---------------------------------------------------------------------------
  // Reading
  // ---------------------------------------------------------------------------

  /** Pieces 1 and 3 of `line.split('"')`; None for a line with fewer than four pieces,
      where the index raises and the reader moves on. */
  function ParseLine(line: string): Option<Entry>
  {
    var parts := Split(line, "\"");
    if |parts| >= 4 then Some((parts[1], parts[3])) else None
  }

  /** A line yields an entry exactly when it has at least three double quotes. */
  lemma ParseLineNoneIff(line: string)
    ensures ParseLine(line).None? <==> multiset(line)['"'] < 3
  {
    SplitCharCount(line, '"');
  }

  /** The key sits between the first and second quote, the value between the third quote
      and the next quote or the end of the line. */
  lemma ParseLineFields(a: string, k: string, b: string, v: string, rest: string)
    requires '"' !in a && '"' !in k && '"' !in b && '"' !in v
    requires rest == [] || rest[0] == '"'
    ensures ParseLine(a + "\"" + k + "\"" + b + "\"" + v + rest) == Some((k, v))
  {
    var q := '"';
    var s := a + "\"" + k + "\"" + b + "\"" + v + rest;
    assert s == a + [q] + (k + [q] + (b + [q] + (v + rest)));
    SplitCharCons(a, q, k + [q] + (b + [q] + (v + rest)));
    SplitCharCons(k, q, b + [q] + (v + rest));
    SplitCharCons(b, q, v + rest);
    FindChar(v + rest, q, |v|);
    SplitFirst(v + rest, [q]);
    assert (v + rest)[..|v|] == v;
  }

  /** The entries the lines yield, in file order. */
  function ParsedEntries(lines: seq<string>): (es: seq<Entry>)
    ensures |es| <= |lines|
    decreases |lines|
  {
    if lines == [] then []
    else
      match ParseLine(lines[0])
      case None => ParsedEntries(lines[1..])
      case Some(e) => [e] + ParsedEntries(lines[1..])
  }

  /** The value of the last entry, which is what repeated `current_season['current'] = e2` leaves. */
  function LastValue(es: seq<Entry>, prior: Option<string>): Option<string>
  {
    if es == [] then prior else Some(es[|es| - 1].1)
  }

  /** `load_from_json(param)` given the text of the file `param` selects. A parameter other
      than 'players', 'teams' or 'season' leaves `file` unbound, and the UnboundLocalError escapes. */
  function LoadFromJson(param: string, content: string, c: Catalogs): (r: Result<Catalogs, Fault>)
    requires Valid(c)
    ensures r.Success? <==> param in {"players", "teams", "season"}
    ensures r.Success? ==> Valid(r.value)
    ensures r.Success? && param != "players" ==> r.value.players == c.players
    ensures r.Success? && param != "teams" ==> r.value.teams == c.teams
    ensures r.Success? && param != "season" ==> r.value.currentSeason == c.currentSeason
    ensures r.Success? ==> OrderExtends(c.players, r.value.players) && OrderExtends(c.teams, r.value.teams)
  {
    var es := ParsedEntries(Lines(UniversalNewlines(content)));
    if param == "players" then Success(c.(players := SetAll(c.players, es)))
    else if param == "teams" then Success(c.(teams := SetAll(c.teams, es)))
    else if param == "season" then Success(c.(currentSeason := LastValue(es, c.currentSeason)))
    else Failure(UnknownFile(param))
  }

  // ---------------------------------------------------------------------------
  // Round trip
  // ---------------------------------------------------------------------------

  /** A name or id the file format carries unharmed: no double quote, no line break. */
  predicate Clean(s: string) {
    '"' !in s && '\n' !in s && '\r' !in s
  }

  predicate AllClean(es: seq<Entry>) {
    forall i :: 0 <= i < |es| ==> Clean(es[i].0) && Clean(es[i].1)
  }

  /** The lines of a catalog file, each as the reader receives it. */
  function BodyLines(es: seq<Entry>): seq<string>
    decreases |es|
  {
    if es == [] then ["\"\n"]
    else if |es| == 1 then [EntryLine(es[0]) + "\"\n"]
    else [EntryLine(es[0]) + "\",\n"] + BodyLines(es[1..])
  }

  lemma {:induction false} BodyLinesConcat(es: seq<Entry>)
    ensures Join(EntryLines(es), "\",\n") + "\"\n" == Concat(BodyLines(es))
    decreases |es|
  {
    if |es| == 1 {
      assert Concat([EntryLine(es[0]) + "\"\n"]) == EntryLine(es[0]) + "\"\n";
    } else if |es| > 1 {
      assert EntryLines(es)[1..] == EntryLines(es[1..]);
      BodyLinesConcat(es[1..]);
      assert BodyLines(es)[1..] == BodyLines(es[1..]);
    }
  }

  lemma EntryLineTerminated(e: Entry, tail: string)
    requires Clean(e.0) && Clean(e.1)
    requires tail == "\",\n" || tail == "\"\n"
    ensures IsTerminatedLine(EntryLine(e) + tail)
    ensures ParseLine(EntryLine(e) + tail) == Some(e)
  {
    assert ParseLine(EntryLine(e) + tail) == Some(e) by {
      assert EntryLine(e) + tail == "\t" + "\"" + e.0 + "\"" + ":" + "\"" + e.1 + tail;
      ParseLineFields("\t", e.0, ":", e.1, tail);
    }
    assert IsTerminatedLine(EntryLine(e) + tail) by {
      EntryLineNoBreak(e, tail);
    }
  }

  lemma EntryLineNoBreak(e: Entry, tail: string)
    requires Clean(e.0) && Clean(e.1)
    requires tail == "\",\n" || tail == "\"\n"
    ensures IsTerminatedLine(EntryLine(e) + tail)
  {
    var head := EntryLine(e);
    var l := head + tail;
    assert '\n' !in head;
    var cut := tail[..|tail| - 1];
    assert '\n' !in cut;
    assert l[..|l| - 1] == head + cut;
  }

  /** The lines around the entries carry fewer than three quotes and are skipped. */
  lemma FrameLinesSkipped()
    ensures ParseLine("{\n") == None
    ensures ParseLine("}") == None
    ensures ParseLine("\"\n") == None
  {
    SplitCharNone("{\n", '"');
    SplitCharNone("}", '"');
    assert "\"\n" == [] + ['"'] + "\n";
    SplitCharCons([], '"', "\n");
    SplitCharNone("\n", '"');
  }

  lemma {:induction false} BodyLinesShape(es: seq<Entry>)
    requires AllClean(es)
    ensures forall k :: 0 <= k < |BodyLines(es)| ==> IsTerminatedLine(BodyLines(es)[k]) && '\r' !in BodyLines(es)[k]
    decreases |es|
  {
    if |es| == 1 {
      EntryLineNoBreak(es[0], "\"\n");
    } else if |es| > 1 {
      assert IsTerminatedLine(EntryLine(es[0]) + "\",\n") by {
        EntryLineNoBreak(es[0], "\",\n");
      }
      assert BodyLines(es) == [EntryLine(es[0]) + "\",\n"] + BodyLines(es[1..]);
      assert AllClean(es[1..]);
      BodyLinesShape(es[1..]);
    }
  }

  lemma {:induction false} BodyLinesRead(es: seq<Entry>)
    requires AllClean(es)
    ensures ParsedEntries(BodyLines(es)) == es
    decreases |es|
  {
    if es == [] {
      FrameLinesSkipped();
    } else if |es| == 1 {
      EntryLineTerminated(es[0], "\"\n");
    } else {
      var line := EntryLine(es[0]) + "\",\n";
      var rest := BodyLines(es[1..]);
      assert BodyLines(es) == [line] + rest;
      assert ParseLine(line) == Some(es[0]) by {
        EntryLineTerminated(es[0], "\",\n");
      }
      assert ParsedEntries(rest) == es[1..] by {
        BodyLinesRead(es[1..]);
      }
      ParsedEntriesCons(line, rest);
      assert es == [es[0]] + es[1..];
    }
  }

  /** A line that parses contributes its entry ahead of those of the lines after it. */
  lemma ParsedEntriesCons(line: string, rest: seq<string>)
    requires ParseLine(line).Some?
    ensures ParsedEntries([line] + rest) == [ParseLine(line).value] + ParsedEntries(rest)
  {
    assert ([line] + rest)[1..] == rest;
  }

  /** Reading a catalog file line by line yields exactly the lines it was written as. */
  lemma CatalogLines(es: seq<Entry>)
    requires AllClean(es)
    ensures UniversalNewlines(CatalogText(es)) == CatalogText(es)
    ensures Lines(CatalogText(es)) == ["{\n"] + BodyLines(es) + ["}"]
  {
    BodyLinesShape(es);
    BodyLinesConcat(es);
    var ls := ["{\n"] + BodyLines(es);
    assert Concat(ls) == "{\n" + Concat(BodyLines(es));
    assert CatalogText(es) == Concat(ls) + "}";
    LinesConcat(ls, "}");
    LinesSingle("}");
    NoCarriageReturn(ls);
    assert '\r' !in Concat(ls) + "}";
  }

  lemma {:induction false} NoCarriageReturn(ls: seq<string>)
    requires forall k :: 0 <= k < |ls| ==> '\r' !in ls[k]
    ensures '\r' !in Concat(ls)
    decreases |ls|
  {
    if ls != [] {
      NoCarriageReturn(ls[1..]);
    }
  }

  /** The catalog files are read back as the entries they were written from. */
  lemma CatalogReadBack(es: seq<Entry>)
    requires AllClean(es)
    ensures ParsedEntries(Lines(UniversalNewlines(CatalogText(es)))) == es
  {
    CatalogLines(es);
    BodyLinesRead(es);
    var body := BodyLines(es);
    FrameLinesSkipped();
    ParsedEntriesAppend(body, ["}"]);
    assert (["{\n"] + body + ["}"])[1..] == body + ["}"];
  }

  lemma {:induction false} ParsedEntriesAppend(a: seq<string>, b: seq<string>)
    ensures ParsedEntries(a + b) == ParsedEntries(a) + ParsedEntries(b)
    decreases |a|
  {
    if a == [] {
      assert a + b == b;
    } else {
      assert (a + b)[1..] == a[1..] + b;
      ParsedEntriesAppend(a[1..], b);
    }
  }

  /** Writing a name-to-id list and loading it as the players (or teams) catalog assigns
      exactly those pairs, in order, to the dict: the last duplicate wins. */
  lemma {:induction false} CatalogRoundTrip(param: string, es: seq<Entry>, c: Catalogs)
    requires Valid(c)
    requires param == "players" || param == "teams"
    requires AllClean(es)
    ensures param == "players" ==> LoadFromJson(param, CatalogText(es), c) == Success(c.(players := SetAll(c.players, es)))
    ensures param == "teams" ==> LoadFromJson(param, CatalogText(es), c) == Success(c.(teams := SetAll(c.teams, es)))
  {
    CatalogReadBack(es);
  }

  /** Loaded into an empty catalog, a name maps to the id of its last line, and only
      written names are present. */
  lemma LoadedPlayers(es: seq<Entry>, name: string)
    requires AllClean(es)
    ensures var r := LoadFromJson("players", CatalogText(es), Initial);
            r.Success? &&
            (name in r.value.players.entries <==> exists i :: 0 <= i < |es| && es[i].0 == name) &&
            (forall j :: 0 <= j < |es| && es[j].0 == name && (forall i :: j < i < |es| ==> es[i].0 != name) ==>
               r.value.players.entries[name] == es[j].1)
  {
    CatalogRoundTrip("players", es, Initial);
    SetAllKeys(Empty(), es, name);
    forall j | 0 <= j < |es| && es[j].0 == name && (forall i :: j < i < |es| ==> es[i].0 != name)
      ensures SetAll(Empty(), es).entries[name] == es[j].1
    {
      SetAllLastWins(Empty(), es, j);
    }
  }

  /** The season file written for a season reads back as that current season. */
  lemma SeasonRoundTrip(season: string, c: Catalogs)
    requires Valid(c)
    requires Clean(season)
    ensures LoadFromJson("season", SeasonText(season), c) == Success(c.(currentSeason := Some(season)))
  {
    var es := [("current_season", season)];
    SeasonTextIsCatalog(season);
    assert AllClean(es);
    CatalogReadBack(es);
    assert ParsedEntries(Lines(UniversalNewlines(SeasonText(season)))) == es;
  }
}
