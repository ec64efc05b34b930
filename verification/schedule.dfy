/** The string handling of `get_schedule`: a game day's date from its scores link and a
    game's id from its element id. */
module Schedule {
  import opened Wrappers
  import opened Errors
  import opened PyStr

  /** `href.split('scores/')[1]`; the IndexError when the link has no `scores/` is not
      caught in `get_schedule`. */
  function GameDate(href: string): (r: Result<string, Fault>)
    ensures r.Success? <==> Contains(href, "scores/")
  {
    var parts := Split(href, "scores/");
    SplitSingle(href, "scores/");
    if |parts| >= 2 then Success(parts[1]) else Failure(IndexOutOfRange)
  }

  /** The date is the text after the first `scores/`, up to the next `scores/` or the end. */
  lemma GameDateAfterMarker(href: string)
    requires Contains(href, "scores/")
    ensures Find(href, "scores/") + 7 <= |href|
    ensures var rest := href[Find(href, "scores/") + 7..];
            GameDate(href) == Success(rest[..Find(rest, "scores/")])
  {
    FindContains(href, "scores/");
    SplitSecond(href, "scores/");
  }

  /** `id.split('_')[1]`; again an IndexError escapes when there is no `_`. */
  function GameId(id: string): (r: Result<string, Fault>)
    ensures r.Success? <==> '_' in id
  {
    var parts := Split(id, "_");
    SplitSingle(id, "_");
    ContainsChar(id, '_');
    if |parts| >= 2 then Success(parts[1]) else Failure(IndexOutOfRange)
  }

  /** An element id `prefix_game` or `prefix_game_more` yields `game`. */
  lemma GameIdOf(prefix: string, game: string, more: string)
    requires '_' !in prefix && '_' !in game
    requires more == [] || more[0] == '_'
    ensures GameId(prefix + "_" + game + more) == Success(game)
  {
    var s := prefix + "_" + game + more;
    assert s == prefix + ['_'] + (game + more);
    SplitCharCons(prefix, '_', game + more);
    FindChar(game + more, '_', |game|);
    SplitFirst(game + more, "_");
    assert (game + more)[..|game|] == game;
  }
}
