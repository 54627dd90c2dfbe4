/**
 * `compile_all_stats` (lines 244-253): every row of the joined frame is
 * visited in order, its `url` is read back through `.loc[name]["url"]`, and
 * the page fetcher's dictionary is filed under the row's name. The fetcher
 * (`get_player_stats`, network and markup) is a parameter.
 */
module CareerStats {
  import opened Wrappers
  import opened Tables

  type Stats = map<string, string>

  /** Some other row of `players` carries the same label as row `i`. */
  predicate SharedLabel(players: Table, i: int)
    requires 0 <= i < |players|
  {
    exists j | 0 <= j < |players| :: j != i && players[j].name == players[i].name
  }

  /**
   * `players_dataframe.loc[player]["url"]` for row `i`: a KeyError when the
   * frame has no url column; a non-unique label selects a frame, not a
   * cell, and no url can be read from it; a missing (NaN) url cannot be
   * fetched.
   */
  function UrlOf(players: Table, i: int): Result<string>
    requires 0 <= i < |players|
  {
    if "url" !in Columns(players) then Err(KeyError("url"))
    else if SharedLabel(players, i) then Err(LabelNotUnique(players[i].name))
    else match Lookup(players[i].row, "url")
      case Text(u) => Ok(u)
      case _ => Err(UrlMissing(players[i].name))
  }

  /** One row of the loop: the fetched stats of row `i`. */
  function StatsOf(players: Table, fetch: string -> Result<Stats>, i: int): Result<Stats>
    requires 0 <= i < |players|
  {
    var url :- UrlOf(players, i);
    fetch(url)
  }

  /** `career_stats_dict` after the first `n` rows. */
  function CompileUpTo(players: Table, fetch: string -> Result<Stats>, n: nat): Result<map<string, Stats>>
    requires n <= |players|
  {
    if n == 0 then Ok(map[])
    else
      var done :- CompileUpTo(players, fetch, n - 1);
      var stats :- StatsOf(players, fetch, n - 1);
      Ok(done[players[n - 1].name := stats])
  }

  method CompileAllStats(players: Table, fetch: string -> Result<Stats>) returns (r: Result<map<string, Stats>>)
    ensures r == CompileUpTo(players, fetch, |players|)
  {
    var career: map<string, Stats> := map[];
    for i := 0 to |players|
      invariant CompileUpTo(players, fetch, i) == Ok(career)
    {
      var url := UrlOf(players, i);
      if url.Err? {
        CompileErrorStays(players, fetch, i + 1, |players|);
        return Err(url.error);
      }
      var stats := fetch(url.value);
      if stats.Err? {
        CompileErrorStays(players, fetch, i + 1, |players|);
        return Err(stats.error);
      }
      career := career[players[i].name := stats.value];
    }
    return Ok(career);
  }

  lemma {:induction false} CompileErrorStays(players: Table, fetch: string -> Result<Stats>, n: nat, m: nat)
    requires n <= m <= |players| && CompileUpTo(players, fetch, n).Err?
    ensures CompileUpTo(players, fetch, m) == CompileUpTo(players, fetch, n)
    decreases m - n
  {
    if n < m {
      CompileErrorStays(players, fetch, n, m - 1);
    }
  }

  /** The loop completes exactly when every row's url can be read and fetched. */
  lemma {:induction false} CompileFails(players: Table, fetch: string -> Result<Stats>, n: nat)
    requires n <= |players|
    ensures CompileUpTo(players, fetch, n).Ok? <==> forall i :: 0 <= i < n ==> StatsOf(players, fetch, i).Ok?
    decreases n
  {
    if n > 0 {
      CompileFails(players, fetch, n - 1);
    }
  }

  /** A completed run of the loop saw a unique label on every row, the url column and a url in every row. */
  lemma CompileNeedsUniqueUrls(players: Table, fetch: string -> Result<Stats>)
    requires CompileUpTo(players, fetch, |players|).Ok?
    ensures UniqueNames(players)
    ensures |players| > 0 ==> "url" in Columns(players)
    ensures forall i :: 0 <= i < |players| ==> Lookup(players[i].row, "url").Text?
  {
    CompileFails(players, fetch, |players|);
    forall i, j | 0 <= i < j < |players| ensures players[i].name != players[j].name {
      assert StatsOf(players, fetch, i).Ok?;
    }
    if |players| > 0 {
      assert StatsOf(players, fetch, 0).Ok?;
    }
    forall i | 0 <= i < |players| ensures Lookup(players[i].row, "url").Text? {
      assert StatsOf(players, fetch, i).Ok?;
    }
  }

  /**
   * A completed loop files one entry under every row's name, holding what
   * the fetcher returned for that row.
   */
  lemma {:induction false} CompileEntries(players: Table, fetch: string -> Result<Stats>, n: nat)
    requires n <= |players| && CompileUpTo(players, fetch, n).Ok?
    ensures CompileUpTo(players, fetch, n).value.Keys == set i | 0 <= i < n :: players[i].name
    ensures forall i :: 0 <= i < n ==>
              StatsOf(players, fetch, i).Ok? && CompileUpTo(players, fetch, n).value[players[i].name] == StatsOf(players, fetch, i).value
    decreases n
  {
    if n > 0 {
      CompileEntries(players, fetch, n - 1);
      CompileFails(players, fetch, n);
      var r := CompileUpTo(players, fetch, n).value;
      forall i | 0 <= i < n - 1 ensures r[players[i].name] == StatsOf(players, fetch, i).value {
        assert StatsOf(players, fetch, i).Ok? && !SharedLabel(players, i);
        assert players[i].name != players[n - 1].name;
      }
    }
  }

  /** With a unique label and a url in its row, a row's stats are what the fetcher returns for that url. */
  lemma StatsOfRow(players: Table, fetch: string -> Result<Stats>, i: int)
    requires 0 <= i < |players| && UniqueNames(players)
    requires "url" in Columns(players) && Lookup(players[i].row, "url").Text?
    ensures StatsOf(players, fetch, i) == fetch(Lookup(players[i].row, "url").s)
  {
    assert !SharedLabel(players, i);
  }
}
