/**
 * `get_player_info` and `get_player_ids` after the markup has been matched:
 * the header names are filtered out of the stringified `<th>` tags, and the
 * rows with `data-idx` 0 to 29 are turned into dictionaries keyed by the
 * player's name. A row index is given as the texts the cell regex found in
 * the first `<tr>` carrying it; an index with no `<tr>` is absent from the map.
 */
module Roster {
  import opened Wrappers
  import opened PyText
  import opened Dicts

  /** `range(0, 30)`: the largest roster the scan reads. */
  const MaxRosterRows: nat := 30

  /** A player's dictionary: column name to cell text. */
  type Record = map<string, string>

  // ---------------------------------------------------------------- `re.findall(">([a-zA-Z]+?)<", h)[0]`

  /** The longest prefix of `s` made of letters. */
  function LetterRun(s: string): (w: string)
    ensures |w| <= |s|
    ensures forall k :: 0 <= k < |w| ==> w[k] == s[k] && IsLetter(w[k])
    ensures |w| < |s| ==> !IsLetter(s[|w|])
  {
    if s != [] && IsLetter(s[0]) then [s[0]] + LetterRun(s[1..]) else []
  }

  /** The pattern `>([a-zA-Z]+?)<` matches at position `p` of `h`, capturing `w`. */
  ghost predicate TagRunAt(h: string, p: int, w: string) {
    0 <= p && p + |w| + 2 <= |h| && |w| > 0 && h[p] == '>' && h[p + 1 + |w|] == '<' &&
    forall k :: 0 <= k < |w| ==> h[p + 1 + k] == w[k] && IsLetter(w[k])
  }

  /** The leftmost match at or after `p`. */
  function RunFrom(h: string, p: nat): Option<string>
    decreases |h| - p
  {
    if p >= |h| then None
    else if h[p] == '>' then
      var w := LetterRun(h[p + 1..]);
      if |w| > 0 && p + 1 + |w| < |h| && h[p + 1 + |w|] == '<' then Some(w) else RunFrom(h, p + 1)
    else RunFrom(h, p + 1)
  }

  /** The first capture of `>([a-zA-Z]+?)<` in `h`, if there is one. */
  function FirstTagRun(h: string): Option<string>
  {
    RunFrom(h, 0)
  }

  /** A match at `p` can only capture the letters following the `>`. */
  lemma TagRunIsLetterRun(h: string, p: int, w: string)
    requires TagRunAt(h, p, w)
    ensures w == LetterRun(h[p + 1..])
  {
    var s := h[p + 1..];
    assert forall k :: 0 <= k < |w| ==> s[k] == w[k];
    assert |LetterRun(s)| == |w|;
  }

  lemma {:induction false} RunFromSpec(h: string, p: nat)
    ensures RunFrom(h, p).Some? ==>
              exists q :: p <= q && TagRunAt(h, q, RunFrom(h, p).value) &&
                forall q', w :: p <= q' < q ==> !TagRunAt(h, q', w)
    ensures RunFrom(h, p).None? ==> forall q, w :: p <= q ==> !TagRunAt(h, q, w)
    decreases |h| - p
  {
    if p < |h| {
      var here := h[p] == '>' && |LetterRun(h[p + 1..])| > 0 && p + 1 + |LetterRun(h[p + 1..])| < |h|
                  && h[p + 1 + |LetterRun(h[p + 1..])|] == '<';
      if here {
        var w := LetterRun(h[p + 1..]);
        assert TagRunAt(h, p, w);
      } else {
        forall w | TagRunAt(h, p, w) ensures false {
          TagRunIsLetterRun(h, p, w);
        }
        RunFromSpec(h, p + 1);
      }
    }
  }

  /**
   * `FirstTagRun(h)` is the capture of the leftmost match of
   * `>([a-zA-Z]+?)<`; it is None exactly when the pattern matches nowhere.
   */
  lemma FirstTagRunSpec(h: string)
    ensures FirstTagRun(h).Some? ==>
              exists q :: TagRunAt(h, q, FirstTagRun(h).value) && forall q', w :: 0 <= q' < q ==> !TagRunAt(h, q', w)
    ensures FirstTagRun(h).None? <==> forall q, w :: !TagRunAt(h, q, w)
  {
    RunFromSpec(h, 0);
    if FirstTagRun(h).Some? {
      var q :| 0 <= q && TagRunAt(h, q, FirstTagRun(h).value) && forall q', w :: 0 <= q' < q ==> !TagRunAt(h, q', w);
    }
  }

  // ---------------------------------------------------------------- the header names

  /** What one header contributes to `column_names`: its first letter run, or nothing. */
  function HeaderName(h: string): seq<string>
  {
    match FirstTagRun(h)
    case Some(w) => [w]
    case None => []
  }

  /** `column_names` for the headers `hs`, in order. */
  function HeaderColumns(hs: seq<string>): seq<string>
  {
    if hs == [] then [] else HeaderColumns(hs[..|hs| - 1]) + HeaderName(hs[|hs| - 1])
  }

  /** The loop at lines 72-77, appending to `column_names`. */
  method FilterHeaders(headers: seq<string>) returns (columns: seq<string>)
    ensures columns == HeaderColumns(headers)
  {
    columns := [];
    var i := 0;
    while i < |headers|
      invariant 0 <= i <= |headers|
      invariant columns == HeaderColumns(headers[..i])
    {
      var found := FirstTagRun(headers[i]);
      if found.Some? {
        columns := columns + [found.value];
      }
      assert headers[..i + 1][..i] == headers[..i];
      i := i + 1;
    }
    assert headers[..i] == headers;
  }

  /** The header list of several groups of headers is theirs, one group after the other. */
  lemma {:induction false} HeaderColumnsAppend(a: seq<string>, b: seq<string>)
    ensures HeaderColumns(a + b) == HeaderColumns(a) + HeaderColumns(b)
    decreases |b|
  {
    if b == [] {
      assert a + b == a;
    } else {
      var b' := b[..|b| - 1];
      assert (a + b)[..|a + b| - 1] == a + b';
      HeaderColumnsAppend(a, b');
    }
  }

  /**
   * Exactly the headers with a `>letters<` run contribute, each with the
   * leftmost run it holds; the blank spacer header contributes nothing.
   */
  lemma HeaderColumnsOne(h: string)
    ensures |HeaderColumns([h])| <= 1
    ensures HeaderColumns([h]) == [] <==> forall q, w :: !TagRunAt(h, q, w)
    ensures forall w :: HeaderColumns([h]) == [w] ==>
              |w| > 0 && exists q :: TagRunAt(h, q, w) && forall q', w' :: 0 <= q' < q ==> !TagRunAt(h, q', w')
  {
    FirstTagRunSpec(h);
    assert [h][..0] == [];
  }

  /** Every header name is a non-empty run of letters, and there are at most as many names as headers. */
  lemma {:induction false} HeaderColumnsAreWords(hs: seq<string>)
    ensures |HeaderColumns(hs)| <= |hs|
    ensures forall k :: 0 <= k < |HeaderColumns(hs)| ==>
              |HeaderColumns(hs)[k]| > 0 && forall j :: 0 <= j < |HeaderColumns(hs)[k]| ==> IsLetter(HeaderColumns(hs)[k][j])
    decreases |hs|
  {
    if hs != [] {
      var h := hs[|hs| - 1];
      HeaderColumnsAreWords(hs[..|hs| - 1]);
      FirstTagRunSpec(h);
      if FirstTagRun(h).Some? {
        var q :| TagRunAt(h, q, FirstTagRun(h).value) && forall q', w :: 0 <= q' < q ==> !TagRunAt(h, q', w);
      }
    }
  }

  // ---------------------------------------------------------------- `get_player_info`: the row scan

  /** `dict(zip(column_names, player_stats))` for the row with index `i`. */
  function RecordAt(columns: seq<string>, rows: map<int, seq<string>>, i: int): Record
    requires i in rows
  {
    ZipToMap(columns, rows[i])
  }

  /**
   * `roster_dict` after the indices below `n`: a row whose dictionary has no
   * "Name" raises a KeyError that nothing catches; an index without a row is
   * skipped (the IndexError of `p_values[0]` is caught).
   */
  function RosterUpTo(columns: seq<string>, rows: map<int, seq<string>>, n: nat): Result<map<string, Record>>
  {
    if n == 0 then Ok(map[])
    else
      var roster :- RosterUpTo(columns, rows, n - 1);
      if n - 1 !in rows then Ok(roster)
      else
        var player := RecordAt(columns, rows, n - 1);
        if "Name" !in player then Err(KeyError("Name")) else Ok(roster[player["Name"] := player])
  }

  /** `get_player_info`, once the page's headers and rows have been matched. */
  method GetPlayerInfo(headers: seq<string>, rows: map<int, seq<string>>) returns (r: Result<map<string, Record>>)
    ensures r == RosterUpTo(HeaderColumns(headers), rows, MaxRosterRows)
  {
    var columns := FilterHeaders(headers);
    var roster: map<string, Record> := map[];
    var i := 0;
    while i < MaxRosterRows
      invariant 0 <= i <= MaxRosterRows
      invariant RosterUpTo(columns, rows, i) == Ok(roster)
    {
      if i in rows {
        var player := ZipToMap(columns, rows[i]);
        if "Name" !in player {
          RosterErrorStays(columns, rows, i + 1, MaxRosterRows);
          return Err(KeyError("Name"));
        }
        roster := roster[player["Name"] := player];
      }
      i := i + 1;
    }
    return Ok(roster);
  }

  /** Once raised, the KeyError ends the scan. */
  lemma {:induction false} RosterErrorStays(columns: seq<string>, rows: map<int, seq<string>>, n: nat, m: nat)
    requires n <= m && RosterUpTo(columns, rows, n).Err?
    ensures RosterUpTo(columns, rows, m) == RosterUpTo(columns, rows, n)
    decreases m - n
  {
    if n < m {
      RosterErrorStays(columns, rows, n, m - 1);
    }
  }

  /** The scan fails exactly when some row below `n` has no "Name" column, and the error is then `KeyError('Name')`. */
  lemma {:induction false} RosterFails(columns: seq<string>, rows: map<int, seq<string>>, n: nat)
    ensures RosterUpTo(columns, rows, n).Err? <==>
              exists i :: 0 <= i < n && i in rows && "Name" !in RecordAt(columns, rows, i)
    ensures RosterUpTo(columns, rows, n).Err? ==> RosterUpTo(columns, rows, n).error == KeyError("Name")
    decreases n
  {
    if n > 0 {
      RosterFails(columns, rows, n - 1);
    }
  }

  /** Index `i` is the last row below `n` whose player is called `name`. */
  ghost predicate LastRowNamed(columns: seq<string>, rows: map<int, seq<string>>, n: nat, i: int, name: string) {
    0 <= i < n && i in rows && "Name" in RecordAt(columns, rows, i) && RecordAt(columns, rows, i)["Name"] == name &&
    forall j :: i < j < n && j in rows && "Name" in RecordAt(columns, rows, j) ==> RecordAt(columns, rows, j)["Name"] != name
  }

  /**
   * A successful scan holds one entry per name found in the rows below `n`,
   * each the dictionary of the last row with that name, which carries the
   * name it is filed under.
   */
  lemma {:induction false} RosterEntries(columns: seq<string>, rows: map<int, seq<string>>, n: nat)
    requires RosterUpTo(columns, rows, n).Ok?
    ensures forall name :: name in RosterUpTo(columns, rows, n).value <==>
              exists i :: 0 <= i < n && i in rows && "Name" in RecordAt(columns, rows, i) && RecordAt(columns, rows, i)["Name"] == name
    ensures forall name :: name in RosterUpTo(columns, rows, n).value ==>
              "Name" in RosterUpTo(columns, rows, n).value[name] && RosterUpTo(columns, rows, n).value[name]["Name"] == name &&
              exists i :: LastRowNamed(columns, rows, n, i, name) && RosterUpTo(columns, rows, n).value[name] == RecordAt(columns, rows, i)
    decreases n
  {
    RosterFails(columns, rows, n);
    if n > 0 {
      RosterEntries(columns, rows, n - 1);
      var roster := RosterUpTo(columns, rows, n).value;
      var before := RosterUpTo(columns, rows, n - 1).value;
      forall name | name in roster
        ensures "Name" in roster[name] && roster[name]["Name"] == name
        ensures exists i :: LastRowNamed(columns, rows, n, i, name) && roster[name] == RecordAt(columns, rows, i)
      {
        if n - 1 in rows && RecordAt(columns, rows, n - 1)["Name"] == name {
          assert LastRowNamed(columns, rows, n, n - 1, name);
        } else {
          assert name in before;
          var i :| LastRowNamed(columns, rows, n - 1, i, name) && before[name] == RecordAt(columns, rows, i);
          assert LastRowNamed(columns, rows, n, i, name);
        }
      }
    }
  }

  /** Only the rows below `n` matter: indices 30 and up, or below 0, are never read. */
  lemma {:induction false} RosterReadsOnlyScanned(columns: seq<string>, rows: map<int, seq<string>>, rows': map<int, seq<string>>, n: nat)
    requires forall i :: 0 <= i < n ==> (i in rows <==> i in rows') && (i in rows ==> rows[i] == rows'[i])
    ensures RosterUpTo(columns, rows, n) == RosterUpTo(columns, rows', n)
    decreases n
  {
    if n > 0 {
      RosterReadsOnlyScanned(columns, rows, rows', n - 1);
    }
  }

  /** An index with no `<tr>` raises IndexError at `p_values[0]`, which is swallowed: the scan goes on unchanged. */
  lemma RosterMissingRow(columns: seq<string>, rows: map<int, seq<string>>, n: nat)
    requires n !in rows
    ensures RosterUpTo(columns, rows, n + 1) == RosterUpTo(columns, rows, n)
  {
  }

  /** A successful scan holds at most one player per scanned row that exists. */
  lemma {:induction false} RosterSize(columns: seq<string>, rows: map<int, seq<string>>, n: nat)
    requires RosterUpTo(columns, rows, n).Ok?
    ensures |RosterUpTo(columns, rows, n).value| <= |set i | 0 <= i < n && i in rows|
    decreases n
  {
    if n > 0 {
      RosterSize(columns, rows, n - 1);
      var below := set i | 0 <= i < n - 1 && i in rows;
      var upto := set i | 0 <= i < n && i in rows;
      if n - 1 in rows {
        assert upto == below + {n - 1};
      } else {
        assert upto == below;
      }
    }
  }

  // ---------------------------------------------------------------- `get_player_ids`

  /** What the three patterns of lines 150-152 found in one row: names, numeric ids and player urls. */
  datatype IdMatches = IdMatches(names: seq<string>, ids: seq<string>, urls: seq<string>)

  /** All three patterns matched; otherwise indexing `[0]` raises the IndexError that skips the row. */
  predicate Complete(m: IdMatches) {
    |m.names| > 0 && |m.ids| > 0 && |m.urls| > 0
  }

  /** `dict({'id': player_id, 'url': player_url})` */
  function IdRecord(m: IdMatches): Record
    requires Complete(m)
  {
    map["id" := m.ids[0], "url" := m.urls[0]]
  }

  /** `ids_dict` after the indices below `n`. */
  function IdsUpTo(rows: map<int, IdMatches>, n: nat): map<string, Record>
  {
    if n == 0 then map[]
    else
      var ids := IdsUpTo(rows, n - 1);
      if n - 1 in rows && Complete(rows[n - 1]) then ids[rows[n - 1].names[0] := IdRecord(rows[n - 1])] else ids
  }

  /** `get_player_ids`, once each row's matches have been found. */
  method GetPlayerIds(rows: map<int, IdMatches>) returns (ids: map<string, Record>)
    ensures ids == IdsUpTo(rows, MaxRosterRows)
  {
    ids := map[];
    for i := 0 to MaxRosterRows
      invariant ids == IdsUpTo(rows, i)
    {
      if i in rows && Complete(rows[i]) {
        var m := rows[i];
        ids := ids[m.names[0] := IdRecord(m)];
      }
    }
  }

  /** Index `i` is the last complete row below `n` for player `name`. */
  ghost predicate LastIdRow(rows: map<int, IdMatches>, n: nat, i: int, name: string) {
    0 <= i < n && i in rows && Complete(rows[i]) && rows[i].names[0] == name &&
    forall j :: i < j < n && j in rows && Complete(rows[j]) ==> rows[j].names[0] != name
  }

  /** The ids dictionary holds one entry per name of a complete row below `n`; incomplete rows add nothing. */
  lemma {:induction false} IdsKeys(rows: map<int, IdMatches>, n: nat)
    ensures forall name :: name in IdsUpTo(rows, n) <==>
              exists i :: 0 <= i < n && i in rows && Complete(rows[i]) && rows[i].names[0] == name
    decreases n
  {
    if n > 0 {
      IdsKeys(rows, n - 1);
    }
  }

  /** Each entry is the id and url of the last complete row for that name. */
  lemma {:induction false} IdsValues(rows: map<int, IdMatches>, n: nat)
    ensures forall name :: name in IdsUpTo(rows, n) ==>
              exists i :: LastIdRow(rows, n, i, name) && IdsUpTo(rows, n)[name] == IdRecord(rows[i])
    decreases n
  {
    if n > 0 {
      IdsValues(rows, n - 1);
      var ids := IdsUpTo(rows, n);
      var before := IdsUpTo(rows, n - 1);
      forall name | name in ids
        ensures exists i :: LastIdRow(rows, n, i, name) && ids[name] == IdRecord(rows[i])
      {
        if n - 1 in rows && Complete(rows[n - 1]) && rows[n - 1].names[0] == name {
          assert LastIdRow(rows, n, n - 1, name);
        } else {
          assert name in before && ids[name] == before[name];
          var i :| LastIdRow(rows, n - 1, i, name) && before[name] == IdRecord(rows[i]);
          assert LastIdRow(rows, n, i, name);
        }
      }
    }
  }

  /** Every entry has exactly the keys "id" and "url". */
  lemma IdsRecordShape(rows: map<int, IdMatches>, n: nat)
    ensures forall name :: name in IdsUpTo(rows, n) ==> IdsUpTo(rows, n)[name].Keys == {"id", "url"}
  {
    IdsValues(rows, n);
  }

  /** A row without a `<tr>`, or one where a pattern found nothing (IndexError, swallowed), adds nothing. */
  lemma IdsSkippedRow(rows: map<int, IdMatches>, n: nat)
    requires n !in rows || !Complete(rows[n])
    ensures IdsUpTo(rows, n + 1) == IdsUpTo(rows, n)
  {
  }

  /** Only the rows below `n` matter. */
  lemma {:induction false} IdsReadOnlyScanned(rows: map<int, IdMatches>, rows': map<int, IdMatches>, n: nat)
    requires forall i :: 0 <= i < n ==> (i in rows <==> i in rows') && (i in rows ==> rows[i] == rows'[i])
    ensures IdsUpTo(rows, n) == IdsUpTo(rows', n)
    decreases n
  {
    if n > 0 {
      IdsReadOnlyScanned(rows, rows', n - 1);
    }
  }
}
