/**
 * `rosters_library` (lines 43-52): each roster anchor found on the teams page
 * contributes its team name (the second capture of the roster-url pattern's
 * first match) and its absolute url, and the two lists are zipped into a
 * dictionary keyed by team.
 */
module Teams {
  import opened Dicts

  /** Prefixed to every roster href. */
  const SiteRoot: string := "https://www.espn.com"

  /** A roster anchor: its href and the (abbreviation, team) pairs the pattern captured from it. */
  datatype RosterLink = RosterLink(href: string, captures: seq<(string, string)>)

  /** The searcher records a tag only when its pattern found at least one match (lines 26-29). */
  predicate Captured(found: seq<RosterLink>) {
    forall k :: 0 <= k < |found| ==> |found[k].captures| > 0
  }

  /** `value[0][1]` */
  function TeamOf(l: RosterLink): string
    requires |l.captures| > 0
  {
    l.captures[0].1
  }

  /** `'https://www.espn.com' + key.get('href')` */
  function LinkOf(l: RosterLink): string
  {
    SiteRoot + l.href
  }

  /** The two loops that fill `teams` and `links`, one anchor at a time. */
  method CollectRosterLinks(found: seq<RosterLink>) returns (teams: seq<string>, links: seq<string>)
    requires Captured(found)
    ensures |teams| == |found| && forall k :: 0 <= k < |found| ==> teams[k] == TeamOf(found[k])
    ensures |links| == |found| && forall k :: 0 <= k < |found| ==> links[k] == LinkOf(found[k])
  {
    teams := [];
    for i := 0 to |found|
      invariant |teams| == i && forall k :: 0 <= k < i ==> teams[k] == TeamOf(found[k])
    {
      teams := teams + [found[i].captures[0].1];
    }
    links := [];
    for i := 0 to |found|
      invariant |links| == i && forall k :: 0 <= k < i ==> links[k] == LinkOf(found[k])
    {
      links := links + [SiteRoot + found[i].href];
    }
  }

  function Teams(found: seq<RosterLink>): seq<string>
    requires Captured(found)
  {
    seq(|found|, k requires 0 <= k < |found| => TeamOf(found[k]))
  }

  function Links(found: seq<RosterLink>): seq<string>
  {
    seq(|found|, k requires 0 <= k < |found| => LinkOf(found[k]))
  }

  /** `dict(zip(teams, links))` */
  function RostersLibrary(found: seq<RosterLink>): map<string, string>
    requires Captured(found)
  {
    ZipToMap(Teams(found), Links(found))
  }

  /** Lines 43-52 as a whole. */
  method BuildRostersLibrary(found: seq<RosterLink>) returns (library: map<string, string>)
    requires Captured(found)
    ensures library == RostersLibrary(found)
  {
    var teams, links := CollectRosterLinks(found);
    assert teams == Teams(found) && links == Links(found);
    library := ZipToMap(teams, links);
  }

  /** Anchor `k` is the last one naming its team. */
  ghost predicate LastForTeam(found: seq<RosterLink>, k: int)
    requires Captured(found)
  {
    0 <= k < |found| && forall j :: k < j < |found| ==> TeamOf(found[j]) != TeamOf(found[k])
  }

  /**
   * `rosters_library` has exactly one entry per distinct team, holding the
   * url of the last anchor for that team, and no more entries than anchors.
   */
  lemma RostersLibrarySpec(found: seq<RosterLink>)
    requires Captured(found)
    ensures RostersLibrary(found).Keys == set k | 0 <= k < |found| :: TeamOf(found[k])
    ensures forall k :: 0 <= k < |found| && LastForTeam(found, k) ==> RostersLibrary(found)[TeamOf(found[k])] == LinkOf(found[k])
    ensures |RostersLibrary(found)| <= |found|
  {
    var ts, ls := Teams(found), Links(found);
    ZipToMapSpec(ts, ls);
    assert Min(|ts|, |ls|) == |found|;
    var zipped := set i | 0 <= i < Min(|ts|, |ls|) :: ts[i];
    var named := set k | 0 <= k < |found| :: TeamOf(found[k]);
    assert zipped == named by {
      forall x | x in named ensures x in zipped {
        var k :| 0 <= k < |found| && TeamOf(found[k]) == x;
        assert ts[k] == x;
      }
    }
    forall k | 0 <= k < |found| && LastForTeam(found, k)
      ensures RostersLibrary(found)[TeamOf(found[k])] == LinkOf(found[k])
    {
      assert LastAt(ts, |found|, k, ts[k]);
    }
    TeamsAtMostAnchors(found);
  }

  lemma {:induction false} TeamsAtMostAnchors(found: seq<RosterLink>)
    requires Captured(found)
    ensures |set k | 0 <= k < |found| :: TeamOf(found[k])| <= |found|
    decreases |found|
  {
    if found != [] {
      var init := found[..|found| - 1];
      assert Captured(init);
      TeamsAtMostAnchors(init);
      var s := set k | 0 <= k < |found| :: TeamOf(found[k]);
      var s' := set k | 0 <= k < |init| :: TeamOf(init[k]);
      assert s == s' + {TeamOf(found[|found| - 1])} by {
        forall x | x in s ensures x in s' + {TeamOf(found[|found| - 1])} {
          var k :| 0 <= k < |found| && TeamOf(found[k]) == x;
          if k < |init| { assert init[k] == found[k]; }
        }
        forall x | x in s' ensures x in s {
          var k :| 0 <= k < |init| && TeamOf(init[k]) == x;
          assert init[k] == found[k];
        }
      }
    }
  }
}
