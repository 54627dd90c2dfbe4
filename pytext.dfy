/**
 * The Python string operations the field normaliser relies on:
 * `str.isspace`, `str.split()`, `str.split(" ")[0]`, `str.replace(c, "")`,
 * `re.sub(r'--', rep, s)` and `re.sub(r'[^\d]+', '', s)`.
 */
module PyText {

  /** The characters Python's `str.isspace()` accepts; `str.split()` and `int()` use the same set. */
  predicate IsSpace(c: char) {
    c == ' ' || '\t' <= c <= '\r' || '\U{1C}' <= c <= '\U{1F}' || c == '\U{85}' || c == '\U{A0}'
    || c == '\U{1680}' || '\U{2000}' <= c <= '\U{200A}' || c == '\U{2028}' || c == '\U{2029}'
    || c == '\U{202F}' || c == '\U{205F}' || c == '\U{3000}'
  }

  /** An ASCII decimal digit (what `\d` and `int()` accept, restricted to ASCII). */
  predicate IsDigit(c: char) { '0' <= c <= '9' }

  /** `[a-zA-Z]` */
  predicate IsLetter(c: char) { ('a' <= c <= 'z') || ('A' <= c <= 'Z') }

  predicate NoSpace(s: string) { forall k :: 0 <= k < |s| ==> !IsSpace(s[k]) }

  /** A piece that `str.split()` can return: non-empty and free of whitespace. */
  predicate IsToken(t: string) { |t| > 0 && NoSpace(t) }

  predicate HasDigit(s: string) { exists k :: 0 <= k < |s| && IsDigit(s[k]) }

  /** `s` contains the substring "--". */
  predicate HasDashPair(s: string) { exists k :: 0 <= k < |s| - 1 && s[k] == '-' && s[k + 1] == '-' }

  // ---------------------------------------------------------------- str.split()

  /** `s.split()`: the maximal runs of non-whitespace characters, in order. */
  function SplitWhitespace(s: string): (r: seq<string>)
    ensures forall k :: 0 <= k < |r| ==> IsToken(r[k])
  {
    SplitFrom(s, [])
  }

  /** Splitting `s` when the characters `cur` of an unfinished token precede it. */
  function SplitFrom(s: string, cur: string): (r: seq<string>)
    requires NoSpace(cur)
    ensures forall k :: 0 <= k < |r| ==> IsToken(r[k])
    decreases |s|
  {
    if s == [] then
      (if cur == [] then [] else [cur])
    else if IsSpace(s[0]) then
      (if cur == [] then [] else [cur]) + SplitFrom(s[1..], [])
    else
      SplitFrom(s[1..], cur + [s[0]])
  }

  /** Tokens joined by single spaces, the inverse of `SplitWhitespace`. */
  function JoinSpaced(ts: seq<string>): string
  {
    if |ts| == 0 then [] else if |ts| == 1 then ts[0] else ts[0] + " " + JoinSpaced(ts[1..])
  }

  lemma {:induction false} SplitFromToken(t: string, s: string, cur: string)
    requires NoSpace(t) && NoSpace(cur)
    ensures SplitFrom(t + s, cur) == SplitFrom(s, cur + t)
    decreases |t|
  {
    if t == [] {
      assert t + s == s;
      assert cur + t == cur;
    } else {
      assert (t + s)[1..] == t[1..] + s;
      assert (cur + [t[0]]) + t[1..] == cur + t;
      SplitFromToken(t[1..], s, cur + [t[0]]);
    }
  }

  /** A lone token splits into itself. */
  lemma SplitToken(t: string)
    requires IsToken(t)
    ensures SplitWhitespace(t) == [t]
  {
    SplitFromToken(t, [], []);
    assert t + [] == t;
    assert [] + t == t;
  }

  /** Leading whitespace, however long and of whatever kind, is skipped. */
  lemma {:induction false} SplitSkipsSpace(w: string, s: string)
    requires forall k :: 0 <= k < |w| ==> IsSpace(w[k])
    ensures SplitWhitespace(w + s) == SplitWhitespace(s)
    decreases |w|
  {
    if w == [] {
      assert w + s == s;
    } else {
      assert (w + s)[0] == w[0];
      assert (w + s)[1..] == w[1..] + s;
      SplitSkipsSpace(w[1..], s);
    }
  }

  /** A token ended by any non-empty run of whitespace is one piece, and splitting resumes after the run. */
  lemma SplitTokenThenSpace(t: string, w: string, s: string)
    requires IsToken(t) && |w| > 0 && forall k :: 0 <= k < |w| ==> IsSpace(w[k])
    ensures SplitWhitespace(t + w + s) == [t] + SplitWhitespace(s)
  {
    assert t + w + s == t + (w + s);
    SplitFromToken(t, w + s, []);
    assert [] + t == t;
    assert (w + s)[0] == w[0];
    assert (w + s)[1..] == w[1..] + s;
    SplitSkipsSpace(w[1..], s);
  }

  /** `str.split()` recovers the tokens that single spaces joined. */
  lemma {:induction false} SplitJoinSpaced(ts: seq<string>)
    requires forall k :: 0 <= k < |ts| ==> IsToken(ts[k])
    ensures SplitWhitespace(JoinSpaced(ts)) == ts
    decreases |ts|
  {
    if |ts| == 0 {
    } else if |ts| == 1 {
      SplitFromToken(ts[0], [], []);
      assert ts[0] + [] == ts[0];
      assert [] + ts[0] == ts[0];
    } else {
      var rest := JoinSpaced(ts[1..]);
      assert JoinSpaced(ts) == ts[0] + (" " + rest);
      SplitFromToken(ts[0], " " + rest, []);
      assert [] + ts[0] == ts[0];
      assert (" " + rest)[1..] == rest;
      SplitJoinSpaced(ts[1..]);
      assert ts == [ts[0]] + ts[1..];
    }
  }

  // ---------------------------------------------------------------- str.strip()

  function StripLeft(s: string): (r: string)
    ensures |r| <= |s|
    ensures r == [] || !IsSpace(r[0])
  {
    if s != [] && IsSpace(s[0]) then StripLeft(s[1..]) else s
  }

  function StripRight(s: string): (r: string)
    ensures |r| <= |s|
    ensures r == [] || !IsSpace(r[|r| - 1])
  {
    if s != [] && IsSpace(s[|s| - 1]) then StripRight(s[..|s| - 1]) else s
  }

  /** `lstrip()` removes exactly the leading whitespace: what is left is a suffix, and all before it is whitespace. */
  lemma {:induction false} StripLeftSpec(s: string)
    ensures var r := StripLeft(s);
      r == s[|s| - |r|..] && forall k :: 0 <= k < |s| - |r| ==> IsSpace(s[k])
    decreases |s|
  {
    if s != [] && IsSpace(s[0]) {
      StripLeftSpec(s[1..]);
      var r := StripLeft(s);
      forall k | 0 < k < |s| - |r| ensures IsSpace(s[k]) {
        assert s[k] == s[1..][k - 1];
      }
    }
  }

  /** `rstrip()` removes exactly the trailing whitespace: what is left is a prefix, and all after it is whitespace. */
  lemma {:induction false} StripRightSpec(s: string)
    ensures var r := StripRight(s);
      r == s[..|r|] && forall k :: |r| <= k < |s| ==> IsSpace(s[k])
    decreases |s|
  {
    if s != [] && IsSpace(s[|s| - 1]) {
      var init := s[..|s| - 1];
      StripRightSpec(init);
      var r := StripRight(s);
      assert r == StripRight(init);
      forall k | |r| <= k < |s| - 1 ensures IsSpace(s[k]) {
        assert s[k] == init[k];
      }
      assert r == s[..|r|];
    }
  }

  /** `s.strip()`: leading and trailing whitespace removed. */
  function Strip(s: string): string
  {
    StripRight(StripLeft(s))
  }

  // ---------------------------------------------------------------- s.split(sep)[0]

  /** `s.split(sep)[0]`: the text before the first `sep`, or all of `s` when there is none. */
  function FirstPiece(s: string, sep: char): (r: string)
    ensures |r| <= |s| && r == s[..|r|]
    ensures forall k :: 0 <= k < |r| ==> r[k] != sep
    ensures |r| < |s| ==> s[|r|] == sep
  {
    if s == [] || s[0] == sep then [] else [s[0]] + FirstPiece(s[1..], sep)
  }

  // ---------------------------------------------------------------- s.replace(c, "")

  /** `s.replace(c, "")`: every occurrence of `c` deleted, the other characters kept in order. */
  function RemoveChar(s: string, c: char): (r: string)
    ensures forall k :: 0 <= k < |r| ==> r[k] != c
    ensures forall x :: x != c ==> multiset(r)[x] == multiset(s)[x]
  {
    if s == [] then []
    else
      assert s == [s[0]] + s[1..];
      (if s[0] == c then [] else [s[0]]) + RemoveChar(s[1..], c)
  }

  /** Deleting a character that does not occur changes nothing. */
  lemma {:induction false} RemoveAbsentChar(s: string, c: char)
    requires forall k :: 0 <= k < |s| ==> s[k] != c
    ensures RemoveChar(s, c) == s
    decreases |s|
  {
    if s != [] {
      RemoveAbsentChar(s[1..], c);
      assert s == [s[0]] + s[1..];
    }
  }

  // ---------------------------------------------------------------- re.sub(r'--', rep, s)

  /** `re.sub(r'--', rep, s)`: the non-overlapping occurrences of "--", found left to right, replaced by `rep`. */
  function ReplaceDashes(s: string, rep: string): string
    decreases |s|
  {
    if |s| >= 2 && s[0] == '-' && s[1] == '-' then rep + ReplaceDashes(s[2..], rep)
    else if s == [] then []
    else [s[0]] + ReplaceDashes(s[1..], rep)
  }

  /** Without a "--" in the text, the substitution leaves it unchanged. */
  lemma {:induction false} ReplaceDashesNoPair(s: string, rep: string)
    requires !HasDashPair(s)
    ensures ReplaceDashes(s, rep) == s
    decreases |s|
  {
    if s != [] {
      assert !HasDashPair(s[1..]) by {
        forall k | 0 <= k < |s[1..]| - 1
          ensures !(s[1..][k] == '-' && s[1..][k + 1] == '-')
        {
          assert s[1..][k] == s[k + 1] && s[1..][k + 1] == s[k + 2];
        }
      }
      assert !(|s| >= 2 && s[0] == '-' && s[1] == '-');
      ReplaceDashesNoPair(s[1..], rep);
      assert s == [s[0]] + s[1..];
    }
  }

  /** A replacement free of dashes leaves no "--" behind. */
  lemma {:induction false} ReplaceDashesLeavesNoPair(s: string, rep: string)
    requires |rep| > 0 && forall k :: 0 <= k < |rep| ==> rep[k] != '-'
    ensures !HasDashPair(ReplaceDashes(s, rep))
    ensures ReplaceDashes(s, rep) != [] && ReplaceDashes(s, rep)[0] == '-' ==> s[0] == '-' && (|s| == 1 || s[1] != '-')
    decreases |s|
  {
    var r := ReplaceDashes(s, rep);
    if |s| >= 2 && s[0] == '-' && s[1] == '-' {
      var t := ReplaceDashes(s[2..], rep);
      ReplaceDashesLeavesNoPair(s[2..], rep);
      assert r == rep + t;
      forall k | 0 <= k < |r| - 1 ensures !(r[k] == '-' && r[k + 1] == '-') {
        if k < |rep| {
          assert r[k] == rep[k];
        } else {
          assert r[k] == t[k - |rep|] && r[k + 1] == t[k + 1 - |rep|];
        }
      }
      assert r[0] == rep[0];
    } else if s == [] {
    } else {
      var t := ReplaceDashes(s[1..], rep);
      ReplaceDashesLeavesNoPair(s[1..], rep);
      assert r == [s[0]] + t;
      forall k | 0 <= k < |r| - 1 ensures !(r[k] == '-' && r[k + 1] == '-') {
        if k == 0 {
          assert r[1] == t[0];
        } else {
          assert r[k] == t[k - 1] && r[k + 1] == t[k];
        }
      }
    }
  }

  // ---------------------------------------------------------------- re.sub(r'[^\d]+', '', s)

  /** `re.sub(r'[^\d]+', '', s)`: the digits of `s`, in order. */
  function KeepDigits(s: string): (r: string)
    ensures forall k :: 0 <= k < |r| ==> IsDigit(r[k])
    ensures |r| <= |s|
  {
    if s == [] then [] else (if IsDigit(s[0]) then [s[0]] else []) + KeepDigits(s[1..])
  }

  lemma {:induction false} KeepDigitsAppend(a: string, b: string)
    ensures KeepDigits(a + b) == KeepDigits(a) + KeepDigits(b)
    decreases |a|
  {
    if a != [] {
      assert (a + b)[1..] == a[1..] + b;
      KeepDigitsAppend(a[1..], b);
    } else {
      assert a + b == b;
    }
  }

  /** A single character is kept exactly when it is a digit; with KeepDigitsAppend this fixes the result. */
  lemma KeepDigitsChar(c: char)
    ensures KeepDigits([c]) == if IsDigit(c) then [c] else []
  {
    assert [c][1..] == [];
  }

  /** A text keeps some digit exactly when it has one. */
  lemma {:induction false} KeepDigitsEmpty(s: string)
    ensures KeepDigits(s) == [] <==> !HasDigit(s)
    decreases |s|
  {
    if s != [] {
      KeepDigitsEmpty(s[1..]);
      if HasDigit(s[1..]) {
        var k :| 0 <= k < |s[1..]| && IsDigit(s[1..][k]);
        assert IsDigit(s[k + 1]);
      }
      if HasDigit(s) && !IsDigit(s[0]) {
        var k :| 0 <= k < |s| && IsDigit(s[k]);
        assert s[1..][k - 1] == s[k];
      }
    }
  }

  /** Without any "--" the digits survive the substitution unchanged, so the kept digits are the input's own. */
  lemma DigitsWithoutSentinel(s: string, rep: string)
    requires !HasDashPair(s)
    ensures KeepDigits(ReplaceDashes(s, rep)) == KeepDigits(s)
  {
    ReplaceDashesNoPair(s, rep);
  }

  /** After replacing "--" by a text holding a digit, some digit remains exactly when the input had a digit or a "--". */
  lemma {:induction false} ReplaceDashesHasDigit(s: string, rep: string)
    requires HasDigit(rep)
    ensures HasDigit(ReplaceDashes(s, rep)) <==> HasDigit(s) || HasDashPair(s)
    decreases |s|
  {
    var r := ReplaceDashes(s, rep);
    if |s| >= 2 && s[0] == '-' && s[1] == '-' {
      var k :| 0 <= k < |rep| && IsDigit(rep[k]);
      assert r == rep + ReplaceDashes(s[2..], rep);
      assert IsDigit(r[k]);
      assert HasDashPair(s) by { assert s[0] == '-' && s[1] == '-'; }
    } else if s == [] {
    } else {
      var t := ReplaceDashes(s[1..], rep);
      ReplaceDashesHasDigit(s[1..], rep);
      assert r == [s[0]] + t;
      assert HasDigit(r) <==> IsDigit(s[0]) || HasDigit(t) by {
        if HasDigit(t) {
          var k :| 0 <= k < |t| && IsDigit(t[k]);
          assert IsDigit(r[k + 1]);
        }
        if IsDigit(s[0]) {
          assert IsDigit(r[0]);
        }
        if HasDigit(r) && !IsDigit(s[0]) {
          var k :| 0 <= k < |r| && IsDigit(r[k]);
          assert k > 0 && t[k - 1] == r[k];
        }
      }
      assert HasDigit(s) <==> IsDigit(s[0]) || HasDigit(s[1..]) by {
        if HasDigit(s[1..]) {
          var k :| 0 <= k < |s[1..]| && IsDigit(s[1..][k]);
          assert IsDigit(s[k + 1]);
        }
        if HasDigit(s) && !IsDigit(s[0]) {
          var k :| 0 <= k < |s| && IsDigit(s[k]);
          assert s[1..][k - 1] == s[k];
        }
      }
      assert HasDashPair(s) <==> HasDashPair(s[1..]) by {
        if HasDashPair(s[1..]) {
          var k :| 0 <= k < |s[1..]| - 1 && s[1..][k] == '-' && s[1..][k + 1] == '-';
          assert s[k + 1] == '-' && s[k + 2] == '-';
        }
        if HasDashPair(s) {
          var k :| 0 <= k < |s| - 1 && s[k] == '-' && s[k + 1] == '-';
          assert k > 0;
          assert s[1..][k - 1] == s[k] && s[1..][k] == s[k + 1];
        }
      }
    }
  }
}
