/** Ordinal string search and replacement, as the .NET methods
    String.Contains(string), String.IndexOf(string, StringComparison.Ordinal)
    and String.Replace(string, string) perform them: character-by-character
    comparison, no culture rules, and replacement of every non-overlapping
    occurrence from left to right. */
module Text {
  import opened Wrappers

  /** `pat` occurs in `s` starting at index `i`. */
  predicate OccursAt(s: string, pat: string, i: int) {
    0 <= i && i + |pat| <= |s| && s[i..i + |pat|] == pat
  }

  /** String.Contains: `pat` occurs somewhere in `s`. The empty pattern
      occurs in every string, the empty one included. */
  predicate Contains(s: string, pat: string)
    ensures Contains(s, pat) ==> |pat| <= |s|
    ensures pat == [] ==> Contains(s, pat)
  {
    assert pat == [] ==> OccursAt(s, pat, 0);
    exists i :: 0 <= i <= |s| - |pat| && OccursAt(s, pat, i)
  }

  /** An occurrence in the tail `s[1..]` is an occurrence in `s`, one place further on. */
  lemma OccursShift(s: string, pat: string, i: int)
    requires |s| > 0 && 0 <= i
    ensures OccursAt(s[1..], pat, i) <==> OccursAt(s, pat, i + 1)
  {
    if 0 <= i && i + |pat| <= |s| - 1 {
      assert s[1..][i..i + |pat|] == s[i + 1..i + 1 + |pat|];
    }
  }

  /** Every occurrence after the first character of `s` is an occurrence in `s[1..]`. */
  lemma OccursInTail(s: string, pat: string)
    requires |s| > 0
    ensures forall j :: 1 <= j ==> (OccursAt(s, pat, j) <==> OccursAt(s[1..], pat, j - 1))
  {
    forall j | 1 <= j
      ensures OccursAt(s, pat, j) <==> OccursAt(s[1..], pat, j - 1)
    {
      OccursShift(s, pat, j - 1);
    }
  }

  /** A string lacking one of the pattern's characters does not contain it. */
  lemma MissingCharExcludes(s: string, pat: string, c: char)
    requires c in pat && c !in s
    ensures !Contains(s, pat)
  {
    forall i | 0 <= i <= |s| - |pat| ensures !OccursAt(s, pat, i) {
      var k :| 0 <= k < |pat| && pat[k] == c;
      assert s[i..i + |pat|][k] == s[i + k];
    }
  }

  /** String.IndexOf (ordinal): the position of the first occurrence of `pat`
      in `s`, or None (the -1 of .NET) when there is none. */
  function IndexOf(s: string, pat: string): (r: Option<nat>)
    ensures r.Some? ==> OccursAt(s, pat, r.value)
    ensures r.Some? ==> forall j :: 0 <= j < r.value ==> !OccursAt(s, pat, j)
    ensures r.None? <==> !Contains(s, pat)
    decreases |s|
  {
    if |s| < |pat| then
      None
    else if s[..|pat|] == pat then
      Some(0)
    else
      OccursInTail(s, pat);
      match IndexOf(s[1..], pat)
      case None => None
      case Some(i) => Some(i + 1)
  }

  /** String.Replace(pat, rep): every non-overlapping occurrence of `pat`,
      found left to right, is replaced by `rep`. .NET throws an
      ArgumentException for an empty `pat`, hence the precondition. */
  function ReplaceAll(s: string, pat: string, rep: string): string
    requires pat != []
    decreases |s|
  {
    if |s| < |pat| then
      s
    else if s[..|pat|] == pat then
      rep + ReplaceAll(s[|pat|..], pat, rep)
    else
      [s[0]] + ReplaceAll(s[1..], pat, rep)
  }

  /** The number of occurrences ReplaceAll replaces. */
  function Count(s: string, pat: string): nat
    requires pat != []
    decreases |s|
  {
    if |s| < |pat| then 0
    else if s[..|pat|] == pat then 1 + Count(s[|pat|..], pat)
    else Count(s[1..], pat)
  }

  /** A string without the pattern comes back from Replace unchanged. */
  lemma {:induction false} ReplaceAbsent(s: string, pat: string, rep: string)
    requires pat != []
    requires !Contains(s, pat)
    ensures ReplaceAll(s, pat, rep) == s
    decreases |s|
  {
    if |s| >= |pat| {
      assert !OccursAt(s, pat, 0);
      assert s[..|pat|] != pat;
      forall j | 0 <= j <= |s[1..]| - |pat| ensures !OccursAt(s[1..], pat, j) {
        OccursShift(s, pat, j);
      }
      ReplaceAbsent(s[1..], pat, rep);
    }
  }

  /** Replacing a pattern by itself changes nothing. */
  lemma {:induction false} ReplaceWithItself(s: string, pat: string)
    requires pat != []
    ensures ReplaceAll(s, pat, pat) == s
    decreases |s|
  {
    if |s| < |pat| {
    } else if s[..|pat|] == pat {
      ReplaceWithItself(s[|pat|..], pat);
      assert s == s[..|pat|] + s[|pat|..];
    } else {
      ReplaceWithItself(s[1..], pat);
      assert s == [s[0]] + s[1..];
    }
  }

  /** Replace copies, character by character, a prefix of `s` in which no
      occurrence of `pat` starts. */
  lemma {:induction false} ReplaceSkipsPrefix(s: string, pat: string, rep: string, k: nat)
    requires pat != [] && k <= |s|
    requires forall j :: 0 <= j < k ==> !OccursAt(s, pat, j)
    ensures ReplaceAll(s, pat, rep) == s[..k] + ReplaceAll(s[k..], pat, rep)
    decreases k
  {
    if k > 0 {
      ReplaceSkipsPrefix(s, pat, rep, k - 1);
      var v := s[k - 1..];
      assert !OccursAt(s, pat, k - 1);
      assert |v| >= |pat| ==> v[..|pat|] == s[k - 1..k - 1 + |pat|];
      assert v[1..] == s[k..];
      assert ReplaceAll(v, pat, rep) == [s[k - 1]] + ReplaceAll(s[k..], pat, rep);
      assert s[..k] == s[..k - 1] + [s[k - 1]];
    }
  }

  /** Reference definition: Replace keeps the text before the first
      occurrence, puts `rep` in place of that occurrence and carries on
      after it (the IndexOf-driven loop .NET runs). With no occurrence at all
      the text is unchanged (ReplaceAbsent). */
  lemma {:induction false} ReplaceAtFirstOccurrence(s: string, pat: string, rep: string, i: nat)
    requires pat != []
    requires IndexOf(s, pat) == Some(i)
    ensures ReplaceAll(s, pat, rep) == s[..i] + rep + ReplaceAll(s[i + |pat|..], pat, rep)
  {
    ReplaceAtOccurrence(s, pat, rep, i);
  }

  lemma {:induction false} ReplaceAtOccurrence(s: string, pat: string, rep: string, i: nat)
    requires pat != [] && OccursAt(s, pat, i)
    requires forall j :: 0 <= j < i ==> !OccursAt(s, pat, j)
    ensures ReplaceAll(s, pat, rep) == s[..i] + rep + ReplaceAll(s[i + |pat|..], pat, rep)
  {
    ReplaceSkipsPrefix(s, pat, rep, i);
    var v, w := s[i..], s[i + |pat|..];
    assert v[..|pat|] == pat;
    assert v[|pat|..] == w;
    var tail := ReplaceAll(w, pat, rep);
    assert ReplaceAll(v, pat, rep) == rep + tail;
    assert s[..i] + (rep + tail) == s[..i] + rep + tail;
  }

  /** `n` copies of `d` added up. */
  function Times(n: nat, d: int): int {
    if n == 0 then 0 else d + Times(n - 1, d)
  }

  /** Each replaced occurrence trades |pat| characters for |rep| ones; with
      an empty `rep` every occurrence is simply deleted. */
  lemma {:induction false} ReplaceLength(s: string, pat: string, rep: string)
    requires pat != []
    ensures |ReplaceAll(s, pat, rep)| == |s| + Times(Count(s, pat), |rep| - |pat|)
    decreases |s|
  {
    if |s| < |pat| {
    } else if s[..|pat|] == pat {
      ReplaceLength(s[|pat|..], pat, rep);
    } else {
      ReplaceLength(s[1..], pat, rep);
    }
  }

  /** Replace replaces something exactly when the pattern occurs. */
  lemma {:induction false} CountPositive(s: string, pat: string)
    requires pat != []
    ensures Count(s, pat) > 0 <==> Contains(s, pat)
    decreases |s|
  {
    if |s| < |pat| {
    } else if s[..|pat|] == pat {
      assert OccursAt(s, pat, 0);
    } else {
      OccursInTail(s, pat);
      CountPositive(s[1..], pat);
      assert !OccursAt(s, pat, 0);
      if Contains(s[1..], pat) {
        var j :| 0 <= j <= |s[1..]| - |pat| && OccursAt(s[1..], pat, j);
        OccursShift(s, pat, j);
      }
    }
  }

  /** Up to position `m`, the result of Replace either still reads as the
      input or already holds a character of `rep`. */
  lemma {:induction false} PrefixKeptOrReplaced(t: string, pat: string, rep: string, m: nat)
    requires pat != [] && rep != []
    requires m <= |t|
    ensures var r := ReplaceAll(t, pat, rep);
      (m <= |r| && r[..m] == t[..m]) || (exists j :: 0 <= j < m && j < |r| && r[j] in rep)
    decreases m
  {
    var r := ReplaceAll(t, pat, rep);
    if m == 0 {
    } else if |t| < |pat| {
    } else if t[..|pat|] == pat {
      assert r[0] == rep[0];
    } else {
      PrefixKeptOrReplaced(t[1..], pat, rep, m - 1);
      var r' := ReplaceAll(t[1..], pat, rep);
      assert r == [t[0]] + r';
      if m - 1 <= |r'| && r'[..m - 1] == t[1..][..m - 1] {
        assert r[..m] == [t[0]] + r'[..m - 1];
        assert t[..m] == [t[0]] + t[1..][..m - 1];
      } else {
        var j :| 0 <= j < m - 1 && j < |r'| && r'[j] in rep;
        assert r[j + 1] == r'[j];
      }
    }
  }

  /** Putting characters foreign to `pat` in front of a text without `pat`
      creates no occurrence. */
  lemma ForeignPrefixKeepsAbsent(rep: string, tail: string, pat: string)
    requires pat != []
    requires forall c :: c in rep ==> c !in pat
    requires !Contains(tail, pat)
    ensures !Contains(rep + tail, pat)
  {
    var r := rep + tail;
    forall i | 0 <= i <= |r| - |pat| ensures !OccursAt(r, pat, i) {
      if i < |rep| {
        // the occurrence would start on a character of `rep`
        assert r[i..i + |pat|][0] == rep[i] && rep[i] !in pat;
        assert pat[0] in pat;
      } else {
        assert r[i..i + |pat|] == tail[i - |rep|..i - |rep| + |pat|];
        assert !OccursAt(tail, pat, i - |rep|);
      }
    }
  }

  /** The character Replace copies at a non-matching position cannot start an
      occurrence in the result when `rep` is non-empty and foreign to `pat`. */
  lemma CopiedHeadKeepsAbsent(s: string, pat: string, rep: string)
    requires pat != [] && rep != [] && |s| >= |pat| && s[..|pat|] != pat
    requires forall c :: c in rep ==> c !in pat
    requires !Contains(ReplaceAll(s[1..], pat, rep), pat)
    ensures !Contains([s[0]] + ReplaceAll(s[1..], pat, rep), pat)
  {
    var tail := ReplaceAll(s[1..], pat, rep);
    var r := [s[0]] + tail;
    forall i | 0 <= i <= |r| - |pat| ensures !OccursAt(r, pat, i) {
      if i == 0 {
        PrefixKeptOrReplaced(s[1..], pat, rep, |pat| - 1);
        if |pat| - 1 <= |tail| && tail[..|pat| - 1] == s[1..][..|pat| - 1] {
          // the candidate occurrence reads as the input, which does not match here
          assert s[..|pat|] == [s[0]] + s[1..][..|pat| - 1];
          assert r[..|pat|] == [s[0]] + tail[..|pat| - 1];
        } else {
          // the candidate occurrence holds a character of `rep`
          var j :| 0 <= j < |pat| - 1 && j < |tail| && tail[j] in rep;
          assert r[0..|pat|][j + 1] == tail[j] && tail[j] !in pat;
          assert pat[j + 1] in pat;
        }
      } else {
        assert r[i..i + |pat|] == tail[i - 1..i - 1 + |pat|];
        assert !OccursAt(tail, pat, i - 1);
      }
    }
  }

  /** No occurrence of the pattern survives Replace when the replacement is
      non-empty and shares no character with the pattern. Both conditions are
      needed: see ResidueWithValue and ResidueWithEmptyValue. */
  lemma {:induction false} ReplaceRemovesAll(s: string, pat: string, rep: string)
    requires pat != [] && rep != []
    requires forall c :: c in rep ==> c !in pat
    ensures !Contains(ReplaceAll(s, pat, rep), pat)
    decreases |s|
  {
    if |s| < |pat| {
    } else if s[..|pat|] == pat {
      ReplaceRemovesAll(s[|pat|..], pat, rep);
      ForeignPrefixKeepsAbsent(rep, ReplaceAll(s[|pat|..], pat, rep), pat);
    } else {
      ReplaceRemovesAll(s[1..], pat, rep);
      CopiedHeadKeepsAbsent(s, pat, rep);
    }
  }

  /** A pattern can survive Replace even though the replacement does not
      contain it: the text around an occurrence can join up with the
      replacement. */
  lemma ResidueWithValue()
    ensures !Contains("X", "{{X}}")
    ensures ReplaceAll("{{{{X}}}}", "{{X}}", "X") == "{{X}}"
  {
    assert ReplaceAll("}}", "{{X}}", "X") == "}}";
    assert "{{X}}}}"[..5] == "{{X}}" && "{{X}}}}"[5..] == "}}";
    assert ReplaceAll("{{X}}}}", "{{X}}", "X") == "X}}";
    assert "{{{X}}}}"[..5][2] != "{{X}}"[2];
    assert "{{{X}}}}"[1..] == "{{X}}}}";
    assert ReplaceAll("{{{X}}}}", "{{X}}", "X") == "{X}}";
    assert "{{{{X}}}}"[..5][2] != "{{X}}"[2];
    assert "{{{{X}}}}"[1..] == "{{{X}}}}";
  }

  /** With an empty replacement, the text before an occurrence can join up
      with the text after it. */
  lemma ResidueWithEmptyValue()
    ensures ReplaceAll("{{{{X}}X}}", "{{X}}", "") == "{{X}}"
    ensures Contains("{{X}}", "{{X}}")
  {
    assert OccursAt("{{X}}", "{{X}}", 0);
    assert ReplaceAll("X}}", "{{X}}", "") == "X}}";
    assert "{{X}}X}}"[..5] == "{{X}}" && "{{X}}X}}"[5..] == "X}}";
    assert ReplaceAll("{{X}}X}}", "{{X}}", "") == "X}}";
    assert "{{{X}}X}}"[..5][2] != "{{X}}"[2];
    assert "{{{X}}X}}"[1..] == "{{X}}X}}";
    assert ReplaceAll("{{{X}}X}}", "{{X}}", "") == "{X}}";
    assert "{{{{X}}X}}"[..5][2] != "{{X}}"[2];
    assert "{{{{X}}X}}"[1..] == "{{{X}}X}}";
  }
}
