/** SQLite's `LIKE` operator without an ESCAPE clause: `%` matches any run
    of characters, `_` matches one character, and letters compare without
    regard to ASCII case. */
module SqlLike {
  import opened Text

  function Like(s: string, pattern: string): bool
    decreases |s| + |pattern|
  {
    if |pattern| == 0 then |s| == 0
    else if pattern[0] == '%' then Like(s, pattern[1..]) || (|s| > 0 && Like(s[1..], pattern))
    else if |s| == 0 then false
    else if pattern[0] == '_' then Like(s[1..], pattern[1..])
    else LowerChar(s[0]) == LowerChar(pattern[0]) && Like(s[1..], pattern[1..])
  }

  predicate NoWildcards(q: string) {
    forall i :: 0 <= i < |q| ==> q[i] != '%' && q[i] != '_'
  }

  /** `x LIKE '%q%'`, the pattern of a substring search. */
  function ContainsPattern(q: string): string {
    "%" + q + "%"
  }

  lemma {:induction false} PercentMatchesAll(s: string)
    ensures Like(s, "%")
  {
    if |s| > 0 {
      PercentMatchesAll(s[1..]);
    }
  }

  /** A wildcard-free `q` followed by `%` matches what starts with `q`,
      ignoring ASCII case. */
  lemma {:induction false} PrefixPattern(s: string, q: string)
    requires NoWildcards(q)
    ensures Like(s, q + "%") <==> |q| <= |s| && AsciiLower(s[..|q|]) == AsciiLower(q)
  {
    if |q| == 0 {
      assert q + "%" == "%";
      PercentMatchesAll(s);
    } else if |s| == 0 {
    } else {
      assert (q + "%")[1..] == q[1..] + "%";
      PrefixPattern(s[1..], q[1..]);
      if |q| <= |s| {
        var a, b := AsciiLower(s[..|q|]), AsciiLower(q);
        assert a == [LowerChar(s[0])] + AsciiLower(s[1..][..|q| - 1]);
        assert b == [LowerChar(q[0])] + AsciiLower(q[1..]);
      }
    }
  }

  /** A leading `%` lets the rest of the pattern match any suffix. */
  lemma {:induction false} LeadingPercent(s: string, rest: string)
    ensures Like(s, "%" + rest) <==> exists i :: 0 <= i <= |s| && Like(s[i..], rest)
  {
    var p := "%" + rest;
    assert p[1..] == rest;
    if |s| == 0 {
      assert s[0..] == s;
    } else {
      LeadingPercent(s[1..], rest);
      if Like(s, p) {
        if !Like(s, rest) {
          var i :| 0 <= i <= |s[1..]| && Like(s[1..][i..], rest);
          assert s[1..][i..] == s[i + 1..];
        } else {
          assert s[0..] == s;
        }
      } else {
        forall i | 0 <= i <= |s| ensures !Like(s[i..], rest) {
          if i == 0 {
            assert s[0..] == s;
          } else {
            assert s[1..][i - 1..] == s[i..];
          }
        }
      }
    }
  }

  lemma LowerSlice(s: string, i: nat, n: nat)
    requires i + n <= |s|
    ensures AsciiLower(s)[i..i + n] == AsciiLower(s[i..][..n])
  {
  }

  lemma MatchGivesOccurrence(s: string, q: string)
    requires NoWildcards(q)
    requires Like(s, "%" + (q + "%"))
    ensures Contains(AsciiLower(s), AsciiLower(q))
  {
    LeadingPercent(s, q + "%");
    var i :| 0 <= i <= |s| && Like(s[i..], q + "%");
    PrefixPattern(s[i..], q);
    LowerSlice(s, i, |q|);
    assert OccursAt(AsciiLower(s), AsciiLower(q), i);
  }

  lemma OccurrenceGivesMatch(s: string, q: string)
    requires NoWildcards(q)
    requires Contains(AsciiLower(s), AsciiLower(q))
    ensures Like(s, "%" + (q + "%"))
  {
    var ls, lq := AsciiLower(s), AsciiLower(q);
    var i: nat :| i + |lq| <= |ls| && OccursAt(ls, lq, i);
    PrefixPattern(s[i..], q);
    LowerSlice(s, i, |q|);
    assert Like(s[i..], q + "%");
    LeadingPercent(s, q + "%");
  }

  /** `path LIKE '%q%'` for a wildcard-free `q` holds exactly when `q` occurs
      in `path`, ignoring ASCII case. */
  lemma ContainsPatternIsSubstring(s: string, q: string)
    requires NoWildcards(q)
    ensures Like(s, ContainsPattern(q)) <==> Contains(AsciiLower(s), AsciiLower(q))
  {
    assert ContainsPattern(q) == "%" + (q + "%");
    if Like(s, ContainsPattern(q)) {
      MatchGivesOccurrence(s, q);
    }
    if Contains(AsciiLower(s), AsciiLower(q)) {
      OccurrenceGivesMatch(s, q);
    }
  }
}
