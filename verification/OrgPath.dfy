/** The org-unit path value object: validation, derivation of child paths, prefix tests. */
module OrgPaths {
  import opened Wrappers
  import opened DottedPaths

  const MAX_DEPTH := 8

  datatype PathError = PathEmpty | PathTooDeep | SegmentInvalid

  predicate IsSpace(c: char) {
    c in [' ', '\t', '\n', '\r', '\U{000B}', '\U{000C}', '\U{00A0}', '\U{1680}', '\U{2028}', '\U{2029}',
          '\U{202F}', '\U{205F}', '\U{3000}', '\U{FEFF}'] || '\U{2000}' <= c <= '\U{200A}'
  }

  predicate Blank(s: string) {
    forall k :: 0 <= k < |s| ==> IsSpace(s[k])
  }

  predicate IsAlnum(c: char) {
    'a' <= c <= 'z' || '0' <= c <= '9'
  }

  /** Lower-kebab: runs of `[a-z0-9]` joined by single hyphens. */
  predicate IsSegment(s: string) {
    && |s| > 0
    && (forall k :: 0 <= k < |s| ==> IsAlnum(s[k]) || s[k] == '-')
    && s[0] != '-' && s[|s| - 1] != '-'
    && (forall k :: 0 < k < |s| ==> !(s[k - 1] == '-' && s[k] == '-'))
  }

  predicate IsPath(s: string) {
    |Split(s)| <= MAX_DEPTH && forall k :: 0 <= k < |Split(s)| ==> IsSegment(Split(s)[k])
  }

  // ----- The pattern, read as the regular expression is --------------------------------------------

  predicate IsLowerAlnum(c: char) {
    'a' <= c <= 'z' || '0' <= c <= '9'
  }

  /** `[a-z0-9]+` */
  predicate IsRun(s: string) {
    s != "" && forall k :: 0 <= k < |s| ==> IsLowerAlnum(s[k])
  }

  /** The rest of `[a-z0-9]+(?:-[a-z0-9]+)*`, with any separator for the hyphen; at a start a run must begin. */
  predicate MatchesFrom(s: string, sep: char, atStart: bool) {
    if s == "" then !atStart
    else if s[0] == sep then !atStart && MatchesFrom(s[1..], sep, true)
    else IsLowerAlnum(s[0]) && MatchesFrom(s[1..], sep, false)
  }

  predicate MatchesRuns(s: string, sep: char) {
    MatchesFrom(s, sep, true)
  }

  lemma {:induction false} MatchesFromIff(s: string, sep: char, atStart: bool)
    requires !IsAlnum(sep)
    ensures MatchesFrom(s, sep, atStart) <==>
              if s == "" then !atStart
              else
                && (forall k :: 0 <= k < |s| ==> IsAlnum(s[k]) || s[k] == sep)
                && (atStart ==> s[0] != sep) && s[|s| - 1] != sep
                && (forall k :: 0 < k < |s| ==> !(s[k - 1] == sep && s[k] == sep))
  {
    if s != "" {
      var rest := s[1..];
      MatchesFromIff(rest, sep, s[0] == sep);
      assert forall k :: 0 <= k < |rest| ==> rest[k] == s[k + 1];
      assert forall k :: 0 < k < |s| ==> s[k] == rest[k - 1];
    }
  }

  /** A path is one to eight segments between dots, each matching the pattern. */
  lemma PathIffPattern(s: string)
    ensures IsPath(s) <==> 1 <= |Split(s)| <= 8 && forall k :: 0 <= k < |Split(s)| ==> MatchesRuns(Split(s)[k], '-')
  {
    forall k | 0 <= k < |Split(s)|
      ensures IsSegment(Split(s)[k]) <==> MatchesRuns(Split(s)[k], '-')
    {
      MatchesFromIff(Split(s)[k], '-', true);
    }
  }

  /** A value that only `FromString` builds. */
  datatype OrgPath = OrgPath(value: string) {
    function Segments(): seq<string> {
      Split(value)
    }

    function Depth(): nat {
      |Segments()|
    }

    function Leaf(): string {
      Segments()[|Segments()| - 1]
    }

    function Child(segment: string): Result<OrgPath, PathError> {
      FromString(value + "." + segment)
    }

    predicate IsAncestorOf(other: OrgPath) {
      other.value == value || value + "." <= other.value
    }
  }

  function FromString(s: string): (r: Result<OrgPath, PathError>)
    ensures r.Ok? <==> IsPath(s)
    ensures r.Ok? ==> r.value.value == s
  {
    if Blank(s) then
      BlankIsNoPath(s);
      Err(PathEmpty)
    else if |Split(s)| > MAX_DEPTH then Err(PathTooDeep)
    else if exists k :: 0 <= k < |Split(s)| && !IsSegment(Split(s)[k]) then Err(SegmentInvalid)
    else Ok(OrgPath(s))
  }

  lemma BlankIsNoPath(s: string)
    requires Blank(s)
    ensures !IsPath(s)
  {
    assert DotFree(s);
    SplitDotFree(s);
    assert Split(s)[0] == s;
  }

  /** `isAncestorOf` is the prefix order on segments, for every pair of strings. */
  lemma IsAncestorOfIsSegmentPrefix(p: OrgPath, q: OrgPath)
    ensures p.IsAncestorOf(q) <==> p.Segments() <= q.Segments()
  {
    StartsWithIffSegmentPrefix(p.value, q.value);
    if p.Segments() == q.Segments() {
      SplitInjective(p.value, q.value);
    }
  }

  /**
   SQL `LIKE` with its two wildcards and its default escape character.
   */
  predicate Like(s: string, pattern: string)
    decreases |s| + |pattern|
  {
    if pattern == "" then s == ""
    else if pattern[0] == '%' then Like(s, pattern[1..]) || (s != "" && Like(s[1..], pattern))
    else if pattern[0] == '\\' && |pattern| > 1 then
      s != "" && s[0] == pattern[1] && Like(s[1..], pattern[2..])
    else
      s != "" && (pattern[0] == '_' || pattern[0] == s[0]) && Like(s[1..], pattern[1..])
  }

  predicate IsLiteral(p: string) {
    forall k :: 0 <= k < |p| ==> p[k] != '%' && p[k] != '_' && p[k] != '\\'
  }

  lemma {:induction false} LikePercent(s: string)
    ensures Like(s, "%")
  {
    if s != "" {
      LikePercent(s[1..]);
    }
  }

  lemma {:induction false} LikeLiteralPrefix(s: string, p: string)
    requires IsLiteral(p)
    ensures Like(s, p + "%") <==> p <= s
  {
    if p == "" {
      LikePercent(s);
      assert p + "%" == "%";
    } else {
      assert (p + "%")[1..] == p[1..] + "%";
      if s != "" {
        LikeLiteralPrefix(s[1..], p[1..]);
        assert p <= s <==> p[0] == s[0] && p[1..] <= s[1..];
      }
    }
  }

  lemma {:induction false} JoinLiteral(segments: seq<string>)
    requires |segments| >= 1
    requires forall k :: 0 <= k < |segments| ==> IsLiteral(segments[k])
    ensures IsLiteral(Join(segments))
  {
    if |segments| > 1 {
      JoinLiteral(segments[1..]);
    }
  }

  /**
   The subtree query: on stored paths `LIKE 'path.%'` is exactly the string prefix test, because
   a kebab path holds no wildcard and no escape character.
   */
  lemma LikeSubtreeIsPrefix(s: string, p: string)
    requires IsPath(p)
    ensures Like(s, p + ".%") <==> p + "." <= s
  {
    JoinSplit(p);
    JoinLiteral(Split(p));
    assert p + ".%" == (p + ".") + "%";
    LikeLiteralPrefix(s, p + ".");
  }
}
