/**
 Dotted strings and their segments. Org-unit paths, policy scopes and principal scopes are
 all stored as one dotted string and taken apart with `split('.')`; every prefix test in the
 system is a test on the string, and every rule it stands for is a rule on the segments.
 */
module DottedPaths {

  predicate DotFree(s: string) {
    '.' !in s
  }

  predicate AllDotFree(segments: seq<string>) {
    forall k :: 0 <= k < |segments| ==> DotFree(segments[k])
  }

  /** `s.split('.')` */
  function Split(s: string): (segments: seq<string>)
    ensures |segments| >= 1
    ensures AllDotFree(segments)
  {
    if s == "" then [""]
    else
      var rest := Split(s[1..]);
      if s[0] == '.' then [""] + rest else [[s[0]] + rest[0]] + rest[1..]
  }

  /** `segments.join('.')` */
  function Join(segments: seq<string>): string
    requires |segments| >= 1
  {
    if |segments| == 1 then segments[0] else segments[0] + "." + Join(segments[1..])
  }

  lemma {:induction false} JoinSplit(s: string)
    ensures Join(Split(s)) == s
  {
    if s != "" {
      var rest := Split(s[1..]);
      JoinSplit(s[1..]);
      if s[0] == '.' {
        assert Split(s)[1..] == rest;
        assert s == "" + "." + s[1..];
      } else if |rest| > 1 {
        assert Split(s)[1..] == rest[1..];
      }
    }
  }

  /** What one more character in front does to the segments. */
  function Prepend(c: char, segments: seq<string>): seq<string>
    requires |segments| >= 1
  {
    if c == '.' then [""] + segments else [[c] + segments[0]] + segments[1..]
  }

  lemma PrependConcat(c: char, a: seq<string>, b: seq<string>)
    requires |a| >= 1
    ensures Prepend(c, a + b) == Prepend(c, a) + b
  {
    assert (a + b)[0] == a[0] && (a + b)[1..] == a[1..] + b;
  }

  lemma {:induction false} SplitConcat(a: string, b: string)
    ensures Split(a + "." + b) == Split(a) + Split(b)
  {
    if a == "" {
      assert a + "." + b == ['.'] + b;
    } else {
      SplitConcat(a[1..], b);
      assert a == [a[0]] + a[1..] && a + "." + b == [a[0]] + (a[1..] + "." + b);
      PrependConcat(a[0], Split(a[1..]), Split(b));
    }
  }

  lemma {:induction false} SplitDotFree(s: string)
    requires DotFree(s)
    ensures Split(s) == [s]
  {
    if s != "" {
      SplitDotFree(s[1..]);
      assert [s[0]] + s[1..] == s;
    }
  }

  lemma {:induction false} SplitJoin(segments: seq<string>)
    requires |segments| >= 1 && AllDotFree(segments)
    ensures Split(Join(segments)) == segments
  {
    SplitDotFree(segments[0]);
    if |segments| > 1 {
      SplitJoin(segments[1..]);
      SplitConcat(segments[0], Join(segments[1..]));
      assert segments == [segments[0]] + segments[1..];
    }
  }

  lemma {:induction false} JoinConcat(a: seq<string>, b: seq<string>)
    requires |a| >= 1 && |b| >= 1
    ensures Join(a + b) == Join(a) + "." + Join(b)
  {
    if |a| == 1 {
      assert (a + b)[1..] == b;
    } else {
      JoinConcat(a[1..], b);
      assert (a + b)[1..] == a[1..] + b;
      assert a[0] + "." + (Join(a[1..]) + "." + Join(b)) == a[0] + "." + Join(a[1..]) + "." + Join(b);
    }
  }

  /** The segments hold the characters of the string, but for the dots. */
  lemma {:induction false} CharInSegments(s: string, c: char)
    requires c != '.'
    ensures c in s <==> exists k :: 0 <= k < |Split(s)| && c in Split(s)[k]
  {
    if s == "" {
      assert Split(s) == [""];
    } else {
      var rest := Split(s[1..]);
      CharInSegments(s[1..], c);
      assert s == [s[0]] + s[1..];
      assert Split(s) == Prepend(s[0], rest);
      if c in s[1..] {
        var k :| 0 <= k < |rest| && c in rest[k];
        assert c in Split(s)[if s[0] == '.' then k + 1 else k];
      } else if s[0] == c {
        assert c in Split(s)[0];
      } else {
        forall k | 0 <= k < |Split(s)|
          ensures c !in Split(s)[k]
        {
          assert forall j :: 0 <= j < |rest| ==> c !in rest[j];
        }
      }
    }
  }

  lemma SplitInjective(a: string, b: string)
    requires Split(a) == Split(b)
    ensures a == b
  {
    JoinSplit(a);
    JoinSplit(b);
  }

  /** `q.startsWith(p + '.')` holds exactly when p's segments are a proper prefix of q's. */
  lemma StartsWithIffSegmentPrefix(p: string, q: string)
    ensures p + "." <= q <==> Split(p) < Split(q)
  {
    if p + "." <= q {
      var r := q[|p| + 1..];
      assert q == p + "." + r;
      SplitConcat(p, r);
    }
    if Split(p) < Split(q) {
      var rest := Split(q)[|Split(p)|..];
      assert Split(q) == Split(p) + rest;
      JoinConcat(Split(p), rest);
      JoinSplit(p);
      JoinSplit(q);
    }
  }
}
