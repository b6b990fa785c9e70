/** The three `String` operations of the Kotlin standard library that the
    adapter replies go through: `trim()`, `replace(c, "")` and `contains`. */
module Text {

  /** Kotlin's `Char.isWhitespace()` on the JVM: Java whitespace plus the
      Unicode space separators (no-break space included). */
  predicate IsWhitespace(c: char)
  {
    || c == ' ' || ('\t' <= c <= '\r') || ('\U{1C}' <= c <= '\U{1F}')
    || c == '\U{A0}' || c == '\U{1680}' || ('\U{2000}' <= c <= '\U{200A}')
    || c == '\U{2028}' || c == '\U{2029}' || c == '\U{202F}' || c == '\U{205F}'
    || c == '\U{3000}'
  }

  /** The number of whitespace characters `s` starts with. */
  function Leading(s: string): (n: nat)
    ensures n <= |s|
  {
    if s == [] || !IsWhitespace(s[0]) then 0 else 1 + Leading(s[1..])
  }

  /** The number of whitespace characters `s` ends with. */
  function Trailing(s: string): (n: nat)
    ensures n <= |s|
  {
    if s == [] || !IsWhitespace(s[|s| - 1]) then 0 else 1 + Trailing(s[..|s| - 1])
  }

  /** `String.trim()`: `s` without its leading and trailing whitespace. */
  function Trim(s: string): (r: string)
    ensures |r| <= |s|
  {
    var rest := s[Leading(s)..];
    rest[..|rest| - Trailing(rest)]
  }

  /** `Leading` counts exactly the whitespace run at the front. */
  lemma {:induction false} LeadingRun(s: string)
    ensures forall k :: 0 <= k < Leading(s) ==> IsWhitespace(s[k])
    ensures Leading(s) == |s| || !IsWhitespace(s[Leading(s)])
  {
    if s != [] && IsWhitespace(s[0]) {
      LeadingRun(s[1..]);
    }
  }

  /** `Trailing` counts exactly the whitespace run at the back. */
  lemma {:induction false} TrailingRun(s: string)
    ensures forall k :: |s| - Trailing(s) <= k < |s| ==> IsWhitespace(s[k])
    ensures Trailing(s) == |s| || !IsWhitespace(s[|s| - 1 - Trailing(s)])
  {
    if s != [] && IsWhitespace(s[|s| - 1]) {
      TrailingRun(s[..|s| - 1]);
    }
  }

  /** The trimmed text is the middle of `s`: only whitespace lies around it,
      and it neither starts nor ends with whitespace. */
  lemma TrimShape(s: string)
    ensures Leading(s) + |Trim(s)| <= |s|
    ensures Trim(s) == s[Leading(s)..Leading(s) + |Trim(s)|]
    ensures forall k :: 0 <= k < Leading(s) ==> IsWhitespace(s[k])
    ensures forall k :: Leading(s) + |Trim(s)| <= k < |s| ==> IsWhitespace(s[k])
    ensures Trim(s) == [] || (!IsWhitespace(Trim(s)[0]) && !IsWhitespace(Trim(s)[|Trim(s)| - 1]))
  {
    LeadingRun(s);
    TrimBack(s);
    TrimEnds(s);
  }

  lemma TrimBack(s: string)
    ensures forall k :: Leading(s) + |Trim(s)| <= k < |s| ==> IsWhitespace(s[k])
  {
    var n := Leading(s);
    var rest := s[n..];
    TrailingRun(rest);
    assert |Trim(s)| == |rest| - Trailing(rest);
    forall k | n + |Trim(s)| <= k < |s|
      ensures IsWhitespace(s[k])
    {
      assert s[k] == rest[k - n];
    }
  }

  lemma TrimEnds(s: string)
    ensures Trim(s) == [] || (!IsWhitespace(Trim(s)[0]) && !IsWhitespace(Trim(s)[|Trim(s)| - 1]))
  {
    var n := Leading(s);
    var rest := s[n..];
    var r := Trim(s);
    if r != [] {
      LeadingRun(s);
      TrailingRun(rest);
      assert r[0] == s[n];
      assert r[|r| - 1] == rest[|rest| - 1 - Trailing(rest)];
    }
  }

  /** Trimming a text padded with whitespace on both sides gives the text back. */
  lemma {:induction false} TrimPadded(front: string, t: string, back: string)
    requires forall k :: 0 <= k < |front| ==> IsWhitespace(front[k])
    requires forall k :: 0 <= k < |back| ==> IsWhitespace(back[k])
    requires t == [] || (!IsWhitespace(t[0]) && !IsWhitespace(t[|t| - 1]))
    ensures Trim(front + t + back) == t
  {
    var s := front + t + back;
    if t == [] {
      assert forall k :: 0 <= k < |s| ==> IsWhitespace(s[k]) by {
        forall k | 0 <= k < |s| ensures IsWhitespace(s[k]) {
          if k < |front| { assert s[k] == front[k]; } else { assert s[k] == back[k - |front|]; }
        }
      }
      LeadingAll(s);
    } else {
      LeadingPrefix(front, t + back);
      assert s == front + (t + back);
      var rest := s[|front|..];
      assert rest == t + back;
      TrailingSuffix(t, back);
    }
  }

  lemma {:induction false} LeadingAll(s: string)
    requires forall k :: 0 <= k < |s| ==> IsWhitespace(s[k])
    ensures Leading(s) == |s|
  {
    if s != [] {
      assert IsWhitespace(s[0]);
      LeadingAll(s[1..]);
    }
  }

  lemma {:induction false} LeadingPrefix(w: string, u: string)
    requires forall k :: 0 <= k < |w| ==> IsWhitespace(w[k])
    requires u != [] && !IsWhitespace(u[0])
    ensures Leading(w + u) == |w|
  {
    if w == [] {
      assert w + u == u;
    } else {
      assert IsWhitespace(w[0]);
      assert (w + u)[1..] == w[1..] + u;
      LeadingPrefix(w[1..], u);
    }
  }

  lemma {:induction false} TrailingSuffix(t: string, w: string)
    requires forall k :: 0 <= k < |w| ==> IsWhitespace(w[k])
    requires t != [] && !IsWhitespace(t[|t| - 1])
    ensures Trailing(t + w) == |w|
  {
    if w == [] {
      assert t + w == t;
    } else {
      var s := t + w;
      assert s[|s| - 1] == w[|w| - 1];
      assert s[..|s| - 1] == t + w[..|w| - 1];
      TrailingSuffix(t, w[..|w| - 1]);
    }
  }

  /** Trimming twice trims no more than trimming once. */
  lemma TrimIdempotent(s: string)
    ensures Trim(Trim(s)) == Trim(s)
  {
    TrimShape(s);
    TrimPadded([], Trim(s), []);
    assert [] + Trim(s) + [] == Trim(s);
  }

  /** `s.replace(c.toString(), "")`: every occurrence of `c` deleted, order kept. */
  function Remove(s: string, c: char): (r: string)
    ensures c !in r
    ensures |r| <= |s|
    ensures forall x :: x in r ==> x in s
  {
    if s == [] then [] else (if s[0] == c then [] else [s[0]]) + Remove(s[1..], c)
  }

  /** Deleting a character distributes over concatenation. */
  lemma {:induction false} RemoveAppend(a: string, b: string, c: char)
    ensures Remove(a + b, c) == Remove(a, c) + Remove(b, c)
  {
    if a == [] {
      assert a + b == b;
    } else {
      assert (a + b)[1..] == a[1..] + b;
      RemoveAppend(a[1..], b, c);
    }
  }

  /** A text without `c` is left alone. */
  lemma {:induction false} RemoveAbsent(s: string, c: char)
    requires c !in s
    ensures Remove(s, c) == s
  {
    if s != [] {
      assert c !in s[1..];
      RemoveAbsent(s[1..], c);
    }
  }

  /** `s.contains(p)`: `p` occurs in `s` as a contiguous piece. */
  predicate Contains(s: string, p: string)
    ensures Contains(s, p) ==> |p| <= |s|
    decreases |s|
  {
    (|p| <= |s| && s[..|p|] == p) || (s != [] && Contains(s[1..], p))
  }

  /** An occurrence at any position is found. */
  lemma {:induction false} ContainsAt(a: string, p: string, b: string)
    ensures Contains(a + p + b, p)
  {
    var s := a + p + b;
    if a == [] {
      assert s[..|p|] == p;
    } else {
      assert s[1..] == a[1..] + p + b;
      ContainsAt(a[1..], p, b);
    }
  }

  /** Conversely, `contains` only holds when the marker occurs: the text
      splits around it. */
  lemma {:induction false} ContainsSplit(s: string, p: string) returns (a: string, b: string)
    requires Contains(s, p)
    ensures s == a + p + b
    decreases |s|
  {
    if |p| <= |s| && s[..|p|] == p {
      a, b := [], s[|p|..];
      assert s == s[..|p|] + s[|p|..];
    } else {
      var a', b' := ContainsSplit(s[1..], p);
      a, b := [s[0]] + a', b';
      assert s == [s[0]] + s[1..];
    }
  }
}
