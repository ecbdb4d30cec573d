/** The JavaScript string built-ins that the shell relies on, over `seq<char>`:
    `toLowerCase` (ASCII letters only), `trim`, `includes`, `startsWith`,
    `endsWith`, `split('\n')` and the global replace of "**" by "". */
module Strings {

  // ---------------------------------------------------------------------------
  // toLowerCase
  // ---------------------------------------------------------------------------

  predicate IsUpper(c: char) { 'A' <= c <= 'Z' }

  /** Lower-cases one ASCII letter; every other character is kept. */
  function LowerChar(c: char): (r: char)
    ensures !IsUpper(r)
    ensures IsUpper(c) || r == c
    ensures IsUpper(c) ==> r != c && r as int - c as int == 'a' as int - 'A' as int
  {
    if IsUpper(c) then (c as int - 'A' as int + 'a' as int) as char else c
  }

  /** `s.toLowerCase()`, for ASCII letters. */
  function Lower(s: string): (r: string)
    ensures |r| == |s|
    ensures forall i :: 0 <= i < |r| ==> !IsUpper(r[i])
    ensures forall i :: 0 <= i < |s| && !IsUpper(s[i]) ==> r[i] == s[i]
    ensures forall i :: 0 <= i < |s| && IsUpper(s[i]) ==> r[i] as int == s[i] as int + ('a' as int - 'A' as int)
  {
    seq(|s|, i requires 0 <= i < |s| => LowerChar(s[i]))
  }

  /** Lower-casing twice is lower-casing once. */
  lemma LowerIdempotent(s: string)
    ensures Lower(Lower(s)) == Lower(s)
  {
  }

  predicate IsLower(c: char) { 'a' <= c <= 'z' }

  /** Upper-cases the ASCII letters of `s` (the same text typed with Caps
      Lock on); every other character is kept. */
  function Upper(s: string): (r: string)
    ensures |r| == |s|
    ensures forall i :: 0 <= i < |s| && IsLower(s[i]) ==> r[i] as int == s[i] as int - ('a' as int - 'A' as int)
    ensures forall i :: 0 <= i < |s| && !IsLower(s[i]) ==> r[i] == s[i]
  {
    seq(|s|, i requires 0 <= i < |s| => if IsLower(s[i]) then (s[i] as int - 'a' as int + 'A' as int) as char else s[i])
  }

  /** Upper-cased text lower-cases to the same text as the original: every
      letter comes back to its lower-case form. */
  lemma LowerOfUpper(s: string)
    ensures Lower(Upper(s)) == Lower(s)
  {
    var u := Upper(s);
    forall i | 0 <= i < |s| ensures Lower(u)[i] == Lower(s)[i] {
      if IsLower(s[i]) {
        assert IsUpper(u[i]);
      }
    }
  }

  // ---------------------------------------------------------------------------
  // startsWith, endsWith, includes
  // ---------------------------------------------------------------------------

  /** `s.startsWith(p)`. */
  predicate StartsWith(s: string, p: string) { |p| <= |s| && s[..|p|] == p }

  /** `s.endsWith(p)`. */
  predicate EndsWith(s: string, p: string) { |p| <= |s| && s[|s| - |p|..] == p }

  /** `startsWith` compares the first |p| characters of `s` with `p`, one by one. */
  lemma StartsWithChars(s: string, p: string)
    ensures StartsWith(s, p) <==> |p| <= |s| && forall i :: 0 <= i < |p| ==> s[i] == p[i]
  {
    if |p| <= |s| && forall i :: 0 <= i < |p| ==> s[i] == p[i] {
      assert s[..|p|] == p;
    }
  }

  /** `endsWith` compares the last |p| characters of `s` with `p`, one by one. */
  lemma EndsWithChars(s: string, p: string)
    ensures EndsWith(s, p) <==> |p| <= |s| && forall i :: 0 <= i < |p| ==> s[|s| - |p| + i] == p[i]
  {
    if |p| <= |s| && forall i :: 0 <= i < |p| ==> s[|s| - |p| + i] == p[i] {
      assert s[|s| - |p|..] == p;
    }
  }

  /** `t` occurs in `s` starting at index `i`. */
  predicate OccursAt(s: string, t: string, i: nat) { i + |t| <= |s| && s[i..i + |t|] == t }

  /** `s.includes(t)`, scanning left to right. */
  predicate Includes(s: string, t: string): (found: bool)
    ensures StartsWith(s, t) ==> found
    ensures found ==> |t| <= |s|
    decreases |s|
  {
    StartsWith(s, t) || (|s| > 0 && Includes(s[1..], t))
  }

  /** `includes` holds exactly when some index is an occurrence. */
  lemma {:induction false} IncludesIffOccurs(s: string, t: string)
    ensures Includes(s, t) <==> exists i: nat :: OccursAt(s, t, i)
    decreases |s|
  {
    if StartsWith(s, t) {
      assert OccursAt(s, t, 0);
    } else if |s| > 0 {
      IncludesIffOccurs(s[1..], t);
      if exists i: nat :: OccursAt(s[1..], t, i) {
        var i: nat :| OccursAt(s[1..], t, i);
        assert s[i + 1..i + 1 + |t|] == s[1..][i..i + |t|];
        assert OccursAt(s, t, i + 1);
      }
      if exists i: nat :: OccursAt(s, t, i) {
        var i: nat :| OccursAt(s, t, i);
        assert i != 0;
        assert s[1..][i - 1..i - 1 + |t|] == s[i..i + |t|];
        assert OccursAt(s[1..], t, i - 1);
      }
    }
  }

  /** An occurrence survives being placed anywhere inside a longer string. */
  lemma IncludesInContext(a: string, s: string, b: string, t: string)
    requires Includes(s, t)
    ensures Includes(a + s + b, t)
  {
    IncludesIffOccurs(s, t);
    var i: nat :| OccursAt(s, t, i);
    assert (a + s + b)[|a| + i..|a| + i + |t|] == s[i..i + |t|];
    assert OccursAt(a + s + b, t, |a| + i);
    IncludesIffOccurs(a + s + b, t);
  }

  // ---------------------------------------------------------------------------
  // trim
  // ---------------------------------------------------------------------------

  /** The characters `String.prototype.trim` removes: the ECMAScript
      WhiteSpace and LineTerminator code points. */
  predicate IsSpace(c: char)
  {
    || c == '\t' || c == '\U{000B}' || c == '\U{000C}' || c == ' '
    || c == '\U{00A0}' || c == '\U{FEFF}' || c == '\U{1680}'
    || ('\U{2000}' <= c <= '\U{200A}') || c == '\U{202F}' || c == '\U{205F}' || c == '\U{3000}'
    || c == '\n' || c == '\r' || c == '\U{2028}' || c == '\U{2029}'
  }

  predicate AllSpace(s: string) { forall i :: 0 <= i < |s| ==> IsSpace(s[i]) }

  /** `s` with its leading white space removed. */
  function TrimStart(s: string): (r: string)
    ensures EndsWith(s, r)
    ensures AllSpace(s[..|s| - |r|])
    ensures r == [] || !IsSpace(r[0])
  {
    if |s| > 0 && IsSpace(s[0]) then
      var r := TrimStart(s[1..]);
      assert s[1..][..|s| - 1 - |r|] == s[1..|s| - |r|];
      r
    else s
  }

  /** `s` with its trailing white space removed. */
  function TrimEnd(s: string): (r: string)
    ensures StartsWith(s, r)
    ensures AllSpace(s[|r|..])
    ensures r == [] || !IsSpace(r[|r| - 1])
  {
    if |s| > 0 && IsSpace(s[|s| - 1]) then
      var r := TrimEnd(s[..|s| - 1]);
      assert s[..|s| - 1][..|r|] == s[..|r|];
      assert s[..|s| - 1][|r|..] == s[|r|..|s| - 1];
      assert s[|r|..] == s[|r|..|s| - 1] + [s[|s| - 1]];
      r
    else s
  }

  /** `s.trim()`: the slice of `s` left after dropping white space at both ends. */
  function Trim(s: string): (r: string)
    ensures exists k: nat :: OccursAt(s, r, k) && AllSpace(s[..k]) && AllSpace(s[k + |r|..])
    ensures r == [] || (!IsSpace(r[0]) && !IsSpace(r[|r| - 1]))
    ensures r == [] <==> AllSpace(s)
  {
    var t := TrimStart(s);
    var r := TrimEnd(t);
    TrimSlice(s, t, r);
    r
  }

  lemma TrimSlice(s: string, t: string, r: string)
    requires EndsWith(s, t) && AllSpace(s[..|s| - |t|])
    requires StartsWith(t, r) && AllSpace(t[|r|..])
    requires r == [] || !IsSpace(r[0])
    ensures OccursAt(s, r, |s| - |t|) && AllSpace(s[|s| - |t| + |r|..])
    ensures r == [] <==> AllSpace(s)
  {
    var k := |s| - |t|;
    assert s[k..k + |r|] == t[..|r|];
    assert s[k + |r|..] == t[|r|..];
    if r == [] {
      forall i | 0 <= i < |s| ensures IsSpace(s[i]) {
        if i < k { assert s[..k][i] == s[i]; } else { assert t[i - k] == s[i]; }
      }
    } else {
      assert s[k] == r[0];
    }
  }

  /** Trimming is idempotent: a trimmed string is its own trim. */
  lemma TrimIdempotent(s: string)
    ensures Trim(Trim(s)) == Trim(s)
  {
    var r := Trim(s);
    if r != [] {
      assert TrimStart(r) == r;
      assert TrimEnd(r) == r;
    }
  }

  // ---------------------------------------------------------------------------
  // split('\n') and its inverse join('\n')
  // ---------------------------------------------------------------------------

  predicate NoNewline(s: string) { forall i :: 0 <= i < |s| ==> s[i] != '\n' }

  /** `lines.join('\n')`. */
  function JoinLines(lines: seq<string>): string
  {
    if |lines| == 0 then ""
    else if |lines| == 1 then lines[0]
    else lines[0] + "\n" + JoinLines(lines[1..])
  }

  /** `s.split('\n')`: the maximal newline-free pieces between newlines,
      always at least one (an empty string splits into `[""]`). */
  function SplitLines(s: string): (r: seq<string>)
    ensures |r| >= 1
    ensures forall k :: 0 <= k < |r| ==> NoNewline(r[k])
  {
    if |s| == 0 then [""]
    else
      var rest := SplitLines(s[1..]);
      if s[0] == '\n' then [""] + rest
      else [[s[0]] + rest[0]] + rest[1..]
  }

  /** Splitting and re-joining gives the string back. */
  lemma {:induction false} JoinSplitLines(s: string)
    ensures JoinLines(SplitLines(s)) == s
  {
    if |s| > 0 {
      var rest := SplitLines(s[1..]);
      JoinSplitLines(s[1..]);
      if s[0] == '\n' {
        assert SplitLines(s)[1..] == rest;
      } else {
        var r := SplitLines(s);
        assert r[0] == [s[0]] + rest[0];
        if |rest| == 1 {
          assert s == [s[0]] + rest[0];
        } else {
          assert r[1..] == rest[1..];
          assert JoinLines(rest) == rest[0] + "\n" + JoinLines(rest[1..]);
          assert s == [s[0]] + s[1..];
        }
      }
    }
  }

  /** Joining newline-free lines and splitting again gives the lines back. */
  lemma {:induction false} SplitJoinLines(lines: seq<string>)
    requires |lines| >= 1
    requires forall k :: 0 <= k < |lines| ==> NoNewline(lines[k])
    ensures SplitLines(JoinLines(lines)) == lines
    decreases |lines|, |lines[0]|
  {
    var s := JoinLines(lines);
    if |lines[0]| == 0 {
      if |lines| > 1 {
        assert s == "\n" + JoinLines(lines[1..]);
        assert s[1..] == JoinLines(lines[1..]);
        SplitJoinLines(lines[1..]);
      }
    } else {
      var tail := [lines[0][1..]] + lines[1..];
      assert tail[1..] == lines[1..];
      SplitJoinLines(tail);
      assert lines[0][0] != '\n';
      if |lines| == 1 {
        assert s[1..] == JoinLines(tail);
      } else {
        assert s == [lines[0][0]] + (lines[0][1..] + "\n" + JoinLines(lines[1..]));
        assert s[1..] == JoinLines(tail);
      }
      assert lines[0] == [lines[0][0]] + tail[0];
    }
  }

  // ---------------------------------------------------------------------------
  // global replace of "**" by ""
  // ---------------------------------------------------------------------------

  /** `s` contains no two adjacent asterisks. */
  predicate NoDoubleStar(s: string)
  {
    forall i :: 0 <= i < |s| - 1 ==> !(s[i] == '*' && s[i + 1] == '*')
  }

  /** The characters of `s` other than `*`, in order. */
  function NonStars(s: string): string
  {
    if |s| == 0 then "" else (if s[0] == '*' then "" else [s[0]]) + NonStars(s[1..])
  }

  /** The global replace of "**" by "": removes every "**", matched left to right
      without overlap (so "***" leaves one `*`). */
  function StripDoubleStars(s: string): (r: string)
    ensures NoDoubleStar(r)
    ensures NonStars(r) == NonStars(s)
    ensures |r| <= |s| && (|s| - |r|) % 2 == 0
    ensures |s| > 0 && s[0] != '*' ==> |r| > 0 && r[0] == s[0]
  {
    if |s| >= 2 && s[0] == '*' && s[1] == '*' then
      var r := StripDoubleStars(s[2..]);
      assert NonStars(s) == NonStars(s[2..]) by { assert s[1..][1..] == s[2..]; }
      r
    else if |s| == 0 then ""
    else
      var t := StripDoubleStars(s[1..]);
      StarCons(s[0], t);
      [s[0]] + t
  }

  /** Putting one character in front of a string without "**" that does not
      start with `*` after a `*`. */
  lemma StarCons(c: char, t: string)
    requires NoDoubleStar(t)
    requires c == '*' ==> t == [] || t[0] != '*'
    ensures NoDoubleStar([c] + t)
    ensures NonStars([c] + t) == (if c == '*' then "" else [c]) + NonStars(t)
  {
    assert ([c] + t)[1..] == t;
  }

  /** `n` asterisks. */
  function Stars(n: nat): (r: string)
    ensures |r| == n && forall i :: 0 <= i < n ==> r[i] == '*'
  {
    seq(n, _ => '*')
  }

  /** The length of the run of asterisks that `s` starts with. */
  function LeadingStars(s: string): (n: nat)
    ensures n <= |s| && s[..n] == Stars(n)
    ensures n == |s| || s[n] != '*'
  {
    if s != [] && s[0] == '*' then
      var m := LeadingStars(s[1..]);
      assert s[..1 + m] == [s[0]] + s[1..][..m];
      1 + m
    else 0
  }

  /** The replace stated run by run: every maximal run of n asterisks becomes
      n mod 2 asterisks in its place, and every other character is kept. */
  function CollapseStarRuns(s: string): string
    decreases |s|
  {
    if s == [] then []
    else if s[0] == '*' then
      var n := LeadingStars(s);
      Stars(n % 2) + CollapseStarRuns(s[n..])
    else [s[0]] + CollapseStarRuns(s[1..])
  }

  lemma {:induction false} StripStarRun(n: nat, t: string)
    requires t == [] || t[0] != '*'
    ensures StripDoubleStars(Stars(n) + t) == Stars(n % 2) + StripDoubleStars(t)
    decreases n
  {
    var u := Stars(n) + t;
    if n >= 2 {
      assert u[0] == '*' && u[1] == '*';
      assert StripDoubleStars(u) == StripDoubleStars(u[2..]);
      assert u[2..] == Stars(n - 2) + t;
      StripStarRun(n - 2, t);
      assert n % 2 == (n - 2) % 2;
    } else if n == 1 {
      assert u == ['*'] + t;
      assert u[1..] == t;
      assert StripDoubleStars(u) == [u[0]] + StripDoubleStars(u[1..]);
    } else {
      assert u == t;
    }
  }

  /** The global replace of "**" turns each maximal run of asterisks into its
      parity in asterisks: "***a***" becomes "*a*". */
  lemma {:induction false} StripIsCollapse(s: string)
    ensures StripDoubleStars(s) == CollapseStarRuns(s)
    decreases |s|
  {
    if s != [] {
      if s[0] == '*' {
        var n := LeadingStars(s);
        assert s == Stars(n) + s[n..];
        StripStarRun(n, s[n..]);
        StripIsCollapse(s[n..]);
      } else {
        StripIsCollapse(s[1..]);
      }
    }
  }

  /** The heading "***a***" is shown as "*a*". */
  lemma StripOddRuns()
    ensures StripDoubleStars("***a***") == "*a*"
  {
    StripStarRun(3, "a***");
    StripStarRun(3, "");
    assert "***a***" == Stars(3) + "a***";
    assert "a***" == ['a'] + Stars(3) + "";
    assert StripDoubleStars("a***") == ['a'] + StripDoubleStars("***");
  }

  /** A string with no "**" is left unchanged; hence stripping is idempotent. */
  lemma {:induction false} StripDoubleStarsNoop(s: string)
    requires NoDoubleStar(s)
    ensures StripDoubleStars(s) == s
  {
    if |s| > 0 {
      assert NoDoubleStar(s[1..]);
      StripDoubleStarsNoop(s[1..]);
    }
  }

  lemma StripDoubleStarsIdempotent(s: string)
    ensures StripDoubleStars(StripDoubleStars(s)) == StripDoubleStars(s)
  {
    StripDoubleStarsNoop(StripDoubleStars(s));
  }
}
