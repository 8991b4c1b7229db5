/** The JavaScript string operations the catalogue filter and the
    gateway rely on, on strings as sequences of characters (Unicode scalar
    values, so a lone surrogate code unit has no counterpart here). */
module JsStrings {
  import opened Wrappers

  predicate StartsWith(s: string, p: string)
  {
    |p| <= |s| && s[..|p|] == p
  }

  predicate MatchesAt(s: string, p: string, i: nat)
  {
    i + |p| <= |s| && s[i..i + |p|] == p
  }

  /** `s.indexOf(p, from)`: the first position at or after `from` where
      `p` occurs. */
  function IndexOf(s: string, p: string, from: nat): (r: Option<nat>)
    requires from <= |s|
    ensures r.Some? ==> from <= r.value && MatchesAt(s, p, r.value) &&
                        forall j :: from <= j < r.value ==> !MatchesAt(s, p, j)
    ensures r.None? ==> forall j :: from <= j ==> !MatchesAt(s, p, j)
    decreases |s| - from
  {
    if from + |p| > |s| then None
    else if s[from..from + |p|] == p then Some(from)
    else if from == |s| then None
    else IndexOf(s, p, from + 1)
  }

  /** `s.includes(p)`. */
  predicate Includes(s: string, p: string)
  {
    IndexOf(s, p, 0).Some?
  }

  lemma IncludesIff(s: string, p: string)
    ensures Includes(s, p) <==> exists i :: 0 <= i <= |s| && MatchesAt(s, p, i)
  {
    if !Includes(s, p) {
      assert forall i :: 0 <= i ==> !MatchesAt(s, p, i);
    }
  }

  /** Every string includes the empty string. */
  lemma IncludesEmpty(s: string)
    ensures Includes(s, "")
  {
    assert MatchesAt(s, "", 0);
  }

  /** `s.replace(p, q)` with a string pattern: only the first occurrence
      is replaced. */
  function ReplaceFirst(s: string, p: string, q: string): string
  {
    match IndexOf(s, p, 0)
    case None => s
    case Some(i) => s[..i] + q + s[i + |p|..]
  }

  /** Replacing a prefix by nothing drops that prefix. */
  lemma ReplacePrefix(s: string, p: string)
    requires StartsWith(s, p)
    ensures ReplaceFirst(s, p, "") == s[|p|..]
  {
    assert MatchesAt(s, p, 0);
  }

  /** The characters `String.prototype.trim` removes: the ECMAScript
      WhiteSpace and LineTerminator code points. */
  predicate IsWhite(c: char)
  {
    || c == '\t' || c == '\U{000B}' || c == '\U{000C}' || c == ' ' || c == '\U{00A0}'
    || c == '\U{FEFF}' || c == '\n' || c == '\r' || c == '\U{2028}' || c == '\U{2029}'
    || c == '\U{1680}' || ('\U{2000}' <= c <= '\U{200A}') || c == '\U{202F}' || c == '\U{205F}'
    || c == '\U{3000}'
  }

  function TrimStart(s: string): (r: string)
    ensures |r| <= |s| && r == s[|s| - |r|..]
    ensures r == [] || !IsWhite(r[0])
    ensures forall k :: 0 <= k < |s| - |r| ==> IsWhite(s[k])
  {
    if s != [] && IsWhite(s[0]) then TrimStart(s[1..]) else s
  }

  function TrimEnd(s: string): (r: string)
    ensures |r| <= |s| && r == s[..|r|]
    ensures r == [] || !IsWhite(r[|r| - 1])
    ensures forall k :: |r| <= k < |s| ==> IsWhite(s[k])
  {
    if s != [] && IsWhite(s[|s| - 1]) then TrimEnd(s[..|s| - 1]) else s
  }

  /** `s.trim()`. */
  function Trim(s: string): string
  {
    TrimEnd(TrimStart(s))
  }

  /** Trimming the front leaves nothing exactly when all is white space. */
  lemma TrimStartEmptyIff(s: string)
    ensures TrimStart(s) == "" <==> forall k :: 0 <= k < |s| ==> IsWhite(s[k])
  {
    var r := TrimStart(s);
    if r != "" {
      assert r[0] == s[|s| - |r|];
    }
  }

  /** A string trims to nothing exactly when it is all white space. */
  lemma TrimEmptyIff(s: string)
    ensures Trim(s) == "" <==> forall k :: 0 <= k < |s| ==> IsWhite(s[k])
  {
    TrimStartEmptyIff(s);
    var t := TrimStart(s);
    if t != "" {
      assert !IsWhite(t[0]);
      assert TrimEnd(t) != "";
    }
  }

  /** `s.split('\n')`. */
  function SplitLines(s: string): (r: seq<string>)
    ensures |r| >= 1
    ensures forall k :: 0 <= k < |r| ==> '\n' !in r[k]
    decreases |s|
  {
    match IndexOf(s, "\n", 0)
    case None =>
      assert forall k :: 0 <= k < |s| ==> s[k] != '\n' by {
        forall k | 0 <= k < |s| ensures s[k] != '\n' {
          assert !MatchesAt(s, "\n", k);
          assert s[k..k + 1] == [s[k]];
        }
      }
      [s]
    case Some(i) =>
      assert forall k :: 0 <= k < i ==> s[k] != '\n' by {
        forall k | 0 <= k < i ensures s[k] != '\n' {
          assert !MatchesAt(s, "\n", k);
          assert s[k..k + 1] == [s[k]];
        }
      }
      [s[..i]] + SplitLines(s[i + 1..])
  }

  /** A text without a line break splits into itself alone. */
  lemma NoBreak(line: string)
    requires '\n' !in line
    ensures SplitLines(line) == [line]
  {
    forall j | 0 <= j ensures !MatchesAt(line, "\n", j) {
      if j + 1 <= |line| {
        assert line[j..j + 1] == [line[j]];
      }
    }
  }

  /** The first piece ends at the first line break. */
  lemma FirstBreak(line: string, rest: string)
    requires '\n' !in line
    ensures SplitLines(line + "\n" + rest) == [line] + SplitLines(rest)
  {
    var s := line + "\n" + rest;
    assert s[|line|..|line| + 1] == "\n";
    assert MatchesAt(s, "\n", |line|);
    forall j | 0 <= j < |line| ensures !MatchesAt(s, "\n", j) {
      assert s[j..j + 1] == [line[j]];
    }
    assert IndexOf(s, "\n", 0) == Some(|line|);
    assert s[..|line|] == line;
    assert s[|line| + 1..] == rest;
  }

  /** `lines.join('\n')`. */
  function JoinLines(lines: seq<string>): string
    requires |lines| >= 1
  {
    if |lines| == 1 then lines[0] else lines[0] + "\n" + JoinLines(lines[1..])
  }

  /** Splitting at line breaks loses nothing: joining the pieces gives the
      text back. */
  lemma {:induction false} SplitJoin(s: string)
    ensures JoinLines(SplitLines(s)) == s
    decreases |s|
  {
    match IndexOf(s, "\n", 0)
    case None =>
    case Some(i) =>
      var rest := SplitLines(s[i + 1..]);
      assert SplitLines(s) == [s[..i]] + rest;
      assert ([s[..i]] + rest)[1..] == rest;
      assert JoinLines(SplitLines(s)) == s[..i] + "\n" + JoinLines(rest);
      SplitJoin(s[i + 1..]);
      assert s[i] == '\n' by {
        assert MatchesAt(s, "\n", i);
        assert s[i..i + 1] == "\n";
      }
      assert s == s[..i] + "\n" + s[i + 1..];
  }

  /** ASCII `toLowerCase`. */
  function LowerChar(c: char): char
  {
    if 'A' <= c <= 'Z' then (c as int + 32) as char else c
  }

  /** No capital letter is left, each capital becomes its small letter,
      and every other character is kept. */
  function ToLower(s: string): (r: string)
    ensures |r| == |s|
    ensures forall k :: 0 <= k < |r| ==> !('A' <= r[k] <= 'Z')
    ensures forall k :: 0 <= k < |s| && 'A' <= s[k] <= 'Z' ==> r[k] as int == s[k] as int + 32
    ensures forall k :: 0 <= k < |s| && !('A' <= s[k] <= 'Z') ==> r[k] == s[k]
  {
    seq(|s|, k requires 0 <= k < |s| => LowerChar(s[k]))
  }

  /** Lowering twice is lowering once. */
  lemma LowerIdempotent(s: string)
    ensures ToLower(ToLower(s)) == ToLower(s)
  {
    assert forall k :: 0 <= k < |s| ==> LowerChar(LowerChar(s[k])) == LowerChar(s[k]);
  }
}
