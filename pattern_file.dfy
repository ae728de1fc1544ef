/**
  Reading the regular-expression pattern file (load_regex_patterns): every
  line is stripped of surrounding whitespace, and blank lines and lines
  starting with '#' are dropped. The file is given as its sequence of lines.
 */
module PatternFile {

  /** The characters Python's str.strip() removes by default (str.isspace). */
  predicate IsSpace(c: char)
  {
    var n := c as int;
    (9 <= n <= 13) || (28 <= n <= 32) || n == 0x85 || n == 0xA0 || n == 0x1680
    || (0x2000 <= n <= 0x200A) || n == 0x2028 || n == 0x2029 || n == 0x202F
    || n == 0x205F || n == 0x3000
  }

  /** The index of the first non-whitespace character of s at or after i, or |s| if there is none. */
  function SkipSpaces(s: string, i: nat): (k: nat)
    requires i <= |s|
    ensures i <= k <= |s|
    ensures k == |s| || !IsSpace(s[k])
    ensures forall j | i <= j < k :: IsSpace(s[j])
    decreases |s| - i
  {
    if i < |s| && IsSpace(s[i]) then SkipSpaces(s, i + 1) else i
  }

  /** The end of s[lo..hi] once its trailing whitespace is cut off. */
  function CutSpaces(s: string, lo: nat, hi: nat): (k: nat)
    requires lo <= hi <= |s|
    ensures lo <= k <= hi
    ensures k == lo || !IsSpace(s[k - 1])
    ensures forall j | k <= j < hi :: IsSpace(s[j])
    decreases hi
  {
    if lo < hi && IsSpace(s[hi - 1]) then CutSpaces(s, lo, hi - 1) else hi
  }

  /** r is the slice of s at offset k, and everything of s around it is whitespace. */
  predicate PaddedBy(s: string, k: int, r: string)
  {
    0 <= k <= |s| - |r| && r == s[k..k + |r|]
    && (forall i | 0 <= i < k :: IsSpace(s[i]))
    && (forall i | k + |r| <= i < |s| :: IsSpace(s[i]))
  }

  /** str.strip(): cuts off all leading and trailing whitespace. */
  function Strip(s: string): string
  {
    var lo := SkipSpaces(s, 0);
    s[lo..CutSpaces(s, lo, |s|)]
  }

  /** What Strip leaves has no whitespace at either end. */
  lemma StripEnds(s: string)
    ensures Strip(s) == [] || (!IsSpace(Strip(s)[0]) && !IsSpace(Strip(s)[|Strip(s)| - 1]))
  {
  }

  /** What Strip leaves is the slice of the line after its leading whitespace, with only whitespace after it. */
  lemma StripPadded(s: string)
    ensures PaddedBy(s, SkipSpaces(s, 0), Strip(s))
  {
  }

  /** Stripping a stripped line changes nothing. */
  lemma StripIdempotent(s: string)
    ensures Strip(Strip(s)) == Strip(s)
  {
    var r := Strip(s);
    StripEnds(s);
    assert SkipSpaces(r, 0) == 0;
    assert CutSpaces(r, 0, |r|) == |r|;
    assert r[0..|r|] == r;
  }

  /** A stripped line is kept when it is non-empty and does not start with '#'. */
  predicate IsPattern(line: string)
  {
    |line| > 0 && line[0] != '#'
  }

  /** The patterns of a file: its kept stripped lines, in file order. */
  function KeptLines(lines: seq<string>): seq<string>
  {
    if lines == [] then []
    else
      var t := Strip(lines[|lines| - 1]);
      KeptLines(lines[..|lines| - 1]) + (if IsPattern(t) then [t] else [])
  }

  /** load_regex_patterns: one pass over the lines, appending each kept one. */
  method LoadRegexPatterns(lines: seq<string>) returns (patterns: seq<string>)
    ensures patterns == KeptLines(lines)
  {
    patterns := [];
    var i := 0;
    while i < |lines|
      invariant 0 <= i <= |lines|
      invariant patterns == KeptLines(lines[..i])
    {
      var line := Strip(lines[i]);
      if IsPattern(line) {
        patterns := patterns + [line];
      }
      assert lines[..i + 1][..i] == lines[..i];
      i := i + 1;
    }
    assert lines[..|lines|] == lines;
  }

  /** Filtering keeps the file order: the patterns of two concatenated files are the concatenation. */
  lemma {:induction false} KeptLinesConcat(a: seq<string>, b: seq<string>)
    ensures KeptLines(a + b) == KeptLines(a) + KeptLines(b)
    decreases |b|
  {
    if b == [] {
      assert a + b == a;
    } else {
      var b' := b[..|b| - 1];
      assert (a + b)[..|a + b| - 1] == a + b';
      assert (a + b)[|a + b| - 1] == b[|b| - 1];
      KeptLinesConcat(a, b');
    }
  }

  /** A string is a pattern exactly when it is a kept stripped line of the file. */
  lemma {:induction false} KeptLinesMembers(lines: seq<string>, p: string)
    ensures p in KeptLines(lines) <==> exists i :: 0 <= i < |lines| && Strip(lines[i]) == p && IsPattern(p)
  {
    if lines != [] {
      var init := lines[..|lines| - 1];
      KeptLinesMembers(init, p);
      if p in KeptLines(lines) && p !in KeptLines(init) {
        assert Strip(lines[|lines| - 1]) == p;
      }
      if exists i :: 0 <= i < |lines| && Strip(lines[i]) == p && IsPattern(p) {
        var i :| 0 <= i < |lines| && Strip(lines[i]) == p && IsPattern(p);
        if i < |lines| - 1 {
          assert init[i] == lines[i];
        }
      }
    }
  }

  /** Every pattern is a kept line that stripping leaves alone. */
  lemma {:induction false} KeptLinesClean(lines: seq<string>)
    ensures forall p | p in KeptLines(lines) :: IsPattern(p) && Strip(p) == p
  {
    if lines != [] {
      KeptLinesClean(lines[..|lines| - 1]);
      StripIdempotent(lines[|lines| - 1]);
    }
  }
}
