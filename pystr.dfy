/**
 * The few Python `str` operations that the endpoint extraction relies on:
 * `strip()`, `split(sep)`, `list[-1]` and `replace(c, "")`.
 * A Python string is a sequence of code points, here `seq<char>`.
 */
module PyStr {
  import opened Wrappers

  /** The code points for which Python's `str.isspace` holds, the characters
      `strip()` removes when it is given no argument: U+0009 to U+000D, U+001C to
      U+0020, U+0085, U+00A0, U+1680, U+2000 to U+200A, U+2028, U+2029, U+202F,
      U+205F and U+3000. */
  const Whitespace: set<char> := {
    '\U{9}', '\U{A}', '\U{B}', '\U{C}', '\U{D}', '\U{1C}', '\U{1D}', '\U{1E}',
    '\U{1F}', '\U{20}', '\U{85}', '\U{A0}', '\U{1680}', '\U{2000}', '\U{2001}', '\U{2002}',
    '\U{2003}', '\U{2004}', '\U{2005}', '\U{2006}', '\U{2007}', '\U{2008}', '\U{2009}', '\U{200A}',
    '\U{2028}', '\U{2029}', '\U{202F}', '\U{205F}', '\U{3000}'}

  /** `s.lstrip(chars)`: drops the leading characters that are in `chars`. */
  function LStrip(s: string, chars: set<char>): string {
    if s != [] && s[0] in chars then LStrip(s[1..], chars) else s
  }

  /** `s.rstrip(chars)`: drops the trailing characters that are in `chars`. */
  function RStrip(s: string, chars: set<char>): string {
    if s != [] && s[|s| - 1] in chars then RStrip(s[..|s| - 1], chars) else s
  }

  /** `s.strip(chars)`. */
  function StripChars(s: string, chars: set<char>): string {
    RStrip(LStrip(s, chars), chars)
  }

  /** `s.strip()`. */
  function Strip(s: string): string {
    StripChars(s, Whitespace)
  }

  /** `lstrip` keeps a suffix: it removes characters of `chars` only, and all of
      the leading ones. */
  lemma {:induction false} LStripKeepsSuffix(s: string, chars: set<char>)
    ensures var r := LStrip(s, chars);
      |r| <= |s| && r == s[|s| - |r|..] &&
      (forall k :: 0 <= k < |s| - |r| ==> s[k] in chars) &&
      (r == [] || r[0] !in chars)
  {
    if s != [] && s[0] in chars {
      LStripKeepsSuffix(s[1..], chars);
      var r := LStrip(s, chars);
      forall k | 0 <= k < |s| - |r| ensures s[k] in chars {
        if k > 0 {
          assert s[k] == s[1..][k - 1];
        }
      }
    }
  }

  /** `rstrip` keeps a prefix: it removes characters of `chars` only, and all of
      the trailing ones. */
  lemma {:induction false} RStripKeepsPrefix(s: string, chars: set<char>)
    ensures var r := RStrip(s, chars);
      |r| <= |s| && r == s[..|r|] &&
      (forall k :: |r| <= k < |s| ==> s[k] in chars) &&
      (r == [] || r[|r| - 1] !in chars)
  {
    if s != [] && s[|s| - 1] in chars {
      var s' := s[..|s| - 1];
      RStripKeepsPrefix(s', chars);
      var r := RStrip(s, chars);
      assert r == s'[..|r|];
      forall k | |r| <= k < |s| ensures s[k] in chars {
        if k < |s| - 1 {
          assert s[k] == s'[k];
        }
      }
    }
  }

  /** `strip` returns the piece `s[i..i + |r|]` of its input that has only
      characters of `chars` around it. */
  lemma StripPiece(s: string, chars: set<char>)
    ensures var r, i := StripChars(s, chars), |s| - |LStrip(s, chars)|;
      0 <= i && i + |r| <= |s| && r == s[i..i + |r|] &&
      (forall k :: 0 <= k < i ==> s[k] in chars) &&
      (forall k :: i + |r| <= k < |s| ==> s[k] in chars)
  {
    var l := LStrip(s, chars);
    var r := StripChars(s, chars);
    var i := |s| - |l|;
    LStripKeepsSuffix(s, chars);
    RStripKeepsPrefix(l, chars);
    assert r == s[i..i + |r|];
    forall k | i + |r| <= k < |s| ensures s[k] in chars {
      assert s[k] == l[k - i];
    }
  }

  /** What `strip` returns neither starts nor ends with a character of `chars`. */
  lemma StripEnds(s: string, chars: set<char>)
    ensures var r := StripChars(s, chars); r == [] || (r[0] !in chars && r[|r| - 1] !in chars)
  {
    var l := LStrip(s, chars);
    var r := StripChars(s, chars);
    LStripKeepsSuffix(s, chars);
    RStripKeepsPrefix(l, chars);
    if r != [] {
      assert r[0] == l[0];
    }
  }

  /** A string that neither starts nor ends with a character of `chars` is its own `strip`. */
  lemma StripKeeps(s: string, chars: set<char>)
    requires s == [] || (s[0] !in chars && s[|s| - 1] !in chars)
    ensures StripChars(s, chars) == s
  {
    if s != [] {
      assert LStrip(s, chars) == s;
    }
  }

  /** Stripping twice is stripping once. */
  lemma StripIdempotent(s: string, chars: set<char>)
    ensures StripChars(StripChars(s, chars), chars) == StripChars(s, chars)
  {
    StripEnds(s, chars);
    StripKeeps(StripChars(s, chars), chars);
  }

  /** `sep` occurs in `s` starting at index `i`. */
  predicate Occurs(s: string, sep: string, i: int) {
    0 <= i && i + |sep| <= |s| && s[i..i + |sep|] == sep
  }

  /** `s` holds no occurrence of `sep`. */
  ghost predicate Free(s: string, sep: string) {
    forall j :: !Occurs(s, sep, j)
  }

  /** The first occurrence of `sep` in `s` at or after `from`, as `str.find` scans. */
  function FindFrom(s: string, sep: string, from: nat): (r: Option<nat>)
    requires |sep| > 0
    decreases |s| - from
    ensures r.Some? ==> from <= r.value && r.value + |sep| <= |s|
  {
    if from + |sep| > |s| then None
    else if s[from..from + |sep|] == sep then Some(from)
    else FindFrom(s, sep, from + 1)
  }

  /** The scan finds the first occurrence at or after `from`, and finds nothing
      exactly when there is none. */
  lemma {:induction false} FindFromFirst(s: string, sep: string, from: nat)
    requires |sep| > 0
    decreases |s| - from
    ensures var r := FindFrom(s, sep, from);
      (r.Some? ==> Occurs(s, sep, r.value) && forall j :: from <= j < r.value ==> !Occurs(s, sep, j)) &&
      (r.None? ==> forall j :: from <= j ==> !Occurs(s, sep, j))
  {
    if from + |sep| <= |s| && s[from..from + |sep|] != sep {
      FindFromFirst(s, sep, from + 1);
      var r := FindFrom(s, sep, from);
      assert !Occurs(s, sep, from);
      if r.Some? {
        forall j | from <= j < r.value ensures !Occurs(s, sep, j) {
          if j != from {
            assert from + 1 <= j;
          }
        }
      } else {
        forall j | from <= j ensures !Occurs(s, sep, j) {
          if j != from {
            assert from + 1 <= j;
          }
        }
      }
    }
  }

  /** The pieces of `s.split(sep)` from `start` on: as CPython splits, the next
      occurrence is found, the text before it is cut off, and the scan resumes
      right after it. */
  function SplitAt(s: string, sep: string, start: nat): (parts: seq<string>)
    requires |sep| > 0 && start <= |s|
    decreases |s| - start
    ensures |parts| >= 1
  {
    match FindFrom(s, sep, start)
    case None => [s[start..]]
    case Some(f) => [s[start..f]] + SplitAt(s, sep, f + |sep|)
  }

  /** `s.split(sep)`. */
  function SplitOn(s: string, sep: string): (parts: seq<string>)
    requires |sep| > 0
  {
    SplitAt(s, sep, 0)
  }

  /** `sep.join(parts)`, the inverse of `SplitOn`. */
  function Join(parts: seq<string>, sep: string): string
    decreases |parts|
  {
    if |parts| == 0 then ""
    else if |parts| == 1 then parts[0]
    else parts[0] + sep + Join(parts[1..], sep)
  }

  /** `list[-1]` on a non-empty list. */
  function Last(parts: seq<string>): string
    requires |parts| > 0
  {
    parts[|parts| - 1]
  }

  /** `s.replace(c, "")` for a one-character `c`: every `c` removed, the rest kept. */
  function RemoveAll(s: string, c: char): string {
    if s == [] then [] else (if s[0] == c then [] else [s[0]]) + RemoveAll(s[1..], c)
  }

  /** `replace(c, "")` leaves no `c` and every other character as often as before,
      and changes nothing in a string without `c`. */
  lemma {:induction false} RemoveAllCounts(s: string, c: char)
    ensures c !in RemoveAll(s, c)
    ensures multiset(RemoveAll(s, c)) == multiset(s)[c := 0]
    ensures c !in s ==> RemoveAll(s, c) == s
  {
    if s != [] {
      RemoveAllCounts(s[1..], c);
      assert s == [s[0]] + s[1..];
    }
  }

  /** `replace` distributes over concatenation. */
  lemma {:induction false} RemoveAllAppend(a: string, b: string, c: char)
    ensures RemoveAll(a + b, c) == RemoveAll(a, c) + RemoveAll(b, c)
  {
    if a == [] {
      assert a + b == b;
    } else {
      assert (a + b)[0] == a[0];
      assert (a + b)[1..] == a[1..] + b;
      RemoveAllAppend(a[1..], b, c);
    }
  }

  /** An occurrence inside a prefix is an occurrence in the whole string, and back. */
  lemma OccursPrefix(s: string, sep: string, n: nat, j: int)
    requires n <= |s|
    ensures Occurs(s[..n], sep, j) <==> Occurs(s, sep, j) && j + |sep| <= n
  {
    if 0 <= j && j + |sep| <= n {
      assert s[..n][j..j + |sep|] == s[j..j + |sep|];
    }
  }

  /** An occurrence inside a suffix starting at `m` is an occurrence at `m + j` of the whole. */
  lemma OccursSuffix(s: string, sep: string, m: nat, j: int)
    requires m <= |s|
    ensures Occurs(s[m..], sep, j) <==> 0 <= j && Occurs(s, sep, m + j)
  {
    if 0 <= j && m + j + |sep| <= |s| {
      assert s[m..][j..j + |sep|] == s[m + j..m + j + |sep|];
    }
  }

  /** Joining the pieces scanned from `start` gives back `s[start..]`. */
  lemma {:induction false} SplitAtJoin(s: string, sep: string, start: nat)
    requires |sep| > 0 && start <= |s|
    decreases |s| - start
    ensures Join(SplitAt(s, sep, start), sep) == s[start..]
  {
    match FindFrom(s, sep, start)
    case None =>
    case Some(f) =>
      var next := f + |sep|;
      var tail := SplitAt(s, sep, next);
      SplitAtJoin(s, sep, next);
      var parts := [s[start..f]] + tail;
      assert parts[0] == s[start..f] && parts[1..] == tail;
      assert Join(parts, sep) == s[start..f] + sep + s[next..];
      assert s[f..next] == sep by {
        FindFromFirst(s, sep, start);
      }
      assert s[start..next] == s[start..f] + s[f..next];
      assert s[start..] == s[start..next] + s[next..];
  }

  /** Joining the pieces of a split with the same separator gives the string back. */
  lemma SplitOnJoin(s: string, sep: string)
    requires |sep| > 0
    ensures Join(SplitOn(s, sep), sep) == s
  {
    SplitAtJoin(s, sep, 0);
  }

  /** The first piece of a split is the prefix before the first occurrence of `sep`
      (the whole string when there is none); it holds no `sep`. */
  lemma FirstPiece(s: string, sep: string)
    requires |sep| > 0
    ensures var p := SplitOn(s, sep)[0];
      |p| <= |s| && p == s[..|p|] && Free(p, sep) && (|p| < |s| ==> Occurs(s, sep, |p|))
  {
    var p := SplitOn(s, sep)[0];
    FindFromFirst(s, sep, 0);
    match FindFrom(s, sep, 0)
    case None =>
      assert p == s;
    case Some(f) =>
      assert p == s[..f];
    forall j ensures !Occurs(p, sep, j) { OccursPrefix(s, sep, |p|, j); }
  }

  /** The last piece scanned from `start` is a suffix of `s` that starts at or after `start`. */
  lemma {:induction false} LastAtSuffix(s: string, sep: string, start: nat)
    requires |sep| > 0 && start <= |s|
    decreases |s| - start
    ensures var a := Last(SplitAt(s, sep, start));
      start + |a| <= |s| && a == s[|s| - |a|..]
  {
    match FindFrom(s, sep, start)
    case None =>
      assert Last(SplitAt(s, sep, start)) == s[start..];
    case Some(f) =>
      var next := f + |sep|;
      assert Last(SplitAt(s, sep, start)) == Last(SplitAt(s, sep, next)) by {
        var tail := SplitAt(s, sep, next);
        assert SplitAt(s, sep, start) == [s[start..f]] + tail;
      }
      LastAtSuffix(s, sep, next);
  }

  /** No occurrence of `sep` starts inside the last piece, and the piece either starts
      at `start` or right after an occurrence. */
  lemma {:induction false} LastAtBoundary(s: string, sep: string, start: nat)
    requires |sep| > 0 && start <= |s|
    decreases |s| - start
    ensures var k := |s| - |Last(SplitAt(s, sep, start))|;
      (forall j :: k <= j ==> !Occurs(s, sep, j)) &&
      (k == start || (k >= |sep| && Occurs(s, sep, k - |sep|)))
  {
    match FindFrom(s, sep, start)
    case None =>
      assert Last(SplitAt(s, sep, start)) == s[start..];
      assert forall j :: start <= j ==> !Occurs(s, sep, j) by {
        FindFromFirst(s, sep, start);
      }
    case Some(f) =>
      var next := f + |sep|;
      assert Last(SplitAt(s, sep, start)) == Last(SplitAt(s, sep, next)) by {
        var tail := SplitAt(s, sep, next);
        assert SplitAt(s, sep, start) == [s[start..f]] + tail;
      }
      assert next <= |s| - |Last(SplitAt(s, sep, next))| by {
        LastAtSuffix(s, sep, next);
      }
      assert Occurs(s, sep, f) by {
        FindFromFirst(s, sep, start);
      }
      LastAtBoundary(s, sep, next);
  }

  /** The last piece of a split is the suffix after the last occurrence of `sep`:
      the whole string exactly when there is no occurrence, and otherwise preceded
      by one; it holds no `sep`. */
  lemma LastPiece(s: string, sep: string)
    requires |sep| > 0
    ensures var a := Last(SplitOn(s, sep));
      |a| <= |s| && a == s[|s| - |a|..] && Free(a, sep) &&
      (a == s <==> Free(s, sep)) &&
      (a != s ==> |a| + |sep| <= |s| && Occurs(s, sep, |s| - |a| - |sep|))
  {
    LastAtSuffix(s, sep, 0);
    LastAtBoundary(s, sep, 0);
    var a := Last(SplitOn(s, sep));
    var k := |s| - |a|;
    forall j ensures !Occurs(a, sep, j) { OccursSuffix(s, sep, k, j); }
  }
}
