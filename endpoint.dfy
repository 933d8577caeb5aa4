/**
 * The endpoint extractor of `is_a_new_url`: which output lines are endpoint
 * announcements, how such a line falls apart at its `=>`, and how the host and
 * the port are cut out of the two halves.
 */
module Endpoint {
  import opened Wrappers
  import opened PyStr

  /** The separator between the exposed host and the local address. */
  const Arrow: string := "=>"

  /** An `=>` at `p` with one character other than a newline on each side of it:
      a place where the pattern `(.+)=>(.+)` can match, since `.` matches any
      character except a newline and each group needs at least one. */
  predicate ArrowInContext(s: string, p: int) {
    1 <= p && p + 3 <= |s| && Occurs(s, Arrow, p) && s[p - 1] != '\n' && s[p + 2] != '\n'
  }

  /** The regex search for `(.+)=>(.+)`, scanning the candidate positions from `p` on. */
  function SearchFrom(s: string, p: nat): bool
    decreases |s| - p
  {
    if p + 3 > |s| then false else ArrowInContext(s, p) || SearchFrom(s, p + 1)
  }

  /** `re.search("(.+)=>(.+)", s)` succeeds. */
  function RegexSearch(s: string): bool {
    SearchFrom(s, 0)
  }

  /** The scan from `p` finds a match exactly when some `=>` at or after `p` has a
      non-newline character on each side. */
  lemma {:induction false} SearchFromFinds(s: string, p: nat)
    decreases |s| - p
    ensures SearchFrom(s, p) <==> exists q :: p <= q && ArrowInContext(s, q)
  {
    if p + 3 <= |s| {
      SearchFromFinds(s, p + 1);
      if SearchFrom(s, p + 1) {
        var q :| p + 1 <= q && ArrowInContext(s, q);
        assert p <= q;
      }
      if !ArrowInContext(s, p) && !SearchFrom(s, p + 1) {
        forall q | p <= q ensures !ArrowInContext(s, q) {
          if q != p {
            assert p + 1 <= q;
          }
        }
      }
    }
  }

  /** The search succeeds exactly when the line has an `=>` with a non-newline
      character on each side. */
  lemma RegexSearchFinds(s: string)
    ensures RegexSearch(s) <==> exists q :: ArrowInContext(s, q)
  {
    SearchFromFinds(s, 0);
  }

  /** What the candidate test and the two-name unpacking of `command.split("=>")`
      make of a line: no match, the `ValueError` of an unpacking that does not get
      exactly two pieces, or the raw left and right halves. */
  datatype Parsed = NoMatch | UnpackError | Halves(left: string, right: string)

  function Parse(command: string): Parsed {
    if !RegexSearch(command) then NoMatch
    else
      var parts := SplitOn(command, Arrow);
      if |parts| == 2 then Halves(parts[0], parts[1]) else UnpackError
  }

  /** The exposed host: the raw left half with every space removed. */
  function Host(left: string): string {
    RemoveAll(left, ' ')
  }

  /** The port: the text after the last `:` of the right half, up to its first space. */
  function Port(right: string): string {
    SplitOn(Last(SplitOn(right, ":")), " ")[0]
  }

  /** An `=>` at `i` is the character `=` followed by `>`. */
  lemma ArrowChars(s: string, i: int)
    ensures Occurs(s, Arrow, i) <==> 0 <= i && i + 2 <= |s| && s[i] == '=' && s[i + 1] == '>'
  {
    if 0 <= i && i + 2 <= |s| {
      assert s[i..i + 2] == [s[i], s[i + 1]];
    }
  }

  /** For a one-character separator, holding no occurrence means not containing it. */
  lemma FreeChar(s: string, c: char)
    ensures Free(s, [c]) <==> c !in s
  {
    forall j | 0 <= j < |s| ensures Occurs(s, [c], j) <==> s[j] == c {
      assert s[j..j + 1] == [s[j]];
    }
  }

  /** Text without a `=` holds no `=>`. */
  lemma NoEqualsFree(s: string)
    requires '=' !in s
    ensures Free(s, Arrow)
  {
    forall j ensures !Occurs(s, Arrow, j) {
      ArrowChars(s, j);
    }
  }

  /** The port is the first space-separated token of the text after the last `:`
      of the right half (all of it when there is no `:`); it is empty exactly when
      that text is empty or starts with a space. */
  lemma PortShape(right: string)
    ensures var a := Last(SplitOn(right, ":"));
      |a| <= |right| && a == right[|right| - |a|..] && ':' !in a &&
      (a == right <==> ':' !in right) &&
      (a != right ==> right[|right| - |a| - 1] == ':')
    ensures var a := Last(SplitOn(right, ":"));
      var p := Port(right);
      |p| <= |a| && p == a[..|p|] && ' ' !in p &&
      (|p| < |a| ==> a[|p|] == ' ') &&
      (p == "" <==> a == "" || a[0] == ' ')
  {
    var a := Last(SplitOn(right, ":"));
    LastPiece(right, ":");
    FreeChar(a, ':');
    FreeChar(right, ':');
    if a != right {
      var k := |right| - |a| - 1;
      assert right[k..k + 1] == [right[k]];
    }
    var p := Port(right);
    FirstPiece(a, " ");
    FreeChar(p, ' ');
    if |p| < |a| {
      assert a[|p|..|p| + 1] == [a[|p|]];
    }
    if a != "" && a[0] == ' ' {
      assert |p| == 0;
    }
  }

  /** Conversely, a suffix `a` of the right half that holds no `:` and is all of it
      or preceded by a `:`, and a prefix `p` of `a` that holds no space and is all
      of it or followed by a space, make `p` the port. */
  lemma PortIs(right: string, a: string, p: string)
    requires |a| <= |right| && a == right[|right| - |a|..] && ':' !in a
    requires a == right || right[|right| - |a| - 1] == ':'
    requires |p| <= |a| && p == a[..|p|] && ' ' !in p
    requires |p| == |a| || a[|p|] == ' '
    ensures Port(right) == p
  {
    PortShape(right);
    var b := Last(SplitOn(right, ":"));
    assert b == a;
    var q := Port(right);
    assert q == p;
  }

  /** A line parses into the halves `l` and `r` exactly when it is `l + "=>" + r`
      with no other `=>` in it, at least one character on each side, and neither
      of those two characters a newline. */
  lemma ParseHalves(command: string, l: string, r: string)
    ensures Parse(command) == Halves(l, r) <==>
      command == l + Arrow + r && Free(l, Arrow) && Free(r, Arrow) &&
      l != [] && r != [] && l[|l| - 1] != '\n' && r[0] != '\n'
  {
    if Parse(command) == Halves(l, r) {
      HalvesSound(command);
    }
    if command == l + Arrow + r && Free(l, Arrow) && Free(r, Arrow) &&
       l != [] && r != [] && l[|l| - 1] != '\n' && r[0] != '\n' {
      HalvesComplete(command, l, r);
    }
  }

  /** The two halves a line parses into put the line back together around its only `=>`. */
  lemma HalvesSound(command: string)
    requires Parse(command).Halves?
    ensures var l, r := Parse(command).left, Parse(command).right;
      command == l + Arrow + r && Free(l, Arrow) && Free(r, Arrow) &&
      l != [] && r != [] && l[|l| - 1] != '\n' && r[0] != '\n'
  {
    var l, r := Parse(command).left, Parse(command).right;
    RegexSearchFinds(command);
    var f := HalvesAt(command);
    var next := f + 2;
    forall j ensures !Occurs(l, Arrow, j) { OccursPrefix(command, Arrow, f, j); }
    forall j ensures !Occurs(r, Arrow, j) { OccursSuffix(command, Arrow, next, j); }
    assert f >= 1 && next < |command| && command[f - 1] != '\n' && command[next] != '\n' by {
      var q :| ArrowInContext(command, q);
      ArrowChars(command, f);
      ArrowChars(command, q);
      assert q == f;
    }
    assert command == l + Arrow + r by {
      assert command[..next] == l + Arrow;
      assert command == command[..next] + r;
    }
  }

  /** The halves of a parsed line are the text before and after its first `=>`,
      and no other `=>` starts anywhere but there. */
  lemma HalvesAt(command: string) returns (f: nat)
    requires Parse(command).Halves?
    ensures Occurs(command, Arrow, f) && f + 2 <= |command|
    ensures Parse(command).left == command[..f] && Parse(command).right == command[f + 2..]
    ensures forall j :: j != f ==> !Occurs(command, Arrow, j)
  {
    var parts := SplitOn(command, Arrow);
    f := FindFrom(command, Arrow, 0).value;
    var tail := SplitAt(command, Arrow, f + 2);
    assert parts == [command[..f]] + tail;
    assert FindFrom(command, Arrow, f + 2).None? && tail == [command[f + 2..]];
    FindFromFirst(command, Arrow, 0);
    FindFromFirst(command, Arrow, f + 2);
    forall j | j != f ensures !Occurs(command, Arrow, j) {
      if j == f + 1 {
        ArrowChars(command, f);
        ArrowChars(command, j);
      } else if j < f {
        assert 0 <= j ==> !Occurs(command, Arrow, j);
      } else {
        assert f + 2 <= j;
      }
    }
  }

  /** A line `l + "=>" + r` meeting the conditions of `ParseHalves` parses into `l` and `r`. */
  lemma HalvesComplete(command: string, l: string, r: string)
    requires command == l + Arrow + r && Free(l, Arrow) && Free(r, Arrow)
    requires l != [] && r != [] && l[|l| - 1] != '\n' && r[0] != '\n'
    ensures Parse(command) == Halves(l, r)
  {
    var f := |l|;
    var next := f + 2;
    assert command[f..next] == Arrow;
    assert RegexSearch(command) by {
      assert ArrowInContext(command, f);
      RegexSearchFinds(command);
    }
    assert FindFrom(command, Arrow, 0) == Some(f) by {
      assert Occurs(command, Arrow, f);
      assert command[..f] == l;
      forall j | 0 <= j < f ensures !Occurs(command, Arrow, j) {
        if j + 2 <= f {
          OccursPrefix(command, Arrow, f, j);
        } else {
          ArrowChars(command, j);
        }
      }
      FindFromFirst(command, Arrow, 0);
    }
    assert FindFrom(command, Arrow, next).None? by {
      assert command[next..] == r;
      forall j | next <= j ensures !Occurs(command, Arrow, j) {
        OccursSuffix(command, Arrow, next, j - next);
      }
      FindFromFirst(command, Arrow, next);
    }
    assert SplitAt(command, Arrow, next) == [r] by {
      assert command[next..] == r;
    }
    assert SplitOn(command, Arrow) == [command[..f]] + SplitAt(command, Arrow, next);
    assert command[..f] == l;
  }

  /** The unpacking fails exactly when the line matches and holds two or more `=>`. */
  lemma ParseUnpackError(command: string)
    ensures Parse(command) == UnpackError <==>
      RegexSearch(command) &&
      exists i, j :: i < j && Occurs(command, Arrow, i) && Occurs(command, Arrow, j)
  {
    if Parse(command) == UnpackError {
      UnpackErrorSound(command);
    }
    if RegexSearch(command) &&
       exists i, j :: i < j && Occurs(command, Arrow, i) && Occurs(command, Arrow, j) {
      var i, j :| i < j && Occurs(command, Arrow, i) && Occurs(command, Arrow, j);
      UnpackErrorComplete(command, i, j);
    }
  }

  /** A failed unpacking comes from a second `=>` after the first one. */
  lemma UnpackErrorSound(command: string)
    requires Parse(command) == UnpackError
    ensures FindFrom(command, Arrow, 0).Some?
    ensures var f := FindFrom(command, Arrow, 0).value;
      FindFrom(command, Arrow, f + 2).Some? && f < FindFrom(command, Arrow, f + 2).value &&
      Occurs(command, Arrow, f) && Occurs(command, Arrow, FindFrom(command, Arrow, f + 2).value)
  {
    RegexSearchFinds(command);
    var q :| ArrowInContext(command, q);
    assert FindFrom(command, Arrow, 0).Some? by {
      FindFromFirst(command, Arrow, 0);
    }
    var f := FindFrom(command, Arrow, 0).value;
    var tail := SplitAt(command, Arrow, f + 2);
    assert SplitOn(command, Arrow) == [command[..f]] + tail;
    assert |tail| >= 2;
    FindFromFirst(command, Arrow, 0);
    FindFromFirst(command, Arrow, f + 2);
  }

  /** Two `=>` in a matching line make the unpacking fail. */
  lemma UnpackErrorComplete(command: string, i: int, j: int)
    requires RegexSearch(command)
    requires i < j && Occurs(command, Arrow, i) && Occurs(command, Arrow, j)
    ensures Parse(command) == UnpackError
  {
    assert FindFrom(command, Arrow, 0).Some? by {
      FindFromFirst(command, Arrow, 0);
    }
    var f := FindFrom(command, Arrow, 0).value;
    assert Occurs(command, Arrow, f) && f <= i by {
      FindFromFirst(command, Arrow, 0);
    }
    ArrowChars(command, f);
    ArrowChars(command, j);
    assert FindFrom(command, Arrow, f + 2).Some? by {
      FindFromFirst(command, Arrow, f + 2);
    }
    assert |SplitAt(command, Arrow, f + 2)| >= 2;
  }
}
