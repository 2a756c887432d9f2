/**
 * `format_comment` of src/main.rs and the two pieces of Rust's string library it relies on,
 * `str::split('\n')` and `join("\n")`.
 */
module Format {

  /** The index of the last newline in `s`. */
  function LastNewline(s: string): (j: nat)
    requires '\n' in s
    ensures j < |s| && s[j] == '\n'
    ensures forall k :: j < k < |s| ==> s[k] != '\n'
  {
    if s[|s| - 1] == '\n' then |s| - 1
    else
      assert '\n' in s[..|s| - 1] by {
        var k :| 0 <= k < |s| && s[k] == '\n';
        assert s[..|s| - 1][k] == '\n';
      }
      LastNewline(s[..|s| - 1])
  }

  /** `segments.join("\n")`: the segments with one newline between each two. */
  function Join(segments: seq<string>): string
    requires |segments| >= 1
  {
    if |segments| == 1 then segments[0]
    else Join(segments[..|segments| - 1]) + "\n" + segments[|segments| - 1]
  }

  /**
   * `s.split('\n')`: the pieces of `s` between newlines, in order. It is never empty, no
   * piece holds a newline, joining the pieces gives `s` back, and there is one piece more
   * than there are newlines.
   */
  function Split(s: string): (r: seq<string>)
    ensures |r| >= 1
    ensures forall k :: 0 <= k < |r| ==> '\n' !in r[k]
    ensures Join(r) == s
    ensures |r| >= 2 <==> '\n' in s
    // the first piece is empty exactly when `s` is empty or starts with a newline
    ensures r[0] == [] <==> s == [] || s[0] == '\n'
    // the last piece is empty exactly when `s` is empty or ends with a newline
    ensures r[|r| - 1] == [] <==> s == [] || s[|s| - 1] == '\n'
    decreases |s|
  {
    if '\n' !in s then [s]
    else
      var j := LastNewline(s);
      var front := Split(s[..j]);
      assert s == s[..j] + "\n" + s[j + 1..];
      var tail := s[j + 1..];
      assert '\n' !in tail by {
        forall k | 0 <= k < |tail| ensures tail[k] != '\n' {
          assert tail[k] == s[j + 1 + k];
        }
      }
      assert (front + [s[j + 1..]])[..|front|] == front;
      assert j > 0 ==> s[..j][0] == s[0];
      front + [s[j + 1..]]
  }

  /** Prepending a segment puts it and one newline in front of the joined text. */
  lemma {:induction false} JoinPrepend(x: string, segments: seq<string>)
    requires |segments| >= 1
    ensures Join([x] + segments) == x + "\n" + Join(segments)
    decreases |segments|
  {
    if |segments| > 1 {
      var init := segments[..|segments| - 1];
      JoinPrepend(x, init);
      assert ([x] + segments)[..|segments|] == [x] + init;
    }
  }

  /**
   * Whether `format_comment` appends a trailing blank segment. The source tests the
   * segment at `last_idx`, an index computed before the optional leading segment is
   * prepended: for a body starting with a newline that is the last line, otherwise the
   * line before the last newline.
   */
  predicate AppendsSuffix(src: string)
    requires '\n' in src
  {
    if src[0] == '\n' then src[|src| - 1] != '\n'
    else src[LastNewline(src) - 1] != '\n'
  }

  /** `format_comment`: pads a multi-line comment body with newlines at either end. */
  function FormatComment(src: string): (r: string)
    // a single-line body is returned unchanged
    ensures '\n' !in src ==> r == src
    // a multi-line body gains two newlines in front unless it starts with one, and two at
    // the end when the segment at the stale index is non-empty
    ensures '\n' in src ==>
      r == (if src[0] != '\n' then "\n\n" else "") + src + (if AppendsSuffix(src) then "\n\n" else "")
  {
    if '\n' !in src then src
    else
      var slices := Split(src);
      var lastIdx := |slices| - 1;
      var padded := if slices[0] != [] then ["\n"] + slices else slices;
      var padded' := if padded[lastIdx] != [] then padded + ["\n"] else padded;
      assert Join(padded) == (if src[0] != '\n' then "\n\n" else "") + src by {
        if slices[0] != [] { JoinPrepend("\n", slices); }
      }
      assert (padded + ["\n"])[..|padded|] == padded;
      assert padded[lastIdx] != [] <==> AppendsSuffix(src) by {
        if src[0] != '\n' {
          var j := LastNewline(src);
          assert slices == Split(src[..j]) + [src[j + 1..]];
          assert padded[lastIdx] == slices[lastIdx - 1];
        }
      }
      Join(padded')
  }

  /** A multi-line body always comes out starting with a newline. */
  lemma FormattedStartsWithNewline(src: string)
    requires '\n' in src
    ensures |FormatComment(src)| > 0 && FormatComment(src)[0] == '\n'
  {
  }

  /** A body that already starts and ends with a newline is left as it is. */
  lemma FramedBodyUnchanged(src: string)
    requires |src| > 0 && src[0] == '\n' && src[|src| - 1] == '\n'
    ensures FormatComment(src) == src
  {
    assert '\n' in src;
  }

  /** A multi-line body that starts with a newline only gains trailing newlines, if any. */
  lemma LeadingNewlineKept(src: string)
    requires '\n' in src && src[0] == '\n'
    ensures FormatComment(src) == src + (if src[|src| - 1] != '\n' then "\n\n" else "")
  {
    assert "" + src == src;
  }

  /**
   * Formatting is not idempotent, but it settles after two passes: the second pass makes
   * the body end with a newline, and then nothing changes any more.
   */
  lemma FormatSettlesAfterTwoPasses(src: string)
    requires '\n' in src
    ensures var twice := FormatComment(FormatComment(src));
      |twice| > 0 && twice[0] == '\n' && twice[|twice| - 1] == '\n' && FormatComment(twice) == twice
  {
    var once := FormatComment(src);
    FormattedStartsWithNewline(src);
    assert '\n' in once;
    LeadingNewlineKept(once);
    var twice := FormatComment(once);
    assert twice[0] == '\n' && twice[|twice| - 1] == '\n';
    FramedBodyUnchanged(twice);
  }

  /** The last newline is the one after which no newline follows. */
  lemma LastNewlineAt(s: string, j: nat)
    requires j < |s| && s[j] == '\n'
    requires forall k :: j < k < |s| ==> s[k] != '\n'
    ensures LastNewline(s) == j
  {
  }

  /** Two lines gain a blank line at each end. */
  lemma TwoLinesFramed(a: string, b: string)
    requires a != [] && b != [] && '\n' !in a && '\n' !in b
    ensures var src := a + "\n" + b; FormatComment(src) == "\n\n" + src + "\n\n"
  {
    var src := a + "\n" + b;
    assert src[|a|] == '\n' && src[0] == a[0];
    assert forall k :: |a| < k < |src| ==> src[k] == b[k - |a| - 1];
    LastNewlineAt(src, |a|);
    assert src[|a| - 1] == a[|a| - 1];
    assert '\n' in src && AppendsSuffix(src);
  }

  /**
   * Whether trailing newlines are added depends on the line before the last newline, not on
   * the last line: when that line is blank, a last line `b` gets none.
   */
  lemma BlankLineHidesLastLine(a: string, b: string)
    requires a != [] && '\n' !in a && '\n' !in b
    ensures var src := a + "\n\n" + b; FormatComment(src) == "\n\n" + src
  {
    var src := a + "\n\n" + b;
    assert src[|a|] == '\n' && src[|a| + 1] == '\n' && src[0] == a[0];
    assert forall k :: |a| + 1 < k < |src| ==> src[k] == b[k - |a| - 2];
    LastNewlineAt(src, |a| + 1);
    assert '\n' in src && !AppendsSuffix(src);
  }

  /** So such a body is changed again by a second pass, which adds the trailing newlines. */
  lemma SecondPassAddsSuffix(a: string, b: string)
    requires a != [] && b != [] && '\n' !in a && '\n' !in b
    ensures var src := a + "\n\n" + b; FormatComment(FormatComment(src)) == "\n\n" + src + "\n\n"
    ensures var src := a + "\n\n" + b; FormatComment(FormatComment(src)) != FormatComment(src)
  {
    BlankLineHidesLastLine(a, b);
    var once := "\n\n" + (a + "\n\n" + b);
    assert once[0] == '\n' && once[|once| - 1] == b[|b| - 1];
    assert '\n' in once;
  }

  /**
   * And a body whose last line is empty (it ends with a newline) gets trailing newlines
   * anyway when the line before is not blank.
   */
  lemma EmptyLastLineStillPadded(a: string, b: string)
    requires a != [] && b != [] && '\n' !in a && '\n' !in b
    ensures var src := a + "\n" + b + "\n"; FormatComment(src) == "\n\n" + src + "\n\n"
  {
    var src := a + "\n" + b + "\n";
    assert src[|a|] == '\n' && src[0] == a[0] && src[|src| - 1] == '\n';
    LastNewlineAt(src, |src| - 1);
    assert src[|src| - 2] == b[|b| - 1];
    assert '\n' in src && AppendsSuffix(src);
  }
}
