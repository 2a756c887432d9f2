// Properties of `parse` (src/main.rs), stated on the specification functions that the
// method `Parse.Parse` is proved against.
module ParseLemmas {
  import opened Wrappers
  import opened Scanner
  import opened Format
  import opened Parse

  // The outputs of steps `0 .. k-1`, each one in scan order, as the scanner emits them.
  function Emitted(src: string, k: nat): seq<Output>
    requires k <= |src|
  {
    if k == 0 then [] else Emitted(src, k - 1) + Emit(StepOutput(src, k - 1))
  }

  // After `k` accumulated steps the accumulator holds exactly their outputs, and no empty slice.
  lemma {:induction false} AccAfterHoldsEmitted(src: string, k: nat)
    requires k <= |src|
    ensures Content(AccAfter(src, k)) == Emitted(src, k)
    ensures Valid(AccAfter(src, k))
  {
    if k > 0 {
      AccAfterHoldsEmitted(src, k - 1);
      FeedAppendsOutput(AccAfter(src, k - 1), Run(src, k - 1).0, StepOutput(src, k - 1));
    }
  }

  // The slices `parse` prints hold every accumulated character exactly once, in scan
  // order, each in a slice of its own kind (outside or comment), and none of them is
  // empty. The last step's output is never among them.
  lemma AccumulationKeepsEveryChar(src: string)
    ensures Expand(Slices(src)) == Emitted(src, Accumulated(src))
    ensures forall k :: 0 <= k < |Slices(src)| ==> Slices(src)[k].text != []
  {
    var acc := AccAfter(src, Accumulated(src));
    AccAfterHoldsEmitted(src, Accumulated(src));
    if acc.open != Slice.Outside("") {
      assert (acc.slices + [acc.open])[..|acc.slices|] == acc.slices;
      assert acc.open.text != [];
    }
  }

  // A comment is entered only from outside text, on a `/` whose lookahead is `*`.
  lemma CommentEnteredOnlyFromDumb(src: string, i: nat)
    requires i < |src|
    requires Run(src, i + 1).0 == Status.Comment && Run(src, i).0 != Status.Comment
    ensures Run(src, i).0 == Status.Dumb && src[i] == '/' && Next(src, i) == Some('*')
  {
  }

  // Comment text is emitted only by a step handled in a comment whose previous step was in
  // the comment too; in particular no character of a string literal becomes comment text,
  // and every character handled inside a literal is emitted unchanged as outside text.
  lemma CommentTextOnlyInsideComment(src: string, i: nat)
    requires i < |src|
    ensures StepOutput(src, i).Some? && StepOutput(src, i).value.Comment? ==>
      Run(src, i) == (Status.Comment, Status.Comment) && StepOutput(src, i) == Some(Output.Comment(src[i]))
    ensures Run(src, i).0 == Status.String ==> StepOutput(src, i) == Some(Output.Outside(src[i]))
  {
  }

  // The first `m` characters hold no `"` and start no `/*`.
  predicate PlainUpTo(src: string, m: nat)
    requires m <= |src|
  {
    forall k :: 0 <= k < m ==> src[k] != '"' && !(src[k] == '/' && Next(src, k) == Some('*'))
  }

  // Input with no `"` and no `/*`.
  predicate PlainText(src: string) {
    PlainUpTo(src, |src|)
  }

  // Over a plain prefix every step stays outside and emits its own character.
  lemma {:induction false} PlainSteps(src: string, m: nat, i: nat)
    requires m <= |src| && PlainUpTo(src, m) && i <= m
    ensures Run(src, i).0 == Status.Dumb
    ensures AccAfter(src, i) == Acc([], Slice.Outside(src[..i]))
  {
    if i > 0 {
      PlainSteps(src, m, i - 1);
      assert src[..i] == src[..i - 1] + [src[i - 1]];
    }
  }

  // Input with no `"` and no `/*` is printed without its last character, because the
  // output of the final loop iteration is never accumulated.
  lemma PlainTextDropsLast(src: string)
    requires PlainText(src)
    ensures Slices(src) == if |src| <= 1 then [] else [Slice.Outside(src[..|src| - 1])]
    ensures Render(Slices(src)) == if |src| == 0 then "" else src[..|src| - 1]
  {
    PlainSteps(src, |src|, Accumulated(src));
    if |src| > 1 {
      assert [Slice.Outside(src[..|src| - 1])][..0] == [];
    }
  }

  // Empty input prints nothing and yields no slice.
  lemma EmptyInputPrintsNothing()
    ensures Slices("") == [] && Render(Slices("")) == ""
  {
    PlainTextDropsLast("");
  }

  // Printing is not idempotent: each pass drops one more character.
  lemma PrintingIsNotIdempotent()
    ensures Render(Slices("ab")) == "a"
    ensures Render(Slices(Render(Slices("ab")))) == ""
  {
    PlainTextDropsLast("ab");
    assert "ab"[..1] == "a";
    PlainTextDropsLast("a");
  }

  // What is pushed when a comment opens after the plain prefix `src[..m]`.
  function PushedBefore(src: string, m: nat): seq<Slice>
    requires m <= |src|
  {
    if m == 0 then [] else [Slice.Outside(src[..m])]
  }

  // A `*/` starts at position `k` of `s`.
  predicate ClosesAt(s: string, k: nat) {
    k + 1 < |s| && s[k] == '*' && s[k + 1] == '/'
  }

  // A comment opens at `m` (`src[m..m + 2]` is `/*`) after a plain prefix, and no `*/`
  // starts at any of the positions `m + 1 .. e - 1`.
  predicate OpensAndStaysOpen(src: string, m: nat, e: nat) {
    && m + 2 <= e < |src|
    && PlainUpTo(src, m)
    && src[m] == '/' && src[m + 1] == '*'
    && forall k :: m + 1 <= k < e ==> !ClosesAt(src, k)
  }

  // Inside such a comment every character of `src[m + 2..e]` is emitted as comment text,
  // after the outside text before the comment has been pushed.
  lemma {:induction false} CommentSteps(src: string, m: nat, e: nat, i: nat)
    requires OpensAndStaysOpen(src, m, e) && m + 3 <= i <= e
    ensures AccAfter(src, i) == Acc(PushedBefore(src, m), Slice.Comment(src[m + 2..i]))
  {
    var j := i - 1;
    StaysInComment(src, m, e, j);
    assert !ClosesAt(src, j - 1) && !ClosesAt(src, j);
    InCommentStep(src, i);
    if j == m + 2 {
      assert !ClosesAt(src, m + 1);
      OpeningSteps(src, m);
      assert src[m + 2..i] == [src[j]];
    } else {
      CommentSteps(src, m, e, j);
      FeedCommentChar(AccAfter(src, j), src[j]);
      assert src[m + 2..i] == src[m + 2..j] + [src[j]];
    }
  }

  // Inside such a comment the scan stays in it.
  lemma {:induction false} StaysInComment(src: string, m: nat, e: nat, i: nat)
    requires OpensAndStaysOpen(src, m, e) && m + 2 <= i <= e
    ensures Run(src, i) == (Status.Comment, Status.Comment)
  {
    if i == m + 2 {
      assert !ClosesAt(src, m + 1);
      OpeningSteps(src, m);
    } else {
      StaysInComment(src, m, e, i - 1);
      assert !ClosesAt(src, i - 2) && !ClosesAt(src, i - 1);
      InCommentStep(src, i);
    }
  }

  // Comment text extends an open comment slice.
  lemma FeedCommentChar(acc: Acc, c: char)
    requires acc.open.Comment?
    ensures Feed(acc, Status.Comment, Some(Output.Comment(c))) == Acc(acc.slices, Slice.Comment(acc.open.text + [c]))
  {
  }

  // The `/` and `*` that open a comment after a plain prefix: the prefix is pushed as an
  // outside slice (when it is not empty), and the comment is entered.
  lemma OpeningSteps(src: string, m: nat)
    requires m + 2 < |src| && PlainUpTo(src, m)
    requires src[m] == '/' && src[m + 1] == '*' && !ClosesAt(src, m + 1)
    ensures Run(src, m + 2) == (Status.Comment, Status.Comment)
    ensures AccAfter(src, m + 2) == Acc(PushedBefore(src, m), Slice.Outside(""))
  {
    PlainSteps(src, m, m);
    assert Run(src, m + 1) == (Status.Comment, Status.Dumb);
    assert AccAfter(src, m + 1) == Acc([], Slice.Outside(src[..m]));
    assert StepOutput(src, m + 1) == None;
  }

  // Step `k - 1` inside a comment, which neither closes at its character nor at the next
  // one, emits its character as comment text and stays in the comment.
  lemma InCommentStep(src: string, k: nat)
    requires 2 <= k < |src|
    requires Run(src, k - 1) == (Status.Comment, Status.Comment)
    requires !ClosesAt(src, k - 2) && !ClosesAt(src, k - 1)
    ensures Run(src, k) == (Status.Comment, Status.Comment)
    ensures StepOutput(src, k - 1) == Some(Output.Comment(src[k - 1]))
  {
  }

  function Wrapped(body: string): string {
    "/*" + body + "*/"
  }

  // `body` does not start with `/` and holds no `*/`: after `/*` it never closes.
  predicate NoCloser(body: string) {
    && |body| > 0
    && body[0] != '/'
    && forall k :: 0 <= k < |body| ==> !ClosesAt(body, k)
  }

  // A comment opened at `m`, after a plain prefix, by the `/*` in front of a `body` without
  // closer stays open over `body`; it stays open over the character after `body` unless
  // that character is a `/`.
  lemma OpenOverBody(src: string, m: nat, body: string)
    requires m + 2 + |body| <= |src| && PlainText(src[..m]) && NoCloser(body)
    requires src[m] == '/' && src[m + 1] == '*' && src[m + 2..m + 2 + |body|] == body
    requires m + 2 + |body| == |src| || src[m + 2 + |body|] != '/'
    ensures OpensAndStaysOpen(src, m, if m + 2 + |body| == |src| then |src| - 1 else m + 2 + |body|)
  {
    var p := src[..m];
    assert forall k :: 0 <= k < |body| ==> src[m + 2 + k] == body[k];
    forall k | 0 <= k < m
      ensures src[k] != '"' && !(src[k] == '/' && Next(src, k) == Some('*'))
    {
      assert src[k] == p[k];
      if k + 1 < m {
        assert Next(src, k) == Next(p, k);
      }
    }
    var e := if m + 2 + |body| == |src| then |src| - 1 else m + 2 + |body|;
    forall k | m + 1 <= k < e
      ensures !ClosesAt(src, k)
    {
      if m + 2 <= k && k + 1 < m + 2 + |body| {
        assert ClosesAt(src, k) == ClosesAt(body, k - m - 2);
      }
    }
  }

  // A comment whose body does not start with `/` and holds no `*`+`/` pair yields one
  // comment slice holding the body, ends the scan outside the comment, and is printed
  // with its body formatted; a body without a newline is printed back exactly as it was
  // written.
  lemma CommentRoundTrip(body: string)
    requires NoCloser(body)
    ensures Slices(Wrapped(body)) == [Slice.Comment(body)]
    ensures Run(Wrapped(body), |Wrapped(body)|) == (Status.Dumb, Status.Comment)
    ensures Render(Slices(Wrapped(body))) == Wrapped(FormatComment(body))
    ensures '\n' !in body ==> Render(Slices(Wrapped(body))) == Wrapped(body)
  {
    WrappedSteps(body);
    assert [Slice.Comment(body)][..0] == [];
  }

  // The steps of a wrapped comment: the body is collected, then the closing `*` pushes it
  // and the closing `/` returns to outside, after which the scan ends.
  lemma WrappedSteps(body: string)
    requires NoCloser(body)
    ensures Accumulated(Wrapped(body)) == |body| + 3
    ensures AccAfter(Wrapped(body), |body| + 3) == Acc([Slice.Comment(body)], Slice.Outside(""))
    ensures Run(Wrapped(body), |Wrapped(body)|) == (Status.Dumb, Status.Comment)
  {
    var src := Wrapped(body);
    var n := |body|;
    assert src[..0] == [] && src[2..n + 2] == body;
    OpenOverBody(src, 0, body);
    CommentSteps(src, 0, n + 2, n + 2);
    StaysInComment(src, 0, n + 2, n + 2);
    assert src[..0] == [];
    ClosingSteps(src, 0, n + 2);
  }

  // The `*` and `/` that close such a comment: the comment text is pushed as a comment
  // slice, and the scan is back outside.
  lemma ClosingSteps(src: string, m: nat, e: nat)
    requires OpensAndStaysOpen(src, m, e) && m + 3 <= e && e + 1 < |src|
    requires src[e] == '*' && src[e + 1] == '/'
    requires Run(src, e) == (Status.Comment, Status.Comment)
    requires AccAfter(src, e) == Acc(PushedBefore(src, m), Slice.Comment(src[m + 2..e]))
    ensures Run(src, e + 1) == (Status.Comment, Status.Comment)
    ensures AccAfter(src, e + 1) == Acc(PushedBefore(src, m) + [Slice.Comment(src[m + 2..e])], Slice.Outside(""))
    ensures Run(src, e + 2) == (Status.Dumb, Status.Comment)
  {
    assert StepAt(src, e, Status.Comment, Status.Comment) == (Status.Comment, None);
    assert StepAt(src, e + 1, Status.Comment, Status.Comment).0 == Status.Dumb;
  }

  // A comment that is still open at the last character: that character breaks the scan.
  lemma UnterminatedRun(src: string, m: nat)
    requires |src| >= 1 && OpensAndStaysOpen(src, m, |src| - 1)
    ensures Run(src, |src|).0 == Status.Broken
  {
    StaysInComment(src, m, |src| - 1, |src| - 1);
    assert !ClosesAt(src, |src| - 2);
    BreakStep(src);
  }

  // The last character of such a comment is not accumulated: the slices end with what was
  // collected before it.
  lemma UnterminatedSlices(src: string, m: nat)
    requires |src| >= 1 && OpensAndStaysOpen(src, m, |src| - 1)
    ensures Slices(src) ==
      PushedBefore(src, m) + (if |src| - 1 > m + 2 then [Slice.Comment(src[m + 2..|src| - 1])] else [])
  {
    var e := |src| - 1;
    assert Accumulated(src) == e;
    if e == m + 2 {
      assert !ClosesAt(src, m + 1);
      OpeningSteps(src, m);
    } else {
      CommentSteps(src, m, e, e);
    }
  }

  // The last step inside a comment that does not close there breaks the scan.
  lemma BreakStep(src: string)
    requires |src| >= 2 && Run(src, |src| - 1) == (Status.Comment, Status.Comment)
    requires !ClosesAt(src, |src| - 2)
    ensures Run(src, |src|).0 == Status.Broken
  {
  }

  // Printing one more slice appends its rendering.
  lemma RenderSnoc(s: seq<Slice>, x: Slice)
    ensures Render(s + [x]) == Render(s) + RenderSlice(x)
  {
    assert (s + [x])[..|s|] == s;
  }

  lemma AppendAssociates(x: string, y: string, z: string)
    ensures (x + y) + z == x + (y + z)
  {
  }

  // Printing two lists of slices one after the other prints the first and then the second.
  lemma {:induction false} RenderConcat(a: seq<Slice>, b: seq<Slice>)
    ensures Render(a + b) == Render(a) + Render(b)
    decreases |b|
  {
    if b == [] {
      assert a + b == a;
    } else {
      var init, last := b[..|b| - 1], b[|b| - 1];
      assert a + b == (a + init) + [last] && b == init + [last];
      RenderSnoc(a + init, last);
      RenderSnoc(init, last);
      RenderConcat(a, init);
      AppendAssociates(Render(a), Render(init), RenderSlice(last));
    }
  }

  // An unterminated comment after plain text ends the scan in `Broken`, and still yields
  // its slices: the text before it, then what was collected of the body, which is the
  // body without its last character.
  lemma UnterminatedCommentStillSliced(p: string, body: string)
    requires PlainText(p) && NoCloser(body)
    ensures Run(p + "/*" + body, |p + "/*" + body|).0 == Status.Broken
    ensures Slices(p + "/*" + body) ==
      (if p == [] then [] else [Slice.Outside(p)]) +
      (if |body| >= 2 then [Slice.Comment(body[..|body| - 1])] else [])
  {
    var src := p + "/*" + body;
    var m, e := |p|, |p| + 1 + |body|;
    assert src[..m] == p && src[m + 2..] == body;
    OpenOverBody(src, m, body);
    UnterminatedRun(src, m);
    UnterminatedSlices(src, m);
    assert PushedBefore(src, m) == if p == [] then [] else [Slice.Outside(p)];
    if |body| >= 2 {
      assert src[m + 2..|src| - 1] == body[..|body| - 1];
    }
  }

  // Such a comment is still printed: the text before it as it was, then the collected
  // part of the body inside a pair of delimiters, as if it had been closed.
  lemma UnterminatedCommentStillPrinted(p: string, body: string)
    requires PlainText(p) && NoCloser(body)
    ensures Render(Slices(p + "/*" + body)) ==
      p + (if |body| >= 2 then "/*" + FormatComment(body[..|body| - 1]) + "*/" else "")
  {
    UnterminatedCommentStillSliced(p, body);
    var before := if p == [] then [] else [Slice.Outside(p)];
    var inside := if |body| >= 2 then [Slice.Comment(body[..|body| - 1])] else [];
    RenderConcat(before, inside);
    if p != [] {
      assert before[..0] == [];
    }
    if |body| >= 2 {
      assert inside[..0] == [];
    }
    assert Render(before) == p;
  }

  // The premises of the example below.
  lemma ExamplePremises()
    ensures PlainText("code") && NoCloser("oops")
    ensures FormatComment("oops"[..3]) == "oop"
  {
    assert "oops"[..3] == "oop";
  }

  // For example `code/*oops` is printed as `code/*oop*/`.
  lemma UnterminatedCommentExample()
    ensures Render(Slices("code" + "/*" + "oops")) == "code" + "/*" + "oop" + "*/"
  {
    ExamplePremises();
    UnterminatedCommentStillPrinted("code", "oops");
  }

  // A two-line comment is printed with a blank line added at each end.
  lemma TwoLineComment(a: string, b: string)
    requires a != [] && b != [] && '\n' !in a && '\n' !in b
    requires NoCloser(a + "\n" + b)
    ensures var body := a + "\n" + b; Render(Slices(Wrapped(body))) == Wrapped("\n\n" + body + "\n\n")
  {
    CommentRoundTrip(a + "\n" + b);
    TwoLinesFramed(a, b);
  }

  // Two adjacent comments yield two comment slices with nothing between them.
  lemma AdjacentCommentsAreTwoSlices()
    ensures Slices("/*a*//*b*/") == [Slice.Comment("a"), Slice.Comment("b")]
  {
  }

  // In `/*/` the opening `*` also serves as the closing one: the comment is empty.
  lemma OpeningStarAlsoCloses()
    ensures Slices("a/*/bc") == [Slice.Outside("a"), Slice.Outside("b")]
  {
    var src := "a/*/bc";
    assert AccAfter(src, 1).slices == [] && AccAfter(src, 1).open == Slice.Outside("a");
    assert Run(src, 2) == (Status.Comment, Status.Dumb);
    assert AccAfter(src, 2) == AccAfter(src, 1);
    // the `*` is both the opener and the `*` of `*/`
    assert Run(src, 3) == (Status.Comment, Status.Comment);
    assert AccAfter(src, 3).slices == [Slice.Outside("a")] && AccAfter(src, 3).open == Slice.Outside("");
    assert Run(src, 4) == (Status.Dumb, Status.Comment);
    assert AccAfter(src, 4) == AccAfter(src, 3);
    assert AccAfter(src, 5).slices == [Slice.Outside("a")] && AccAfter(src, 5).open == Slice.Outside("b");
  }

  // An empty comment `/**/` yields no slice at all.
  lemma EmptyCommentLeavesNoSlice()
    ensures Slices("/**/xy") == [Slice.Outside("x")]
  {
    var src := "/**/xy";
    assert Run(src, 1) == (Status.Comment, Status.Dumb);
    assert AccAfter(src, 1) == Initial;
    assert Run(src, 2) == (Status.Comment, Status.Comment);
    assert AccAfter(src, 2) == Initial;
    assert Run(src, 3) == (Status.Comment, Status.Comment);
    assert AccAfter(src, 3) == Initial;
    assert Run(src, 4) == (Status.Dumb, Status.Comment);
    assert AccAfter(src, 4) == Initial;
    assert AccAfter(src, 5).slices == [] && AccAfter(src, 5).open == Slice.Outside("x");
  }
  // Inside a string literal `/*` is plain text: `"/*"x` prints the literal unchanged.
  lemma StringHidesCommentOpener()
    ensures Slices("\"/*\"x") == [Slice.Outside("\"/*\"")]
  {
    var src := "\"/*\"x";
    var expected := [Status.Dumb, Status.String, Status.String, Status.String, Status.Dumb];
    for k := 0 to 4
      invariant Run(src, k).0 == expected[k]
      invariant AccAfter(src, k) == Acc([], Slice.Outside(src[..k]))
    {
      assert StepOutput(src, k) == Some(Output.Outside(src[k]));
      assert src[..k + 1] == src[..k] + [src[k]];
    }
    assert Accumulated(src) == 4 && src[..4] == "\"/*\"";
  }
}
