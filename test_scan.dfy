/**
 * src/test.rs: a copy of the scanner whose `handle_in_comment` lacks the final assertion,
 * and a `main` that runs the bare scan loop, without accumulating anything, over one
 * fixed comment. Its enums and its `handle_in_string` and `handle_in_dumb` are identical
 * to those of src/main.rs and are shared with `Scanner`.
 */
module TestScan {
  import opened Wrappers
  import opened Scanner
  import opened Parse
  import opened ParseLemmas

  /** `handle_in_comment` without the assertion: defined for every input. */
  function HandleInComment(prev: char, curr: char, next: Option<char>, prevStatus: Status): (r: (Status, Option<Output>))
    ensures r.0 == Status.Dumb <==> prev == '*' && curr == '/'
    ensures r.0 == Status.Broken <==> !(prev == '*' && curr == '/') && next == None
    ensures r.0 != Status.String
    ensures r.1 != None ==> r.1 == Some(Output.Comment(curr)) && prevStatus == Status.Comment
    ensures curr == '*' && next == Some('/') ==> r == (Status.Comment, None)
    // where the assertion of src/main.rs would fail, the step stays in the comment silently
    ensures !CommentAssertHolds(prev, curr, next, prevStatus) ==> r == (Status.Comment, None)
  {
    if prev == '*' && curr == '/' then (Status.Dumb, None)
    else match next
      case None => (Status.Broken, None)
      case Some(n) =>
        if n == '/' && curr == '*' then (Status.Comment, None)
        else if prevStatus == Status.Comment then (Status.Comment, Some(Output.Comment(curr)))
        else (Status.Comment, None)
  }

  /** Wherever the assertion holds, both versions of `handle_in_comment` agree. */
  lemma CommentAgreesWithMain(prev: char, curr: char, next: Option<char>, prevStatus: Status)
    requires CommentAssertHolds(prev, curr, next, prevStatus)
    ensures HandleInComment(prev, curr, next, prevStatus) == Scanner.HandleInComment(prev, curr, next, prevStatus)
  {
  }

  /**
   * The scan loop of the test's `main`, on any input: it ends in the state `parse`'s
   * loop reaches after its last step. The loop runs exactly `|src| + 1` times and its
   * `Status::Broken => break` arm is never taken.
   */
  method ScanLoop(src: string) returns (status: Status, prevStatus: Status, ghost iterations: nat)
    ensures (status, prevStatus) == Run(src, |src|)
    ensures iterations == |src| + 1
  {
    status := Status.Dumb;
    prevStatus := Status.Broken;
    var prev: Option<char> := None;
    var curr: Option<char> := None;
    var pos := 0;  // number of characters `iter` has yielded
    iterations := 0;
    ghost var done := 0;  // number of steps handled so far
    while true
      invariant pos <= |src| && iterations == pos
      invariant curr == (if pos == 0 then None else Some(src[pos - 1]))
      invariant prev == (if pos <= 1 then None else Some(src[pos - 2]))
      invariant done == (if pos == 0 then 0 else pos - 1)
      invariant (status, prevStatus) == Run(src, done)
      decreases |src| - pos
    {
      iterations := iterations + 1;
      ghost var step := if pos == 0 then -1 else done;
      var next: Option<char> := None;
      if pos < |src| {
        next := Some(src[pos]);
        pos := pos + 1;
      }
      match (prev, curr) {
        case (None, Some(c)) =>
          assert step == 0 && c == src[0];
          var (s, _) := HandleInDumb(c, next);
          prevStatus := status;
          status := s;
        case (Some(p), Some(c)) =>
          assert step >= 1 && p == src[step - 1] && c == src[step];
          match status {
            case Comment =>
              CommentAgreesWithMain(p, c, next, prevStatus);
              var (s, _) := HandleInComment(p, c, next, prevStatus);
              prevStatus := status;
              status := s;
            case Dumb =>
              var (s, _) := HandleInDumb(c, next);
              prevStatus := status;
              status := s;
            case String =>
              var (s, _) := HandleInString(p, c);
              prevStatus := status;
              status := s;
            case Broken =>
              assert false;
              break;
          }
        case _ =>
      }
      prev := curr;
      curr := next;
      if status == Status.Broken {
        break;
      }
      if next == None {
        break;
      }
      done := pos - 1;
    }
  }

  /** The body of the fixed input of the test's `main`. */
  const TestBody := " hey, just comments "

  /** The fixed input, `/* hey, just comments */`. */
  const TestInput := Wrapped(TestBody)

  lemma TestBodyHasNoCloser()
    ensures NoCloser(TestBody)
  {
    assert '*' !in TestBody;
  }

  /** The test's `main`: the scan of its comment ends outside, right after the comment. */
  method TestMain() returns (status: Status, prevStatus: Status)
    ensures status == Status.Dumb && prevStatus == Status.Comment
  {
    TestBodyHasNoCloser();
    CommentRoundTrip(TestBody);
    ghost var iterations;
    status, prevStatus, iterations := ScanLoop(TestInput);
  }
  /** On the fixed input no step before the last one ends in `Broken`, and the last one does not either. */
  lemma TestInputNeverBroken()
    ensures forall i :: 0 <= i <= |TestInput| ==> Run(TestInput, i).0 != Status.Broken
  {
    TestBodyHasNoCloser();
    CommentRoundTrip(TestBody);
  }
}
