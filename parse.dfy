/**
 * `parse` of src/main.rs: the scan loop that drives the scanner over the input, the slice
 * accumulator that groups emitted characters into outside and comment slices, and the
 * rendering of those slices (returned as a string instead of printed).
 *
 * The method `Parse` is proved against the specification functions `Run` (the scanner's
 * statuses step by step), `AccAfter` (the accumulator after each accumulated step),
 * `Slices` and `Render`. Step `i` is the loop iteration in which `src[i]` is the current
 * character.
 */
module Parse {
  import opened Wrappers
  import opened Scanner
  import opened Format

  /** `enum Slice`: a run of outside text or the body of one comment. */
  datatype Slice = Outside(text: string) | Comment(text: string)

  /** The lookahead of step `i`: what `iter.next()` yields while `src[i]` is current. */
  function Next(src: string, i: nat): Option<char> {
    if i + 1 < |src| then Some(src[i + 1]) else None
  }

  /**
   * What holds of the (status, prev_status) pair before step `i`: `Broken` appears only
   * once the input is exhausted, and a comment that has just been entered is looking at
   * the `*` that opened it.
   */
  predicate ScanInvariant(src: string, i: nat, status: Status, prevStatus: Status) {
    && i <= |src|
    && (status == Status.Broken ==> i == |src|)
    && (status == Status.Comment && prevStatus != Status.Comment ==> i < |src| && src[i] == '*')
  }

  /**
   * The handler that step `i` dispatches to. The first character is always handled by
   * `handle_in_dumb`, since there is no previous character yet.
   */
  function StepAt(src: string, i: nat, status: Status, prevStatus: Status): (Status, Option<Output>)
    requires i < |src| && status != Status.Broken
    requires status == Status.Comment && prevStatus != Status.Comment ==> src[i] == '*'
  {
    if i == 0 then HandleInDumb(src[0], Next(src, 0))
    else match status
      case Comment => HandleInComment(src[i - 1], src[i], Next(src, i), prevStatus)
      case Dumb => HandleInDumb(src[i], Next(src, i))
      case String => HandleInString(src[i - 1], src[i])
  }

  /**
   * The (status, prev_status) pair before step `i`. Its contract is the scan loop's
   * invariant: every call of `handle_in_comment` satisfies that handler's assertion, and
   * `Broken` can only be the status after the last step.
   */
  function Run(src: string, i: nat): (r: (Status, Status))
    requires i <= |src|
    ensures ScanInvariant(src, i, r.0, r.1)
    ensures i > 0 ==> r.1 != Status.Broken
  {
    if i == 0 then (Status.Dumb, Status.Broken)
    else
      var prior := Run(src, i - 1);
      (StepAt(src, i - 1, prior.0, prior.1).0, prior.0)
  }

  /** The output of step `i`. */
  function StepOutput(src: string, i: nat): Option<Output>
    requires i < |src|
  {
    var state := Run(src, i);
    StepAt(src, i, state.0, state.1).1
  }

  /** The accumulator: the slices pushed so far and the open slice (`curr_slice`). */
  datatype Acc = Acc(slices: seq<Slice>, open: Slice)

  const Initial := Acc([], Slice.Outside(""))

  /** A slice's text as the outputs it was built from. */
  function Chars(slice: Slice): (r: seq<Output>)
    ensures |r| == |slice.text|
  {
    match slice
    case Outside(t) => seq(|t|, k requires 0 <= k < |t| => Output.Outside(t[k]))
    case Comment(t) => seq(|t|, k requires 0 <= k < |t| => Output.Comment(t[k]))
  }

  /** The outputs a sequence of slices was built from, in order. */
  function Expand(slices: seq<Slice>): seq<Output> {
    if slices == [] then [] else Expand(slices[..|slices| - 1]) + Chars(slices[|slices| - 1])
  }

  /** Everything the accumulator holds, pushed slices first. */
  function Content(acc: Acc): seq<Output> {
    Expand(acc.slices) + Chars(acc.open)
  }

  /** No pushed slice is empty, and an open comment slice is not empty either. */
  predicate Valid(acc: Acc) {
    && (forall k :: 0 <= k < |acc.slices| ==> acc.slices[k].text != [])
    && (acc.open.Comment? ==> acc.open.text != [])
  }

  function Emit(output: Option<Output>): seq<Output> {
    match output
    case None => []
    case Some(o) => [o]
  }

  /**
   * One accumulation step, `match output { ... }` in the loop: `handledIn` is the status
   * the step was handled in (`prev_status` after its update). `FeedAppendsOutput` states
   * what it does to the accumulator.
   */
  function Feed(acc: Acc, handledIn: Status, output: Option<Output>): Acc {
    match output
    case Some(Outside(c)) =>
      if acc.open.Outside? then Acc(acc.slices, Slice.Outside(acc.open.text + [c]))
      else Acc(acc.slices + [acc.open], Slice.Outside([c]))
    case Some(Comment(c)) =>
      if acc.open.Comment? then Acc(acc.slices, Slice.Comment(acc.open.text + [c]))
      else if acc.open == Slice.Outside("") then Acc(acc.slices, Slice.Comment([c]))
      else Acc(acc.slices + [acc.open], Slice.Comment([c]))
    case None =>
      if handledIn == Status.Comment && acc.open != Slice.Outside("") then
        Acc(acc.slices + [acc.open], Slice.Outside(""))
      else acc
  }

  /**
   * The accumulator gains exactly the step's output, at the end and in a slice of the
   * output's own kind, and never holds an empty slice.
   */
  lemma FeedAppendsOutput(acc: Acc, handledIn: Status, output: Option<Output>)
    ensures Content(Feed(acc, handledIn, output)) == Content(acc) + Emit(output)
    ensures Valid(acc) ==> Valid(Feed(acc, handledIn, output))
  {
    var r := Feed(acc, handledIn, output);
    match output
    case Some(Outside(c)) =>
      if acc.open.Outside? {
        assert Chars(r.open) == Chars(acc.open) + [Output.Outside(c)];
      } else {
        assert (acc.slices + [acc.open])[..|acc.slices|] == acc.slices;
      }
    case Some(Comment(c)) =>
      if acc.open.Comment? {
        assert Chars(r.open) == Chars(acc.open) + [Output.Comment(c)];
      } else if acc.open != Slice.Outside("") {
        assert (acc.slices + [acc.open])[..|acc.slices|] == acc.slices;
      }
    case None =>
      if handledIn == Status.Comment && acc.open != Slice.Outside("") {
        assert (acc.slices + [acc.open])[..|acc.slices|] == acc.slices;
      }
  }

  /** The accumulator after steps `0 .. k-1` have been accumulated. */
  function AccAfter(src: string, k: nat): Acc
    requires k <= |src|
  {
    if k == 0 then Initial
    else Feed(AccAfter(src, k - 1), Run(src, k - 1).0, StepOutput(src, k - 1))
  }

  /** The number of steps whose output is accumulated: all but the last. */
  function Accumulated(src: string): nat {
    if |src| == 0 then 0 else |src| - 1
  }

  /** The open slice is pushed at the end unless it is an empty outside slice. */
  function Finalize(acc: Acc): seq<Slice> {
    if acc.open == Slice.Outside("") then acc.slices else acc.slices + [acc.open]
  }

  /** The slices `parse` collects for `src`. */
  function Slices(src: string): seq<Slice> {
    Finalize(AccAfter(src, Accumulated(src)))
  }

  /** `print!("/*{}*/", format_comment(val))` or `print!("{}", val)` for one slice. */
  function RenderSlice(slice: Slice): string {
    match slice
    case Comment(val) => "/*" + FormatComment(val) + "*/"
    case Outside(val) => val
  }

  /** All slices printed in order. */
  function Render(slices: seq<Slice>): string {
    if slices == [] then "" else Render(slices[..|slices| - 1]) + RenderSlice(slices[|slices| - 1])
  }

  /**
   * The accumulation at the end of each iteration of the scan loop, on the loop's
   * `slices` and `curr_slice`; `handledIn` is `prev_status` after its update.
   */
  method Accumulate(slices: seq<Slice>, currSlice: Slice, handledIn: Status, output: Option<Output>)
    returns (slices': seq<Slice>, currSlice': Slice)
    ensures Acc(slices', currSlice') == Feed(Acc(slices, currSlice), handledIn, output)
  {
    slices', currSlice' := slices, currSlice;
    match output {
      case Some(Outside(c)) =>
        if currSlice'.Outside? {
          currSlice' := Slice.Outside(currSlice'.text + [c]);
        } else {
          var oldSlice := currSlice';
          currSlice' := Slice.Outside([c]);
          slices' := slices' + [oldSlice];
        }
      case Some(Comment(c)) =>
        if currSlice'.Comment? {
          currSlice' := Slice.Comment(currSlice'.text + [c]);
        } else {
          var slice := currSlice';
          currSlice' := Slice.Comment([c]);
          if slice != Slice.Outside("") {
            slices' := slices' + [slice];
          }
        }
      case None =>
        if handledIn == Status.Comment {
          if currSlice' != Slice.Outside("") {
            slices' := slices' + [currSlice'];
            currSlice' := Slice.Outside("");
          }
        }
    }
  }

  /** The `for slice in slices` loop that prints every slice, collecting the text instead. */
  method RenderAll(slices: seq<Slice>) returns (rendered: string)
    ensures rendered == Render(slices)
  {
    rendered := "";
    var i := 0;
    while i < |slices|
      invariant i <= |slices|
      invariant rendered == Render(slices[..i])
    {
      assert slices[..i + 1][..i] == slices[..i];
      match slices[i] {
        case Comment(val) => rendered := rendered + "/*" + FormatComment(val) + "*/";
        case Outside(val) => rendered := rendered + val;
      }
      i := i + 1;
    }
    assert slices[..i] == slices;
  }

  /**
   * The scan loop of `parse`: drives the scanner over `src` and accumulates every step's
   * output except the last one's. The loop runs exactly `|src| + 1` times and its
   * `Status::Broken => break` arm is never taken.
   */
  method Scan(src: string) returns (slices: seq<Slice>, currSlice: Slice, ghost iterations: nat)
    ensures Acc(slices, currSlice) == AccAfter(src, Accumulated(src))
    ensures iterations == |src| + 1
  {
    var status := Status.Dumb;
    var prevStatus := Status.Broken;
    var prev: Option<char> := None;
    var curr: Option<char> := None;
    var pos := 0;  // number of characters `iter` has yielded
    slices := [];
    currSlice := Slice.Outside("");
    iterations := 0;
    ghost var done := 0;  // number of steps handled so far
    while true
      invariant pos <= |src| && iterations == pos
      invariant curr == (if pos == 0 then None else Some(src[pos - 1]))
      invariant prev == (if pos <= 1 then None else Some(src[pos - 2]))
      invariant done == (if pos == 0 then 0 else pos - 1)
      invariant status == Run(src, done).0 && prevStatus == Run(src, done).1
      invariant Acc(slices, currSlice) == AccAfter(src, done)
      decreases |src| - pos
    {
      iterations := iterations + 1;
      ghost var step := if pos == 0 then -1 else done;
      var next: Option<char> := None;
      if pos < |src| {
        next := Some(src[pos]);
        pos := pos + 1;
      }
      var output: Option<Output> := None;
      match (prev, curr) {
        case (None, Some(c)) =>
          assert step == 0 && c == src[0];
          var (s, o) := HandleInDumb(c, next);
          output := o;
          prevStatus := status;
          status := s;
        case (Some(p), Some(c)) =>
          assert step >= 1 && p == src[step - 1] && c == src[step];
          match status {
            case Comment =>
              var (s, o) := HandleInComment(p, c, next, prevStatus);
              output := o;
              prevStatus := status;
              status := s;
            case Dumb =>
              var (s, o) := HandleInDumb(c, next);
              output := o;
              prevStatus := status;
              status := s;
            case String =>
              var (s, o) := HandleInString(p, c);
              output := o;
              prevStatus := status;
              status := s;
            case Broken =>
              assert false;
              break;
          }
        case _ =>
      }
      prev := curr;
      curr := next;
      if status == Status.Broken {
        assert Acc(slices, currSlice) == AccAfter(src, Accumulated(src));
        break;
      }
      if next == None {
        assert Acc(slices, currSlice) == AccAfter(src, Accumulated(src));
        break;
      }
      slices, currSlice := Accumulate(slices, currSlice, prevStatus, output);
      done := pos - 1;
    }
  }

  /**
   * `parse`: scans `src`, pushes the open slice unless it is an empty outside slice, and
   * renders the slices.
   */
  method Parse(src: string) returns (slices: seq<Slice>, rendered: string)
    ensures slices == Slices(src)
    ensures rendered == Render(slices)
  {
    var currSlice;
    ghost var iterations;
    slices, currSlice, iterations := Scan(src);
    if currSlice != Slice.Outside("") {
      slices := slices + [currSlice];
    }
    rendered := RenderAll(slices);
  }
}
