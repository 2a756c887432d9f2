# comment_style in Dafny

A model of `comment_style`, a small Rust program that reads a source file, splits it into
outside text and `/* ... */` block comments, and prints it back. Multi-line comment
bodies are reformatted on the way out.

It works in two stages:

- **Scanning.** A scanner walks over the input one character at a time. It keeps a window
  of three characters (previous, current and next). It also keeps a status (`Dumb` for
  outside text, `String` inside a double-quoted literal, `Comment` inside a block comment,
  `Broken` for an unterminated comment) and the status of the step before.
- **Accumulation.** Each step emits at most one character, tagged as outside text or as
  comment text. An accumulator groups these characters into slices. `parse` then prints
  each outside slice as it is, and each comment slice between `/*` and `*/` after
  `format_comment`.

The model has six modules, one file each:

- `Wrappers` (`wrappers.dfy`): the `Option` type.
- `Scanner` (`scanner.dfy`): the `Status` and `Output` enums and the three step functions
  of src/main.rs.
- `Format` (`format.dfy`): `format_comment`, together with the `split('\n')` and
  `join("\n")` it relies on.
- `Parse` (`parse.dfy`): `parse`. The method `Parse.Scan` keeps the source's loop and its
  variables. `Parse.Accumulate` is the `match output` block, and `Parse.RenderAll` is the
  printing loop. Each of them is proved against a specification function:
  - `Run(src, i)` gives the (status, previous status) pair before step `i`.
  - `AccAfter(src, k)` gives the accumulator after `k` accumulated steps.
  - `Slices(src)` gives the finished list of slices.
  - `Render(slices)` gives the printed text.
- `ParseLemmas` (`parse_lemmas.dfy`): what `parse` does, proved on those functions.
- `TestScan` (`test_scan.dfy`): src/test.rs. Its `handle_in_comment` has no assertion,
  and its `main` runs the bare scan loop over one fixed comment.

The model follows the code as written. Some consequences:

- **The last step's output is never printed.** The loop breaks on an exhausted lookahead
  before it accumulates that step's output, so whatever the last step emits is lost.
  - For input without `"` and without `/*`, the output is the input minus its last
    character, not the input itself (`PlainTextDropsLast`).
  - So printing is not idempotent: every further pass drops one more character
    (`PrintingIsNotIdempotent`).
  - A comment that ends the input is not affected, because its slice is pushed at the
    `*` of `*/`. So `/*X*/` prints back unchanged if `X` is non-empty, does not start
    with `/`, and holds no `*/` and no newline (`CommentRoundTrip`).
- **An unterminated comment is still printed.** It is not reported as an error. Take
  plain text (no `"` and no `/*`) followed by `/*` and a body that does not start with
  `/` and holds no `*/`. The text before the comment is printed. When the body has at least two characters, what
  was collected of it follows: the body without its last character, inside `/*` and `*/`
  as if it had been closed. A shorter body prints nothing
  (`UnterminatedCommentStillPrinted`). For example, `code/*oops` prints as `code/*oop*/`.
- **`format_comment` tests a stale index.** It decides whether to append trailing
  newlines by looking at the segment at `last_idx`. That index is computed before the
  leading segment is prepended. Three consequences:
  - For a body that does not start with a newline, a blank second-to-last line
    suppresses the trailing newlines (`Format.BlankLineHidesLastLine`).
  - For a body that does not start with a newline and whose line before the last is not
    blank, ending in a newline does not prevent them (`Format.EmptyLastLineStillPadded`).
  - Formatting is not idempotent, but it settles after two passes (`Format.FormatSettlesAfterTwoPasses`).
- **The padding is two newlines at each end.** The segment prepended and appended is
  `"\n"` itself, and joining puts one more newline next to it. `/*a\nb*/` prints as
  `/*\n\na\nb\n\n*/` (`TwoLineComment`).
- **`/*/` opens and closes a comment.** The `*` of `/*` also counts as the `*` of `*/`
  (`OpeningStarAlsoCloses`).
- **An empty comment `/**/` produces no slice** (`EmptyCommentLeavesNoSlice`).

## Model

| member | source | states |
|---|---|---|
| Scanner.CommentAssertHolds | src/main.rs:39 | No contract of its own: exactly when the `assert_eq!(curr, '*')` passes or is not reached (an earlier return is taken, or `prev_status` is `Comment`, or `curr` is `*`). `Parse.Run` proves every call meets it. |
| Scanner.HandleInComment | src/main.rs:21-41 | Under the assertion's condition as precondition: the comment is left exactly on the `/` of `*/`; it breaks exactly when there is no lookahead and no `*/` ends here; the `*` before a `/` is silent; a character is emitted, as comment text, exactly when the step stays in the comment, the previous status was `Comment`, and it is not the `*` of `*/`. |
| Scanner.HandleInString | src/main.rs:44-53 | Every character of a literal, the closing quote included, is emitted as outside text; the literal ends exactly on a quote not preceded by a backslash. |
| Scanner.HandleInDumb | src/main.rs:55-67 | Never breaks; a quote opens a string; a comment opens exactly on `/` with lookahead `*`, and that step alone emits nothing; every other character is emitted as outside text. |
| Parse.Next | src/main.rs:81 | No contract of its own: the lookahead `iter.next()` yields while `src[i]` is current, `None` at the end. |
| Parse.StepOutput | src/main.rs:82-114 | No contract of its own: the output of step `i`, from the handler `StepAt` picks. `CommentTextOnlyInsideComment` and `Emitted` state what it is. |
| Parse.Accumulated | src/main.rs:119-126 | No contract of its own: the number of steps whose output is accumulated, the input's length minus one (zero for empty input), because the `break` on an exhausted lookahead comes before the accumulation. `PlainTextDropsLast` shows the effect. |
| Parse.StepAt | src/main.rs:83-114 | No contract of its own: the handler each step dispatches to, `handle_in_dumb` for the first character and otherwise by status. `Run` and `StepOutput` are built on it, and the lemmas about them state what it does. |
| Parse.Run | src/main.rs:80-124 | The loop invariant: `Broken` can only be the status after the last step; a comment just entered is looking at the `*` that opened it, so every call of `handle_in_comment` satisfies its assertion; the previous status is never `Broken` after the first step. |
| Parse.FeedAppendsOutput | src/main.rs:126-157 | One accumulation step adds exactly the step's output to the accumulated characters, at the end and in a slice of its own kind, and never creates an empty slice. |
| Parse.Feed | src/main.rs:126-157 | No contract of its own: the accumulation step, arm by arm as the `match output` block. `FeedAppendsOutput` states what it does. |
| Parse.AccAfter | src/main.rs:80-157 | No contract of its own: the accumulator after `k` accumulated steps. `AccAfterHoldsEmitted` states what it holds. |
| Parse.Accumulate | src/main.rs:126-157 | The `match output` block changes `slices` and `curr_slice` exactly as the accumulation step `Feed`. |
| Parse.Finalize | src/main.rs:160-163 | No contract of its own: pushes the open slice unless it is an empty outside slice. `AccumulationKeepsEveryChar` states what the finished slices hold. |
| Parse.Slices | src/main.rs:73-163 | No contract of its own: the slices `parse` collects. `AccumulationKeepsEveryChar`, `PlainTextDropsLast`, `CommentRoundTrip` and the other `ParseLemmas` state what they are. |
| Parse.RenderSlice | src/main.rs:166-169 | No contract of its own: one slice as printed, a comment between `/*` and `*/` after `format_comment`, outside text as is. `RenderSnoc` and `RenderConcat` state how it composes. |
| Parse.Render | src/main.rs:165-170 | No contract of its own: the slices printed in order. `RenderSnoc` and `RenderConcat` state that it distributes over concatenation. |
| Parse.RenderAll | src/main.rs:165-170 | The printing loop produces the slices rendered in order: comments wrapped in `/*`, `*/` after formatting, outside text as is. |
| Parse.Scan | src/main.rs:73-158 | The scan loop ends with the accumulator holding every step's output except the last one's; it runs exactly once more than the input has characters, and its `Status::Broken => break` arm is never taken. |
| Parse.Parse | src/main.rs:70-171 | `parse` collects `Slices(src)`: the scan result plus the open slice unless it is an empty outside slice; it prints their rendering. |
| Format.LastNewline | src/main.rs:177 | The position of the last newline of a string that has one. |
| Format.Split | src/main.rs:177 | `split('\n')`: at least one segment, none holding a newline; joining them with newlines gives the input back; there are two or more exactly when the input has a newline; the first (last) segment is empty exactly when the input is empty or starts (ends) with a newline. |
| Format.Join | src/main.rs:189 | No contract of its own: `join("\n")`, the segments with one newline between each two. `Format.Split` and `Format.JoinPrepend` state its properties. |
| Format.AppendsSuffix | src/main.rs:178-186 | No contract of its own: the stale-index test `!slices[last_idx].is_empty()`, with `last_idx` taken before the optional prepend. `Format.FormatComment` uses it, and `BlankLineHidesLastLine` and `EmptyLastLineStillPadded` show its effect. |
| Format.JoinPrepend | src/main.rs:179-182 | Prepending a segment before joining puts it and one newline in front of the joined text. |
| Format.FormatComment | src/main.rs:173-190 | A body without newline is returned unchanged; a multi-line body gains `"\n\n"` in front unless it starts with a newline, and `"\n\n"` at the end when the segment at the stale index `last_idx` is non-empty. |
| Format.FormattedStartsWithNewline | src/main.rs:179-185 | A formatted multi-line body always starts with a newline. |
| Format.FramedBodyUnchanged | src/main.rs:173-190 | A body that starts and ends with a newline is left unchanged. |
| Format.LeadingNewlineKept | src/main.rs:178-188 | A multi-line body that starts with a newline only gains `"\n\n"` at its end, and only when it does not end with a newline. |
| Format.FormatSettlesAfterTwoPasses | src/main.rs:173-190 | After two passes a multi-line body starts and ends with a newline, and a third pass changes nothing. |
| Format.LastNewlineAt | src/main.rs:177 | A newline with none after it is the last newline. |
| Format.TwoLinesFramed | src/main.rs:173-190 | Two non-empty lines gain `"\n\n"` at each end. |
| Format.BlankLineHidesLastLine | src/main.rs:178-188 | For `a` non-empty and `a`, `b` without newlines, a body `a\n\nb` (blank line before the last newline) gets `"\n\n"` in front and no trailing newlines, whatever `b` is. |
| Format.SecondPassAddsSuffix | src/main.rs:178-188 | For `a` and `b` non-empty and without newlines, a second pass over `a\n\nb` adds the trailing newlines, so the result differs from the first pass. |
| Format.EmptyLastLineStillPadded | src/main.rs:178-188 | For `a` and `b` non-empty and without newlines, a body `a\nb\n`, whose last line is empty, still gets `"\n\n"` at each end. |
| ParseLemmas.AccAfterHoldsEmitted | src/main.rs:80-157 | After `k` accumulated steps the accumulator holds exactly the outputs of those steps, in order, and no empty slice. |
| ParseLemmas.AccumulationKeepsEveryChar | src/main.rs:126-163 | The slices `parse` prints hold every accumulated output exactly once, in scan order, each in a slice of its kind, and none is empty. |
| ParseLemmas.CommentEnteredOnlyFromDumb | src/main.rs:83-114 | A comment is entered only from outside text, on a `/` whose lookahead is `*`. |
| ParseLemmas.CommentTextOnlyInsideComment | src/main.rs:83-114 | Comment text is emitted only by a step in a comment whose previous step was in the comment too, and it is the current character; every character handled inside a string is emitted unchanged as outside text. |
| ParseLemmas.PlainSteps | src/main.rs:80-134 | Over a prefix without `"` and `/*` the scan stays outside and collects the prefix as one outside slice. |
| ParseLemmas.PlainTextDropsLast | src/main.rs:70-171 | Input without `"` and `/*` yields one outside slice holding all but its last character (none for input of length 0 or 1), and prints as the input without its last character. |
| ParseLemmas.EmptyInputPrintsNothing | src/main.rs:70-171 | Empty input yields no slices and prints nothing. |
| ParseLemmas.PrintingIsNotIdempotent | src/main.rs:70-171 | `ab` prints as `a`, and printing that again gives the empty text. |
| ParseLemmas.CommentSteps | src/main.rs:93-156 | Inside an open comment every character of its body is collected into one comment slice, after the outside text before it has been pushed. |
| ParseLemmas.StaysInComment | src/main.rs:21-41 | Inside a comment with no `*/` the scan stays in the comment. |
| ParseLemmas.FeedCommentChar | src/main.rs:135-137 | Comment text extends an open comment slice. |
| ParseLemmas.OpeningSteps | src/main.rs:135-156 | The `/` and `*` opening a comment after plain text emit nothing; the text before is pushed (unless empty) and the comment is entered. |
| ParseLemmas.InCommentStep | src/main.rs:21-41 | A step inside a comment that closes neither at its own character nor at the next emits its character as comment text and stays in the comment. |
| ParseLemmas.OpenOverBody | src/main.rs:21-41 | A `/*` after plain text followed by a body without closer opens a comment that stays open over that body. |
| ParseLemmas.CommentRoundTrip | src/main.rs:70-190 | `/*X*/`, with `X` non-empty, not starting with `/` and holding no `*/`, yields the one comment slice `X`, ends outside, and prints as `/*` + `format_comment(X)` + `*/`; so exactly as written when `X` has no newline. |
| ParseLemmas.WrappedSteps | src/main.rs:80-157 | For `/*X*/` all but the last step are accumulated, leaving the comment slice `X` pushed and an empty open slice, and the scan ends outside. |
| ParseLemmas.ClosingSteps | src/main.rs:146-156 | At `*/` the `*` pushes the comment slice and opens an empty outside slice, and the `/` returns the scan to outside. |
| ParseLemmas.UnterminatedRun | src/main.rs:29-32 | A comment still open at the last character makes the last step `Broken`. |
| ParseLemmas.UnterminatedSlices | src/main.rs:119-163 | The slices of such an input are the text before the comment and what was collected of the body before the last character. |
| ParseLemmas.BreakStep | src/main.rs:29-32 | The last step inside a comment that does not close there breaks the scan. |
| ParseLemmas.RenderSnoc | src/main.rs:165-170 | Printing one more slice appends that slice's rendering to what was printed before. |
| ParseLemmas.RenderConcat | src/main.rs:165-170 | Printing two lists of slices one after the other prints the first list and then the second. |
| ParseLemmas.UnterminatedCommentStillSliced | src/main.rs:70-163 | Plain text `p` followed by `/*` and a body without closer (non-empty, not starting with `/`, no `*/`) ends the scan in `Broken`, and yields an outside slice `p` only when `p` is non-empty, then a comment slice holding the body without its last character only when the body has at least two characters. |
| ParseLemmas.UnterminatedCommentStillPrinted | src/main.rs:70-190 | Such an input prints as `p`, followed, only when the body has at least two characters, by the body without its last character, formatted, between `/*` and `*/`; a one-character body prints as `p` alone. |
| ParseLemmas.ExamplePremises | src/main.rs:173-176 | `code` is plain text, `oops` has no closer, and `oop` is left as is by the formatter. |
| ParseLemmas.UnterminatedCommentExample | src/main.rs:70-190 | `code/*oops` prints as `code/*oop*/`. |
| ParseLemmas.TwoLineComment | src/main.rs:70-190 | For `a` and `b` non-empty and without newlines, with `a\nb` holding no closer and not starting with `/`, the comment `/*a\nb*/` prints as `/*\n\na\nb\n\n*/`. |
| ParseLemmas.AdjacentCommentsAreTwoSlices | src/main.rs:135-156 | `/*a*//*b*/` yields exactly the comment slices `a` and `b`, with no outside slice between them. |
| ParseLemmas.OpeningStarAlsoCloses | src/main.rs:26-35 | In `a/*/bc` the `*` both opens and closes the comment: the slices are `a` and `b`. |
| ParseLemmas.EmptyCommentLeavesNoSlice | src/main.rs:135-163 | `/**/xy` yields only the outside slice `x`. |
| ParseLemmas.StringHidesCommentOpener | src/main.rs:44-53 | Inside a string literal `/*` is plain text: `"/*"x` yields the one outside slice `"/*"`. |
| TestScan.HandleInComment | src/test.rs:19-34 | The same transitions as the main version, on every input; where the main version's assertion would fail, the step stays in the comment silently. |
| TestScan.CommentAgreesWithMain | src/test.rs:19-34 | Wherever the main version's assertion holds, both versions of `handle_in_comment` agree. |
| TestScan.ScanLoop | src/test.rs:57-109 | The bare scan loop ends in the same state as `parse`'s scan, after exactly one iteration more than the input has characters, without taking its `Broken` arm. |
| TestScan.TestBodyHasNoCloser | src/test.rs:56 | The fixed comment's body does not start with `/` and holds no `*/`. |
| TestScan.TestMain | src/test.rs:55-110 | The test's scan of `/* hey, just comments */` ends outside, right after the comment. |
| TestScan.TestInputNeverBroken | src/test.rs:56-108 | No step of the test's scan ends in `Broken`. |

## Left out

- `main` and `help` (src/main.rs:192-215) are not modelled. They read the file named on the command line, and print a usage line when that fails. This is I/O.
- `print!` in `parse` is not modelled: the printed text is returned as a string instead, with the same contents.
- `src.chars()` is modelled as an index into a `seq<char>`. UTF-8 decoding is not modelled.
- The step functions lose the Rust placeholder parameters of type `()`.
- `mem::replace` and `String::push` on `curr_slice` are modelled as reassigning immutable values.
- src/main.rs:39: the `assert_eq!(curr, '*')` is not a runtime check here. It is a precondition of `Scanner.HandleInComment`, and `Parse.Run` proves that every call meets it, so the panic cannot happen.
- src/test.rs:1-16, 37-52: the enums, `handle_in_string` and `handle_in_dumb` are identical to those of src/main.rs, so `TestScan` uses `Scanner`'s definitions instead of copies.
- src/test.rs:64: the test loop's unused `output` is not modelled.
- Parse.Scan, TestScan.ScanLoop: the `Status::Broken => break` arm is not modelled as a branch that can run; the model proves it cannot be reached. The loop's `iterations` count is ghost.
