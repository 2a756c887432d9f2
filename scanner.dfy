/**
 * The scanner of src/main.rs: the status and output enums and the three per-status step
 * functions. Each step function looks at a window of characters (previous, current and,
 * where it matters, next) and returns the status for the following step together with at
 * most one output character. The Rust placeholder parameters of type `()` are dropped.
 */
module Scanner {
  import opened Wrappers

  /** `enum Status`: where the scanner is. `Broken` signals an unterminated comment. */
  datatype Status = Comment | String | Dumb | Broken

  /** `enum Output`: one character emitted as outside text or as comment text. */
  datatype Output = Outside(c: char) | Comment(c: char)

  /**
   * The `assert_eq!(curr, '*')` at the end of `handle_in_comment` passes or is not reached:
   * one of the earlier returns is taken, or the previous status was `Comment`, or the
   * current character is `*`.
   */
  predicate CommentAssertHolds(prev: char, curr: char, next: Option<char>, prevStatus: Status) {
    || (prev == '*' && curr == '/')
    || next == None
    || (next == Some('/') && curr == '*')
    || prevStatus == Status.Comment
    || curr == '*'
  }

  /** `handle_in_comment`: one step inside a `/* ... */` block. */
  function HandleInComment(prev: char, curr: char, next: Option<char>, prevStatus: Status): (r: (Status, Option<Output>))
    requires CommentAssertHolds(prev, curr, next, prevStatus)
    // never emits outside text, and emits comment text only for the current character
    // of a step whose previous status was already Comment
    ensures r.1 != None ==> r.1 == Some(Output.Comment(curr)) && prevStatus == Status.Comment
    // the comment is left exactly on the `/` of `*/`
    ensures r.0 == Status.Dumb <==> prev == '*' && curr == '/'
    // the comment is unterminated exactly when the lookahead is exhausted before a `*/`
    ensures r.0 == Status.Broken <==> !(prev == '*' && curr == '/') && next == None
    ensures r.0 != Status.String
    // the `*` of a closing `*/` is consumed silently
    ensures curr == '*' && next == Some('/') ==> r == (Status.Comment, None)
    // inside the body, every character other than a delimiter is emitted
    ensures r.1.Some? <==>
      r.0 == Status.Comment && prevStatus == Status.Comment && !(curr == '*' && next == Some('/'))
  {
    if prev == '*' && curr == '/' then (Status.Dumb, None)
    else match next
      case None => (Status.Broken, None)
      case Some(n) =>
        if n == '/' && curr == '*' then (Status.Comment, None)
        else if prevStatus == Status.Comment then (Status.Comment, Some(Output.Comment(curr)))
        else (Status.Comment, None)
  }

  /** `handle_in_string`: one step inside a double-quoted literal. */
  function HandleInString(prev: char, curr: char): (r: (Status, Option<Output>))
    // every character of a literal, the closing quote included, is outside text
    ensures r.1 == Some(Output.Outside(curr))
    // the literal ends exactly on a quote not preceded by a backslash
    ensures r.0 == Status.Dumb <==> curr == '"' && prev != '\\'
    ensures r.0 != Status.Dumb ==> r.0 == Status.String
  {
    if prev != '\\' && curr == '"' then (Status.Dumb, Some(Output.Outside(curr)))
    else (Status.String, Some(Output.Outside(curr)))
  }

  /** `handle_in_dumb`: one step outside strings and comments. */
  function HandleInDumb(curr: char, next: Option<char>): (r: (Status, Option<Output>))
    ensures r.0 != Status.Broken
    // a quote opens a string literal
    ensures r.0 == Status.String <==> curr == '"'
    // a comment is entered only on a `/` whose lookahead is `*`
    ensures r.0 == Status.Comment <==> curr == '/' && next == Some('*')
    // the `/` of `/*` is the only character consumed silently; all others are outside text
    ensures r.1 == None <==> r.0 == Status.Comment
    ensures r.1 != None ==> r.1 == Some(Output.Outside(curr))
  {
    if curr == '"' then (Status.String, Some(Output.Outside(curr)))
    else if curr == '/' && next == Some('*') then (Status.Comment, None)
    else (Status.Dumb, Some(Output.Outside(curr)))
  }
}
