/** The line-based SQL splitter shared, word for word, by the add_users, fix_unique_constraint and
    add_service_type migration scripts. Lines are read one at a time; comment lines are skipped,
    `DO $$` and `$$word$$` lines open a block that runs to the first later line holding its tag,
    and outside blocks a line ending in `;` completes the statement. */
module LineSplitter {
  import opened Wrappers
  import opened Text
  import opened SqlLines

  /** `current`, `inDoBlock` and `dollarQuote` (None for `null`). */
  datatype LineState = LineState(current: string, inBlock: bool, quote: Option<string>)

  const Start := LineState("", false, None)

  /** A block is open exactly when its tag is recorded. */
  predicate WellFormed(st: LineState) { st.inBlock <==> st.quote.Some? }

  /** The text `includes` searches for: a `null` tag is converted to the string "null". */
  function QuoteText(q: Option<string>): string {
    if q.Some? then q.value else "null"
  }

  /** One line: the new state, and the statement it completes, if any. */
  function Feed(st: LineState, line: string): (LineState, Option<string>) {
    var t := Trim(line);
    if StartsWith(t, "--") then (st, None)
    else if DoDollars(t) then (LineState(t, true, Some("$$")), None)
    else if !st.inBlock && Contains(t, "$$") && FirstPair(t).Some? then (LineState(t, true, FirstPair(t)), None)
    else if st.inBlock then
      var cur := st.current + "\n" + line;
      if Contains(t, QuoteText(st.quote)) then (LineState("", false, None), Some(cur))
      else (st.(current := cur), None)
    else if t != "" then
      var cur := if st.current != "" then st.current + "\n" + line else line;
      if EndsWith(t, ";") then (st.(current := ""), Some(cur))
      else (st.(current := cur), None)
    else (st, None)
  }

  /** The statements pushed and the state reached after the lines `lines`, read from `st`. */
  function Run(st: LineState, lines: seq<string>): (seq<string>, LineState) {
    if lines == [] then ([], st)
    else
      var (out, mid) := Run(st, lines[..|lines| - 1]);
      var (next, done) := Feed(mid, lines[|lines| - 1]);
      (if done.Some? then out + [done.value] else out, next)
  }

  /** The pushed statements followed by the leftover buffer, when it is not blank. */
  function Collect(lines: seq<string>): seq<string> {
    var (out, st) := Run(Start, lines);
    if Trim(st.current) != "" then out + [st.current] else out
  }

  /** What parseSQLStatements returns. */
  function SplitByLines(sql: string): seq<string> {
    KeepStatements(Collect(Split(sql, '\n')))
  }

  /** The body of parseSQLStatements' loop for one line; each `return` is the source's `continue`. */
  method FeedLine(current: string, inDoBlock: bool, dollarQuote: Option<string>, line: string)
    returns (current': string, inDoBlock': bool, dollarQuote': Option<string>, pushed: Option<string>)
    ensures (LineState(current', inDoBlock', dollarQuote'), pushed) == Feed(LineState(current, inDoBlock, dollarQuote), line)
  {
    current', inDoBlock', dollarQuote', pushed := current, inDoBlock, dollarQuote, None;
    var trimmed := Trim(line);
    if StartsWith(trimmed, "--") {
      return;
    }
    if DoDollars(trimmed) {
      inDoBlock' := true;
      dollarQuote' := Some("$$");
      current' := trimmed;
      return;
    }
    if !inDoBlock && Contains(trimmed, "$$") {
      var matches := FirstPair(trimmed);
      if matches.Some? {
        dollarQuote' := matches;
        inDoBlock' := true;
        current' := trimmed;
        return;
      }
    }
    if inDoBlock {
      current' := current + "\n" + line;
      if Contains(trimmed, QuoteText(dollarQuote)) {
        pushed := Some(current');
        current' := "";
        inDoBlock' := false;
        dollarQuote' := None;
      }
      return;
    }
    if trimmed != "" {
      current' := current + (if current != "" then "\n" else "") + line;
      assert current == "" ==> current' == line;
      if EndsWith(trimmed, ";") {
        pushed := Some(current');
        current' := "";
      }
    }
  }

  /** parseSQLStatements: the loop over the lines, then the leftover buffer and the filter. */
  method ParseStatements(sql: string) returns (statements: seq<string>)
    ensures statements == SplitByLines(sql)
  {
    var pushed: seq<string> := [];
    var current := "";
    var inDoBlock := false;
    var dollarQuote: Option<string> := None;
    var lines := Split(sql, '\n');
    for i := 0 to |lines|
      invariant (pushed, LineState(current, inDoBlock, dollarQuote)) == Run(Start, lines[..i])
    {
      assert lines[..i + 1][..i] == lines[..i];
      var done;
      current, inDoBlock, dollarQuote, done := FeedLine(current, inDoBlock, dollarQuote, lines[i]);
      if done.Some? {
        pushed := pushed + [done.value];
      }
    }
    assert lines[..|lines|] == lines;
    if Trim(current) != "" {
      pushed := pushed + [current];
    }
    statements := KeepStatements(pushed);
  }

  /** Every line keeps a state well formed: a block is open exactly while a tag is recorded. */
  lemma FeedKeepsWellFormed(st: LineState, line: string)
    requires WellFormed(st)
    ensures WellFormed(Feed(st, line).0)
  {
  }

  /** A line whose trimmed text starts with `--` is skipped: nothing changes, even inside a block. */
  lemma CommentLineIgnored(st: LineState, line: string)
    requires StartsWith(Trim(line), "--")
    ensures Feed(st, line) == (st, None)
  {
  }

  /** A `DO $$` line opens a block holding just that line, whatever was pending: an unfinished
      statement, or an open block, is discarded. */
  lemma DoLineDiscardsPending(st1: LineState, st2: LineState, line: string)
    requires !StartsWith(Trim(line), "--") && DoDollars(Trim(line))
    ensures Feed(st1, line) == Feed(st2, line)
    ensures Feed(st1, line) == (LineState(Trim(line), true, Some("$$")), None)
  {
  }

  /** Outside a block, a line opens one when it holds a `$$word$$` pair; the recorded tag is the
      first pair, and there is no pair without two `$$` markers. */
  lemma PairOpensBlock(st: LineState, line: string)
    requires !st.inBlock && !StartsWith(Trim(line), "--") && !DoDollars(Trim(line))
    ensures Feed(st, line).0.inBlock <==> FirstPair(Trim(line)).Some?
    ensures FirstPair(Trim(line)).Some? ==>
      Feed(st, line) == (LineState(Trim(line), true, FirstPair(Trim(line))), None)
      && exists i, j | 0 <= i && i + 2 <= j ::
           OccursAt(Trim(line), "$$", i) && OccursAt(Trim(line), "$$", j)
  {
    var t := Trim(line);
    if FirstPair(t).Some? {
      PairNeedsTwoMarkers(t);
      var q := FirstPairAt(t, 0).value;
      assert OccursAt(t, PairAt(t, q).value, q);
      assert t[q..q + 2] == "$$";
      assert StartsWith(t[q..], "$$");
      ContainsAt(t, "$$");
    }
  }

  /** Inside a block every later line is appended, blank or not; the block ends, emitting the
      buffer, at the first line whose trimmed text contains the tag. */
  lemma BlockKeepsEveryLine(st: LineState, line: string)
    requires st.inBlock && !StartsWith(Trim(line), "--") && !DoDollars(Trim(line))
    ensures var (next, done) := Feed(st, line);
      && (done.Some? <==> Contains(Trim(line), QuoteText(st.quote)))
      && (done.Some? ==> done.value == st.current + "\n" + line && next == Start)
      && (done.None? ==> next == st.(current := st.current + "\n" + line))
  {
  }

  /** Outside blocks, a blank line changes nothing, and a non-blank line is added to the buffer,
      which is emitted when the trimmed line ends with `;`. */
  lemma RegularLine(st: LineState, line: string)
    requires !st.inBlock && !StartsWith(Trim(line), "--") && !DoDollars(Trim(line))
    requires FirstPair(Trim(line)).None?
    ensures var (next, done) := Feed(st, line);
      var cur := if st.current == "" then line else st.current + "\n" + line;
      && (Trim(line) == "" ==> next == st && done.None?)
      && (Trim(line) != "" ==>
            && (done.Some? <==> EndsWith(Trim(line), ";"))
            && (done.Some? ==> done.value == cur && next == st.(current := ""))
            && (done.None? ==> next == st.(current := cur)))
  {
  }

  /** The lines of a block that do not hold its tag (and are not `DO $$` lines) emit nothing:
      the block stays open with the same tag, its buffer only growing. */
  lemma {:induction false} BlockHoldsUntilTag(st: LineState, lines: seq<string>)
    requires st.inBlock && st.quote.Some?
    requires forall k | 0 <= k < |lines| :: !Contains(Trim(lines[k]), st.quote.value) && !DoDollars(Trim(lines[k]))
    ensures Run(st, lines).0 == []
    ensures Run(st, lines).1.inBlock && Run(st, lines).1.quote == st.quote
    ensures StartsWith(Run(st, lines).1.current, st.current)
  {
    if lines != [] {
      var init, line := lines[..|lines| - 1], lines[|lines| - 1];
      assert forall k | 0 <= k < |init| :: init[k] == lines[k];
      BlockHoldsUntilTag(st, init);
      var (out, mid) := Run(st, init);
      assert !Contains(Trim(line), st.quote.value) && !DoDollars(Trim(line));
      BlockLineHolds(st.current, mid, line);
    }
  }

  /** One line of a block without its tag keeps the block open and only adds to its buffer. */
  lemma BlockLineHolds(prefix: string, mid: LineState, line: string)
    requires mid.inBlock && mid.quote.Some? && StartsWith(mid.current, prefix)
    requires !Contains(Trim(line), mid.quote.value) && !DoDollars(Trim(line))
    ensures var (next, done) := Feed(mid, line);
      done.None? && next.inBlock && next.quote == mid.quote && StartsWith(next.current, prefix)
  {
    var next := Feed(mid, line).0;
    if StartsWith(Trim(line), "--") {
      CommentLineIgnored(mid, line);
    } else {
      BlockKeepsEveryLine(mid, line);
      assert next.current == mid.current + ("\n" + line);
      assert next.current[..|prefix|] == mid.current[..|prefix|];
    }
  }

  /** Every statement returned is non-blank and does not start with `--`, and each was pushed or
      left over in that order. */
  lemma SplitByLinesKept(sql: string)
    ensures forall s | s in SplitByLines(sql) :: Kept(s) && s in Collect(Split(sql, '\n'))
  {
  }
}
