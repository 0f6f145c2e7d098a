/** The line-based SQL splitter of the add_physician_reports migration. Unlike the other scripts'
    splitter it keeps comment lines, appends `DO` lines to the buffer, accepts `DO $tag$`, closes a
    block only on a line whose trimmed text ends with the tag, and trims what it emits. */
module ReportSplitter {
  import opened Wrappers
  import opened Text
  import opened SqlLines

  /** `currentStatement`, `inDoBlock` and `dollarQuoteTag`. */
  datatype ReportState = ReportState(current: string, inBlock: bool, tag: string)

  const Start := ReportState("", false, "")

  /** One line: the new state, and the statement it completes, if any. */
  function Feed(st: ReportState, line: string): (ReportState, Option<string>) {
    var t := Trim(line);
    var cur := st.current + line + "\n";
    if DoDollars(t) then (ReportState(cur, true, "$$"), None)
    else if DoTag(t).Some? then (ReportState(cur, true, DoTag(t).value), None)
    else if st.inBlock && Contains(line, st.tag) then
      if EndsWith(t, st.tag) then (ReportState("", false, ""), Some(Trim(cur)))
      else (st.(current := cur), None)
    else if st.inBlock then (st.(current := cur), None)
    else if EndsWith(t, ";") then (st.(current := ""), Some(Trim(cur)))
    else (st.(current := cur), None)
  }

  /** The statements pushed and the state reached after the lines `lines`, read from `st`. */
  function Run(st: ReportState, lines: seq<string>): (seq<string>, ReportState) {
    if lines == [] then ([], st)
    else
      var (out, mid) := Run(st, lines[..|lines| - 1]);
      var (next, done) := Feed(mid, lines[|lines| - 1]);
      (if done.Some? then out + [done.value] else out, next)
  }

  /** The pushed statements followed by the trimmed leftover buffer, when it is not blank. */
  function Collect(lines: seq<string>): seq<string> {
    var (out, st) := Run(Start, lines);
    if Trim(st.current) != "" then out + [Trim(st.current)] else out
  }

  /** What parseSQLStatements returns. */
  function SplitReportSql(sql: string): seq<string> {
    KeepStatements(Collect(Split(sql, '\n')))
  }

  /** The body of parseSQLStatements' loop for one line; each `return` is the source's `continue`. */
  method FeedLine(current: string, inDoBlock: bool, tag: string, line: string)
    returns (current': string, inDoBlock': bool, tag': string, pushed: Option<string>)
    ensures (ReportState(current', inDoBlock', tag'), pushed) == Feed(ReportState(current, inDoBlock, tag), line)
  {
    current', inDoBlock', tag', pushed := current, inDoBlock, tag, None;
    if DoDollars(Trim(line)) {
      inDoBlock' := true;
      tag' := "$$";
      current' := current + line + "\n";
      return;
    }
    var tagged := DoTag(Trim(line));
    if tagged.Some? {
      inDoBlock' := true;
      tag' := tagged.value;
      current' := current + line + "\n";
      return;
    }
    if inDoBlock && Contains(line, tag) {
      current' := current + line + "\n";
      if EndsWith(Trim(line), tag) {
        inDoBlock' := false;
        pushed := Some(Trim(current'));
        current' := "";
        tag' := "";
      }
      return;
    }
    if inDoBlock {
      current' := current + line + "\n";
      return;
    }
    current' := current + line + "\n";
    if EndsWith(Trim(line), ";") {
      pushed := Some(Trim(current'));
      current' := "";
    }
  }

  /** parseSQLStatements: the loop over the lines, then the leftover buffer and the filter. */
  method ParseStatements(sql: string) returns (statements: seq<string>)
    ensures statements == SplitReportSql(sql)
  {
    var pushed: seq<string> := [];
    var current := "";
    var inDoBlock := false;
    var tag := "";
    var lines := Split(sql, '\n');
    for i := 0 to |lines|
      invariant (pushed, ReportState(current, inDoBlock, tag)) == Run(Start, lines[..i])
    {
      assert lines[..i + 1][..i] == lines[..i];
      var done;
      current, inDoBlock, tag, done := FeedLine(current, inDoBlock, tag, lines[i]);
      if done.Some? {
        pushed := pushed + [done.value];
      }
    }
    assert lines[..|lines|] == lines;
    if Trim(current) != "" {
      pushed := pushed + [Trim(current)];
    }
    statements := KeepStatements(pushed);
  }

  /** A tag ends with `$`, so a trimmed line ending with it does contain it. */
  lemma EndsWithContains(s: string, t: string)
    requires EndsWith(s, t)
    ensures Contains(s, t)
  {
    assert OccursAt(s, t, |s| - |t|);
    ContainsAt(s, t);
  }

  /** Every line is kept in the buffer: comment lines too, and `DO` lines are appended rather than
      replacing what is pending. */
  lemma EveryLineAppended(st: ReportState, line: string)
    requires Feed(st, line).1.None?
    ensures Feed(st, line).0.current == st.current + line + "\n"
  {
  }

  /** A line that completes a statement emits the trimmed buffer with that line appended, and empties
      the buffer. */
  lemma CompletedStatementEndsWithLine(st: ReportState, line: string)
    requires Feed(st, line).1.Some?
    ensures Feed(st, line).0.current == "" && Feed(st, line).1.value == Trim(st.current + line + "\n")
  {
  }

  /** `DO $$` and `DO $word$` open a block with that tag, from any state. */
  lemma DoLineOpensBlock(st: ReportState, line: string)
    requires DoDollars(Trim(line)) || DoTag(Trim(line)).Some?
    ensures Feed(st, line).1.None? && Feed(st, line).0.inBlock
    ensures Feed(st, line).0.tag == (if DoDollars(Trim(line)) then "$$" else DoTag(Trim(line)).value)
    ensures Feed(st, line).0.current == st.current + line + "\n"
  {
  }

  /** Inside a block a line that is not a `DO` line ends it exactly when its trimmed text ends with
      the tag; in particular `END $$;` leaves a `$$` block open. */
  lemma BlockClosesOnlyAtTagEnd(st: ReportState, line: string)
    requires st.inBlock && !DoDollars(Trim(line)) && DoTag(Trim(line)).None?
    ensures Feed(st, line).1.Some? <==> EndsWith(Trim(line), st.tag)
    ensures !EndsWith(Trim(line), st.tag) ==> Feed(st, line).0 == st.(current := st.current + line + "\n")
  {
    if EndsWith(Trim(line), st.tag) {
      EndsWithContains(Trim(line), st.tag);
      assert Contains(line, st.tag) by {
        TrimShape(line);
        var k :| OccursAt(Trim(line), st.tag, k) by { ContainsAt(Trim(line), st.tag); }
        TrimOccurs(line, st.tag, k);
        ContainsAt(line, st.tag);
      }
    }
  }

  /** An occurrence in the trimmed text is an occurrence in the text. */
  lemma TrimOccurs(s: string, p: string, k: int)
    requires OccursAt(Trim(s), p, k)
    ensures exists j :: OccursAt(s, p, j)
  {
    var off := TrimSlice(s);
    SliceOccurs(s, off, |Trim(s)|, p, k);
  }

  /** An occurrence in a slice is an occurrence in the whole text, shifted by the slice's start. */
  lemma SliceOccurs(s: string, off: nat, n: nat, p: string, k: int)
    requires off + n <= |s| && OccursAt(s[off..off + n], p, k)
    ensures OccursAt(s, p, off + k)
  {
    var t := s[off..off + n];
    var u, v := t[k..k + |p|], s[off + k..off + k + |p|];
    assert forall i | 0 <= i < |p| :: u[i] == v[i];
    assert u == v;
  }

  /** `END $$;` ends with `;`, not with `$$`. */
  lemma EndDollarSemicolonKeepsBlockOpen(st: ReportState, line: string)
    requires st.inBlock && st.tag == "$$" && line == "END $$;"
    ensures Feed(st, line) == (st.(current := st.current + line + "\n"), None)
  {
    TrimNoop(line);
    assert AfterDo(line).None?;
    assert !DoDollars(Trim(line)) && DoTag(Trim(line)).None?;
    assert !EndsWith(Trim(line), "$$") by {
      assert line[|line| - 2..] == "$;";
    }
    BlockClosesOnlyAtTagEnd(st, line);
    var next := Feed(st, line);
    assert next.1.None? && next.0 == st.(current := st.current + line + "\n");
  }

  /** Outside blocks, a non-`DO` line completes the statement exactly when its trimmed text ends
      with `;`. */
  lemma SemicolonLineCompletes(st: ReportState, line: string)
    requires !st.inBlock && !DoDollars(Trim(line)) && DoTag(Trim(line)).None?
    ensures Feed(st, line).1.Some? <==> EndsWith(Trim(line), ";")
  {
  }

  /** Every statement returned is trimmed, non-blank and does not start with `--`. */
  lemma {:induction false} RunTrimmed(st: ReportState, lines: seq<string>)
    ensures forall s | s in Run(st, lines).0 :: Trim(s) == s
  {
    if lines != [] {
      var init, line := lines[..|lines| - 1], lines[|lines| - 1];
      RunTrimmed(st, init);
      var (out, mid) := Run(st, init);
      var (next, done) := Feed(mid, line);
      assert Run(st, lines).0 == if done.Some? then out + [done.value] else out;
      if done.Some? {
        CompletedStatementEndsWithLine(mid, line);
        TrimIdempotent(mid.current + line + "\n");
      }
    }
  }

  lemma SplitReportSqlTrimmed(sql: string)
    ensures forall s | s in SplitReportSql(sql) :: Trim(s) == s && s != "" && !StartsWith(s, "--")
  {
    var lines := Split(sql, '\n');
    RunTrimmed(Start, lines);
    var st := Run(Start, lines).1;
    TrimIdempotent(st.current);
  }
}
