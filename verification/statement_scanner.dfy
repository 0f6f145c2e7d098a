/** The migration runner's SQL splitter: a character scan that tracks single quotes, double quotes,
    dollar quotes (`$tag$ ... $tag$`) and `--` line comments, and cuts a statement at every `;`
    outside all of them.

    The model describes the result by spans of the input: `Spans` lists, in order, the
    stretches of text that were flushed and kept, and each statement is the trimmed text of its span. */
module StatementScanner {
  import opened Wrappers
  import opened Text

  /** The half-open stretch `sql[from..to]`. */
  datatype Span = Span(from: nat, to: nat)

  /** The scanner's flags; `start` is where the pending buffer begins, so the buffer is `sql[start..i]`. */
  datatype Scan = Scan(start: nat, inDollar: bool, tag: string, inSingle: bool, inDouble: bool, inComment: bool)

  /** One step of the scan: the new flags, the next index, and the span emitted by a `;`, if any. */
  datatype Advance = Advance(st: Scan, next: nat, span: Option<Span>)

  const Init := Scan(0, false, "", false, false, false)

  predicate Quoted(st: Scan) { st.inDollar || st.inSingle || st.inDouble }

  /** A flushed buffer is kept when its trimmed text is not empty and does not start with `--`. */
  predicate Keep(s: string) { s != "" && !StartsWith(s, "--") }

  /** The same test on the untrimmed buffer: past the leading whitespace there is a character, and
      it does not open `--`. */
  predicate Kept(s: string)
    decreases |s|
  {
    if s == [] then false
    else if IsSpace(s[0]) then Kept(s[1..])
    else !(|s| >= 2 && s[0] == '-' && s[1] == '-')
  }

  /** Testing the buffer is testing its trimmed text. */
  lemma {:induction false} KeptIsKeep(s: string)
    ensures Kept(s) == Keep(Trim(s))
    decreases |s|
  {
    if s == [] {
      assert Trim(s) == [];
    } else {
      if IsSpace(s[0]) {
        assert Kept(s) == Kept(s[1..]);
        KeptIsKeep(s[1..]);
        TrimSkipsSpace(s);
      } else {
        assert Kept(s) == !(|s| >= 2 && s[0] == '-' && s[1] == '-');
        KeepAtText(s);
      }
    }
  }

  /** Leading whitespace is trimmed away. */
  lemma TrimSkipsSpace(s: string)
    requires s != [] && IsSpace(s[0])
    ensures Trim(s) == Trim(s[1..])
  {
  }

  /** A buffer that starts with text is kept unless that text opens `--`. */
  lemma KeepAtText(s: string)
    requires s != [] && !IsSpace(s[0])
    ensures Keep(Trim(s)) == !(|s| >= 2 && s[0] == '-' && s[1] == '-')
  {
    var r := TrimEnd(s);
    assert TrimStart(s) == s;
    assert r != [] && r[0] == s[0];
    if |s| >= 2 && s[0] == '-' && s[1] == '-' {
      assert |r| >= 2 && r[..2] == "--";
    }
  }

  /** The first `$` at or after `from`: where the dollar-quote pattern `^\$([^$]*)\$` ends. */
  function NextDollar(sql: string, from: nat): (r: Option<nat>)
    ensures r.Some? ==> from <= r.value < |sql| && sql[r.value] == '$'
    ensures r.Some? ==> forall k | from <= k < r.value :: sql[k] != '$'
    ensures r.None? ==> forall k | from <= k < |sql| :: sql[k] != '$'
    decreases |sql| - from
  {
    if from >= |sql| then None
    else if sql[from] == '$' then Some(from)
    else NextDollar(sql, from + 1)
  }

  /** One iteration of the scan at index `i`. */
  function Step(sql: string, st: Scan, i: nat): (a: Advance)
    requires st.start <= i < |sql|
    ensures i < a.next <= |sql| && a.st.start <= a.next
    ensures a.st.start == st.start || a.st.start == i + 1
    ensures a.span.Some? ==> a.span.value == Span(st.start, i + 1) && a.st.start == i + 1 && sql[i] == ';'
    ensures a.span.Some? ==> Kept(sql[st.start..i + 1])
  {
    var c := sql[i];
    if c == '-' && i + 1 < |sql| && sql[i + 1] == '-' && !Quoted(st) then
      Advance(st.(inComment := true), i + 1, None)
    else if st.inComment then
      Advance(st.(inComment := c != '\n'), i + 1, None)
    else if c == '$' && !st.inSingle && !st.inDouble && NextDollar(sql, i + 1).Some? then
      var j := NextDollar(sql, i + 1).value;
      var m := sql[i..j + 1];
      var st' :=
        if !st.inDollar then st.(inDollar := true, tag := m)
        else if m == st.tag then st.(inDollar := false, tag := "")
        else st;
      Advance(st', j + 1, None)
    else
      var single := if c == '\'' && !st.inDollar && !st.inDouble then !st.inSingle else st.inSingle;
      var double := if c == '"' && !st.inDollar && !single then !st.inDouble else st.inDouble;
      if c == ';' && !st.inDollar && !single && !double then
        var kept := Kept(sql[st.start..i + 1]);
        Advance(st.(start := i + 1, inSingle := single, inDouble := double), i + 1,
                if kept then Some(Span(st.start, i + 1)) else None)
      else
        Advance(st.(inSingle := single, inDouble := double), i + 1, None)
  }

  /** Spans in input order, not overlapping, non-empty and inside `[lo, hi)`. */
  predicate Ordered(sp: seq<Span>, lo: nat, hi: nat) {
    && (forall k | 0 <= k < |sp| :: lo <= sp[k].from < sp[k].to <= hi)
    && (forall k, l | 0 <= k < l < |sp| :: sp[k].to <= sp[l].from)
  }

  /** Spans inside `[lo, hi)`, each non-empty. */
  predicate Within(sp: seq<Span>, lo: nat, hi: nat) {
    forall k | 0 <= k < |sp| :: lo <= sp[k].from < sp[k].to <= hi
  }

  /** The spans emitted from index `i` on, including the final flush of the buffer. */
  function Spans(sql: string, st: Scan, i: nat): (r: seq<Span>)
    requires st.start <= i <= |sql|
    ensures Within(r, st.start, |sql|)
    decreases |sql| - i
  {
    if i == |sql| then
      if Kept(sql[st.start..]) then [Span(st.start, |sql|)] else []
    else
      var a := Step(sql, st, i);
      var rest := Spans(sql, a.st, a.next);
      if a.span.Some? then [a.span.value] + rest else rest
  }

  /** One step of the scan followed by the rest of it. */
  lemma SpansStep(sql: string, st: Scan, i: nat)
    requires st.start <= i < |sql|
    ensures var a := Step(sql, st, i);
      Spans(sql, st, i) == (if a.span.Some? then [a.span.value] else []) + Spans(sql, a.st, a.next)
  {
    var a := Step(sql, st, i);
    if a.span.None? {
      assert [] + Spans(sql, a.st, a.next) == Spans(sql, a.st, a.next);
    }
  }

  /** Spans one after the other from `lo` on, each non-empty and ending by `hi`. */
  predicate Chain(sp: seq<Span>, lo: nat, hi: nat) {
    sp == [] || (lo <= sp[0].from < sp[0].to <= hi && Chain(sp[1..], sp[0].to, hi))
  }

  lemma ChainCons(x: Span, rest: seq<Span>, lo: nat, hi: nat)
    requires lo <= x.from < x.to <= hi && Chain(rest, x.to, hi)
    ensures Chain([x] + rest, lo, hi)
  {
    assert ([x] + rest)[1..] == rest;
  }

  /** A chain from `mid` is a chain from any earlier point. */
  lemma ChainWeaken(sp: seq<Span>, lo: nat, mid: nat, hi: nat)
    requires lo <= mid && Chain(sp, mid, hi)
    ensures Chain(sp, lo, hi)
  {
  }

  /** The spans of the scan form a chain. */
  lemma {:induction false} SpansChain(sql: string, st: Scan, i: nat)
    requires st.start <= i <= |sql|
    ensures Chain(Spans(sql, st, i), st.start, |sql|)
    decreases |sql| - i
  {
    if i < |sql| {
      var a := Step(sql, st, i);
      SpansChain(sql, a.st, a.next);
      SpansStep(sql, st, i);
      var rest := Spans(sql, a.st, a.next);
      if a.span.Some? {
        ChainCons(a.span.value, rest, st.start, |sql|);
      } else {
        ChainWeaken(rest, st.start, a.st.start, |sql|);
      }
    } else {
      assert sql[st.start..|sql|] == sql[st.start..];
    }
  }

  /** A chain is ordered: every span ends before the next ones start. */
  lemma {:induction false} ChainOrdered(sp: seq<Span>, lo: nat, hi: nat)
    requires Chain(sp, lo, hi)
    ensures Ordered(sp, lo, hi)
  {
    if sp != [] {
      ChainOrdered(sp[1..], sp[0].to, hi);
      OrderedCons(sp[0], sp[1..], lo, sp[0].to, hi);
      assert [sp[0]] + sp[1..] == sp;
    }
  }

  /** The spans come in input order and do not overlap. */
  lemma SpansOrdered(sql: string, st: Scan, i: nat)
    requires st.start <= i <= |sql|
    ensures Ordered(Spans(sql, st, i), st.start, |sql|)
  {
    SpansChain(sql, st, i);
    ChainOrdered(Spans(sql, st, i), st.start, |sql|);
  }

  lemma OrderedCons(x: Span, rest: seq<Span>, lo: nat, mid: nat, hi: nat)
    requires lo <= x.from < x.to <= mid <= hi && Ordered(rest, mid, hi)
    ensures Ordered([x] + rest, lo, hi)
  {
    var r := [x] + rest;
    assert forall k | 1 <= k < |r| :: r[k] == rest[k - 1];
  }

  /** A span that was emitted: its trimmed text is kept, and it ends just after a `;` unless it
      reaches the end of the input. */
  predicate Emitted(sql: string, sp: Span)
    requires sp.from <= sp.to <= |sql|
  {
    Kept(sql[sp.from..sp.to]) && (sp.to == |sql| || sql[sp.to - 1] == ';')
  }

  /** Every span of the list was emitted. */
  predicate AllEmitted(sql: string, sp: seq<Span>)
    requires Within(sp, 0, |sql|)
  {
    sp == [] || (Emitted(sql, sp[0]) && AllEmitted(sql, sp[1..]))
  }

  /** Each span of an emitted list was emitted. */
  lemma {:induction false} AllEmittedAt(sql: string, sp: seq<Span>, k: nat)
    requires Within(sp, 0, |sql|) && AllEmitted(sql, sp) && k < |sp|
    ensures Emitted(sql, sp[k])
  {
    if k > 0 {
      AllEmittedAt(sql, sp[1..], k - 1);
    }
  }

  /** Every span the scan produces is an emitted one. */
  lemma {:induction false} SpansEmitted(sql: string, st: Scan, i: nat)
    requires st.start <= i <= |sql|
    ensures AllEmitted(sql, Spans(sql, st, i))
    decreases |sql| - i
  {
    if i < |sql| {
      var a := Step(sql, st, i);
      SpansEmitted(sql, a.st, a.next);
      StepEmits(sql, st, i);
    } else {
      FlushEmits(sql, st);
    }
  }

  /** A step keeps every span emitted: the one it may cut was emitted, and so were the rest. */
  lemma StepEmits(sql: string, st: Scan, i: nat)
    requires st.start <= i < |sql|
    requires AllEmitted(sql, Spans(sql, Step(sql, st, i).st, Step(sql, st, i).next))
    ensures AllEmitted(sql, Spans(sql, st, i))
  {
    var a := Step(sql, st, i);
    SpansStep(sql, st, i);
    if a.span.Some? {
      StepSpanEmitted(sql, st, i);
      AllEmittedCons(sql, a.span.value, Spans(sql, a.st, a.next));
    }
  }

  /** The span a step cuts was emitted. */
  lemma StepSpanEmitted(sql: string, st: Scan, i: nat)
    requires st.start <= i < |sql| && Step(sql, st, i).span.Some?
    ensures Step(sql, st, i).span.value.to <= |sql| && Emitted(sql, Step(sql, st, i).span.value)
  {
  }

  lemma AllEmittedCons(sql: string, x: Span, rest: seq<Span>)
    requires x.from < x.to <= |sql| && Within(rest, 0, |sql|)
    requires Emitted(sql, x) && AllEmitted(sql, rest)
    ensures Within([x] + rest, 0, |sql|) && AllEmitted(sql, [x] + rest)
  {
    assert ([x] + rest)[1..] == rest;
  }

  /** The final flush emits the buffer only when it is kept. */
  lemma FlushEmits(sql: string, st: Scan)
    requires st.start <= |sql|
    ensures AllEmitted(sql, Spans(sql, st, |sql|))
  {
    assert sql[st.start..|sql|] == sql[st.start..];
  }

  /** The trimmed text of each span. */
  function Texts(sql: string, sp: seq<Span>): (r: seq<string>)
    requires forall k | 0 <= k < |sp| :: sp[k].from <= sp[k].to <= |sql|
    ensures |r| == |sp|
  {
    if sp == [] then [] else [Trim(sql[sp[0].from..sp[0].to])] + Texts(sql, sp[1..])
  }

  lemma {:induction false} TextsAt(sql: string, sp: seq<Span>, k: nat)
    requires forall k | 0 <= k < |sp| :: sp[k].from <= sp[k].to <= |sql|
    requires k < |sp|
    ensures Texts(sql, sp)[k] == Trim(sql[sp[k].from..sp[k].to])
  {
    if k > 0 {
      TextsAt(sql, sp[1..], k - 1);
    }
  }

  lemma {:induction false} TextsAppend(sql: string, a: seq<Span>, b: seq<Span>)
    requires forall k | 0 <= k < |a| :: a[k].from <= a[k].to <= |sql|
    requires forall k | 0 <= k < |b| :: b[k].from <= b[k].to <= |sql|
    ensures Texts(sql, a + b) == Texts(sql, a) + Texts(sql, b)
  {
    if a != [] {
      assert (a + b)[1..] == a[1..] + b;
      TextsAppend(sql, a[1..], b);
    } else {
      assert a + b == b;
    }
  }

  /** What parseSQLStatements returns. */
  function Parse(sql: string): seq<string> {
    Texts(sql, Spans(sql, Init, 0))
  }

  /** The loop's bookkeeping across one step: what was emitted so far, plus the step's own statement,
      plus what the rest of the scan emits, is still the whole result. */
  lemma ScanStep(sql: string, st: Scan, i: nat, done: seq<string>, whole: seq<string>)
    requires st.start <= i < |sql|
    requires done + Texts(sql, Spans(sql, st, i)) == whole
    ensures var a := Step(sql, st, i);
      (if a.span.Some? then done + [Trim(sql[st.start..i + 1])] else done) + Texts(sql, Spans(sql, a.st, a.next)) == whole
  {
    var a := Step(sql, st, i);
    var rest := Spans(sql, a.st, a.next);
    SpansStep(sql, st, i);
    if a.span.Some? {
      TextsAppend(sql, [a.span.value], rest);
    }
  }

  /** The bookkeeping at the end of the input: only the final flush of the buffer is left. */
  lemma ScanEnd(sql: string, st: Scan, done: seq<string>, whole: seq<string>)
    requires st.start <= |sql|
    requires done + Texts(sql, Spans(sql, st, |sql|)) == whole
    ensures (if Keep(Trim(sql[st.start..])) then done + [Trim(sql[st.start..])] else done) == whole
  {
    FlushTexts(sql, st);
    KeptIsKeep(sql[st.start..]);
  }

  /** The final flush yields the trimmed buffer when it is kept, and nothing otherwise. */
  lemma FlushTexts(sql: string, st: Scan)
    requires st.start <= |sql|
    ensures Texts(sql, Spans(sql, st, |sql|)) == if Kept(sql[st.start..]) then [Trim(sql[st.start..])] else []
  {
    assert sql[st.start..|sql|] == sql[st.start..];
  }

  /** The body of parseSQLStatements' loop for the character at `i`: updates the flags and the
      pending buffer `current`, and hands back the statement a `;` flushes, if it is kept. */
  method ScanChar(sql: string, i: nat, current: string, inDollar: bool, tag: string,
                  inSingle: bool, inDouble: bool, inComment: bool, ghost start: nat)
    returns (next: nat, buffer: string, dollar: bool, dollarTag: string, single: bool, double: bool,
             comment: bool, flushed: Option<string>, ghost start': nat)
    requires start <= i < |sql| && current == sql[start..i]
    ensures var a := Step(sql, Scan(start, inDollar, tag, inSingle, inDouble, inComment), i);
      && a.st == Scan(start', dollar, dollarTag, single, double, comment) && a.next == next
      && buffer == sql[start'..next]
      && flushed == if a.span.Some? then Some(Trim(sql[start..i + 1])) else None
  {
    next, buffer, flushed, start' := i + 1, current, None, start;
    dollar, dollarTag, single, double, comment := inDollar, tag, inSingle, inDouble, inComment;
    var c := sql[i];
    assert current + [c] == sql[start..i + 1];
    if c == '-' && i + 1 < |sql| && sql[i + 1] == '-' && !inDollar && !inSingle && !inDouble {
      comment := true;
      buffer := current + [c];
    } else if inComment {
      buffer := current + [c];
      if c == '\n' {
        comment := false;
      }
    } else {
      var j := None;
      if c == '$' && !inSingle && !inDouble {
        j := NextDollar(sql, i + 1);
      }
      if j.Some? {
        var m := sql[i..j.value + 1];
        if !inDollar {
          dollar := true;
          dollarTag := m;
        } else if m == tag {
          dollar := false;
          dollarTag := "";
        }
        assert sql[start..j.value + 1] == sql[start..i] + m;
        buffer := current + m;
        next := j.value + 1;
      } else {
        if c == '\'' && !inDollar && !inDouble {
          single := !inSingle;
        }
        if c == '"' && !inDollar && !single {
          double := !inDouble;
        }
        buffer := current + [c];
        if c == ';' && !inDollar && !single && !double {
          KeptIsKeep(buffer);
          var trimmed := Trim(buffer);
          if trimmed != "" && !StartsWith(trimmed, "--") {
            flushed := Some(trimmed);
          }
          buffer := "";
          start' := i + 1;
        }
      }
    }
  }

  /** parseSQLStatements: the character loop, with the pending buffer `current`; the final buffer
      is flushed after the loop. */
  method ParseStatements(sql: string) returns (statements: seq<string>)
    ensures statements == Parse(sql)
  {
    statements := [];
    var current := "";
    var inDollar, tag, inSingle, inDouble, inComment := false, "", false, false, false;
    ghost var start: nat := 0;
    ghost var whole := Parse(sql);
    var i: nat := 0;
    while i < |sql|
      invariant start <= i <= |sql|
      invariant current == sql[start..i]
      invariant statements + Texts(sql, Spans(sql, Scan(start, inDollar, tag, inSingle, inDouble, inComment), i)) == whole
      decreases |sql| - i
    {
      ScanStep(sql, Scan(start, inDollar, tag, inSingle, inDouble, inComment), i, statements, whole);
      var flushed;
      i, current, inDollar, tag, inSingle, inDouble, inComment, flushed, start :=
        ScanChar(sql, i, current, inDollar, tag, inSingle, inDouble, inComment, start);
      if flushed.Some? {
        statements := statements + [flushed.value];
      }
    }
    ScanEnd(sql, Scan(start, inDollar, tag, inSingle, inDouble, inComment), statements, whole);
    assert current == sql[start..];
    var trimmed := Trim(current);
    if trimmed != "" && !StartsWith(trimmed, "--") {
      statements := statements + [trimmed];
    }
  }

  /** A `;` cuts the buffer exactly when it is outside every quote and outside a comment; the cut
      yields a statement exactly when the trimmed buffer is kept. */
  lemma SemicolonRule(sql: string, st: Scan, i: nat)
    requires st.start <= i < |sql|
    ensures var a := Step(sql, st, i);
      && (a.st.start != st.start <==> sql[i] == ';' && !Quoted(st) && !st.inComment)
      && (a.span.Some? <==> sql[i] == ';' && !Quoted(st) && !st.inComment && Keep(Trim(sql[st.start..i + 1])))
  {
    SemicolonCuts(sql, st, i);
    KeptIsKeep(sql[st.start..i + 1]);
  }

  /** The cut itself: the buffer restarts, and a span is emitted exactly when the buffer is kept. */
  lemma SemicolonCuts(sql: string, st: Scan, i: nat)
    requires st.start <= i < |sql|
    ensures var a := Step(sql, st, i);
      && (a.st.start != st.start <==> sql[i] == ';' && !Quoted(st) && !st.inComment)
      && (a.span.Some? <==> sql[i] == ';' && !Quoted(st) && !st.inComment && Kept(sql[st.start..i + 1]))
  {
  }

  /** `--` opens a comment only outside quotes; a comment ends at a newline, and nothing inside it
      (quote characters, `$`, `;`) changes any other flag. */
  lemma CommentRule(sql: string, st: Scan, i: nat)
    requires st.start <= i < |sql|
    ensures var a := Step(sql, st, i);
      var opens := sql[i] == '-' && i + 1 < |sql| && sql[i + 1] == '-';
      && (a.st.inComment <==> (opens && !Quoted(st)) || (st.inComment && sql[i] != '\n'))
      && (st.inComment ==> a.next == i + 1 && a.st == st.(inComment := a.st.inComment))
  {
  }

  /** A dollar-quote tag as `^\$([^$]*)\$` matches it: two `$` with none between them. */
  predicate DollarTag(t: string) {
    |t| >= 2 && t[0] == '$' && t[|t| - 1] == '$' && forall k | 0 < k < |t| - 1 :: t[k] != '$'
  }

  /** Any tag opens a dollar quote, which records the tag; inside one, the tag is kept until the
      identical tag closes it, and it does close it. */
  lemma DollarRule(sql: string, st: Scan, i: nat)
    requires st.start <= i < |sql|
    ensures var a := Step(sql, st, i);
      && (!st.inDollar && a.st.inDollar ==> a.st.tag == sql[i..a.next] && DollarTag(a.st.tag))
      && (st.inDollar && a.st.inDollar ==> a.st.tag == st.tag)
      && (st.inDollar && !a.st.inDollar ==> !st.inComment && sql[i..a.next] == st.tag)
  {
  }

  /** The closing half of the dollar rule: in a dollar quote, the recorded tag met outside a
      comment ends the quote. */
  lemma DollarCloses(sql: string, st: Scan, i: nat)
    requires st.start <= i < |sql|
    requires st.inDollar && !st.inComment && !st.inSingle && !st.inDouble && DollarTag(st.tag)
    requires i + |st.tag| <= |sql| && sql[i..i + |st.tag|] == st.tag
    ensures !Step(sql, st, i).st.inDollar && Step(sql, st, i).next == i + |st.tag|
  {
    var e := i + |st.tag| - 1;
    assert sql[i] == st.tag[0] && sql[e] == st.tag[|st.tag| - 1];
    assert forall k | i + 1 <= k < e :: sql[k] == st.tag[k - i];
    var j := NextDollar(sql, i + 1);
    assert j == Some(e);
  }

  /** What parseSQLStatements returns: the trimmed, kept texts of ordered stretches of the input. */
  lemma ParseShape(sql: string)
    ensures |Parse(sql)| == |Spans(sql, Init, 0)| && Ordered(Spans(sql, Init, 0), 0, |sql|)
    ensures forall k | 0 <= k < |Parse(sql)| ::
      && Parse(sql)[k] == Trim(sql[Spans(sql, Init, 0)[k].from..Spans(sql, Init, 0)[k].to])
      && Parse(sql)[k] != "" && !StartsWith(Parse(sql)[k], "--") && Trim(Parse(sql)[k]) == Parse(sql)[k]
  {
    SpansEmitted(sql, Init, 0);
    SpansOrdered(sql, Init, 0);
    TextsShape(sql, Spans(sql, Init, 0));
  }

  /** The texts of emitted spans are kept, trimmed texts. */
  lemma TextsShape(sql: string, sp: seq<Span>)
    requires Ordered(sp, 0, |sql|) && AllEmitted(sql, sp)
    ensures forall k | 0 <= k < |sp| ::
      && Texts(sql, sp)[k] == Trim(sql[sp[k].from..sp[k].to])
      && Texts(sql, sp)[k] != "" && !StartsWith(Texts(sql, sp)[k], "--") && Trim(Texts(sql, sp)[k]) == Texts(sql, sp)[k]
  {
    forall k | 0 <= k < |sp|
      ensures Texts(sql, sp)[k] == Trim(sql[sp[k].from..sp[k].to])
      ensures Keep(Texts(sql, sp)[k]) && Trim(Texts(sql, sp)[k]) == Texts(sql, sp)[k]
    {
      TextsAt(sql, sp, k);
      AllEmittedAt(sql, sp, k);
      KeptIsKeep(sql[sp[k].from..sp[k].to]);
      TrimIdempotent(sql[sp[k].from..sp[k].to]);
    }
  }

  /** Trimming keeps the `;` that ends a stretch. */
  lemma CutAtSemicolon(sql: string, sp: Span)
    requires sp.from < sp.to <= |sql| && sql[sp.to - 1] == ';'
    ensures EndsWith(Trim(sql[sp.from..sp.to]), ";")
  {
    var text := sql[sp.from..sp.to];
    assert text[|text| - 1] == ';';
    TrimKeepsLast(text);
    var t := Trim(text);
    assert t[|t| - 1..] == [';'];
  }

  /** Every statement but the last ends with the `;` that cut it. */
  lemma ParseCutsAtSemicolons(sql: string)
    ensures forall k | 0 <= k < |Parse(sql)| - 1 :: EndsWith(Parse(sql)[k], ";")
  {
    SpansEmitted(sql, Init, 0);
    SpansOrdered(sql, Init, 0);
    TextsCutAtSemicolons(sql, Spans(sql, Init, 0));
  }

  /** Every emitted span followed by another one ends with a `;`, which its text keeps. */
  lemma TextsCutAtSemicolons(sql: string, sp: seq<Span>)
    requires Ordered(sp, 0, |sql|) && AllEmitted(sql, sp)
    ensures forall k | 0 <= k < |sp| - 1 :: EndsWith(Texts(sql, sp)[k], ";")
  {
    forall k | 0 <= k < |sp| - 1
      ensures EndsWith(Texts(sql, sp)[k], ";")
    {
      AllEmittedAt(sql, sp, k);
      assert sp[k].to <= sp[k + 1].from < |sql|;
      TextCutAt(sql, sp, k);
    }
  }

  /** The text of a span that ends with `;` ends with it too. */
  lemma TextCutAt(sql: string, sp: seq<Span>, k: nat)
    requires Within(sp, 0, |sql|) && k < |sp| && sp[k].to < |sql| && sql[sp[k].to - 1] == ';'
    ensures EndsWith(Texts(sql, sp)[k], ";")
  {
    CutAtSemicolon(sql, sp[k]);
    TextsAt(sql, sp, k);
  }

  /** A comment line before a statement stays in the buffer, so the statement is dropped with it. */
  lemma CommentSwallowsStatement()
    ensures Parse("--\nx;") == []
  {
    var sql := "--\nx;";
    var s1 := Init.(inComment := true);
    ExampleCommentSteps();
    ExampleStatementSteps();
    SpansStep(sql, Init, 0);
    SpansStep(sql, s1, 1);
    SpansStep(sql, s1, 2);
    SpansStep(sql, Init, 3);
    SpansStep(sql, Init, 4);
    assert Spans(sql, Init.(start := 5), 5) == [] by { assert sql[5..] == ""; }
  }

  /** The scan of `--\n`: the comment opens at the first `-` and closes at the newline. */
  lemma ExampleCommentSteps()
    ensures var sql := "--\nx;"; var s1 := Init.(inComment := true);
      && Step(sql, Init, 0) == Advance(s1, 1, None)
      && Step(sql, s1, 1) == Advance(s1, 2, None)
      && Step(sql, s1, 2) == Advance(Init, 3, None)
  {
  }

  /** The scan of `x;` after the comment: the `;` cuts a buffer that starts with `--`, which is
      dropped. */
  lemma ExampleStatementSteps()
    ensures var sql := "--\nx;";
      && Step(sql, Init, 3) == Advance(Init, 4, None)
      && Step(sql, Init, 4) == Advance(Init.(start := 5), 5, None)
  {
    var sql := "--\nx;";
    assert sql[0..5] == sql;
    assert !Kept(sql);
  }
}
