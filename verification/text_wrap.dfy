/** The word wrapping of renderCyrillicTextWrapped, which lays out report text for the PDF. The
    text is split on single spaces and the words are packed greedily into lines; a word starts a
    new line only when appending it to a non-empty line would make the line wider than allowed.
    The canvas measurement and the rendering of a line are parameters. */
module TextWrap {
  import opened Wrappers
  import opened Text

  /** The lines pushed so far and `currentLine`. */
  datatype WrapState = WrapState(lines: seq<string>, current: string)

  const Start := WrapState([], "")

  /** One word of the loop. */
  function Step(st: WrapState, word: string, measure: string -> int, maxWidth: int): WrapState {
    var test := if st.current != "" then st.current + " " + word else word;
    if measure(test) > maxWidth && st.current != "" then WrapState(st.lines + [st.current], word)
    else WrapState(st.lines, test)
  }

  /** The state after the words `words`. */
  function Run(words: seq<string>, measure: string -> int, maxWidth: int): WrapState {
    if words == [] then Start
    else Step(Run(words[..|words| - 1], measure, maxWidth), words[|words| - 1], measure, maxWidth)
  }

  /** The wrapped lines of the text: none for a missing or empty text, otherwise the pushed lines and
      the last one when it is not empty. */
  function WrapLines(text: Option<string>, measure: string -> int, maxWidth: int): seq<string> {
    if text.None? || text.value == "" then []
    else
      var st := Run(Split(text.value, ' '), measure, maxWidth);
      if st.current != "" then st.lines + [st.current] else st.lines
  }

  /** renderCyrillicTextWrapped: the wrapping loop, then one rendered item per line. */
  method RenderCyrillicTextWrapped<R>(text: Option<string>, maxWidth: int, measure: string -> int, render: string -> R)
    returns (items: seq<R>)
    ensures |items| == |WrapLines(text, measure, maxWidth)|
    ensures forall k | 0 <= k < |items| :: items[k] == render(WrapLines(text, measure, maxWidth)[k])
  {
    if text.None? || text.value == "" {
      return [];
    }
    var words := Split(text.value, ' ');
    var lines: seq<string> := [];
    var currentLine := "";
    for i := 0 to |words|
      invariant WrapState(lines, currentLine) == Run(words[..i], measure, maxWidth)
    {
      assert words[..i + 1][..i] == words[..i];
      var word := words[i];
      var testLine := if currentLine != "" then currentLine + " " + word else word;
      if measure(testLine) > maxWidth && currentLine != "" {
        lines := lines + [currentLine];
        currentLine := word;
      } else {
        currentLine := testLine;
      }
    }
    assert words[..|words|] == words;
    if currentLine != "" {
      lines := lines + [currentLine];
    }
    items := seq(|lines|, k requires 0 <= k < |lines| => render(lines[k]));
  }

  /** A line fits when it is within the width, unless it is a single word. */
  predicate Fits(line: string, measure: string -> int, maxWidth: int) {
    ' ' in line ==> measure(line) <= maxWidth
  }

  /** The loop pushes only non-empty lines, and every line it holds fits. */
  lemma {:induction false} RunLinesWellFormed(words: seq<string>, measure: string -> int, maxWidth: int)
    requires forall k | 0 <= k < |words| :: ' ' !in words[k]
    ensures var st := Run(words, measure, maxWidth);
      && (forall l | l in st.lines :: l != "" && Fits(l, measure, maxWidth))
      && Fits(st.current, measure, maxWidth)
  {
    if words != [] {
      var init := words[..|words| - 1];
      assert forall k | 0 <= k < |init| :: init[k] == words[k];
      RunLinesWellFormed(init, measure, maxWidth);
      assert ' ' !in words[|words| - 1];
    }
  }

  /** Every line is non-empty, and every line of more than one word is within the width: only a
      single word longer than the width can exceed it. */
  lemma WrapLinesWellFormed(text: Option<string>, measure: string -> int, maxWidth: int)
    ensures forall l | l in WrapLines(text, measure, maxWidth) :: l != "" && Fits(l, measure, maxWidth)
  {
    if text.Some? && text.value != "" {
      var words := Split(text.value, ' ');
      SplitPartsFree(text.value, ' ');
      assert forall k | 0 <= k < |words| :: words[k] in words;
      RunLinesWellFormed(words, measure, maxWidth);
    }
  }

  /** Without empty words, the lines joined by spaces are the words joined by spaces. */
  lemma {:induction false} RunKeepsWords(words: seq<string>, measure: string -> int, maxWidth: int)
    requires forall k | 0 <= k < |words| :: words[k] != ""
    ensures words == [] ==> Run(words, measure, maxWidth) == Start
    ensures words != [] ==>
      var st := Run(words, measure, maxWidth);
      st.current != "" && Join(st.lines + [st.current], " ") == Join(words, " ")
  {
    if words != [] {
      var init := words[..|words| - 1];
      var w := words[|words| - 1];
      assert init + [w] == words;
      assert forall k | 0 <= k < |init| :: init[k] == words[k];
      RunKeepsWords(init, measure, maxWidth);
      var mid := Run(init, measure, maxWidth);
      if init == [] {
        assert Run(words, measure, maxWidth) == WrapState([], w);
        assert Join([w], " ") == w;
      } else {
        JoinSnoc(init, w, " ");
        StepKeepsWords(mid, w, measure, maxWidth);
      }
    }
  }

  /** A word added to a non-empty line, or starting the next one, follows the text so far after one
      space. */
  lemma StepKeepsWords(mid: WrapState, w: string, measure: string -> int, maxWidth: int)
    requires mid.current != "" && w != ""
    ensures var st := Step(mid, w, measure, maxWidth);
      st.current != "" && Join(st.lines + [st.current], " ") == Join(mid.lines + [mid.current], " ") + " " + w
  {
    if measure(mid.current + " " + w) > maxWidth {
      JoinSnoc(mid.lines + [mid.current], w, " ");
    } else {
      JoinSnoc(mid.lines, mid.current + " " + w, " ");
      JoinSnoc(mid.lines, mid.current, " ");
    }
  }

  /** When the text has no empty words (no leading, trailing or doubled spaces), joining the lines
      with single spaces gives the text back. */
  lemma WrapLinesRoundTrip(text: string, measure: string -> int, maxWidth: int)
    requires text != "" && "" !in Split(text, ' ')
    ensures Join(WrapLines(Some(text), measure, maxWidth), " ") == text
  {
    var words := Split(text, ' ');
    assert forall k | 0 <= k < |words| :: words[k] in words;
    RunKeepsWords(words, measure, maxWidth);
    JoinSplit(text, ' ');
  }
}
