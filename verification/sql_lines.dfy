/** Pieces shared by the line-based SQL splitters of the one-off migration scripts: the regular
    expressions they test a trimmed line with, and the filter they end with. */
module SqlLines {
  import opened Wrappers
  import opened Text

  /** The length of the leading run of `\w` characters. */
  function WordRun(s: string): (n: nat)
    ensures n <= |s| && (forall k | 0 <= k < n :: IsWordChar(s[k]))
    ensures n < |s| ==> !IsWordChar(s[n])
  {
    if s == [] || !IsWordChar(s[0]) then 0 else 1 + WordRun(s[1..])
  }

  /** Where `^\s*DO\s+` (ignoring case) stops on a trimmed line: after `DO` and at least one
      whitespace character. */
  function AfterDo(t: string): (r: Option<nat>)
    ensures r.Some? ==> 3 <= r.value <= |t| && LowerChar(t[0]) == 'd' && LowerChar(t[1]) == 'o'
    ensures r.Some? ==> (forall k | 2 <= k < r.value :: IsSpace(t[k])) && (r.value < |t| ==> !IsSpace(t[r.value]))
  {
    if |t| >= 2 && LowerChar(t[0]) == 'd' && LowerChar(t[1]) == 'o' then
      var rest := TrimStart(t[2..]);
      var p := |t| - |rest|;
      if p >= 3 then
        assert forall k | 2 <= k < p :: t[k] == t[2..][k - 2];
        Some(p)
      else None
    else None
  }

  /** `/^\s*DO\s+\$\$/i` */
  predicate DoDollars(t: string) {
    AfterDo(t).Some? && StartsWith(t[AfterDo(t).value..], "$$")
  }

  /** `/^\s*DO\s+\$(\w+)\$/i`: the tag `$word$` it matches, if any. */
  function DoTag(t: string): (r: Option<string>)
    ensures r.Some? ==> |r.value| >= 3 && r.value[0] == '$' && r.value[|r.value| - 1] == '$'
    ensures r.Some? ==> forall k | 0 < k < |r.value| - 1 :: IsWordChar(r.value[k])
  {
    match AfterDo(t)
    case None => None
    case Some(p) =>
      if p < |t| && t[p] == '$' then
        var w := WordRun(t[p + 1..]);
        if w >= 1 && p + 1 + w < |t| && t[p + 1 + w] == '$' then
          TagChars(t, p, w);
          Some(t[p..p + w + 2])
        else None
      else None
  }

  /** The characters between the two dollars of a tag are those of the word run after the first. */
  lemma TagChars(t: string, p: nat, w: nat)
    requires p + 1 + w < |t|
    requires w <= WordRun(t[p + 1..])
    ensures var tag := t[p..p + w + 2]; forall k | 0 < k < w + 1 :: IsWordChar(tag[k])
  {
    var tag, u := t[p..p + w + 2], t[p + 1..];
    assert forall k | 0 < k < w + 1 :: tag[k] == u[k - 1];
  }

  /** `$` is not a word character, so no line matches both DO patterns. */
  lemma DoPatternsDisjoint(t: string)
    ensures !(DoDollars(t) && DoTag(t).Some?)
  {
    if DoDollars(t) {
      var p := AfterDo(t).value;
      var u := t[p..];
      assert u[..2] == "$$";
      assert u[1] == u[..2][1] == '$';
      assert t[p + 1..][0] == u[1];
      assert WordRun(t[p + 1..]) == 0;
    }
  }

  /** A `$$word$$` pair (`/\$\$(\w*)\$\$/`) starting at index `p`. */
  function PairAt(t: string, p: nat): (r: Option<string>)
    requires p <= |t|
    ensures r.Some? ==> OccursAt(t, r.value, p) && |r.value| >= 4
    ensures r.Some? ==> OccursAt(t, "$$", p) && OccursAt(t, "$$", p + |r.value| - 2)
  {
    if StartsWith(t[p..], "$$") then
      var q := p + 2 + WordRun(t[p + 2..]);
      if StartsWith(t[q..], "$$") then
        assert t[p..q + 2][..2] == t[p..][..2];
        assert t[p..q + 2][q - p..] == t[q..][..2];
        Some(t[p..q + 2])
      else None
    else None
  }

  /** Where the first `$$word$$` pair at or after `p` starts. */
  function FirstPairAt(t: string, p: nat): (r: Option<nat>)
    requires p <= |t|
    ensures r.Some? ==> p <= r.value <= |t| && PairAt(t, r.value).Some?
    ensures r.Some? ==> forall q | p <= q < r.value :: PairAt(t, q).None?
    ensures r.None? ==> forall q | p <= q <= |t| :: PairAt(t, q).None?
    decreases |t| - p
  {
    if PairAt(t, p).Some? then Some(p)
    else if p == |t| then None
    else FirstPairAt(t, p + 1)
  }

  /** `trimmed.match(/\$\$(\w*)\$\$/g)[0]`: the leftmost pair, if there is one. */
  function FirstPair(t: string): Option<string> {
    match FirstPairAt(t, 0)
    case None => None
    case Some(q) => PairAt(t, q)
  }

  /** A lone `$$` is no pair: a line with a pair has two `$$` that do not overlap. */
  lemma PairNeedsTwoMarkers(t: string)
    requires FirstPair(t).Some?
    ensures exists i, j | 0 <= i && i + 2 <= j :: OccursAt(t, "$$", i) && OccursAt(t, "$$", j)
  {
    var q := FirstPairAt(t, 0).value;
    var n := |PairAt(t, q).value|;
    assert OccursAt(t, "$$", q) && OccursAt(t, "$$", q + n - 2);
  }

  /** What the final filter keeps: text that is not blank and does not start with `--` once trimmed. */
  predicate Kept(s: string) {
    Trim(s) != "" && !StartsWith(Trim(s), "--")
  }

  /** `statements.filter(s => s.trim() && !s.trim().startsWith('--'))` */
  function KeepStatements(ss: seq<string>): (r: seq<string>)
    ensures |r| <= |ss|
    ensures forall s :: s in r <==> s in ss && Kept(s)
  {
    if ss == [] then []
    else (if Kept(ss[0]) then [ss[0]] else []) + KeepStatements(ss[1..])
  }

  /** The filter keeps the input order: the kept entries of a concatenation are those of each part. */
  lemma {:induction false} KeepStatementsAppend(a: seq<string>, b: seq<string>)
    ensures KeepStatements(a + b) == KeepStatements(a) + KeepStatements(b)
  {
    if a == [] {
      assert a + b == b;
    } else {
      assert (a + b)[1..] == a[1..] + b;
      KeepStatementsAppend(a[1..], b);
    }
  }
}
