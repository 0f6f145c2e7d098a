/** String helpers with the semantics of the JavaScript built-ins the source relies on:
    `trim`, `startsWith`, `endsWith`, `includes`, `split` on one character, `split(/\s+/)`,
    `join`, `toLowerCase` (ASCII letters only) and decimal formatting with `padStart`. */
module Text {

  /** ECMAScript WhiteSpace and LineTerminator code points: what `trim()` removes and `\s` matches. */
  predicate IsSpace(c: char) {
    || c == ' ' || c == '\t' || c == '\n' || c == '\r' || c == '\U{000B}' || c == '\U{000C}'
    || c == '\U{00A0}' || c == '\U{1680}' || ('\U{2000}' <= c <= '\U{200A}')
    || c == '\U{2028}' || c == '\U{2029}' || c == '\U{202F}' || c == '\U{205F}'
    || c == '\U{3000}' || c == '\U{FEFF}'
  }

  predicate IsDigit(c: char) { '0' <= c <= '9' }

  /** `\w`: ASCII letters, digits and underscore. */
  predicate IsWordChar(c: char) {
    ('a' <= c <= 'z') || ('A' <= c <= 'Z') || IsDigit(c) || c == '_'
  }

  predicate AllDigits(s: string) { forall i | 0 <= i < |s| :: IsDigit(s[i]) }

  function TrimStart(s: string): (r: string)
    ensures |r| <= |s| && r == s[|s| - |r|..]
    ensures r == [] || !IsSpace(r[0])
    ensures forall i | 0 <= i < |s| - |r| :: IsSpace(s[i])
  {
    if |s| > 0 && IsSpace(s[0]) then TrimStart(s[1..]) else s
  }

  function TrimEnd(s: string): (r: string)
    ensures |r| <= |s| && r == s[..|r|]
    ensures r == [] || !IsSpace(r[|r| - 1])
    ensures forall i | |r| <= i < |s| :: IsSpace(s[i])
  {
    if |s| > 0 && IsSpace(s[|s| - 1]) then TrimEnd(s[..|s| - 1]) else s
  }

  /** `s.trim()` */
  function Trim(s: string): (r: string)
  {
    TrimEnd(TrimStart(s))
  }

  /** What `trim()` returns has no whitespace at either end, and is empty exactly when `s` is all whitespace. */
  lemma TrimShape(s: string)
    ensures var r := Trim(s);
      && (r == [] || (!IsSpace(r[0]) && !IsSpace(r[|r| - 1])))
      && (r == [] <==> forall i | 0 <= i < |s| :: IsSpace(s[i]))
  {
    var t := TrimStart(s);
    var r := TrimEnd(t);
    if r != [] {
      assert r[0] == t[0];
    }
    if r == [] {
      assert t == [];
    }
  }

  /** What `trim()` returns is the slice of `s` that starts at `off`. */
  lemma TrimSlice(s: string) returns (off: nat)
    ensures off + |Trim(s)| <= |s| && Trim(s) == s[off..off + |Trim(s)|]
  {
    var t := TrimStart(s);
    off := |s| - |t|;
    assert Trim(s) == t[..|Trim(s)|];
  }

  /** Trimming twice is trimming once. */
  lemma TrimIdempotent(s: string)
    ensures Trim(Trim(s)) == Trim(s)
  {
    TrimShape(s);
    var r := Trim(s);
    assert TrimStart(r) == r;
    assert TrimEnd(r) == r;
  }

  /** A string whose last character is not whitespace keeps that character last after trimming. */
  lemma TrimKeepsLast(s: string)
    requires |s| > 0 && !IsSpace(s[|s| - 1])
    ensures Trim(s) != [] && Trim(s)[|Trim(s)| - 1] == s[|s| - 1]
  {
    var t := TrimStart(s);
    assert t[|t| - 1] == s[|s| - 1];
  }

  /** A string with no whitespace at either end is its own trim. */
  lemma TrimNoop(s: string)
    requires s == [] || (!IsSpace(s[0]) && !IsSpace(s[|s| - 1]))
    ensures Trim(s) == s
  {
    assert TrimStart(s) == s;
  }

  /** `s.startsWith(p)` */
  predicate StartsWith(s: string, p: string) { |p| <= |s| && s[..|p|] == p }

  /** `s.endsWith(p)` */
  predicate EndsWith(s: string, p: string) { |p| <= |s| && s[|s| - |p|..] == p }

  /** `s.includes(p)` */
  predicate Contains(s: string, p: string)
    decreases |s|
  {
    StartsWith(s, p) || (|s| > 0 && Contains(s[1..], p))
  }

  /** `p` occurs in `s` starting at index `i`. */
  predicate OccursAt(s: string, p: string, i: int) {
    0 <= i <= |s| - |p| && s[i..i + |p|] == p
  }

  /** `includes` finds exactly the occurrences of `p` at some position of `s`. */
  lemma {:induction false} ContainsAt(s: string, p: string)
    ensures Contains(s, p) <==> exists i :: OccursAt(s, p, i)
    decreases |s|
  {
    if StartsWith(s, p) {
      assert OccursAt(s, p, 0);
    }
    if |s| > 0 {
      ContainsAt(s[1..], p);
      if Contains(s[1..], p) {
        var i :| OccursAt(s[1..], p, i);
        assert s[i + 1..i + 1 + |p|] == s[1..][i..i + |p|];
        assert OccursAt(s, p, i + 1);
      }
      if exists i :: OccursAt(s, p, i) {
        var i :| OccursAt(s, p, i);
        if i > 0 {
          assert s[1..][i - 1..i - 1 + |p|] == s[i..i + |p|];
          assert OccursAt(s[1..], p, i - 1);
        }
      }
    } else {
      if exists i :: OccursAt(s, p, i) {
        var i :| OccursAt(s, p, i);
        assert i == 0;
      }
    }
  }

  function LowerChar(c: char): char {
    if 'A' <= c <= 'Z' then (c as int - 'A' as int + 'a' as int) as char else c
  }

  /** `toLowerCase()`, restricted to the ASCII letters. */
  function ToLower(s: string): (r: string)
    ensures |r| == |s|
    ensures forall i | 0 <= i < |s| :: r[i] == LowerChar(s[i])
  {
    if s == [] then [] else [LowerChar(s[0])] + ToLower(s[1..])
  }

  /** `s.split(sep)` for a one-character separator: never empty, no part holds `sep`. */
  function Split(s: string, sep: char): (parts: seq<string>)
    ensures |parts| >= 1
    decreases |s|
  {
    if s == [] then [""]
    else if s[0] == sep then [""] + Split(s[1..], sep)
    else var rest := Split(s[1..], sep); [[s[0]] + rest[0]] + rest[1..]
  }

  /** The first part of `s.split(sep)` is the text before the first `sep` (all of `s` when there is none). */
  lemma {:induction false} SplitHead(s: string, sep: char)
    ensures var h := Split(s, sep)[0];
      sep !in h && StartsWith(s, h) && (|h| < |s| ==> s[|h|] == sep)
    decreases |s|
  {
    if s != [] && s[0] != sep {
      SplitHead(s[1..], sep);
      var rest := Split(s[1..], sep);
      var h := [s[0]] + rest[0];
      assert Split(s, sep)[0] == h;
      assert s[..|h|] == [s[0]] + s[1..][..|rest[0]|];
    }
  }

  /** Text without the separator is a single part. */
  lemma {:induction false} SplitNoSep(s: string, sep: char)
    requires sep !in s
    ensures Split(s, sep) == [s]
    decreases |s|
  {
    if s != [] {
      SplitNoSep(s[1..], sep);
      assert [s[0]] + s[1..] == s;
    }
  }

  /** Splitting `a + sep + b`, with no separator in `a`, gives `a` and then the parts of `b`. */
  lemma {:induction false} SplitAfter(a: string, sep: char, b: string)
    requires sep !in a
    ensures Split(a + [sep] + b, sep) == [a] + Split(b, sep)
    decreases |a|
  {
    if a == [] {
      assert a + [sep] + b == [sep] + b;
      assert ([sep] + b)[1..] == b;
    } else {
      SplitAfter(a[1..], sep, b);
      assert (a + [sep] + b)[1..] == a[1..] + [sep] + b;
      assert [a[0]] + a[1..] == a;
    }
  }

  /** Three separator-free fields joined by the separator split back into those fields. */
  lemma SplitThree(a: string, b: string, c: string, sep: char)
    requires sep !in a && sep !in b && sep !in c
    ensures Split(a + [sep] + b + [sep] + c, sep) == [a, b, c]
  {
    SplitAfter(b, sep, c);
    SplitNoSep(c, sep);
    assert a + [sep] + b + [sep] + c == a + [sep] + (b + [sep] + c);
    SplitAfter(a, sep, b + [sep] + c);
  }

  /** A digit string holds no separator that is not a digit. */
  lemma DigitsHaveNo(s: string, sep: char)
    requires AllDigits(s) && !IsDigit(sep)
    ensures sep !in s
  {
  }

  /** `parts.join(sep)` */
  function Join(parts: seq<string>, sep: string): string
  {
    if parts == [] then ""
    else if |parts| == 1 then parts[0]
    else parts[0] + sep + Join(parts[1..], sep)
  }

  /** Joining one more part appends the separator and that part. */
  lemma {:induction false} JoinSnoc(parts: seq<string>, x: string, sep: string)
    ensures Join(parts + [x], sep) == if parts == [] then x else Join(parts, sep) + sep + x
  {
    if |parts| == 1 {
      assert parts + [x] == [parts[0], x];
    } else if |parts| > 1 {
      assert (parts + [x])[1..] == parts[1..] + [x];
      JoinSnoc(parts[1..], x, sep);
    } else {
      assert parts + [x] == [x];
    }
  }

  /** Parts free of the separator, joined by it, split back into those parts. */
  lemma {:induction false} SplitJoin(parts: seq<string>, sep: char)
    requires |parts| >= 1 && forall k | 0 <= k < |parts| :: sep !in parts[k]
    ensures Split(Join(parts, [sep]), sep) == parts
  {
    if |parts| == 1 {
      SplitNoSep(parts[0], sep);
    } else {
      SplitJoin(parts[1..], sep);
      assert Join(parts, [sep]) == parts[0] + [sep] + Join(parts[1..], [sep]);
      SplitAfter(parts[0], sep, Join(parts[1..], [sep]));
      assert [parts[0]] + parts[1..] == parts;
    }
  }

  /** No part produced by `split` contains the separator. */
  lemma {:induction false} SplitPartsFree(s: string, sep: char)
    ensures forall p | p in Split(s, sep) :: sep !in p
    decreases |s|
  {
    if s != [] {
      SplitPartsFree(s[1..], sep);
    }
  }

  /** Joining the parts of a split with the same separator gives the string back. */
  lemma {:induction false} JoinSplit(s: string, sep: char)
    ensures Join(Split(s, sep), [sep]) == s
    decreases |s|
  {
    if s != [] {
      var rest := Split(s[1..], sep);
      JoinSplit(s[1..], sep);
      if s[0] == sep {
        assert Split(s, sep) == [""] + rest;
      } else {
        var parts := Split(s, sep);
        assert parts == [[s[0]] + rest[0]] + rest[1..];
        if |rest| == 1 {
          assert Join(parts, [sep]) == [s[0]] + rest[0];
        } else {
          assert Join(rest, [sep]) == rest[0] + [sep] + Join(rest[1..], [sep]);
          assert parts[1..] == rest[1..];
        }
      }
    }
  }

  /** `s.split(/\s+/)`: the separators are maximal runs of whitespace. */
  function SplitWs(s: string): (parts: seq<string>)
    ensures |parts| >= 1
    decreases |s|
  {
    if s == [] then [""]
    else if IsSpace(s[0]) then [""] + SplitWs(TrimStart(s))
    else var rest := SplitWs(s[1..]); [[s[0]] + rest[0]] + rest[1..]
  }

  predicate NoSpace(s: string) { forall i | 0 <= i < |s| :: !IsSpace(s[i]) }

  /** On a string with no whitespace at either end, `split(/\s+/)` yields non-empty, whitespace-free
      tokens (a single empty token for the empty string). */
  lemma {:induction false} SplitWsTokens(s: string)
    requires s == [] || (!IsSpace(s[0]) && !IsSpace(s[|s| - 1]))
    ensures s == [] ==> SplitWs(s) == [""]
    ensures s != [] ==> forall t | t in SplitWs(s) :: t != [] && NoSpace(t)
    decreases |s|
  {
    if s != [] {
      var rest := SplitWs(s[1..]);
      if |s| == 1 {
        assert rest == [""];
      } else if IsSpace(s[1]) {
        var u := TrimStart(s[1..]);
        assert u != [] && u[|u| - 1] == s[|s| - 1];
        SplitWsTokens(u);
        assert rest == [""] + SplitWs(u);
        assert rest[0] == "" && rest[1..] == SplitWs(u);
        assert SplitWs(s) == [[s[0]] + rest[0]] + rest[1..];
        assert [s[0]] + rest[0] == [s[0]];
        assert SplitWs(s) == [[s[0]]] + SplitWs(u);
      } else {
        SplitWsTokens(s[1..]);
        assert SplitWs(s) == [[s[0]] + rest[0]] + rest[1..];
        assert rest[0] in rest;
        var h := [s[0]] + rest[0];
        assert NoSpace(h) by {
          forall i | 0 <= i < |h| ensures !IsSpace(h[i]) {
            if i > 0 { assert h[i] == rest[0][i - 1]; }
          }
        }
        forall t | t in rest[1..] ensures t in rest { }
      }
    }
  }

  /** A word is its own single token. */
  lemma {:induction false} SplitWsWord(w: string)
    requires w != [] && NoSpace(w)
    ensures SplitWs(w) == [w]
    decreases |w|
  {
    var rest := SplitWs(w[1..]);
    if |w| == 1 {
      assert rest == [""];
    } else {
      SplitWsWord(w[1..]);
    }
    assert [w[0]] + rest[0] == w;
  }

  /** A word followed by one space and more text is split off as the first token. */
  lemma {:induction false} SplitWsCons(a: string, b: string)
    requires a != [] && NoSpace(a) && b != [] && !IsSpace(b[0])
    ensures SplitWs(a + " " + b) == [a] + SplitWs(b)
    decreases |a|
  {
    var s := a + " " + b;
    if |a| == 1 {
      assert s[1..] == " " + b;
      assert TrimStart(" " + b) == b;
      var rest := SplitWs(s[1..]);
      assert rest == [""] + SplitWs(b);
      assert SplitWs(s) == [[s[0]] + rest[0]] + rest[1..];
      assert [s[0]] + rest[0] == a;
    } else {
      assert s[1..] == a[1..] + " " + b;
      SplitWsCons(a[1..], b);
      assert [a[0]] + a[1..] == a;
    }
  }

  /** Words joined by single spaces split back into the same words. */
  lemma {:induction false} SplitWsJoin(words: seq<string>)
    requires |words| >= 1 && forall k | 0 <= k < |words| :: words[k] != [] && NoSpace(words[k])
    ensures SplitWs(Join(words, " ")) == words
    decreases |words|
  {
    if |words| == 1 {
      SplitWsWord(words[0]);
    } else {
      var rest := words[1..];
      SplitWsJoin(rest);
      JoinHead(rest, " ");
      SplitWsCons(words[0], Join(rest, " "));
    }
  }

  /** A join of non-empty parts starts with the first part's first character. */
  lemma JoinHead(parts: seq<string>, sep: string)
    requires |parts| >= 1 && parts[0] != []
    ensures Join(parts, sep) != [] && Join(parts, sep)[0] == parts[0][0]
  {
  }

  /** The decimal digits of `n` (`String(n)`). */
  function NatToString(n: nat): (r: string)
    ensures |r| >= 1 && AllDigits(r)
    ensures n < 10 <==> |r| == 1
    decreases n
  {
    if n < 10 then [Digit(n)] else NatToString(n / 10) + [Digit(n % 10)]
  }

  function Digit(d: nat): (c: char)
    requires d < 10
    ensures IsDigit(c)
  {
    ('0' as int + d) as char
  }

  /** The value of a string of decimal digits (`parseInt(s, 10)` on a digits-only string). */
  function DigitsValue(s: string): nat
    requires AllDigits(s)
  {
    if s == [] then 0 else DigitsValue(s[..|s| - 1]) * 10 + (s[|s| - 1] as int - '0' as int)
  }

  /** Reading back the decimal form of a number gives the number. */
  lemma {:induction false} DigitsValueOfNatToString(n: nat)
    ensures DigitsValue(NatToString(n)) == n
    decreases n
  {
    if n >= 10 {
      DigitsValueOfNatToString(n / 10);
      var s := NatToString(n);
      assert s[..|s| - 1] == NatToString(n / 10);
    }
  }

  /** `s.padStart(width, '0')` */
  function PadZero(s: string, width: nat): (r: string)
    ensures |r| == if |s| < width then width else |s|
    ensures forall i | 0 <= i < |s| :: r[|r| - |s| + i] == s[i]
    ensures forall i | 0 <= i < |r| - |s| :: r[i] == '0'
  {
    if |s| < width then seq(width - |s|, _ => '0') + s else s
  }

  /** `String(n).padStart(2, '0')`, written digit by digit below 100 (see `Pad2IsPadStart`). */
  function Pad2(n: nat): (r: string)
    ensures AllDigits(r) && |r| >= 2
    ensures n < 100 ==> |r| == 2
  {
    if n < 100 then [Digit(n / 10), Digit(n % 10)] else NatToString(n)
  }

  /** The digit-by-digit form is the decimal text padded with zeros to two characters. */
  lemma Pad2IsPadStart(n: nat)
    ensures Pad2(n) == PadZero(NatToString(n), 2)
  {
    if 10 <= n < 100 {
      assert NatToString(n) == NatToString(n / 10) + [Digit(n % 10)];
    }
  }

  /** The number written by two decimal digits. */
  function TwoDigits(tens: char, ones: char): (n: nat)
    requires IsDigit(tens) && IsDigit(ones)
    ensures n < 100
  {
    (tens as int - '0' as int) * 10 + (ones as int - '0' as int)
  }

  /** A number below 100, padded to two digits, reads back digit by digit as itself. */
  lemma Pad2Digits(n: nat)
    requires n < 100
    ensures var s := Pad2(n); |s| == 2 && TwoDigits(s[0], s[1]) == n
  {
  }

  /** Two-digit padding of numbers below 100 reads back as the number, so it is injective there. */
  lemma Pad2Value(n: nat)
    requires n < 100
    ensures DigitsValue(Pad2(n)) == n
  {
    var s := Pad2(n);
    assert s[..1][..0] == [];
    assert DigitsValue(s[..1]) == s[0] as int - '0' as int;
    assert s[..2 - 1] == s[..1];
    Pad2Digits(n);
  }

  /** Two-digit padding is injective below 100. */
  lemma Pad2Injective(x: nat, y: nat)
    requires x < 100 && y < 100 && Pad2(x) == Pad2(y)
    ensures x == y
  {
    Pad2Value(x);
    Pad2Value(y);
  }

  /** Lexicographic order by code unit, the order of the storage's comparisons on time text. */
  predicate LexLess(a: string, b: string)
    decreases |a|
  {
    if a == [] then b != []
    else if b == [] then false
    else if a[0] != b[0] then a[0] < b[0]
    else LexLess(a[1..], b[1..])
  }

  predicate LexLe(a: string, b: string) { a == b || LexLess(a, b) }

  lemma {:induction false} LexLessIrreflexive(a: string)
    ensures !LexLess(a, a)
    decreases |a|
  {
    if a != [] {
      LexLessIrreflexive(a[1..]);
    }
  }

  lemma {:induction false} LexLessTransitive(a: string, b: string, c: string)
    requires LexLess(a, b) && LexLess(b, c)
    ensures LexLess(a, c)
    decreases |a|
  {
    if a != [] && a[0] == b[0] && b[0] == c[0] {
      LexLessTransitive(a[1..], b[1..], c[1..]);
    }
  }

  /** Any two strings are ordered one way or the other, or equal. */
  lemma {:induction false} LexLessTotal(a: string, b: string)
    ensures LexLess(a, b) || a == b || LexLess(b, a)
    decreases |a|
  {
    if a != [] && b != [] && a[0] == b[0] {
      LexLessTotal(a[1..], b[1..]);
      if a[1..] == b[1..] {
        assert a == [a[0]] + a[1..] && b == [b[0]] + b[1..];
      }
    }
  }

  lemma LexLeLessTransitive(a: string, b: string, c: string)
    requires LexLe(a, b) && LexLess(b, c)
    ensures LexLess(a, c)
  {
    if a != b { LexLessTransitive(a, b, c); }
  }

  lemma LexLessLeTransitive(a: string, b: string, c: string)
    requires LexLess(a, b) && LexLe(b, c)
    ensures LexLess(a, c)
  {
    if b != c { LexLessTransitive(a, b, c); }
  }

  /** For strings of equal length, `a` is below `b` because of a first position where `a` has the smaller character. */
  lemma {:induction false} LexLessWitness(a: string, b: string) returns (k: nat)
    requires |a| == |b| && LexLess(a, b)
    ensures k < |a| && a[..k] == b[..k] && a[k] < b[k]
    decreases |a|
  {
    if a[0] != b[0] {
      k := 0;
    } else {
      var k' := LexLessWitness(a[1..], b[1..]);
      k := k' + 1;
      assert a[..k] == [a[0]] + a[1..][..k'];
      assert b[..k] == [b[0]] + b[1..][..k'];
    }
  }
}
