/** The behaviour of the Python string builtins the two programs rely on:
    whitespace, `strip`, `split` (with and without `maxsplit`), ASCII case
    mapping, lexicographic string order and `sorted`, left-aligned padding,
    the decimal rendering of an integer, and `join`/`split` on a separator. */
module Text {

  // ---------------------------------------------------------------------
  // Whitespace, strip and split
  // ---------------------------------------------------------------------

  /** The characters Python's `str.isspace` accepts, which are the ones
      `strip()` removes and `split()` separates on: the ASCII controls
      U+0009 to U+000D and U+001C to U+001F, the space, and the wider
      characters of `WideSpaces`. */
  predicate IsSpace(c: char) {
    ('\t' <= c <= '\r') || ('\U{001C}' <= c <= ' ') || (c >= '\U{0085}' && Occurs(c, WideSpaces))
  }

  /** The whitespace characters above U+007F. */
  const WideSpaces: string :=
    "\U{0085}\U{00A0}\U{1680}\U{2000}\U{2001}\U{2002}\U{2003}\U{2004}\U{2005}\U{2006}"
    + "\U{2007}\U{2008}\U{2009}\U{200A}\U{2028}\U{2029}\U{202F}\U{205F}\U{3000}"

  /** `c` is one of the characters of `s`. */
  predicate Occurs(c: char, s: string) {
    s != [] && (s[0] == c || Occurs(c, s[1..]))
  }

  predicate NoSpace(s: string) {
    forall i :: 0 <= i < |s| ==> !IsSpace(s[i])
  }

  predicate AllSpace(s: string) {
    forall i :: 0 <= i < |s| ==> IsSpace(s[i])
  }

  /** `s.lstrip()`: what is left after the leading whitespace. */
  function TrimLeft(s: string): (r: string)
    ensures |r| <= |s|
    ensures r == [] || !IsSpace(r[0])
  {
    if s != [] && IsSpace(s[0]) then TrimLeft(s[1..]) else s
  }

  /** `lstrip()` keeps a suffix and removes only whitespace. */
  lemma {:induction false} TrimLeftRemovesSpace(s: string)
    ensures TrimLeft(s) == s[|s| - |TrimLeft(s)|..]
    ensures AllSpace(s[..|s| - |TrimLeft(s)|])
  {
    if s != [] && IsSpace(s[0]) {
      var r := TrimLeft(s[1..]);
      TrimLeftRemovesSpace(s[1..]);
      assert s[1..][|s| - 1 - |r|..] == s[|s| - |r|..];
      assert s[..|s| - |r|] == [s[0]] + s[1..][..|s| - 1 - |r|];
    }
  }

  /** `s.rstrip()`: what is left before the trailing whitespace. */
  function TrimRight(s: string): (r: string)
    ensures |r| <= |s|
    ensures r == [] || !IsSpace(r[|r| - 1])
  {
    if s != [] && IsSpace(s[|s| - 1]) then TrimRight(s[..|s| - 1]) else s
  }

  /** `rstrip()` keeps a prefix and removes only whitespace. */
  lemma {:induction false} TrimRightRemovesSpace(s: string)
    ensures TrimRight(s) == s[..|TrimRight(s)|]
    ensures AllSpace(s[|TrimRight(s)|..])
  {
    if s != [] && IsSpace(s[|s| - 1]) {
      var r := TrimRight(s[..|s| - 1]);
      TrimRightRemovesSpace(s[..|s| - 1]);
      assert s[|r|..] == s[..|s| - 1][|r|..] + [s[|s| - 1]];
    }
  }

  /** `s.strip()`. */
  function Strip(s: string): string {
    TrimRight(TrimLeft(s))
  }

  /** A line is blank (falsy after `strip()`) exactly when it is all whitespace. */
  lemma StripEmptyIffAllSpace(s: string)
    ensures Strip(s) == [] <==> AllSpace(s)
  {
    var t := TrimLeft(s);
    TrimLeftRemovesSpace(s);
    TrimRightRemovesSpace(t);
    if AllSpace(s) {
      TrimLeftSpaces(s, []);
      assert s + [] == s;
    }
    if Strip(s) == [] {
      assert t[0..] == t;
      assert t == [];
      assert s[..|s|] == s;
    }
  }

  lemma {:induction false} TrimLeftSpaces(p: string, q: string)
    requires AllSpace(p)
    ensures TrimLeft(p + q) == TrimLeft(q)
  {
    if p == [] {
      assert p + q == q;
    } else {
      assert (p + q)[1..] == p[1..] + q;
      TrimLeftSpaces(p[1..], q);
    }
  }

  /** The first index at or after i that is not whitespace (or the end). */
  function SkipSpaces(s: string, i: nat): (j: nat)
    requires i <= |s|
    ensures i <= j <= |s| && (j == |s| || !IsSpace(s[j]))
    decreases |s| - i
  {
    if i < |s| && IsSpace(s[i]) then SkipSpaces(s, i + 1) else i
  }

  /** The first index at or after i that is whitespace (or the end). */
  function SkipWord(s: string, i: nat): (j: nat)
    requires i <= |s|
    ensures i <= j <= |s| && (j == |s| || IsSpace(s[j]))
    ensures i < |s| && !IsSpace(s[i]) ==> i < j
    decreases |s| - i
  {
    if i < |s| && !IsSpace(s[i]) then SkipWord(s, i + 1) else i
  }

  lemma {:induction false} SkipSpacesSkipsSpace(s: string, i: nat)
    requires i <= |s|
    ensures forall k :: i <= k < SkipSpaces(s, i) ==> IsSpace(s[k])
    decreases |s| - i
  {
    if i < |s| && IsSpace(s[i]) {
      SkipSpacesSkipsSpace(s, i + 1);
    }
  }

  lemma {:induction false} SkipWordSkipsWord(s: string, i: nat)
    requires i <= |s|
    ensures forall k :: i <= k < SkipWord(s, i) ==> !IsSpace(s[k])
    decreases |s| - i
  {
    if i < |s| && !IsSpace(s[i]) {
      SkipWordSkipsWord(s, i + 1);
    }
  }

  /** `SkipWord` stops exactly at the first whitespace character. */
  lemma {:induction false} SkipWordAt(s: string, i: nat, k: nat)
    requires i <= k <= |s|
    requires forall m :: i <= m < k ==> !IsSpace(s[m])
    requires k == |s| || IsSpace(s[k])
    ensures SkipWord(s, i) == k
    decreases k - i
  {
    if i < k {
      SkipWordAt(s, i + 1, k);
    }
  }

  /** The words of `s` from index i on. */
  function WordsFrom(s: string, i: nat): seq<string>
    requires i <= |s|
    decreases |s| - i
  {
    var a := SkipSpaces(s, i);
    if a == |s| then []
    else
      var b := SkipWord(s, a);
      [s[a..b]] + WordsFrom(s, b)
  }

  /** `s.split()`: the maximal runs of non-whitespace characters, in order. */
  function Words(s: string): seq<string> {
    WordsFrom(s, 0)
  }

  /** The parts of `s.split(maxsplit=n)` from index i on. */
  function SplitMaxFrom(s: string, i: nat, n: nat): seq<string>
    requires i <= |s|
    decreases |s| - i
  {
    var a := SkipSpaces(s, i);
    if a == |s| then []
    else if n == 0 then [s[a..]]
    else
      var b := SkipWord(s, a);
      [s[a..b]] + SplitMaxFrom(s, b, n - 1)
  }

  /** `s.split(maxsplit=n)`: at most n words are split off; the last part,
      when there is one, is the rest of `s` from its next non-whitespace
      character on, trailing whitespace included. */
  function SplitMax(s: string, n: nat): seq<string> {
    SplitMaxFrom(s, 0, n)
  }

  /** Where the last part of `split(maxsplit=n)` starts. */
  function RestStart(s: string, i: nat, n: nat): (j: nat)
    requires i <= |s|
    ensures i <= j <= |s|
    decreases |s| - i
  {
    var a := SkipSpaces(s, i);
    if a == |s| || n == 0 then a else RestStart(s, SkipWord(s, a), n - 1)
  }

  /** Every word is non-empty and holds no whitespace. */
  lemma {:induction false} WordsFromAreTokens(s: string, i: nat)
    requires i <= |s|
    ensures forall k :: 0 <= k < |WordsFrom(s, i)| ==>
      WordsFrom(s, i)[k] != [] && NoSpace(WordsFrom(s, i)[k])
    decreases |s| - i
  {
    var a := SkipSpaces(s, i);
    if a < |s| {
      var b := SkipWord(s, a);
      SkipWordSkipsWord(s, a);
      assert NoSpace(s[a..b]) by {
        forall m | 0 <= m < b - a ensures !IsSpace(s[a..b][m]) {
          assert s[a..b][m] == s[a + m];
        }
      }
      WordsFromAreTokens(s, b);
    }
  }

  lemma WordsAreTokens(s: string)
    ensures forall k :: 0 <= k < |Words(s)| ==> Words(s)[k] != [] && NoSpace(Words(s)[k])
  {
    WordsFromAreTokens(s, 0);
  }

  /** A string has no words exactly when it is all whitespace. */
  lemma WordsEmptyIffAllSpace(s: string)
    ensures Words(s) == [] <==> AllSpace(s)
  {
    SkipSpacesSkipsSpace(s, 0);
  }

  /** Whitespace before index j does not change the words from there on. */
  lemma WordsFromSkip(s: string, i: nat)
    requires i <= |s|
    ensures WordsFrom(s, SkipSpaces(s, i)) == WordsFrom(s, i)
  {
    var a := SkipSpaces(s, i);
    assert SkipSpaces(s, a) == a;
  }

  /** With no more than n words, `split(maxsplit=n)` is plain `split()`. */
  lemma {:induction false} SplitMaxFew(s: string, i: nat, n: nat)
    requires i <= |s|
    ensures |WordsFrom(s, i)| <= n ==> SplitMaxFrom(s, i, n) == WordsFrom(s, i)
    decreases |s| - i
  {
    var a := SkipSpaces(s, i);
    if a < |s| && |WordsFrom(s, i)| <= n {
      var b := SkipWord(s, a);
      SplitMaxFew(s, b, n - 1);
    }
  }

  /** With more than n words, `split(maxsplit=n)` gives the first n words and
      then the rest of `s` from `RestStart` on: a suffix that starts with a
      non-whitespace character, follows a whitespace character when n > 0,
      and holds exactly the remaining words. */
  lemma SplitMaxMany(s: string, i: nat, n: nat)
    requires i <= |s| && |WordsFrom(s, i)| > n
    ensures var j := RestStart(s, i, n);
      && j < |s| && !IsSpace(s[j])
      && (n > 0 ==> i < j && IsSpace(s[j - 1]))
      && SplitMaxFrom(s, i, n) == WordsFrom(s, i)[..n] + [s[j..]]
      && WordsFrom(s, j) == WordsFrom(s, i)[n..]
  {
    RestStartBounds(s, i, n);
    SplitMaxManyParts(s, i, n);
  }

  /** With more than n words, the last part starts at a non-whitespace
      character that, when n > 0, follows whitespace. */
  lemma {:induction false} RestStartBounds(s: string, i: nat, n: nat)
    requires i <= |s| && |WordsFrom(s, i)| > n
    ensures var j := RestStart(s, i, n);
      && j < |s| && !IsSpace(s[j])
      && (n > 0 ==> i < j && IsSpace(s[j - 1]))
    decreases |s| - i
  {
    var a := SkipSpaces(s, i);
    if n > 0 {
      assert a < |s| && !IsSpace(s[a]);
      var b := SkipWord(s, a);
      assert a < b;
      assert |WordsFrom(s, i)| == 1 + |WordsFrom(s, b)|;
      assert RestStart(s, i, n) == RestStart(s, b, n - 1);
      RestStartBounds(s, b, n - 1);
      if n == 1 {
        SpaceBeforeNext(s, b);
      }
    }
  }

  /** With more than n words, the first n parts are the first n words and
      the last part holds exactly the remaining words. */
  lemma {:induction false} SplitMaxManyParts(s: string, i: nat, n: nat)
    requires i <= |s| && |WordsFrom(s, i)| > n
    ensures var j := RestStart(s, i, n);
      && SplitMaxFrom(s, i, n) == WordsFrom(s, i)[..n] + [s[j..]]
      && WordsFrom(s, j) == WordsFrom(s, i)[n..]
    decreases |s| - i
  {
    var a := SkipSpaces(s, i);
    assert a < |s|;
    if n == 0 {
      WordsFromSkip(s, i);
    } else {
      var b := SkipWord(s, a);
      assert SplitMaxFrom(s, i, n) == [s[a..b]] + SplitMaxFrom(s, b, n - 1);
      assert WordsFrom(s, i) == [s[a..b]] + WordsFrom(s, b);
      SplitMaxManyParts(s, b, n - 1);
      ConsSlices(s[a..b], WordsFrom(s, b), n);
    }
  }

  /** Skipping from the end of a word to a next word passes whitespace. */
  lemma SpaceBeforeNext(s: string, b: nat)
    requires b <= |s| && (b == |s| || IsSpace(s[b])) && SkipSpaces(s, b) < |s|
    ensures b < SkipSpaces(s, b) && IsSpace(s[SkipSpaces(s, b) - 1])
  {
    SkipSpacesSkipsSpace(s, b);
  }

  /** Taking and dropping n elements of a sequence with one more in front. */
  lemma ConsSlices(x: string, w: seq<string>, n: nat)
    requires 0 < n <= |w| + 1
    ensures ([x] + w)[..n] == [x] + w[..n - 1]
    ensures ([x] + w)[n..] == w[n - 1..]
  {
  }

  /** `t` is the suffix of `s` that starts at index d, stated pointwise. */
  predicate Shifted(t: string, s: string, d: nat) {
    |s| == d + |t| && forall k :: d <= k < |s| ==> s[k] == t[k - d]
  }

  lemma SuffixShifted(s: string, d: nat)
    requires d <= |s|
    ensures Shifted(s[d..], s, d)
  {
  }

  lemma {:induction false} SkipSpacesShift(t: string, s: string, d: nat, j: nat)
    requires Shifted(t, s, d) && d <= j <= |s|
    ensures SkipSpaces(t, j - d) == SkipSpaces(s, j) - d
    decreases |s| - j
  {
    if j < |s| {
      assert s[j] == t[j - d];
      if IsSpace(s[j]) {
        SkipSpacesShift(t, s, d, j + 1);
      }
    }
  }

  lemma {:induction false} SkipWordShift(t: string, s: string, d: nat, j: nat)
    requires Shifted(t, s, d) && d <= j <= |s|
    ensures SkipWord(t, j - d) == SkipWord(s, j) - d
    decreases |s| - j
  {
    if j < |s| {
      assert s[j] == t[j - d];
      if !IsSpace(s[j]) {
        SkipWordShift(t, s, d, j + 1);
      }
    }
  }

  /** One step of `WordsFrom`, on the suffix and on the whole string. */
  lemma WordsFromShiftStep(t: string, s: string, d: nat, j: nat, a: nat, b: nat)
    requires Shifted(t, s, d) && d <= j <= |s|
    requires a == SkipSpaces(s, j) && a < |s| && b == SkipWord(s, a)
    ensures d <= a < b
    ensures WordsFrom(t, j - d) == [s[a..b]] + WordsFrom(t, b - d)
  {
    SkipSpacesShift(t, s, d, j);
    SkipWordShift(t, s, d, a);
    assert SkipSpaces(t, j - d) == a - d < |t|;
    assert SkipWord(t, a - d) == b - d;
    ShiftedSlice(t, s, d, a, b);
  }

  /** A slice of the suffix is the same slice of the whole string. */
  lemma ShiftedSlice(t: string, s: string, d: nat, a: nat, b: nat)
    requires Shifted(t, s, d) && d <= a <= b <= |s|
    ensures t[a - d..b - d] == s[a..b]
  {
    forall k | 0 <= k < b - a ensures t[a - d..b - d][k] == s[a..b][k] {
      assert s[a + k] == t[a + k - d];
    }
  }

  /** The words of a suffix are the words of the string from that point. */
  lemma {:induction false} WordsFromShift(t: string, s: string, d: nat, j: nat)
    requires Shifted(t, s, d) && d <= j <= |s|
    ensures WordsFrom(t, j - d) == WordsFrom(s, j)
    decreases |s| - j
  {
    var a := SkipSpaces(s, j);
    if a < |s| {
      var b := SkipWord(s, a);
      WordsFromShiftStep(t, s, d, j, a, b);
      WordsFromShift(t, s, d, b);
    } else {
      SkipSpacesShift(t, s, d, j);
    }
  }

  /** The words of the suffix from index d are the words of `s` from d on. */
  lemma WordsOfSuffix(s: string, d: nat)
    requires d <= |s|
    ensures Words(s[d..]) == WordsFrom(s, d)
  {
    SuffixShifted(s, d);
    WordsFromShift(s[d..], s, d, d);
  }

  /** A word followed by whitespace (or by nothing) is the first word. */
  lemma WordsCons(w: string, q: string)
    requires w != [] && NoSpace(w) && (q == [] || IsSpace(q[0]))
    ensures Words(w + q) == [w] + Words(q)
  {
    var s := w + q;
    assert SkipSpaces(s, 0) == 0;
    SkipWordAt(s, 0, |w|);
    assert s[0..|w|] == w;
    WordsOfSuffix(s, |w|);
    assert s[|w|..] == q;
  }

  /** Leading whitespace does not change the words. */
  lemma WordsAfterSpace(c: char, q: string)
    requires IsSpace(c)
    ensures Words([c] + q) == Words(q)
  {
    var s := [c] + q;
    assert SkipSpaces(s, 0) == SkipSpaces(s, 1);
    WordsFromSkip(s, 0);
    WordsFromSkip(s, 1);
    WordsOfSuffix(s, 1);
    assert s[1..] == q;
  }

  /** A word and a single space are the first word. */
  lemma WordsWordSpace(w: string, q: string)
    requires w != [] && NoSpace(w)
    ensures Words(w + (" " + q)) == [w] + Words(q)
  {
    WordsCons(w, " " + q);
    WordsAfterSpace(' ', q);
  }

  /** `split()` of words joined by single spaces gives the words back. */
  lemma {:induction false} WordsOfJoin(ws: seq<string>)
    requires forall i :: 0 <= i < |ws| ==> ws[i] != [] && NoSpace(ws[i])
    ensures Words(Join(ws, " ")) == ws
  {
    if |ws| == 1 {
      WordsCons(ws[0], "");
      assert ws[0] + "" == ws[0];
    } else if |ws| > 1 {
      var rest := Join(ws[1..], " ");
      WordsOfJoin(ws[1..]);
      WordsAfterSpace(' ', rest);
      WordsCons(ws[0], " " + rest);
      assert ws[0] + " " + rest == ws[0] + (" " + rest);
    }
  }

  /** Any run of leading whitespace does not change the words. */
  lemma {:induction false} WordsAfterSpaces(p: string, q: string)
    requires AllSpace(p)
    ensures Words(p + q) == Words(q)
  {
    if p != [] {
      WordsAfterSpaces(p[1..], q);
      WordsAfterSpace(p[0], p[1..] + q);
      assert [p[0]] + (p[1..] + q) == p + q;
    } else {
      assert p + q == q;
    }
  }

  /** The tokens ws laid out between whitespace gaps: gaps[0], ws[0],
      gaps[1], ..., ws[|ws| - 1], gaps[|ws|]. */
  function Spaced(ws: seq<string>, gaps: seq<string>): string
    requires |gaps| == |ws| + 1
    decreases |ws|
  {
    if ws == [] then gaps[0] else gaps[0] + ws[0] + Spaced(ws[1..], gaps[1..])
  }

  /** `split()` takes the maximal runs of non-whitespace: tokens separated
      by any non-empty whitespace, with any whitespace before the first and
      after the last, split into exactly those tokens. */
  lemma {:induction false} WordsOfSpaced(ws: seq<string>, gaps: seq<string>)
    requires |gaps| == |ws| + 1
    requires forall i :: 0 <= i < |ws| ==> ws[i] != [] && NoSpace(ws[i])
    requires forall i :: 0 <= i < |gaps| ==> AllSpace(gaps[i])
    requires forall i :: 0 < i < |ws| ==> gaps[i] != []
    ensures Words(Spaced(ws, gaps)) == ws
    decreases |ws|
  {
    if ws == [] {
      WordsEmptyIffAllSpace(gaps[0]);
    } else {
      var rest := Spaced(ws[1..], gaps[1..]);
      WordsOfSpaced(ws[1..], gaps[1..]);
      assert rest == [] || IsSpace(rest[0]) by {
        if |ws| > 1 {
          assert rest == gaps[1] + ws[1] + Spaced(ws[2..], gaps[2..]);
          assert rest[0] == gaps[1][0];
        }
      }
      WordsCons(ws[0], rest);
      WordsAfterSpaces(gaps[0], ws[0] + rest);
      assert gaps[0] + ws[0] + rest == gaps[0] + (ws[0] + rest);
    }
  }

  /** Both shapes of `split(maxsplit=n)` at once, as implications. */
  lemma SplitMaxShape(s: string, n: nat)
    ensures |Words(s)| <= n ==> SplitMax(s, n) == Words(s)
    ensures |Words(s)| > n ==> var j := RestStart(s, 0, n);
      && j < |s| && !IsSpace(s[j])
      && (n > 0 ==> 0 < j && IsSpace(s[j - 1]))
      && SplitMax(s, n) == Words(s)[..n] + [s[j..]]
      && Words(s[j..]) == Words(s)[n..]
  {
    SplitMaxFew(s, 0, n);
    if |Words(s)| > n {
      SplitMaxMany(s, 0, n);
      WordsOfSuffix(s, RestStart(s, 0, n));
    }
  }

  /** One step of `SplitMaxFrom`, on the suffix, read in the whole string. */
  lemma SplitMaxFromShiftStep(t: string, s: string, d: nat, j: nat, n: nat, a: nat, b: nat)
    requires Shifted(t, s, d) && d <= j <= |s| && 0 < n
    requires a == SkipSpaces(s, j) && a < |s| && b == SkipWord(s, a)
    ensures d <= a < b
    ensures SplitMaxFrom(t, j - d, n) == [s[a..b]] + SplitMaxFrom(t, b - d, n - 1)
    ensures SplitMaxFrom(s, j, n) == [s[a..b]] + SplitMaxFrom(s, b, n - 1)
  {
    SkipSpacesShift(t, s, d, j);
    SkipWordShift(t, s, d, a);
    var a', b' := a - d, b - d;
    assert SkipSpaces(t, j - d) == a' < |t|;
    assert SkipWord(t, a') == b';
    ShiftedSlice(t, s, d, a, b);
    assert SplitMaxFrom(t, j - d, n) == [t[a'..b']] + SplitMaxFrom(t, b', n - 1);
  }

  /** The cases of `SplitMaxFrom` on the suffix with no word split off. */
  lemma SplitMaxFromShiftLast(t: string, s: string, d: nat, j: nat, n: nat)
    requires Shifted(t, s, d) && d <= j <= |s|
    requires SkipSpaces(s, j) == |s| || n == 0
    ensures SplitMaxFrom(t, j - d, n) == SplitMaxFrom(s, j, n)
  {
    var a := SkipSpaces(s, j);
    SkipSpacesShift(t, s, d, j);
    if a < |s| {
      ShiftedSlice(t, s, d, a, |s|);
      assert t[a - d..] == t[a - d..|s| - d] && s[a..] == s[a..|s|];
    }
  }

  /** `split(maxsplit=n)` of a suffix is `SplitMaxFrom` of the whole string. */
  lemma {:induction false} SplitMaxFromShift(t: string, s: string, d: nat, j: nat, n: nat)
    requires Shifted(t, s, d) && d <= j <= |s|
    ensures SplitMaxFrom(t, j - d, n) == SplitMaxFrom(s, j, n)
    decreases |s| - j
  {
    var a := SkipSpaces(s, j);
    if a < |s| && n > 0 {
      var b := SkipWord(s, a);
      SplitMaxFromShiftStep(t, s, d, j, n, a, b);
      SplitMaxFromShift(t, s, d, b, n - 1);
    } else {
      SplitMaxFromShiftLast(t, s, d, j, n);
    }
  }

  lemma SplitMaxOfSuffix(s: string, d: nat, n: nat)
    requires d <= |s|
    ensures SplitMax(s[d..], n) == SplitMaxFrom(s, d, n)
  {
    SuffixShifted(s, d);
    SplitMaxFromShift(s[d..], s, d, d, n);
  }

  /** A word followed by whitespace is split off first. */
  lemma SplitMaxCons(w: string, q: string, n: nat)
    requires w != [] && NoSpace(w) && q != [] && IsSpace(q[0])
    ensures SplitMax(w + q, n + 1) == [w] + SplitMax(q, n)
  {
    var s := w + q;
    assert SkipSpaces(s, 0) == 0;
    SkipWordAt(s, 0, |w|);
    assert s[0..|w|] == w;
    SplitMaxOfSuffix(s, |w|, n);
    assert s[|w|..] == q;
  }

  /** Leading whitespace does not change `split(maxsplit=n)`. */
  lemma SplitMaxAfterSpace(c: char, q: string, n: nat)
    requires IsSpace(c)
    ensures SplitMax([c] + q, n) == SplitMax(q, n)
  {
    var s := [c] + q;
    assert SkipSpaces(s, 0) == SkipSpaces(s, 1);
    assert SplitMaxFrom(s, 0, n) == SplitMaxFrom(s, 1, n);
    SplitMaxOfSuffix(s, 1, n);
    assert s[1..] == q;
  }

  /** A word and a single space are split off first. */
  lemma SplitMaxWordSpace(w: string, q: string, n: nat)
    requires w != [] && NoSpace(w)
    ensures SplitMax(w + (" " + q), n + 1) == [w] + SplitMax(q, n)
  {
    SplitMaxCons(w, " " + q, n);
    SplitMaxAfterSpace(' ', q, n);
  }

  /** With no split left, the whole string from its first character is the
      one part. */
  lemma SplitMaxNone(m: string)
    requires m != [] && !IsSpace(m[0])
    ensures SplitMax(m, 0) == [m]
  {
    assert SkipSpaces(m, 0) == 0;
    assert m[0..] == m;
  }

  /** `strip()` leaves a string that neither starts nor ends with whitespace
      as it is. */
  lemma StripKeeps(s: string)
    requires s != [] && !IsSpace(s[0]) && !IsSpace(s[|s| - 1])
    ensures Strip(s) == s
  {
  }

  // ---------------------------------------------------------------------
  // ASCII case mapping
  // ---------------------------------------------------------------------

  predicate IsLowerAscii(c: char) { 'a' <= c <= 'z' }

  predicate IsUpperAscii(c: char) { 'A' <= c <= 'Z' }

  function UpperChar(c: char): char {
    if IsLowerAscii(c) then (c as int - 32) as char else c
  }

  function LowerChar(c: char): char {
    if IsUpperAscii(c) then (c as int + 32) as char else c
  }

  /** `s.upper()`, restricted to ASCII letters: every letter a-z becomes its
      capital and every other character stays as it is. */
  function Upper(s: string): (r: string)
    ensures |r| == |s|
    ensures forall i :: 0 <= i < |s| ==> r[i] == UpperChar(s[i])
    ensures forall i :: 0 <= i < |s| ==> !IsLowerAscii(r[i])
  {
    if s == [] then [] else [UpperChar(s[0])] + Upper(s[1..])
  }

  /** `s.lower()`, restricted to ASCII letters. */
  function Lower(s: string): (r: string)
    ensures |r| == |s|
    ensures forall i :: 0 <= i < |s| ==> r[i] == LowerChar(s[i])
    ensures forall i :: 0 <= i < |s| ==> !IsUpperAscii(r[i])
  {
    if s == [] then [] else [LowerChar(s[0])] + Lower(s[1..])
  }

  /** Upper-casing twice is upper-casing once. */
  lemma UpperIdempotent(s: string)
    ensures Upper(Upper(s)) == Upper(s)
  {
    assert forall i :: 0 <= i < |s| ==> Upper(Upper(s))[i] == Upper(s)[i];
  }

  /** Lower-casing keeps every whitespace character where it was and
      introduces none. */
  lemma LowerKeepsSpace(s: string)
    ensures forall i :: 0 <= i < |s| ==> (IsSpace(Lower(s)[i]) <==> IsSpace(s[i]))
  {
  }

  // ---------------------------------------------------------------------
  // Lexicographic order and sorted()
  // ---------------------------------------------------------------------

  /** Python's `<` on `str`: code point by code point, a proper prefix first. */
  predicate LexLess(a: string, b: string)
    decreases |a|
  {
    if a == [] then b != []
    else if b == [] then false
    else if a[0] != b[0] then a[0] < b[0]
    else LexLess(a[1..], b[1..])
  }

  lemma {:induction false} LexLessIrreflexive(a: string)
    ensures !LexLess(a, a)
  {
    if a != [] {
      LexLessIrreflexive(a[1..]);
    }
  }

  lemma {:induction false} LexLessAsymmetric(a: string, b: string)
    ensures LexLess(a, b) ==> !LexLess(b, a)
  {
    if a != [] && b != [] && a[0] == b[0] {
      LexLessAsymmetric(a[1..], b[1..]);
    }
  }

  lemma {:induction false} LexLessTransitive(a: string, b: string, c: string)
    requires LexLess(a, b) && LexLess(b, c)
    ensures LexLess(a, c)
  {
    if a != [] && a[0] == b[0] && b[0] == c[0] {
      LexLessTransitive(a[1..], b[1..], c[1..]);
    }
  }

  lemma {:induction false} LexLessTotal(a: string, b: string)
    requires a != b
    ensures LexLess(a, b) || LexLess(b, a)
  {
    if a != [] && b != [] && a[0] == b[0] {
      assert a == [a[0]] + a[1..] && b == [b[0]] + b[1..];
      LexLessTotal(a[1..], b[1..]);
    }
  }

  predicate StrictlySorted(ls: seq<string>) {
    forall i, j :: 0 <= i < j < |ls| ==> LexLess(ls[i], ls[j])
  }

  predicate IsLeast(m: string, s: set<string>) {
    m in s && forall x :: x in s && x != m ==> LexLess(m, x)
  }

  lemma {:induction false} LeastExists(s: set<string>)
    requires s != {}
    ensures exists m :: IsLeast(m, s)
  {
    var a :| a in s;
    if s == {a} {
      assert IsLeast(a, s);
    } else {
      LeastExists(s - {a});
      var m :| IsLeast(m, s - {a});
      if LexLess(a, m) {
        forall x | x in s && x != a
          ensures LexLess(a, x)
        {
          if x != m {
            LexLessTransitive(a, m, x);
          }
        }
        assert IsLeast(a, s);
      } else {
        LexLessTotal(a, m);
        assert IsLeast(m, s);
      }
    }
  }

  lemma LeastUnique(s: set<string>)
    ensures forall m, m' :: IsLeast(m, s) && IsLeast(m', s) ==> m == m'
  {
    forall m, m' | IsLeast(m, s) && IsLeast(m', s)
      ensures m == m'
    {
      if m != m' {
        LexLessAsymmetric(m, m');
      }
    }
  }

  /** `sorted(s)` for a set of strings: its elements, each once, ascending. */
  function SortedStrings(s: set<string>): (ls: seq<string>)
    ensures |ls| == |s| && StrictlySorted(ls)
    ensures forall x :: x in ls <==> x in s
  {
    if s == {} then []
    else
      LeastExists(s);
      LeastUnique(s);
      var m :| IsLeast(m, s);
      var rest := SortedStrings(s - {m});
      assert forall j :: 0 <= j < |rest| ==> rest[j] in s - {m};
      [m] + rest
  }

  /** In two strictly ascending sequences with the same elements and the
      same first element, an element after the first of one is after the
      first of the other. */
  lemma TailMember(a: seq<string>, b: seq<string>, x: string)
    requires StrictlySorted(a) && a != [] && b != [] && a[0] == b[0]
    requires forall y :: y in a <==> y in b
    requires x in a[1..]
    ensures x in b[1..]
  {
    var i :| 0 <= i < |a[1..]| && a[1..][i] == x;
    assert LexLess(a[0], a[i + 1]);
    LexLessIrreflexive(a[0]);
    assert x in b;
    var k :| 0 <= k < |b| && b[k] == x;
    assert k != 0;
    assert b[1..][k - 1] == x;
  }

  /** There is only one strictly ascending sequence with a given set of
      elements, so any other way of sorting agrees with `SortedStrings`. */
  lemma {:induction false} SortedUnique(a: seq<string>, b: seq<string>)
    requires StrictlySorted(a) && StrictlySorted(b)
    requires forall x :: x in a <==> x in b
    ensures a == b
  {
    assert a == [] <==> b == [] by {
      if a != [] {
        assert a[0] in b;
      }
      if b != [] {
        assert b[0] in a;
      }
    }
    if a != [] {
      assert a[0] == b[0] by {
        if a[0] != b[0] {
          assert a[0] in b && b[0] in a;
          var i :| 0 <= i < |b| && b[i] == a[0];
          var j :| 0 <= j < |a| && a[j] == b[0];
          assert LexLess(b[0], a[0]);
          assert LexLess(a[0], b[0]);
          LexLessAsymmetric(a[0], b[0]);
        }
      }
      forall x
        ensures x in a[1..] <==> x in b[1..]
      {
        if x in a[1..] {
          TailMember(a, b, x);
        }
        if x in b[1..] {
          TailMember(b, a, x);
        }
      }
      SortedUnique(a[1..], b[1..]);
      assert a == [a[0]] + a[1..] && b == [b[0]] + b[1..];
    }
  }

  // ---------------------------------------------------------------------
  // Formatting
  // ---------------------------------------------------------------------

  function Repeat(c: char, n: nat): (r: string)
    ensures |r| == n && forall i :: 0 <= i < n ==> r[i] == c
  {
    if n == 0 then [] else [c] + Repeat(c, n - 1)
  }

  /** The format specification `<width`: `s` left-aligned and padded with
      spaces to at least `width` characters, never cut. */
  function PadRight(s: string, width: nat): (r: string)
    ensures |r| == if |s| < width then width else |s|
    ensures r[..|s|] == s
    ensures forall i :: |s| <= i < |r| ==> r[i] == ' '
  {
    if |s| < width then s + Repeat(' ', width - |s|) else s
  }

  predicate IsDigit(c: char) { '0' <= c <= '9' }

  function DigitChar(d: nat): (c: char)
    requires d < 10
    ensures IsDigit(c)
  {
    ('0' as int + d) as char
  }

  /** The value of a string of decimal digits. */
  function DecimalValue(s: string): nat
    requires forall i :: 0 <= i < |s| ==> IsDigit(s[i])
  {
    if s == [] then 0
    else
      assert IsDigit(s[|s| - 1]);
      10 * DecimalValue(s[..|s| - 1]) + (s[|s| - 1] as int - '0' as int)
  }

  /** `str(n)` for a non-negative integer: its decimal digits, with no
      leading zero. */
  function NatToString(n: nat): (s: string)
    ensures s != [] && forall i :: 0 <= i < |s| ==> IsDigit(s[i])
    ensures s[0] == '0' ==> n == 0
  {
    if n < 10 then [DigitChar(n)] else NatToString(n / 10) + [DigitChar(n % 10)]
  }

  /** Reading the digits back gives the number. */
  lemma {:induction false} NatToStringRoundTrip(n: nat)
    ensures DecimalValue(NatToString(n)) == n
  {
    var s := NatToString(n);
    if n >= 10 {
      NatToStringRoundTrip(n / 10);
      assert s[..|s| - 1] == NatToString(n / 10);
    } else {
      assert s[..|s| - 1] == [];
    }
  }

  /** `sep.join(ls)`. */
  function Join(ls: seq<string>, sep: string): string {
    if |ls| == 0 then ""
    else if |ls| == 1 then ls[0]
    else ls[0] + sep + Join(ls[1..], sep)
  }

  /** `s.split(c)` with a one-character separator: the pieces between the
      occurrences of `c`, empty pieces included. */
  function SplitOn(s: string, c: char): (parts: seq<string>)
    ensures |parts| >= 1
    decreases |s|
  {
    if s == [] then [""]
    else
      var tail := SplitOn(s[1..], c);
      if s[0] == c then [""] + tail
      else [[s[0]] + tail[0]] + tail[1..]
  }

  /** A first piece free of the separator is glued to the first part. */
  lemma {:induction false} SplitOnPrefix(a: string, t: string, c: char)
    requires c !in a
    ensures SplitOn(a + t, c) == [a + SplitOn(t, c)[0]] + SplitOn(t, c)[1..]
  {
    var p := SplitOn(t, c);
    if a == [] {
      assert a + t == t;
      assert a + p[0] == p[0];
      assert p == [p[0]] + p[1..];
    } else {
      assert (a + t)[0] == a[0] && (a + t)[1..] == a[1..] + t;
      SplitOnPrefix(a[1..], t, c);
      var q := SplitOn(a[1..] + t, c);
      assert q == [a[1..] + p[0]] + p[1..];
      assert SplitOn(a + t, c) == [[a[0]] + q[0]] + q[1..];
      assert [a[0]] + (a[1..] + p[0]) == a + p[0];
    }
  }

  /** Splitting a join on its one-character separator gives back the pieces,
      provided no piece contains the separator. */
  lemma {:induction false} SplitOnJoin(ls: seq<string>, c: char)
    requires |ls| >= 1
    requires forall i :: 0 <= i < |ls| ==> c !in ls[i]
    ensures SplitOn(Join(ls, [c]), c) == ls
  {
    if |ls| == 1 {
      SplitOnPrefix(ls[0], "", c);
      assert ls[0] + "" == ls[0];
    } else {
      var rest := Join(ls[1..], [c]);
      SplitOnJoin(ls[1..], c);
      SplitOnPrefix(ls[0], [c] + rest, c);
      assert Join(ls, [c]) == ls[0] + ([c] + rest);
      assert ([c] + rest)[0] == c && ([c] + rest)[1..] == rest;
      assert SplitOn([c] + rest, c) == [""] + ls[1..];
      assert ls[0] + "" == ls[0];
      assert ls == [ls[0]] + ls[1..];
    }
  }
}
