/** Character classes and the string built-ins of Python that the receipt parser
    and the categoriser use: `isspace`, `lower`, `in`, `strip`, `split` and `join`.
    Everything is stated over ASCII. */
module Text {
  import opened Wrappers

  /** Python's `str.isspace()` (and `\s` in a regular expression) on ASCII:
      tab, line feed, vertical tab, form feed, carriage return (9-13),
      the four information separators (28-31) and space (32). */
  predicate IsSpace(c: char) {
    9 <= c as int <= 13 || 28 <= c as int <= 32
  }

  predicate IsWordChar(c: char) {
    !IsSpace(c)
  }

  /** `\d` on ASCII. */
  predicate IsDigit(c: char) {
    '0' <= c <= '9'
  }

  predicate IsDigits(s: string) {
    forall k :: 0 <= k < |s| ==> IsDigit(s[k])
  }

  /** `str.lower()` on one ASCII character. */
  function LowerChar(c: char): (r: char)
    ensures 'A' <= c <= 'Z' ==> 'a' <= r <= 'z' && r as int == c as int + 32
    ensures !('A' <= c <= 'Z') ==> r == c
    ensures !('A' <= r <= 'Z')
  {
    if 'A' <= c <= 'Z' then (c as int + 32) as char else c
  }

  /** `str.lower()` on ASCII text. */
  function Lower(s: string): (r: string)
    ensures |r| == |s|
    ensures forall k :: 0 <= k < |s| ==> r[k] == LowerChar(s[k])
  {
    seq(|s|, k requires 0 <= k < |s| => LowerChar(s[k]))
  }

  lemma LowerIdempotent(s: string)
    ensures Lower(Lower(s)) == Lower(s)
  {
  }

  /** Two names that differ only in the case of their letters lower to the same text. */
  lemma {:induction false} LowerIgnoresCase(a: string, b: string)
    requires |a| == |b|
    requires forall k :: 0 <= k < |a| ==> LowerChar(a[k]) == LowerChar(b[k])
    ensures Lower(a) == Lower(b)
  {
    assert forall k :: 0 <= k < |a| ==> Lower(a)[k] == Lower(b)[k];
  }

  // ---------------------------------------------------------------------------
  // Substring search: Python's `pat in s` and `s.find(pat)`.

  predicate OccursAt(pat: string, s: string, i: nat) {
    i + |pat| <= |s| && s[i..i + |pat|] == pat
  }

  /** The leftmost position at or after `i` where `pat` occurs in `s`. */
  function IndexFrom(s: string, pat: string, i: nat): (r: Option<nat>)
    requires i <= |s|
    ensures r.Some? ==> i <= r.value <= |s| && OccursAt(pat, s, r.value)
    ensures r.Some? ==> forall j :: i <= j < r.value ==> !OccursAt(pat, s, j)
    ensures r.None? ==> forall j :: i <= j <= |s| ==> !OccursAt(pat, s, j)
    decreases |s| - i
  {
    if OccursAt(pat, s, i) then Some(i)
    else if i == |s| then None
    else IndexFrom(s, pat, i + 1)
  }

  function IndexOf(s: string, pat: string): Option<nat> {
    IndexFrom(s, pat, 0)
  }

  /** Python's `pat in s`. */
  predicate Contains(s: string, pat: string) {
    IndexOf(s, pat).Some?
  }

  /** `pat in s` holds whenever `pat` occurs at some position of `s`; `IndexFrom`'s
      contract gives the converse. */
  lemma ContainsOfOccurs(s: string, pat: string, i: nat)
    requires OccursAt(pat, s, i)
    ensures Contains(s, pat)
  {
  }

  // ---------------------------------------------------------------------------
  // Maximal runs of characters of one class.

  /** The end of the longest run of characters satisfying `p` that starts at `i`. */
  function RunEnd(p: char -> bool, s: string, i: nat): (j: nat)
    requires i <= |s|
    ensures i <= j <= |s|
    ensures forall k :: i <= k < j ==> p(s[k])
    ensures j == |s| || !p(s[j])
    decreases |s| - i
  {
    if i < |s| && p(s[i]) then RunEnd(p, s, i + 1) else i
  }

  /** The run end is determined by the text: any end with the run properties is it. */
  lemma RunEndUnique(p: char -> bool, s: string, i: nat, j: nat)
    requires i <= j <= |s|
    requires forall k :: i <= k < j ==> p(s[k])
    requires j == |s| || !p(s[j])
    ensures RunEnd(p, s, i) == j
  {
  }

  // ---------------------------------------------------------------------------
  // `str.strip()`.

  predicate IsBlank(s: string) {
    forall k :: 0 <= k < |s| ==> IsSpace(s[k])
  }

  function LeadingSpaces(s: string): (n: nat)
    ensures n <= |s|
    ensures forall k :: 0 <= k < n ==> IsSpace(s[k])
    ensures n == |s| || !IsSpace(s[n])
  {
    RunEnd(IsSpace, s, 0)
  }

  function TrailingSpaces(s: string): (n: nat)
    ensures n <= |s|
    ensures forall k :: |s| - n <= k < |s| ==> IsSpace(s[k])
    ensures n == |s| || !IsSpace(s[|s| - 1 - n])
    decreases |s|
  {
    if s != [] && IsSpace(s[|s| - 1]) then 1 + TrailingSpaces(s[..|s| - 1]) else 0
  }

  /** Python's `s.strip()`: the text between the leading and the trailing whitespace. */
  function Strip(s: string): (r: string)
    ensures r == [] <==> IsBlank(s)
    ensures r != [] ==> !IsSpace(r[0]) && !IsSpace(r[|r| - 1])
  {
    var a := LeadingSpaces(s);
    if a == |s| then []
    else
      assert !IsBlank(s) by { assert !IsSpace(s[a]); }
      s[a..|s| - TrailingSpaces(s)]
  }

  /** Stripping removes only whitespace, and only at the two ends. */
  lemma StripKeepsMiddle(s: string)
    ensures var r := Strip(s);
      exists a :: 0 <= a <= |s| - |r| && s[a..a + |r|] == r
                  && IsBlank(s[..a]) && IsBlank(s[a + |r|..])
  {
    var a := LeadingSpaces(s);
    var r := Strip(s);
    if a == |s| {
      assert s[0..0] == [] && IsBlank(s[..0]) && IsBlank(s[0..]);
    } else {
      assert s[a..a + |r|] == r && IsBlank(s[..a]) && IsBlank(s[a + |r|..]);
    }
  }

  /** Stripping text that has no whitespace at either end leaves it unchanged. */
  lemma StripUnchanged(s: string)
    requires s == [] || (!IsSpace(s[0]) && !IsSpace(s[|s| - 1]))
    ensures Strip(s) == s
  {
    if s != [] {
      assert LeadingSpaces(s) == 0;
      assert TrailingSpaces(s) == 0;
    }
  }

  lemma StripIdempotent(s: string)
    ensures Strip(Strip(s)) == Strip(s)
  {
    StripUnchanged(Strip(s));
  }

  // ---------------------------------------------------------------------------
  // `str.split()` with no separator and `' '.join(words)`.

  /** A word of `str.split()`: non-empty, no whitespace. */
  predicate IsWord(w: string) {
    |w| > 0 && forall k :: 0 <= k < |w| ==> IsWordChar(w[k])
  }

  /** Python's `s.split()`: the maximal runs of non-whitespace, in order. */
  function Words(s: string): (ws: seq<string>)
    ensures forall k :: 0 <= k < |ws| ==> IsWord(ws[k])
    decreases |s|
  {
    if s == [] then []
    else if IsSpace(s[0]) then Words(s[1..])
    else
      var n := RunEnd(IsWordChar, s, 0);
      [s[..n]] + Words(s[n..])
  }

  /** Text that is all whitespace has no words. */
  lemma {:induction false} WordsOfBlank(s: string)
    requires IsBlank(s)
    ensures Words(s) == []
    decreases |s|
  {
    if s != [] {
      WordsOfBlank(s[1..]);
    }
  }

  /** Text that is not all whitespace has at least one word. */
  lemma {:induction false} WordsOfNonBlank(s: string)
    requires !IsBlank(s)
    ensures Words(s) != []
    decreases |s|
  {
    if IsSpace(s[0]) {
      assert !IsBlank(s[1..]) by {
        var k :| 0 <= k < |s| && !IsSpace(s[k]);
        assert s[1..][k - 1] == s[k];
      }
      WordsOfNonBlank(s[1..]);
    }
  }

  /** Python's `' '.join(ws)`. */
  function JoinSpaced(ws: seq<string>): string
    decreases |ws|
  {
    if ws == [] then []
    else if |ws| == 1 then ws[0]
    else ws[0] + " " + JoinSpaced(ws[1..])
  }

  /** Text in the form `' '.join(s.split())` produces: no whitespace at either end,
      no whitespace but single spaces, each space between two word characters. */
  predicate IsNormalized(r: string) {
    && (r != [] ==> IsWordChar(r[0]) && IsWordChar(r[|r| - 1]))
    && forall k :: 0 <= k < |r| && IsSpace(r[k]) ==>
         r[k] == ' ' && 0 < k < |r| - 1 && IsWordChar(r[k - 1]) && IsWordChar(r[k + 1])
  }

  /** A word followed by whitespace (or nothing) splits off as the first word. */
  lemma {:induction false} WordsOfWordThen(w: string, t: string)
    requires IsWord(w)
    requires t == [] || IsSpace(t[0])
    ensures Words(w + t) == [w] + Words(t)
  {
    var s := w + t;
    RunEndUnique(IsWordChar, s, 0, |w|);
    assert s[..|w|] == w;
    assert s[|w|..] == t;
  }

  /** Whitespace in front of the text, one character or a run of any length, adds
      no word and is dropped by `split()`. */
  lemma {:induction false} WordsOfSpacesThen(sp: string, t: string)
    requires IsBlank(sp)
    ensures Words(sp + t) == Words(t)
    decreases |sp|
  {
    if sp != [] {
      var s := sp + t;
      assert s[0] == sp[0] && IsSpace(s[0]);
      assert s[1..] == sp[1..] + t;
      assert Words(s) == Words(s[1..]);
      WordsOfSpacesThen(sp[1..], t);
    } else {
      assert sp + t == t;
    }
  }

  /** Splitting joined words gives the words back. */
  lemma {:induction false} WordsOfJoin(ws: seq<string>)
    requires forall k :: 0 <= k < |ws| ==> IsWord(ws[k])
    ensures Words(JoinSpaced(ws)) == ws
    decreases |ws|
  {
    if ws == [] {
    } else if |ws| == 1 {
      WordsOfWordThen(ws[0], []);
      assert ws[0] + [] == ws[0];
    } else {
      var rest := JoinSpaced(ws[1..]);
      assert JoinSpaced(ws) == ws[0] + (" " + rest);
      WordsOfWordThen(ws[0], " " + rest);
      assert (" " + rest)[1..] == rest;
      WordsOfJoin(ws[1..]);
      assert ws == [ws[0]] + ws[1..];
    }
  }

  /** Joined words are in normal form. */
  lemma {:induction false} JoinNormalized(ws: seq<string>)
    requires forall k :: 0 <= k < |ws| ==> IsWord(ws[k])
    ensures IsNormalized(JoinSpaced(ws))
    decreases |ws|
  {
    if |ws| >= 2 {
      var w, rest := ws[0], JoinSpaced(ws[1..]);
      JoinNormalized(ws[1..]);
      assert rest != [] by { assert IsWord(ws[1]); JoinStartsWith(ws[1..]); }
      var r := JoinSpaced(ws);
      assert r == w + " " + rest;
      forall k | 0 <= k < |r| && IsSpace(r[k])
        ensures r[k] == ' ' && 0 < k < |r| - 1 && IsWordChar(r[k - 1]) && IsWordChar(r[k + 1])
      {
        if k > |w| {
          assert r[k] == rest[k - |w| - 1];
          if k - |w| - 1 > 0 {
            assert r[k - 1] == rest[k - |w| - 2];
          }
        }
      }
    }
  }

  /** Joined words start with the first word. */
  lemma {:induction false} JoinStartsWith(ws: seq<string>)
    requires |ws| > 0
    ensures |JoinSpaced(ws)| >= |ws[0]| && JoinSpaced(ws)[..|ws[0]|] == ws[0]
  {
    if |ws| > 1 {
      assert JoinSpaced(ws) == ws[0] + (" " + JoinSpaced(ws[1..]));
    }
  }

  // ---------------------------------------------------------------------------
  // `s.split(sep)` with a one-character separator.

  /** Python's `s.split(sep)`: the pieces between the separators, `[s]` when there is none. */
  function SplitOn(s: string, sep: char): (parts: seq<string>)
    ensures |parts| > 0
    decreases |s|
  {
    var n := RunEnd(c => c != sep, s, 0);
    if n == |s| then [s] else [s[..n]] + SplitOn(s[n + 1..], sep)
  }

  /** `sep.join(parts)`. */
  function JoinWith(parts: seq<string>, sep: char): string
    decreases |parts|
  {
    if parts == [] then []
    else if |parts| == 1 then parts[0]
    else parts[0] + [sep] + JoinWith(parts[1..], sep)
  }

  /** Splitting on a separator loses nothing: joining the pieces gives the text
      back, and no piece holds the separator. */
  lemma {:induction false} SplitOnJoin(s: string, sep: char)
    ensures JoinWith(SplitOn(s, sep), sep) == s
    ensures forall k :: 0 <= k < |SplitOn(s, sep)| ==> sep !in SplitOn(s, sep)[k]
    decreases |s|
  {
    var n := RunEnd(c => c != sep, s, 0);
    assert sep !in s[..n];
    if n < |s| {
      SplitOnJoin(s[n + 1..], sep);
      assert s == s[..n] + [sep] + s[n + 1..];
    }
  }
}
