/** The regular-expression searches of the receipt parser, each written out as a
    scanner that answers "does the pattern match starting at position i, and what
    does its group 1 capture?", plus the leftmost search `re.search` performs.
    Each scanner follows Python's backtracking matcher for its one pattern; the
    comment on it says why the greedy runs it takes are the only ones that can
    succeed. */
module Patterns {
  import opened Wrappers
  import opened Text

  /** A matcher: the group-1 capture of a match that starts at position i, if any. */
  type Matcher = (string, nat) -> Option<string>

  /** The leftmost position at or after `i` where `m` matches. */
  function FirstMatchFrom(m: Matcher, s: string, i: nat): (r: Option<nat>)
    requires i <= |s|
    ensures r.Some? ==> i <= r.value <= |s| && m(s, r.value).Some?
    ensures r.Some? ==> forall j :: i <= j < r.value ==> m(s, j).None?
    ensures r.None? ==> forall j :: i <= j <= |s| ==> m(s, j).None?
    decreases |s| - i
  {
    if m(s, i).Some? then Some(i)
    else if i == |s| then None
    else FirstMatchFrom(m, s, i + 1)
  }

  /** `re.search(pattern, s)` followed by `.group(1)`: the capture of the leftmost match. */
  function Search(m: Matcher, s: string): (r: Option<string>)
    ensures r.Some? ==> exists i :: 0 <= i <= |s| && m(s, i) == r && forall j :: 0 <= j < i ==> m(s, j).None?
    ensures r.None? ==> forall i :: 0 <= i <= |s| ==> m(s, i).None?
  {
    match FirstMatchFrom(m, s, 0)
    case None => None
    case Some(i) => m(s, i)
  }

  /** `re.search` finds something exactly when the pattern matches somewhere, and
      what it finds is the capture of a match. */
  lemma SearchSomewhere(m: Matcher, s: string)
    ensures Search(m, s).Some? <==> exists i :: 0 <= i <= |s| && m(s, i).Some?
    ensures Search(m, s).Some? ==> exists i :: 0 <= i <= |s| && m(s, i) == Search(m, s)
  {
  }

  /** A match at `k` with none before it is the one `re.search` reports. */
  lemma SearchFindsFirst(m: Matcher, s: string, k: nat)
    requires k <= |s| && m(s, k).Some?
    requires forall j :: 0 <= j < k ==> m(s, j).None?
    ensures Search(m, s) == m(s, k)
  {
  }

  function DigitsEnd(s: string, i: nat): (j: nat)
    requires i <= |s|
    ensures i <= j <= |s| && IsDigits(s[i..j]) && (j == |s| || !IsDigit(s[j]))
  {
    var j := RunEnd(IsDigit, s, i);
    assert forall k :: 0 <= k < j - i ==> s[i..j][k] == s[i + k];
    j
  }

  // ---------------------------------------------------------------------------
  // Capture shapes.

  /** `\d+\.\d{2}`: digits, one dot, exactly two digits. */
  predicate IsStrictPrice(g: string) {
    |g| >= 4 && g[|g| - 3] == '.' && IsDigits(g[..|g| - 3]) && IsDigits(g[|g| - 2..])
  }

  /** `\d+\.\d+`: digits, one dot, digits. */
  predicate IsDecimal(g: string) {
    exists d :: 0 < d < |g| - 1 && g[d] == '.' && IsDigits(g[..d]) && IsDigits(g[d + 1..])
  }

  /** What `\d*\.?\d{2}` can capture after a `$`: an optional digit run, a dot and
      two digits, or a run of at least two digits. */
  predicate IsLoosePrice(g: string) {
    || (|g| >= 3 && g[|g| - 3] == '.' && IsDigits(g[..|g| - 3]) && IsDigits(g[|g| - 2..]))
    || (|g| >= 2 && IsDigits(g))
  }

  // ---------------------------------------------------------------------------
  // The scanners.

  /** `\$(\d+\.\d{2})` at `i`. The digit run must be taken whole: giving a digit
      back leaves a digit where the dot is required. */
  function StrictPriceAt(s: string, i: nat): (g: Option<string>)
    ensures g.Some? ==> IsStrictPrice(g.value) && i < |s| && s[i] == '$' && OccursAt(g.value, s, i + 1)
  {
    if i < |s| && s[i] == '$' then
      var j := DigitsEnd(s, i + 1);
      if j > i + 1 && j + 2 < |s| && s[j] == '.' && IsDigit(s[j + 1]) && IsDigit(s[j + 2]) then
        var g := s[i + 1..j + 3];
        assert g[..|g| - 3] == s[i + 1..j] && g[|g| - 2..] == s[j + 1..j + 3];
        Some(g)
      else None
    else None
  }

  /** `\$(\d*\.?\d{2})` at `i`. With n digits after the `$`, the first try takes all
      n digits and the dot, and needs two digits after it. Failing that, leaving the
      dot out needs a digit where the dot or the end of the run is; giving back one
      digit fails the same way; giving back two lets `\d{2}` take the last two
      digits of the run, so the capture is the whole run when n >= 2. */
  function LoosePriceAt(s: string, i: nat): (g: Option<string>)
    ensures g.Some? ==> IsLoosePrice(g.value) && i < |s| && s[i] == '$' && OccursAt(g.value, s, i + 1)
  {
    if i < |s| && s[i] == '$' then
      var j := DigitsEnd(s, i + 1);
      if j + 2 < |s| && s[j] == '.' && IsDigit(s[j + 1]) && IsDigit(s[j + 2]) then
        var g := s[i + 1..j + 3];
        assert g[..|g| - 3] == s[i + 1..j] && g[|g| - 2..] == s[j + 1..j + 3];
        assert g[|g| - 3] == '.' && IsDigits(g[|g| - 2..]);
        Some(g)
      else if j >= i + 3 then
        Some(s[i + 1..j])
      else None
    else None
  }

  /** `Shopped Qty (\d+)` at `i`; the greedy digit run ends where the digits end. */
  function QtyAt(s: string, i: nat): (g: Option<string>)
    ensures g.Some? ==> |g.value| > 0 && IsDigits(g.value)
    ensures g.Some? ==> OccursAt("Shopped Qty " + g.value, s, i)
  {
    if OccursAt("Shopped Qty ", s, i) then
      var j := DigitsEnd(s, i + 12);
      if j > i + 12 then
        assert s[i..j] == s[i..i + 12] + s[i + 12..j];
        Some(s[i + 12..j])
      else None
    else None
  }

  /** `Shopped Wt (\d+\.\d+)` at `i`. The first digit run is taken whole (a digit
      cannot stand where the dot is), and so is the second (nothing follows it). */
  function WtAt(s: string, i: nat): (g: Option<string>)
    ensures g.Some? ==> IsDecimal(g.value)
    ensures g.Some? ==> OccursAt("Shopped Wt " + g.value, s, i)
  {
    if OccursAt("Shopped Wt ", s, i) then
      var a := i + 11;
      var j := DigitsEnd(s, a);
      if j > a && j < |s| && s[j] == '.' then
        var k := DigitsEnd(s, j + 1);
        if k > j + 1 then
          var g := s[a..k];
          assert g[j - a] == '.' && g[..j - a] == s[a..j] && g[j - a + 1..] == s[j + 1..k];
          assert s[i..k] == s[i..a] + g;
          Some(g)
        else None
      else None
    else None
  }

  /** `(\d+\.\d+)\s*lb` at `i`. Giving back whitespace leaves a space where `l` is
      needed, giving back a digit of the second run leaves a digit there, and giving
      back a digit of the first run leaves a digit where the dot is needed: only the
      maximal runs can match. */
  function LbWeightAt(s: string, i: nat): (g: Option<string>)
    ensures g.Some? ==> IsDecimal(g.value) && OccursAt(g.value, s, i)
  {
    if i < |s| then
      var j := DigitsEnd(s, i);
      if j > i && j < |s| && s[j] == '.' then
        var k := DigitsEnd(s, j + 1);
        var w := RunEnd(IsSpace, s, k);
        if k > j + 1 && OccursAt("lb", s, w) then
          var g := s[i..k];
          assert g[j - i] == '.' && g[..j - i] == s[i..j] && g[j - i + 1..] == s[j + 1..k];
          Some(g)
        else None
      else None
    else None
  }

  predicate IsNotComma(c: char) {
    c != ','
  }

  /** `Fresh ([^,]+)` at `i`: everything after `Fresh ` up to the next comma. */
  function FreshNameAt(s: string, i: nat): (g: Option<string>)
    ensures g.Some? ==> |g.value| > 0 && ',' !in g.value
    ensures g.Some? ==> OccursAt("Fresh " + g.value, s, i)
  {
    if OccursAt("Fresh ", s, i) then
      var j := RunEnd(IsNotComma, s, i + 6);
      if j > i + 6 then
        assert s[i..j] == s[i..i + 6] + s[i + 6..j];
        var g := s[i + 6..j];
        assert forall k :: 0 <= k < |g| ==> g[k] == s[i + 6 + k];
        Some(g)
      else None
    else None
  }

  // ---------------------------------------------------------------------------
  // Exact characterisations: what the scanners capture, stated without scanning.

  /** `\$(\d+\.\d{2})` matches at `i` with capture `g` exactly when a `$` stands at
      `i` and a strict price `g` follows it. */
  lemma StrictPriceAtIff(s: string, i: nat, g: string)
    ensures StrictPriceAt(s, i) == Some(g) <==>
            (i < |s| && s[i] == '$' && IsStrictPrice(g) && OccursAt(g, s, i + 1))
  {
    if i < |s| && s[i] == '$' && IsStrictPrice(g) && OccursAt(g, s, i + 1) {
      var j := i + 1 + |g| - 3;
      assert s[i + 1..j] == g[..|g| - 3];
      assert s[j] == g[|g| - 3];
      assert s[j + 1] == g[|g| - 2] && s[j + 2] == g[|g| - 1];
      RunEndUnique(IsDigit, s, i + 1, j);
    }
  }

  /** `Shopped Qty (\d+)` matches at `i` with capture `g` exactly when the literal
      stands at `i` followed by the digits `g`, and no further digit follows. */
  lemma QtyAtIff(s: string, i: nat, g: string)
    ensures QtyAt(s, i) == Some(g) <==>
            (OccursAt("Shopped Qty " + g, s, i) && |g| > 0 && IsDigits(g)
             && (i + 12 + |g| == |s| || !IsDigit(s[i + 12 + |g|])))
  {
    if OccursAt("Shopped Qty " + g, s, i) && |g| > 0 && IsDigits(g)
       && (i + 12 + |g| == |s| || !IsDigit(s[i + 12 + |g|])) {
      var t := "Shopped Qty " + g;
      assert s[i..i + 12] == t[..12] == "Shopped Qty ";
      assert s[i + 12..i + 12 + |g|] == t[12..] == g;
      RunEndUnique(IsDigit, s, i + 12, i + 12 + |g|);
    }
    if QtyAt(s, i) == Some(g) {
      assert g == s[i + 12..i + 12 + |g|];
    }
  }

  /** `Fresh ([^,]+)` matches at `i` with capture `g` exactly when `Fresh ` stands at
      `i` followed by the comma-free text `g`, which ends at a comma or at the end. */
  lemma FreshNameAtIff(s: string, i: nat, g: string)
    ensures FreshNameAt(s, i) == Some(g) <==>
            (OccursAt("Fresh " + g, s, i) && |g| > 0 && ',' !in g
             && (i + 6 + |g| == |s| || s[i + 6 + |g|] == ','))
  {
    if OccursAt("Fresh " + g, s, i) && |g| > 0 && ',' !in g
       && (i + 6 + |g| == |s| || s[i + 6 + |g|] == ',') {
      var t := "Fresh " + g;
      assert s[i..i + 6] == t[..6] == "Fresh ";
      assert s[i + 6..i + 6 + |g|] == t[6..] == g;
      assert forall k :: i + 6 <= k < i + 6 + |g| ==> s[k] == g[k - i - 6];
      RunEndUnique(IsNotComma, s, i + 6, i + 6 + |g|);
    }
    if FreshNameAt(s, i) == Some(g) {
      assert g == s[i + 6..i + 6 + |g|];
    }
  }

  /** The capture of `\$(\d*\.?\d{2})` after a `$` prefers a dotted price: when the
      digit run after the `$` is followed by a dot and two digits, that is the capture. */
  lemma LoosePricePrefersDot(s: string, i: nat, g: string)
    requires i < |s| && s[i] == '$'
    requires |g| >= 3 && g[|g| - 3] == '.' && IsDigits(g[..|g| - 3]) && IsDigits(g[|g| - 2..])
    requires OccursAt(g, s, i + 1)
    ensures LoosePriceAt(s, i) == Some(g)
  {
    var j := i + 1 + |g| - 3;
    assert s[i + 1..j] == g[..|g| - 3];
    assert s[j] == g[|g| - 3];
    assert s[j + 1] == g[|g| - 2] && s[j + 2] == g[|g| - 1];
    RunEndUnique(IsDigit, s, i + 1, j);
  }
  /** What `\$(\d*\.?\d{2})` can capture at a `$` at `i`: `g` follows the `$` and is
      either a digit run, a dot and two digits, or the whole digit run after the
      `$` (at least two digits) when no dot and two digits follow that run. */
  predicate LoosePriceShape(s: string, i: nat, g: string)
  {
    i < |s| && s[i] == '$' && OccursAt(g, s, i + 1) &&
    ( (|g| >= 3 && g[|g| - 3] == '.' && IsDigits(g[..|g| - 3]) && IsDigits(g[|g| - 2..]))
    || (|g| >= 2 && IsDigits(g) && (i + 1 + |g| == |s| || !IsDigit(s[i + 1 + |g|]))
        && !(i + 3 + |g| < |s| && s[i + 1 + |g|] == '.' && IsDigit(s[i + 2 + |g|]) && IsDigit(s[i + 3 + |g|]))))
  }

  /** The whole digit run after a `$`, when no dot and two digits follow it. */
  lemma LoosePriceWholeRun(s: string, i: nat, g: string)
    requires i < |s| && s[i] == '$' && OccursAt(g, s, i + 1)
    requires |g| >= 2 && IsDigits(g) && (i + 1 + |g| == |s| || !IsDigit(s[i + 1 + |g|]))
    requires !(i + 3 + |g| < |s| && s[i + 1 + |g|] == '.' && IsDigit(s[i + 2 + |g|]) && IsDigit(s[i + 3 + |g|]))
    ensures LoosePriceAt(s, i) == Some(g)
  {
    var e := i + 1 + |g|;
    assert s[i + 1..e] == g;
    assert forall m :: i + 1 <= m < e ==> s[m] == g[m - i - 1];
    RunEndUnique(IsDigit, s, i + 1, e);
  }

  lemma ShapeOfLoosePriceAt(s: string, i: nat, g: string)
    requires LoosePriceAt(s, i) == Some(g)
    ensures LoosePriceShape(s, i, g)
  {
    var j := DigitsEnd(s, i + 1);
    if j + 2 < |s| && s[j] == '.' && IsDigit(s[j + 1]) && IsDigit(s[j + 2]) {
      assert g == s[i + 1..j + 3];
      assert g[..|g| - 3] == s[i + 1..j] && g[|g| - 3] == '.' && g[|g| - 2..] == s[j + 1..j + 3];
    } else {
      assert g == s[i + 1..j] && |g| == j - i - 1 && i + 1 + |g| == j;
      assert IsDigits(g);
    }
  }

  /** `\$(\d*\.?\d{2})` matches at `i` with capture `g` exactly when the capture has
      one of the two shapes above. */
  lemma LoosePriceAtIff(s: string, i: nat, g: string)
    ensures LoosePriceAt(s, i) == Some(g) <==> LoosePriceShape(s, i, g)
  {
    if LoosePriceShape(s, i, g) {
      if |g| >= 3 && g[|g| - 3] == '.' && IsDigits(g[..|g| - 3]) && IsDigits(g[|g| - 2..]) {
        LoosePricePrefersDot(s, i, g);
      } else {
        LoosePriceWholeRun(s, i, g);
      }
    }
    if LoosePriceAt(s, i) == Some(g) {
      ShapeOfLoosePriceAt(s, i, g);
    }
  }

  /** A decimal written at `a` and not followed by a digit is read by the two
      maximal digit runs the scanners take. */
  lemma DecimalRuns(s: string, a: nat, g: string)
    requires OccursAt(g, s, a) && IsDecimal(g)
    requires a + |g| == |s| || !IsDigit(s[a + |g|])
    ensures var j := DigitsEnd(s, a);
      j > a && j < |s| && s[j] == '.' && DigitsEnd(s, j + 1) == a + |g| && a + |g| > j + 1
  {
    var d :| 0 < d < |g| - 1 && g[d] == '.' && IsDigits(g[..d]) && IsDigits(g[d + 1..]);
    assert s[a..a + |g|] == g;
    assert forall m :: a <= m < a + |g| ==> s[m] == g[m - a];
    assert forall m :: a <= m < a + d ==> IsDigit(s[m]) by {
      forall m | a <= m < a + d ensures IsDigit(s[m]) { assert g[..d][m - a] == g[m - a]; }
    }
    assert forall m :: a + d + 1 <= m < a + |g| ==> IsDigit(s[m]) by {
      forall m | a + d + 1 <= m < a + |g| ensures IsDigit(s[m]) { assert g[d + 1..][m - a - d - 1] == g[m - a]; }
    }
    RunEndUnique(IsDigit, s, a, a + d);
    RunEndUnique(IsDigit, s, a + d + 1, a + |g|);
  }

  /** `Shopped Wt (\d+\.\d+)` matches at `i` with capture `g` exactly when the literal
      stands at `i` followed by the decimal `g`, and no further digit follows. */
  lemma WtAtIff(s: string, i: nat, g: string)
    ensures WtAt(s, i) == Some(g) <==>
            (OccursAt("Shopped Wt " + g, s, i) && IsDecimal(g)
             && (i + 11 + |g| == |s| || !IsDigit(s[i + 11 + |g|])))
  {
    var a := i + 11;
    if OccursAt("Shopped Wt " + g, s, i) && IsDecimal(g) && (a + |g| == |s| || !IsDigit(s[a + |g|])) {
      var t := "Shopped Wt " + g;
      assert s[i..a] == t[..11] == "Shopped Wt ";
      assert s[a..a + |g|] == t[11..] == g;
      DecimalRuns(s, a, g);
    }
    if WtAt(s, i) == Some(g) {
      assert g == s[a..a + |g|];
    }
  }

  /** `g` stands at `i` as a decimal, no further digit follows it, and after it come
      whitespace (or none) and then `lb`. */
  predicate LbWeightShape(s: string, i: nat, g: string)
  {
    OccursAt(g, s, i) && IsDecimal(g)
    && (i + |g| == |s| || !IsDigit(s[i + |g|]))
    && exists w :: i + |g| <= w <= |s| && (forall m :: i + |g| <= m < w ==> IsSpace(s[m]))
                   && OccursAt("lb", s, w)
  }

  lemma LbWeightAtOfShape(s: string, i: nat, g: string)
    requires LbWeightShape(s, i, g)
    ensures LbWeightAt(s, i) == Some(g)
  {
    var k := i + |g|;
    var w :| k <= w <= |s| && (forall m :: k <= m < w ==> IsSpace(s[m])) && OccursAt("lb", s, w);
    DecimalRuns(s, i, g);
    assert s[w..w + 2][0] == 'l';
    RunEndUnique(IsSpace, s, k, w);
    assert s[i..k] == g;
  }

  lemma ShapeOfLbWeightAt(s: string, i: nat, g: string)
    requires LbWeightAt(s, i) == Some(g)
    ensures LbWeightShape(s, i, g)
  {
    var k := i + |g|;
    var w := RunEnd(IsSpace, s, k);
    assert g == s[i..k];
    assert k <= w <= |s| && (forall m :: k <= m < w ==> IsSpace(s[m])) && OccursAt("lb", s, w);
  }

  /** `(\d+\.\d+)\s*lb` matches at `i` with capture `g` exactly when the decimal `g`
      stands at `i`, no further digit follows it, and after it come whitespace (or
      none) and then `lb`. */
  lemma LbWeightAtIff(s: string, i: nat, g: string)
    ensures LbWeightAt(s, i) == Some(g) <==> LbWeightShape(s, i, g)
  {
    if LbWeightShape(s, i, g) { LbWeightAtOfShape(s, i, g); }
    if LbWeightAt(s, i) == Some(g) { ShapeOfLbWeightAt(s, i, g); }
  }
}
