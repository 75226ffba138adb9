/** The receipt date: the first `Mon DD, YYYY` token of the page text, read with
    `strptime(..., '%b %d, %Y')` and written back with `strftime('%Y-%m-%d')`. */
module ReceiptDate {
  import opened Wrappers
  import opened Text
  import opened Patterns

  datatype CalendarDate = CalendarDate(year: nat, month: nat, day: nat)

  /** What the page's date search yields: no token, a token `strptime` rejects
      (it raises `ValueError`), or the date in ISO form. */
  datatype DateFound = NoDate | BadDate | IsoDate(iso: string)

  /** The English month abbreviations `%b` accepts, in month order, lowercased
      (`strptime` compares them case-insensitively). */
  const MonthAbbrevs: seq<string> :=
    ["jan", "feb", "mar", "apr", "may", "jun", "jul", "aug", "sep", "oct", "nov", "dec"]

  /** The title-case spelling of an abbreviation, as it stands in a receipt. */
  const MonthTitles: seq<string> :=
    ["Jan", "Feb", "Mar", "Apr", "May", "Jun", "Jul", "Aug", "Sep", "Oct", "Nov", "Dec"]

  predicate IsLeapYear(y: nat) {
    y % 4 == 0 && (y % 100 != 0 || y % 400 == 0)
  }

  function DaysInMonth(y: nat, m: nat): nat
    requires 1 <= m <= 12
  {
    if m == 2 then (if IsLeapYear(y) then 29 else 28)
    else if m == 4 || m == 6 || m == 9 || m == 11 then 30
    else 31
  }

  /** The dates Python's `datetime` accepts. */
  predicate ValidDate(d: CalendarDate) {
    1 <= d.year <= 9999 && 1 <= d.month <= 12 && 1 <= d.day <= DaysInMonth(d.year, d.month)
  }

  // ---------------------------------------------------------------------------
  // Decimal digits.

  function DigitValue(c: char): nat
    requires IsDigit(c)
  {
    c as int - '0' as int
  }

  function DigitChar(n: nat): (c: char)
    requires n < 10
    ensures IsDigit(c) && DigitValue(c) == n
  {
    ('0' as int + n) as char
  }

  /** The value of a run of decimal digits. */
  function Number(s: string): nat
    requires IsDigits(s)
    decreases |s|
  {
    if s == [] then 0 else 10 * Number(s[..|s| - 1]) + DigitValue(s[|s| - 1])
  }

  /** `n` in two digits, with a leading zero, as `%m` and `%d` write it. */
  function Pad2(n: nat): (s: string)
    requires n < 100
    ensures |s| == 2 && IsDigits(s) && Number(s) == n
  {
    var s := [DigitChar(n / 10), DigitChar(n % 10)];
    assert s[..1] == [DigitChar(n / 10)] && s[..1][..0] == [];
    assert Number(s[..1]) == n / 10;
    assert Number(s) == 10 * (n / 10) + n % 10;
    s
  }

  /** `n` in four digits, as `%Y` writes a year from 1000 on. */
  function Pad4(n: nat): (s: string)
    requires n < 10000
    ensures |s| == 4 && IsDigits(s) && Number(s) == n
  {
    var hi, lo := Pad2(n / 100), Pad2(n % 100);
    var s := hi + lo;
    assert s[..3] == hi + lo[..1] && s[..3][..2] == hi;
    assert lo[..1][..0] == [];
    s
  }

  /** `strftime('%Y-%m-%d')`. */
  function IsoText(d: CalendarDate): (r: string)
    requires ValidDate(d)
    ensures |r| == 10 && r[4] == '-' && r[7] == '-'
    ensures IsDigits(r[..4]) && IsDigits(r[5..7]) && IsDigits(r[8..])
    ensures Number(r[..4]) == d.year && Number(r[5..7]) == d.month && Number(r[8..]) == d.day
  {
    var r := Pad4(d.year) + "-" + Pad2(d.month) + "-" + Pad2(d.day);
    assert r[..4] == Pad4(d.year) && r[5..7] == Pad2(d.month) && r[8..] == Pad2(d.day);
    r
  }

  /** A date as the receipt prints it: `Mar 24, 2024`. */
  function TokenText(d: CalendarDate): string
    requires ValidDate(d)
  {
    MonthTitles[d.month - 1] + " " + Pad2(d.day) + ", " + Pad4(d.year)
  }

  // ---------------------------------------------------------------------------
  // The search and `strptime`.

  predicate IsUpper(c: char) {
    'A' <= c <= 'Z'
  }

  predicate IsLower(c: char) {
    'a' <= c <= 'z'
  }

  /** `([A-Z][a-z]{2}\s+\d{2},\s+\d{4})` at `i`. Each `\s+` is taken whole: giving
      back whitespace leaves it where a digit is needed. */
  function DateTokenAt(s: string, i: nat): (g: Option<string>)
    ensures g.Some? ==> |g.value| >= 11 && IsUpper(g.value[0]) && IsDigits(g.value[|g.value| - 4..])
    ensures g.Some? ==> OccursAt(g.value, s, i)
  {
    if i + 3 <= |s| && IsUpper(s[i]) && IsLower(s[i + 1]) && IsLower(s[i + 2]) then
      var a := RunEnd(IsSpace, s, i + 3);
      if a > i + 3 && a + 3 <= |s| && IsDigit(s[a]) && IsDigit(s[a + 1]) && s[a + 2] == ',' then
        var b := RunEnd(IsSpace, s, a + 3);
        if b > a + 3 && b + 4 <= |s| && IsDigits(s[b..b + 4]) then
          var g := s[i..b + 4];
          assert g[|g| - 4..] == s[b..b + 4];
          Some(g)
        else None
      else None
    else None
  }

  /** `g` read as a date token whose first whitespace run ends at `a` and whose
      second ends at `b`. */
  predicate DateTokenSplit(g: string, a: nat, b: nat)
  {
    3 < a && a + 3 < b && b + 4 == |g|
    && IsUpper(g[0]) && IsLower(g[1]) && IsLower(g[2])
    && (forall m :: 3 <= m < a ==> IsSpace(g[m]))
    && IsDigit(g[a]) && IsDigit(g[a + 1]) && g[a + 2] == ','
    && (forall m :: a + 3 <= m < b ==> IsSpace(g[m]))
    && IsDigits(g[b..])
  }

  /** The date pattern matches at `i` with capture `g` exactly when `g` stands at `i`
      and reads as a capital and two small letters, whitespace, two digits and a
      comma, whitespace and four digits. */
  lemma DateTokenAtIff(s: string, i: nat, g: string)
    ensures DateTokenAt(s, i) == Some(g) <==>
            OccursAt(g, s, i) && exists a, b :: DateTokenSplit(g, a, b)
  {
    if OccursAt(g, s, i) && exists a, b :: DateTokenSplit(g, a, b) {
      var a, b :| DateTokenSplit(g, a, b);
      DateTokenAtOfSplit(s, i, g, a, b);
    }
    if DateTokenAt(s, i) == Some(g) {
      SplitOfDateTokenAt(s, i, g);
    }
  }

  lemma SplitOfDateTokenAt(s: string, i: nat, g: string)
    requires DateTokenAt(s, i) == Some(g)
    ensures exists a, b :: DateTokenSplit(g, a, b)
  {
    var a := RunEnd(IsSpace, s, i + 3);
    var b := RunEnd(IsSpace, s, a + 3);
    assert g == s[i..b + 4];
    assert forall m :: 0 <= m < |g| ==> g[m] == s[i + m];
    assert g[b - i..] == s[b..b + 4];
    assert DateTokenSplit(g, a - i, b - i);
  }

  lemma DateTokenAtOfSplit(s: string, i: nat, g: string, a: nat, b: nat)
    requires OccursAt(g, s, i) && DateTokenSplit(g, a, b)
    ensures DateTokenAt(s, i) == Some(g)
  {
    assert s[i..i + |g|] == g;
    forall m | i + 3 <= m < i + a ensures IsSpace(s[m]) {
      assert s[i..i + |g|][m - i] == g[m - i];
    }
    assert s[i + a] == g[a] && s[i + a + 1] == g[a + 1] && s[i + a + 2] == g[a + 2];
    RunEndUnique(IsSpace, s, i + 3, i + a);
    forall m | i + a + 3 <= m < i + b ensures IsSpace(s[m]) {
      assert s[i..i + |g|][m - i] == g[m - i];
    }
    assert s[i + b] == g[b];
    RunEndUnique(IsSpace, s, i + a + 3, i + b);
    assert s[i + b..i + b + 4] == g[b..];
    assert s[i] == g[0] && s[i + 1] == g[1] && s[i + 2] == g[2];
  }

  /** The month number of an abbreviation, compared case-insensitively; 0 for none. */
  function MonthNumber(name: string): (m: nat)
    ensures m <= 12
    ensures m > 0 ==> MonthAbbrevs[m - 1] == Lower(name)
    ensures m == 0 ==> Lower(name) !in MonthAbbrevs
  {
    MonthFrom(Lower(name), 0)
  }

  /** One more than the index of `low` in the abbreviations from `k` on; 0 for none. */
  function MonthFrom(low: string, k: nat): (m: nat)
    requires k <= 12
    ensures m == 0 || k < m <= 12
    ensures m > 0 ==> MonthAbbrevs[m - 1] == low
    ensures m == 0 ==> low !in MonthAbbrevs[k..]
    decreases 12 - k
  {
    if k == 12 then 0
    else if MonthAbbrevs[k] == low then k + 1
    else MonthFrom(low, k + 1)
  }

  /** `strptime(g, '%b %d, %Y')` on a capture of the date search: the month name,
      whitespace, a day that `%d` accepts (01 to 31), a comma, whitespace and four
      digits that end the text; `datetime` then rejects a day the month does not
      have and the year 0. */
  function Strptime(g: string): (r: Option<CalendarDate>)
    ensures r.Some? ==> ValidDate(r.value)
  {
    if |g| < 3 then None
    else
      var m := MonthNumber(g[..3]);
      var a := RunEnd(IsSpace, g, 3);
      if m == 0 || a == 3 || a + 3 > |g| || !IsDigit(g[a]) || !IsDigit(g[a + 1]) || g[a + 2] != ',' then None
      else
        var b := RunEnd(IsSpace, g, a + 3);
        if b == a + 3 || b + 4 != |g| || !IsDigits(g[b..]) then None
        else
          assert IsDigits(g[a..a + 2]);
          var d := CalendarDate(Number(g[b..]), m, Number(g[a..a + 2]));
          if 1 <= d.day <= 31 && ValidDate(d) then Some(d) else None
  }

  /** Lines 24-28 of the parser: search the whole text, parse the first token. */
  function FindDate(text: string): (r: DateFound)
    ensures r.IsoDate? ==> exists d :: ValidDate(d) && r.iso == IsoText(d)
    ensures r.NoDate? <==> Search(DateTokenAt, text).None?
  {
    match Search(DateTokenAt, text)
    case None => NoDate
    case Some(g) =>
      match Strptime(g)
      case None => BadDate
      case Some(d) => IsoDate(IsoText(d))
  }

  // ---------------------------------------------------------------------------
  // Round trip.

  lemma NumberOfTwo(s: string)
    requires |s| == 2 && IsDigits(s)
    ensures Number(s) == 10 * DigitValue(s[0]) + DigitValue(s[1])
  {
    assert s[..1][..0] == [];
    assert Number(s[..1]) == DigitValue(s[0]);
  }

  lemma AbbrevsDistinct()
    ensures forall i, j :: 0 <= i < j < 12 ==> MonthAbbrevs[i] != MonthAbbrevs[j]
  {
  }

  lemma {:induction false} MonthFromFinds(low: string, k: nat, j: nat)
    requires k <= j < 12 && MonthAbbrevs[j] == low
    requires forall i :: k <= i < j ==> MonthAbbrevs[i] != low
    ensures MonthFrom(low, k) == j + 1
    decreases j - k
  {
    if k < j {
      MonthFromFinds(low, k + 1, j);
    }
  }

  /** `%b` reads the title-case abbreviation of month `m` as month `m`. */
  lemma MonthNumberOfTitle(m: nat)
    requires 1 <= m <= 12
    ensures MonthNumber(MonthTitles[m - 1]) == m
  {
    var title := MonthTitles[m - 1];
    assert Lower(title) == MonthAbbrevs[m - 1] by {
      assert forall k :: 0 <= k < 3 ==> Lower(title)[k] == LowerChar(title[k]);
    }
    AbbrevsDistinct();
    MonthFromFinds(MonthAbbrevs[m - 1], 0, m - 1);
  }

  lemma TokenTextParts(d: CalendarDate)
    requires ValidDate(d)
    ensures var t := TokenText(d);
      |t| == 12 && t[..3] == MonthTitles[d.month - 1] && t[3] == ' ' && t[4..6] == Pad2(d.day)
      && t[6] == ',' && t[7] == ' ' && t[8..] == Pad4(d.year)
  {
  }

  /** `strptime` reads back every valid date written as the receipt prints it. */
  lemma {:induction false} StrptimeOfToken(d: CalendarDate)
    requires ValidDate(d)
    ensures Strptime(TokenText(d)) == Some(d)
  {
    var t := TokenText(d);
    TokenTextParts(d);
    MonthNumberOfTitle(d.month);
    RunEndUnique(IsSpace, t, 3, 4);
    RunEndUnique(IsSpace, t, 7, 8);
    assert t[4..4 + 2] == Pad2(d.day);
  }

  /** `strptime('%b %d, %Y')` on any token the date search captures: the month is
      the abbreviation read without regard to case, the day the two digits and the
      year the four digits, whatever whitespace separates them; the token is
      refused when the month is unknown or the date does not exist (a day `00`,
      `Feb 29` outside a leap year, the year 0). */
  lemma StrptimeOfSplit(g: string, a: nat, b: nat)
    requires DateTokenSplit(g, a, b)
    ensures IsDigits(g[a..a + 2])
    ensures var m := MonthNumber(g[..3]);
      var d := CalendarDate(Number(g[b..]), m, Number(g[a..a + 2]));
      Strptime(g) == if m > 0 && ValidDate(d) then Some(d) else None
  {
    RunEndUnique(IsSpace, g, 3, a);
    RunEndUnique(IsSpace, g, a + 3, b);
    assert IsDigits(g[a..a + 2]);
  }

  /** The date search finds a date printed the receipt's way, and the parser
      stores it as `YYYY-MM-DD`. */
  lemma {:induction false} FindDateOfToken(d: CalendarDate)
    requires ValidDate(d)
    ensures FindDate(TokenText(d)) == IsoDate(IsoText(d))
  {
    var t := TokenText(d);
    TokenTextParts(d);
    RunEndUnique(IsSpace, t, 3, 4);
    RunEndUnique(IsSpace, t, 7, 8);
    assert t[8..8 + 4] == Pad4(d.year);
    assert DateTokenAt(t, 0) == Some(t[0..12]);
    assert t[0..12] == t;
    StrptimeOfToken(d);
  }

  /** Inside a longer text, the page date is the first token: when the first place
      the date pattern matches holds a date printed the receipt's way, that date is
      the page date. */
  lemma FindDateInText(text: string, i: nat, d: CalendarDate)
    requires ValidDate(d)
    requires OccursAt(TokenText(d), text, i)
    requires forall j :: 0 <= j < i ==> DateTokenAt(text, j).None?
    ensures FindDate(text) == IsoDate(IsoText(d))
  {
    var t := TokenText(d);
    TokenTextParts(d);
    assert DateTokenSplit(t, 4, 8);
    DateTokenAtOfSplit(text, i, t, 4, 8);
    SearchFindsFirst(DateTokenAt, text, i);
    StrptimeOfToken(d);
  }

  /** The page date comes from the first token the date search captures, whatever
      its spacing: its `YYYY-MM-DD` text when `strptime` accepts it, and otherwise
      the failure of the whole search. */
  lemma FindDateOfFirstToken(text: string, i: nat, g: string, a: nat, b: nat)
    requires OccursAt(g, text, i) && DateTokenSplit(g, a, b)
    requires forall j :: 0 <= j < i ==> DateTokenAt(text, j).None?
    ensures IsDigits(g[a..a + 2])
    ensures var m := MonthNumber(g[..3]);
      var d := CalendarDate(Number(g[b..]), m, Number(g[a..a + 2]));
      FindDate(text) == if m > 0 && ValidDate(d) then IsoDate(IsoText(d)) else BadDate
  {
    DateTokenAtOfSplit(text, i, g, a, b);
    SearchFindsFirst(DateTokenAt, text, i);
    StrptimeOfSplit(g, a, b);
  }

  /** A day the month does not have makes the whole date search fail. */
  lemma February30Rejected()
    ensures Strptime("Feb 30, 2024") == None
  {
    var g := "Feb 30, 2024";
    assert Lower(g[..3]) == "feb";
    assert MonthNumber(g[..3]) == 2;
    RunEndUnique(IsSpace, g, 3, 4);
    RunEndUnique(IsSpace, g, 7, 8);
    assert g[4..6] == "30";
    NumberOfTwo(g[4..6]);
    assert g[8..] == "2024";
  }
}
