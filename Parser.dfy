/** `parse_walmart_receipt`: the page text of a Walmart receipt becomes a list of
    records (date, store, item, quantity or weight, price), one at most per line. */
module Parser {
  import opened Wrappers
  import opened Text
  import opened Patterns
  import opened ReceiptDate

  /** What one line contributes before the page's date and the store are attached. */
  datatype LineItem = LineItem(item: string, qtyWgt: string, price: string)

  /** One row of the output table: date, store, item, qty_wgt, price. */
  datatype Record = Record(date: string, store: string, item: string, qtyWgt: string, price: string)

  /** The branch of the line's `if / elif / elif` chain that is taken. */
  datatype Rule = ShoppedRule | FreshRule | TaxRule | NoRule

  /** The page's two ways to fail: `strptime` rejects the date token
      (`ValueError`), or a record is built while `date` was never assigned
      (`UnboundLocalError`). */
  datatype ParseError = InvalidDate | DateUnbound

  const Store: string := "Walmart"

  /** A price as the parser stores it: digits, a dot and two digits, or a run of
      at least two digits (the short form `$\d*\.?\d{2}` allows). */
  predicate IsStoredPrice(p: string) {
    IsStrictPrice(p) || (|p| >= 2 && IsDigits(p))
  }

  // ---------------------------------------------------------------------------
  // clean_price and clean_item_name.

  /** `clean_price`: strip the text and put a `0` before a leading dot. */
  function CleanPrice(s: string): (r: string)
    ensures var t := Strip(s);
      && (r == "0" + t <==> t != [] && t[0] == '.')
      && (r == t <==> !(t != [] && t[0] == '.'))
    ensures r != [] ==> r[0] != '.'
  {
    var t := Strip(s);
    if t != [] && t[0] == '.' then "0" + t else t
  }

  /** Cleaning a price twice changes nothing more. */
  lemma CleanPriceIdempotent(s: string)
    ensures CleanPrice(CleanPrice(s)) == CleanPrice(s)
  {
    var t := Strip(s);
    StripIdempotent(s);
    if t != [] && t[0] == '.' {
      StripUnchanged("0" + t);
    }
  }

  /** A capture of `\d*\.?\d{2}` starts with a dot or a digit and ends with a digit. */
  lemma LoosePriceEnds(p: string)
    requires IsLoosePrice(p)
    ensures p[0] == '.' || IsDigit(p[0])
    ensures IsDigit(p[|p| - 1])
    ensures p[0] == '.' ==> |p| == 3 && IsDigit(p[1]) && IsDigit(p[2])
  {
    if !IsDigits(p) && |p| > 3 {
      assert p[..|p| - 3][0] == p[0];
    }
    assert p[|p| - 2..][1] == p[|p| - 1];
    if p[0] == '.' {
      assert p[|p| - 2..][0] == p[|p| - 2];
    }
  }

  /** A captured price needs no stripping; only a leading dot changes it. */
  lemma CleanPriceOfCapture(p: string)
    requires IsLoosePrice(p)
    ensures p[0] == '.' ==> CleanPrice(p) == "0" + p
    ensures p[0] != '.' ==> CleanPrice(p) == p
    ensures IsStoredPrice(CleanPrice(p))
  {
    LoosePriceEnds(p);
    StripUnchanged(p);
    if p[0] == '.' {
      var r := "0" + p;
      assert r[..|r| - 3] == "0" && r[|r| - 2..] == p[1..];
      assert IsStrictPrice(r);
    } else if !IsDigits(p) {
      assert IsStrictPrice(p);
    }
  }

  /** `clean_item_name`: `' '.join(s.split())`. The result is in normal form and
      keeps the words of its input. */
  function CleanItemName(s: string): (r: string)
    ensures IsNormalized(r)
    ensures Words(r) == Words(s)
  {
    JoinNormalized(Words(s));
    WordsOfJoin(Words(s));
    JoinSpaced(Words(s))
  }

  lemma CleanItemNameIdempotent(s: string)
    ensures CleanItemName(CleanItemName(s)) == CleanItemName(s)
  {
  }

  // ---------------------------------------------------------------------------
  // One line.

  /** The conditions of the chain, tried in order. */
  function RuleOf(line: string): Rule {
    if Contains(line, "Shopped") then ShoppedRule
    else if Contains(line, "Fresh") && Contains(line, "lb") then FreshRule
    else if Contains(line, "Tax") && !Contains(line, "Subtotal") then TaxRule
    else NoRule
  }

  /** `clean_item_name(line.split('Shopped')[0].strip())`: the text before the
      first `Shopped`. */
  function ShoppedItemName(line: string): string
    requires Contains(line, "Shopped")
  {
    CleanItemName(Strip(line[..IndexOf(line, "Shopped").value]))
  }

  /** The quantity if `Shopped Qty <digits>` is present, else `<decimal> lb` from
      `Shopped Wt <decimal>`, else empty. */
  function ShoppedQtyWgt(line: string): string {
    match Search(QtyAt, line)
    case Some(q) => q
    case None =>
      match Search(WtAt, line)
      case Some(w) => w + " lb"
      case None => ""
  }

  /** The "Shopped" rule: the item is the text before the first `Shopped`; a line
      without a `$<digits>.<2 digits>` price yields nothing. */
  function ShoppedRecord(line: string): Option<LineItem>
    requires Contains(line, "Shopped")
  {
    match Search(StrictPriceAt, line)
    case None => None
    case Some(p) => Some(LineItem(ShoppedItemName(line), ShoppedQtyWgt(line), CleanPrice(p)))
  }

  /** The "Fresh" + "lb" rule: name, weight and price must all be found. */
  function FreshRecord(line: string): Option<LineItem> {
    match (Search(FreshNameAt, line), Search(LbWeightAt, line), Search(LoosePriceAt, line))
    case (Some(n), Some(w), Some(p)) => Some(LineItem(CleanItemName("Fresh " + n), w + " lb", CleanPrice(p)))
    case _ => None
  }

  /** The tax rule: item `Tax`, no quantity, the first `$<digits>.<2 digits>` price. */
  function TaxRecord(line: string): Option<LineItem> {
    match Search(StrictPriceAt, line)
    case None => None
    case Some(p) => Some(LineItem("Tax", "", CleanPrice(p)))
  }

  /** The record one line yields: blank lines are skipped, then the first rule
      whose condition holds decides, and no other rule is tried. */
  function ClassifyLine(line: string): Option<LineItem> {
    if IsBlank(line) then None
    else
      match RuleOf(line)
      case ShoppedRule => ShoppedRecord(line)
      case FreshRule => FreshRecord(line)
      case TaxRule => TaxRecord(line)
      case NoRule => None
  }

  /** A blank line yields nothing; a line yields a record only under one of the
      three rules, and its price is a stored price (never starting with a dot). */
  lemma ClassifyLineShape(line: string)
    ensures IsBlank(line) ==> ClassifyLine(line).None?
    ensures ClassifyLine(line).Some? ==> RuleOf(line) != NoRule
    ensures ClassifyLine(line).Some? ==> IsStoredPrice(ClassifyLine(line).value.price)
  {
    var r := ClassifyLine(line);
    if r.Some? {
      if RuleOf(line) == FreshRule {
        CleanPriceOfCapture(Search(LoosePriceAt, line).value);
      } else {
        CleanPriceOfCapture(Search(StrictPriceAt, line).value);
      }
    }
  }

  /** A `$<digits>.<2 digits>` capture is already clean. */
  lemma CleanPriceOfStrict(p: string)
    requires IsStrictPrice(p)
    ensures CleanPrice(p) == p
  {
    assert p[..|p| - 3][0] == p[0];
    assert p[|p| - 2..][1] == p[|p| - 1];
    StripUnchanged(p);
  }

  /** A line holding a word that starts with a non-space character is not blank. */
  lemma ContainsNotBlank(line: string, pat: string)
    requires pat != [] && !IsSpace(pat[0]) && Contains(line, pat)
    ensures !IsBlank(line)
  {
    var i := IndexOf(line, pat).value;
    assert line[i..i + |pat|][0] == line[i];
  }

  /** The quantity column of a Shopped line: the digits of the first
      `Shopped Qty <digits>`; failing that, the decimal of the first
      `Shopped Wt <decimal>` followed by ` lb`; failing both, empty. */
  lemma ShoppedQtyWgtShape(line: string)
    ensures var q := ShoppedQtyWgt(line);
      (exists i :: 0 <= i <= |line| && QtyAt(line, i).Some?) ==>
        |q| > 0 && IsDigits(q) && Contains(line, "Shopped Qty " + q)
        && exists i :: 0 <= i <= |line| && QtyAt(line, i) == Some(q) && forall j :: 0 <= j < i ==> QtyAt(line, j).None?
    ensures var q := ShoppedQtyWgt(line);
      (forall i :: 0 <= i <= |line| ==> QtyAt(line, i).None?) &&
      (exists i :: 0 <= i <= |line| && WtAt(line, i).Some?) ==>
        |q| > 3 && q[|q| - 3..] == " lb" && IsDecimal(q[..|q| - 3])
        && Contains(line, "Shopped Wt " + q[..|q| - 3])
        && exists i :: 0 <= i <= |line| && WtAt(line, i) == Some(q[..|q| - 3])
                       && forall j :: 0 <= j < i ==> WtAt(line, j).None?
    ensures (forall i :: 0 <= i <= |line| ==> QtyAt(line, i).None? && WtAt(line, i).None?) ==>
      ShoppedQtyWgt(line) == ""
  {
    SearchSomewhere(QtyAt, line);
    SearchSomewhere(WtAt, line);
    var q := ShoppedQtyWgt(line);
    var qty := FirstMatchFrom(QtyAt, line, 0);
    if qty.Some? {
      ContainsOfOccurs(line, "Shopped Qty " + q, qty.value);
    } else {
      var wt := FirstMatchFrom(WtAt, line, 0);
      if wt.Some? {
        var w := Search(WtAt, line).value;
        assert q[..|q| - 3] == w;
        ContainsOfOccurs(line, "Shopped Wt " + w, wt.value);
      }
    }
  }

  /** `Shopped Qty N`: when the first `Shopped Qty ` of a line is followed by the
      digits N (and no further digit), the quantity column is exactly N. */
  lemma ShoppedQtyOf(line: string, i: nat, n: string)
    requires OccursAt("Shopped Qty " + n, line, i) && |n| > 0 && IsDigits(n)
    requires i + 12 + |n| == |line| || !IsDigit(line[i + 12 + |n|])
    requires forall j :: 0 <= j < i ==> !OccursAt("Shopped Qty ", line, j)
    ensures ShoppedQtyWgt(line) == n
  {
    QtyAtIff(line, i, n);
    SearchFindsFirst(QtyAt, line, i);
  }

  /** A line containing `Shopped` is decided by the Shopped rule alone, whatever
      else it contains: it yields a record exactly when a `$<digits>.<2 digits>`
      price occurs in it; the item is the cleaned text before the first `Shopped`
      and the price is the first `$<digits>.<2 digits>` of the line, unchanged. */
  lemma ShoppedLine(line: string)
    requires Contains(line, "Shopped")
    ensures ClassifyLine(line) == ShoppedRecord(line)
    ensures ClassifyLine(line).Some? <==> exists i :: 0 <= i <= |line| && StrictPriceAt(line, i).Some?
    ensures ClassifyLine(line).Some? ==>
      var x := ClassifyLine(line).value;
      && x.item == CleanItemName(Strip(line[..IndexOf(line, "Shopped").value]))
      && IsNormalized(x.item)
      && x.qtyWgt == ShoppedQtyWgt(line)
      && IsStrictPrice(x.price)
      && exists i :: 0 <= i <= |line| && StrictPriceAt(line, i) == Some(x.price)
                     && forall j :: 0 <= j < i ==> StrictPriceAt(line, j).None?
  {
    ContainsNotBlank(line, "Shopped");
    SearchSomewhere(StrictPriceAt, line);
    var p := Search(StrictPriceAt, line);
    if p.Some? {
      CleanPriceOfStrict(p.value);
      var i := FirstMatchFrom(StrictPriceAt, line, 0).value;
      assert StrictPriceAt(line, i) == p;
    }
  }

  /** The item of a Fresh record starts with the word `Fresh`; it is followed by a
      space exactly when the captured name is not all whitespace. */
  lemma FreshItemName(n: string)
    ensures var r := CleanItemName("Fresh " + n); |r| >= 5 && r[..5] == "Fresh"
    ensures var r := CleanItemName("Fresh " + n); IsBlank(n) <==> r == "Fresh"
    ensures var r := CleanItemName("Fresh " + n); !IsBlank(n) ==> |r| > 6 && r[..6] == "Fresh "
  {
    assert "Fresh" + (" " + n) == "Fresh " + n;
    WordsOfWordThen("Fresh", " " + n);
    var ws := Words("Fresh " + n);
    assert Words(" " + n) == Words(n) by { assert (" " + n)[1..] == n; }
    JoinStartsWith(ws);
    if IsBlank(n) {
      WordsOfBlank(n);
    } else {
      WordsOfNonBlank(n);
      assert ws == ["Fresh"] + Words(n);
      assert JoinSpaced(ws) == "Fresh" + " " + JoinSpaced(Words(n));
      JoinStartsWith(Words(n));
    }
  }

  /** The weight column of a Fresh record: a decimal followed by ` lb`. */
  lemma FreshWeight(w: string)
    requires IsDecimal(w)
    ensures var q := w + " lb"; |q| > 3 && q[|q| - 3..] == " lb" && q[..|q| - 3] == w
  {
  }

  /** A line with `Fresh` and `lb` and no `Shopped` yields a record exactly when
      the name, the weight and a price are all found. */
  lemma FreshLine(line: string)
    requires RuleOf(line) == FreshRule
    ensures ClassifyLine(line) == FreshRecord(line)
    ensures ClassifyLine(line).Some? <==>
      && (exists i :: 0 <= i <= |line| && FreshNameAt(line, i).Some?)
      && (exists i :: 0 <= i <= |line| && LbWeightAt(line, i).Some?)
      && (exists i :: 0 <= i <= |line| && LoosePriceAt(line, i).Some?)
  {
    ContainsNotBlank(line, "Fresh");
    SearchSomewhere(FreshNameAt, line);
    SearchSomewhere(LbWeightAt, line);
    SearchSomewhere(LoosePriceAt, line);
  }

  /** A Fresh record's item starts with `Fresh` and is in normal form, its weight
      is a decimal followed by ` lb`, and its price never starts with a dot. */
  lemma FreshRecordFields(line: string)
    ensures FreshRecord(line).Some? ==>
      var x := FreshRecord(line).value;
      && |x.item| >= 5 && x.item[..5] == "Fresh" && IsNormalized(x.item)
      && |x.qtyWgt| > 3 && x.qtyWgt[|x.qtyWgt| - 3..] == " lb" && IsDecimal(x.qtyWgt[..|x.qtyWgt| - 3])
      && IsStoredPrice(x.price) && x.price[0] != '.'
  {
    if FreshRecord(line).Some? {
      FreshItemName(Search(FreshNameAt, line).value);
      FreshWeight(Search(LbWeightAt, line).value);
      CleanPriceOfCapture(Search(LoosePriceAt, line).value);
    }
  }

  /** A tax line (with `Tax`, without `Subtotal`, `Shopped`, or `Fresh` and `lb`)
      yields the record `Tax` with no quantity exactly when a
      `$<digits>.<2 digits>` price occurs in it; the price is the first one. */
  lemma TaxLine(line: string)
    requires RuleOf(line) == TaxRule
    ensures ClassifyLine(line).Some? <==> exists i :: 0 <= i <= |line| && StrictPriceAt(line, i).Some?
    ensures ClassifyLine(line).Some? ==>
      var x := ClassifyLine(line).value;
      && x.item == "Tax" && x.qtyWgt == "" && IsStrictPrice(x.price)
      && exists i :: 0 <= i <= |line| && StrictPriceAt(line, i) == Some(x.price)
                     && forall j :: 0 <= j < i ==> StrictPriceAt(line, j).None?
  {
    ContainsNotBlank(line, "Tax");
    SearchSomewhere(StrictPriceAt, line);
    var p := Search(StrictPriceAt, line);
    if p.Some? {
      CleanPriceOfStrict(p.value);
      var i := FirstMatchFrom(StrictPriceAt, line, 0).value;
      assert StrictPriceAt(line, i) == p;
    }
  }

  /** A `Subtotal` line is never a tax record: unless the Shopped or the Fresh
      rule takes it, it yields nothing. */
  lemma SubtotalLine(line: string)
    requires Contains(line, "Subtotal")
    requires !Contains(line, "Shopped") && !(Contains(line, "Fresh") && Contains(line, "lb"))
    ensures ClassifyLine(line).None?
  {
  }

  // ---------------------------------------------------------------------------
  // The page.

  function OptionToSeq(o: Option<LineItem>): seq<LineItem> {
    if o.Some? then [o.value] else []
  }

  /** The records of the lines, line by line, in source order. */
  function LineItems(lines: seq<string>): (items: seq<LineItem>)
    ensures |items| <= |lines|
    decreases |lines|
  {
    if lines == [] then [] else OptionToSeq(ClassifyLine(lines[0])) + LineItems(lines[1..])
  }

  /** The dict the loop appends for a line's record. */
  function Attach(date: string, x: LineItem): Record {
    Record(date, Store, x.item, x.qtyWgt, x.price)
  }

  /** Attach the page's date and the store to each line's record, in order. */
  function Stamp(date: string, items: seq<LineItem>): seq<Record>
    decreases |items|
  {
    if items == [] then [] else [Attach(date, items[0])] + Stamp(date, items[1..])
  }

  /** `text.split('\n')`. */
  function Lines(text: string): seq<string> {
    SplitOn(text, '\n')
  }

  /** The records of the lines when `date` holds the page date, or is unbound:
      then the first record fails the page. */
  function PageRecords(date: Option<string>, lines: seq<string>): Result<seq<Record>, ParseError> {
    match date
    case None => if LineItems(lines) == [] then Ok([]) else Err(DateUnbound)
    case Some(d) => Ok(Stamp(d, LineItems(lines)))
  }

  /** The page, specified: the date first (a bad token fails the page), then the
      records of the lines. */
  function ParsePage(text: string): Result<seq<Record>, ParseError> {
    match FindDate(text)
    case BadDate => Err(InvalidDate)
    case NoDate => PageRecords(None, Lines(text))
    case IsoDate(d) => PageRecords(Some(d), Lines(text))
  }

  /** The records of two runs of lines are those of the first, then those of the second. */
  lemma {:induction false} LineItemsAppend(a: seq<string>, b: seq<string>)
    ensures LineItems(a + b) == LineItems(a) + LineItems(b)
    decreases |a|
  {
    if a == [] {
      assert a + b == b;
    } else {
      assert (a + b)[0] == a[0] && (a + b)[1..] == a[1..] + b;
      LineItemsAppend(a[1..], b);
      var head := OptionToSeq(ClassifyLine(a[0]));
      calc {
        LineItems(a + b);
        head + LineItems(a[1..] + b);
        head + (LineItems(a[1..]) + LineItems(b));
        (head + LineItems(a[1..])) + LineItems(b);
        LineItems(a) + LineItems(b);
      }
    }
  }

  lemma LineItemsSnoc(lines: seq<string>, i: nat)
    requires i < |lines|
    ensures LineItems(lines[..i + 1]) == LineItems(lines[..i]) + OptionToSeq(ClassifyLine(lines[i]))
  {
    assert lines[..i + 1] == lines[..i] + [lines[i]];
    LineItemsAppend(lines[..i], [lines[i]]);
    var none: seq<string> := [];
    assert [lines[i]][1..] == none;
  }

  /** A record from a prefix of the lines is a record of the page. */
  lemma LineItemsNonEmpty(lines: seq<string>, n: nat)
    requires n <= |lines|
    ensures LineItems(lines[..n]) != [] ==> LineItems(lines) != []
  {
    assert lines == lines[..n] + lines[n..];
    LineItemsAppend(lines[..n], lines[n..]);
  }

  lemma {:induction false} StampSnoc(date: string, items: seq<LineItem>, x: LineItem)
    ensures Stamp(date, items + [x]) == Stamp(date, items) + [Attach(date, x)]
    decreases |items|
  {
    if items == [] {
      assert [x][1..] == [];
    } else {
      assert (items + [x])[1..] == items[1..] + [x];
      StampSnoc(date, items[1..], x);
    }
  }

  /** Every record of a page carries the page's date and the store `Walmart`, and
      keeps its line's item, quantity and price. */
  lemma {:induction false} StampFields(date: string, items: seq<LineItem>)
    ensures |Stamp(date, items)| == |items|
    ensures forall k :: 0 <= k < |items| ==> Stamp(date, items)[k] == Attach(date, items[k])
    decreases |items|
  {
    if items != [] {
      StampFields(date, items[1..]);
    }
  }

  /** The lines yield no record at all exactly when no single line yields one. */
  lemma {:induction false} LineItemsNoneIff(lines: seq<string>)
    ensures LineItems(lines) == [] <==> forall k :: 0 <= k < |lines| ==> ClassifyLine(lines[k]).None?
    decreases |lines|
  {
    if lines != [] {
      LineItemsNoneIff(lines[1..]);
      assert LineItems(lines) == OptionToSeq(ClassifyLine(lines[0])) + LineItems(lines[1..]);
      forall k | 1 <= k < |lines|
        ensures lines[k] == lines[1..][k - 1]
      {
      }
    }
  }

  /** Every record of the lines is the record of one of the lines, so its price is
      a stored price. */
  lemma {:induction false} LineItemsFromLines(lines: seq<string>)
    ensures forall k :: 0 <= k < |LineItems(lines)| ==>
      exists j :: 0 <= j < |lines| && ClassifyLine(lines[j]) == Some(LineItems(lines)[k])
    ensures forall k :: 0 <= k < |LineItems(lines)| ==> IsStoredPrice(LineItems(lines)[k].price)
    decreases |lines|
  {
    if lines != [] {
      LineItemsFromLines(lines[1..]);
      var head := OptionToSeq(ClassifyLine(lines[0]));
      var items := LineItems(lines);
      assert items == head + LineItems(lines[1..]);
      forall k | 0 <= k < |items|
        ensures exists j :: 0 <= j < |lines| && ClassifyLine(lines[j]) == Some(items[k])
      {
        if k < |head| {
          assert ClassifyLine(lines[0]) == Some(items[k]);
        } else {
          assert items[k] == LineItems(lines[1..])[k - |head|];
          var j :| 0 <= j < |lines[1..]| && ClassifyLine(lines[1..][j]) == Some(items[k]);
          assert lines[1..][j] == lines[j + 1];
        }
      }
      forall k | 0 <= k < |items|
        ensures IsStoredPrice(items[k].price)
      {
        var j :| 0 <= j < |lines| && ClassifyLine(lines[j]) == Some(items[k]);
        ClassifyLineShape(lines[j]);
      }
    } else {
      assert LineItems(lines) == [];
    }
  }

  /** The records of a page's lines, once a date is bound: at most one per line,
      each with the date, the store `Walmart` and a stored price. */
  lemma PageRecordsFields(date: string, lines: seq<string>)
    ensures var rs := PageRecords(Some(date), lines).value;
      && |rs| <= |lines|
      && forall k :: 0 <= k < |rs| ==> rs[k].date == date && rs[k].store == Store && IsStoredPrice(rs[k].price)
  {
    var items := LineItems(lines);
    LineItemsFromLines(lines);
    StampFields(date, items);
  }

  /** Without a date token, a page parses to no records when none of its lines
      yields one, and fails as soon as one does. */
  lemma PageWithoutDate(lines: seq<string>)
    ensures PageRecords(None, lines) == Ok([]) <==> forall k :: 0 <= k < |lines| ==> ClassifyLine(lines[k]).None?
    ensures PageRecords(None, lines) == Err(DateUnbound) <==> exists k :: 0 <= k < |lines| && ClassifyLine(lines[k]).Some?
  {
    LineItemsNoneIff(lines);
  }

  /** What a parsed page holds: a bad date token fails the page, and so does a
      record on a page without a date token, and nothing else does; otherwise every record carries the
      store `Walmart` and a stored price, there is at most one per line, and all
      share the ISO date of one valid calendar date. */
  lemma ParsePageOutcome(text: string)
    ensures ParsePage(text) == Err(InvalidDate) <==> FindDate(text) == BadDate
    ensures ParsePage(text) == Err(DateUnbound) <==>
      FindDate(text) == NoDate && exists k :: 0 <= k < |Lines(text)| && ClassifyLine(Lines(text)[k]).Some?
    ensures ParsePage(text).Ok? ==>
      var rs := ParsePage(text).value;
      && |rs| <= |Lines(text)|
      && (forall k :: 0 <= k < |rs| ==> rs[k].store == Store && IsStoredPrice(rs[k].price))
      && (rs != [] ==> exists c :: ValidDate(c) && forall k :: 0 <= k < |rs| ==> rs[k].date == IsoText(c))
      && (FindDate(text).IsoDate? ==> forall k :: 0 <= k < |rs| ==> rs[k].date == FindDate(text).iso)
  {
    match FindDate(text)
    case BadDate =>
    case NoDate =>
      PageWithoutDate(Lines(text));
    case IsoDate(d) =>
      PageRecordsFields(d, Lines(text));
      var c :| ValidDate(c) && d == IsoText(c);
  }

  /** Every record of a page carries the date of the page's first date token,
      written as `YYYY-MM-DD`. */
  lemma PageDateFromToken(text: string, i: nat, d: CalendarDate)
    requires ValidDate(d)
    requires OccursAt(TokenText(d), text, i)
    requires forall j :: 0 <= j < i ==> DateTokenAt(text, j).None?
    ensures ParsePage(text).Ok?
    ensures forall k :: 0 <= k < |ParsePage(text).value| ==> ParsePage(text).value[k].date == IsoText(d)
  {
    FindDateInText(text, i, d);
    ParsePageOutcome(text);
  }

  /** The body of the line loop: the chain of `if / elif / elif` with its per-line
      variables, yielding the record the line contributes, if any. */
  method LineRecord(line: string) returns (emitted: Option<LineItem>)
    requires !IsBlank(line)
    ensures emitted == ClassifyLine(line)
  {
    emitted := None;
    if Contains(line, "Shopped") {
      var itemName := CleanItemName(Strip(line[..IndexOf(line, "Shopped").value]));
      var qtyWgt := "";
      var qtyMatch := Search(QtyAt, line);
      var wgtMatch := Search(WtAt, line);
      if qtyMatch.Some? {
        qtyWgt := qtyMatch.value;
      } else if wgtMatch.Some? {
        qtyWgt := wgtMatch.value + " lb";
      }
      var priceMatch := Search(StrictPriceAt, line);
      if priceMatch.Some? {
        emitted := Some(LineItem(itemName, qtyWgt, CleanPrice(priceMatch.value)));
      }
      assert emitted == ShoppedRecord(line);
    } else if Contains(line, "Fresh") && Contains(line, "lb") {
      var itemMatch := Search(FreshNameAt, line);
      var wgtMatch := Search(LbWeightAt, line);
      var priceMatch := Search(LoosePriceAt, line);
      if itemMatch.Some? && wgtMatch.Some? && priceMatch.Some? {
        emitted := Some(LineItem(CleanItemName("Fresh " + itemMatch.value), wgtMatch.value + " lb",
                                 CleanPrice(priceMatch.value)));
      }
      assert emitted == FreshRecord(line);
    } else if Contains(line, "Tax") && !Contains(line, "Subtotal") {
      var taxMatch := Search(StrictPriceAt, line);
      if taxMatch.Some? {
        emitted := Some(LineItem("Tax", "", CleanPrice(taxMatch.value)));
      }
      assert emitted == TaxRecord(line);
    }
  }

  /** The line loop of `parse_walmart_receipt`: each line's record is appended in
      place, in order; building a record while `date` is unbound fails. */
  method ParseLines(lines: seq<string>, date: Option<string>) returns (r: Result<seq<Record>, ParseError>)
    ensures r == PageRecords(date, lines)
  {
    var items: seq<Record> := [];
    for i := 0 to |lines|
      invariant date.Some? ==> items == Stamp(date.value, LineItems(lines[..i]))
      invariant date.None? ==> items == [] && LineItems(lines[..i]) == []
    {
      var line := lines[i];
      LineItemsSnoc(lines, i);
      if IsBlank(line) {
        assert ClassifyLine(line) == None;
        assert LineItems(lines[..i + 1]) == LineItems(lines[..i]);
        continue;
      }
      var emitted := LineRecord(line);
      if emitted.None? {
        assert LineItems(lines[..i + 1]) == LineItems(lines[..i]);
      } else {
        var item := emitted.value;
        assert LineItems(lines[..i + 1]) == LineItems(lines[..i]) + [item];
        if date.None? {
          LineItemsNonEmpty(lines, i + 1);
          return Err(DateUnbound);
        }
        StampSnoc(date.value, LineItems(lines[..i]), item);
        items := items + [Attach(date.value, item)];
      }
    }
    assert lines[..|lines|] == lines;
    return Ok(items);
  }

  /** The whole parse of one page of text: find the page date (a token that
      `strptime` refuses fails the page), then run the line loop. */
  method ParseWalmartReceipt(text: string) returns (r: Result<seq<Record>, ParseError>)
    ensures r == ParsePage(text)
  {
    var found := FindDate(text);
    if found.BadDate? {
      return Err(InvalidDate);
    }
    var date: Option<string> := None;
    if found.IsoDate? {
      date := Some(found.iso);
    }
    r := ParseLines(Lines(text), date);
  }
}
