# receipt_parser in Dafny

A model of the core of `receipt_parser`, and proofs about it. The package has two parts:

- **The Walmart receipt parser.** It takes the text of a receipt page. It finds the receipt date and turns it into `YYYY-MM-DD`. It then walks the page line by line and emits at most one record per line: date, store, item, quantity or weight, price. Three rules are tried in order: a "Shopped" item line, a "Fresh … lb" produce line, and a tax line.
- **The item categoriser.** It holds a map from lowercased item names to a (category, sub-category) pair, filled from the rows of a categories file. It categorises an item by an exact lookup first, then by the first of a fixed list of keywords that occurs in the lowercased name, and otherwise as `Uncategorized`. It can categorise every row of a receipt table.

Files:

- `Wrappers.dfy`: the `Option` and `Result` types.
- `Text.dfy`: the Python string operations the core uses, over ASCII. These are `str.lower`, `in`, `strip`, `split()` with `' '.join`, and `split('\n')`.
- `Patterns.dfy`: each regular expression of the parser, written out as a scanner for that one pattern. It also has the leftmost search `re.search` performs.
- `ReceiptDate.dfy`: the date search, `strptime('%b %d, %Y')` and `strftime('%Y-%m-%d')`.
- `Parser.dfy`: `clean_price` and `clean_item_name`. It specifies each line's record as a function and the page as a function of its lines. The line loop is an imperative method proved equal to that specification.
- `Categorizer.dfy`: the class `ReceiptCategorizer`, with its map as a field, its loading and per-row loops as methods, and the lookup specified as a function.

The regex scanners follow Python's backtracking matcher for each pattern. For `\$(\d*\.?\d{2})` after a `$` with a digit run of length n:

- if a dot and two digits follow the run, the capture is the run, the dot and the two digits;
- otherwise, if n is at least 2, the capture is the whole run;
- otherwise there is no match at that `$`.

The other patterns only ever succeed with maximal runs.

Two details of the code's behaviour that are easy to misread:

- **The Fresh item name.** The item is `clean_item_name("Fresh " + capture)`. A capture that is all whitespace (as in `Fresh  , 1.25 lb $0.75`) therefore gives the item `"Fresh"` with no space after it. `Parser.FreshItemName` states both cases.
- **Quantity.** The quantity is the captured digit string, leading zeros included, not a number.
- **The Shopped price.** The comment at receipt_parser/parser.py:55 speaks of the last number in the line, but `re.search` takes the first `$<digits>.<2 digits>`. The model follows the code: `Parser.ShoppedLine` states that the price is the leftmost one.

## Model

| member | source | states |
|---|---|---|
| Text.Lower | receipt_parser/categorizer.py:28 | `str.lower()` over ASCII: same length, each letter A-Z lowered, everything else kept |
| Text.LowerIgnoresCase | receipt_parser/categorizer.py:44 | strings that agree character by character once lowercased lowercase to the same string |
| Text.IndexFrom | receipt_parser/parser.py:40-42 | the substring search finds the leftmost occurrence from a position, or reports that there is none |
| Text.ContainsOfOccurs | receipt_parser/parser.py:40 | `pat in s` holds whenever `pat` occurs at some position of `s` |
| Text.Strip | receipt_parser/parser.py:36 | `strip()` is empty exactly for all-whitespace text and otherwise neither starts nor ends with whitespace |
| Text.StripKeepsMiddle | receipt_parser/parser.py:9 | `strip()` removes only whitespace, and only at the two ends |
| Text.StripUnchanged | receipt_parser/parser.py:9 | text with no whitespace at either end is left unchanged by `strip()` |
| Text.StripIdempotent | receipt_parser/parser.py:9 | stripping twice is stripping once |
| Text.Words | receipt_parser/parser.py:15 | every piece of `split()` is a non-empty run without whitespace |
| Text.WordsOfWordThen | receipt_parser/parser.py:15 | a word followed by whitespace or nothing splits off as the first piece |
| Text.WordsOfSpacesThen | receipt_parser/parser.py:15 | whitespace in front of the text, one character or a run of any length, adds no piece to `split()` |
| Text.WordsOfBlank | receipt_parser/parser.py:15 | all-whitespace text splits into no pieces |
| Text.WordsOfNonBlank | receipt_parser/parser.py:15 | text with a non-space character splits into at least one piece |
| Text.WordsOfJoin | receipt_parser/parser.py:15 | `' '.join` followed by `split()` gives the words back |
| Text.JoinNormalized | receipt_parser/parser.py:15 | joined words have no whitespace at either end, and each space stands alone between two word characters |
| Text.JoinStartsWith | receipt_parser/parser.py:15 | joined words start with the first word |
| Text.SplitOn | receipt_parser/parser.py:31 | `text.split('\n')` always gives at least one piece, even for empty text |
| Text.SplitOnJoin | receipt_parser/parser.py:31 | `text.split('\n')` loses nothing: joining the pieces gives the text back, and no piece holds a newline |
| Patterns.FirstMatchFrom | receipt_parser/parser.py:47-48 | the search finds the leftmost position where the pattern matches, or none at all |
| Patterns.Search | receipt_parser/parser.py:47-48 | `re.search(...).group(1)` returns the capture at a position where the pattern matches and no earlier position matches, and nothing only when the pattern matches nowhere |
| Patterns.SearchSomewhere | receipt_parser/parser.py:56-57 | `re.search` succeeds exactly when the pattern matches somewhere, and returns the capture of a match |
| Patterns.SearchFindsFirst | receipt_parser/parser.py:47 | a match with no match before it is the one `re.search` reports |
| Patterns.StrictPriceAt | receipt_parser/parser.py:56 | a match of `\$(\d+\.\d{2})` captures digits, a dot and two digits written right after a `$` |
| Patterns.StrictPriceAtIff | receipt_parser/parser.py:56 | that pattern matches at `i` with capture `g` exactly when a `$` stands at `i` and a strict price `g` follows it |
| Patterns.LoosePriceAt | receipt_parser/parser.py:72 | a match of `\$(\d*\.?\d{2})` captures an optional digit run, a dot and two digits, or at least two digits, right after a `$` |
| Patterns.LoosePriceAtIff | receipt_parser/parser.py:72 | that pattern matches at `i` with capture `g` exactly when a `$` stands at `i` and `g` follows it, where `g` is digits, a dot and two digits, or else a whole digit run of at least two not followed by a dot and two digits |
| Patterns.LoosePricePrefersDot | receipt_parser/parser.py:72 | after a `$`, a digit run followed by a dot and two digits is the capture |
| Patterns.QtyAt | receipt_parser/parser.py:47 | a match of `Shopped Qty (\d+)` captures the non-empty digits written after the literal |
| Patterns.QtyAtIff | receipt_parser/parser.py:47 | that pattern matches at `i` with capture `g` exactly when the literal and then the maximal digit run `g` stand at `i` |
| Patterns.WtAt | receipt_parser/parser.py:48 | a match of `Shopped Wt (\d+\.\d+)` captures a decimal written after the literal |
| Patterns.WtAtIff | receipt_parser/parser.py:48 | that pattern matches at `i` with capture `g` exactly when `Shopped Wt ` and then the decimal `g` stand at `i` and no digit follows |
| Patterns.LbWeightAt | receipt_parser/parser.py:71 | a match of `(\d+\.\d+)\s*lb` captures a decimal written at the match position |
| Patterns.LbWeightAtIff | receipt_parser/parser.py:71 | that pattern matches at `i` with capture `g` exactly when the decimal `g` stands at `i`, no digit follows it, and then come whitespace (or none) and `lb` |
| Patterns.FreshNameAt | receipt_parser/parser.py:70 | a match of `Fresh ([^,]+)` captures non-empty, comma-free text written after `Fresh ` |
| Patterns.FreshNameAtIff | receipt_parser/parser.py:70 | that pattern matches at `i` with capture `g` exactly when `Fresh ` and then `g` stand at `i` and `g` runs to a comma or the end |
| ReceiptDate.DateTokenAt | receipt_parser/parser.py:24 | a date-token match starts with an upper-case letter, ends in four digits and is text of the page |
| ReceiptDate.DateTokenAtIff | receipt_parser/parser.py:24 | the date pattern matches at `i` with capture `g` exactly when `g` stands at `i` and reads as a capital and two small letters, whitespace, two digits and a comma, whitespace and four digits |
| ReceiptDate.MonthNumber | receipt_parser/parser.py:27 | `%b` gives month m exactly when the lowercased name is the m-th English abbreviation, and no month otherwise |
| ReceiptDate.IsoText | receipt_parser/parser.py:28 | `strftime('%Y-%m-%d')` writes four year digits, a dash, two month digits, a dash and two day digits that read back as the date |
| ReceiptDate.Strptime | receipt_parser/parser.py:27 | every date `strptime` accepts exists in the Gregorian calendar (year at least 1, month 1-12, a day the month has) |
| ReceiptDate.FindDate | receipt_parser/parser.py:24-28 | a stored date is the ISO text of a valid calendar date, and no date is found exactly when the token search fails |
| ReceiptDate.StrptimeOfToken | receipt_parser/parser.py:27 | `strptime` reads back every valid date printed as `Mon DD, YYYY` |
| ReceiptDate.StrptimeOfSplit | receipt_parser/parser.py:27 | on any token the date search captures, whatever whitespace it holds, `strptime` returns the date of the case-insensitive month abbreviation, the two day digits and the four year digits, and refuses the token exactly when the month is unknown or that date does not exist |
| ReceiptDate.FindDateOfToken | receipt_parser/parser.py:24-28 | a text that is exactly one date printed as `Mon DD, YYYY` has that date as page date, stored as its `YYYY-MM-DD` text |
| ReceiptDate.FindDateInText | receipt_parser/parser.py:24-28 | in any text, when the leftmost place the date pattern matches holds a valid date printed as `Mon DD, YYYY`, the page date is that date's `YYYY-MM-DD` text |
| ReceiptDate.FindDateOfFirstToken | receipt_parser/parser.py:24-28 | the page date comes from the first token the date search captures: its `YYYY-MM-DD` text when `strptime` accepts it, and otherwise the failure of the whole search |
| ReceiptDate.February30Rejected | receipt_parser/parser.py:27 | a day the month does not have (`Feb 30, 2024`) is rejected |
| Parser.CleanPrice | receipt_parser/parser.py:8-12 | the result is the stripped input with one `0` put in front exactly when it starts with a dot, so it never starts with a dot |
| Parser.CleanPriceIdempotent | receipt_parser/parser.py:8-12 | cleaning a price twice is cleaning it once |
| Parser.CleanPriceOfCapture | receipt_parser/parser.py:72-80 | a `\d*\.?\d{2}` capture is only changed when it starts with a dot (`.99` becomes `0.99`), and the result is a stored price |
| Parser.CleanPriceOfStrict | receipt_parser/parser.py:56-58 | a `\d+\.\d{2}` capture is stored unchanged |
| Parser.CleanItemName | receipt_parser/parser.py:14-15 | the result is in normal form (no outer whitespace, single spaces between words) and has the same words as the input |
| Parser.CleanItemNameIdempotent | receipt_parser/parser.py:14-15 | cleaning a name twice is cleaning it once |
| Parser.ShoppedRecord | receipt_parser/parser.py:40-65 | the Shopped rule as a function; `Parser.ShoppedLine` states what it yields |
| Parser.FreshRecord | receipt_parser/parser.py:68-81 | the Fresh rule as a function; `Parser.FreshLine` and `Parser.FreshRecordFields` state what it yields |
| Parser.TaxRecord | receipt_parser/parser.py:84-94 | the tax rule as a function; `Parser.TaxLine` states what it yields |
| Parser.ClassifyLine | receipt_parser/parser.py:36-94 | the record one line yields, the first rule whose condition holds deciding; `Parser.ClassifyLineShape` and the three line lemmas state what it yields |
| Parser.ClassifyLineShape | receipt_parser/parser.py:36-94 | a blank line yields nothing, a record comes only from one of the three rules, and its price is a stored price |
| Parser.ShoppedQtyWgtShape | receipt_parser/parser.py:46-53 | the quantity column is the capture of the leftmost `Shopped Qty (\d+)` match if there is one, else that of the leftmost `Shopped Wt (\d+\.\d+)` match followed by ` lb`, else empty |
| Parser.ShoppedQtyOf | receipt_parser/parser.py:47-51 | when the first `Shopped Qty ` is followed by the digits N, the quantity column is exactly N |
| Parser.ShoppedLine | receipt_parser/parser.py:40-65 | a line containing `Shopped` is decided by that rule alone; it yields a record exactly when a `$<digits>.<2 digits>` price occurs; the item is the cleaned text before the first `Shopped`, the quantity column is `ShoppedQtyWgt`, and the price is the capture of the leftmost such price, unchanged |
| Parser.FreshItemName | receipt_parser/parser.py:78 | a Fresh item starts with `Fresh`; it is exactly `Fresh` when the capture is all whitespace and starts with `Fresh ` otherwise |
| Parser.FreshLine | receipt_parser/parser.py:68-74 | a Fresh line yields a record exactly when the name, the weight and a price are all found |
| Parser.FreshRecordFields | receipt_parser/parser.py:74-81 | a Fresh record's item starts with `Fresh` in normal form, its weight is a decimal followed by ` lb`, and its price never starts with a dot |
| Parser.TaxLine | receipt_parser/parser.py:84-94 | a tax line yields a record exactly when a `$<digits>.<2 digits>` price occurs; the record is `Tax` with no quantity and the capture of the leftmost such price, unchanged |
| Parser.SubtotalLine | receipt_parser/parser.py:84 | a line with `Subtotal` never yields a tax record; unless the Shopped or Fresh rule takes it, it yields nothing |
| Parser.LineItems | receipt_parser/parser.py:34-94 | the lines yield at most one record each |
| Parser.LineItemsAppend | receipt_parser/parser.py:34-94 | records keep source-line order: the records of two runs of lines are those of the first run, then those of the second |
| Parser.LineItemsNoneIff | receipt_parser/parser.py:34-94 | the lines yield no record exactly when no single line yields one |
| Parser.LineItemsFromLines | receipt_parser/parser.py:34-94 | every record is the record of one of the lines and has a stored price |
| Parser.StampFields | receipt_parser/parser.py:59-65 | each appended dict carries the page date and `Walmart` and keeps the line's item, quantity and price, one per line record |
| Parser.PageRecordsFields | receipt_parser/parser.py:59-65 | with a date bound, the page has at most one record per line, each with that date, store `Walmart` and a stored price |
| Parser.PageWithoutDate | receipt_parser/parser.py:25-28 | without a date token, the page gives an empty list when no line yields a record, and fails when one does |
| Parser.ParsePage | receipt_parser/parser.py:24-94 | the page as a function of its text; `Parser.ParsePageOutcome` states what it holds and `Parser.ParseWalmartReceipt` is proved to compute it |
| Parser.ParsePageOutcome | receipt_parser/parser.py:24-94 | a bad date token fails the page and only it gives that error; the page fails with the unbound date exactly when the date search finds no token and some line yields a record; a parsed page has at most one record per line, each with store `Walmart`, a stored price and the date found by the date search |
| Parser.PageDateFromToken | receipt_parser/parser.py:24-65 | when the first date token of the page is a valid date printed as `Mon DD, YYYY`, the page parses and every record carries that date as `YYYY-MM-DD` |
| Parser.LineRecord | receipt_parser/parser.py:40-94 | the if/elif chain with its per-line variables yields exactly the line's specified record |
| Parser.ParseLines | receipt_parser/parser.py:31-94 | the loop that appends to `items` produces exactly the specified records of the page, or the unbound-date failure |
| Parser.ParseWalmartReceipt | receipt_parser/parser.py:17-94 | the function body as a method on the page text: the date search, the `InvalidDate` failure on a token `strptime` refuses, then the line loop; its result is exactly the specified page result |
| Categorizer.Loaded | receipt_parser/categorizer.py:27-31 | loading keeps every key already present and adds the lowercased item of every row |
| Categorizer.LoadedUntouched | receipt_parser/categorizer.py:27-31 | loading rows that do not name a key leaves that key's entry, or its absence, as it was |
| Categorizer.LoadedLast | receipt_parser/categorizer.py:27-31 | after loading, a lowercased item holds the values of the last row naming it |
| Categorizer.LoadedKeys | receipt_parser/categorizer.py:27-31 | a key is present after loading exactly when it was before or some row names it |
| Categorizer.LoadedKeysLower | receipt_parser/categorizer.py:28 | every key stored by loading is lowercase |
| Categorizer.FirstKeyword | receipt_parser/categorizer.py:63-66 | the keyword found is contained in the name and no earlier keyword is; none is found only when no keyword is contained |
| Categorizer.Categorization | receipt_parser/categorizer.py:39-69 | an exact map hit on the lowercased name wins; on a miss the first contained keyword decides; with neither the item is `Uncategorized` |
| Categorizer.CategorizationIgnoresCase | receipt_parser/categorizer.py:44 | names differing only in letter case are categorised alike |
| Categorizer.CategorizationSources | receipt_parser/categorizer.py:44-69 | every result is a map entry, the category of a keyword contained in the name, or `Uncategorized` |
| Categorizer.LoadedItemFound | receipt_parser/categorizer.py:28-49 | an item loaded from the file is categorised as its last row says, whatever keywords it contains and in any letter case |
| Categorizer.FreshChickenIsVeggies | receipt_parser/categorizer.py:52-66 | keyword order decides: `Fresh Chicken` is (Grocery, Veggies) |
| Categorizer.TaxItemIsTax | receipt_parser/categorizer.py:52-66 | the parser's `Tax` record is categorised (Tax, Tax) unless the map has `tax` |
| Categorizer.ReceiptCategorizer.constructor | receipt_parser/categorizer.py:9-20 | a new categoriser has an empty map, or the map loaded from the given rows |
| Categorizer.ReceiptCategorizer.LoadCategories | receipt_parser/categorizer.py:22-31 | the map becomes the old map with each row stored in order under its lowercased item |
| Categorizer.ReceiptCategorizer.CategorizeItem | receipt_parser/categorizer.py:39-69 | the lookup with its early returns gives exactly the specified categorisation and changes nothing |
| Categorizer.ReceiptCategorizer.CategorizeReceipt | receipt_parser/categorizer.py:85-88 | every row gets the category and sub-category of its item, and no other cell or row changes |

## Left out

- Reading the PDF (receipt_parser/parser.py:19-21) is a foreign library. The model takes the page text as input.
- Writing the CSV (receipt_parser/parser.py:96-100), the pandas reads and writes (receipt_parser/categorizer.py:25, 76, 94) and directory creation (receipt_parser/categorizer.py:91) are file I/O. Pandas' typing of cells read back from a CSV (a price `3.50` becoming a number, an empty cell becoming NaN) is therefore not modelled. Item cells are strings.
- Ensuring the two category columns exist (receipt_parser/categorizer.py:79-82) is not modelled separately. Table rows always have both cells, and the loop overwrites them in every row.
- The command-line entry point `main` and output-path naming (receipt_parser/parser.py:103-119) are user-interface plumbing.
- Path resolution through `pkg_resources` and `os`, and the messages printed on `FileNotFoundError` (receipt_parser/categorizer.py:13-18, 32-37), are environment-dependent I/O. A categories file is given as its rows, or as absent.
- Characters outside ASCII are not modelled. Whitespace is ASCII `isspace`, digits are `0-9` and lowercasing maps only `A-Z`; Python's Unicode-aware `\s`, `\d` and `lower()` accept more.
- Regular expressions are modelled pattern by pattern, not as a general engine.
- `strptime` is modelled only for `%b %d, %Y` with English month abbreviations.
- ReceiptDate.IsoText: years 1 to 999 are written with four zero-padded digits. Python's `strftime('%Y')` padding for such years depends on the platform; the receipt years of interest have four digits.
- The tests of the package exercise `batch_process`, which the parser does not define. They are not part of this model.
