/** `ReceiptCategorizer`: a map from lowercased item names to a category and a
    sub-category, filled from the rows of a categories file, and the lookup that
    falls back to a fixed, ordered list of keywords. */
module Categorizer {
  import opened Wrappers
  import opened Text

  /** The pair `categorize_item` returns: (category, sub-category). */
  datatype Category = Category(category: string, subCategory: string)

  /** One row of the categories file: columns `item`, `category`, `sub-category`. */
  datatype CategoryRow = CategoryRow(item: string, category: string, subCategory: string)

  /** One row of a receipt table once it has its two category columns. */
  datatype TableRow = TableRow(date: string, store: string, item: string, qtyWgt: string, price: string,
                               category: string, subCategory: string)

  /** The keyword rules, in the order they are tried. */
  const Keywords: seq<(string, Category)> := [
    ("fresh", Category("Grocery", "Veggies")),
    ("frozen", Category("Grocery", "Frozen")),
    ("chicken", Category("Grocery", "Meat")),
    ("beef", Category("Grocery", "Meat")),
    ("toilet paper", Category("Supplies", "Personal Care")),
    ("toothpaste", Category("Supplies", "Personal Care")),
    ("wipes", Category("Supplies", "Cleaning")),
    ("tax", Category("Tax", "Tax"))
  ]

  const Uncategorized: Category := Category("Uncategorized", "Uncategorized")

  function CategoryOf(row: CategoryRow): Category {
    Category(row.category, row.subCategory)
  }

  // ---------------------------------------------------------------------------
  // Loading.

  /** The map after the rows are stored one after the other, each under its
      lowercased item name. */
  function Loaded(m: map<string, Category>, rows: seq<CategoryRow>): (r: map<string, Category>)
    ensures m.Keys <= r.Keys
    ensures forall k :: 0 <= k < |rows| ==> Lower(rows[k].item) in r
    decreases |rows|
  {
    if rows == [] then m
    else Loaded(m[Lower(rows[0].item) := CategoryOf(rows[0])], rows[1..])
  }

  /** Loading rows none of which names `key` leaves `key` as it was. */
  lemma {:induction false} LoadedUntouched(m: map<string, Category>, rows: seq<CategoryRow>, key: string)
    requires forall k :: 0 <= k < |rows| ==> Lower(rows[k].item) != key
    ensures key in Loaded(m, rows) <==> key in m
    ensures key in m ==> Loaded(m, rows)[key] == m[key]
    decreases |rows|
  {
    if rows != [] {
      assert Lower(rows[0].item) != key;
      assert forall j :: 0 <= j < |rows[1..]| ==> rows[1..][j] == rows[j + 1];
      LoadedUntouched(m[Lower(rows[0].item) := CategoryOf(rows[0])], rows[1..], key);
    }
  }

  /** After loading, the lowercased item of row `k` holds row `k`'s values when no
      later row names the same item: the last duplicate wins. */
  lemma {:induction false} LoadedLast(m: map<string, Category>, rows: seq<CategoryRow>, k: nat)
    requires k < |rows|
    requires forall j :: k < j < |rows| ==> Lower(rows[j].item) != Lower(rows[k].item)
    ensures Lower(rows[k].item) in Loaded(m, rows)
    ensures Loaded(m, rows)[Lower(rows[k].item)] == CategoryOf(rows[k])
    decreases k
  {
    var m' := m[Lower(rows[0].item) := CategoryOf(rows[0])];
    if k == 0 {
      assert forall j :: 0 <= j < |rows[1..]| ==> rows[1..][j] == rows[j + 1];
      LoadedUntouched(m', rows[1..], Lower(rows[0].item));
    } else {
      assert rows[1..][k - 1] == rows[k];
      assert forall j :: k - 1 < j < |rows[1..]| ==> rows[1..][j] == rows[j + 1];
      LoadedLast(m', rows[1..], k - 1);
    }
  }

  /** A key is present after loading exactly when it was before or some row names it. */
  lemma {:induction false} LoadedKeys(m: map<string, Category>, rows: seq<CategoryRow>, key: string)
    ensures key in Loaded(m, rows) <==> key in m || exists k :: 0 <= k < |rows| && Lower(rows[k].item) == key
    decreases |rows|
  {
    if rows != [] {
      var m' := m[Lower(rows[0].item) := CategoryOf(rows[0])];
      LoadedKeys(m', rows[1..], key);
      if exists k :: 0 <= k < |rows[1..]| && Lower(rows[1..][k].item) == key {
        var k :| 0 <= k < |rows[1..]| && Lower(rows[1..][k].item) == key;
        assert rows[1..][k] == rows[k + 1];
      }
      if exists k :: 0 <= k < |rows| && Lower(rows[k].item) == key {
        var k :| 0 <= k < |rows| && Lower(rows[k].item) == key;
        if k > 0 {
          assert rows[1..][k - 1] == rows[k];
        }
      }
    }
  }

  /** Keys stored by loading are lowercase, so a lookup of a lowercased name can
      find them. */
  lemma LoadedKeysLower(rows: seq<CategoryRow>)
    ensures forall key :: key in Loaded(map[], rows) ==> Lower(key) == key
  {
    forall key | key in Loaded(map[], rows)
      ensures Lower(key) == key
    {
      LoadedKeys(map[], rows, key);
      var k :| 0 <= k < |rows| && Lower(rows[k].item) == key;
      LowerIdempotent(rows[k].item);
    }
  }

  // ---------------------------------------------------------------------------
  // Lookup.

  /** The first keyword, from position `k` on, that occurs in `low`. */
  function FirstKeyword(low: string, k: nat): (r: Option<nat>)
    requires k <= |Keywords|
    ensures r.Some? ==> k <= r.value < |Keywords| && Contains(low, Keywords[r.value].0)
    ensures r.Some? ==> forall j :: k <= j < r.value ==> !Contains(low, Keywords[j].0)
    ensures r.None? ==> forall j :: k <= j < |Keywords| ==> !Contains(low, Keywords[j].0)
    decreases |Keywords| - k
  {
    if k == |Keywords| then None
    else if Contains(low, Keywords[k].0) then Some(k)
    else FirstKeyword(low, k + 1)
  }

  /** `categorize_item` as a function of the map: an exact hit on the lowercased
      name wins; otherwise the first keyword contained in it decides; otherwise
      the item is uncategorised. */
  function Categorization(m: map<string, Category>, name: string): (r: Category)
    ensures Lower(name) in m ==> r == m[Lower(name)]
    ensures Lower(name) !in m ==>
      forall k :: 0 <= k < |Keywords| && Contains(Lower(name), Keywords[k].0) &&
                  (forall j :: 0 <= j < k ==> !Contains(Lower(name), Keywords[j].0)) ==>
                  r == Keywords[k].1
    ensures Lower(name) !in m && (forall k :: 0 <= k < |Keywords| ==> !Contains(Lower(name), Keywords[k].0)) ==>
      r == Uncategorized
  {
    var low := Lower(name);
    if low in m then m[low]
    else
      match FirstKeyword(low, 0)
      case Some(k) => Keywords[k].1
      case None => Uncategorized
  }

  /** Lookup ignores letter case: names that agree once lowercased, character by
      character, are categorised alike. */
  lemma CategorizationIgnoresCase(m: map<string, Category>, a: string, b: string)
    requires |a| == |b|
    requires forall k :: 0 <= k < |a| ==> LowerChar(a[k]) == LowerChar(b[k])
    ensures Categorization(m, a) == Categorization(m, b)
  {
    LowerIgnoresCase(a, b);
  }

  /** Whatever the map, the result is a map entry, a keyword's category, or
      `Uncategorized`; with the empty map only the last two remain. */
  lemma CategorizationSources(m: map<string, Category>, name: string)
    ensures var r := Categorization(m, name);
      || (Lower(name) in m && r == m[Lower(name)])
      || (exists k :: 0 <= k < |Keywords| && Contains(Lower(name), Keywords[k].0) && r == Keywords[k].1)
      || r == Uncategorized
  {
    var low := Lower(name);
    if low !in m {
      var f := FirstKeyword(low, 0);
      if f.Some? {
        assert Categorization(m, name) == Keywords[f.value].1;
      }
    }
  }

  /** An item loaded from the categories file is categorised as its last row there
      says, whatever keywords its name contains and in whatever letter case it is
      asked for. */
  lemma LoadedItemFound(m: map<string, Category>, rows: seq<CategoryRow>, k: nat, name: string)
    requires k < |rows| && Lower(name) == Lower(rows[k].item)
    requires forall j :: k < j < |rows| ==> Lower(rows[j].item) != Lower(rows[k].item)
    ensures Categorization(Loaded(m, rows), name) == CategoryOf(rows[k])
  {
    LoadedLast(m, rows, k);
  }

  /** The keyword order decides between keywords: `Fresh Chicken` is a vegetable. */
  lemma FreshChickenIsVeggies()
    ensures Categorization(map[], "Fresh Chicken") == Category("Grocery", "Veggies")
  {
    var low := Lower("Fresh Chicken");
    assert low[..5] == "fresh";
    ContainsOfOccurs(low, "fresh", 0);
  }

  /** The parser's tax record is categorised `Tax` unless the file maps `tax`:
      no keyword before `tax` fits in it. */
  lemma TaxItemIsTax(m: map<string, Category>)
    requires "tax" !in m
    ensures Categorization(m, "Tax") == Category("Tax", "Tax")
  {
    assert Lower("Tax") == "tax";
    ContainsOfOccurs("tax", "tax", 0);
    assert forall k :: 0 <= k < 7 ==> |Keywords[k].0| > 3;
  }

  // ---------------------------------------------------------------------------
  // The categoriser object.

  class ReceiptCategorizer {
    /** Lowercased item name to its (category, sub-category). */
    var categoriesMap: map<string, Category>

    /** `ReceiptCategorizer(categories_file)`: an empty map, then the rows of the
        categories file when one is given. */
    constructor(categoriesFile: Option<seq<CategoryRow>>)
      ensures categoriesFile.None? ==> categoriesMap == map[]
      ensures categoriesFile.Some? ==> categoriesMap == Loaded(map[], categoriesFile.value)
    {
      categoriesMap := map[];
      new;
      if categoriesFile.Some? {
        LoadCategories(categoriesFile.value);
      }
    }

    /** `load_categories`: each row, in order, is stored under its lowercased item
        name, overwriting what was there; nothing is removed. */
    method LoadCategories(rows: seq<CategoryRow>)
      modifies this
      ensures categoriesMap == Loaded(old(categoriesMap), rows)
    {
      for i := 0 to |rows|
        invariant Loaded(categoriesMap, rows[i..]) == Loaded(old(categoriesMap), rows)
      {
        var row := rows[i];
        assert rows[i..][0] == row && rows[i..][1..] == rows[i + 1..];
        categoriesMap := categoriesMap[Lower(row.item) := CategoryOf(row)];
      }
      assert rows[|rows|..] == [];
    }

    /** `categorize_item`: the map on the lowercased name, then the keywords in
        order with the first hit returned, then `Uncategorized`. The map is not
        changed. */
    method CategorizeItem(itemName: string) returns (r: Category)
      ensures r == Categorization(categoriesMap, itemName)
    {
      var itemLower := Lower(itemName);
      if itemLower in categoriesMap {
        return categoriesMap[itemLower];
      }
      for k := 0 to |Keywords|
        invariant forall j :: 0 <= j < k ==> !Contains(itemLower, Keywords[j].0)
      {
        if Contains(itemLower, Keywords[k].0) {
          return Keywords[k].1;
        }
      }
      return Uncategorized;
    }

    /** The row-by-row loop of `categorize_receipt`: every row gets the category and
        sub-category of its item; no other cell and no other row changes. */
    method CategorizeReceipt(table: array<TableRow>)
      modifies table
      ensures forall i :: 0 <= i < table.Length ==>
        var c := Categorization(categoriesMap, old(table[i]).item);
        table[i] == old(table[i]).(category := c.category, subCategory := c.subCategory)
    {
      for i := 0 to table.Length
        invariant forall j :: 0 <= j < i ==>
          var c := Categorization(categoriesMap, old(table[j]).item);
          table[j] == old(table[j]).(category := c.category, subCategory := c.subCategory)
        invariant forall j :: i <= j < table.Length ==> table[j] == old(table[j])
      {
        var c := CategorizeItem(table[i].item);
        table[i] := table[i].(category := c.category, subCategory := c.subCategory);
      }
    }
  }
}
