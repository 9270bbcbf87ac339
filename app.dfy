/**
 * The pure parts of the terminal client: reading the product ids typed by
 * the user, the store drop-down, the country drop-down and the values shown
 * in one row of the results table.
 */
module App {
  import opened Wrappers
  import opened Text
  import opened Sorting
  import opened Models
  import opened Api

  // =====================================================================
  // Product ids
  // =====================================================================

  /** One comma-separated token as a product id: white space trimmed, every dot dropped. */
  function NormalizeToken(t: string): (r: string)
    ensures '.' !in r
    ensures forall c :: c in r <==> c in Strip(t) && c != '.'
  {
    RemoveChar(Strip(t), '.')
  }

  /** The comma-separated tokens of the trimmed input; none when it is blank. */
  function Tokens(raw: string): (ts: seq<string>)
    ensures ts == [] <==> AllSpace(raw)
  {
    var s := Strip(raw);
    if s == "" then [] else Split(s, ',')
  }

  /** The normalised tokens that are not empty, in token order. */
  function KeptIds(ts: seq<string>): (ids: seq<string>)
    ensures |ids| <= |ts|
    ensures forall k :: 0 <= k < |ids| ==> ids[k] != "" && '.' !in ids[k]
  {
    if ts == [] then []
    else
      var n := NormalizeToken(ts[|ts| - 1]);
      KeptIds(ts[..|ts| - 1]) + (if n != "" then [n] else [])
  }

  /**
   * `_product_ids`: split the trimmed input at commas, normalise each
   * token and keep the non-empty ones. Blank input gives no ids, and no id
   * is empty or contains a dot.
   */
  method ProductIds(raw: string) returns (ids: seq<string>)
    ensures ids == KeptIds(Tokens(raw))
    ensures AllSpace(raw) ==> ids == []
    ensures |ids| <= |Tokens(raw)|
    ensures forall k :: 0 <= k < |ids| ==> ids[k] != "" && '.' !in ids[k]
  {
    var s := Strip(raw);
    if s == "" {
      return [];
    }
    ids := KeepNormalized(Split(s, ','));
  }

  /** The loop of `_product_ids`: normalise each token and append it when it is not empty. */
  method KeepNormalized(tokens: seq<string>) returns (ids: seq<string>)
    ensures ids == KeptIds(tokens)
  {
    ids := [];
    for i := 0 to |tokens|
      invariant ids == KeptIds(tokens[..i])
    {
      assert tokens[..i + 1][..i] == tokens[..i];
      var normalized := RemoveChar(Strip(tokens[i]), '.');
      if normalized != "" {
        ids := ids + [normalized];
      }
    }
    assert tokens[..|tokens|] == tokens;
  }

  /** Ids are kept token by token: the ids of two runs of tokens are those of each, in turn. */
  lemma {:induction false} KeptIdsAppend(a: seq<string>, b: seq<string>)
    ensures KeptIds(a + b) == KeptIds(a) + KeptIds(b)
    decreases |b|
  {
    if b == [] {
      assert a + b == a;
    } else {
      var b' := b[..|b| - 1];
      assert (a + b)[..|a + b| - 1] == a + b';
      assert (a + b)[|a + b| - 1] == b[|b| - 1];
      KeptIdsAppend(a, b');
    }
  }

  /** The positions of the tokens that give an id, in ascending order. */
  function KeptIndices(ts: seq<string>): (idx: seq<nat>)
    ensures forall k :: 0 <= k < |idx| ==> idx[k] < |ts|
    ensures forall k, l :: 0 <= k < l < |idx| ==> idx[k] < idx[l]
  {
    if ts == [] then []
    else
      KeptIndices(ts[..|ts| - 1]) + (if NormalizeToken(ts[|ts| - 1]) != "" then [|ts| - 1] else [])
  }

  /** There is one kept position per id, and the k-th id is the normalised token at the k-th kept position. */
  lemma {:induction false} KeptIdsAtIndices(ts: seq<string>)
    ensures |KeptIndices(ts)| == |KeptIds(ts)|
    ensures forall k :: 0 <= k < |KeptIds(ts)| ==> KeptIds(ts)[k] == NormalizeToken(ts[KeptIndices(ts)[k]])
  {
    if ts != [] {
      var init := ts[..|ts| - 1];
      KeptIdsAtIndices(init);
      assert forall j :: 0 <= j < |init| ==> init[j] == ts[j];
    }
  }

  /** A token at a position that is not kept normalises to the empty string. */
  lemma {:induction false} SkippedTokenEmpty(ts: seq<string>, j: nat)
    requires j < |ts| && j !in KeptIndices(ts)
    ensures NormalizeToken(ts[j]) == ""
  {
    var init := ts[..|ts| - 1];
    var n := NormalizeToken(ts[|ts| - 1]);
    var last: seq<nat> := if n != "" then [|ts| - 1] else [];
    assert KeptIndices(ts) == KeptIndices(init) + last;
    if j < |init| {
      assert j !in KeptIndices(init);
      assert init[j] == ts[j];
      SkippedTokenEmpty(init, j);
      assert NormalizeToken(ts[j]) == NormalizeToken(init[j]);
    } else {
      assert j == |ts| - 1;
      assert j !in last;
      assert n == "";
    }
  }

  /** Splitting at commas loses nothing: the tokens rejoined give the trimmed input. */
  lemma TokensJoin(raw: string)
    requires !AllSpace(raw)
    ensures |Tokens(raw)| >= 1 && Join(Tokens(raw), ',') == Strip(raw)
  {
    JoinSplit(Strip(raw), ',');
  }

  /** For a token without white space, writing it with or without dots gives the same id. */
  lemma DotsDoNotMatter(t: string)
    requires NoSpace(t)
    ensures NormalizeToken(t) == NormalizeToken(RemoveChar(t, '.'))
  {
    var bare := RemoveChar(t, '.');
    StripNoSpace(t);
    forall k | 0 <= k < |bare| ensures !IsSpace(bare[k]) {
      assert bare[k] in bare;
    }
    StripNoSpace(bare);
    RemoveCharTwice(t, '.');
  }

  /**
   * The dotted form printed on a price tag and the bare form are the same
   * id: `"306.043.67"` and `"30604367"` both give `"30604367"`.
   */
  lemma DottedFormSameId(a: string, b: string, c: string)
    requires NoSpace(a) && NoSpace(b) && NoSpace(c)
    requires '.' !in a && '.' !in b && '.' !in c
    ensures NormalizeToken(a + "." + b + "." + c) == NormalizeToken(a + b + c) == a + b + c
  {
    assert RemoveChar(".", '.') == "";
    RemoveCharAbsent(a, '.');
    RemoveCharAbsent(b, '.');
    RemoveCharAbsent(c, '.');
    RemoveCharAppend(a, ".", '.');
    assert RemoveChar(a + ".", '.') == a;
    RemoveCharAppend(a + ".", b, '.');
    assert RemoveChar(a + "." + b, '.') == a + b;
    RemoveCharAppend(a + "." + b, ".", '.');
    assert RemoveChar(a + "." + b + ".", '.') == a + b;
    RemoveCharAppend(a + "." + b + ".", c, '.');
    assert RemoveChar(a + "." + b + "." + c, '.') == a + b + c;
    assert NoSpace(".");
    NoSpaceAppend(a, ".");
    NoSpaceAppend(a + ".", b);
    NoSpaceAppend(a + "." + b, ".");
    NoSpaceAppend(a + "." + b + ".", c);
    NoSpaceAppend(a, b);
    NoSpaceAppend(a + b, c);
    StripNoSpace(a + "." + b + "." + c);
    StripNoSpace(a + b + c);
    RemoveCharAppend(a, b, '.');
    RemoveCharAppend(a + b, c, '.');
  }

  // =====================================================================
  // Drop-downs
  // =====================================================================

  /** Store options are sorted by the store name alone. */
  function NameKey(s: Store): Key {
    (s.name, "")
  }

  /** `(s.name, s.bu_code)` for each store, in order. */
  function OptionPairs(stores: seq<Store>): (opts: seq<(string, string)>)
    ensures |opts| == |stores|
    ensures forall k :: 0 <= k < |stores| ==> opts[k] == (stores[k].name, stores[k].buCode)
  {
    seq(|stores|, k requires 0 <= k < |stores| => (stores[k].name, stores[k].buCode))
  }

  /** `_update_store_select`: the options for the stores of `country`, sorted by name. */
  function StoreOptions(table: seq<StoreRec>, country: string): (opts: seq<(string, string)>)
    ensures |opts| == |StoresFor(table, country)|
  {
    OptionPairs(SortBy(StoresFor(table, country), NameKey))
  }

  lemma OptionPairsAppend(a: seq<Store>, b: seq<Store>)
    ensures OptionPairs(a + b) == OptionPairs(a) + OptionPairs(b)
  {
  }

  /** Rearranging the stores rearranges their options the same way. */
  lemma {:induction false} OptionPairsPermutation(a: seq<Store>, b: seq<Store>)
    requires multiset(a) == multiset(b)
    ensures multiset(OptionPairs(a)) == multiset(OptionPairs(b))
    decreases |a|
  {
    if a != [] {
      var x := a[0];
      assert x in multiset(b);
      var j :| 0 <= j < |b| && b[j] == x;
      var b' := b[..j] + b[j + 1..];
      assert b == b[..j] + [x] + b[j + 1..];
      assert a == [x] + a[1..];
      assert multiset(b) == multiset(b[..j]) + multiset{x} + multiset(b[j + 1..]);
      assert multiset(b') == multiset(b[..j]) + multiset(b[j + 1..]);
      assert multiset(a) == multiset{x} + multiset(a[1..]);
      assert multiset(a[1..]) == multiset(a) - multiset{x};
      assert multiset(b') == multiset(b) - multiset{x};
      OptionPairsPermutation(a[1..], b');
      OptionPairsAppend([x], a[1..]);
      OptionPairsAppend(b[..j] + [x], b[j + 1..]);
      OptionPairsAppend(b[..j], [x]);
      OptionPairsAppend(b[..j], b[j + 1..]);
    } else {
      assert b == [];
    }
  }

  /** The options are in non-decreasing order of store name. */
  lemma StoreOptionsSorted(table: seq<StoreRec>, country: string)
    ensures var opts := StoreOptions(table, country);
      forall i, j :: 0 <= i < j < |opts| ==> StrLe(opts[i].0, opts[j].0)
  {
    var sorted := SortBy(StoresFor(table, country), NameKey);
    SortBySorted(StoresFor(table, country), NameKey);
    forall i, j | 0 <= i < j < |sorted| ensures StrLe(sorted[i].name, sorted[j].name) {
      KeyLeSingle(sorted[i].name, sorted[j].name);
    }
  }

  /** The options are exactly the `(name, bu_code)` pairs of the country's stores, each as often as it occurs. */
  lemma StoreOptionsPermutation(table: seq<StoreRec>, country: string)
    ensures multiset(StoreOptions(table, country)) == multiset(OptionPairs(StoresFor(table, country)))
  {
    OptionPairsPermutation(SortBy(StoresFor(table, country), NameKey), StoresFor(table, country));
  }

  /** Options for stores sharing a name keep the table order. */
  lemma StoreOptionsStable(table: seq<StoreRec>, country: string, name: string)
    ensures WithKey(SortBy(StoresFor(table, country), NameKey), (name, ""), NameKey)
         == WithKey(StoresFor(table, country), (name, ""), NameKey)
  {
    SortByStable(StoresFor(table, country), (name, ""), NameKey);
  }

  /** The caption of a country: `"DE – Germany"`. */
  function CountryLabel(countries: map<string, string>, code: string): (caption: string)
    ensures |caption| == |code| + 3 + |CountryName(countries, code)|
    ensures forall k :: 0 <= k < |code| ==> caption[k] == UpperChar(code[k])
    ensures caption[|code|..|code| + 3] == " \U{2013} "
    ensures caption[|code| + 3..] == CountryName(countries, code)
  {
    Upper(code) + " \U{2013} " + CountryName(countries, code)
  }

  /** The `(caption, code)` pair of each code, in order. */
  function LabelPairs(countries: map<string, string>, codes: seq<string>): (opts: seq<(string, string)>)
    ensures |opts| == |codes|
    ensures forall k :: 0 <= k < |codes| ==> opts[k] == (CountryLabel(countries, codes[k]), codes[k])
  {
    seq(|codes|, k requires 0 <= k < |codes| => (CountryLabel(countries, codes[k]), codes[k]))
  }

  /** `_COUNTRY_OPTIONS`: a `(caption, code)` pair for every country code, in the order of the code list. */
  ghost function CountryOptions(countries: map<string, string>): (opts: seq<(string, string)>)
    ensures |opts| == |countries|
  {
    LabelPairs(countries, CountryCodes(countries))
  }

  /** Every country has exactly one option, in ascending order of code, captioned with its name. */
  lemma CountryOptionsOrdered(countries: map<string, string>)
    ensures var opts := CountryOptions(countries);
      && |opts| == |countries|
      && (forall i, j :: 0 <= i < j < |opts| ==> StrLt(opts[i].1, opts[j].1))
      && (forall k :: 0 <= k < |opts| ==> opts[k].1 in countries && opts[k].0 == CountryLabel(countries, opts[k].1))
  {
  }

  /** Every country code of the table appears among the options. */
  lemma CountryOptionsComplete(countries: map<string, string>, c: string)
    requires c in countries
    ensures exists k :: 0 <= k < |CountryOptions(countries)| && CountryOptions(countries)[k].1 == c
  {
    var codes := CountryCodes(countries);
    var k :| 0 <= k < |codes| && codes[k] == c;
    var opts := LabelPairs(countries, codes);
    assert opts == CountryOptions(countries);
    assert opts[k].1 == codes[k];
  }

  // =====================================================================
  // One row of the results table
  // =====================================================================

  /** The label and colour for each known stock probability. */
  const ProbabilityDisplay: map<string, (string, string)> := map[
    "HIGH_IN_STOCK" := ("High in stock", "bold green"),
    "LOW_IN_STOCK" := ("Low in stock", "bold yellow"),
    "OUT_OF_STOCK" := ("Out of stock", "bold red")]

  /** The label and colour for any other probability. */
  const ProbabilityFallback: (string, string) := ("Unknown", "dim")

  /** The probabilities for which the stock column shows 0. */
  const ZeroStockKeys: set<string> := {"OUT_OF_STOCK"}

  /** The label and colour of the availability column. */
  function AvailabilityCell(probability: string): (cell: (string, string))
    ensures cell.0 == "Unknown" <==> probability !in ProbabilityDisplay
    ensures cell.1 == "dim" <==> probability !in ProbabilityDisplay
    ensures probability in ProbabilityDisplay ==> cell == ProbabilityDisplay[probability]
    ensures probability !in ProbabilityDisplay ==> cell == ProbabilityFallback
  {
    if probability in ProbabilityDisplay then ProbabilityDisplay[probability] else ProbabilityFallback
  }

  /** The label is "Unknown" exactly for a probability outside the three known ones, the empty one included. */
  lemma AvailabilityUnknownIff(probability: string)
    ensures AvailabilityCell(probability) == ProbabilityFallback
        <==> probability !in {"HIGH_IN_STOCK", "LOW_IN_STOCK", "OUT_OF_STOCK"}
    ensures AvailabilityCell("") == ("Unknown", "dim")
  {
    assert "" !in ProbabilityDisplay;
  }

  /** Distinct known probabilities get distinct labels and colours. */
  lemma AvailabilityLabelsDistinct(p: string, q: string)
    requires p in ProbabilityDisplay && q in ProbabilityDisplay && p != q
    ensures AvailabilityCell(p).0 != AvailabilityCell(q).0 && AvailabilityCell(p).1 != AvailabilityCell(q).1
  {
  }

  /** The stock column: `"0"` for an out-of-stock record, the quantity in decimal otherwise. */
  function StockCell(x: StockInfo): (cell: string)
    ensures |cell| >= 1
    ensures x.probability == "OUT_OF_STOCK" ==> cell == "0"
    ensures x.probability != "OUT_OF_STOCK" ==> cell == IntToString(x.stock)
  {
    if x.probability !in ZeroStockKeys then IntToString(x.stock) else "0"
  }

  /** The stock column reads back as 0 when out of stock and as the record's quantity otherwise. */
  lemma StockCellValue(x: StockInfo)
    ensures ParseInt(StockCell(x)) == Some(if x.probability == "OUT_OF_STOCK" then 0 else x.stock)
  {
    if x.probability == "OUT_OF_STOCK" {
      assert StockCell(x) == "0";
      assert AllDigits("0");
    } else {
      ParseIntToString(x.stock);
    }
  }

  /** An out-of-stock entry's record keeps its quantity, and its stock cell shows 0 whatever that quantity is. */
  lemma OutOfStockShowsZero(e: Entry, store: Store, parseIso: string -> Option<string>, q: int, t: Option<string>)
    requires e.availableForCashCarry
    requires e.availability == Some(Block(Some(q), Some("OUT_OF_STOCK"), t))
    ensures var x := ToStockInfo(e, store, parseIso);
      x.stock == q && StockCell(x) == "0"
  {
    OutOfStockKeepsQuantity(e, store, parseIso, q, t);
  }

  /** The cells of one table row. */
  datatype Row = Row(
    productId: string,
    country: string,
    store: string,
    stock: string,
    availability: (string, string),
    updated: Option<string>)

  /** The row shown for a record. */
  function RenderRow(x: StockInfo): (row: Row)
    ensures row.productId == x.productId && row.store == x.storeName && row.updated == x.updatedAt
    ensures row.availability == AvailabilityCell(x.probability)
    ensures row.stock == StockCell(x)
    ensures |row.country| == |x.countryCode| + 3 + |x.country|
    ensures forall k :: 0 <= k < |x.countryCode| ==> row.country[k] == UpperChar(x.countryCode[k])
    ensures row.country[|x.countryCode|..|x.countryCode| + 3] == " \U{2013} "
    ensures row.country[|x.countryCode| + 3..] == x.country
    ensures ParseInt(row.stock) == Some(if x.probability == "OUT_OF_STOCK" then 0 else x.stock)
  {
    StockCellValue(x);
    Row(x.productId, Upper(x.countryCode) + " \U{2013} " + x.country, x.storeName,
        StockCell(x), AvailabilityCell(x.probability), x.updatedAt)
  }

  /** The rows shown for the records, in the records' order. */
  function RenderRows(results: seq<StockInfo>): (rows: seq<Row>)
    ensures |rows| == |results|
    ensures forall k :: 0 <= k < |results| ==> rows[k] == RenderRow(results[k])
  {
    seq(|results|, k requires 0 <= k < |results| => RenderRow(results[k]))
  }

  /**
   * The table lists the rows in the order of `(store, product id)`, and every
   * row says of its record what the record says.
   */
  lemma RenderedRowsSorted(stores: seq<StoreRec>, countryCode: string, body: Body, buCode: Option<string>,
                           parseIso: string -> Option<string>)
    requires body.availabilities.Some?
    ensures var out := Availability(stores, countryCode, body, buCode, parseIso).value;
      var rows := RenderRows(out);
      && (forall i, j :: 0 <= i < j < |rows| ==> KeyLe((rows[i].store, rows[i].productId), (rows[j].store, rows[j].productId)))
      && (forall k :: 0 <= k < |rows| ==>
            rows[k].productId == out[k].productId && rows[k].store == out[k].storeName
            && ParseInt(rows[k].stock) == Some(if out[k].probability == "OUT_OF_STOCK" then 0 else out[k].stock))
  {
    var out := Availability(stores, countryCode, body, buCode, parseIso).value;
    AvailabilitySorted(stores, countryCode, body, buCode, parseIso);
    forall k | 0 <= k < |out| {
      StockCellValue(out[k]);
    }
  }
}
