/**
 * The client's view of the retailer's availability service: the store
 * directory (country table and store table, passed in explicitly) and the
 * projection of a parsed availability response into sorted stock records.
 */
module Api {
  import opened Wrappers
  import opened Text
  import opened Sorting
  import opened Models

  // =====================================================================
  // Store directory
  // =====================================================================

  /** One row of the bundled store table; `country` and `coordinates` may be missing. */
  datatype StoreRec = StoreRec(
    buCode: string,
    name: string,
    countryCode: string,
    country: Option<string>,
    coordinates: Option<seq<real>>)

  /** `code.lower().strip()`: the form in which country codes are compared. */
  function Normalize(code: string): string {
    Strip(Lower(code))
  }

  /** Normalising twice changes nothing. */
  lemma NormalizeIdempotent(code: string)
    ensures Normalize(Normalize(code)) == Normalize(code)
  {
    var l := Lower(code);
    var n := Strip(l);
    var off := LeadingSpace(l);
    assert n == l[off..off + |n|];
    forall k | 0 <= k < |n| ensures !('A' <= n[k] <= 'Z') {
      assert n[k] == l[off + k] == LowerChar(code[off + k]);
    }
    LowerIdentity(n);
    assert Lower(n) == n;
    StripIdentity(n);
    assert Strip(n) == n;
  }

  /** The `Store` for a table row, with `""` for a missing country and `[]` for missing coordinates. */
  function ToStore(rec: StoreRec): (st: Store)
    ensures st.buCode == rec.buCode && st.name == rec.name && st.countryCode == rec.countryCode
    ensures rec.country.Some? ==> st.country == rec.country.value
    ensures rec.country.None? ==> st.country == ""
    ensures rec.coordinates.Some? ==> st.coordinates == rec.coordinates.value
    ensures rec.coordinates.None? ==> st.coordinates == []
  {
    Store(rec.buCode, rec.name, rec.countryCode, rec.country.GetOr(""), rec.coordinates.GetOr([]))
  }

  /** A least key of a non-empty set of country codes. */
  ghost function MinCode(codes: set<string>): (c: string)
    requires codes != {}
    ensures c in codes && forall d :: d in codes ==> StrLe(c, d)
    decreases codes
  {
    var x :| x in codes;
    if codes == {x} then
      StrLeReflexive(x);
      x
    else
      var m := MinCode(codes - {x});
      StrLeTotal(x, m);
      if StrLe(x, m) then
        StrLeReflexive(x);
        BelowLeast(x, m, codes - {x});
        x
      else
        m
  }

  /** Whatever is below the least element of a set is below all of it. */
  lemma BelowLeast(x: string, m: string, codes: set<string>)
    requires StrLe(x, m) && forall d :: d in codes ==> StrLe(m, d)
    ensures forall d :: d in codes ==> StrLe(x, d)
  {
    forall d | d in codes ensures StrLe(x, d) { StrLeTransitive(x, m, d); }
  }

  /** `r` is strictly ascending by code point order. */
  predicate Ascending(r: seq<string>) {
    forall i, j :: 0 <= i < j < |r| ==> StrLt(r[i], r[j])
  }

  /** A code below every element of an ascending sequence can be put in front of it. */
  lemma AscendingCons(c: string, tail: seq<string>)
    requires Ascending(tail)
    requires forall j :: 0 <= j < |tail| ==> StrLt(c, tail[j])
    ensures Ascending([c] + tail)
  {
    var r := [c] + tail;
    forall i, j | 0 <= i < j < |r| ensures StrLt(r[i], r[j]) {
      assert r[j] == tail[j - 1];
      if i > 0 { assert r[i] == tail[i - 1]; }
    }
  }

  /** `get_country_codes()`: every key of the country table once, in strictly ascending order. */
  ghost function CountryCodes(countries: map<string, string>): (r: seq<string>)
    ensures forall c :: c in r <==> c in countries
    ensures |r| == |countries|
    ensures Ascending(r)
    decreases |countries|
  {
    if countries == map[] then []
    else
      var c := MinCode(countries.Keys);
      var rest := countries - {c};
      assert |rest.Keys| == |countries.Keys - {c}| == |countries.Keys| - 1;
      var tail := CountryCodes(rest);
      forall j | 0 <= j < |tail| ensures StrLt(c, tail[j]) {
        assert tail[j] in rest;
      }
      AscendingCons(c, tail);
      [c] + tail
  }

  /**
   * `get_country_name(code)`: the table's name when `code` is a key, and
   * otherwise `code` upper-cased; `code` is looked up exactly as given.
   */
  function CountryName(countries: map<string, string>, code: string): (name: string)
    ensures code in countries ==> name == countries[code]
    ensures code !in countries ==> |name| == |code| && forall k :: 0 <= k < |name| ==> !('a' <= name[k] <= 'z')
    ensures code !in countries ==> forall k :: 0 <= k < |code| ==> name[k] == UpperChar(code[k])
  {
    if code in countries then countries[code] else Upper(code)
  }

  /**
   * A code is listed exactly when its name is not the upper-case fallback,
   * as long as no country's name is its own code upper-cased.
   */
  lemma CountryListedIffNamed(countries: map<string, string>, code: string)
    requires forall c :: c in countries ==> countries[c] != Upper(c)
    ensures code in CountryCodes(countries) <==> CountryName(countries, code) != Upper(code)
  {
  }

  /** Without that condition the equivalence fails: a country named as its upper-cased code. */
  lemma CountryNameMayEqualFallback()
    ensures var countries := map["xx" := "XX"];
      "xx" in CountryCodes(countries) && CountryName(countries, "xx") == Upper("xx")
  {
    var countries := map["xx" := "XX"];
    assert Upper("xx") == "XX";
  }

  /** The lookup is not normalised: an upper-case code misses its lower-case key. */
  lemma CountryNameNotNormalized()
    ensures CountryName(map["de" := "Germany"], "DE") == "DE"
  {
    assert Upper("DE") == "DE";
  }

  /** `get_stores(code)`: the table's stores whose country is `code` lower-cased and stripped, in table order. */
  function StoresFor(table: seq<StoreRec>, code: string): (r: seq<Store>)
    ensures |r| <= |table|
    ensures forall s :: s in r ==> s.countryCode == Normalize(code)
  {
    if table == [] then []
    else
      (if table[0].countryCode == Normalize(code) then [ToStore(table[0])] else [])
      + StoresFor(table[1..], code)
  }

  /** A store is returned exactly when some table row of the requested country gives it. */
  lemma {:induction false} StoresForMember(table: seq<StoreRec>, code: string, s: Store)
    ensures s in StoresFor(table, code)
        <==> exists i :: 0 <= i < |table| && table[i].countryCode == Normalize(code) && s == ToStore(table[i])
  {
    if table != [] {
      StoresForMember(table[1..], code, s);
      if exists i :: 0 <= i < |table| && table[i].countryCode == Normalize(code) && s == ToStore(table[i]) {
        var i :| 0 <= i < |table| && table[i].countryCode == Normalize(code) && s == ToStore(table[i]);
        if i > 0 { assert table[1..][i - 1] == table[i]; }
      }
      if exists i :: 0 <= i < |table[1..]| && table[1..][i].countryCode == Normalize(code) && s == ToStore(table[1..][i]) {
        var i :| 0 <= i < |table[1..]| && table[1..][i].countryCode == Normalize(code) && s == ToStore(table[1..][i]);
        assert table[i + 1] == table[1..][i];
      }
    }
  }

  /** Table order is kept: the stores of a concatenated table are those of its parts, in turn. */
  lemma {:induction false} StoresForAppend(a: seq<StoreRec>, b: seq<StoreRec>, code: string)
    ensures StoresFor(a + b, code) == StoresFor(a, code) + StoresFor(b, code)
  {
    if a != [] {
      assert (a + b)[1..] == a[1..] + b;
      StoresForAppend(a[1..], b, code);
    } else {
      assert a + b == b;
    }
  }

  /** `{s.bu_code: s for s in stores}`: every code maps to a store carrying it. */
  function StoreLookup(stores: seq<Store>): (m: map<string, Store>)
    ensures forall k :: k in m <==> exists i :: 0 <= i < |stores| && stores[i].buCode == k
    ensures forall k :: k in m ==> m[k].buCode == k && m[k] in stores
  {
    if stores == [] then map[]
    else
      var init := stores[..|stores| - 1];
      var last := stores[|stores| - 1];
      var m := StoreLookup(init);
      assert stores == init + [last];
      assert forall i :: 0 <= i < |init| ==> init[i] == stores[i];
      m[last.buCode := last]
  }

  /** With duplicate codes, the last store in the table wins. */
  lemma {:induction false} StoreLookupLastWins(stores: seq<Store>, i: nat)
    requires i < |stores|
    requires forall j :: i < j < |stores| ==> stores[j].buCode != stores[i].buCode
    ensures StoreLookup(stores)[stores[i].buCode] == stores[i]
  {
    if i < |stores| - 1 {
      var init := stores[..|stores| - 1];
      assert init[i] == stores[i];
      StoreLookupLastWins(init, i);
    }
  }

  // =====================================================================
  // The availability response
  // =====================================================================

  /**
   * The value of `buyingOption.cashCarry.availability`: either `{}`, which
   * Python treats as false, or a non-empty object. A field is `None` when it
   * is missing; a null `quantity` is `None` too, since `or 0` treats both
   * alike.
   */
  datatype AvailBlock =
    | EmptyBlock
    | Block(quantity: Option<int>, messageType: Option<string>, updateDateTime: Option<string>)

  /**
   * One element of `availabilities`, with the fields the client reads:
   * `classUnitKey.classUnitType`, `classUnitKey.classUnitCode`,
   * `itemKey.itemNo`, the truthiness of `availableForCashCarry`, and the
   * availability block (`None` when any object on the way is missing). A
   * string field is `None` when it is missing and is then read as the
   * `.get` default.
   */
  datatype Entry = Entry(
    classUnitType: Option<string>,
    classUnitCode: Option<string>,
    itemNo: Option<string>,
    availableForCashCarry: bool,
    availability: Option<AvailBlock>)

  /** The parsed body; `availabilities` is `None` when it is missing or not a list. */
  datatype Body = Body(availabilities: Option<seq<Entry>>)

  /** The `ValueError` raised for a body of the wrong shape. */
  datatype ApiError = UnexpectedStructure

  /** The store code of an entry, `""` when missing. */
  function StoreCode(e: Entry): string {
    e.classUnitCode.GetOr("")
  }

  /** The entry is of store type and names a store of the requested country. */
  predicate Resolves(e: Entry, lookup: map<string, Store>) {
    e.classUnitType == Some("STO") && StoreCode(e) in lookup
  }

  /**
   * `updated_at` after the reformatting step: a missing time stays `None`,
   * the empty string is kept, and a time that `parseIso` rejects is kept
   * verbatim instead of failing the call.
   */
  function FormatUpdated(raw: Option<string>, parseIso: string -> Option<string>): (r: Option<string>)
    ensures r.None? <==> raw.None?
    ensures raw.Some? && r.Some? && r.value != raw.value ==> raw.value != "" && parseIso(raw.value) == Some(r.value)
    ensures raw.Some? && raw.value != "" && parseIso(raw.value).Some? ==> r == parseIso(raw.value)
  {
    match raw
    case None => None
    case Some(s) => if s == "" then Some(s) else Some(parseIso(s).GetOr(s))
  }

  /** The record the client builds for an entry that resolved to `store`. */
  function ToStockInfo(e: Entry, store: Store, parseIso: string -> Option<string>): (x: StockInfo)
    ensures x.productId == e.itemNo.GetOr("") && x.buCode == StoreCode(e)
    ensures x.storeName == store.name && x.countryCode == store.countryCode && x.country == store.country
    ensures x.stock != 0 ==> e.availableForCashCarry && e.availability.Some? && e.availability.value.Block?
                             && e.availability.value.quantity == Some(x.stock)
    ensures x.probability != "" ==> e.availableForCashCarry && e.availability.Some? && e.availability.value.Block?
                                    && e.availability.value.messageType == Some(x.probability)
    ensures x.updatedAt != Some("") ==> e.availableForCashCarry && e.availability.Some? && e.availability.value.Block?
  {
    var avail := if e.availableForCashCarry then e.availability.GetOr(EmptyBlock) else EmptyBlock;
    var stock := if avail.Block? then avail.quantity.GetOr(0) else 0;
    var probability := if avail.Block? then avail.messageType.GetOr("") else "";
    var updatedAt := if avail.Block? then FormatUpdated(avail.updateDateTime, parseIso) else Some("");
    StockInfo(e.itemNo.GetOr(""), StoreCode(e), store.name, store.countryCode, store.country,
              stock, probability, updatedAt)
  }

  /**
   * A cash & carry entry with a non-empty availability block takes its
   * quantity (0 when null or missing), its message type and its reformatted
   * update time from that block.
   */
  lemma BlockFieldsRead(e: Entry, store: Store, parseIso: string -> Option<string>)
    requires e.availableForCashCarry && e.availability.Some? && e.availability.value.Block?
    ensures var x := ToStockInfo(e, store, parseIso);
      && x.stock == e.availability.value.quantity.GetOr(0)
      && x.probability == e.availability.value.messageType.GetOr("")
      && x.updatedAt == FormatUpdated(e.availability.value.updateDateTime, parseIso)
  {
  }

  /** The record for a resolving entry, from the store its code looks up. */
  function RecordFor(e: Entry, lookup: map<string, Store>, parseIso: string -> Option<string>): StockInfo
    requires Resolves(e, lookup)
  {
    ToStockInfo(e, lookup[StoreCode(e)], parseIso)
  }

  /** The records of the resolving entries, in entry order. */
  function Project(es: seq<Entry>, lookup: map<string, Store>, parseIso: string -> Option<string>): (r: seq<StockInfo>)
    ensures |r| <= |es|
  {
    if es == [] then []
    else
      var e := es[|es| - 1];
      Project(es[..|es| - 1], lookup, parseIso)
      + (if Resolves(e, lookup) then [RecordFor(e, lookup, parseIso)] else [])
  }

  /** Projecting one more entry appends its record when it resolves. */
  lemma ProjectSnoc(es: seq<Entry>, e: Entry, lookup: map<string, Store>, parseIso: string -> Option<string>)
    ensures Project(es + [e], lookup, parseIso)
         == Project(es, lookup, parseIso) + (if Resolves(e, lookup) then [RecordFor(e, lookup, parseIso)] else [])
  {
    assert (es + [e])[..|es|] == es;
  }

  /** A record is produced exactly when some entry resolves and yields it. */
  lemma {:induction false} ProjectMember(es: seq<Entry>, lookup: map<string, Store>,
                                         parseIso: string -> Option<string>, x: StockInfo)
    ensures x in Project(es, lookup, parseIso)
        <==> exists i :: 0 <= i < |es| && Resolves(es[i], lookup) && x == RecordFor(es[i], lookup, parseIso)
  {
    if es != [] {
      var init := es[..|es| - 1];
      ProjectMember(init, lookup, parseIso, x);
      assert forall i :: 0 <= i < |init| ==> init[i] == es[i];
      if exists i :: 0 <= i < |es| && Resolves(es[i], lookup) && x == RecordFor(es[i], lookup, parseIso) {
        var i :| 0 <= i < |es| && Resolves(es[i], lookup) && x == RecordFor(es[i], lookup, parseIso);
        if i < |init| { assert Resolves(init[i], lookup) && x == RecordFor(init[i], lookup, parseIso); }
      }
    }
  }

  /** `bu_code` given and non-empty: Python's truthiness of the optional filter. */
  predicate Truthy(s: Option<string>) {
    s.Some? && s.value != ""
  }

  /** `[r for r in results if r.bu_code == code]`. */
  function KeepStore(rs: seq<StockInfo>, code: string): (r: seq<StockInfo>)
    ensures forall x :: x in r <==> x in rs && x.buCode == code
    ensures multiset(r) <= multiset(rs)
    ensures |r| <= |rs|
  {
    if rs == [] then []
    else
      assert rs == [rs[0]] + rs[1..];
      (if rs[0].buCode == code then [rs[0]] else []) + KeepStore(rs[1..], code)
  }

  /** Every record of the store is kept as often as it occurs, and no other record is. */
  lemma {:induction false} KeepStoreCount(rs: seq<StockInfo>, code: string, x: StockInfo)
    ensures multiset(KeepStore(rs, code))[x] == if x.buCode == code then multiset(rs)[x] else 0
  {
    if rs != [] {
      var h := if rs[0].buCode == code then [rs[0]] else [];
      KeepStoreCount(rs[1..], code, x);
      assert rs == [rs[0]] + rs[1..];
      assert KeepStore(rs, code) == h + KeepStore(rs[1..], code);
      assert multiset(KeepStore(rs, code)) == multiset(h) + multiset(KeepStore(rs[1..], code));
      assert multiset(rs) == multiset{rs[0]} + multiset(rs[1..]);
    }
  }

  lemma AppendAssociative<T>(x: seq<T>, y: seq<T>, z: seq<T>)
    ensures x + (y + z) == (x + y) + z
  {
  }

  /** Filtering keeps input order: the records kept from a concatenation are those kept from its parts, in turn. */
  lemma {:induction false} KeepStoreAppend(a: seq<StockInfo>, b: seq<StockInfo>, code: string)
    ensures KeepStore(a + b, code) == KeepStore(a, code) + KeepStore(b, code)
  {
    if a != [] {
      var h := if a[0].buCode == code then [a[0]] else [];
      var ka, kb := KeepStore(a[1..], code), KeepStore(b, code);
      assert (a + b)[0] == a[0] && (a + b)[1..] == a[1..] + b;
      assert KeepStore(a + b, code) == h + KeepStore(a[1..] + b, code);
      assert KeepStore(a, code) == h + ka;
      KeepStoreAppend(a[1..], b, code);
      AppendAssociative(h, ka, kb);
    } else {
      assert a + b == b;
    }
  }

  /** The sort key `(store_name, product_id)`. */
  function StockKey(x: StockInfo): Key {
    (x.storeName, x.productId)
  }

  /** The records before sorting: projected, then narrowed to the store filter when it is truthy. */
  function Filtered(stores: seq<StoreRec>, countryCode: string, es: seq<Entry>, buCode: Option<string>,
                    parseIso: string -> Option<string>): (r: seq<StockInfo>)
    ensures |r| <= |es|
    ensures Truthy(buCode) ==> forall x :: x in r ==> x.buCode == buCode.value
  {
    var rs := Project(es, StoreLookup(StoresFor(stores, Normalize(countryCode))), parseIso);
    if Truthy(buCode) then KeepStore(rs, buCode.value) else rs
  }

  /** What `check_availability` returns for a parsed body. */
  function Availability(stores: seq<StoreRec>, countryCode: string, body: Body, buCode: Option<string>,
                        parseIso: string -> Option<string>): (r: Result<seq<StockInfo>, ApiError>)
    ensures r.Failure? <==> body.availabilities.None?
  {
    match body.availabilities
    case None => Failure(UnexpectedStructure)
    case Some(es) => Success(SortBy(Filtered(stores, countryCode, es, buCode, parseIso), StockKey))
  }

  /**
   * The body of the loop in `check_availability` once an entry has resolved
   * to `store`: start from stock 0, no probability and an empty time, and
   * overwrite them from a non-empty availability block when the entry is
   * available for cash & carry.
   */
  method BuildRecord(item: Entry, store: Store, parseIso: string -> Option<string>) returns (record: StockInfo)
    ensures record == ToStockInfo(item, store, parseIso)
  {
    var productId := item.itemNo.GetOr("");
    var stock := 0;
    var probability := "";
    var updatedAt: Option<string> := Some("");
    if item.availableForCashCarry {
      var avail := item.availability.GetOr(EmptyBlock);
      if avail.Block? {
        stock := avail.quantity.GetOr(0);
        probability := avail.messageType.GetOr("");
        updatedAt := avail.updateDateTime;
        if updatedAt.Some? && updatedAt.value != "" {
          var parsed := parseIso(updatedAt.value);
          if parsed.Some? {
            updatedAt := parsed;
          }
        }
      }
    }
    record := StockInfo(productId, StoreCode(item), store.name, store.countryCode, store.country,
                        stock, probability, updatedAt);
  }

  /**
   * `check_availability` from the parsed body on: reject a body without an
   * `availabilities` list, build the store lookup, keep the store-type
   * entries that resolve, fill the defaults, apply the store filter and
   * sort by `(store_name, product_id)`.
   */
  method CheckAvailability(stores: seq<StoreRec>, countryCode: string, body: Body, buCode: Option<string>,
                           parseIso: string -> Option<string>)
    returns (r: Result<seq<StockInfo>, ApiError>)
    ensures r == Availability(stores, countryCode, body, buCode, parseIso)
  {
    var cc := Normalize(countryCode);
    if body.availabilities.None? {
      return Failure(UnexpectedStructure);
    }
    var storeLookup := StoreLookup(StoresFor(stores, cc));
    var results := ProjectEntries(body.availabilities.value, storeLookup, parseIso);
    if Truthy(buCode) {
      results := KeepStore(results, buCode.value);
    }
    results := SortBy(results, StockKey);
    return Success(results);
  }

  /**
   * The loop of `check_availability`: skip entries that are not of store
   * type or whose code is not in the lookup, and append the record of every
   * other entry.
   */
  method ProjectEntries(entries: seq<Entry>, storeLookup: map<string, Store>, parseIso: string -> Option<string>)
    returns (results: seq<StockInfo>)
    ensures results == Project(entries, storeLookup, parseIso)
  {
    results := [];
    for i := 0 to |entries|
      invariant results == Project(entries[..i], storeLookup, parseIso)
    {
      var item := entries[i];
      assert entries[..i + 1] == entries[..i] + [item];
      ProjectSnoc(entries[..i], item, storeLookup, parseIso);
      if item.classUnitType != Some("STO") {
        continue;
      }
      var storeCode := item.classUnitCode.GetOr("");
      if storeCode !in storeLookup {
        continue;
      }
      var record := BuildRecord(item, storeLookup[storeCode], parseIso);
      results := results + [record];
    }
    assert entries[..|entries|] == entries;
  }

  // =====================================================================
  // What the result promises
  // =====================================================================

  /** Never more records than entries in the body. */
  lemma AvailabilityBounded(stores: seq<StoreRec>, countryCode: string, body: Body, buCode: Option<string>,
                            parseIso: string -> Option<string>)
    requires body.availabilities.Some?
    ensures |Availability(stores, countryCode, body, buCode, parseIso).value| <= |body.availabilities.value|
  {
  }

  /** The result is the stable sort of the filtered records by `(store_name, product_id)`. */
  lemma AvailabilitySorted(stores: seq<StoreRec>, countryCode: string, body: Body, buCode: Option<string>,
                           parseIso: string -> Option<string>)
    requires body.availabilities.Some?
    ensures var out := Availability(stores, countryCode, body, buCode, parseIso).value;
      var filtered := Filtered(stores, countryCode, body.availabilities.value, buCode, parseIso);
      && SortedBy(out, StockKey)
      && multiset(out) == multiset(filtered)
      && StablySorted(out, filtered, StockKey)
  {
    SortByIsStablySorted(Filtered(stores, countryCode, body.availabilities.value, buCode, parseIso), StockKey);
  }

  /**
   * With a truthy store filter every record is of that store. That an absent
   * or empty filter keeps every store is `AvailabilityComplete`.
   */
  lemma AvailabilityFiltered(stores: seq<StoreRec>, countryCode: string, body: Body, buCode: Option<string>,
                             parseIso: string -> Option<string>)
    requires body.availabilities.Some?
    ensures var out := Availability(stores, countryCode, body, buCode, parseIso).value;
      Truthy(buCode) ==> forall x :: x in out ==> x.buCode == buCode.value
  {
    var filtered := Filtered(stores, countryCode, body.availabilities.value, buCode, parseIso);
    var out := SortBy(filtered, StockKey);
    forall x | x in out ensures x in filtered {
      assert x in multiset(out);
    }
  }

  /**
   * Every record comes from a store-type entry whose code names a store of
   * the requested country: its `bu_code` is the entry's code, its store
   * fields are that store's, and its product id is the entry's item number
   * (`""` when missing).
   */
  lemma AvailabilityProvenance(stores: seq<StoreRec>, countryCode: string, body: Body, buCode: Option<string>,
                               parseIso: string -> Option<string>, x: StockInfo)
    requires body.availabilities.Some?
    requires x in Availability(stores, countryCode, body, buCode, parseIso).value
    ensures exists i, s ::
      && 0 <= i < |body.availabilities.value|
      && var e := body.availabilities.value[i];
      && e.classUnitType == Some("STO")
      && s in StoresFor(stores, Normalize(countryCode))
      && s.buCode == StoreCode(e) == x.buCode
      && x.storeName == s.name && x.countryCode == s.countryCode && x.country == s.country
      && x.productId == e.itemNo.GetOr("")
      && x == ToStockInfo(e, s, parseIso)
  {
    var es := body.availabilities.value;
    var lookup := StoreLookup(StoresFor(stores, Normalize(countryCode)));
    var rs := Project(es, lookup, parseIso);
    var filtered := Filtered(stores, countryCode, es, buCode, parseIso);
    assert x in multiset(SortBy(filtered, StockKey));
    assert x in rs;
    ProjectMember(es, lookup, parseIso, x);
    var i :| 0 <= i < |es| && Resolves(es[i], lookup) && x == RecordFor(es[i], lookup, parseIso);
    var s := lookup[StoreCode(es[i])];
    assert s in StoresFor(stores, Normalize(countryCode));
  }

  /** Every store-type entry that resolves, and passes the filter, has its record in the result. */
  lemma AvailabilityComplete(stores: seq<StoreRec>, countryCode: string, body: Body, buCode: Option<string>,
                             parseIso: string -> Option<string>, i: nat)
    requires body.availabilities.Some? && i < |body.availabilities.value|
    requires Resolves(body.availabilities.value[i], StoreLookup(StoresFor(stores, Normalize(countryCode))))
    requires Truthy(buCode) ==> StoreCode(body.availabilities.value[i]) == buCode.value
    ensures RecordFor(body.availabilities.value[i], StoreLookup(StoresFor(stores, Normalize(countryCode))), parseIso)
            in Availability(stores, countryCode, body, buCode, parseIso).value
  {
    var es := body.availabilities.value;
    var lookup := StoreLookup(StoresFor(stores, Normalize(countryCode)));
    var x := RecordFor(es[i], lookup, parseIso);
    var rs := Project(es, lookup, parseIso);
    ProjectMember(es, lookup, parseIso, x);
    assert x in rs;
    var filtered := Filtered(stores, countryCode, es, buCode, parseIso);
    assert x.buCode == StoreCode(es[i]);
    assert x in filtered;
    assert x in multiset(filtered);
  }

  /** A body without an `availabilities` list fails and yields no records. */
  lemma AvailabilityRejectsMalformed(stores: seq<StoreRec>, countryCode: string, buCode: Option<string>,
                                     parseIso: string -> Option<string>)
    ensures Availability(stores, countryCode, Body(None), buCode, parseIso) == Failure(UnexpectedStructure)
  {
  }

  // ---------------------------------------------------------------------
  // Defaults of a single record
  // ---------------------------------------------------------------------

  /** Not available for cash & carry, or no (or an empty) availability block: stock 0, no probability, empty time. */
  lemma DefaultsWithoutAvailability(e: Entry, store: Store, parseIso: string -> Option<string>)
    requires !e.availableForCashCarry || e.availability.None? || e.availability == Some(EmptyBlock)
    ensures var x := ToStockInfo(e, store, parseIso);
      x.stock == 0 && x.probability == "" && x.updatedAt == Some("")
  {
  }

  /** A null or missing quantity reads as stock 0. */
  lemma MissingQuantityIsZero(e: Entry, store: Store, parseIso: string -> Option<string>)
    requires e.availability.Some? && e.availability.value.Block? && e.availability.value.quantity.None?
    ensures ToStockInfo(e, store, parseIso).stock == 0
  {
  }

  /** A present block without an update time leaves `updated_at` as `None`. */
  lemma MissingUpdateTimeIsNone(e: Entry, store: Store, parseIso: string -> Option<string>)
    requires e.availableForCashCarry
    requires e.availability.Some? && e.availability.value.Block? && e.availability.value.updateDateTime.None?
    ensures ToStockInfo(e, store, parseIso).updatedAt.None?
  {
  }

  /** A non-empty update time that does not parse is kept verbatim. */
  lemma UnparsedTimeKept(e: Entry, store: Store, parseIso: string -> Option<string>, t: string)
    requires e.availableForCashCarry
    requires e.availability.Some? && e.availability.value.Block? && e.availability.value.updateDateTime == Some(t)
    requires t != "" && parseIso(t).None?
    ensures ToStockInfo(e, store, parseIso).updatedAt == Some(t)
  {
  }

  /** The quantity is kept even when the message says out of stock; only the display shows 0. */
  lemma OutOfStockKeepsQuantity(e: Entry, store: Store, parseIso: string -> Option<string>, q: int, t: Option<string>)
    requires e.availableForCashCarry
    requires e.availability == Some(Block(Some(q), Some("OUT_OF_STOCK"), t))
    ensures ToStockInfo(e, store, parseIso).stock == q
    ensures ToStockInfo(e, store, parseIso).probability == "OUT_OF_STOCK"
  {
  }

  /** One store-type entry resolving to a German store, with quantity 5 and high stock, gives one record. */
  lemma ScenarioOneStore(parseIso: string -> Option<string>)
    ensures var stores := [StoreRec("148", "Berlin-Lichtenberg", "de", Some("Germany"), None)];
      var e := Entry(Some("STO"), Some("148"), Some("40299687"), true, Some(Block(Some(5), Some("HIGH_IN_STOCK"), None)));
      Availability(stores, "de", Body(Some([e])), None, parseIso)
        == Success([StockInfo("40299687", "148", "Berlin-Lichtenberg", "de", "Germany", 5, "HIGH_IN_STOCK", None)])
  {
    var stores := [StoreRec("148", "Berlin-Lichtenberg", "de", Some("Germany"), None)];
    var e := Entry(Some("STO"), Some("148"), Some("40299687"), true, Some(Block(Some(5), Some("HIGH_IN_STOCK"), None)));
    var store := Store("148", "Berlin-Lichtenberg", "de", "Germany", []);
    var x := StockInfo("40299687", "148", "Berlin-Lichtenberg", "de", "Germany", 5, "HIGH_IN_STOCK", None);
    LowerIdentity("de");
    StripIdentity("de");
    assert StoresFor(stores, "de") == [store];
    assert StoreLookup([store]) == map["148" := store];
    assert ToStockInfo(e, store, parseIso) == x;
    assert [e][..0] == [];
    assert Project([e], map["148" := store], parseIso) == [x];
    assert Filtered(stores, "de", [e], None, parseIso) == [x];
    assert SortBy([x], StockKey) == [x];
  }

  /** The same entry with another class unit type gives no record. */
  lemma ScenarioNotAStore(parseIso: string -> Option<string>)
    ensures var stores := [StoreRec("148", "Berlin-Lichtenberg", "de", Some("Germany"), None)];
      var e := Entry(Some("RU"), Some("148"), Some("40299687"), true, Some(Block(Some(5), Some("HIGH_IN_STOCK"), None)));
      Availability(stores, "de", Body(Some([e])), None, parseIso) == Success([])
  {
  }
}
