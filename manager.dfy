/** The object-oriented version of the pipeline: `InventoryManager` keeps the merged records
    in its `inventory` field, and its methods merge into that field, sort, write the four
    reports and answer queries. */
module Manager {
  import opened Wrappers
  import opened Seqs
  import opened Text
  import opened Dates
  import opened Records
  import opened Merging
  import opened Sorting
  import opened Reports
  import opened Matching
  import InventoryScript

  /** The selection loop of both searches: walk the entries in order, skip those the screen
      rejects, read the date of the others (`KeyError` when there is no `'ServiceDate'` key,
      `TypeError` when it is `None`) and keep those dated after `now`. */
  method SelectEligible(es: seq<Entry>, screen: Screen, now: Moment) returns (r: Result<seq<Entry>, Fault>)
    ensures r == Select(es, screen, now)
  {
    var kept := [];
    var i := 0;
    while i < |es|
      invariant 0 <= i <= |es|
      invariant Select(es[..i], screen, now) == Success(kept)
    {
      var e := es[i];
      assert es[..i + 1][..i] == es[..i];
      if screen(e) {
        var future := InFuture(e.1, now);
        if future.Failure? {
          SelectFailureSticks(es, screen, now, i + 1);
          return Failure(future.error);
        }
        if future.value {
          kept := kept + [e];
        }
      }
      i := i + 1;
    }
    assert es[..i] == es;
    return Success(kept);
  }

  /** The arg-max loop of `find_best_match`: start from the first match and move to any later
      one whose price is strictly greater; a match without a price raises `KeyError`. */
  method Dearest(ms: seq<Entry>) returns (r: Result<Entry, Fault>)
    requires ms != []
    ensures r == ArgMaxPrice(ms)
  {
    var best := ms[0];
    var i := 0;
    while i < |ms|
      invariant 0 <= i <= |ms|
      invariant i == 0 ==> best == ms[0]
      invariant i > 0 ==> ArgMaxPrice(ms[..i]) == Success(best)
    {
      var item := ms[i];
      if item.1.price.None? {
        assert !AllPriced(ms);
        return Failure(KeyError);
      }
      assert ms[..i + 1][..i] == ms[..i];
      if i == 0 {
        assert ms[..1] == [ms[0]];
      }
      if PriceOf(item) > PriceOf(best) {
        best := item;
      }
      i := i + 1;
    }
    assert ms[..i] == ms;
    return Success(best);
  }

  /** The arg-min loop of `find_closest_alternative`: `min_price_diff` starts as `None` and
      an item replaces the closest so far only when strictly closer to `price`; a candidate
      without a price raises `KeyError`. */
  method Closest(alts: seq<Entry>, price: int) returns (r: Result<Option<Entry>, Fault>)
    ensures r == ArgMinDistance(alts, price)
  {
    var closest: Option<Entry> := None;
    var minDiff: Option<nat> := None;
    var i := 0;
    while i < |alts|
      invariant 0 <= i <= |alts|
      invariant ArgMinDistance(alts[..i], price) == Success(closest)
      invariant minDiff.None? <==> closest.None?
      invariant closest.Some? ==> closest.value.1.price.Some? && minDiff == Some(Distance(closest.value, price))
    {
      var item := alts[i];
      if item.1.price.None? {
        assert !AllPriced(alts);
        return Failure(KeyError);
      }
      assert alts[..i + 1][..i] == alts[..i];
      var diff := Distance(item, price);
      if minDiff.None? || diff < minDiff.value {
        minDiff := Some(diff);
        closest := Some(item);
      }
      i := i + 1;
    }
    assert alts[..i] == alts;
    return Success(closest);
  }

  /** The lower-cased manufacturer (`ofMaker`) or item type of a record. */
  function Name(r: Record, ofMaker: bool): string
  {
    Lower(if ofMaker then r.manufacturer else r.itemType)
  }

  /** How the recognised names grow with one more word: a name not yet recognised is added
      at the end, anything else leaves them as they were. */
  lemma RecognizedStep(words: seq<string>, i: nat, names: set<string>)
    requires i < |words|
    ensures var w, r := words[i], Recognized(words[..i], names);
      Recognized(words[..i + 1], names) == if w in r || w !in names then r else r + [w]
  {
    var w := words[i];
    var p := (x: string) => x in names;
    assert words[..i + 1] == words[..i] + [w];
    FilterSnoc(words[..i], w, p);
    var f := Filter(words[..i], p);
    if w in names {
      DedupSnoc(f, w);
    } else {
      assert Filter(words[..i + 1], p) == f;
    }
  }

  /** Any reordering of a store's damaged entries holds what the script's damaged report
      holds, and every entry of it can be printed. */
  lemma DamagedReordered(s: Store, listed: seq<Entry>)
    requires Valid(s) && DamagedPrintable(s)
    requires multiset(listed) == multiset(Filter(Entries(s), IsDamaged))
    ensures multiset(listed) == multiset(DamagedReport(s))
    ensures forall e :: e in listed ==> Printable(e.1)
  {
    InventoryScript.DamagedEntries(s);
    DamagedReportSpec(s, 0);
    forall e | e in listed ensures Printable(e.1) {
      assert e in multiset(DamagedReport(s));
    }
  }

  class InventoryManager {
    /** `self.inventory`: the merged records. */
    var inventory: Store

    ghost predicate Valid()
      reads this
    {
      Records.Valid(inventory)
    }

    /** `__init__`: an empty inventory. */
    constructor ()
      ensures Valid() && inventory == Empty()
    {
      inventory := Empty();
    }

    /** `process_inventory`: the three loops merge the tables into the current inventory.
        When a row raises, the tables merged before it stay merged. */
    method ProcessInventory(manufacturers: seq<Row>, prices: seq<Row>, dates: seq<Row>)
      returns (raised: Option<MergeError>)
      requires Valid()
      modifies this
      ensures Valid()
      ensures raised.None? <==> Merge(old(inventory), manufacturers, prices, dates).Success?
      ensures raised.None? ==> inventory == Merge(old(inventory), manufacturers, prices, dates).value
      ensures raised.Some? ==> raised.value == Merge(old(inventory), manufacturers, prices, dates).error
    {
      var r := LoadManufacturers(inventory, manufacturers);
      if r.Failure? {
        return Some(r.error);
      }
      inventory := r.value;
      r := LoadPrices(inventory, prices);
      if r.Failure? {
        return Some(r.error);
      }
      inventory := r.value;
      r := LoadDates(inventory, dates);
      if r.Failure? {
        return Some(r.error);
      }
      inventory := r.value;
      return None;
    }

    /** `sort_by_manufacturer`: the item ids, each once, manufacturers ascending. Its body is
        the script's `SortByTheManufacturer`. */
    method SortByManufacturer() returns (ids: seq<string>)
      requires Valid()
      ensures multiset(ids) == multiset(inventory.ids)
      ensures forall k :: 0 <= k < |ids| ==> ids[k] in inventory.items
      ensures forall p, q :: 0 <= p < q < |ids| ==>
        !Less(inventory.items[ids[q]].manufacturer, inventory.items[ids[p]].manufacturer)
    {
      ids := InventoryScript.SortByTheManufacturer(inventory);
    }

    /** `sort_by_item_id`: the list reordered in place by ascending item id. */
    method SortByItemId(items: array<Entry>)
      modifies items
      ensures multiset(items[..]) == multiset(old(items[..]))
      ensures forall p, q :: 0 <= p < q < items.Length ==> !Less(items[q].0, items[p].0)
    {
      InventoryScript.SortByItemID(items);
    }

    /** `sort_by_service_date`: the list reordered in place from the oldest date; comparing
        a missing date raises as soon as there are two entries. */
    method SortByServiceDate(items: array<Entry>)
      requires items.Length > 1 ==> forall k :: 0 <= k < items.Length ==> items[k].1.serviceDate.On?
      modifies items
      ensures multiset(items[..]) == multiset(old(items[..]))
      ensures forall p, q :: 0 <= p < q < items.Length && items[p].1.serviceDate.On? && items[q].1.serviceDate.On? ==>
        !Before(items[q].1.serviceDate.date, items[p].1.serviceDate.date)
    {
      InventoryScript.SortByTheServiceDate(items);
    }

    /** `full_inventory`: one line per item in manufacturer order, with the item type
        column. */
    method FullInventory() returns (lines: seq<string>, ghost order: seq<string>)
      requires Valid() && AllPrintable(inventory)
      ensures multiset(order) == multiset(inventory.ids)
      ensures forall k :: 0 <= k < |order| ==> order[k] in inventory.items
      ensures forall p, q :: 0 <= p < q < |order| ==>
        !Less(inventory.items[order[q]].manufacturer, inventory.items[order[p]].manufacturer)
      ensures |lines| == |order|
      ensures forall k :: 0 <= k < |order| ==> lines[k] == FullLine((order[k], inventory.items[order[k]]))
    {
      var sorted := SortByManufacturer();
      order := sorted;
      lines := [];
      var k := 0;
      while k < |sorted|
        invariant 0 <= k <= |sorted|
        invariant |lines| == k
        invariant forall j :: 0 <= j < k ==> lines[j] == FullLine((sorted[j], inventory.items[sorted[j]]))
      {
        var id := sorted[k];
        lines := lines + [FullLine((id, inventory.items[id]))];
        k := k + 1;
      }
    }

    /** `item_type_inventory`: one file per item type, in order of first appearance, listing
        that type's items by ascending id. Its body is the script's `ItemTypeInventory`. */
    method ItemTypeInventory() returns (files: seq<(string, seq<string>)>, ghost listed: seq<seq<Entry>>)
      requires Valid() && AllPrintable(inventory)
      ensures |files| == |listed| == |ItemTypes(inventory)|
      ensures forall k :: 0 <= k < |files| ==>
        && files[k].0 == FileName(ItemTypes(inventory)[k])
        && InventoryScript.ListedById(files[k].1, listed[k], Filter(Entries(inventory), HasType(ItemTypes(inventory)[k])))
    {
      files, listed := InventoryScript.ItemTypeInventory(inventory);
    }

    /** `past_service_date_inventory`: the dated entries sorted from the oldest date, of
        which those dated before `now` are written, without the damage note. Both the
        comparison with `now` and the sort fail on a `None` date. */
    method PastServiceDateInventory(now: Moment) returns (lines: seq<string>, ghost order: seq<Entry>, ghost shown: seq<Entry>)
      requires Valid() && NoBlankDates(inventory)
      ensures multiset(order) == multiset(Filter(Entries(inventory), HasDate))
      ensures SortedBy(order, DateAfter())
      ensures shown == Filter(order, IsPastAt(now))
      ensures multiset(shown) == multiset(Filter(Entries(inventory), IsPastAt(now)))
      ensures SortedBy(shown, DateAfter())
      ensures |lines| == |shown|
      ensures forall k :: 0 <= k < |shown| ==> shown[k].1.serviceDate.On? && WellFormed(shown[k].1)
      ensures forall k :: 0 <= k < |shown| ==> lines[k] == PastLine(shown[k], false)
    {
      var es := Entries(inventory);
      var dated := Collect(es, HasDate);
      InventoryScript.DatedEntries(inventory);
      var a := ToArray(dated);
      SortByServiceDate(a);
      var sorted := a[..];
      InventoryScript.DatedSorted(dated, sorted);
      lines, shown := InventoryScript.WritePast(sorted, now, false);
      order := sorted;
      FilterKeepsSorted(sorted, DateAfter(), IsPastAt(now));
      PastSelection(inventory, sorted, now);
    }

    /** `damaged_inventory`: the damaged entries put in descending price order (0 for a
        missing price) by the exchange loop, one line each. The loop is not stable, so equal
        prices may come out in another order than the script's `list.sort` gives them. */
    method DamagedInventory() returns (lines: seq<string>, ghost listed: seq<Entry>)
      requires Valid() && DamagedPrintable(inventory)
      ensures multiset(listed) == multiset(Filter(Entries(inventory), IsDamaged))
      ensures multiset(listed) == multiset(DamagedReport(inventory))
      ensures Descending(listed, PriceKey)
      ensures |lines| == |listed|
      ensures forall k :: 0 <= k < |listed| ==> Printable(listed[k].1) && lines[k] == DamagedLine(listed[k])
    {
      var es := Entries(inventory);
      var damaged := Collect(es, IsDamaged);
      var a := ToArray(damaged);
      OrdersAreStrict(map[]);
      ExchangeSort(a, PriceBelow());
      var sorted := a[..];
      listed := sorted;
      assert forall p, q :: 0 <= p < q < |listed| ==> !PriceBelow()(listed[p], listed[q]);
      DamagedReordered(inventory, sorted);
      lines := InventoryScript.WriteDamaged(sorted);
    }

    /** `find_best_match(manufacturer, item_type)`: the eligible matches, then the first of
        greatest price, or `None` when nothing is eligible. */
    method FindBestMatch(manufacturer: string, itemType: string, now: Moment) returns (r: Result<Option<Entry>, Fault>)
      requires Valid()
      ensures r == BestMatch(inventory, manufacturer, itemType, now)
    {
      var matched := SelectEligible(Entries(inventory), BestCandidate(manufacturer, itemType), now);
      if matched.Failure? {
        return Failure(matched.error);
      }
      if matched.value == [] {
        return Success(None);
      }
      var best := Dearest(matched.value);
      if best.Failure? {
        return Failure(best.error);
      }
      return Success(Some(best.value));
    }

    /** `find_closest_alternative(selected_item_id, item_type, selected_price)`: the eligible
        items of the type other than the selected one, then the first whose price is closest
        to `price`, or `None`. */
    method FindClosestAlternative(selectedId: string, itemType: string, price: int, now: Moment)
      returns (r: Result<Option<Entry>, Fault>)
      requires Valid()
      ensures r == ClosestAlternative(inventory, selectedId, itemType, price, now)
    {
      var alternatives := SelectEligible(Entries(inventory), AltCandidate(selectedId, itemType), now);
      if alternatives.Failure? {
        return Failure(alternatives.error);
      }
      r := Closest(alternatives.value, price);
    }

    /** The inner loop of `process_query` for one word: over the records in insertion order,
        the word is appended to `manufacturers` when it equals a lower-cased manufacturer and
        is not there yet, and likewise to `itemTypes` for item types. */
    method ScanWord(word: string, manufacturers: seq<string>, itemTypes: seq<string>)
      returns (ms: seq<string>, ts: seq<string>)
      requires Valid()
      ensures ms == if word in manufacturers || word !in ManufacturerNames(inventory) then manufacturers else manufacturers + [word]
      ensures ts == if word in itemTypes || word !in TypeNames(inventory) then itemTypes else itemTypes + [word]
    {
      ms, ts := manufacturers, itemTypes;
      var k := 0;
      while k < |inventory.ids|
        invariant 0 <= k <= |inventory.ids|
        invariant ms == if word in manufacturers || !NamedBefore(word, k, true) then manufacturers else manufacturers + [word]
        invariant ts == if word in itemTypes || !NamedBefore(word, k, false) then itemTypes else itemTypes + [word]
      {
        var item := inventory.items[inventory.ids[k]];
        if word == Lower(item.manufacturer) && word !in ms {
          ms := ms + [word];
        }
        if word == Lower(item.itemType) && word !in ts {
          ts := ts + [word];
        }
        k := k + 1;
      }
      NamedSomewhere(word);
    }

    /** One of the first `k` records has `word` as its lower-cased manufacturer (`ofMaker`) or
        item type. */
    ghost predicate NamedBefore(word: string, k: nat, ofMaker: bool)
      reads this
      requires Valid() && k <= |inventory.ids|
    {
      exists j :: 0 <= j < k && word == Name(inventory.items[inventory.ids[j]], ofMaker)
    }

    /** Some record names `word` exactly when it is among the store's names. */
    lemma NamedSomewhere(word: string)
      requires Valid()
      ensures NamedBefore(word, |inventory.ids|, true) <==> word in ManufacturerNames(inventory)
      ensures NamedBefore(word, |inventory.ids|, false) <==> word in TypeNames(inventory)
    {
      var s := inventory;
      if word in ManufacturerNames(s) {
        var id :| id in s.items && Lower(s.items[id].manufacturer) == word;
        var j :| 0 <= j < |s.ids| && s.ids[j] == id;
        assert word == Name(s.items[s.ids[j]], true);
      }
      if word in TypeNames(s) {
        var id :| id in s.items && Lower(s.items[id].itemType) == word;
        var j :| 0 <= j < |s.ids| && s.ids[j] == id;
        assert word == Name(s.items[s.ids[j]], false);
      }
    }

    /** The word loops of `process_query`: the manufacturers and item types the words name,
        each once, in the order the words first name them. */
    method RecognizeWords(words: seq<string>) returns (manufacturers: seq<string>, itemTypes: seq<string>)
      requires Valid()
      ensures manufacturers == Recognized(words, ManufacturerNames(inventory))
      ensures itemTypes == Recognized(words, TypeNames(inventory))
    {
      manufacturers, itemTypes := [], [];
      var i := 0;
      while i < |words|
        invariant 0 <= i <= |words|
        invariant manufacturers == Recognized(words[..i], ManufacturerNames(inventory))
        invariant itemTypes == Recognized(words[..i], TypeNames(inventory))
      {
        RecognizedStep(words, i, ManufacturerNames(inventory));
        RecognizedStep(words, i, TypeNames(inventory));
        manufacturers, itemTypes := ScanWord(words[i], manufacturers, itemTypes);
        i := i + 1;
      }
      assert words[..i] == words;
    }

    /** `process_query(user_input)`: what it prints, and the fault that ends it when a lookup
        raises. `bestNow` and `altNow` are the clock readings of the two searches. */
    method ProcessQuery(input: string, bestNow: Moment, altNow: Moment) returns (out: Printed)
      requires Valid()
      ensures out == QueryResponse(inventory, input, bestNow, altNow)
    {
      var words := Words(Lower(input));
      var manufacturers, itemTypes := RecognizeWords(words);
      if |manufacturers| != 1 || |itemTypes| != 1 {
        return Printed([NoSuchItem], None);
      }
      var manufacturer, itemType := manufacturers[0], itemTypes[0];
      var result := FindBestMatch(manufacturer, itemType, bestNow);
      if result.Failure? {
        return Printed([], Some(result.error));
      }
      if result.value.None? {
        return Printed([NoSuchItem], None);
      }
      var e := result.value.value;
      var first := ItemLine("Your item is: ", e);
      var alternative := FindClosestAlternative(e.0, itemType, PriceOf(e), altNow);
      if alternative.Failure? {
        return Printed([first], Some(alternative.error));
      }
      if alternative.value.None? {
        return Printed([first], None);
      }
      return Printed([first, ItemLine("You may, also, consider: ", alternative.value.value)], None);
    }
  }
}
