/** The procedural script: the three tables merged into a fresh inventory, the exchange sorts
    written out for each report, and the four reports, each given as the lines it writes to
    its file. */
module InventoryScript {
  import opened Wrappers
  import opened Seqs
  import opened Text
  import opened Dates
  import opened Records
  import opened Merging
  import opened Sorting
  import opened Reports

  /** `ProcessTheInventory`: the three loops over the manufacturer, price and service-date
      rows, starting from an empty inventory. The first row that lacks a field, holds a price
      `int()` rejects or a date `strptime` rejects ends the run with that error. */
  method ProcessTheInventory(manufacturers: seq<Row>, prices: seq<Row>, dates: seq<Row>)
    returns (r: Result<Store, MergeError>)
    ensures r == Merge(Empty(), manufacturers, prices, dates)
    ensures r.Success? ==> Valid(r.value)
  {
    r := LoadManufacturers(Empty(), manufacturers);
    if r.Success? {
      r := LoadPrices(r.value, prices);
      if r.Success? {
        r := LoadDates(r.value, dates);
      }
    }
  }

  /** `SortByTheManufacturer`: the item ids, each once, with manufacturers in ascending
      order. */
  method SortByTheManufacturer(inventory: Store) returns (ids: seq<string>)
    requires Valid(inventory)
    ensures multiset(ids) == multiset(inventory.ids)
    ensures forall k :: 0 <= k < |ids| ==> ids[k] in inventory.items
    ensures forall p, q :: 0 <= p < q < |ids| ==>
      !Less(inventory.items[ids[q]].manufacturer, inventory.items[ids[p]].manufacturer)
  {
    var a := ToArray(inventory.ids);
    OrdersAreStrict(inventory.items);
    ExchangeSort(a, ManufacturerAfter(inventory.items));
    ids := a[..];
    forall k | 0 <= k < |ids| ensures ids[k] in inventory.items {
      assert ids[k] in multiset(inventory.ids);
    }
  }

  /** `SortByItemID`: the list reordered in place by ascending item id. */
  method SortByItemID(items: array<Entry>)
    modifies items
    ensures multiset(items[..]) == multiset(old(items[..]))
    ensures forall p, q :: 0 <= p < q < items.Length ==> !Less(items[q].0, items[p].0)
  {
    OrdersAreStrict(map[]);
    ExchangeSort(items, IdAfter());
    assert forall p, q :: 0 <= p < q < items.Length ==> !IdAfter()(items[..][p], items[..][q]);
  }

  /** `SortByTheServiceDate`: the list reordered in place from the oldest service date to the
      most recent. Comparing a missing date raises, which happens as soon as there are two
      entries and one of them is undated. */
  method SortByTheServiceDate(items: array<Entry>)
    requires items.Length > 1 ==> forall k :: 0 <= k < items.Length ==> items[k].1.serviceDate.On?
    modifies items
    ensures multiset(items[..]) == multiset(old(items[..]))
    ensures forall p, q :: 0 <= p < q < items.Length && items[p].1.serviceDate.On? && items[q].1.serviceDate.On? ==>
      !Before(items[q].1.serviceDate.date, items[p].1.serviceDate.date)
  {
    OrdersAreStrict(map[]);
    ExchangeSort(items, DateAfter());
    assert forall p, q :: 0 <= p < q < items.Length ==> !DateAfter()(items[..][p], items[..][q]);
  }

  /** `FullInventory`: one line per item (id, manufacturer, price, date, damage note) in
      manufacturer order. A `None` date cannot be formatted, so every record must have a
      date or none at all. */
  method FullInventory(inventory: Store) returns (lines: seq<string>, ghost order: seq<string>)
    requires Valid(inventory) && AllPrintable(inventory)
    ensures multiset(order) == multiset(inventory.ids)
    ensures forall k :: 0 <= k < |order| ==> order[k] in inventory.items
    ensures forall p, q :: 0 <= p < q < |order| ==>
      !Less(inventory.items[order[q]].manufacturer, inventory.items[order[p]].manufacturer)
    ensures |lines| == |order|
    ensures forall k :: 0 <= k < |order| ==> lines[k] == BriefLine((order[k], inventory.items[order[k]]))
  {
    var sorted := SortByTheManufacturer(inventory);
    order := sorted;
    lines := [];
    var k := 0;
    while k < |sorted|
      invariant 0 <= k <= |sorted|
      invariant |lines| == k
      invariant forall j :: 0 <= j < k ==> lines[j] == BriefLine((sorted[j], inventory.items[sorted[j]]))
    {
      var id := sorted[k];
      lines := lines + [BriefLine((id, inventory.items[id]))];
      k := k + 1;
    }
  }

  /** The item types of the first `n` entries of `es`, each once, in order of first
      appearance: the key order of the dictionary the grouping loop of `ItemTypeInventory`
      builds. */
  function TypesSeen(es: seq<Entry>, n: nat): seq<string>
    requires n <= |es|
  {
    if n == 0 then [] else
      var ts, t := TypesSeen(es, n - 1), es[n - 1].1.itemType;
      if t in ts then ts else ts + [t]
  }

  /** The dictionary that loop holds after the first `n` entries: each entry appended to the
      list of its item type, a new type starting a new list. */
  function GroupsAfter(es: seq<Entry>, n: nat): map<string, seq<Entry>>
    requires n <= |es|
  {
    if n == 0 then map[] else
      var g, e := GroupsAfter(es, n - 1), es[n - 1];
      var t := e.1.itemType;
      g[t := (if t in g then g[t] else []) + [e]]
  }

  /** The dictionary's keys are the types seen so far. */
  lemma {:induction false} GroupKeys(es: seq<Entry>, n: nat)
    requires n <= |es|
    ensures forall t :: t in GroupsAfter(es, n) <==> t in TypesSeen(es, n)
  {
    if n > 0 {
      GroupKeys(es, n - 1);
    }
  }

  /** After `n` entries the key order is the first-appearance order of their types, and each
      key's list holds exactly the entries of that type, in store order. */
  lemma {:induction false} GroupsAfterSpec(es: seq<Entry>, n: nat)
    requires n <= |es|
    ensures TypesSeen(es, n) == Dedup(TypesOf(es[..n]))
    ensures forall t :: t in GroupsAfter(es, n) <==> t in TypesOf(es[..n])
    ensures forall t :: t in GroupsAfter(es, n) ==> GroupsAfter(es, n)[t] == Filter(es[..n], HasType(t))
  {
    if n > 0 {
      var init, e := es[..n - 1], es[n - 1];
      assert es[..n] == init + [e];
      GroupsAfterSpec(es, n - 1);
      GroupKeys(es, n);
      assert TypesOf(es[..n]) == TypesOf(init) + [e.1.itemType];
      DedupSnoc(TypesOf(init), e.1.itemType);
      var g := GroupsAfter(es, n - 1);
      forall x | x in GroupsAfter(es, n) ensures GroupsAfter(es, n)[x] == Filter(es[..n], HasType(x)) {
        FilterSnoc(init, e, HasType(x));
        if x == e.1.itemType && x !in g {
          NoEntryOfType(init, x);
        }
      }
    }
  }

  /** A type that does not occur among the entries' types selects no entry. */
  lemma NoEntryOfType(es: seq<Entry>, t: string)
    requires t !in TypesOf(es)
    ensures Filter(es, HasType(t)) == []
  {
  }

  /** The grouping loop of `ItemTypeInventory`, over the store's `(id, record)` pairs in
      insertion order: the item types in order of first appearance (the dictionary's key
      order) and the dictionary of lists. */
  method GroupByType(es: seq<Entry>) returns (types: seq<string>, groups: map<string, seq<Entry>>)
    ensures types == TypesSeen(es, |es|)
    ensures groups == GroupsAfter(es, |es|)
  {
    types, groups := [], map[];
    var i := 0;
    while i < |es|
      invariant 0 <= i <= |es|
      invariant types == TypesSeen(es, i)
      invariant groups == GroupsAfter(es, i)
    {
      var e := es[i];
      var t := e.1.itemType;
      GroupKeys(es, i);
      if t !in groups {
        groups := groups[t := []];
        types := types + [t];
      }
      groups := groups[t := groups[t] + [e]];
      i := i + 1;
    }
  }

  /** `lines` lists the entries of `group`, each once, by ascending item id (`listed` is
      that order), in the per-type report's format. */
  predicate ListedById(lines: seq<string>, listed: seq<Entry>, group: seq<Entry>)
  {
    && multiset(listed) == multiset(group)
    && (forall p, q :: 0 <= p < q < |listed| ==> !Less(listed[q].0, listed[p].0))
    && |lines| == |listed|
    && (forall j :: 0 <= j < |listed| ==> Printable(listed[j].1) && lines[j] == BriefLine(listed[j]))
  }

  /** The body of the per-type loop of `ItemTypeInventory`: the group sorted by item id and
      written out line by line. */
  method TypeFile(group: seq<Entry>) returns (lines: seq<string>, ghost listed: seq<Entry>)
    requires forall e :: e in group ==> Printable(e.1)
    ensures ListedById(lines, listed, group)
  {
    var a := ToArray(group);
    SortByItemID(a);
    var sorted := a[..];
    PermutationKeeps(group, sorted);
    lines := [];
    var j := 0;
    while j < |sorted|
      invariant 0 <= j <= |sorted|
      invariant |lines| == j
      invariant forall n :: 0 <= n < j ==> lines[n] == BriefLine(sorted[n])
    {
      lines := lines + [BriefLine(sorted[j])];
      j := j + 1;
    }
    listed := sorted;
  }

  /** A reordering of printable entries holds only printable entries. */
  lemma PermutationKeeps(group: seq<Entry>, listed: seq<Entry>)
    requires multiset(listed) == multiset(group)
    requires forall e :: e in group ==> Printable(e.1)
    ensures forall j :: 0 <= j < |listed| ==> Printable(listed[j].1)
  {
    forall j | 0 <= j < |listed| ensures Printable(listed[j].1) {
      assert listed[j] in multiset(group);
    }
  }

  /** `ItemTypeInventory`: one file per item type, in order of first appearance, named after
      the capitalized type, listing that type's items by ascending id. */
  method ItemTypeInventory(inventory: Store) returns (files: seq<(string, seq<string>)>, ghost listed: seq<seq<Entry>>)
    requires Valid(inventory) && AllPrintable(inventory)
    ensures |files| == |listed| == |ItemTypes(inventory)|
    ensures forall k :: 0 <= k < |files| ==>
      && files[k].0 == FileName(ItemTypes(inventory)[k])
      && ListedById(files[k].1, listed[k], Filter(Entries(inventory), HasType(ItemTypes(inventory)[k])))
  {
    var es := Entries(inventory);
    var types, groups := GroupByType(es);
    StoreGroups(inventory);
    files, listed := WriteTypeFiles(types, groups);
  }

  /** The grouping of a printable store: its item types, each with the list of its entries,
      all of them printable. */
  lemma StoreGroups(s: Store)
    requires Valid(s) && AllPrintable(s)
    ensures var es := Entries(s);
      && TypesSeen(es, |es|) == ItemTypes(s)
      && forall t :: t in TypesSeen(es, |es|) ==>
        && t in GroupsAfter(es, |es|)
        && GroupsAfter(es, |es|)[t] == Filter(es, HasType(t))
        && forall e :: e in GroupsAfter(es, |es|)[t] ==> Printable(e.1)
  {
    var es := Entries(s);
    GroupsAfterSpec(es, |es|);
    GroupKeys(es, |es|);
    assert es[..|es|] == es;
    EntriesPrintable(s);
  }

  /** The writing loop of `ItemTypeInventory`: for each type in key order, its file name and
      its group's lines by ascending item id. */
  method WriteTypeFiles(types: seq<string>, groups: map<string, seq<Entry>>)
    returns (files: seq<(string, seq<string>)>, ghost listed: seq<seq<Entry>>)
    requires forall t :: t in types ==> t in groups && forall e :: e in groups[t] ==> Printable(e.1)
    ensures |files| == |listed| == |types|
    ensures forall k :: 0 <= k < |types| ==>
      files[k].0 == FileName(types[k]) && ListedById(files[k].1, listed[k], groups[types[k]])
  {
    files, listed := [], [];
    var k := 0;
    while k < |types|
      invariant 0 <= k <= |types|
      invariant |files| == |listed| == k
      invariant forall n :: 0 <= n < k ==>
        files[n].0 == FileName(types[n]) && ListedById(files[n].1, listed[n], groups[types[n]])
    {
      var t := types[k];
      var lines, order := TypeFile(groups[t]);
      FilesAppend(files, listed, types, groups, k, lines, order);
      files := files + [(FileName(t), lines)];
      listed := listed + [order];
      k := k + 1;
    }
  }

  /** Writing the file of `types[k]` keeps every file written so far as it was. */
  lemma FilesAppend(files: seq<(string, seq<string>)>, listed: seq<seq<Entry>>, types: seq<string>,
                    groups: map<string, seq<Entry>>, k: nat, lines: seq<string>, order: seq<Entry>)
    requires k < |types| && |files| == |listed| == k
    requires forall t :: t in types ==> t in groups
    requires forall n :: 0 <= n < k ==>
      files[n].0 == FileName(types[n]) && ListedById(files[n].1, listed[n], groups[types[n]])
    requires ListedById(lines, order, groups[types[k]])
    ensures var fs, ls := files + [(FileName(types[k]), lines)], listed + [order];
      forall n :: 0 <= n < k + 1 ==>
        fs[n].0 == FileName(types[n]) && ListedById(fs[n].1, ls[n], groups[types[n]])
  {
    var fs, ls := files + [(FileName(types[k]), lines)], listed + [order];
    forall n | 0 <= n < k + 1
      ensures fs[n].0 == FileName(types[n]) && ListedById(fs[n].1, ls[n], groups[types[n]])
    {
      if n < k {
        assert fs[n] == files[n] && ls[n] == listed[n];
      }
    }
  }

  /** Every entry of a printable store can be printed. */
  lemma EntriesPrintable(s: Store)
    requires Valid(s) && AllPrintable(s)
    ensures forall e :: e in Entries(s) ==> Printable(e.1)
  {
    EntriesKeys(s);
  }

  /** `PastServiceDateInventory`: the entries that have a `'ServiceDate'` key, sorted from
      the oldest date (`order`), of which those dated before `now` are written out
      (`shown`), with the damage note. Formatting happens before the comparison with `now`,
      and both fail on a `None` date, so the store must have none. */
  method PastServiceDateInventory(inventory: Store, now: Moment)
    returns (lines: seq<string>, ghost order: seq<Entry>, ghost shown: seq<Entry>)
    requires Valid(inventory) && NoBlankDates(inventory)
    ensures multiset(order) == multiset(Filter(Entries(inventory), HasDate))
    ensures SortedBy(order, DateAfter())
    ensures shown == Filter(order, IsPastAt(now))
    ensures multiset(shown) == multiset(Filter(Entries(inventory), IsPastAt(now)))
    ensures SortedBy(shown, DateAfter())
    ensures |lines| == |shown|
    ensures forall k :: 0 <= k < |shown| ==> shown[k].1.serviceDate.On? && WellFormed(shown[k].1)
    ensures forall k :: 0 <= k < |shown| ==> lines[k] == PastLine(shown[k], true)
  {
    var es := Entries(inventory);
    var dated := Collect(es, HasDate);
    DatedEntries(inventory);
    var a := ToArray(dated);
    SortByTheServiceDate(a);
    var sorted := a[..];
    DatedSorted(dated, sorted);
    lines, shown := WritePast(sorted, now, true);
    order := sorted;
    FilterKeepsSorted(sorted, DateAfter(), IsPastAt(now));
    PastSelection(inventory, sorted, now);
  }

  /** The dated entries of a store without `None` dates all carry a well-formed date. */
  lemma DatedEntries(s: Store)
    requires Valid(s) && NoBlankDates(s)
    ensures forall e :: e in Filter(Entries(s), HasDate) ==> e.1.serviceDate.On? && WellFormed(e.1)
  {
    EntriesKeys(s);
  }

  /** A reordering of dated entries, ascending by date as the service-date sort leaves them,
      is ordered for `DateAfter` and holds only dated, well-formed entries. */
  lemma DatedSorted(dated: seq<Entry>, sorted: seq<Entry>)
    requires forall e :: e in dated ==> e.1.serviceDate.On? && WellFormed(e.1)
    requires multiset(sorted) == multiset(dated)
    requires forall p, q :: 0 <= p < q < |sorted| && sorted[p].1.serviceDate.On? && sorted[q].1.serviceDate.On? ==>
      !Before(sorted[q].1.serviceDate.date, sorted[p].1.serviceDate.date)
    ensures forall e :: e in sorted ==> e.1.serviceDate.On? && WellFormed(e.1)
    ensures SortedBy(sorted, DateAfter())
  {
    forall e | e in sorted ensures e.1.serviceDate.On? && WellFormed(e.1) {
      assert e in multiset(dated);
    }
  }

  /** The writing loop of the past-service report: of the sorted dated entries, those dated
      before `now`, in order, each as one line (with the damage note when `withDamage`). */
  method WritePast(sorted: seq<Entry>, now: Moment, withDamage: bool)
    returns (lines: seq<string>, ghost shown: seq<Entry>)
    requires forall e :: e in sorted ==> e.1.serviceDate.On? && WellFormed(e.1)
    ensures shown == Filter(sorted, IsPastAt(now))
    ensures |lines| == |shown|
    ensures forall k :: 0 <= k < |shown| ==> shown[k].1.serviceDate.On? && WellFormed(shown[k].1)
    ensures forall k :: 0 <= k < |shown| ==> lines[k] == PastLine(shown[k], withDamage)
  {
    lines, shown := LinesWhere(sorted, IsPastAt(now),
      (e: Entry) requires e.1.serviceDate.On? && WellFormed(e.1) => PastLine(e, withDamage));
  }

  /** `DamagedInventory`: the damaged entries, sorted by `list.sort` on the price (0 when
      missing) from highest to lowest, one line each. */
  method DamagedInventory(inventory: Store) returns (lines: seq<string>)
    requires Valid(inventory) && DamagedPrintable(inventory)
    ensures |lines| == |DamagedReport(inventory)|
    ensures forall k :: 0 <= k < |lines| ==>
      Printable(DamagedReport(inventory)[k].1) && lines[k] == DamagedLine(DamagedReport(inventory)[k])
  {
    var es := Entries(inventory);
    var damaged := Collect(es, IsDamaged);
    damaged := SortDescending(damaged, PriceKey);
    DamagedEntries(inventory);
    lines := WriteDamaged(damaged);
  }

  /** The damaged report's entries can all be printed. */
  lemma DamagedEntries(s: Store)
    requires Valid(s) && DamagedPrintable(s)
    ensures forall e :: e in DamagedReport(s) ==> Printable(e.1)
  {
    EntriesKeys(s);
    forall e | e in DamagedReport(s) ensures Printable(e.1) {
      assert e in multiset(DamagedReport(s));
      assert e in Filter(Entries(s), IsDamaged);
    }
  }

  /** The writing loop of the damaged report: one line per entry, in the given order. */
  method WriteDamaged(items: seq<Entry>) returns (lines: seq<string>)
    requires forall e :: e in items ==> Printable(e.1)
    ensures |lines| == |items|
    ensures forall k :: 0 <= k < |items| ==> lines[k] == DamagedLine(items[k])
  {
    lines := [];
    var k := 0;
    while k < |items|
      invariant 0 <= k <= |items|
      invariant |lines| == k
      invariant forall j :: 0 <= j < k ==> lines[j] == DamagedLine(items[j])
    {
      lines := lines + [DamagedLine(items[k])];
      k := k + 1;
    }
  }
}
