/** What the four reports select, in which order they list it, and how each line reads. The
    report methods themselves belong to the code that runs them (`InventoryScript` for the
    script, `Manager.InventoryManager` for the class); both build on the definitions here. */
module Reports {
  import opened Wrappers
  import opened Text
  import opened Dates
  import opened Seqs
  import opened Sorting
  import opened Records

  // ---------------------------------------------------------------------------------------
  // Fields as the report f-strings print them
  // ---------------------------------------------------------------------------------------

  /** `item.get('Price', 'N/A')` printed: the decimal price, or `N/A` when there is none.
      The text reads back as the price it came from. */
  function PriceText(p: Option<int>): (t: string)
    ensures t == "N/A" <==> p.None?
    ensures p.Some? ==> ParseInt(t) == p
  {
    match p
    case None => "N/A"
    case Some(n) =>
      IntRoundTrip(n);
      IntToString(n)
  }

  /** The date column: `N/A` when the record has no `'ServiceDate'` key, otherwise
      `strftime('%m/%d/%Y')`. A `None` date would crash `strftime`, so it is excluded. The text
      reads back as the date it came from. */
  function DateText(d: ServiceDate): (t: string)
    requires !d.Blank? && (d.On? ==> ValidDate(d.date))
    ensures t == "N/A" <==> d.Unset?
    ensures d.On? ==> ParseDate(t) == Some(d.date)
  {
    match d
    case Unset => "N/A"
    case On(date) =>
      FormatParseRoundTrip(date);
      FormatDate(date)
  }

  /** `(f", {item['Damaged']}" if item['Damaged'] else "")`. */
  function DamageSuffix(damaged: string): (t: string)
    ensures t == "" <==> damaged == ""
    ensures damaged != "" ==> |t| > 2 && t[..2] == ", " && t[2..] == damaged
  {
    if damaged == "" then "" else ", " + damaged
  }

  /** A record whose every column can be printed: its date is not `None`. */
  predicate Printable(r: Record)
  {
    !r.serviceDate.Blank? && WellFormed(r)
  }

  /** Every record of the store can be printed. */
  predicate AllPrintable(s: Store)
  {
    forall id :: id in s.items ==> Printable(s.items[id])
  }

  /** Every damaged record can be printed: its date is not `None`. */
  predicate DamagedPrintable(s: Store)
  {
    forall id :: id in s.items && s.items[id].damaged != "" ==> !s.items[id].serviceDate.Blank?
  }

  /** The fields of an f-string line joined by `", "`. */
  function Columns(fields: seq<string>): string
  {
    if |fields| <= 1 then (if fields == [] then "" else fields[0])
    else Columns(fields[..|fields| - 1]) + ", " + fields[|fields| - 1]
  }

  /** `line.split(", ")`: the pieces of `line` between the occurrences of `", "`, scanning from
      the left. */
  function SplitColumns(line: string): (r: seq<string>)
    ensures |r| >= 1
    decreases |line|
  {
    if |line| < 2 then [line]
    else if line[0] == ',' && line[1] == ' ' then [""] + SplitColumns(line[2..])
    else
      var r := SplitColumns(line[1..]);
      [[line[0]] + r[0]] + r[1..]
  }

  /** A field without a comma. Every text field of the store is one, because the rows were
      split at commas before the merge saw them. */
  predicate CommaFree(s: string)
  {
    forall k :: 0 <= k < |s| ==> s[k] != ','
  }

  /** The id and every text field of the record are comma-free. */
  predicate CommaFreeEntry(e: Entry)
  {
    CommaFree(e.0) && CommaFree(e.1.manufacturer) && CommaFree(e.1.itemType) && CommaFree(e.1.damaged)
  }

  /** The damage column as the line carries it: present only when the note is non-empty. */
  function DamageColumn(damaged: string): seq<string>
  {
    if damaged == "" then [] else [damaged]
  }

  /** `id, manufacturer, itemType, price, date[, damage]`: the class's full-inventory line. */
  function FullLine(e: Entry): string
    requires Printable(e.1)
  {
    Columns([e.0, e.1.manufacturer, e.1.itemType, PriceText(e.1.price), DateText(e.1.serviceDate)])
      + DamageSuffix(e.1.damaged)
  }

  /** `id, manufacturer, price, date[, damage]`: the line of every per-type report, and the
      script's full-inventory line (which has no item-type column). */
  function BriefLine(e: Entry): string
    requires Printable(e.1)
  {
    Columns([e.0, e.1.manufacturer, PriceText(e.1.price), DateText(e.1.serviceDate)]) + DamageSuffix(e.1.damaged)
  }

  /** `id, manufacturer, itemType, price, date`, followed by the damage note in the script's
      version (`withDamage`) and by nothing in the class's. */
  function PastLine(e: Entry, withDamage: bool): string
    requires e.1.serviceDate.On? && WellFormed(e.1)
  {
    Columns([e.0, e.1.manufacturer, e.1.itemType, PriceText(e.1.price), FormatDate(e.1.serviceDate.date)])
      + DamageSuffix(if withDamage then e.1.damaged else "")
  }

  /** `id, manufacturer, itemType, price, date`: the damaged-report line of both versions. */
  function DamagedLine(e: Entry): string
    requires Printable(e.1)
  {
    Columns([e.0, e.1.manufacturer, e.1.itemType, PriceText(e.1.price), DateText(e.1.serviceDate)])
  }

  /** The class's full-inventory line, split at `", "`, gives back its columns. */
  lemma FullLineColumns(e: Entry)
    requires Printable(e.1) && CommaFreeEntry(e)
    ensures SplitColumns(FullLine(e))
      == [e.0, e.1.manufacturer, e.1.itemType, PriceText(e.1.price), DateText(e.1.serviceDate)]
         + DamageColumn(e.1.damaged)
  {
    FieldsCommaFree(e.1.price, e.1.serviceDate);
    LineReadsBack([e.0, e.1.manufacturer, e.1.itemType, PriceText(e.1.price), DateText(e.1.serviceDate)], e.1.damaged);
  }

  /** The per-type line, split at `", "`, gives back its columns. */
  lemma BriefLineColumns(e: Entry)
    requires Printable(e.1) && CommaFreeEntry(e)
    ensures SplitColumns(BriefLine(e))
      == [e.0, e.1.manufacturer, PriceText(e.1.price), DateText(e.1.serviceDate)] + DamageColumn(e.1.damaged)
  {
    FieldsCommaFree(e.1.price, e.1.serviceDate);
    LineReadsBack([e.0, e.1.manufacturer, PriceText(e.1.price), DateText(e.1.serviceDate)], e.1.damaged);
  }

  /** The past-service line, split at `", "`, gives back its columns. */
  lemma PastLineColumns(e: Entry, withDamage: bool)
    requires e.1.serviceDate.On? && WellFormed(e.1) && CommaFreeEntry(e)
    ensures SplitColumns(PastLine(e, withDamage))
      == [e.0, e.1.manufacturer, e.1.itemType, PriceText(e.1.price), FormatDate(e.1.serviceDate.date)]
         + (if withDamage then DamageColumn(e.1.damaged) else [])
  {
    PriceCommaFree(e.1.price);
    DateCommaFree(e.1.serviceDate.date);
    LineReadsBack([e.0, e.1.manufacturer, e.1.itemType, PriceText(e.1.price), FormatDate(e.1.serviceDate.date)],
      if withDamage then e.1.damaged else "");
  }

  /** The damaged-report line, split at `", "`, gives back its columns. */
  lemma DamagedLineColumns(e: Entry)
    requires Printable(e.1) && CommaFreeEntry(e)
    ensures SplitColumns(DamagedLine(e))
      == [e.0, e.1.manufacturer, e.1.itemType, PriceText(e.1.price), DateText(e.1.serviceDate)]
  {
    var fields := [e.0, e.1.manufacturer, e.1.itemType, PriceText(e.1.price), DateText(e.1.serviceDate)];
    FieldsCommaFree(e.1.price, e.1.serviceDate);
    LineReadsBack(fields, "");
    assert Columns(fields) + "" == Columns(fields);
  }

  /** The price and date columns never hold a comma. */
  lemma FieldsCommaFree(p: Option<int>, d: ServiceDate)
    ensures CommaFree(PriceText(p))
    ensures !d.Blank? && (d.On? ==> ValidDate(d.date)) ==> CommaFree(DateText(d))
  {
    PriceCommaFree(p);
    if d.On? && ValidDate(d.date) {
      DateCommaFree(d.date);
    }
  }

  lemma PriceCommaFree(p: Option<int>)
    ensures CommaFree(PriceText(p))
  {
    if p.Some? {
      var t := PriceText(p);
      assert AllDigits(t) || (t[0] == '-' && AllDigits(t[1..]));
      forall k | 0 <= k < |t| ensures t[k] != ',' {
        if k > 0 && !AllDigits(t) {
          assert t[k] == t[1..][k - 1];
        }
      }
    }
  }

  /** A formatted date holds digits and slashes only. */
  lemma DateCommaFree(d: Date)
    requires ValidDate(d)
    ensures CommaFree(FormatDate(d))
  {
    var m, dd, y := Pad(d.month, 2), Pad(d.day, 2), Pad(d.year, 4);
    var t := FormatDate(d);
    assert t == m + "/" + dd + "/" + y;
    forall k | 0 <= k < |t| ensures t[k] != ',' {
      if k < |m| {
        assert t[k] == m[k];
      } else if |m| + 1 <= k < |m| + 1 + |dd| {
        assert t[k] == dd[k - |m| - 1];
      } else if |m| + 2 + |dd| <= k {
        assert t[k] == y[k - |m| - 2 - |dd|];
      }
    }
  }

  /** Comma-free columns joined by `", "`, with the damage suffix, split back into the columns
      and the damage column. */
  lemma LineReadsBack(fields: seq<string>, damaged: string)
    requires fields != [] && (forall i :: 0 <= i < |fields| ==> CommaFree(fields[i])) && CommaFree(damaged)
    ensures SplitColumns(Columns(fields) + DamageSuffix(damaged)) == fields + DamageColumn(damaged)
  {
    ColumnsSplit(fields);
    if damaged != "" {
      NoteReadsBack(Columns(fields), damaged);
    } else {
      assert Columns(fields) + DamageSuffix(damaged) == Columns(fields);
    }
  }

  lemma NoteReadsBack(c: string, damaged: string)
    requires damaged != "" && CommaFree(damaged)
    ensures SplitColumns(c + DamageSuffix(damaged)) == SplitColumns(c) + [damaged]
  {
    assert c + DamageSuffix(damaged) == c + ", " + damaged;
    SplitSnoc(c, damaged);
  }

  /** Comma-free columns joined by `", "` split back into those columns. */
  lemma {:induction false} ColumnsSplit(fields: seq<string>)
    requires fields != [] && forall i :: 0 <= i < |fields| ==> CommaFree(fields[i])
    ensures SplitColumns(Columns(fields)) == fields
    decreases |fields|
  {
    if |fields| == 1 {
      SplitOfCommaFree(fields[0]);
    } else {
      var init := fields[..|fields| - 1];
      ColumnsSplit(init);
      SplitSnoc(Columns(init), fields[|fields| - 1]);
      assert init + [fields[|fields| - 1]] == fields;
    }
  }

  /** Appending `", "` and a comma-free piece adds that piece as one more column. */
  lemma {:induction false} SplitSnoc(a: string, b: string)
    requires CommaFree(b)
    ensures SplitColumns(a + ", " + b) == SplitColumns(a) + [b]
    decreases |a|
  {
    var s := a + ", " + b;
    if a == [] {
      assert s == ", " + b && s[2..] == b;
      SplitOfCommaFree(b);
    } else if |a| >= 2 && a[0] == ',' && a[1] == ' ' {
      assert s[2..] == a[2..] + ", " + b;
      SplitSnoc(a[2..], b);
    } else {
      assert s[1..] == a[1..] + ", " + b;
      SplitSnoc(a[1..], b);
      var r := SplitColumns(s[1..]);
      assert SplitColumns(s) == [[s[0]] + r[0]] + r[1..];
      if |a| == 1 {
        assert a[1..] == [] && SplitColumns(a[1..]) == [[]];
        assert [a[0]] + r[0] == a;
      } else {
        assert SplitColumns(a) == [[a[0]] + SplitColumns(a[1..])[0]] + SplitColumns(a[1..])[1..];
      }
    }
  }

  /** A comma-free string is one column. */
  lemma {:induction false} SplitOfCommaFree(b: string)
    requires CommaFree(b)
    ensures SplitColumns(b) == [b]
    decreases |b|
  {
    if |b| >= 2 {
      SplitOfCommaFree(b[1..]);
      assert [b[0]] + b[1..] == b;
    }
  }

  /** A service date of 15 March 2025 prints as `03/15/2025` and a missing price as `N/A`. */
  lemma FormatExample()
    ensures DateText(On(Date(2025, 3, 15))) == "03/15/2025"
    ensures PriceText(None) == "N/A"
  {
    FormatDateExample();
  }

  /** Two records print the same price column only when their prices agree, and the same date
      column only when their dates agree: the columns lose nothing. */
  lemma ColumnsInjective(p: Option<int>, q: Option<int>, d: ServiceDate, e: ServiceDate)
    requires !d.Blank? && (d.On? ==> ValidDate(d.date))
    requires !e.Blank? && (e.On? ==> ValidDate(e.date))
    ensures PriceText(p) == PriceText(q) <==> p == q
    ensures DateText(d) == DateText(e) <==> d == e
  {
  }

  // ---------------------------------------------------------------------------------------
  // The comparisons the exchange sorts test before swapping
  // ---------------------------------------------------------------------------------------

  /** `Inventory[x]['Manufacturer'] > Inventory[y]['Manufacturer']` on two item ids. */
  function ManufacturerAfter(m: map<string, Record>): (string, string) -> bool
  {
    (x: string, y: string) => x in m && y in m && Less(m[y].manufacturer, m[x].manufacturer)
  }

  /** `a[0] > b[0]`: item ids compared as strings. */
  function IdAfter(): (Entry, Entry) -> bool
  {
    (a: Entry, b: Entry) => Less(b.0, a.0)
  }

  /** `a[1]['ServiceDate'] > b[1]['ServiceDate']` on two dated entries: both dates are
      midnights, so the later day is the greater. */
  function DateAfter(): (Entry, Entry) -> bool
  {
    (a: Entry, b: Entry) =>
      a.1.serviceDate.On? && b.1.serviceDate.On? && Before(b.1.serviceDate.date, a.1.serviceDate.date)
  }

  /** `item[1].get('Price', 0)`: the sort key of the damaged report. */
  function PriceKey(e: Entry): int
  {
    match e.1.price
    case None => 0
    case Some(p) => p
  }

  /** `a[1].get('Price', 0) < b[1].get('Price', 0)`: the descending price loop swaps when the
      earlier entry is the cheaper one. */
  function PriceBelow(): (Entry, Entry) -> bool
  {
    (a: Entry, b: Entry) => PriceKey(a) < PriceKey(b)
  }

  /** Each comparison is a strict order, so each exchange sort orders its list. */
  lemma {:induction false} OrdersAreStrict(m: map<string, Record>)
    ensures StrictOrder(ManufacturerAfter(m))
    ensures StrictOrder(IdAfter())
    ensures StrictOrder(DateAfter())
    ensures StrictOrder(PriceBelow())
  {
    forall x: string ensures !ManufacturerAfter(m)(x, x) {
      if x in m {
        LessIrreflexive(m[x].manufacturer);
      }
    }
    forall x: string, y: string, z: string | ManufacturerAfter(m)(x, y) && ManufacturerAfter(m)(y, z)
      ensures ManufacturerAfter(m)(x, z)
    {
      LessTransitive(m[z].manufacturer, m[y].manufacturer, m[x].manufacturer);
    }
    forall a: Entry ensures !IdAfter()(a, a) {
      LessIrreflexive(a.0);
    }
    forall a: Entry, b: Entry, c: Entry | IdAfter()(a, b) && IdAfter()(b, c) ensures IdAfter()(a, c) {
      LessTransitive(c.0, b.0, a.0);
    }
  }

  // ---------------------------------------------------------------------------------------
  // Selections
  // ---------------------------------------------------------------------------------------

  /** `if item['Damaged']`: a non-empty damage note. */
  function IsDamaged(e: Entry): bool
  {
    e.1.damaged != ""
  }

  /** `'ServiceDate' in item`: the key is present, whether it holds a date or `None`. */
  function HasDate(e: Entry): bool
  {
    !e.1.serviceDate.Unset?
  }

  /** `item['ServiceDate'] < today`, on an entry that has a date. */
  function IsPastAt(now: Moment): Entry -> bool
  {
    (e: Entry) => e.1.serviceDate.On? && IsPast(e.1.serviceDate.date, now)
  }

  /** The entries whose item type is exactly `t`. */
  function HasType(t: string): Entry -> bool
  {
    (e: Entry) => e.1.itemType == t
  }

  /** The item type of every entry, in order. */
  function TypesOf(es: seq<Entry>): (ts: seq<string>)
    ensures |ts| == |es|
    ensures forall k :: 0 <= k < |es| ==> ts[k] == es[k].1.itemType
  {
    if es == [] then [] else TypesOf(es[..|es| - 1]) + [es[|es| - 1].1.itemType]
  }

  /** The distinct item types in order of first appearance: the key order of the dictionary of
      groups the per-type report builds. */
  function ItemTypes(s: Store): seq<string>
    requires Valid(s)
  {
    Dedup(TypesOf(Entries(s)))
  }

  /** `f"{ItemType.capitalize()}Inventory.txt"`. */
  function FileName(t: string): (name: string)
    ensures |name| == |t| + 13 && name[|t|..] == "Inventory.txt"
    ensures Lower(name[..|t|]) == Lower(t)
  {
    Capitalize(t) + "Inventory.txt"
  }

  /** The per-type report's groups partition the store: the types are distinct, every entry
      falls in the group of its own type and in no other, and no group is empty. */
  lemma {:induction false} TypesPartition(s: Store)
    requires Valid(s)
    ensures Distinct(ItemTypes(s))
    ensures forall e :: e in Entries(s) ==> e.1.itemType in ItemTypes(s)
    ensures forall e, t :: e in Entries(s) && t in ItemTypes(s) ==>
      (e in Filter(Entries(s), HasType(t)) <==> e.1.itemType == t)
    ensures forall t :: t in ItemTypes(s) ==> Filter(Entries(s), HasType(t)) != []
  {
    TypesCover(Entries(s));
  }

  /** Each entry's type occurs among the types, and each type occurs on some entry. */
  lemma TypesCover(es: seq<Entry>)
    ensures forall e :: e in es ==> e.1.itemType in TypesOf(es)
    ensures forall t :: t in TypesOf(es) ==> Filter(es, HasType(t)) != []
  {
    var ts := TypesOf(es);
    forall e | e in es ensures e.1.itemType in ts {
      var k :| 0 <= k < |es| && es[k] == e;
      assert ts[k] == e.1.itemType;
    }
    forall t | t in ts ensures Filter(es, HasType(t)) != [] {
      var k :| 0 <= k < |ts| && ts[k] == t;
      assert HasType(t)(es[k]);
      assert es[k] in Filter(es, HasType(t));
    }
  }

  /** Two item types get the same report file exactly when they differ only in letter case,
      so the later group's file replaces the earlier one's. */
  lemma FileNameCollision(t: string, u: string)
    ensures FileName(t) == FileName(u) <==> Lower(t) == Lower(u)
  {
    if Lower(t) == Lower(u) {
      CapitalizeIgnoresCase(t, u);
    }
    if FileName(t) == FileName(u) {
      assert Capitalize(t) == FileName(t)[..|t|];
      assert Capitalize(u) == FileName(u)[..|u|];
    }
  }

  /** Filtering twice, with the second test stricter than the first, is filtering once. */
  lemma {:induction false} FilterNarrower<T(!new)>(s: seq<T>, p: T -> bool, q: T -> bool)
    requires forall x :: q(x) ==> p(x)
    ensures Filter(Filter(s, p), q) == Filter(s, q)
  {
    if s != [] {
      var init, last := s[..|s| - 1], s[|s| - 1];
      SplitLast(s);
      FilterNarrower(init, p, q);
      FilterSnoc(init, last, p);
      FilterSnoc(Filter(init, p), last, q);
    }
  }

  /** Whatever order the dated entries are sorted into, the past-service report keeps exactly
      the entries whose date is before `now`, each once: entries without the key never
      appear, and entries dated today or later are dropped. */
  lemma PastSelection(s: Store, order: seq<Entry>, now: Moment)
    requires Valid(s) && multiset(order) == multiset(Filter(Entries(s), HasDate))
    ensures multiset(Filter(order, IsPastAt(now))) == multiset(Filter(Entries(s), IsPastAt(now)))
  {
    FilterPermutation(order, Filter(Entries(s), HasDate), IsPastAt(now));
    FilterNarrower(Entries(s), HasDate, IsPastAt(now));
  }

  /** The script's damaged report: the damaged entries in a stable sort by descending price,
      a missing price counting as 0. */
  function DamagedReport(s: Store): seq<Entry>
    requires Valid(s)
  {
    SortDescending(Filter(Entries(s), IsDamaged), PriceKey)
  }

  /** The script's damaged report lists exactly the damaged entries, each once, by
      non-increasing price; entries of equal price keep their store order. */
  lemma DamagedReportSpec(s: Store, v: int)
    requires Valid(s)
    ensures multiset(DamagedReport(s)) == multiset(Filter(Entries(s), IsDamaged))
    ensures forall e :: e in DamagedReport(s) <==> e in Entries(s) && IsDamaged(e)
    ensures Descending(DamagedReport(s), PriceKey)
    ensures Filter(DamagedReport(s), WithKey(PriceKey, v))
         == Filter(Filter(Entries(s), IsDamaged), WithKey(PriceKey, v))
  {
    var d := Filter(Entries(s), IsDamaged);
    SortDescendingStable(d, PriceKey, v);
    forall e ensures e in DamagedReport(s) <==> e in d {
      assert e in DamagedReport(s) <==> e in multiset(DamagedReport(s));
      assert e in d <==> e in multiset(d);
    }
  }
}
