/** The join of the three input tables into the record store, as `process_inventory` and
    `ProcessTheInventory` perform it: manufacturer rows create records, price rows and then
    service-date rows fill in fields of records that already exist. */
module Merging {
  import opened Wrappers
  import opened Text
  import opened Dates
  import opened Seqs
  import opened Records

  /** One line of an input file, split at commas; its fields are not yet stripped. */
  type Row = seq<string>

  /** Why a merge stops: a row lacks a field the code indexes (`IndexError`), `int()` rejects a
      price, or `strptime` rejects a non-empty date (both `ValueError`). */
  datatype MergeError = ShortRow | BadPrice | BadDate

  /** `item[0].strip()`. An empty row never gets this far (it fails as `ShortRow`), so the
      value given for it is never used. */
  function RowId(row: Row): string
  {
    if row == [] then "" else Strip(row[0])
  }

  /** The item ids of `rows`, one per row. */
  function IdsOf(rows: seq<Row>): seq<string>
  {
    if rows == [] then [] else IdsOf(rows[..|rows| - 1]) + [RowId(rows[|rows| - 1])]
  }

  /** The record a manufacturer row creates: stripped manufacturer, type and damage note (an
      empty note when the row has only three fields), no price and no service date. */
  function NewRecord(row: Row): (r: Record)
    requires |row| >= 3
    ensures r.manufacturer == Strip(row[1]) && r.itemType == Strip(row[2])
    ensures r.damaged == if |row| > 3 then Strip(row[3]) else ""
    ensures r.price.None? && r.serviceDate.Unset?
  {
    Record(Strip(row[1]), Strip(row[2]), if |row| > 3 then Strip(row[3]) else "", None, Unset)
  }

  /** The loop over manufacturer rows: each row (re)places the record of its id. */
  function AddManufacturers(s: Store, rows: seq<Row>): (r: Result<Store, MergeError>)
    requires Valid(s)
    ensures r.Success? ==> Valid(r.value)
    decreases |rows|
  {
    if rows == [] then Success(s) else
      var init := rows[..|rows| - 1];
      var row := rows[|rows| - 1];
      match AddManufacturers(s, init)
      case Failure(e) => Failure(e)
      case Success(t) =>
        if |row| < 3 then Failure(ShortRow) else Success(Put(t, RowId(row), NewRecord(row)))
  }

  /** A price row the loop body gets through: it has a price field and `int()` accepts it. */
  predicate PriceRowOk(row: Row)
  {
    |row| >= 2 && ParseInt(Strip(row[1])).Some?
  }

  /** One price row: `int(item[1].strip())` first, then the price is stored only when the id
      is already a key. */
  function PriceStep(t: Store, row: Row): (r: Result<Store, MergeError>)
    requires Valid(t)
    ensures r.Success? <==> PriceRowOk(row)
    ensures r.Success? && RowId(row) !in t.items ==> r.value == t
    ensures r.Success? ==> Valid(r.value) && r.value.ids == t.ids && r.value.items.Keys == t.items.Keys
    ensures r.Success? ==> forall k :: k in t.items && k != RowId(row) ==> r.value.items[k] == t.items[k]
    ensures r.Success? && RowId(row) in t.items ==>
      r.value.items[RowId(row)] == t.items[RowId(row)].(price := ParseInt(Strip(row[1])))
  {
    if |row| < 2 then Failure(ShortRow)
    else match ParseInt(Strip(row[1]))
      case None => Failure(BadPrice)
      case Some(p) =>
        var id := RowId(row);
        if id in t.items then Success(Update(t, id, t.items[id].(price := Some(p)))) else Success(t)
  }

  /** The loop over price rows. */
  function AddPrices(s: Store, rows: seq<Row>): (r: Result<Store, MergeError>)
    requires Valid(s)
    ensures r.Success? ==> Valid(r.value) && r.value.ids == s.ids && r.value.items.Keys == s.items.Keys
    ensures r.Success? ==> forall k :: k in s.items ==> r.value.items[k] == s.items[k].(price := r.value.items[k].price)
    decreases |rows|
  {
    if rows == [] then Success(s) else
      match AddPrices(s, rows[..|rows| - 1])
      case Failure(e) => Failure(e)
      case Success(t) => PriceStep(t, rows[|rows| - 1])
  }

  /** What a stripped date field stores: `None` when empty, else the parsed date. */
  function DateValue(field: string): (r: Result<ServiceDate, MergeError>)
    ensures r.Success? <==> field == "" || ParseDate(field).Some?
    ensures r.Success? && field != "" ==> r.value == On(ParseDate(field).value)
    ensures r.Success? ==> (r.value.Blank? <==> field == "")
    ensures r.Success? && r.value.On? ==> ValidDate(r.value.date)
  {
    if field == "" then Success(Blank)
    else match ParseDate(field)
      case None => Failure(BadDate)
      case Some(d) => Success(On(d))
  }

  /** A date row the loop body gets through: it has a date field, and the field is empty or
      `strptime` accepts it. */
  predicate DateRowOk(row: Row)
  {
    |row| >= 2 && DateValue(Strip(row[1])).Success?
  }

  /** One service-date row: the date is parsed first, then stored only when the id is a key. */
  function DateStep(t: Store, row: Row): (r: Result<Store, MergeError>)
    requires Valid(t)
    ensures r.Success? <==> DateRowOk(row)
    ensures r.Success? && RowId(row) !in t.items ==> r.value == t
    ensures r.Success? ==> Valid(r.value) && r.value.ids == t.ids && r.value.items.Keys == t.items.Keys
    ensures r.Success? ==> forall k :: k in t.items && k != RowId(row) ==> r.value.items[k] == t.items[k]
    ensures r.Success? && RowId(row) in t.items ==>
      r.value.items[RowId(row)] == t.items[RowId(row)].(serviceDate := DateValue(Strip(row[1])).value)
  {
    if |row| < 2 then Failure(ShortRow)
    else match DateValue(Strip(row[1]))
      case Failure(e) => Failure(e)
      case Success(sd) =>
        var id := RowId(row);
        if id in t.items then Success(Update(t, id, t.items[id].(serviceDate := sd))) else Success(t)
  }

  /** The loop over service-date rows. */
  function AddDates(s: Store, rows: seq<Row>): (r: Result<Store, MergeError>)
    requires Valid(s)
    ensures r.Success? ==> Valid(r.value) && r.value.ids == s.ids && r.value.items.Keys == s.items.Keys
    ensures r.Success? ==> forall k :: k in s.items ==> r.value.items[k] == s.items[k].(serviceDate := r.value.items[k].serviceDate)
    decreases |rows|
  {
    if rows == [] then Success(s) else
      match AddDates(s, rows[..|rows| - 1])
      case Failure(e) => Failure(e)
      case Success(t) => DateStep(t, rows[|rows| - 1])
  }

  /** The whole merge into an existing store `s`: manufacturers, then prices, then dates. */
  function Merge(s: Store, manufacturers: seq<Row>, prices: seq<Row>, dates: seq<Row>): (r: Result<Store, MergeError>)
    requires Valid(s)
    ensures r.Success? ==> Valid(r.value)
  {
    match AddManufacturers(s, manufacturers)
    case Failure(e) => Failure(e)
    case Success(t) =>
      match AddPrices(t, prices)
      case Failure(e) => Failure(e)
      case Success(u) => AddDates(u, dates)
  }

  // ---------------------------------------------------------------------------------------
  // When each table goes through: exactly when every one of its rows does, whichever ids the
  // rows carry.
  // ---------------------------------------------------------------------------------------

  /** The manufacturer loop succeeds exactly when every row has the three fields it indexes. */
  lemma {:induction false} ManufacturersSucceed(s: Store, rows: seq<Row>)
    requires Valid(s)
    ensures AddManufacturers(s, rows).Success? <==> forall i :: 0 <= i < |rows| ==> |rows[i]| >= 3
    decreases |rows|
  {
    if rows != [] {
      var init := rows[..|rows| - 1];
      ManufacturersSucceed(s, init);
      assert rows == init + [rows[|rows| - 1]];
      AllSnoc(init, rows[|rows| - 1], (row: Row) => |row| >= 3);
    }
  }

  /** The price loop succeeds exactly when every row has a price `int()` accepts; an unknown
      id is no error. */
  lemma {:induction false} PricesSucceed(s: Store, rows: seq<Row>)
    requires Valid(s)
    ensures AddPrices(s, rows).Success? <==> forall i :: 0 <= i < |rows| ==> PriceRowOk(rows[i])
    decreases |rows|
  {
    if rows != [] {
      var init := rows[..|rows| - 1];
      var last := rows[|rows| - 1];
      PricesSucceed(s, init);
      assert rows == init + [last];
      AllSnoc(init, last, PriceRowOk);
      match AddPrices(s, init)
      case Failure(_) =>
      case Success(t) =>
        assert AddPrices(s, rows) == PriceStep(t, last);
    }
  }

  /** The date loop succeeds exactly when every row has an empty or parseable date; an unknown
      id is no error. */
  lemma {:induction false} DatesSucceed(s: Store, rows: seq<Row>)
    requires Valid(s)
    ensures AddDates(s, rows).Success? <==> forall i :: 0 <= i < |rows| ==> DateRowOk(rows[i])
    decreases |rows|
  {
    if rows != [] {
      var init := rows[..|rows| - 1];
      var last := rows[|rows| - 1];
      DatesSucceed(s, init);
      assert rows == init + [last];
      AllSnoc(init, last, DateRowOk);
      match AddDates(s, init)
      case Failure(_) =>
      case Success(t) =>
        assert AddDates(s, rows) == DateStep(t, last);
    }
  }

  /** A property holds of every row of `init + [row]` exactly when it holds of every row of
      `init` and of `row`. */
  lemma AllSnoc(init: seq<Row>, row: Row, p: Row -> bool)
    ensures (forall i :: 0 <= i < |init| + 1 ==> p((init + [row])[i])) <==>
      (forall i :: 0 <= i < |init| ==> p(init[i])) && p(row)
  {
    assert forall i :: 0 <= i < |init| ==> (init + [row])[i] == init[i];
    assert (init + [row])[|init|] == row;
  }

  /** The whole merge succeeds exactly when every manufacturer row has three fields, every
      price row a valid price and every date row an empty or valid date. */
  lemma MergeSucceeds(s: Store, manufacturers: seq<Row>, prices: seq<Row>, dates: seq<Row>)
    requires Valid(s)
    ensures Merge(s, manufacturers, prices, dates).Success? <==>
      && (forall i :: 0 <= i < |manufacturers| ==> |manufacturers[i]| >= 3)
      && (forall i :: 0 <= i < |prices| ==> PriceRowOk(prices[i]))
      && (forall i :: 0 <= i < |dates| ==> DateRowOk(dates[i]))
  {
    ManufacturersSucceed(s, manufacturers);
    var t := AddManufacturers(s, manufacturers);
    if t.Success? {
      PricesSucceed(t.value, prices);
      var u := AddPrices(t.value, prices);
      if u.Success? {
        DatesSucceed(u.value, dates);
      }
    }
  }

  // ---------------------------------------------------------------------------------------
  // Failures are final: once a prefix of a table fails, the whole table fails the same way.
  // ---------------------------------------------------------------------------------------

  lemma {:induction false} ManufacturersFailureSticks(s: Store, rows: seq<Row>, i: nat)
    requires Valid(s) && i <= |rows| && AddManufacturers(s, rows[..i]).Failure?
    ensures AddManufacturers(s, rows) == AddManufacturers(s, rows[..i])
    decreases |rows| - i
  {
    if i < |rows| {
      assert rows[..i + 1][..i] == rows[..i];
      ManufacturersFailureSticks(s, rows, i + 1);
    } else {
      assert rows[..i] == rows;
    }
  }

  lemma {:induction false} PricesFailureSticks(s: Store, rows: seq<Row>, i: nat)
    requires Valid(s) && i <= |rows| && AddPrices(s, rows[..i]).Failure?
    ensures AddPrices(s, rows) == AddPrices(s, rows[..i])
    decreases |rows| - i
  {
    if i < |rows| {
      assert rows[..i + 1][..i] == rows[..i];
      PricesFailureSticks(s, rows, i + 1);
    } else {
      assert rows[..i] == rows;
    }
  }

  lemma {:induction false} DatesFailureSticks(s: Store, rows: seq<Row>, i: nat)
    requires Valid(s) && i <= |rows| && AddDates(s, rows[..i]).Failure?
    ensures AddDates(s, rows) == AddDates(s, rows[..i])
    decreases |rows| - i
  {
    if i < |rows| {
      assert rows[..i + 1][..i] == rows[..i];
      DatesFailureSticks(s, rows, i + 1);
    } else {
      assert rows[..i] == rows;
    }
  }

  // ---------------------------------------------------------------------------------------
  // Manufacturer rows: which ids exist, in which order, and which row wins.
  // ---------------------------------------------------------------------------------------

  /** A successful merge saw at least three fields in every manufacturer row. */
  lemma {:induction false} ManufacturerRowsComplete(s: Store, rows: seq<Row>)
    requires Valid(s) && AddManufacturers(s, rows).Success?
    ensures forall i :: 0 <= i < |rows| ==> |rows[i]| >= 3
  {
    if rows != [] {
      var init := rows[..|rows| - 1];
      assert AddManufacturers(s, init).Success?;
      ManufacturerRowsComplete(s, init);
      forall i | 0 <= i < |rows| ensures |rows[i]| >= 3 {
        if i < |rows| - 1 {
          assert rows[i] == init[i];
        }
      }
    }
  }

  /** After the manufacturer loop the keys are the old keys plus the id of every row. */
  lemma {:induction false} ManufacturerKeys(s: Store, rows: seq<Row>)
    requires Valid(s) && AddManufacturers(s, rows).Success?
    ensures forall k :: k in AddManufacturers(s, rows).value.items <==> k in s.items || k in IdsOf(rows)
  {
    if rows != [] {
      var init := rows[..|rows| - 1];
      var last := RowId(rows[|rows| - 1]);
      assert AddManufacturers(s, init).Success?;
      var t, u := AddManufacturers(s, init).value, AddManufacturers(s, rows).value;
      assert u.items.Keys == t.items.Keys + {last};
      ManufacturerKeys(s, init);
      assert IdsOf(rows) == IdsOf(init) + [last];
      forall k ensures k in u.items <==> k in s.items || k in IdsOf(rows) {
        assert k in IdsOf(rows) <==> k in IdsOf(init) || k == last;
      }
    }
  }

  lemma DedupOfDistinct<T(!new)>(s: seq<T>)
    requires Distinct(s)
    ensures Dedup(s) == s
  {
    if s != [] {
      var init := s[..|s| - 1];
      DedupOfDistinct(init);
      assert s[|s| - 1] !in init;
      SplitLast(s);
    }
  }

  /** Iteration order after the manufacturer loop: the old keys, then each new id at its first
      row; a repeated id keeps the place of its first insertion. */
  lemma {:induction false} ManufacturerOrder(s: Store, rows: seq<Row>)
    requires Valid(s) && AddManufacturers(s, rows).Success?
    ensures AddManufacturers(s, rows).value.ids == Dedup(s.ids + IdsOf(rows))
  {
    if rows == [] {
      assert s.ids + IdsOf(rows) == s.ids;
      DedupOfDistinct(s.ids);
    } else {
      var init := rows[..|rows| - 1];
      var row := rows[|rows| - 1];
      assert AddManufacturers(s, init).Success?;
      ManufacturerOrder(s, init);
      var t := AddManufacturers(s, init).value;
      var all := s.ids + IdsOf(rows);
      var before := s.ids + IdsOf(init);
      assert all == before + [RowId(row)];
      DedupSnoc(before, RowId(row));
      var u := Put(t, RowId(row), NewRecord(row));
      assert AddManufacturers(s, rows).value == u;
      assert u.ids == if RowId(row) in t.ids then t.ids else t.ids + [RowId(row)];
    }
  }

  /** The record of an id is the one built from its LAST manufacturer row. */
  lemma {:induction false} ManufacturerLastWins(s: Store, rows: seq<Row>, i: nat)
    requires Valid(s) && AddManufacturers(s, rows).Success?
    requires i < |rows| && forall j :: i < j < |rows| ==> RowId(rows[j]) != RowId(rows[i])
    ensures |rows[i]| >= 3
    ensures RowId(rows[i]) in AddManufacturers(s, rows).value.items
    ensures AddManufacturers(s, rows).value.items[RowId(rows[i])] == NewRecord(rows[i])
  {
    ManufacturerRowsComplete(s, rows);
    var init := rows[..|rows| - 1];
    assert AddManufacturers(s, init).Success?;
    if i < |rows| - 1 {
      assert init[i] == rows[i];
      ManufacturerLastWins(s, init, i);
    }
  }

  /** Ids no manufacturer row mentions keep the record they had. */
  lemma {:induction false} ManufacturerUntouched(s: Store, rows: seq<Row>, k: string)
    requires Valid(s) && AddManufacturers(s, rows).Success? && k in s.items && k !in IdsOf(rows)
    ensures k in AddManufacturers(s, rows).value.items
    ensures AddManufacturers(s, rows).value.items[k] == s.items[k]
  {
    if rows != [] {
      var init := rows[..|rows| - 1];
      var last := RowId(rows[|rows| - 1]);
      assert AddManufacturers(s, init).Success?;
      assert IdsOf(rows) == IdsOf(init) + [last];
      assert k != last && k !in IdsOf(init);
      ManufacturerUntouched(s, init, k);
    }
  }

  // ---------------------------------------------------------------------------------------
  // Price rows.
  // ---------------------------------------------------------------------------------------

  /** A known id's price is the parse of its LAST price row. */
  lemma {:induction false} PriceLastWins(s: Store, rows: seq<Row>, i: nat)
    requires Valid(s) && AddPrices(s, rows).Success?
    requires i < |rows| && RowId(rows[i]) in s.items
    requires forall j :: i < j < |rows| ==> RowId(rows[j]) != RowId(rows[i])
    ensures |rows[i]| >= 2 && ParseInt(Strip(rows[i][1])).Some?
    ensures AddPrices(s, rows).value.items[RowId(rows[i])].price == ParseInt(Strip(rows[i][1]))
  {
    var init := rows[..|rows| - 1];
    if i < |rows| - 1 {
      PriceLastWins(s, init, i);
    }
  }

  /** A known id without any price row keeps its record unchanged (so no `'Price'` key). */
  lemma {:induction false} PriceUntouched(s: Store, rows: seq<Row>, k: string)
    requires Valid(s) && AddPrices(s, rows).Success? && k in s.items && k !in IdsOf(rows)
    ensures AddPrices(s, rows).value.items[k] == s.items[k]
  {
    if rows != [] {
      var init := rows[..|rows| - 1];
      assert IdsOf(rows) == IdsOf(init) + [RowId(rows[|rows| - 1])];
      PriceUntouched(s, init, k);
    }
  }

  /** A non-numeric price stops the merge whatever id its row carries: `int()` runs before the
      membership test. */
  lemma {:induction false} BadPriceFails(s: Store, rows: seq<Row>, i: nat)
    requires Valid(s) && i < |rows| && |rows[i]| >= 2 && ParseInt(Strip(rows[i][1])).None?
    ensures AddPrices(s, rows).Failure?
  {
    if AddPrices(s, rows).Success? {
      var init := rows[..|rows| - 1];
      if i < |rows| - 1 {
        BadPriceFails(s, init, i);
      }
    }
  }

  /** Price rows for unknown ids change nothing: dropping them gives the same store. */
  lemma {:induction false} PricesIgnoreUnknownIds(s: Store, rows: seq<Row>)
    requires Valid(s) && AddPrices(s, rows).Success?
    ensures AddPrices(s, Filter(rows, (row: Row) => RowId(row) in s.items)) == AddPrices(s, rows)
  {
    if rows != [] {
      var known := (row: Row) => RowId(row) in s.items;
      var init, row := rows[..|rows| - 1], rows[|rows| - 1];
      PricesIgnoreUnknownIds(s, init);
      if known(row) {
        AddPricesSnoc(s, Filter(init, known), row);
      }
    }
  }

  /** `AddPrices` over one more row: the price step applied to what the shorter loop built. */
  lemma AddPricesSnoc(s: Store, init: seq<Row>, row: Row)
    requires Valid(s)
    ensures AddPrices(s, init).Failure? ==> AddPrices(s, init + [row]).Failure?
    ensures AddPrices(s, init).Success? ==> AddPrices(s, init + [row]) == PriceStep(AddPrices(s, init).value, row)
  {
    assert (init + [row])[..|init|] == init;
  }

  // ---------------------------------------------------------------------------------------
  // Service-date rows.
  // ---------------------------------------------------------------------------------------

  /** A known id's service date comes from its LAST date row: `None` when that row's field is
      empty, the parsed date otherwise. */
  lemma {:induction false} DateLastWins(s: Store, rows: seq<Row>, i: nat)
    requires Valid(s) && AddDates(s, rows).Success?
    requires i < |rows| && RowId(rows[i]) in s.items
    requires forall j :: i < j < |rows| ==> RowId(rows[j]) != RowId(rows[i])
    ensures |rows[i]| >= 2 && DateValue(Strip(rows[i][1])).Success?
    ensures AddDates(s, rows).value.items[RowId(rows[i])].serviceDate == DateValue(Strip(rows[i][1])).value
    ensures Strip(rows[i][1]) == "" ==> AddDates(s, rows).value.items[RowId(rows[i])].serviceDate == Blank
  {
    var init := rows[..|rows| - 1];
    if i < |rows| - 1 {
      DateLastWins(s, init, i);
    }
  }

  /** A known id without any date row keeps its record unchanged (so no `'ServiceDate'` key). */
  lemma {:induction false} DateUntouched(s: Store, rows: seq<Row>, k: string)
    requires Valid(s) && AddDates(s, rows).Success? && k in s.items && k !in IdsOf(rows)
    ensures AddDates(s, rows).value.items[k] == s.items[k]
  {
    if rows != [] {
      var init := rows[..|rows| - 1];
      assert IdsOf(rows) == IdsOf(init) + [RowId(rows[|rows| - 1])];
      DateUntouched(s, init, k);
    }
  }

  /** A non-empty date `strptime` rejects stops the merge whatever id its row carries. */
  lemma {:induction false} BadDateFails(s: Store, rows: seq<Row>, i: nat)
    requires Valid(s) && i < |rows| && |rows[i]| >= 2
    requires Strip(rows[i][1]) != "" && ParseDate(Strip(rows[i][1])).None?
    ensures AddDates(s, rows).Failure?
  {
    if AddDates(s, rows).Success? {
      var init := rows[..|rows| - 1];
      if i < |rows| - 1 {
        BadDateFails(s, init, i);
      }
    }
  }

  /** Date rows for unknown ids change nothing: dropping them gives the same store. */
  lemma {:induction false} DatesIgnoreUnknownIds(s: Store, rows: seq<Row>)
    requires Valid(s) && AddDates(s, rows).Success?
    ensures AddDates(s, Filter(rows, (row: Row) => RowId(row) in s.items)) == AddDates(s, rows)
  {
    if rows != [] {
      var known := (row: Row) => RowId(row) in s.items;
      var init, row := rows[..|rows| - 1], rows[|rows| - 1];
      DatesIgnoreUnknownIds(s, init);
      if known(row) {
        AddDatesSnoc(s, Filter(init, known), row);
      }
    }
  }

  /** `AddDates` over one more row: the date step applied to what the shorter loop built. */
  lemma AddDatesSnoc(s: Store, init: seq<Row>, row: Row)
    requires Valid(s)
    ensures AddDates(s, init).Failure? ==> AddDates(s, init + [row]).Failure?
    ensures AddDates(s, init).Success? ==> AddDates(s, init + [row]) == DateStep(AddDates(s, init).value, row)
  {
    assert (init + [row])[..|init|] == init;
  }

  // ---------------------------------------------------------------------------------------
  // The whole merge.
  // ---------------------------------------------------------------------------------------

  /** Merging into an empty store: the keys are exactly the manufacturer-row ids, in order of
      first appearance; price and date rows add no key. */
  lemma MergeKeys(manufacturers: seq<Row>, prices: seq<Row>, dates: seq<Row>)
    requires Merge(Empty(), manufacturers, prices, dates).Success?
    ensures Merge(Empty(), manufacturers, prices, dates).value.ids == Dedup(IdsOf(manufacturers))
    ensures forall k :: k in Merge(Empty(), manufacturers, prices, dates).value.items <==> k in IdsOf(manufacturers)
  {
    ManufacturerOrder(Empty(), manufacturers);
    ManufacturerKeys(Empty(), manufacturers);
    assert [] + IdsOf(manufacturers) == IdsOf(manufacturers);
  }

  // ---------------------------------------------------------------------------------------
  // The three loops as both programs write them, each proved to compute its table's step of
  // the merge.
  // ---------------------------------------------------------------------------------------

  /** `for item in ManufacturerList`: each row (re)places the record of its stripped id; a
      row with fewer than three fields raises `IndexError`. */
  method LoadManufacturers(s: Store, rows: seq<Row>) returns (r: Result<Store, MergeError>)
    requires Valid(s)
    ensures r == AddManufacturers(s, rows)
  {
    var inventory := s;
    var i := 0;
    while i < |rows|
      invariant 0 <= i <= |rows|
      invariant Valid(inventory)
      invariant AddManufacturers(s, rows[..i]) == Success(inventory)
    {
      var row := rows[i];
      assert rows[..i + 1][..i] == rows[..i];
      if |row| < 3 {
        ManufacturersFailureSticks(s, rows, i + 1);
        return Failure(ShortRow);
      }
      inventory := Put(inventory, Strip(row[0]), NewRecord(row));
      i := i + 1;
    }
    assert rows[..i] == rows;
    return Success(inventory);
  }

  /** `for item in PriceList`: every row goes through `ReadPriceRow`; the first row that
      fails stops the loop with its error. */
  method LoadPrices(s: Store, rows: seq<Row>) returns (r: Result<Store, MergeError>)
    requires Valid(s)
    ensures r == AddPrices(s, rows)
  {
    var inventory := s;
    var i := 0;
    while i < |rows|
      invariant 0 <= i <= |rows|
      invariant AddPrices(s, rows[..i]) == Success(inventory)
    {
      PriceRowStep(s, rows, i, inventory);
      var next := ReadPriceRow(inventory, rows[i]);
      if next.Failure? {
        PricesFailureSticks(s, rows, i + 1);
        return next;
      }
      inventory := next.value;
      i := i + 1;
    }
    assert rows[..i] == rows;
    return Success(inventory);
  }

  /** The body of the price loop for one row: the price is parsed first (`ValueError` when
      `int()` rejects it) and stored only when the id is already a key. */
  method ReadPriceRow(t: Store, row: Row) returns (r: Result<Store, MergeError>)
    requires Valid(t)
    ensures r == PriceStep(t, row)
  {
    if |row| < 2 {
      return Failure(ShortRow);
    }
    var id := Strip(row[0]);
    var price := ParseInt(Strip(row[1]));
    if price.None? {
      return Failure(BadPrice);
    }
    var inventory := t;
    if id in inventory.items {
      inventory := Update(inventory, id, inventory.items[id].(price := price));
    }
    return Success(inventory);
  }

  /** Row `i` of the prices loop: the step applied to what the first `i` rows built. */
  lemma PriceRowStep(s: Store, rows: seq<Row>, i: nat, t: Store)
    requires Valid(s) && i < |rows| && AddPrices(s, rows[..i]) == Success(t)
    ensures AddPrices(s, rows[..i + 1]) == PriceStep(t, rows[i])
  {
    assert rows[..i + 1][..i] == rows[..i];
  }

  /** `for item in ServiceDatesList`: every row goes through `ReadDateRow`; the first row
      that fails stops the loop with its error. */
  method LoadDates(s: Store, rows: seq<Row>) returns (r: Result<Store, MergeError>)
    requires Valid(s)
    ensures r == AddDates(s, rows)
  {
    var inventory := s;
    var i := 0;
    while i < |rows|
      invariant 0 <= i <= |rows|
      invariant AddDates(s, rows[..i]) == Success(inventory)
    {
      DateRowStep(s, rows, i, inventory);
      var next := ReadDateRow(inventory, rows[i]);
      if next.Failure? {
        DatesFailureSticks(s, rows, i + 1);
        return next;
      }
      inventory := next.value;
      i := i + 1;
    }
    assert rows[..i] == rows;
    return Success(inventory);
  }

  /** The body of the service-date loop for one row: an empty field gives `None`, any other
      is parsed (`ValueError` when `strptime` rejects it); the date is stored only when the
      id is already a key. */
  method ReadDateRow(t: Store, row: Row) returns (r: Result<Store, MergeError>)
    requires Valid(t)
    ensures r == DateStep(t, row)
  {
    if |row| < 2 {
      return Failure(ShortRow);
    }
    var id := Strip(row[0]);
    var field := Strip(row[1]);
    var date := Blank;
    if field != "" {
      var parsed := ParseDate(field);
      if parsed.None? {
        return Failure(BadDate);
      }
      date := On(parsed.value);
    }
    var inventory := t;
    if id in inventory.items {
      inventory := Update(inventory, id, inventory.items[id].(serviceDate := date));
    }
    return Success(inventory);
  }

  /** Row `i` of the dates loop: the step applied to what the first `i` rows built. */
  lemma DateRowStep(s: Store, rows: seq<Row>, i: nat, t: Store)
    requires Valid(s) && i < |rows| && AddDates(s, rows[..i]) == Success(t)
    ensures AddDates(s, rows[..i + 1]) == DateStep(t, rows[i])
  {
    assert rows[..i + 1][..i] == rows[..i];
  }
}
