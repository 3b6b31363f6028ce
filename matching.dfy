/** The interactive matcher of `InventoryManager`: the best-priced eligible item for a
    manufacturer and an item type, the item of that type whose price is closest to it, and the
    query that finds both from free text. These are reference definitions; the class's methods
    are proved to compute them. */
module Matching {
  import opened Wrappers
  import opened Text
  import opened Dates
  import opened Seqs
  import opened Records
  import Reports

  /** Why a lookup stops half-way: a record lacks a key the code reads (`KeyError`), or its
      service date is `None` and cannot be compared with now (`TypeError`). */
  datatype Fault = KeyError | TypeError

  /** `item['ServiceDate'] > today`, which raises when the key is missing or holds `None`. */
  function InFuture(r: Record, now: Moment): (b: Result<bool, Fault>)
    ensures b.Success? <==> r.serviceDate.On?
    ensures b == Failure(TypeError) <==> r.serviceDate.Blank?
    ensures b == Success(true) <==> r.serviceDate.On? && IsFuture(r.serviceDate.date, now)
  {
    match r.serviceDate
    case Unset => Failure(KeyError)
    case Blank => Failure(TypeError)
    case On(d) => Success(IsFuture(d, now))
  }

  /** The tests the matcher makes before it reads the date; the date is read only for the
      entries that pass them. */
  type Screen = Entry -> bool

  /** `find_best_match`: manufacturer and type equal up to case, and no damage note. */
  function BestCandidate(manufacturer: string, itemType: string): Screen
  {
    (e: Entry) =>
      Lower(e.1.manufacturer) == Lower(manufacturer) && Lower(e.1.itemType) == Lower(itemType)
      && e.1.damaged == ""
  }

  /** `find_closest_alternative`: another item id, the type equal up to case, and no damage
      note. The manufacturer is not compared. */
  function AltCandidate(selectedId: string, itemType: string): Screen
  {
    (e: Entry) => e.0 != selectedId && Lower(e.1.itemType) == Lower(itemType) && e.1.damaged == ""
  }

  /** An entry the search keeps: it passes the screen and its date is after `now`. */
  function Eligible(screen: Screen, now: Moment): Screen
  {
    (e: Entry) => screen(e) && e.1.serviceDate.On? && IsFuture(e.1.serviceDate.date, now)
  }

  /** The first loop of both searches: the entries that pass the screen and whose date is
      after `now`, in order, or the fault of the first screened entry whose date cannot be
      compared. It fails exactly when some screened entry has no date, and otherwise keeps
      exactly the eligible entries. */
  function Select(es: seq<Entry>, screen: Screen, now: Moment): (r: Result<seq<Entry>, Fault>)
    ensures r.Success? <==> forall e :: e in es && screen(e) ==> e.1.serviceDate.On?
    ensures r.Success? ==> r.value == Filter(es, Eligible(screen, now))
  {
    if es == [] then Success([])
    else
      var init, e := es[..|es| - 1], es[|es| - 1];
      SplitLast(es);
      FilterSnoc(init, e, Eligible(screen, now));
      match Select(init, screen, now)
      case Failure(f) => Failure(f)
      case Success(kept) =>
        if !screen(e) then Success(kept)
        else match InFuture(e.1, now)
          case Failure(f) => Failure(f)
          case Success(future) => if future then Success(kept + [e]) else Success(kept)
  }

  /** Once a prefix of the entries makes the selection fail, the whole selection fails with
      the same fault: the loop stops at the first undated screened entry. */
  lemma {:induction false} SelectFailureSticks(es: seq<Entry>, screen: Screen, now: Moment, i: nat)
    requires i <= |es| && Select(es[..i], screen, now).Failure?
    ensures Select(es, screen, now) == Select(es[..i], screen, now)
    decreases |es| - i
  {
    if i < |es| {
      assert es[..i + 1][..i] == es[..i];
      SelectFailureSticks(es, screen, now, i + 1);
    } else {
      assert es[..i] == es;
    }
  }

  /** The price of an entry known to have one. */
  function PriceOf(e: Entry): int
    requires e.1.price.Some?
  {
    e.1.price.value
  }

  /** The arg-max loop of `find_best_match`: start from the first entry, move to any later
      entry whose price is strictly greater. Reading a missing price raises `KeyError`. */
  function ArgMaxPrice(ms: seq<Entry>): (r: Result<Entry, Fault>)
    requires ms != []
    ensures r.Success? <==> AllPriced(ms)
    ensures r.Failure? ==> r.error == KeyError
    ensures r.Success? ==> r.value in ms && r.value.1.price.Some?
  {
    if |ms| == 1 then
      if ms[0].1.price.None? then Failure(KeyError) else Success(ms[0])
    else
      var init, e := ms[..|ms| - 1], ms[|ms| - 1];
      SplitLast(ms);
      match ArgMaxPrice(init)
      case Failure(f) => Failure(f)
      case Success(best) =>
        if e.1.price.None? then Failure(KeyError)
        else if PriceOf(e) > PriceOf(best) then Success(e) else Success(best)
  }

  /** Every entry of `ms` has a price. */
  predicate AllPriced(ms: seq<Entry>)
  {
    forall e :: e in ms ==> e.1.price.Some?
  }

  /** `best` is an entry of `ms` of greatest price, and no earlier entry is as dear. */
  predicate FirstDearest(ms: seq<Entry>, best: Entry)
    requires AllPriced(ms) && best.1.price.Some?
  {
    && best in ms
    && (forall e :: e in ms ==> PriceOf(e) <= PriceOf(best))
    && (forall j :: 0 <= j < |ms| && PriceOf(ms[j]) >= PriceOf(best) ==> best in ms[..j + 1])
  }

  /** The arg-max picks an entry of greatest price, and no entry before it has that price:
      every entry at least as dear as the result comes at or after it. */
  lemma {:induction false} ArgMaxPriceSpec(ms: seq<Entry>)
    requires ms != [] && ArgMaxPrice(ms).Success?
    ensures FirstDearest(ms, ArgMaxPrice(ms).value)
  {
    if |ms| > 1 {
      var init, e := ms[..|ms| - 1], ms[|ms| - 1];
      SplitLast(ms);
      ArgMaxPriceSpec(init);
      DearestStep(init, e, ArgMaxPrice(init).value, ArgMaxPrice(ms).value);
    } else {
      assert ms == [ms[0]];
    }
  }

  /** One step of the arg-max loop keeps "dearest, and first among the dearest". */
  lemma DearestStep(init: seq<Entry>, e: Entry, best: Entry, b: Entry)
    requires e.1.price.Some? && AllPriced(init) && best.1.price.Some?
    requires FirstDearest(init, best)
    requires b == if PriceOf(e) > PriceOf(best) then e else best
    ensures forall x :: x in init + [e] ==> x.1.price.Some? && PriceOf(x) <= PriceOf(b)
    ensures forall j :: 0 <= j < |init + [e]| && PriceOf((init + [e])[j]) >= PriceOf(b) ==> b in (init + [e])[..j + 1]
  {
    var ms := init + [e];
    forall x | x in ms ensures x.1.price.Some? && PriceOf(x) <= PriceOf(b) {
      if x != e {
        assert x in init;
      }
    }
    forall j | 0 <= j < |ms| && PriceOf(ms[j]) >= PriceOf(b) ensures b in ms[..j + 1] {
      if j < |init| {
        assert ms[j] == init[j] && ms[..j + 1] == init[..j + 1];
        assert init[j] in init;
      } else {
        assert ms[..j + 1] == ms;
      }
    }
  }

  /** `abs(item[1]['Price'] - selected_price)`. */
  function Distance(e: Entry, price: int): nat
    requires e.1.price.Some?
  {
    if PriceOf(e) >= price then PriceOf(e) - price else price - PriceOf(e)
  }

  /** The arg-min loop of `find_closest_alternative`: keep the first entry whose distance to
      `price` is strictly smaller than the best so far. Reading a missing price raises
      `KeyError`. */
  function ArgMinDistance(alts: seq<Entry>, price: int): (r: Result<Option<Entry>, Fault>)
    ensures r.Success? <==> AllPriced(alts)
    ensures r.Failure? ==> r.error == KeyError
    ensures r.Success? ==> (r.value.None? <==> alts == [])
    ensures r.Success? && r.value.Some? ==> r.value.value in alts && r.value.value.1.price.Some?
  {
    if alts == [] then Success(None)
    else
      var init, e := alts[..|alts| - 1], alts[|alts| - 1];
      SplitLast(alts);
      match ArgMinDistance(init, price)
      case Failure(f) => Failure(f)
      case Success(closest) =>
        if e.1.price.None? then Failure(KeyError)
        else if closest.None? || Distance(e, price) < Distance(closest.value, price) then Success(Some(e))
        else Success(closest)
  }

  /** `c` is an entry of `alts` closest to `price`, and no earlier entry is as close. */
  predicate FirstClosest(alts: seq<Entry>, c: Entry, price: int)
    requires AllPriced(alts) && c.1.price.Some?
  {
    && c in alts
    && (forall e :: e in alts ==> Distance(c, price) <= Distance(e, price))
    && (forall j :: 0 <= j < |alts| && Distance(alts[j], price) <= Distance(c, price) ==> c in alts[..j + 1])
  }

  /** The arg-min picks an entry of least distance, and no entry before it is as close:
      every entry at least as close as the result comes at or after it. */
  lemma {:induction false} ArgMinDistanceSpec(alts: seq<Entry>, price: int)
    requires ArgMinDistance(alts, price).Success? && ArgMinDistance(alts, price).value.Some?
    ensures FirstClosest(alts, ArgMinDistance(alts, price).value.value, price)
  {
    var init, e := alts[..|alts| - 1], alts[|alts| - 1];
    SplitLast(alts);
    var c := ArgMinDistance(alts, price).value.value;
    if init == [] {
      assert alts == [e] && c == e;
    } else {
      ArgMinDistanceSpec(init, price);
      var closest := ArgMinDistance(init, price).value.value;
      ClosestStep(init, e, price, closest, c);
    }
  }

  /** One step of the arg-min loop keeps "closest, and first among the closest". */
  lemma ClosestStep(init: seq<Entry>, e: Entry, price: int, closest: Entry, c: Entry)
    requires e.1.price.Some? && closest in init && closest.1.price.Some?
    requires forall x :: x in init ==> x.1.price.Some? && Distance(closest, price) <= Distance(x, price)
    requires forall j :: 0 <= j < |init| && Distance(init[j], price) <= Distance(closest, price) ==> closest in init[..j + 1]
    requires c == if Distance(e, price) < Distance(closest, price) then e else closest
    ensures forall x :: x in init + [e] ==> x.1.price.Some? && Distance(c, price) <= Distance(x, price)
    ensures forall j :: 0 <= j < |init + [e]| && Distance((init + [e])[j], price) <= Distance(c, price) ==> c in (init + [e])[..j + 1]
  {
    var alts := init + [e];
    forall j | 0 <= j < |alts| && Distance(alts[j], price) <= Distance(c, price) ensures c in alts[..j + 1] {
      if j < |init| {
        assert alts[j] == init[j] && alts[..j + 1] == init[..j + 1];
        assert init[j] in init;
      } else {
        assert alts[..j + 1] == alts;
      }
    }
  }

  /** `find_best_match(manufacturer, item_type)`: `None` when no entry is eligible, else the
      first eligible entry of greatest price. */
  function BestMatch(s: Store, manufacturer: string, itemType: string, now: Moment): (r: Result<Option<Entry>, Fault>)
    requires Valid(s)
    ensures r.Success? && r.value.Some? ==> r.value.value.1.price.Some?
  {
    match Select(Entries(s), BestCandidate(manufacturer, itemType), now)
    case Failure(f) => Failure(f)
    case Success(ms) =>
      if ms == [] then Success(None)
      else match ArgMaxPrice(ms)
        case Failure(f) => Failure(f)
        case Success(e) => Success(Some(e))
  }

  /** `find_closest_alternative(selected_item_id, item_type, selected_price)`: `None` when no
      other entry of the type is eligible, else the first eligible one whose price is closest
      to `price`. */
  function ClosestAlternative(s: Store, selectedId: string, itemType: string, price: int, now: Moment): (r: Result<Option<Entry>, Fault>)
    requires Valid(s)
    ensures r.Success? && r.value.Some? ==> r.value.value.1.price.Some?
  {
    match Select(Entries(s), AltCandidate(selectedId, itemType), now)
    case Failure(f) => Failure(f)
    case Success(alts) => ArgMinDistance(alts, price)
  }

  /** `find_best_match` completes without raising exactly when every matching undamaged
      record has a date and every eligible one a price. It then answers `None` exactly when no
      record is eligible, and otherwise an eligible record of greatest price, the first such
      in insertion order. */
  lemma BestMatchSpec(s: Store, manufacturer: string, itemType: string, now: Moment)
    requires Valid(s)
    ensures var screen := BestCandidate(manufacturer, itemType);
      BestMatch(s, manufacturer, itemType, now).Success? <==>
        && (forall e :: e in Entries(s) && screen(e) ==> e.1.serviceDate.On?)
        && (forall e :: e in Entries(s) && Eligible(screen, now)(e) ==> e.1.price.Some?)
    ensures var r := BestMatch(s, manufacturer, itemType, now);
      r.Success? ==> (r.value.None? <==> forall e :: e in Entries(s) ==> !Eligible(BestCandidate(manufacturer, itemType), now)(e))
    ensures var r := BestMatch(s, manufacturer, itemType, now);
      r.Success? && r.value.Some? ==>
        var eligible := Filter(Entries(s), Eligible(BestCandidate(manufacturer, itemType), now));
        var best := r.value.value;
        AllPriced(eligible) && FirstDearest(eligible, best)
  {
    var screen := BestCandidate(manufacturer, itemType);
    var sel := Select(Entries(s), screen, now);
    if sel.Success? && sel.value != [] && ArgMaxPrice(sel.value).Success? {
      ArgMaxPriceSpec(sel.value);
    }
  }

  /** `find_closest_alternative` completes without raising exactly when every other undamaged
      record of the type has a date and every eligible one a price. It then answers `None`
      exactly when no other record of the type is eligible, and otherwise an eligible record
      (of any manufacturer) whose price is closest to `price`, the first such in insertion
      order. */
  lemma ClosestAlternativeSpec(s: Store, selectedId: string, itemType: string, price: int, now: Moment)
    requires Valid(s)
    ensures var screen := AltCandidate(selectedId, itemType);
      ClosestAlternative(s, selectedId, itemType, price, now).Success? <==>
        && (forall e :: e in Entries(s) && screen(e) ==> e.1.serviceDate.On?)
        && (forall e :: e in Entries(s) && Eligible(screen, now)(e) ==> e.1.price.Some?)
    ensures var r := ClosestAlternative(s, selectedId, itemType, price, now);
      r.Success? ==> (r.value.None? <==> forall e :: e in Entries(s) ==> !Eligible(AltCandidate(selectedId, itemType), now)(e))
    ensures var r := ClosestAlternative(s, selectedId, itemType, price, now);
      r.Success? && r.value.Some? ==>
        var eligible := Filter(Entries(s), Eligible(AltCandidate(selectedId, itemType), now));
        var alt := r.value.value;
        alt.0 != selectedId && AllPriced(eligible) && FirstClosest(eligible, alt, price)
  {
    var screen := AltCandidate(selectedId, itemType);
    var sel := Select(Entries(s), screen, now);
    if sel.Success? {
      var r := ArgMinDistance(sel.value, price);
      if r.Success? && r.value.Some? {
        ArgMinDistanceSpec(sel.value, price);
      }
      if sel.value == [] {
        forall e | e in Entries(s) ensures !Eligible(screen, now)(e) {
          assert e !in sel.value;
        }
      }
    }
  }

  // ---------------------------------------------------------------------------------------
  // The query
  // ---------------------------------------------------------------------------------------

  /** The lower-cased manufacturers of the store. */
  function ManufacturerNames(s: Store): set<string>
  {
    set id | id in s.items :: Lower(s.items[id].manufacturer)
  }

  /** The lower-cased item types of the store. */
  function TypeNames(s: Store): set<string>
  {
    set id | id in s.items :: Lower(s.items[id].itemType)
  }

  /** The query words that are names, each once, in the order the query first uses them: what
      the `manufacturers` and `item_types` lists of `process_query` end up holding. */
  function Recognized(words: seq<string>, names: set<string>): (r: seq<string>)
    ensures Distinct(r)
    ensures forall w :: w in r <==> w in words && w in names
  {
    Dedup(Filter(words, (w: string) => w in names))
  }

  /** What a query leaves on the screen: the printed lines, and the fault when the lookup
      raised after printing them. */
  datatype Printed = Printed(lines: seq<string>, raised: Option<Fault>)

  const NoSuchItem := "No such item in inventory"

  /** `Your item is: id, manufacturer, itemType, price` (or the alternative's prefix): after
      the prefix, the line splits at `", "` back into the item's four columns. */
  function ItemLine(prefix: string, e: Entry): (line: string)
    requires e.1.price.Some?
    ensures |line| > |prefix| && line[..|prefix|] == prefix
    ensures Reports.CommaFreeEntry(e) ==>
      Reports.SplitColumns(line[|prefix|..]) == [e.0, e.1.manufacturer, e.1.itemType, IntToString(PriceOf(e))]
  {
    var fields := [e.0, e.1.manufacturer, e.1.itemType, IntToString(PriceOf(e))];
    var line := prefix + Reports.Columns(fields);
    assert line[|prefix|..] == Reports.Columns(fields);
    if Reports.CommaFreeEntry(e) then
      Reports.PriceCommaFree(e.1.price);
      Reports.ColumnsSplit(fields);
      line
    else line
  }

  /** What `process_query` prints once it has the recognised manufacturers and item types:
      the message unless there is exactly one of each; otherwise the best match and, when
      there is one, the closest alternative of the same type. A fault ends the output. The two
      searches read the clock separately: `bestNow` is the reading of the best-match search and
      `altNow` that of the alternative search, with no order assumed between them. */
  function Respond(s: Store, manufacturers: seq<string>, itemTypes: seq<string>, bestNow: Moment, altNow: Moment): (p: Printed)
    requires Valid(s)
    ensures |p.lines| <= 2
    ensures p.raised.Some? ==> |p.lines| <= 1
  {
    if |manufacturers| != 1 || |itemTypes| != 1 then Printed([NoSuchItem], None)
    else match BestMatch(s, manufacturers[0], itemTypes[0], bestNow)
      case Failure(f) => Printed([], Some(f))
      case Success(None) => Printed([NoSuchItem], None)
      case Success(Some(e)) =>
        var first := ItemLine("Your item is: ", e);
        match ClosestAlternative(s, e.0, itemTypes[0], PriceOf(e), altNow)
        case Failure(f) => Printed([first], Some(f))
        case Success(None) => Printed([first], None)
        case Success(Some(a)) => Printed([first, ItemLine("You may, also, consider: ", a)], None)
  }

  /** `process_query(user_input)`: the lower-cased input split into words, and the
      manufacturers and item types of the store it names. A lookup happens only when the words
      name exactly one manufacturer and exactly one item type, however often each is repeated;
      it then searches for those two names. */
  function QueryResponse(s: Store, input: string, bestNow: Moment, altNow: Moment): (p: Printed)
    requires Valid(s)
    ensures var words := Words(Lower(input));
      (forall w :: w in words ==> w !in ManufacturerNames(s)) ==> p == Printed([NoSuchItem], None)
    ensures var words := Words(Lower(input));
      (forall w :: w in words ==> w !in TypeNames(s)) ==> p == Printed([NoSuchItem], None)
    ensures var words := Words(Lower(input));
      forall v, w :: v in words && w in words && v != w && v in ManufacturerNames(s) && w in ManufacturerNames(s) ==>
        p == Printed([NoSuchItem], None)
    ensures var words := Words(Lower(input));
      forall v, w :: v in words && w in words && v != w && v in TypeNames(s) && w in TypeNames(s) ==>
        p == Printed([NoSuchItem], None)
    ensures var words := Words(Lower(input));
      forall m, t ::
        && m in words && m in ManufacturerNames(s) && (forall w :: w in words && w in ManufacturerNames(s) ==> w == m)
        && t in words && t in TypeNames(s) && (forall w :: w in words && w in TypeNames(s) ==> w == t)
        ==> p == Respond(s, [m], [t], bestNow, altNow)
  {
    var words := Words(Lower(input));
    RecognizedCount(words, ManufacturerNames(s));
    RecognizedCount(words, TypeNames(s));
    Respond(s, Recognized(words, ManufacturerNames(s)), Recognized(words, TypeNames(s)), bestNow, altNow)
  }

  /** How many names the words recognise: none when no word is a name, at least two when two
      different words are, and exactly the one name when every name among the words is it. */
  lemma RecognizedCount(words: seq<string>, names: set<string>)
    ensures (forall w :: w in words ==> w !in names) ==> Recognized(words, names) == []
    ensures forall v, w :: v in words && w in words && v != w && v in names && w in names ==>
      |Recognized(words, names)| >= 2
    ensures forall m :: m in words && m in names && (forall w :: w in words && w in names ==> w == m) ==>
      Recognized(words, names) == [m]
  {
    var r := Recognized(words, names);
    if r != [] {
      assert r[0] in r;
    }
    forall v, w | v in words && w in words && v != w && v in names && w in names
      ensures |r| >= 2
    {
      assert v in r && w in r;
    }
    forall m | m in words && m in names && (forall w :: w in words && w in names ==> w == m)
      ensures r == [m]
    {
      OnlyOne(r, m);
    }
  }

  /** The answer is exactly the message "No such item in inventory" when the query does not
      name exactly one manufacturer and one item type, or names them but nothing is eligible;
      any other answer reports an item or a fault. */
  lemma QueryNoSuchItem(s: Store, manufacturers: seq<string>, itemTypes: seq<string>, bestNow: Moment, altNow: Moment)
    requires Valid(s)
    ensures Respond(s, manufacturers, itemTypes, bestNow, altNow) == Printed([NoSuchItem], None) <==>
      || |manufacturers| != 1 || |itemTypes| != 1
      || BestMatch(s, manufacturers[0], itemTypes[0], bestNow) == Success(None)
  {
    if |manufacturers| == 1 && |itemTypes| == 1 {
      var best := BestMatch(s, manufacturers[0], itemTypes[0], bestNow);
      if best.Success? && best.value.Some? {
        var line := ItemLine("Your item is: ", best.value.value);
        assert line[0] == 'Y' && NoSuchItem[0] == 'N';
      }
    }
  }

  /** Once one manufacturer and one item type are named: a fault of the best-match search is
      the whole answer; a best match is printed first, and a second line follows exactly when
      the alternative search finds an item. */
  lemma QueryFound(s: Store, manufacturer: string, itemType: string, bestNow: Moment, altNow: Moment)
    requires Valid(s)
    ensures var best := BestMatch(s, manufacturer, itemType, bestNow);
      var out := Respond(s, [manufacturer], [itemType], bestNow, altNow);
      && (best.Failure? ==> out == Printed([], Some(best.error)))
      && (best.Success? && best.value.Some? ==>
           var alt := ClosestAlternative(s, best.value.value.0, itemType, PriceOf(best.value.value), altNow);
           && out.lines != []
           && out.lines[0] == ItemLine("Your item is: ", best.value.value)
           && (|out.lines| == 2 <==> alt.Success? && alt.value.Some?)
           && (alt.Success? && alt.value.Some? ==>
                out.lines == [ItemLine("Your item is: ", best.value.value), ItemLine("You may, also, consider: ", alt.value.value)])
           && (out.raised.Some? <==> alt.Failure?)
           && (alt.Failure? ==> out.raised == Some(alt.error)))
  {
  }

  /** A selection step: the selection of `init + [e]` from that of `init`. */
  lemma SelectSnoc(init: seq<Entry>, e: Entry, screen: Screen, now: Moment)
    ensures Select(init + [e], screen, now) ==
      match Select(init, screen, now)
      case Failure(f) => Failure(f)
      case Success(kept) =>
        if !screen(e) then Success(kept)
        else match InFuture(e.1, now)
          case Failure(f) => Failure(f)
          case Success(future) => if future then Success(kept + [e]) else Success(kept)
  {
    assert (init + [e])[..|init|] == init;
  }

  /** The records of the example store: undamaged widgets serviced in 2026. */
  function Widget(manufacturer: string, price: int): Record
  {
    Record(manufacturer, "Widget", "", Some(price), On(Date(2026, 1, 1)))
  }

  /** Two Acme widgets priced 50 and 80 and a Bolt widget, in that insertion order. */
  function ExampleStore(bolt: int): (s: Store)
    ensures Valid(s)
    ensures Entries(s) == [("A1", Widget("Acme", 50)), ("A2", Widget("Acme", 80)), ("B1", Widget("Bolt", bolt))]
  {
    Store(["A1", "A2", "B1"], map["A1" := Widget("Acme", 50), "A2" := Widget("Acme", 80), "B1" := Widget("Bolt", bolt)])
  }

  /** The search for an Acme widget keeps both Acme widgets while their service date is ahead. */
  lemma ExampleBestSelection(bolt: int, now: Moment)
    requires IsFuture(Date(2026, 1, 1), now)
    ensures var a1, a2, b1 := ("A1", Widget("Acme", 50)), ("A2", Widget("Acme", 80)), ("B1", Widget("Bolt", bolt));
      Select([a1, a2, b1], BestCandidate("acme", "widget"), now) == Success([a1, a2])
  {
    var a1, a2, b1 := ("A1", Widget("Acme", 50)), ("A2", Widget("Acme", 80)), ("B1", Widget("Bolt", bolt));
    var screen := BestCandidate("acme", "widget");
    assert Lower("Acme") == "acme" && Lower("Widget") == "widget" && Lower("Bolt") == "bolt";
    assert screen(a1) && screen(a2) && !screen(b1);
    SelectSnoc([], a1, screen, now);
    assert Select([a1], screen, now) == Success([a1]);
    SelectSnoc([a1], a2, screen, now);
    assert [a1] + [a2] == [a1, a2] && [a1, a2] + [b1] == [a1, a2, b1];
    assert Select([a1, a2], screen, now) == Success([a1, a2]);
    SelectSnoc([a1, a2], b1, screen, now);
  }

  /** The search for an alternative to `A2` keeps the other Acme widget and the Bolt one while
      their service date is ahead, and nothing once that day has begun. */
  lemma ExampleAltSelection(bolt: int, now: Moment)
    ensures var a1, a2, b1 := ("A1", Widget("Acme", 50)), ("A2", Widget("Acme", 80)), ("B1", Widget("Bolt", bolt));
      Select([a1, a2, b1], AltCandidate("A2", "widget"), now)
        == Success(if IsFuture(Date(2026, 1, 1), now) then [a1, b1] else [])
  {
    var a1, a2, b1 := ("A1", Widget("Acme", 50)), ("A2", Widget("Acme", 80)), ("B1", Widget("Bolt", bolt));
    var screen := AltCandidate("A2", "widget");
    var kept: seq<Entry> := if IsFuture(Date(2026, 1, 1), now) then [a1] else [];
    assert Lower("Widget") == "widget";
    assert screen(a1) && !screen(a2) && screen(b1);
    SelectSnoc([], a1, screen, now);
    assert Select([a1], screen, now) == Success(kept);
    SelectSnoc([a1], a2, screen, now);
    assert [a1] + [a2] == [a1, a2] && [a1, a2] + [b1] == [a1, a2, b1];
    assert Select([a1, a2], screen, now) == Success(kept);
    SelectSnoc([a1, a2], b1, screen, now);
    assert [a1] + [b1] == [a1, b1];
  }

  /** Two undamaged Acme widgets priced 50 and 80 and a Bolt widget, serviced after `now`:
      the query for an Acme widget finds the one priced 80. */
  lemma AcmeBestMatch(bolt: int, now: Moment)
    requires IsFuture(Date(2026, 1, 1), now)
    ensures BestMatch(ExampleStore(bolt), "acme", "widget", now) == Success(Some(("A2", Widget("Acme", 80))))
  {
    var a1, a2 := ("A1", Widget("Acme", 50)), ("A2", Widget("Acme", 80));
    ExampleBestSelection(bolt, now);
    assert [a1, a2][..1] == [a1];
    assert ArgMaxPrice([a1, a2]) == Success(a2);
  }

  /** In the same store, the alternative to the widget priced 80 is the Bolt widget when it
      is the closer (priced 70), and the other Acme widget when that is the closer (Bolt priced
      40): the alternative may come from the manufacturer of the match. */
  lemma AcmeAlternative(bolt: int, now: Moment)
    requires bolt == 70 || bolt == 40
    requires IsFuture(Date(2026, 1, 1), now)
    ensures ClosestAlternative(ExampleStore(bolt), "A2", "widget", 80, now)
         == Success(Some(if bolt == 70 then ("B1", Widget("Bolt", 70)) else ("A1", Widget("Acme", 50))))
  {
    var a1, b1 := ("A1", Widget("Acme", 50)), ("B1", Widget("Bolt", bolt));
    ExampleAltSelection(bolt, now);
    assert [a1, b1][..1] == [a1] && [a1][..0] == [];
    assert ArgMinDistance([a1], 80) == Success(Some(a1));
  }

  /** The two searches of one query read the clock separately. Asked for an Acme widget one
      second before the widgets' service day, a query whose alternative search still reads
      that second prints the Bolt widget as well; one whose alternative search reads the
      clock after midnight prints the match alone. */
  lemma SearchesStraddleMidnight()
    ensures var late, midnight := Moment(Date(2025, 12, 31), 86399), Moment(Date(2026, 1, 1), 0);
      var s, a2, b1 := ExampleStore(70), ("A2", Widget("Acme", 80)), ("B1", Widget("Bolt", 70));
      && Respond(s, ["acme"], ["widget"], late, late)
           == Printed([ItemLine("Your item is: ", a2), ItemLine("You may, also, consider: ", b1)], None)
      && Respond(s, ["acme"], ["widget"], late, midnight) == Printed([ItemLine("Your item is: ", a2)], None)
  {
    var late, midnight := Moment(Date(2025, 12, 31), 86399), Moment(Date(2026, 1, 1), 0);
    assert IsFuture(Date(2026, 1, 1), late) && !IsFuture(Date(2026, 1, 1), midnight);
    AcmeBestMatch(70, late);
    AcmeAlternative(70, late);
    ExampleAltSelection(70, midnight);
  }
}
