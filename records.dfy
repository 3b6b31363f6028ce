/** The merged record store: a dictionary from item id to record, iterated in first-insertion
    order as a Python `dict` is. */
module Records {
  import opened Wrappers
  import opened Dates
  import opened Seqs

  /** What a record's `'ServiceDate'` key holds: no key at all, the key with `None` (the date
      field was empty), or a parsed date. */
  datatype ServiceDate = Unset | Blank | On(date: Date)

  datatype Record = Record(
    manufacturer: string,
    itemType: string,
    damaged: string,            // "" means undamaged; anything else is the damage note
    price: Option<int>,         // None: no `'Price'` key
    serviceDate: ServiceDate)

  /** An `(item_id, item)` pair, as `dict.items()` yields it. */
  type Entry = (string, Record)

  /** An insertion-ordered dictionary: `ids` lists the keys in the order they were first
      inserted, `items` maps them to their records. */
  datatype Store = Store(ids: seq<string>, items: map<string, Record>)

  /** A stored date is a real calendar date (`strptime` accepts no other). */
  predicate WellFormed(r: Record)
  {
    r.serviceDate.On? ==> ValidDate(r.serviceDate.date)
  }

  ghost predicate Valid(s: Store)
  {
    && Distinct(s.ids)
    && (forall id :: id in s.items <==> id in s.ids)
    && (forall id :: id in s.items ==> WellFormed(s.items[id]))
  }

  function Empty(): (s: Store)
    ensures Valid(s) && s.ids == [] && s.items == map[]
  {
    Store([], map[])
  }

  /** `d[id] = r`: a new key is appended to the iteration order, an existing key keeps its
      place and only its record is replaced. */
  function Put(s: Store, id: string, r: Record): (t: Store)
    requires Valid(s) && WellFormed(r)
    ensures Valid(t)
    ensures t.items.Keys == s.items.Keys + {id} && t.items[id] == r
    ensures forall k :: k in s.items && k != id ==> t.items[k] == s.items[k]
    ensures |t.ids| >= |s.ids| && t.ids[..|s.ids|] == s.ids
  {
    if id in s.items then Store(s.ids, s.items[id := r])
    else
      DistinctSnoc(s.ids, id);
      Store(s.ids + [id], s.items[id := r])
  }

  /** Assigning a field of the record under a present key: the key set and order stay, the
      key holds the new record and every other record is unchanged. */
  function Update(s: Store, id: string, r: Record): (t: Store)
    requires Valid(s) && id in s.items && WellFormed(r)
    ensures Valid(t) && t.ids == s.ids && t.items.Keys == s.items.Keys
    ensures t.items[id] == r
    ensures forall k :: k in s.items && k != id ==> t.items[k] == s.items[k]
  {
    Store(s.ids, s.items[id := r])
  }

  /** `d.items()`: the (id, record) pairs in iteration order. */
  function Entries(s: Store): (es: seq<Entry>)
    requires Valid(s)
    ensures |es| == |s.ids|
    ensures forall i :: 0 <= i < |es| ==> es[i].0 == s.ids[i] && es[i].1 == s.items[s.ids[i]]
  {
    seq(|s.ids|, i requires 0 <= i < |s.ids| => (s.ids[i], s.items[s.ids[i]]))
  }

  /** Every entry's id is a key of the store, and ids do not repeat across entries. */
  lemma EntriesKeys(s: Store)
    requires Valid(s)
    ensures forall e :: e in Entries(s) ==> e.0 in s.items && e.1 == s.items[e.0]
    ensures forall i, j :: 0 <= i < j < |Entries(s)| ==> Entries(s)[i].0 != Entries(s)[j].0
  {
  }

  /** No record has a `None` service date. */
  predicate NoBlankDates(s: Store)
  {
    forall id :: id in s.items ==> !s.items[id].serviceDate.Blank?
  }
}
