/** The booking repository as a value: the stored records by id and the next
    id the database's identity column will hand out. */
module BookingStore {
  import opened Wrappers
  import opened BookingEntity

  datatype Store = Store(records: map<int, Booking>, nextId: int)

  /** A fresh database: no rows, identity column starting at 1. */
  function EmptyStore(): (st: Store)
    ensures WellFormed(st) && st.records == map[]
  {
    Store(map[], 1)
  }

  /** Every stored id was handed out by the identity column (so lies in
      `[1, nextId)`), and every record carries the id it is stored under. */
  predicate WellFormed(st: Store) {
    && 1 <= st.nextId
    && forall k :: k in st.records ==> 1 <= k < st.nextId && st.records[k].id == Some(k)
  }

  /** `records` and `records'` agree everywhere except possibly at `k`. */
  predicate OnlyChangedAt(records: map<int, Booking>, records': map<int, Booking>, k: int) {
    && records'.Keys == records.Keys + {k}
    && forall j :: j in records && j != k ==> records'[j] == records[j]
  }

  /** Whether `save` treats `b` as a new row: its id is null or names no stored row. */
  predicate IsNew(st: Store, b: Booking) {
    b.id.None? || b.id.value !in st.records
  }

  /** The store after a `save`, and the record `save` returned. */
  datatype Saved = Saved(store: Store, record: Booking)

  /** `save(b)`: a new booking is inserted under the next identity value; a
      booking whose id names a stored row replaces that row. The returned
      record is what is now stored under its id, and no other row changes. */
  function Save(st: Store, b: Booking): (r: Saved)
    ensures r.record.id.Some?
    ensures var k := r.record.id.value;
      && k in r.store.records && r.store.records[k] == r.record
      && OnlyChangedAt(st.records, r.store.records, k)
    ensures r.record == b.(id := r.record.id)
    ensures WellFormed(st) && IsNew(st, b) ==> r.record.id.value !in st.records
    ensures !IsNew(st, b) ==> r.record == b && r.store.nextId == st.nextId
    ensures WellFormed(st) ==> WellFormed(r.store)
  {
    if IsNew(st, b) then
      var k := st.nextId;
      var rec := b.(id := Some(k));
      Saved(Store(st.records[k := rec], k + 1), rec)
    else
      Saved(Store(st.records[b.id.value := b], st.nextId), b)
  }

  /** `findById(id)`. */
  function FindById(st: Store, id: int): (r: Option<Booking>)
    ensures r.Some? <==> id in st.records
    ensures r.Some? ==> r.value == st.records[id]
  {
    if id in st.records then Some(st.records[id]) else None
  }

  /** `delete(b)` of a stored booking: its row disappears, the others stay. */
  function Delete(st: Store, id: int): (r: Store)
    ensures r.records.Keys == st.records.Keys - {id}
    ensures forall j :: j in r.records ==> r.records[j] == st.records[j]
    ensures r.nextId == st.nextId
    ensures WellFormed(st) ==> WellFormed(r)
  {
    Store(st.records - {id}, st.nextId)
  }
}
