/** The node's store: packed records in an ordered map, one mutex around each operation.
    The map stands for the Berkeley DB tree; keys are never removed from it. */
module Database {
  import opened Bytes
  import opened Config
  import opened Lww
  import opened Packing

  datatype Rc = Applied | Ignored | NotFound | Error

  /** What the environment does to one operation: the read, the allocation or the write fails. */
  datatype Faults = Faults(get: bool, alloc: bool, put: bool)

  class Database {
    const order: ByteOrder
    var open: bool
    var db: Packed

    /** Opens a file with what is stored in it, which may be nothing. */
    constructor (order: ByteOrder, stored: Packed)
      ensures this.order == order && open && db == stored && (Valid() <==> AllValid(order, stored))
      ensures stored == map[] ==> Valid() && View() == map[]
    {
      this.order, open, db := order, true, stored;
    }

    ghost predicate Valid()
      reads this
    {
      AllValid(order, db)
    }

    ghost function View(): (t: Table)
      reads this
      ensures t.Keys == db.Keys
    {
      TableOf(db, Reading(order))
    }

    method PutRecordLocked(key: Key, rec: Record, faults: Faults) returns (rc: Rc)
      requires Storable(key, rec)
      modifies this`db
      ensures rc == if faults.alloc || faults.put then Error else Applied
      ensures db == if rc == Applied then old(db)[key := Pack(order, rec)] else old(db)
    {
      if faults.alloc {
        return Error;
      }
      if faults.put {
        return Error;
      }
      db := db[key := Pack(order, rec)];
      rc := Applied;
    }

    /** Resolves one record against the store. In a valid store the table changes exactly as
        a merge does, the result says whether the record won, and faults change nothing. */
    method ApplyRecord(key: Key, rec: Record, faults: Faults) returns (rc: Rc)
      requires InRange(rec)
      modifies this`db
      ensures rc == Error ==> db == old(db)
      ensures !Storable(key, rec) || !open || faults.get ==> rc == Error
      ensures key in old(db) && !EntryIsValid(order, old(db)[key]) ==> rc == Error
      ensures old(Valid()) ==> Valid()
      ensures old(Valid()) && rc != Error ==> View() == Merge(old(View()), Write(key, rec))
      ensures old(Valid()) && Storable(key, rec) && open && !faults.get ==>
                var wins := key !in old(View()) || IncomingWins(old(View())[key].stamp, rec.stamp);
                rc == if !wins then Ignored else if faults.alloc || faults.put then Error else Applied
    {
      if |key| == 0 || |key| > MAX_KEY_LEN || |rec.value| > MAX_VALUE_LEN || (rec.tombstone && rec.value != []) {
        return Error;
      }
      if !open {
        return Error;
      }
      if faults.get {
        return Error;
      }
      if key in db {
        var data := db[key];
        if !EntryIsValid(order, data) {
          return Error;
        }
        if !IncomingWins(StampOf(order, data), rec.stamp) {
          return Ignored;
        }
      }
      rc := PutRecordLocked(key, rec, faults);
      PutIsUpdate(order, old(db), key, rec);
    }

    method GetWithMeta(key: Key, faults: Faults) returns (rc: Rc, rec: Option<Record>)
      ensures rc.Applied? <==> rec.Some?
      ensures Valid() && open && 0 < |key| <= MAX_KEY_LEN && !faults.get && !faults.alloc ==>
                rec == Visible(View(), key) && rc == if rec.Some? then Applied else NotFound
    {
      rec := None;
      if |key| == 0 || |key| > MAX_KEY_LEN || !open || faults.get {
        return Error, None;
      }
      if key !in db {
        return NotFound, None;
      }
      var data := db[key];
      if !EntryIsValid(order, data) {
        return Error, None;
      }
      if TombstoneBit(LenField(order, data)) {
        return NotFound, None;
      }
      if ValueLen(LenField(order, data)) > 0 && faults.alloc {
        return Error, None;
      }
      return Applied, Some(Unpack(order, data));
    }
  }
}
