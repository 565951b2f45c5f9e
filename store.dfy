/** The `Store` object of lib/store.js: a named collection of JSON documents
    kept in Redis. The documents live in the hash `<name>_`, keyed by the
    string form of their id, and the id counter is the integer at key
    `<name>`. The class holds that state in the fields `hash` and `counter`;
    each method performs the Redis commands of its source function in
    order. */
module Stores {
  import opened Numerals
  import opened Values
  import Sorting
  import opened Compare
  import opened Query

  /** How a call fails. `NullDereference` is a `TypeError` from using
      `null` or `undefined` as an object: `res.toString()` when `HGET` finds
      no document, `record._id = _id` when `insert` is given no record, and
      a sort that reads a field of a `null` document. `InvalidRecordId` is
      the `Error('Invalid record _id specified')` of `update`. */
  datatype Error = NullDereference | InvalidRecordId

  datatype Result<T> = Ok(value: T) | Err(error: Error)

  /** The response object `{root: name, [name]: payload}`. */
  datatype Envelope<T> = Envelope(root: string, payload: T)

  /** What `ensure` hands its callback: a document already stored, or the
      response of the `insert` it made. */
  datatype EnsureOutcome = Found(doc: Value) | Inserted(response: Envelope<Value>)

  /** The hash field of the document with numeric id `id`. */
  function IdKey(id: int): string {
    KeyOf(Num(id))
  }

  /** The record as `insert` leaves it: `_id` and `_created` set, every other
      field as the caller gave it (lib/store.js:73-74). */
  function Stamped(record: Record, id: int, now: string): (r: Record)
    ensures "_id" in r && r["_id"] == Num(id)
    ensures "_created" in r && r["_created"] == Str(now)
    ensures forall k | k != "_id" && k != "_created" :: (k in r <==> k in record) && (k in r ==> r[k] == record[k])
  {
    record["_id" := Num(id)]["_created" := Str(now)]
  }

  /** Any value as `insert` leaves it: an object is stamped, while setting
      a property of a number, string or boolean does nothing outside strict
      mode. An array keeps its elements (its new properties are not part of
      the model). */
  function Stamp(record: Value, id: int, now: string): (r: Value)
    ensures record.Obj? ==> r == Obj(Stamped(record.fields, id, now))
    ensures !record.Obj? ==> r == record
  {
    if record.Obj? then Obj(Stamped(record.fields, id, now)) else record
  }

  /** The record as `update` leaves it: `_id` is the id as given, `_created`
      is copied from the stored document (`undefined` when it has none), and
      `_updated` is set (lib/store.js:99-101). */
  function Restamped(record: Record, id: Value, created: Value, now: string): (r: Record)
    ensures "_id" in r && r["_id"] == id
    ensures "_created" in r && r["_created"] == created
    ensures "_updated" in r && r["_updated"] == Str(now)
    ensures forall k | k != "_id" && k != "_created" && k != "_updated" ::
      (k in r <==> k in record) && (k in r ==> r[k] == record[k])
  {
    record["_id" := id]["_created" := created]["_updated" := Str(now)]
  }

  /** `keys` is the reply of `HKEYS` on `hash`: every field once. */
  ghost predicate Enumerates(keys: seq<string>, hash: map<string, Value>) {
    && (forall k :: k in keys <==> k in hash)
    && (forall i, j | 0 <= i < j < |keys| :: keys[i] != keys[j])
  }

  /** The reply of `HMGET` on `keys`, each parsed (lib/store.js:175-179); a
      missing field reads as `null`. */
  function Docs(hash: map<string, Value>, keys: seq<string>): (docs: seq<Value>)
    ensures |docs| == |keys|
    ensures forall i | 0 <= i < |keys| :: keys[i] in hash ==> docs[i] == hash[keys[i]]
  {
    seq(|keys|, i requires 0 <= i < |keys| => if keys[i] in hash then hash[keys[i]] else Null)
  }

  /** The options `ensure` lists with: the record as the filter. */
  function FilterBy(record: Record): (opts: Options)
    ensures opts.filter == Some(Selects(record)) && opts.sort.None?
    ensures opts.offset == Undefined && opts.limit == Undefined
  {
    Options(Some(Selects(record)), None, Undefined, Undefined)
  }

  class Store {
    const name: string
    var counter: nat
    var hash: map<string, Value>

    /** No document is stored under an id the counter has not issued yet,
        and every stored document is what `JSON.parse` gives back: never
        `undefined`, and unchanged by another round of serialisation. */
    ghost predicate Valid()
      reads this
    {
      && (forall n: int | n > counter :: IdKey(n) !in hash)
      && (forall k | k in hash :: hash[k] != Undefined && Serialize(hash[k]) == hash[k])
    }

    /** A handle on the store `name`, whose counter and hash hold what Redis
        holds under `name` and `name_`. */
    constructor(name: string, counter: nat, hash: map<string, Value>)
      ensures this.name == name && this.counter == counter && this.hash == hash
    {
      this.name := name;
      this.counter := counter;
      this.hash := hash;
    }

    /** `get(_id)` (lib/store.js:50-64): the stored document under the
        store's name; a missing document makes `res.toString()` fail. */
    method Get(id: Value) returns (r: Result<Envelope<Value>>)
      ensures KeyOf(id) in hash ==> r == Ok(Envelope(name, hash[KeyOf(id)]))
      ensures KeyOf(id) !in hash ==> r == Err(NullDereference)
    {
      var key := KeyOf(id);
      if key !in hash {
        return Err(NullDereference);
      }
      r := Ok(Envelope(name, hash[key]));
    }

    /** `insert(record)` (lib/store.js:66-87): `INCR` issues the next id, and
        the stamped record is written under it. Without a record the id is
        spent and the assignment of `_id` throws. */
    method Insert(record: Value, now: string) returns (r: Result<Envelope<Value>>)
      modifies this
      ensures counter == old(counter) + 1
      ensures (record.Null? || record.Undefined?) ==> r == Err(NullDereference) && hash == old(hash)
      ensures !(record.Null? || record.Undefined?) ==>
        && r == Ok(Envelope(name, Stamp(record, counter, now)))
        && hash == old(hash)[IdKey(counter) := Serialize(Stamp(record, counter, now))]
      ensures old(Valid()) ==> Valid() && IdKey(counter) !in old(hash)
    {
      counter := counter + 1;
      forall n: int | n > counter ensures IdKey(n) != IdKey(counter) {
        IdKeyInjective(n, counter);
      }
      if record.Null? || record.Undefined? {
        return Err(NullDereference);
      }
      var stamped := Stamp(record, counter, now);
      hash := hash[IdKey(counter) := Serialize(stamped)];
      r := Ok(Envelope(name, stamped));
    }

    /** `update(_id, record)` (lib/store.js:89-114): fails as `get` does on a
        missing document, refuses a falsy one, and otherwise replaces the
        document by the restamped record. */
    method Update(id: Value, record: Record, now: string) returns (r: Result<Envelope<Record>>)
      modifies this
      ensures counter == old(counter)
      ensures KeyOf(id) !in old(hash) ==> r == Err(NullDereference) && hash == old(hash)
      ensures KeyOf(id) in old(hash) && Falsy(old(hash)[KeyOf(id)]) ==>
        r == Err(InvalidRecordId) && hash == old(hash)
      ensures KeyOf(id) in old(hash) && !Falsy(old(hash)[KeyOf(id)]) ==>
        var updated := Restamped(record, id, Field(old(hash)[KeyOf(id)], "_created"), now);
        && r == Ok(Envelope(name, updated))
        && hash == old(hash)[KeyOf(id) := Serialize(Obj(updated))]
      ensures old(Valid()) ==> Valid()
    {
      var got := Get(id);
      if got.Err? {
        return Err(got.error);
      }
      var current := got.value.payload;
      if Falsy(current) {
        return Err(InvalidRecordId);
      }
      var updated := Restamped(record, id, Field(current, "_created"), now);
      hash := hash[KeyOf(id) := Serialize(Obj(updated))];
      r := Ok(Envelope(name, updated));
    }

    /** `delete(_id)` (lib/store.js:116-126): `HDEL` answers how many fields
        it removed. */
    method Delete(id: Value) returns (removed: int)
      modifies this
      ensures removed == if KeyOf(id) in old(hash) then 1 else 0
      ensures hash == old(hash) - {KeyOf(id)}
      ensures counter == old(counter)
      ensures old(Valid()) ==> Valid()
    {
      removed := if KeyOf(id) in hash then 1 else 0;
      hash := hash - {KeyOf(id)};
    }

    /** `upsert(key, record)` (lib/store.js:202-216): writes the document
        under `key` whether or not one is there. The callback receives the
        string form of the response object itself, since the inner
        `var response` shadows the reply of `HSET`. */
    method Upsert(key: Value, doc: Value) returns (r: Envelope<string>)
      requires doc != Undefined
      modifies this
      ensures hash == old(hash)[KeyOf(key) := Serialize(doc)]
      ensures counter == old(counter)
      ensures r == Envelope(name, "[object Object]")
      ensures old(Valid()) && (forall n: int | n > counter :: KeyOf(key) != IdKey(n)) ==> Valid()
    {
      hash := hash[KeyOf(key) := Serialize(doc)];
      r := Envelope(name, ToStr(Obj(map[])));
    }

    /** `asArray(opts)` (lib/store.js:155-200): list the documents in `HKEYS`
        order, filter, count, sort in place, and cut the page; a sort that
        reaches a `null` document throws. */
    method AsArray(opts: Options, keys: seq<string>, collate: Collation) returns (r: Result<Page>)
      requires Enumerates(keys, hash)
      ensures ListingThrows(Docs(hash, keys), opts, collate) ==> r == Err(NullDereference)
      ensures !ListingThrows(Docs(hash, keys), opts, collate) ==> r == Ok(Run(name, Docs(hash, keys), opts, collate))
    {
      var docs := Docs(hash, keys);
      if |keys| == 0 {
        return Ok(Page(name, [], 0, ReadOption(opts.limit, 100), ReadOption(opts.offset, 0), None));
      }
      var records := Matching(docs, opts.filter);
      var length := |records|;
      var offset := ReadOption(opts.offset, 0);
      var limit := ReadOption(opts.limit, length);
      var arranged := Arrange(records, opts.sort, collate);
      if arranged.Err? {
        return Err(arranged.error);
      }
      var window := Slice(arranged.value, offset, offset + limit);
      r := Ok(Page(name, window, length, limit, offset, Some(|window|)));
      assert r.value == Paginate(name, arranged.value, length, offset, limit);
    }

    /** `ensure(record)` (lib/store.js:218-233): the first stored document the
        record selects, or else the record inserted. */
    method Ensure(record: Record, keys: seq<string>, collate: Collation, now: string) returns (out: EnsureOutcome)
      requires Enumerates(keys, hash)
      modifies this
      ensures var listed := Run(name, Docs(old(hash), keys), FilterBy(record), collate).records;
        && (listed != [] ==>
              && out == Found(listed[0]) && Selects(record)(listed[0]) && listed[0] in Docs(old(hash), keys)
              && hash == old(hash) && counter == old(counter))
        && (listed == [] ==>
              && counter == old(counter) + 1
              && out == Inserted(Envelope(name, Obj(Stamped(record, counter, now))))
              && hash == old(hash)[IdKey(counter) := Serialize(Obj(Stamped(record, counter, now)))]
              && (old(Valid()) ==> IdKey(counter) !in old(hash)))
      ensures old(Valid()) ==> Valid()
    {
      ghost var docs := Docs(hash, keys);
      ghost var listed := Filter(Selects(record), docs);
      FilterOnlyListing(name, docs, FilterBy(record), collate);
      FilterSelects(Selects(record), docs);
      assert !ListingThrows(docs, FilterBy(record), collate);
      var listing := AsArray(FilterBy(record), keys, collate);
      var page := listing.value;
      assert page.records == listed;
      if |page.records| == 0 {
        var response := Insert(Obj(record), now);
        out := Inserted(response.value);
      } else {
        out := Found(page.records[0]);
        assert page.records[0] in listed;
      }
    }
  }

  /** `records.sort(buildCompareFunc(sort))` when a sort is given
      (lib/store.js:190-193): the records are copied into an array and sorted
      there in place. The sort throws when it hands a `null` document to a
      comparator that reads its operands, which it does for every record as
      soon as there are two. */
  method Arrange(records: seq<Value>, sort: Option<SortSpec>, collate: Collation) returns (r: Result<seq<Value>>)
    ensures SortThrows(records, sort, collate) ==> r == Err(NullDereference)
    ensures !SortThrows(records, sort, collate) ==> r == Ok(Arranged(records, sort, collate))
  {
    if sort.None? {
      return Ok(records);
    }
    if |records| >= 2 && Null in records && ReadsOperands(sort.value, collate) {
      return Err(NullDereference);
    }
    var a := new Value[|records|](i requires 0 <= i < |records| => records[i]);
    assert a[..] == records;
    Sorting.InsertionSort(a, Comparator(sort.value, collate));
    r := Ok(a[..]);
  }

  /** Inserting a record and getting it back by the id the insert reports
      gives the stored document: the id, the time, and otherwise exactly the
      fields the caller set, so no `_updated` (test/test.basic.js:29-44). */
  method InsertThenGet(store: Store, record: Record, now: string) returns (got: Result<Envelope<Value>>)
    modifies store
    ensures got.Ok? && got.value.root == store.name
    ensures Field(got.value.payload, "_id") == Num(store.counter)
    ensures Field(got.value.payload, "_created") == Str(now)
    ensures forall k | k != "_id" && k != "_created" :: Field(got.value.payload, k) == Field(Obj(record), k)
  {
    var inserted := store.Insert(Obj(record), now);
    got := store.Get(Field(inserted.value.payload, "_id"));
    forall k | k != "_id" && k != "_created"
      ensures Field(got.value.payload, k) == Field(Obj(record), k)
    {
      SerializeKeepsFieldReads(Obj(Stamped(record, store.counter, now)), k);
    }
    SerializeKeepsFieldReads(Obj(Stamped(record, store.counter, now)), "_id");
    SerializeKeepsFieldReads(Obj(Stamped(record, store.counter, now)), "_created");
  }

  /** Updating a record just inserted keeps its creation time and adds an
      update time (test/test.basic.js:45-64). */
  method InsertThenUpdate(store: Store, record: Record, changes: Record, created: string, updated: string)
    returns (r: Result<Envelope<Record>>)
    modifies store
    ensures r.Ok?
    ensures Field(Obj(r.value.payload), "_created") == Str(created)
    ensures Field(Obj(r.value.payload), "_updated") == Str(updated)
    ensures Field(Obj(r.value.payload), "_id") == Num(store.counter)
  {
    var inserted := store.Insert(Obj(record), created);
    SerializeKeepsFieldReads(Obj(Stamped(record, store.counter, created)), "_created");
    r := store.Update(Field(inserted.value.payload, "_id"), changes, updated);
  }

  /** Ensuring the same record twice (a record without `_id` or
      `_created` of its own): the second call finds what the first one
      found or inserted, and changes nothing. When the first call inserted,
      `HKEYS` lists the new field after the others. */
  method EnsureTwice(store: Store, record: Record, keys: seq<string>, collate: Collation, now: string, later: string)
    returns (first: EnsureOutcome, second: EnsureOutcome)
    requires store.Valid() && Enumerates(keys, store.hash)
    requires "_id" !in record && "_created" !in record
    modifies store
    ensures first.Found? ==>
      second == first && store.hash == old(store.hash) && store.counter == old(store.counter)
    ensures first.Inserted? ==>
      && second == Found(Serialize(first.response.payload))
      && store.counter == old(store.counter) + 1
      && store.hash == old(store.hash)[IdKey(store.counter) := Serialize(first.response.payload)]
  {
    first := store.Ensure(record, keys, collate, now);
    var keys' := keys;
    if first.Inserted? {
      InsertedListedAlone(store.name, old(store.hash), keys, record, collate, store.counter, now);
      keys' := keys + [IdKey(store.counter)];
    }
    second := store.Ensure(record, keys', collate, later);
  }

  /** When a filter selects no stored document, and the record it was made
      from is inserted under a fresh field listed last, listing with the
      filter finds that document alone. */
  lemma InsertedListedAlone(name: string, hash: map<string, Value>, keys: seq<string>, record: Record,
                            collate: Collation, id: int, now: string)
    requires Enumerates(keys, hash) && IdKey(id) !in hash
    requires "_id" !in record && "_created" !in record
    requires Run(name, Docs(hash, keys), FilterBy(record), collate).records == []
    ensures var stored := Serialize(Obj(Stamped(record, id, now)));
      var hash' := hash[IdKey(id) := stored];
      && Enumerates(keys + [IdKey(id)], hash')
      && Run(name, Docs(hash', keys + [IdKey(id)]), FilterBy(record), collate).records == [stored]
  {
    var stored := Serialize(Obj(Stamped(record, id, now)));
    ListingAfterAppend(name, hash, keys, FilterBy(record), collate, IdKey(id), stored);
    StampedSelectedByRecord(record, id, now);
  }

  /** Appending a field to the hash and to `keys` adds its document to a
      filter-only listing exactly when the filter selects it. */
  lemma ListingAfterAppend(name: string, hash: map<string, Value>, keys: seq<string>, opts: Options,
                           collate: Collation, k: string, stored: Value)
    requires Enumerates(keys, hash) && k !in hash
    requires opts.filter.Some? && opts.sort.None? && opts.offset == Undefined && opts.limit == Undefined
    ensures Enumerates(keys + [k], hash[k := stored])
    ensures Run(name, Docs(hash[k := stored], keys + [k]), opts, collate).records ==
      Run(name, Docs(hash, keys), opts, collate).records + (if opts.filter.value(stored) then [stored] else [])
  {
    var p := opts.filter.value;
    var docs := Docs(hash, keys);
    AppendedField(hash, keys, k, stored);
    FilterOnlyListing(name, docs, opts, collate);
    FilterOnlyListing(name, docs + [stored], opts, collate);
    FilterDistributes(p, docs, [stored]);
    assert Filter(p, [stored]) == (if p(stored) then [stored] else []) by {
      assert [stored][1..] == [];
    }
  }

  /** A record that carries its own `_id` is not found again: `insert`
      overwrites that `_id` with the issued one (lib/store.js:73-74), so the
      second listing, filtered on the caller's `_id`, misses the stored
      document and a duplicate is inserted. */
  method EnsureOwnIdTwice(store: Store, record: Record, keys: seq<string>, collate: Collation, now: string, later: string)
    returns (first: EnsureOutcome, second: EnsureOutcome)
    requires store.Valid() && Enumerates(keys, store.hash)
    requires "_id" in record && !record["_id"].Num?
    requires Run(store.name, Docs(store.hash, keys), FilterBy(record), collate).records == []
    modifies store
    ensures first.Inserted? && second.Inserted? && store.counter == old(store.counter) + 2
  {
    first := EnsureOwnId(store, record, keys, collate, now);
    second := EnsureOwnId(store, record, keys + [IdKey(store.counter)], collate, later);
  }

  /** `ensure` of a record that carries a non-numeric `_id` and that no
      stored document matches inserts it, and a listing with the record as
      filter still finds nothing afterwards. */
  method EnsureOwnId(store: Store, record: Record, keys: seq<string>, collate: Collation, now: string)
    returns (out: EnsureOutcome)
    requires store.Valid() && Enumerates(keys, store.hash)
    requires "_id" in record && !record["_id"].Num?
    requires Run(store.name, Docs(store.hash, keys), FilterBy(record), collate).records == []
    modifies store
    ensures out.Inserted? && store.Valid() && store.counter == old(store.counter) + 1
    ensures Enumerates(keys + [IdKey(store.counter)], store.hash)
    ensures Run(store.name, Docs(store.hash, keys + [IdKey(store.counter)]), FilterBy(record), collate).records == []
  {
    out := EnsureUnlisted(store, record, keys, collate, now);
    InsertedNotListed(store.name, old(store.hash), keys, record, collate, store.counter, now);
  }

  /** `ensure` of a record that no stored document matches inserts it. */
  method EnsureUnlisted(store: Store, record: Record, keys: seq<string>, collate: Collation, now: string)
    returns (out: EnsureOutcome)
    requires store.Valid() && Enumerates(keys, store.hash)
    requires Run(store.name, Docs(store.hash, keys), FilterBy(record), collate).records == []
    modifies store
    ensures out.Inserted? && store.Valid() && store.counter == old(store.counter) + 1
    ensures IdKey(store.counter) !in old(store.hash)
    ensures store.hash == old(store.hash)[IdKey(store.counter) := Serialize(Obj(Stamped(record, store.counter, now)))]
  {
    out := store.Ensure(record, keys, collate, now);
  }

  /** After inserting a record no stored document matched, whose own `_id`
      differs from the issued one, listing with it as filter still finds
      nothing. */
  lemma InsertedNotListed(name: string, hash: map<string, Value>, keys: seq<string>, record: Record,
                          collate: Collation, id: int, now: string)
    requires Enumerates(keys, hash) && IdKey(id) !in hash
    requires "_id" in record && !record["_id"].Num?
    requires Run(name, Docs(hash, keys), FilterBy(record), collate).records == []
    ensures var stored := Serialize(Obj(Stamped(record, id, now)));
      var hash' := hash[IdKey(id) := stored];
      && Enumerates(keys + [IdKey(id)], hash')
      && Run(name, Docs(hash', keys + [IdKey(id)]), FilterBy(record), collate).records == []
  {
    NotIssuedId(record["_id"], id);
    StampedRejected(record, id, now);
    UnselectedNotListed(name, hash, keys, FilterBy(record), collate, IdKey(id), Serialize(Obj(Stamped(record, id, now))));
  }

  /** An `_id` that is not a number is never an issued one. */
  lemma NotIssuedId(own: Value, id: int)
    requires !own.Num?
    ensures own != Num(id)
  {
  }

  /** The filter made from a record carrying an `_id` other than the issued
      one rejects the document `insert` stores for it. */
  lemma StampedRejected(record: Record, id: int, now: string)
    requires "_id" in record && record["_id"] != Num(id)
    ensures var opts := FilterBy(record);
      opts.filter.Some? && !opts.filter.value(Serialize(Obj(Stamped(record, id, now))))
  {
    var stored := Serialize(Obj(Stamped(record, id, now)));
    SerializeKeepsFieldReads(Obj(Stamped(record, id, now)), "_id");
    OtherIdNotSelected(record, stored);
    FilterByRejects(record, stored);
  }

  /** A document whose `_id` differs from the record's is not selected. */
  lemma OtherIdNotSelected(record: Record, v: Value)
    requires "_id" in record && Field(v, "_id") != record["_id"]
    ensures !Selects(record)(v)
  {
  }

  /** The filter made from a record rejects what the record does not select. */
  lemma FilterByRejects(record: Record, v: Value)
    requires !Selects(record)(v)
    ensures var opts := FilterBy(record); opts.filter.Some? && !opts.filter.value(v)
  {
  }

  /** Appending a document the filter rejects keeps an empty filter-only
      listing empty. */
  lemma UnselectedNotListed(name: string, hash: map<string, Value>, keys: seq<string>, opts: Options,
                            collate: Collation, k: string, stored: Value)
    requires Enumerates(keys, hash) && k !in hash
    requires opts.filter.Some? && opts.sort.None? && opts.offset == Undefined && opts.limit == Undefined
    requires Run(name, Docs(hash, keys), opts, collate).records == [] && !opts.filter.value(stored)
    ensures Enumerates(keys + [k], hash[k := stored])
    ensures Run(name, Docs(hash[k := stored], keys + [k]), opts, collate).records == []
  {
    ListingAfterAppend(name, hash, keys, opts, collate, k, stored);
    assert (if opts.filter.value(stored) then [stored] else []) == [];
  }

  /** `ensure({_id: "a1", foo: 1})` twice on an empty store inserts twice. */
  method OwnIdDuplicated(collate: Collation, now: string, later: string) returns (first: EnsureOutcome, second: EnsureOutcome)
    ensures first.Inserted? && second.Inserted?
  {
    var store := new Store("s", 0, map[]);
    var record := map["_id" := Str("a1"), "foo" := Num(1)];
    assert Docs(map[], []) == [];
    first, second := EnsureOwnIdTwice(store, record, [], collate, now, later);
  }

  /** Writing back with `upsert` the document `get` returned leaves the store
      as it was: a stored document survives another round of serialisation
      (lib/store.js:50-64, 202-216). */
  method UpsertFetched(store: Store, id: Value) returns (fetched: Result<Envelope<Value>>)
    requires store.Valid() && KeyOf(id) in store.hash
    modifies store
    ensures store.hash == old(store.hash) && store.counter == old(store.counter)
    ensures fetched == Ok(Envelope(store.name, store.hash[KeyOf(id)]))
  {
    fetched := store.Get(id);
    var _ := store.Upsert(id, fetched.value.payload);
  }

  /** `HSET` of a new field: `HKEYS` can list it last, and `HMGET` then
      answers the documents as before followed by the new one. */
  lemma AppendedField(hash: map<string, Value>, keys: seq<string>, k: string, v: Value)
    requires Enumerates(keys, hash) && k !in hash
    ensures Enumerates(keys + [k], hash[k := v])
    ensures Docs(hash[k := v], keys + [k]) == Docs(hash, keys) + [v]
  {
    var keys' := keys + [k];
    forall i | 0 <= i < |keys| ensures Docs(hash[k := v], keys')[i] == Docs(hash, keys)[i] {
      assert keys'[i] == keys[i] && keys[i] in hash;
    }
    assert keys'[|keys|] == k;
  }

  /** Distinct ids are written under distinct hash fields. */
  lemma IdKeyInjective(m: int, n: int)
    ensures IdKey(m) == IdKey(n) <==> m == n
  {
    IntToStringInjective(m, n);
  }

  /** A stored record that carries no `_id` or `_created` of its own is
      selected by itself as a filter: what `ensure` inserts, `ensure` finds
      next time. */
  lemma StampedSelectedByRecord(record: Record, id: int, now: string)
    requires "_id" !in record && "_created" !in record
    ensures Selects(record)(Serialize(Obj(Stamped(record, id, now))))
  {
    var stamped := Stamped(record, id, now);
    var stored := Serialize(Obj(stamped));
    forall k | k in record ensures Field(stored, k) == record[k] {
      SerializeKeepsFieldReads(Obj(stamped), k);
      assert k in stamped && stamped[k] == record[k];
    }
    SelectedWhenFieldsAgree(record, stored);
  }

  lemma SelectedWhenFieldsAgree(query: Record, v: Value)
    requires forall k | k in query :: Field(v, k) == query[k]
    ensures Selects(query)(v)
  {
  }

  /** When some stored document is selected by the record, `ensure` lists
      at least one, and so does not insert. */
  lemma EnsureFindsSelected(name: string, hash: map<string, Value>, keys: seq<string>, record: Record, collate: Collation, k: string)
    requires Enumerates(keys, hash)
    requires k in hash && Selects(record)(hash[k])
    ensures Run(name, Docs(hash, keys), FilterBy(record), collate).records != []
  {
    StoredIsListed(name, hash, keys, FilterBy(record), collate, k);
  }

  lemma StoredIsListed(name: string, hash: map<string, Value>, keys: seq<string>, opts: Options, collate: Collation, k: string)
    requires Enumerates(keys, hash) && k in hash
    requires opts.filter.Some? && opts.sort.None? && opts.offset == Undefined && opts.limit == Undefined
    requires opts.filter.value(hash[k])
    ensures Run(name, Docs(hash, keys), opts, collate).records != []
  {
    var docs := Docs(hash, keys);
    var i :| 0 <= i < |keys| && keys[i] == k;
    assert docs[i] == hash[k];
    SelectedIsListed(name, docs, opts, collate, hash[k]);
  }

  /** After the only document a filter selects is deleted, listing with that
      filter finds nothing (test/test.basic.js:115-133). */
  lemma DeletedNotListed(name: string, hash: map<string, Value>, keys: seq<string>, k: string, p: Value -> bool, collate: Collation)
    requires Enumerates(keys, hash - {k})
    requires forall j | j in hash && j != k :: !p(hash[j])
    ensures Run(name, Docs(hash - {k}, keys), Options(Some(p), None, Undefined, Undefined), collate).length == 0
  {
    var docs := Docs(hash - {k}, keys);
    if docs != [] {
      forall x | x in docs ensures !p(x) {
        var i :| 0 <= i < |docs| && docs[i] == x;
        assert keys[i] in hash - {k};
      }
      FilterNone(p, docs);
    }
  }
}
