# redis-store, modelled in Dafny

redis-store keeps named collections of JSON documents ("stores") in Redis.
A store called `name` holds its documents in the hash `name_`. Each document
sits under the string form of its id. The id counter is the integer at key
`name`, which `INCR` advances. The `Store` object offers these operations:
- `get`, `insert`, `update`, `delete`, `upsert`;
- `ensure`: find a document the record selects, or insert the record;
- `asArray`: list documents with an optional filter, a multi-key sort, an
  offset and a limit.

The sort is driven by a comparator that `buildCompareFunc` generates from a
field-to-weight specification.

This project models lib/store.js:
- `Stores.Store` is a class with the Redis state as fields. `counter` is the
  id counter and `hash` maps hash fields to parsed documents. Its methods
  perform the source's Redis commands in order.
- The comparator is the fold `Compare.CompareFrom`, which carries `ord` from
  key to key as the generated program does.
- The sort `asArray` applies is an in-place insertion sort on an array
  (`Sorting.InsertionSort`). It is proved equal to the functional stable sort
  `Sorting.SortBy`.
- What `asArray` returns is the function `Query.Run`. The lemmas about paging,
  filtering and sorting are stated on it.

JavaScript's coercions are modelled on integers in `Values`: `String(v)`,
`Number(v)`, `parseFloat`/`parseInt` and `isNumeric`. The locale collation
behind `localeCompare` is a parameter `collate`. The sort lemmas assume it is
a total preorder (`Compare.IsCollation`). The order in which `HKEYS` lists the
fields is a parameter `keys`. The clock (`new Date()`) is a parameter `now`.

Behaviour worth knowing:
- `get` on a missing id does not answer with a null payload. `res.toString()`
  on the null reply throws, modelled as `Err(NullDereference)`.
- `update` on a missing id therefore fails in that same place. It never
  reaches its "Invalid record _id specified" check. That check fires only for
  a falsy stored document. `upsert` can write one, and so can `insert` given
  `0`, `false` or `""`: outside strict mode, setting `_id` on a primitive
  does nothing, and the primitive itself is stored.
- `insert(null)` spends an id with `INCR` and then throws on `record._id`.
- The comparator's numeric branch needs `parseFloat(a)` to be a number and
  `b` to be finite (lib/store.js:132). It does not test both operands alike.
- A weight counts as positive or negative through `Number(val)`: `"1"` and
  `true` sort ascending, `"-1"` descending, a word neither.
- A key whose weight is neither positive nor negative repeats the previous
  key's comparison rather than being ignored.
- A sort over two or more matches, one of them a stored `null`, throws when
  the sort has a key of positive or negative weight: the generated function
  then reads a field of `null`.
- `ensure` finds a record only through its own fields, `_id` included. A
  record that carries its own `_id` (or `_created`) never selects the copy
  `ensure` stores, since insert overwrites those fields. Calling `ensure`
  twice with it inserts twice.

## Model

Rows marked "(definition)" name a function that models a piece of the source
directly; the rows after them state what is proved about it.

| member | source | states |
|---|---|---|
| Numerals.ParseIntegerOfIntToString | lib/store.js:69-75 | the decimal string an issued id is stored under reads back as that id |
| Numerals.IntToStringInjective | lib/store.js:69-75 | distinct integer ids render as distinct hash fields |
| Numerals.PrefixOfInteger | lib/store.js:18-20 | on a string that is wholly an integer literal, `parseFloat`/`parseInt` agree with `Number` |
| Numerals.LeadingDigits | lib/store.js:18-20 | the digit run `parseFloat` reads stops at the first non-digit |
| Values.Field | lib/store.js:144-146 | (definition) the property read `v.k`: the field's value on an object that has it, `undefined` otherwise |
| Values.ToStr | lib/store.js:137-139 | (definition) `String(v)`, arrays joined with commas and `null`/`undefined` elements empty |
| Values.Join | lib/store.js:137-139 | (definition) `parts.join(",")`: a single part is itself, no parts give the empty string |
| Values.ToNumber | lib/store.js:18-20 | (definition) `Number(v)`, NaN as None; the empty string is 0, an array converts through its string |
| Values.ParseLeading | lib/store.js:18-20 | (definition) `parseFloat(v)`/`parseInt(v)`: the integer at the front of `String(v)` |
| Values.IsNumeric | lib/store.js:18-20 | (definition) `isNumeric(n)`: `parseFloat` gives a number and `Number` is finite |
| Values.Falsy | lib/store.js:96 | (definition) `!v`: undefined, null, false, 0 and the empty string; arrays and objects are truthy |
| Values.KeyOf | lib/store.js:53 | (definition) the hash field an id addresses is `String(id)` |
| Values.Stringify | lib/store.js:75 | (definition) `JSON.stringify` keeps exactly the fields whose value is not `undefined`, with their values |
| Values.Serialize | lib/store.js:75 | (definition) a value written as JSON and parsed back: objects lose their `undefined` fields |
| Values.SerializeKeepsFieldReads | lib/store.js:75 | a property read of a stored document gives what it gave on the record before serialisation |
| Values.ReadOption | lib/store.js:164-165 | `isNumeric(v) ? parseInt(v) : default` yields the number `v` denotes when numeric, the default otherwise |
| Values.NumericReadsAsNumber | lib/store.js:18-20 | for a value `isNumeric` accepts, `parseInt` and `Number` agree |
| Values.NonNumbersDoNotParse | lib/store.js:18-20 | `parseFloat` of undefined, null, a boolean or an object is NaN |
| Values.ArrayCoercions | lib/store.js:18-20 | `Number([])` is 0 while `parseInt([])` is NaN, `[5]` is read as the option 5, `[1, 2]` is NaN, and `[]` is truthy |
| Values.ReadOptionOfNumber | lib/store.js:182-183 | an offset or limit given as a number or as its decimal string is read as that number |
| Values.ReadOptionDefaults | lib/store.js:182-183 | absent, null, boolean and word options fall back to the default |
| Sorting.Slot | lib/store.js:192 | (definition) where one insertion pass places an element: after the last element not greater than it |
| Sorting.Insert | lib/store.js:192 | (definition) the sorted prefix with one more element placed at its slot |
| Sorting.SortBy | lib/store.js:192 | (definition) the stable sort `records.sort(f)`, as repeated insertion |
| Sorting.InsertionSort | lib/store.js:190-193 | sorting the array in place leaves it equal to the stable sort `SortBy` of its old contents |
| Sorting.InsertLast | lib/store.js:192 | one pass moves the next element into its slot among the sorted prefix, the rest untouched |
| Sorting.ShiftPast | lib/store.js:192 | the scan of one pass moves each greater element of the prefix one place right and stops at the element's slot, leaving a gap there |
| Sorting.SortByPermutes | lib/store.js:192 | the sorted records are a permutation of the input, whatever the comparator |
| Sorting.SortBySorted | lib/store.js:192 | under a comparator that is a total preorder on the records, the result is sorted by it |
| Sorting.SortByKeepsOrderOfTies | lib/store.js:192 | when no record compares greater than another, the sort returns the records unchanged |
| Sorting.Ties | lib/store.js:192 | (definition) the records that compare equal to a given one, in their order |
| Sorting.TiesConcat | lib/store.js:192 | the ties of a concatenation are the ties of each part, in turn |
| Sorting.InsertKeepsTies | lib/store.js:192 | one insertion keeps the ties of any record in order, the inserted record last among them, when it passes none of them |
| Sorting.SortByIsStable | lib/store.js:192 | stability: under a total preorder on the records, the records tied with any one of them come out in their input order |
| Sorting.ThenCoherent | lib/store.js:148-149 | breaking the ties of one total preorder with another gives a total preorder |
| Compare.CompareValues | lib/store.js:130-140 | (definition) the generated `cmp(a, b)`: sign of `a - b` when `parseFloat(a)` is a number and `b` is finite, NaN giving 0; collation of the string forms otherwise |
| Compare.CompareOn | lib/store.js:143-148 | (definition) `cmp(a.k, b.k)` or `cmp(b.k, a.k)` for one key |
| Compare.Weight | lib/store.js:143-146 | (definition) how `val > 0` and `val < 0` see a weight: the sign of `Number(val)`, NaN passing neither |
| Compare.NextOrd | lib/store.js:142-147 | (definition) `ord` after one key: set by a positive or negative weight, kept otherwise |
| Compare.Line | lib/store.js:148 | (definition) one line `v = cmp(ord)`, `cmp(undefined)` while `ord` is unset |
| Compare.CompareFrom | lib/store.js:141-151 | (definition) the generated lines from one key on: the first non-zero line's value, else 0 |
| Compare.CompareRecords | lib/store.js:128-153 | (definition) the function `buildCompareFunc(spec)` returns, applied to two records |
| Compare.OneKeyComparator | lib/store.js:141-152 | a one-key specification of positive weight compares that key ascending, of negative weight descending |
| Compare.Comparator | lib/store.js:152 | (definition) that function as a value, as `records.sort` receives it |
| Compare.Directions | lib/store.js:142-147 | the keys of positive or negative weight with their direction, each a key of the specification |
| Compare.ReadsOperands | lib/store.js:141-149 | (definition) whether the generated function reaches a line that reads `a.k` and `b.k` |
| Compare.ReadsOperandsIffDirections | lib/store.js:141-149 | under a collation the generated function reads its operands iff some weight is positive or negative |
| Compare.WeightsOfValues | lib/store.js:143-146 | `"1"` and `true` are positive weights, `"-1"` negative, a word, null or an object neither |
| Compare.CompareNumbers | lib/store.js:132-136 | two numbers compare by the sign of their difference |
| Compare.CompareWords | lib/store.js:137-139 | a left operand that does not start with a number is compared by collating both string forms |
| Compare.NumericTestIsAsymmetric | lib/store.js:132 | "12abc" against 3 takes the numeric branch and gives 0 (NaN), 3 against "12abc" collates "3" with "12abc" |
| Compare.NullAgainstNumber | lib/store.js:132 | 3 against null is numeric and positive, null against 3 collates "null" with "3"; both can be positive |
| Compare.UndefinedLine | lib/store.js:148 | a line emitted before any non-zero weight compares `undefined` with itself |
| Compare.CompareFromSkipsZeroWeights | lib/store.js:141-151 | once the carried operands compare equal, the rest of the generated function is the first difference over non-zero keys |
| Compare.CompareRecordsIsLexicographic | lib/store.js:128-153 | when the collation treats "undefined" as equal to itself, the generated comparator is the first difference over the non-zero-weight keys in key order |
| Compare.NegatedSpecSwapsOperands | lib/store.js:143-147 | negating every weight compares the records the other way round |
| Compare.LexicographicIsFirstDifference | lib/store.js:148-151 | the result is 0 iff every key ties, and otherwise the comparison on the first key that differs |
| Compare.KeyCoherent | lib/store.js:130-140 | on records whose key values are all numbers, or none start with a number, or none convert to a number as a whole (ISO timestamps), one key's comparison is a total preorder |
| Compare.LexicographicCoherent | lib/store.js:148-151 | the multi-key comparison is a total preorder when each key's is |
| Compare.SortedBySpec | lib/store.js:190-193 | sorting by a specification whose keys are comparable gives a sorted permutation |
| Compare.SortBySpecIsStable | lib/store.js:190-193 | records the specification ranks equal, such as equal `_created` under `sort: {_created: 1}`, keep their store order |
| Compare.SortByNumberAscending | lib/store.js:143-144 | `sort: {k: 1}` over numeric `k` lists records in ascending `k` |
| Compare.SortByNumberDescending | lib/store.js:145-146 | `sort: {k: -1}` over numeric `k` lists records in descending `k` |
| Compare.EmptySpecKeepsOrder | lib/store.js:151 | `sort: {}` compares every pair equal and leaves the order unchanged |
| Query.Selects | lib/store.js:221 | (definition) the filter `ensure` passes: every field of the record reads as its value |
| Query.Filter | lib/store.js:180 | (definition) `sift(query, store)`: the selected documents in order, never more than the input |
| Query.Matching | lib/store.js:180 | (definition) the filtered documents, or all of them without a filter |
| Query.Arranged | lib/store.js:190-193 | (definition) the matches, sorted by the generated comparator when a sort is given |
| Query.Slice | lib/store.js:194 | (definition) `records.slice(start, end)`, never longer than the input |
| Query.Run | lib/store.js:159-196 | (definition) the result object `asArray` calls back with |
| Query.Paginate | lib/store.js:184-195 | (definition) the result object for a given offset and limit over the arranged matches |
| Query.SortThrows | lib/store.js:190-192 | (definition) the sort throws: two or more matches, one of them `null`, and a comparator that reads its operands |
| Query.ListingThrows | lib/store.js:163-192 | (definition) `asArray` throws: the store is not empty and its sort throws |
| Query.ListingThrowsIff | lib/store.js:190-192 | under a collation, a listing throws iff it sorts on a key of non-zero weight two or more matches including a `null` |
| Query.NullDocumentBreaksSort | lib/store.js:190-192 | `sort: {k: 1}` over a store holding `null` and one other document throws |
| Query.FilterSelects | lib/store.js:180 | the filtered records are exactly the documents the query selects |
| Query.FilterDistributes | lib/store.js:180 | filtering keeps the documents' relative order |
| Query.FilterNone | lib/store.js:180 | a query selecting no document yields no records |
| Query.ClampIndex | lib/store.js:194 | (definition) `slice` reads a negative index from the end and clamps both ends to the length |
| Query.SliceOfNatural | lib/store.js:194 | for non-negative indices `slice` is the plain sub-sequence cut at the end |
| Query.SliceConcat | lib/store.js:194 | adjacent slices concatenate to the slice spanning both |
| Query.SliceLength | lib/store.js:194-195 | a window at a non-negative offset and limit holds `min(limit, max(0, length - offset))` records |
| Query.ArrangedPermutes | lib/store.js:190-193 | sorting when a sort is given, or not, keeps the matches as a multiset |
| Query.EmptyStorePage | lib/store.js:163-173 | an empty store lists nothing, has no count, limit defaults to 100 and offset to 0 |
| Query.PageHoldsMatches | lib/store.js:175-194 | every listed record is a stored document that the filter selects |
| Query.PageCount | lib/store.js:181-195 | `length` counts all matches; `count` is `min(limit, max(0, length - offset))` for non-negative values |
| Query.DefaultsListEverything | lib/store.js:182-194 | without offset and limit the page is every match, sorted if asked, with count = length |
| Query.FilterOnlyListing | lib/store.js:221 | `asArray({filter: q})` lists exactly the documents `q` selects, in store order |
| Query.ConsecutivePages | lib/store.js:182-194 | the pages at offsets `o` and `o + l` with limit `l` together are the page at `o` with limit `2l` |
| Query.Windows | lib/store.js:182-194 | every numeric offset and limit cuts its page from the same arranged matches |
| Query.NegativeOffsetWithoutLimit | lib/store.js:182-194 | an offset in `[-length, 0)` without a limit lists nothing, since the window starts and ends at `length + offset` |
| Query.SortedPage | lib/store.js:190-194 | a page of a sorted listing is in the specification's order |
| Query.SecondOfThree | lib/store.js:181-195 | `{offset: 1, limit: 1}` over three documents lists the second, with length 3, offset 1, limit 1, count 1 |
| Stores.IdKey | lib/store.js:75 | (definition) the hash field of a numeric id is its decimal string |
| Stores.FilterBy | lib/store.js:221 | (definition) the options `{filter: record}` `ensure` lists with |
| Stores.Stamped | lib/store.js:73-74 | (definition) insert sets `_id` to the issued id and `_created` to the time, keeping every other field |
| Stores.Stamp | lib/store.js:73-75 | (definition) an object record is stamped; a number, string, boolean or array is left as it is |
| Stores.Restamped | lib/store.js:99-101 | (definition) update sets `_id` to the id as given, `_created` to the stored one, `_updated` to the time, keeping the caller's other fields |
| Stores.Docs | lib/store.js:175-179 | (definition) `HMGET` on the `HKEYS` reply yields each stored document, in key order |
| Stores.Store.constructor | lib/store.js:23-26 | a store handle has its name and the Redis state under it |
| Stores.Store.Get | lib/store.js:50-64 | the stored document in an envelope rooted at the store name; a missing id fails on the null reply |
| Stores.Store.Insert | lib/store.js:66-87 | the counter advances by one; `null`/`undefined` throws with nothing written; otherwise the stamped record is written under the new id, which no stored document used (when `Valid` held) |
| Stores.Store.Update | lib/store.js:89-114 | missing id: get's failure, nothing written; falsy document: invalid-id error, nothing written; otherwise the restamped record replaces it |
| Stores.Store.Delete | lib/store.js:116-126 | the field is removed; the reply is 1 if it was there and 0 if not |
| Stores.Store.Upsert | lib/store.js:202-216 | the document is written under the key unconditionally; the payload is the string "[object Object]" |
| Stores.Store.AsArray | lib/store.js:155-200 | the page equals `Query.Run` over the documents in `HKEYS` order, or `NullDereference` when the sort meets a `null` document |
| Stores.Store.Ensure | lib/store.js:218-233 | if the record selects a listed document, the first one is returned and nothing changes; otherwise the record is inserted under an id no document used; `Valid` is kept |
| Stores.EnsureTwice | lib/store.js:218-233 | for a record without its own `_id` or `_created`, a second `ensure` of it finds what the first found or inserted, and changes nothing |
| Stores.EnsureOwnIdTwice | lib/store.js:218-233 | a record carrying a non-numeric `_id` that no document matches is inserted by both of two `ensure` calls, taking two ids |
| Stores.EnsureOwnId | lib/store.js:218-233 | such an `ensure` inserts, keeps `Valid`, and a listing with the record as filter still finds nothing: the stored copy's `_id` is the issued id |
| Stores.EnsureUnlisted | lib/store.js:218-233 | `ensure` of a record no listed document matches inserts the stamped record under the next id, a field no document used |
| Stores.OwnIdDuplicated | lib/store.js:218-233 | `ensure({_id: "a1", foo: 1})` twice on an empty store inserts twice |
| Stores.InsertedNotListed | lib/store.js:221-229 | inserting a record with a non-numeric `_id` that selected nothing leaves a listing with it as filter empty |
| Stores.ListingAfterAppend | lib/store.js:175-180 | a field listed last adds its document to a filter-only listing exactly when the filter selects it |
| Stores.UnselectedNotListed | lib/store.js:175-180 | appending a document the filter rejects leaves an empty filter-only listing empty |
| Stores.Arrange | lib/store.js:190-193 | copying the matches into an array and sorting it in place gives the arranged sequence, or fails when the sort meets `null` |
| Stores.IdKeyInjective | lib/store.js:69-75 | distinct ids are stored under distinct hash fields |
| Stores.StampedSelectedByRecord | lib/store.js:221-229 | a record without `_id`/`_created` selects the document `ensure` inserted for it |
| Stores.InsertedListedAlone | lib/store.js:221-229 | after inserting a record no stored document matched, listing with it as filter finds that document alone |
| Stores.AppendedField | lib/store.js:175-179 | a new hash field listed last adds its document at the end of the `HMGET` reply |
| Stores.EnsureFindsSelected | lib/store.js:221-230 | if some stored document is selected by the record, `ensure`'s listing is not empty, so it does not insert |
| Stores.DeletedNotListed | test/test.basic.js:115-133 | after the only document a filter selects is deleted, listing with that filter has length 0 |
| Stores.InsertThenGet | test/test.basic.js:29-44 | getting by the id insert reported returns a document whose `_id` is that id, whose `_created` is the time, and whose every other field reads as in the caller's record |
| Stores.UpsertFetched | lib/store.js:202-216 | writing back with `upsert` the document `get` fetched leaves the store as it was, since stored documents are already in stored form (`Valid`) |
| Stores.InsertThenUpdate | test/test.basic.js:45-64 | updating a just-inserted record keeps its `_created` and sets `_updated` |

## Left out

- Redis failures: every `if(err) return callback(err)` path. The model has no
  failing service.
- `Store.init`, the client configuration and the `_getDB` readiness gate. They
  only delay calls until the connection is ready.
- Concurrency: interleaved calls, and the race between `ensure`'s listing and
  its insert. Each method runs atomically here.
- `sift` queries. A filter is an arbitrary predicate on documents. `ensure`'s
  filter is field-wise equality (`Query.Selects`). Operators such as `$exists`
  are not modelled.
- JSON parsing and encoding. Documents are stored parsed. Serialisation drops
  top-level `undefined` fields only; nested ones are kept, and `undefined`
  array elements are not turned into `null`.
- Dates. `_created` and `_updated` are the string the `now` parameter gives.
  The response carries them as `Date` objects, which the model does not
  distinguish from their JSON strings.
- Fractional numbers, exponents, white space, hexadecimal and `Infinity` in
  number parsing and rendering, including the exponent form of numbers of
  1e21 and more. Numbers are integers.
- `localeCompare`. It is the `collate` parameter.
- Nested field paths in sort keys (`a.b.c`), and keys that are not valid
  identifiers in the generated source.
- The property order of `Object.keys`. A sort specification is an ordered
  sequence.
- The JavaScript engine's sort algorithm. It is modelled as a stable insertion
  sort. On a comparator that is not a total preorder, engines may order
  differently.
- Aliasing. `insert` and `update` assign `_id` and friends on the caller's
  record object. The model returns the stamped record instead.
- A store named `root`, whose payload overwrites the envelope's `root` field.
  Also the clash between the counter key of store `x_` and the hash of store
  `x`.
- Property reads on primitives and arrays, such as `"abc".length` or `a[0]`.
  Only objects have fields in the model.
- Stores.Store.Insert: an array record gets `_id` and `_created` as
  properties, which `JSON.stringify` drops; the returned payload is the array
  without them.
- Stores.Store.Update: takes an object record. `update` given a primitive
  record would store that primitive, as `insert` does.
- Stores.Store.Upsert: requires a defined document. `JSON.stringify(undefined)`
  writes no string, and what the client then sends is outside the model.
- Stores.Store.AsArray: requires `keys` to list every field of the hash once.
  That is what `HKEYS` replies; its order is left open. The sort's
  `TypeError` is decided from the matches rather than traced comparison by
  comparison: with two or more records every engine compares each of them.
- Stores.Store.Ensure: requires `keys` to list every field of the hash once,
  as for `AsArray`, and takes an object record.
- Stores.EnsureTwice: requires `Valid` and `keys` as for `Ensure`. After an
  insert, the second call is given the first `keys` followed by the new
  field, one of the orders `HKEYS` may reply with; other orders are not
  covered. A record with its own `_id` or `_created` is excluded because it
  behaves differently: see `Stores.EnsureOwnIdTwice`.
- Stores.EnsureOwnIdTwice: stated for a record whose `_id` is not a number
  and that no stored document matches. A numeric `_id` other than the issued
  one, or a record with its own `_created`, is duplicated the same way; those
  cases are not stated.
- Integer width. Ids, the counter and numbers are exact at any size. In the
  source they are IEEE doubles, which lose integers above 2^53: there `INCR`
  can issue ids whose strings collide, so `Stores.Store.Insert`'s freshness
  and `Stores.IdKeyInjective` hold only below that bound.
