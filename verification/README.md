# DbCollection, modelled in Dafny

`DbCollection` is the in-memory database table of a mock-server addon. It
is a named, ordered list of records, where a record maps field names to
values. The table supports:

- inserting one record or a batch of records, with automatic ids;
- lookup by id, by a list of ids, or by a query (a record of fields, or a
  predicate);
- `firstOrCreate`;
- `update` and `remove`, each dispatched on the runtime type of its first
  argument.

The model treats every method as a pure function. It takes the table and
the arguments, and gives back the table the method leaves behind and the
value it returns. When the JavaScript throws part-way through, the model
returns `Threw(table)`.

Files:

- `records.dfy` (module `Records`): field values and records. It also holds
  the three JavaScript conversions the table relies on:
  - reading a missing field gives `undefined`;
  - `String(value)`, which query matching compares;
  - the digit-string-to-number coercion applied to an id before lookup.
  It also defines field assignment (`Merge`) and queries.
- `js_arrays.dfy` (module `JsArrays`): `indexOf` and `splice(start, 1)` with
  their JavaScript edge cases, plus some sequence vocabulary:
  - ranges of positions;
  - removing a set of positions (`Without`);
  - picking the elements at given positions (`Project`).
- `db_collection.dfy` (module `DbCollections`): the table and its operations.
- `properties.dfy` (module `DbCollectionProperties`): properties that relate
  several calls, or that relate an operation to an independent reference
  definition.

How the model represents the source's behaviour:

- `insert` always stores a fresh copy. So no two positions of the table
  hold the same object, and a stored record is identified by its position.
- `remove(ids)` and `remove(query)` run `indexOf` and then `splice` on the
  live table. The model follows this on the list of original positions
  still present.
- A lookup that misses, or a record that was already spliced out, gives
  `indexOf` -1. `splice(-1, 1)` then drops the last record.
- Id lookup first turns an all-digit string into a number, then compares
  with `===`. So `"12"` finds the id `12` but never a stored id `"12"`.
- Query matching compares `String(...)` of both sides. So `5` matches
  `"5"`, and a missing field matches `undefined` and `"undefined"`.
- Automatic ids are the table length plus one, not the largest id plus one.
  After a removal, an inserted record can repeat an id already in use.
- `update` with an id that misses writes a field through `undefined`. With
  a non-empty `attrs` this throws. For a list of ids, it throws after the
  records for the earlier ids have been updated.
- `update` and `remove` dispatch with `typeof`:
  - a query function is `'function'` and matches no branch of either, so
    nothing happens, even though `where` accepts query functions;
  - a boolean matches no branch of either;
  - `undefined` matches no branch of `update`, but `remove(undefined)`
    takes the same branch as `remove()` and empties the table;
  - `null` is an `'object'`, and it throws in `Object.keys(null)` as soon as
    there is a record to test.

Removing an id that misses does not leave the table alone: `indexOf` gives
-1 and `splice(-1, 1)` drops the last record. The model states this:

- `RemoveById` states the miss case;
- `RemoveRepeatedIdDropsLast` shows it for a repeated id;
- `AutoIdCanRepeatAfterRemove` shows the repeated-id consequence of
  length-based ids.

## Model

| member | source | states |
|---|---|---|
| Records.CoerceId | addon/db-collection.js:195-200 | Only a string of digits is changed, and it becomes a non-negative integer. No coerced id is still a digit string. |
| Records.ParseNatToString | addon/db-collection.js:198-199 | `parseInt` of the decimal numeral of `n` gives back `n`. |
| Records.CoerceNumeral | addon/db-collection.js:198-199 | The numeral of `n`, given as a string id, is coerced to the number `n`. |
| Records.IntToString | addon/db-collection.js:220 | `String(n)` is non-empty, starts with `-` exactly when `n` is negative, and otherwise starts with a digit. |
| Records.NatToString | addon/db-collection.js:220 | The numeral of a non-negative integer is all digits, with no leading zero unless it is `0`. |
| Records.IntToStringInjective | addon/db-collection.js:220 | Different integers print differently. |
| Records.StringifyIntAgrees | addon/db-collection.js:219-221 | A number and a value print alike exactly when the value is that number or its numeral as a string (both directions). |
| Records.StringifyUndefinedAgrees | addon/db-collection.js:219-221 | A missing field prints like `undefined` and like the string "undefined", and like nothing else. |
| Records.Merge | addon/db-collection.js:112-114 | Assigning `attrs` keeps every key, takes each assigned field from `attrs`, and keeps every other field. |
| Records.MergeIdempotent | addon/db-collection.js:112-114 | Assigning the same fields twice is the same as assigning them once. |
| Records.MergeNothing | addon/db-collection.js:127-129 | Assigning an empty `attrs` leaves a record unchanged. |
| Records.MergeChanges | addon/db-collection.js:110-118 | A merge changes a record exactly when some assigned field was missing or held a different value. |
| JsArrays.IndexOf | addon/db-collection.js:167 | Gives -1 exactly when the element is absent; otherwise gives the position of its first occurrence. |
| JsArrays.SpliceOne | addon/db-collection.js:168 | A valid start cuts out that element. Start -1 cuts out the last element. An empty array stays empty. The length drops by one when the array is non-empty. |
| JsArrays.SpliceFirstOccurrence | addon/db-collection.js:173-174 | In a list without repeats, splicing at `indexOf(x)` removes exactly `x`. |
| DbCollections.WithId | addon/db-collection.js:43-45 | An id that is missing, `null` or `undefined` becomes `count + 1`. Any other id and every other field is kept. |
| DbCollections.InsertOne | addon/db-collection.js:41-48 | The table becomes the old records followed by the stored record. The stored record is the input with its id assigned. |
| DbCollections.InsertBatch | addon/db-collection.js:50-60 | The batch is appended in input order. The k-th record gets its id assigned against `length + k`. One record is returned per input. |
| DbCollections.Insert | addon/db-collection.js:36-64 | Dispatch on the argument. A falsy argument stores `{id: length + 1}`. One record is stored with its id assigned against the old length. A batch stores the k-th record with its id assigned against `length + k`, and returns a list. |
| DbCollections.New | addon/db-collection.js:20-27 | A falsy initial value gives an empty table. A record or batch is inserted into the empty table, with ids counted from 1. |
| DbCollections.IdIndex | addon/db-collection.js:194-205 | Finds the first position whose id is strictly equal to the coerced id, or reports that no position has it. |
| DbCollections.Find | addon/db-collection.js:74-80 | Returns null exactly when no record has the coerced id. Otherwise returns the first record that has it. |
| DbCollections.Positions | addon/db-collection.js:133-135 | One lookup per id, in order. A lookup is empty exactly when no record has the coerced id; otherwise it is a position holding that id. |
| DbCollections.FindRecords | addon/db-collection.js:207-211 | One lookup per id, in the order of the ids. Every record found is stored in the table. |
| DbCollections.Present | addon/db-collection.js:68-69 | Keeps exactly the records held by the non-empty slots. When every slot is full, it keeps all of them in order. |
| DbCollections.FindMany | addon/db-collection.js:67-72 | Returns at most one record per id, each of them stored. A record is in the result exactly when some id finds it. When every id is found, the k-th result is `find(ids[k])`. |
| DbCollections.MatchedFrom | addon/db-collection.js:213-227 | The positions at or after `lo` whose record satisfies the query, in increasing order (both directions of membership). |
| DbCollections.MatchedPositions | addon/db-collection.js:224-226 | Every position whose record satisfies the query, and no other, in increasing order. |
| DbCollections.Where | addon/db-collection.js:83-87 | Every result is a stored record that matches, and every matching record is in the result. The first result is the first match in storage order. |
| DbCollections.FirstOrCreate | addon/db-collection.js:89-101 | If some record matches, the table is unchanged and the first match is returned. Otherwise it appends a record with the query's fields, the defaults' other fields, and an id. |
| DbCollections.UntilMiss | addon/db-collection.js:137-141 | The part of a `forEach` over the lookups that runs before the first `undefined`: a prefix with no misses, stopped at a miss. |
| DbCollections.ApplyAttrs | addon/db-collection.js:137-141 | The length is kept. The run completes exactly when `attrs` is empty or every lookup hit. |
| DbCollections.ApplyAttrsEffect | addon/db-collection.js:137-141 | Exactly the records visited before the first miss get `attrs` merged in, once each, however often they are visited. |
| DbCollections.CompletedApplyMergesAll | addon/db-collection.js:137-141 | When no write threw, every visited record has `attrs` merged in. |
| DbCollections.ChangedAreReported | addon/db-collection.js:109-119 | The records reported are exactly the merged records that differ from their original. |
| DbCollections.UpdateEvery | addon/db-collection.js:106-121 | Every record gets `attrs` merged in. The result is exactly the records whose value changed. |
| DbCollections.UpdateById | addon/db-collection.js:123-131 | It throws exactly when the id misses and `attrs` is non-empty. A hit merges into the first record with the id and changes nothing else. A miss with empty `attrs` returns `undefined`. |
| DbCollections.UpdateByIds | addon/db-collection.js:133-143 | It throws exactly when `attrs` is non-empty and some id misses. Exactly the records found before the first miss are merged. The returned slots follow the ids, with the merged records. |
| DbCollections.UpdateWhere | addon/db-collection.js:145-155 | Exactly the matching records get `attrs` merged in. The returned list is `where(query)` with `attrs` merged into each record. |
| DbCollections.MergeAtMatches | addon/db-collection.js:147-153 | Merging at the matched positions changes exactly the matching records. |
| DbCollections.Update | addon/db-collection.js:103-157 | The `typeof` dispatch; the length is always kept. `update(attrs)` merges into every record and reports the changed ones. A scalar id behaves as `UpdateById`, merging into the found record. An id list merges exactly the records found before the first miss. A query object merges exactly the matching records and returns them. A throw happens exactly for `null` on a non-empty table, or for non-empty `attrs` with a missed id. A boolean, `undefined` or a query function changes nothing and returns `undefined`. |
| DbCollections.Locate | addon/db-collection.js:166-180 | Gives -1 exactly when the lookup missed or its record was already spliced out. Otherwise gives the first live position holding that record. |
| DbCollections.RemoveFold | addon/db-collection.js:172-175 | Each `indexOf`/`splice` step removes one element from a non-empty table, hit or miss. |
| DbCollections.RemoveById | addon/db-collection.js:165-168 | A hit removes exactly the first record with the id. A miss drops the last record. |
| DbCollections.RemoveByIds | addon/db-collection.js:170-175 | One record is removed per id while any remain, and every survivor was stored before. |
| DbCollections.RemoveWhere | addon/db-collection.js:177-182 | The table shrinks by the number of matches, and every survivor was stored before. |
| DbCollections.Remove | addon/db-collection.js:159-184 | The `typeof` dispatch. Omitted or `undefined` empties the table. `null` on a non-empty table throws. A boolean or query function changes nothing. A scalar id behaves as `RemoveById`, an id list as `RemoveByIds`, and a query object as `RemoveWhere`. |
| DbCollectionProperties.BatchIdsAreSequential | addon/db-collection.js:50-60 | Records without ids inserted into a table of L records get ids L+1, L+2, ... in input order, and are stored at the end. |
| DbCollectionProperties.NewNumbersFromOne | addon/db-collection.js:20-27 | A table created from records without ids numbers them 1..n. |
| DbCollectionProperties.InsertThenFind | addon/db-collection.js:41-48 | A record inserted under an id no other record has, and that is not a digit string, is what `find` returns for that id. |
| DbCollectionProperties.FindNumeralIsFindNumber | addon/db-collection.js:195-202 | `find("12")` is `find(12)`. |
| DbCollectionProperties.FindNeverReturnsDigitStringId | addon/db-collection.js:195-202 | `find` never returns a record whose id is a digit string. |
| DbCollectionProperties.PresentAppend | addon/db-collection.js:68-69 | Dropping misses commutes with concatenating slot lists. |
| DbCollectionProperties.FindManyAppend | addon/db-collection.js:207-211 | `find(a ++ b)` is `find(a) ++ find(b)`: each id is looked up on its own, in order. |
| DbCollectionProperties.FindManyOne | addon/db-collection.js:67-72 | A single id gives its record when found and nothing when it misses. |
| DbCollectionProperties.FindManyThree | addon/db-collection.js:67-72 | Three ids are looked up one at a time, and each miss contributes nothing. |
| DbCollectionProperties.FindManyDropsMiss | addon/db-collection.js:67-72 | `find([1, 2, 999])` on a table with ids 1 and 2 gives the two records. |
| DbCollectionProperties.FindManyRepeats | addon/db-collection.js:67-72 | A repeated id that is found gives a repeated result. |
| DbCollectionProperties.MatchNumeral | addon/db-collection.js:219-221 | A query field holding a numeral string matches exactly that number or that string (both directions). |
| DbCollectionProperties.MatchMissingField | addon/db-collection.js:219-221 | A query on a missing field matches only `undefined` and "undefined". |
| DbCollectionProperties.FilterMembers | addon/db-collection.js:226 | The reference filter keeps exactly the records on the requested side of the query. |
| DbCollectionProperties.FilterSplits | addon/db-collection.js:226 | Every record goes to exactly one side of a query (as multisets). |
| DbCollectionProperties.MatchedFromIsFilter | addon/db-collection.js:213-227 | The matched positions pick out exactly the reference filter of the suffix. |
| DbCollectionProperties.WhereIsFilter | addon/db-collection.js:83-87 | `where(query)` equals the reference filter: the matching records, in storage order. |
| DbCollectionProperties.FilterAllHold | addon/db-collection.js:226 | A query every record satisfies keeps the whole list. |
| DbCollectionProperties.WhereEmptyQuery | addon/db-collection.js:217-221 | An empty query returns every record. |
| DbCollectionProperties.FirstOrCreateFinds | addon/db-collection.js:90-94 | When a record matches, the first match is returned and the table is unchanged. |
| DbCollectionProperties.FirstOrCreateCreates | addon/db-collection.js:95-99 | When nothing matches, the call inserts the defaults overridden by the query. |
| DbCollectionProperties.CreatedRecordMatches | addon/db-collection.js:96-97 | The created record matches its query, unless the query asks for a missing id. |
| DbCollectionProperties.FirstOrCreateIdempotent | addon/db-collection.js:89-101 | A second identical call returns the same record and changes nothing. |
| DbCollectionProperties.UpdateEveryReportsInOrder | addon/db-collection.js:106-121 | `update(attrs)` reports each record the merge changes, merged, once each and in storage order. |
| DbCollectionProperties.UpdateEveryIdempotent | addon/db-collection.js:106-121 | A second `update(attrs)` changes nothing and reports nothing. |
| DbCollectionProperties.UpdateByIdThenFind | addon/db-collection.js:123-131 | If `attrs` leaves the id alone, `find(id)` after `update(id, attrs)` returns the updated record. |
| DbCollectionProperties.UpdateWhereAssigns | addon/db-collection.js:149-155 | Every record `update(query, attrs)` returns holds the values of `attrs`. |
| DbCollectionProperties.RemoveFoldOfHits | addon/db-collection.js:179-182 | Splicing out distinct present positions, one by one, removes exactly those positions. |
| DbCollectionProperties.RemoveWhereIsFilter | addon/db-collection.js:177-182 | `remove(query)` keeps exactly the non-matching records, in their order. |
| DbCollectionProperties.RemoveQueryIsFilter | addon/db-collection.js:159-184 | `remove(query)` with a query object keeps exactly the non-matching records, in their order. |
| DbCollectionProperties.WhereAndRemoveWhereSplit | addon/db-collection.js:177-182 | `where(query)` and the survivors of `remove(query)` partition the table (as multisets). |
| DbCollectionProperties.RemoveUniqueIdThenFind | addon/db-collection.js:165-168 | If exactly one record has the id, `find` misses after `remove(id)`. |
| DbCollectionProperties.RemoveOneIdListIsRemoveId | addon/db-collection.js:165-175 | `remove([id])` is `remove(id)`, on a hit and on a miss. |
| DbCollectionProperties.RemoveRepeatedIdDropsLast | addon/db-collection.js:170-175 | `remove([id, id])` removes the record for `id`. The second lookup then misses its spliced-out record, so the last record is dropped too. |
| DbCollectionProperties.AutoIdCanRepeatAfterRemove | addon/db-collection.js:43-45 | After a removal, an auto-assigned id can repeat an id that is still in the table. |

## Left out

- `duplicate` and every defensive copy (addon/db-collection.js:5-13, 33, 48, 59, 72, 79, 86). Records are values here, so a copy equals its original. The model does not tell references from copies, and `All` therefore returns the records themselves with no contract.
- Aliasing of returned records: `update` returns the stored objects themselves, and `firstOrCreate` mutates the caller's defaults object through `_assign`. Neither can be observed without heap identity.
- Numbers are integers. Floating point, `-0`, `NaN`, and `String()` of large or fractional numbers (exponent notation) are not modelled. `parseInt` of a digit string longer than double precision is modelled as the exact integer.
- Field values are integers, strings, booleans, `null` and `undefined`. Nested objects and arrays as field values, and their `String()`, are not modelled.
- Keys inherited through the prototype, which `for...in` would visit, are not modelled.
- A query function is a total Dafny function `Record -> bool`. A predicate that throws, or that mutates the record it is given, is not modelled.
- `firstOrCreate` takes its query as a record of fields. A query function passed to it is not modelled, and neither is a non-object value passed as `attrs`, `data` or `initialData`. An omitted `attributesForNew` is the empty record.
- DbCollections.RemoveByIds: the contract states only the length and that survivors were stored before, not which records survive in general. The exact survivors are proved for a single id (`RemoveOneIdListIsRemoveId`) and for a repeated id (`RemoveRepeatedIdDropsLast`).
- Records.Stringify has no contract of its own. `IntToString`, `NatToString`, `IntToStringInjective`, `StringifyIntAgrees` and `StringifyUndefinedAgrees` pin what query matching needs from it.
- Records.ParseDecimal has no contract of its own. `ParseNatToString` and `CoerceNumeral` pin it on numerals.
- DbCollections.Lookup (`_findRecord`) has no contract of its own. `Find` returns it unchanged, so `Find`'s contract states it.
- DbCollections.ChangedBy (`!_isEqual(oldRecord, record)`) has no contract of its own. `MergeChanges` and `ChangedAreReported` state which records it selects.
- DbCollections.MergeAll has no contract beyond its own definition. `UpdateEvery` and `UpdateEveryReportsInOrder` state its effect.
- DbCollections.Slots has no contract beyond its own definition. `UpdateByIds` states what the returned slots hold.
- Records.MatchesFields (the default query function, addon/db-collection.js:216-222) has no contract of its own. `MatchNumeral`, `MatchMissingField` and `WhereEmptyQuery` pin its string-comparison rule.
- Records.Holds (the choice of query function, addon/db-collection.js:224) has no contract of its own. `Where`, `MatchedPositions` and `WhereIsFilter` state what it selects.
- Records.AllDigits (the test at addon/db-collection.js:195-198) has no contract of its own. `CoerceId`, `NatToString` and `FindNeverReturnsDigitStringId` state what it admits.
- DbCollections.IsScalar (the number-or-string `typeof` test at addon/db-collection.js:123 and 165) has no contract of its own. `Update` and `Remove` state which targets it routes to the id branches.
