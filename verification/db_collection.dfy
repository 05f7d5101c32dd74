/** The in-memory table: a named, ordered sequence of records with insert,
    lookup by id, by a list of ids or by query, first-or-create, update and
    remove.

    Every operation is a function from the table and its arguments to what
    the JavaScript method leaves behind (the new table) and what it returns.
    Records are values here; a stored record is identified by its position,
    which is sound because `insert` always stores a fresh copy, so no two
    positions of the table ever hold the same object. */
module DbCollections {
  import opened Records
  import opened JsArrays

  datatype DbCollection = DbCollection(name: string, records: seq<Record>)

  /** What `insert` and the constructor accept: a falsy value, one record,
      or an array of records. */
  datatype InsertArg = NoData | One(data: Record) | Batch(batch: seq<Record>)

  datatype Inserted = OneInserted(record: Record) | BatchInserted(inserted: seq<Record>)

  /** The first argument of `update` and `remove`, by its runtime type:
      omitted (for `update`, the one-argument form `update(attrs)`), a
      single value (a number or string id, or a boolean, `null` or
      `undefined`), an array of ids, or a query object or query function. */
  datatype Target = Everything | Id(id: Value) | Ids(ids: seq<Value>) | Matching(query: Query)

  /** A call either returns, or throws a TypeError part-way through; either
      way the table is left as the call had mutated it so far. */
  datatype Outcome<T> = Returned(db: DbCollection, value: T) | Threw(db: DbCollection)

  /** What `update` returns for each shape of its target. */
  datatype UpdateReply =
    | ChangedRecords(changed: seq<Record>)
    | OneRecord(record: Option<Record>)
    | RecordList(list: seq<Option<Record>>)
    | MatchedRecords(matched: seq<Record>)
    | NoReply

  /** The single values `update` and `remove` treat as an id
      (`typeof target === 'number' || typeof target === 'string'`). */
  predicate IsScalar(v: Value) {
    v.Int? || v.Str?
  }

  // ---------------------------------------------------------------------------
  // Constructor, all, insert

  /** `all()`: the records in storage order. */
  function All(c: DbCollection): seq<Record> {
    c.records
  }

  /** The record `insert` stores for `data` when the table holds `count`
      records: an `id` that is missing, `null` or `undefined` becomes
      `count + 1`; any other id is kept. */
  function WithId(data: Record, count: nat): (r: Record)
    ensures r.Keys == data.Keys + {IdField}
    ensures forall k :: k in data && k != IdField ==> r[k] == data[k]
    ensures Get(data, IdField) in {Undefined, Null} ==> r[IdField] == Int(count + 1)
    ensures Get(data, IdField) !in {Undefined, Null} ==> r[IdField] == data[IdField]
  {
    if Get(data, IdField) == Undefined || Get(data, IdField) == Null then data[IdField := Int(count + 1)]
    else data
  }

  /** `insert(record)`: the record, with its id assigned, appended at the end. */
  function InsertOne(c: DbCollection, data: Record): (res: (DbCollection, Record))
    ensures res.0.name == c.name
    ensures res.0.records == c.records + [res.1]
    ensures res.1 == WithId(data, |c.records|)
  {
    var stored := WithId(data, |c.records|);
    (DbCollection(c.name, c.records + [stored]), stored)
  }

  /** `insert(array)`: each record is inserted in turn, so each auto-assigned
      id counts the records inserted before it in the same batch. */
  function InsertBatch(c: DbCollection, batch: seq<Record>): (res: (DbCollection, seq<Record>))
    ensures res.0.name == c.name
    ensures |res.1| == |batch|
    ensures res.0.records == c.records + res.1
    ensures forall k :: 0 <= k < |batch| ==> res.1[k] == WithId(batch[k], |c.records| + k)
    decreases |batch|
  {
    if |batch| == 0 then (c, [])
    else
      var first := InsertOne(c, batch[0]);
      var rest := InsertBatch(first.0, batch[1..]);
      (rest.0, [first.1] + rest.1)
  }

  /** `insert(data)`: a falsy argument inserts an empty record. */
  function Insert(c: DbCollection, arg: InsertArg): (res: (DbCollection, Inserted))
    ensures res.0.name == c.name
    ensures arg.Batch? <==> res.1.BatchInserted?
    ensures arg.Batch? ==> res.0.records == c.records + res.1.inserted && |res.1.inserted| == |arg.batch|
    ensures !arg.Batch? ==> res.0.records == c.records + [res.1.record]
    ensures arg.NoData? ==> res.1.record == map[IdField := Int(|c.records| + 1)]
    ensures arg.One? ==> res.1.record == WithId(arg.data, |c.records|)
    ensures arg.Batch? ==> forall k :: 0 <= k < |arg.batch| ==> res.1.inserted[k] == WithId(arg.batch[k], |c.records| + k)
  {
    match arg
    case NoData =>
      var one := InsertOne(c, map[]);
      (one.0, OneInserted(one.1))
    case One(data) =>
      var one := InsertOne(c, data);
      (one.0, OneInserted(one.1))
    case Batch(batch) =>
      var many := InsertBatch(c, batch);
      (many.0, BatchInserted(many.1))
  }

  /** `new DbCollection(name, initialData)`: unlike `insert`, a falsy
      initial value inserts nothing. */
  function New(name: string, initial: InsertArg): (c: DbCollection)
    ensures c.name == name
    ensures initial.NoData? ==> c.records == []
    ensures initial.One? ==> c.records == [WithId(initial.data, 0)]
    ensures initial.Batch? ==> |c.records| == |initial.batch|
    ensures initial.Batch? ==> forall k :: 0 <= k < |c.records| ==> c.records[k] == WithId(initial.batch[k], k)
  {
    var empty := DbCollection(name, []);
    match initial
    case NoData => empty
    case One(data) =>
      var res := InsertOne(empty, data);
      assert res.0.records == [] + [res.1];
      res.0
    case Batch(batch) =>
      var res := InsertBatch(empty, batch);
      assert res.0.records == res.1;
      assert forall k :: 0 <= k < |batch| ==> res.1[k] == WithId(batch[k], k);
      res.0
  }

  // ---------------------------------------------------------------------------
  // Lookup by id

  /** The position of the first record whose id is strictly equal to `id`
      after coercion: the first element the id filter at
      addon/db-collection.js:202 keeps. */
  function IdIndex(rs: seq<Record>, id: Value): (r: Option<nat>)
    ensures r.Some? ==> r.value < |rs| && Get(rs[r.value], IdField) == CoerceId(id)
    ensures r.Some? ==> forall j :: 0 <= j < r.value ==> Get(rs[j], IdField) != CoerceId(id)
    ensures r.None? ==> forall j :: 0 <= j < |rs| ==> Get(rs[j], IdField) != CoerceId(id)
  {
    var ids := seq(|rs|, j requires 0 <= j < |rs| => Get(rs[j], IdField));
    var i := IndexFrom(ids, CoerceId(id), 0);
    assert forall j :: 0 <= j < |rs| ==> ids[j] == Get(rs[j], IdField);
    if i == -1 then None else Some(i)
  }

  /** `_findRecord(id)`. */
  function Lookup(rs: seq<Record>, id: Value): Option<Record> {
    match IdIndex(rs, id)
    case None => None
    case Some(i) => Some(rs[i])
  }

  /** `find(id)`: the first stored record whose id equals `id` (a string of
      digits having been turned into a number first), or `null`. */
  function Find(c: DbCollection, id: Value): (r: Option<Record>)
    ensures r.None? <==> forall j :: 0 <= j < |c.records| ==> Get(c.records[j], IdField) != CoerceId(id)
    ensures r.Some? ==> exists i :: 0 <= i < |c.records| && r.value == c.records[i]
                                    && Get(c.records[i], IdField) == CoerceId(id)
                                    && forall j :: 0 <= j < i ==> Get(c.records[j], IdField) != CoerceId(id)
  {
    Lookup(c.records, id)
  }

  /** `_findRecords(ids)`: one lookup per id, `undefined` for a miss. */
  function FindRecords(rs: seq<Record>, ids: seq<Value>): (slots: seq<Option<Record>>)
    ensures |slots| == |ids|
    ensures forall k :: 0 <= k < |ids| ==> slots[k] == Lookup(rs, ids[k])
    ensures forall x :: Some(x) in slots ==> x in rs
  {
    var slots := seq(|ids|, k requires 0 <= k < |ids| => Lookup(rs, ids[k]));
    assert forall k :: 0 <= k < |ids| && slots[k].Some? ==> slots[k].value in rs;
    slots
  }

  /** The records held by the slots, in order, skipping the empty ones
      (`filter(r => r !== undefined)`). */
  function Present(slots: seq<Option<Record>>): (r: seq<Record>)
    ensures |r| <= |slots|
    ensures forall x :: x in r <==> Some(x) in slots
    ensures (forall k :: 0 <= k < |slots| ==> slots[k].Some?) ==>
              |r| == |slots| && forall k :: 0 <= k < |r| ==> Some(r[k]) == slots[k]
  {
    if |slots| == 0 then []
    else
      assert slots == [slots[0]] + slots[1..];
      (match slots[0] case None => [] case Some(x) => [x]) + Present(slots[1..])
  }

  /** `find(ids)`: the records found for the ids, in the order of the ids,
      misses dropped. */
  function FindMany(c: DbCollection, ids: seq<Value>): (r: seq<Record>)
    ensures |r| <= |ids|
    ensures forall x :: x in r ==> x in c.records
    ensures forall x :: x in r <==> exists k :: 0 <= k < |ids| && Find(c, ids[k]) == Some(x)
    ensures (forall k :: 0 <= k < |ids| ==> Find(c, ids[k]).Some?) ==>
              |r| == |ids| && forall k :: 0 <= k < |ids| ==> Some(r[k]) == Find(c, ids[k])
  {
    Present(FindRecords(c.records, ids))
  }

  // ---------------------------------------------------------------------------
  // Lookup by query

  /** The positions at or after `lo` whose record satisfies the query, in
      increasing order. */
  function MatchedFrom(rs: seq<Record>, q: Query, lo: nat): (ps: seq<nat>)
    requires lo <= |rs|
    ensures |ps| <= |rs| - lo
    ensures Increasing(ps)
    ensures forall k :: 0 <= k < |ps| ==> lo <= ps[k] < |rs|
    ensures forall i :: lo <= i < |rs| ==> (i in ps <==> Holds(q, rs[i]))
    decreases |rs| - lo
  {
    if lo == |rs| then []
    else if Holds(q, rs[lo]) then [lo] + MatchedFrom(rs, q, lo + 1)
    else MatchedFrom(rs, q, lo + 1)
  }

  /** `_findRecordsWhere(query)`: the positions of the matching records. */
  function MatchedPositions(rs: seq<Record>, q: Query): (ps: seq<nat>)
    ensures |ps| <= |rs|
    ensures Increasing(ps)
    ensures forall k :: 0 <= k < |ps| ==> ps[k] < |rs|
    ensures forall i :: 0 <= i < |rs| ==> (i in ps <==> Holds(q, rs[i]))
  {
    MatchedFrom(rs, q, 0)
  }

  /** `where(query)`: the stored records satisfying the query, in storage order. */
  function Where(c: DbCollection, q: Query): (r: seq<Record>)
    ensures |r| <= |c.records|
    ensures forall x :: x in r ==> x in c.records && Holds(q, x)
    ensures forall i :: 0 <= i < |c.records| && Holds(q, c.records[i]) ==> c.records[i] in r
    ensures |r| > 0 ==> exists i :: 0 <= i < |c.records| && r[0] == c.records[i] && Holds(q, c.records[i])
                                    && forall j :: 0 <= j < i ==> !Holds(q, c.records[j])
  {
    var ps := MatchedPositions(c.records, q);
    ProjectMatched(c.records, q, ps);
    Project(c.records, ps)
  }

  lemma ProjectMatched(rs: seq<Record>, q: Query, ps: seq<nat>)
    requires ps == MatchedPositions(rs, q)
    ensures forall x :: x in Project(rs, ps) ==> x in rs && Holds(q, x)
    ensures forall i :: 0 <= i < |rs| && Holds(q, rs[i]) ==> rs[i] in Project(rs, ps)
    ensures |ps| > 0 ==> exists i :: 0 <= i < |rs| && Project(rs, ps)[0] == rs[i] && Holds(q, rs[i])
                                     && forall j :: 0 <= j < i ==> !Holds(q, rs[j])
  {
    var r := Project(rs, ps);
    forall x | x in r ensures x in rs && Holds(q, x) {
      var k :| 0 <= k < |r| && r[k] == x;
      assert ps[k] in ps;
    }
    forall i | 0 <= i < |rs| && Holds(q, rs[i]) ensures rs[i] in r {
      var k :| 0 <= k < |ps| && ps[k] == i;
      assert r[k] == rs[i];
    }
    if |ps| > 0 {
      assert ps[0] in ps;
      forall j | 0 <= j < ps[0] ensures !Holds(q, rs[j]) {
        forall k | 0 <= k < |ps| ensures ps[k] != j {
          assert k == 0 || ps[0] < ps[k];
        }
        assert j !in ps;
      }
    }
  }

  /** The records satisfying (`keep`) or failing (`!keep`) the query, in
      storage order: a reference definition, one record at a time. */
  function Filter(rs: seq<Record>, q: Query, keep: bool): seq<Record> {
    if |rs| == 0 then []
    else (if Holds(q, rs[0]) == keep then [rs[0]] else []) + Filter(rs[1..], q, keep)
  }

  // ---------------------------------------------------------------------------
  // firstOrCreate

  /** `firstOrCreate(query, defaults)`: the first record matching the query,
      or else a new record built from the defaults overridden by the query. */
  function FirstOrCreate(c: DbCollection, query: Record, defaults: Record): (res: (DbCollection, Record))
    ensures res.0.name == c.name
    ensures (exists i :: 0 <= i < |c.records| && MatchesFields(c.records[i], query)) ==>
              && res.0 == c
              && exists i :: 0 <= i < |c.records| && res.1 == c.records[i] && MatchesFields(res.1, query)
                             && forall j :: 0 <= j < i ==> !MatchesFields(c.records[j], query)
    ensures (forall i :: 0 <= i < |c.records| ==> !MatchesFields(c.records[i], query)) ==>
              && res.0.records == c.records + [res.1]
              && res.1.Keys == defaults.Keys + query.Keys + {IdField}
              && (forall k :: k in query && k != IdField ==> res.1[k] == query[k])
              && (forall k :: k in defaults && k !in query && k != IdField ==> res.1[k] == defaults[k])
  {
    var found := Where(c, Fields(query));
    if |found| > 0 then (c, found[0])
    else
      assert forall i :: 0 <= i < |c.records| ==> !Holds(Fields(query), c.records[i]);
      InsertOne(c, Merge(defaults, query))
  }

  // ---------------------------------------------------------------------------
  // Update

  /** One id lookup per id, in the order of the ids, as positions in the
      table (addon/db-collection.js:209-210). */
  function Positions(rs: seq<Record>, ids: seq<Value>): (ts: seq<Option<nat>>)
    ensures |ts| == |ids|
    ensures forall k :: 0 <= k < |ids| ==> ts[k] == IdIndex(rs, ids[k])
    ensures forall k :: 0 <= k < |ids| ==>
              (ts[k].None? <==> forall j :: 0 <= j < |rs| ==> Get(rs[j], IdField) != CoerceId(ids[k]))
    ensures forall k :: 0 <= k < |ids| && ts[k].Some? ==>
              ts[k].value < |rs| && Get(rs[ts[k].value], IdField) == CoerceId(ids[k])
  {
    seq(|ids|, k requires 0 <= k < |ids| => IdIndex(rs, ids[k]))
  }

  function AsFound(ps: seq<nat>): (ts: seq<Option<nat>>)
    ensures |ts| == |ps|
    ensures forall k :: 0 <= k < |ps| ==> ts[k] == Some(ps[k])
  {
    seq(|ps|, k requires 0 <= k < |ps| => Some(ps[k]))
  }

  /** The longest prefix of `ts` without a miss: the part of a `forEach` over
      `ts` that runs before a write through `undefined` throws. */
  function UntilMiss(ts: seq<Option<nat>>): (p: seq<Option<nat>>)
    ensures |p| <= |ts| && p == ts[..|p|]
    ensures forall k :: 0 <= k < |p| ==> p[k].Some?
    ensures |p| < |ts| ==> ts[|p|].None?
  {
    if |ts| == 0 || ts[0].None? then []
    else [ts[0]] + UntilMiss(ts[1..])
  }

  lemma AsFoundHasNoMiss(ps: seq<nat>)
    ensures UntilMiss(AsFound(ps)) == AsFound(ps)
    ensures forall i :: Some(i) in AsFound(ps) <==> i in ps
  {
    var ts := AsFound(ps);
    assert |UntilMiss(ts)| == |ts|;
    assert ts[..|ts|] == ts;
    forall i | i in ps ensures Some(i) in ts {
      var k :| 0 <= k < |ps| && ps[k] == i;
      assert ts[k] == Some(i);
    }
  }

  /** Visits the positions `ts` in turn and assigns every field of `attrs`
      to the record at each (addon/db-collection.js:137-141). The flag is
      false when a miss met a non-empty `attrs` and the write through
      `undefined` threw; the records before it are then already updated. */
  function ApplyAttrs(rs: seq<Record>, ts: seq<Option<nat>>, attrs: Record): (res: (seq<Record>, bool))
    requires forall k :: 0 <= k < |ts| && ts[k].Some? ==> ts[k].value < |rs|
    ensures |res.0| == |rs|
    ensures res.1 <==> |attrs| == 0 || forall k :: 0 <= k < |ts| ==> ts[k].Some?
    decreases |ts|
  {
    if |ts| == 0 then (rs, true)
    else
      match ts[0]
      case None =>
        if |attrs| == 0 then ApplyAttrs(rs, ts[1..], attrs) else (rs, false)
      case Some(p) =>
        ApplyAttrs(rs[p := Merge(rs[p], attrs)], ts[1..], attrs)
  }

  /** The records `ApplyAttrs` leaves: exactly those at the positions visited
      before the first miss have `attrs` merged in, each once, however often
      it is visited. */
  lemma {:induction false} ApplyAttrsEffect(rs: seq<Record>, ts: seq<Option<nat>>, attrs: Record)
    requires forall k :: 0 <= k < |ts| && ts[k].Some? ==> ts[k].value < |rs|
    ensures forall i :: 0 <= i < |rs| ==>
              ApplyAttrs(rs, ts, attrs).0[i] == if Some(i) in UntilMiss(ts) then Merge(rs[i], attrs) else rs[i]
    decreases |ts|
  {
    if |ts| > 0 {
      var out := ApplyAttrs(rs, ts, attrs).0;
      match ts[0]
      case None =>
        assert UntilMiss(ts) == [];
        if |attrs| == 0 {
          ApplyAttrsEffect(rs, ts[1..], attrs);
          assert attrs == map[];
          forall i | 0 <= i < |rs| ensures out[i] == rs[i] {
            MergeNothing(rs[i]);
          }
        }
      case Some(p) =>
        var next := rs[p := Merge(rs[p], attrs)];
        ApplyAttrsEffect(next, ts[1..], attrs);
        assert UntilMiss(ts) == [Some(p)] + UntilMiss(ts[1..]);
        forall i | 0 <= i < |rs|
          ensures out[i] == if Some(i) in UntilMiss(ts) then Merge(rs[i], attrs) else rs[i]
        {
          if i == p {
            MergeIdempotent(rs[p], attrs);
          }
        }
    }
  }

  /** When no write threw, every visited record ends up with `attrs` merged in. */
  lemma CompletedApplyMergesAll(rs: seq<Record>, ts: seq<Option<nat>>, attrs: Record)
    requires forall k :: 0 <= k < |ts| && ts[k].Some? ==> ts[k].value < |rs|
    requires ApplyAttrs(rs, ts, attrs).1
    ensures forall k :: 0 <= k < |ts| && ts[k].Some? ==>
              ApplyAttrs(rs, ts, attrs).0[ts[k].value] == Merge(rs[ts[k].value], attrs)
  {
    ApplyAttrsEffect(rs, ts, attrs);
    var out := ApplyAttrs(rs, ts, attrs).0;
    forall k | 0 <= k < |ts| && ts[k].Some?
      ensures out[ts[k].value] == Merge(rs[ts[k].value], attrs)
    {
      if |attrs| == 0 {
        assert attrs == map[];
        MergeNothing(rs[ts[k].value]);
      } else {
        assert |UntilMiss(ts)| == |ts|;
        assert UntilMiss(ts)[k] == ts[k];
      }
    }
  }

  /** The array of references `update` returns, read after the writes. */
  function Slots(state: seq<Record>, ts: seq<Option<nat>>): (r: seq<Option<Record>>)
    requires forall k :: 0 <= k < |ts| && ts[k].Some? ==> ts[k].value < |state|
    ensures |r| == |ts|
    ensures forall k :: 0 <= k < |ts| ==> r[k].Some? == ts[k].Some?
    ensures forall k :: 0 <= k < |ts| && ts[k].Some? ==> r[k].value == state[ts[k].value]
  {
    seq(|ts|, k requires 0 <= k < |ts| => match ts[k] case None => None case Some(p) => Some(state[p]))
  }

  /** The records a merge of `attrs` would change (`!_isEqual(oldRecord, record)`). */
  function ChangedBy(attrs: Record): Query {
    Test(r => Merge(r, attrs) != r)
  }

  /** Every record with `attrs` merged in. */
  function MergeAll(rs: seq<Record>, attrs: Record): (state: seq<Record>)
    ensures |state| == |rs|
    ensures forall i :: 0 <= i < |rs| ==> state[i] == Merge(rs[i], attrs)
  {
    seq(|rs|, i requires 0 <= i < |rs| => Merge(rs[i], attrs))
  }

  /** The records picked at the positions a merge changes are exactly the
      merged records that differ from the originals. */
  lemma ChangedAreReported(rs: seq<Record>, attrs: Record)
    ensures var state := MergeAll(rs, attrs);
            var changed := MatchedPositions(rs, ChangedBy(attrs));
            forall x :: x in Project(state, changed) <==>
              exists i :: 0 <= i < |rs| && x == state[i] && x != rs[i]
  {
    var state := MergeAll(rs, attrs);
    var changed := MatchedPositions(rs, ChangedBy(attrs));
    var reported := Project(state, changed);
    forall x | x in reported ensures exists i :: 0 <= i < |rs| && x == state[i] && x != rs[i] {
      var k :| 0 <= k < |reported| && reported[k] == x;
      assert changed[k] in changed;
    }
    forall i | 0 <= i < |rs| && state[i] != rs[i] ensures state[i] in reported {
      assert Holds(ChangedBy(attrs), rs[i]);
      var k :| 0 <= k < |changed| && changed[k] == i;
      assert reported[k] == state[i];
    }
  }

  /** `update(attrs)`: merges `attrs` into every record and returns the
      records whose value changed, in storage order. */
  function UpdateEvery(c: DbCollection, attrs: Record): (res: (DbCollection, seq<Record>))
    ensures res.0.name == c.name
    ensures |res.0.records| == |c.records|
    ensures forall i :: 0 <= i < |c.records| ==> res.0.records[i] == Merge(c.records[i], attrs)
    ensures |res.1| <= |c.records|
    ensures forall x :: x in res.1 <==>
              exists i :: 0 <= i < |c.records| && x == res.0.records[i] && x != c.records[i]
  {
    var rs := c.records;
    ChangedAreReported(rs, attrs);
    var state := MergeAll(rs, attrs);
    (DbCollection(c.name, state), Project(state, MatchedPositions(rs, ChangedBy(attrs))))
  }

  /** `update(id, attrs)`: merges `attrs` into the first record with that id
      and returns it. On a miss, a non-empty `attrs` is written through
      `undefined` and throws; an empty one returns `undefined`. */
  function UpdateById(c: DbCollection, id: Value, attrs: Record): (r: Outcome<Option<Record>>)
    ensures r.Threw? <==> Find(c, id).None? && |attrs| > 0
    ensures r.Threw? ==> r.db == c
    ensures Find(c, id).None? && r.Returned? ==> r.db == c && r.value == None
    ensures Find(c, id).Some? ==>
              && r.Returned? && r.db.name == c.name
              && r.value == Some(Merge(Find(c, id).value, attrs))
              && exists i :: 0 <= i < |c.records| && c.records[i] == Find(c, id).value
                             && Get(c.records[i], IdField) == CoerceId(id)
                             && r.db.records == c.records[i := r.value.value]
  {
    match IdIndex(c.records, id)
    case Some(i) =>
      var updated := Merge(c.records[i], attrs);
      Returned(DbCollection(c.name, c.records[i := updated]), Some(updated))
    case None =>
      if |attrs| == 0 then Returned(c, None) else Threw(c)
  }

  /** `update(ids, attrs)`: merges `attrs` into the record found for each id,
      in the order of the ids, and returns the found records (`undefined` for
      a miss). A miss with a non-empty `attrs` throws, after the records for
      the ids before it were updated. */
  function UpdateByIds(c: DbCollection, ids: seq<Value>, attrs: Record): (r: Outcome<seq<Option<Record>>>)
    ensures r.db.name == c.name
    ensures r.Threw? <==> |attrs| > 0 && exists k :: 0 <= k < |ids| && Find(c, ids[k]).None?
    ensures |r.db.records| == |c.records|
    ensures forall i :: 0 <= i < |c.records| ==>
              r.db.records[i] == if Some(i) in UntilMiss(Positions(c.records, ids))
                                 then Merge(c.records[i], attrs) else c.records[i]
    ensures r.Returned? ==> |r.value| == |ids|
    ensures r.Returned? ==> forall k :: 0 <= k < |ids| ==> r.value[k].Some? == Find(c, ids[k]).Some?
    ensures r.Returned? ==> forall k :: 0 <= k < |ids| && r.value[k].Some? ==>
              r.value[k].value == Merge(Find(c, ids[k]).value, attrs)
  {
    var ts := Positions(c.records, ids);
    var applied := ApplyAttrs(c.records, ts, attrs);
    ApplyAttrsEffect(c.records, ts, attrs);
    if applied.1 then
      CompletedApplyMergesAll(c.records, ts, attrs);
      Returned(DbCollection(c.name, applied.0), Slots(applied.0, ts))
    else
      Threw(DbCollection(c.name, applied.0))
  }

  /** `update(query, attrs)`: merges `attrs` into every record matching the
      query and returns the matched records, after the merge, in storage order. */
  function UpdateWhere(c: DbCollection, q: Query, attrs: Record): (res: (DbCollection, seq<Record>))
    ensures res.0.name == c.name
    ensures |res.0.records| == |c.records|
    ensures forall i :: 0 <= i < |c.records| ==>
              res.0.records[i] == if Holds(q, c.records[i]) then Merge(c.records[i], attrs) else c.records[i]
    ensures |res.1| == |Where(c, q)|
    ensures forall k :: 0 <= k < |res.1| ==> res.1[k] == Merge(Where(c, q)[k], attrs)
  {
    var ps := MatchedPositions(c.records, q);
    MergeAtMatches(c.records, q, attrs);
    var state := ApplyAttrs(c.records, AsFound(ps), attrs).0;
    (DbCollection(c.name, state), Project(state, ps))
  }

  /** Merging at the matched positions merges into exactly the matching
      records, and the records picked at those positions afterwards are the
      matches with `attrs` merged in. */
  lemma MergeAtMatches(rs: seq<Record>, q: Query, attrs: Record)
    ensures var ps := MatchedPositions(rs, q);
            var state := ApplyAttrs(rs, AsFound(ps), attrs).0;
            && (forall i :: 0 <= i < |rs| ==> state[i] == if Holds(q, rs[i]) then Merge(rs[i], attrs) else rs[i])
            && (forall k :: 0 <= k < |ps| ==> Project(state, ps)[k] == Merge(Project(rs, ps)[k], attrs))
  {
    var ps := MatchedPositions(rs, q);
    var ts := AsFound(ps);
    AsFoundHasNoMiss(ps);
    ApplyAttrsEffect(rs, ts, attrs);
    var state := ApplyAttrs(rs, ts, attrs).0;
    forall i | 0 <= i < |rs|
      ensures state[i] == if Holds(q, rs[i]) then Merge(rs[i], attrs) else rs[i]
    {
      assert Some(i) in UntilMiss(ts) <==> i in ps;
    }
    forall k | 0 <= k < |ps| ensures Project(state, ps)[k] == Merge(Project(rs, ps)[k], attrs) {
      assert ps[k] in ps;
    }
  }

  /** `update(target, attrs)`, dispatched on the runtime type of the target;
      `Everything` stands for the one-argument form `update(attrs)`. A
      boolean, `undefined` or a query function matches no branch: nothing
      changes and `undefined` is returned. `null` is a query object whose
      keys cannot be listed: it throws as soon as there is a record to test. */
  function Update(c: DbCollection, target: Target, attrs: Record): (r: Outcome<UpdateReply>)
    ensures r.db.name == c.name
    ensures |r.db.records| == |c.records|
    ensures r.Threw? <==>
              || (target.Id? && target.id.Null? && |c.records| > 0)
              || (|attrs| > 0 && target.Id? && IsScalar(target.id) && Find(c, target.id).None?)
              || (|attrs| > 0 && target.Ids? && exists k :: 0 <= k < |target.ids| && Find(c, target.ids[k]).None?)
    ensures r.Returned? && r.value.NoReply? <==>
              (target.Id? && (target.id.Bool? || target.id.Undefined?)) || (target.Matching? && target.query.Test?)
    ensures (r.Returned? && r.value.NoReply?) || (target.Id? && target.id.Null?) ==> r.db == c
    ensures target.Everything? ==>
              && r.Returned? && r.value.ChangedRecords?
              && (forall i :: 0 <= i < |c.records| ==> r.db.records[i] == Merge(c.records[i], attrs))
              && r.value.changed == UpdateEvery(c, attrs).1
    ensures target.Id? && IsScalar(target.id) ==>
              && r.db == UpdateById(c, target.id, attrs).db
              && (r.Returned? ==> r.value == OneRecord(UpdateById(c, target.id, attrs).value))
    ensures target.Id? && IsScalar(target.id) && Find(c, target.id).Some? ==>
              r.Returned? && r.value == OneRecord(Some(Merge(Find(c, target.id).value, attrs)))
    ensures target.Ids? ==>
              && (forall i :: 0 <= i < |c.records| ==>
                    r.db.records[i] == if Some(i) in UntilMiss(Positions(c.records, target.ids))
                                       then Merge(c.records[i], attrs) else c.records[i])
              && (r.Returned? ==> r.value == RecordList(UpdateByIds(c, target.ids, attrs).value))
    ensures target.Matching? && target.query.Fields? ==>
              && r.Returned? && r.value.MatchedRecords?
              && (forall i :: 0 <= i < |c.records| ==>
                    r.db.records[i] == if Holds(target.query, c.records[i]) then Merge(c.records[i], attrs) else c.records[i])
              && |r.value.matched| == |Where(c, target.query)|
              && (forall k :: 0 <= k < |r.value.matched| ==> r.value.matched[k] == Merge(Where(c, target.query)[k], attrs))
  {
    match target
    case Everything =>
      var res := UpdateEvery(c, attrs);
      Returned(res.0, ChangedRecords(res.1))
    case Id(id) =>
      if IsScalar(id) then
        (match UpdateById(c, id, attrs)
         case Returned(db, v) => Returned(db, OneRecord(v))
         case Threw(db) => Threw(db))
      else if id.Null? then
        (if |c.records| == 0 then Returned(c, MatchedRecords([])) else Threw(c))
      else Returned(c, NoReply)
    case Ids(ids) =>
      (match UpdateByIds(c, ids, attrs)
       case Returned(db, v) => Returned(db, RecordList(v))
       case Threw(db) => Threw(db))
    case Matching(q) =>
      if q.Test? then Returned(c, NoReply)
      else
        var res := UpdateWhere(c, q, attrs);
        Returned(res.0, MatchedRecords(res.1))
  }

  // ---------------------------------------------------------------------------
  // Remove

  /** The live position of a lookup result, as `indexOf` finds it
      (addon/db-collection.js:167, 173, 180): -1 for a miss and for a record
      already spliced out. */
  function Locate(alive: seq<nat>, t: Option<nat>): (i: int)
    ensures -1 <= i < |alive|
    ensures i == -1 <==> t.None? || t.value !in alive
    ensures i != -1 ==> alive[i] == t.value && t.value !in alive[..i]
  {
    match t
    case None => -1
    case Some(p) => IndexOf(alive, p)
  }

  /** For each lookup result in turn, finds its live position and splices
      one element out there (addon/db-collection.js:172-175), tracking which
      original positions are still in the table. Every step removes one
      element from a non-empty table, whether or not its target was found. */
  function RemoveFold(alive: seq<nat>, ts: seq<Option<nat>>, n: nat): (r: seq<nat>)
    requires forall k :: 0 <= k < |alive| ==> alive[k] < n
    ensures |r| == if |alive| >= |ts| then |alive| - |ts| else 0
    ensures forall k :: 0 <= k < |r| ==> r[k] < n
    decreases |ts|
  {
    if |ts| == 0 then alive
    else RemoveFold(SpliceOne(alive, Locate(alive, ts[0])), ts[1..], n)
  }

  /** `remove(id)`: splices out the first record with that id. On a miss,
      `indexOf` gives -1 and `splice(-1, 1)` drops the LAST record. */
  function RemoveById(c: DbCollection, id: Value): (r: DbCollection)
    ensures r.name == c.name
    ensures Find(c, id).Some? ==>
              exists i :: 0 <= i < |c.records| && Get(c.records[i], IdField) == CoerceId(id)
                          && (forall j :: 0 <= j < i ==> Get(c.records[j], IdField) != CoerceId(id))
                          && r.records == c.records[..i] + c.records[i + 1..]
    ensures Find(c, id).None? ==> r.records == if |c.records| == 0 then [] else c.records[..|c.records| - 1]
  {
    var i := match IdIndex(c.records, id) case None => -1 case Some(i) => i;
    DbCollection(c.name, SpliceOne(c.records, i))
  }

  /** `remove(ids)`: splices out, in turn, the record found for each id.
      Each step removes one record from a non-empty table: a miss, or an id
      whose record is already gone, drops the last record instead. */
  function RemoveByIds(c: DbCollection, ids: seq<Value>): (r: DbCollection)
    ensures r.name == c.name
    ensures |r.records| == if |c.records| >= |ids| then |c.records| - |ids| else 0
    ensures forall x :: x in r.records ==> x in c.records
  {
    var n := |c.records|;
    var alive := RemoveFold(Range(0, n), Positions(c.records, ids), n);
    DbCollection(c.name, Project(c.records, alive))
  }

  /** `remove(query)`: splices out every record matching the query. */
  function RemoveWhere(c: DbCollection, q: Query): (r: DbCollection)
    ensures r.name == c.name
    ensures |r.records| == |c.records| - |Where(c, q)|
    ensures forall x :: x in r.records ==> x in c.records
  {
    var n := |c.records|;
    var alive := RemoveFold(Range(0, n), AsFound(MatchedPositions(c.records, q)), n);
    DbCollection(c.name, Project(c.records, alive))
  }

  /** `remove(target)`, dispatched on the runtime type of the target:
      omitted or `undefined` empties the table; a boolean or a query function
      matches no branch and changes nothing; `null` is a query object whose
      keys cannot be listed, which throws as soon as there is a record to test. */
  function Remove(c: DbCollection, target: Target): (r: Outcome<()>)
    ensures r.db.name == c.name
    ensures |r.db.records| <= |c.records|
    ensures target.Everything? || (target.Id? && target.id.Undefined?) ==> r.Returned? && r.db.records == []
    ensures r.Threw? <==> target.Id? && target.id.Null? && |c.records| > 0
    ensures r.Threw? || (target.Id? && target.id.Bool?) || (target.Matching? && target.query.Test?) ==> r.db == c
    ensures |c.records| > 0 && ((target.Id? && IsScalar(target.id)) || (target.Ids? && |target.ids| > 0)) ==>
              |r.db.records| < |c.records|
    ensures target.Id? && IsScalar(target.id) ==> r == Returned(RemoveById(c, target.id), ())
    ensures target.Ids? ==> r == Returned(RemoveByIds(c, target.ids), ())
    ensures target.Matching? && target.query.Fields? ==> r == Returned(RemoveWhere(c, target.query), ())
  {
    match target
    case Everything => Returned(DbCollection(c.name, []), ())
    case Id(id) =>
      if IsScalar(id) then Returned(RemoveById(c, id), ())
      else if id.Undefined? then Returned(DbCollection(c.name, []), ())
      else if id.Null? && |c.records| > 0 then Threw(c)
      else Returned(c, ())
    case Ids(ids) => Returned(RemoveByIds(c, ids), ())
    case Matching(q) =>
      if q.Test? then Returned(c, ()) else Returned(RemoveWhere(c, q), ())
  }
}
