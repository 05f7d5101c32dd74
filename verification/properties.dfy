/** Properties of the table that relate several calls, or relate an
    operation to an independent reference definition: ids assigned by batch
    insert, lookups after insert, update and remove, how `where` and
    `remove(query)` split the table, and the idempotence of `firstOrCreate`
    and of `update(attrs)`. */
module DbCollectionProperties {
  import opened Records
  import opened JsArrays
  import opened DbCollections

  // ---------------------------------------------------------------------------
  // Insert

  /** Inserting records without ids into a table of L records numbers them
      L+1, L+2, ... in input order. */
  lemma BatchIdsAreSequential(c: DbCollection, batch: seq<Record>)
    requires forall k :: 0 <= k < |batch| ==> IdField !in batch[k]
    ensures var res := InsertBatch(c, batch);
            forall k :: 0 <= k < |batch| ==>
              && res.0.records[|c.records| + k] == res.1[k]
              && res.1[k][IdField] == Int(|c.records| + k + 1)
  {
  }

  /** A table created from records without ids numbers them 1..n. */
  lemma NewNumbersFromOne(name: string, batch: seq<Record>)
    requires forall k :: 0 <= k < |batch| ==> IdField !in batch[k]
    ensures forall k :: 0 <= k < |batch| ==> New(name, Batch(batch)).records[k][IdField] == Int(k + 1)
  {
  }

  /** A record stored under an id that no other record has, and that is not a
      string of digits, is what `find` returns for that id. */
  lemma InsertThenFind(c: DbCollection, data: Record)
    requires var id := WithId(data, |c.records|)[IdField];
             CoerceId(id) == id && forall j :: 0 <= j < |c.records| ==> Get(c.records[j], IdField) != id
    ensures var res := InsertOne(c, data);
            Find(res.0, res.1[IdField]) == Some(res.1)
  {
    var res := InsertOne(c, data);
    var id := res.1[IdField];
    var rs := res.0.records;
    assert Get(rs[|c.records|], IdField) == CoerceId(id);
    var found := Find(res.0, id);
    var i :| 0 <= i < |rs| && found.value == rs[i] && Get(rs[i], IdField) == CoerceId(id)
             && forall j :: 0 <= j < i ==> Get(rs[j], IdField) != CoerceId(id);
    assert i == |c.records|;
  }

  // ---------------------------------------------------------------------------
  // Find

  /** A numeral given as a string finds what the number finds: `find("12")`
      is `find(12)`. */
  lemma FindNumeralIsFindNumber(c: DbCollection, n: nat)
    ensures Find(c, Str(NatToString(n))) == Find(c, Int(n))
  {
    CoerceNumeral(n);
  }

  /** `find` never returns a record whose id is a string of digits: such an
      id is turned into a number before it is compared. */
  lemma FindNeverReturnsDigitStringId(c: DbCollection, id: Value)
    requires Find(c, id).Some?
    ensures var stored := Get(Find(c, id).value, IdField);
            !(stored.Str? && AllDigits(stored.s))
  {
  }

  lemma {:induction false} PresentAppend(a: seq<Option<Record>>, b: seq<Option<Record>>)
    ensures Present(a + b) == Present(a) + Present(b)
  {
    if |a| > 0 {
      var ab := a + b;
      var head := match a[0] case None => [] case Some(x) => [x];
      assert ab[0] == a[0] && ab[1..] == a[1..] + b;
      assert Present(ab) == head + Present(a[1..] + b);
      PresentAppend(a[1..], b);
      assert Present(a) == head + Present(a[1..]);
    } else {
      assert a + b == b;
    }
  }

  /** `find(ids)` on a concatenation of id lists is the concatenation of the
      results: each id is looked up on its own, in order. */
  lemma FindManyAppend(c: DbCollection, a: seq<Value>, b: seq<Value>)
    ensures FindMany(c, a + b) == FindMany(c, a) + FindMany(c, b)
  {
    var rs := c.records;
    var ab := a + b;
    var fa := FindRecords(rs, a);
    var fb := FindRecords(rs, b);
    var fab := FindRecords(rs, ab);
    forall k | 0 <= k < |ab| ensures fab[k] == (fa + fb)[k] {
      if k < |a| {
        assert ab[k] == a[k];
      } else {
        assert ab[k] == b[k - |a|];
      }
    }
    assert fab == fa + fb;
    PresentAppend(fa, fb);
  }

  /** A single id gives its record when found and nothing when missed; with
      `FindManyAppend` this fixes `find(ids)` for every list of ids. */
  lemma FindManyOne(c: DbCollection, id: Value)
    ensures FindMany(c, [id]) == if Find(c, id).Some? then [Find(c, id).value] else []
  {
  }

  /** `find([1, 2, 999])` on a table holding ids 1 and 2 gives both records:
      the miss is dropped. */
  lemma FindManyDropsMiss()
    ensures var a := map[IdField := Int(1)];
            var b := map[IdField := Int(2)];
            var c := DbCollection("users", [a, b]);
            FindMany(c, [Int(1), Int(2), Int(999)]) == [a, b]
  {
    var a := map[IdField := Int(1)];
    var b := map[IdField := Int(2)];
    var c := DbCollection("users", [a, b]);
    FindManyThree(c, Int(1), Int(2), Int(999));
    assert Find(c, Int(1)) == Some(a) by { FindOfTwo(a, b, Int(1)); }
    assert Find(c, Int(2)) == Some(b) by { FindOfTwo(a, b, Int(2)); }
    assert Find(c, Int(999)).None? by { FindOfTwo(a, b, Int(999)); }
  }

  /** Three ids, looked up one at a time. */
  lemma FindManyThree(c: DbCollection, x: Value, y: Value, z: Value)
    ensures FindMany(c, [x, y, z]) ==
              (if Find(c, x).Some? then [Find(c, x).value] else []) +
              (if Find(c, y).Some? then [Find(c, y).value] else []) +
              (if Find(c, z).Some? then [Find(c, z).value] else [])
  {
    FindManyOne(c, x);
    FindManyOne(c, y);
    FindManyOne(c, z);
    FindManyAppend(c, [x], [y]);
    assert [x] + [y] == [x, y];
    FindManyAppend(c, [x, y], [z]);
    assert [x, y] + [z] == [x, y, z];
  }

  lemma FindOfTwo(a: Record, b: Record, id: Value)
    requires a == map[IdField := Int(1)] && b == map[IdField := Int(2)]
    ensures Find(DbCollection("users", [a, b]), id) ==
              if CoerceId(id) == Int(1) then Some(a)
              else if CoerceId(id) == Int(2) then Some(b)
              else None
  {
    var rs := [a, b];
    var r := Find(DbCollection("users", rs), id);
    assert Get(rs[0], IdField) == Int(1) && Get(rs[1], IdField) == Int(2);
    if r.Some? {
      var i :| 0 <= i < |rs| && r.value == rs[i] && Get(rs[i], IdField) == CoerceId(id)
               && forall j :: 0 <= j < i ==> Get(rs[j], IdField) != CoerceId(id);
      assert i == 0 || i == 1;
    } else {
      assert Get(rs[0], IdField) != CoerceId(id) && Get(rs[1], IdField) != CoerceId(id);
    }
  }

  /** A repeated id yields a repeated result. */
  lemma FindManyRepeats(c: DbCollection, id: Value)
    requires Find(c, id).Some?
    ensures FindMany(c, [id, id]) == [Find(c, id).value, Find(c, id).value]
  {
  }

  // ---------------------------------------------------------------------------
  // Query matching

  /** Matching a field against a number's numeral as a string: the field
      matches when it holds that number or that very string. */
  lemma MatchNumeral(r: Record, field: string, n: int)
    ensures MatchesFields(r, map[field := Str(IntToString(n))]) <==>
            Get(r, field) == Int(n) || Get(r, field) == Str(IntToString(n))
  {
    StringifyIntAgrees(n, Get(r, field));
    assert map[field := Str(IntToString(n))][field] == Str(IntToString(n));
  }

  /** A missing field matches only `undefined` and the string "undefined". */
  lemma MatchMissingField(r: Record, field: string, v: Value)
    requires field !in r
    ensures MatchesFields(r, map[field := v]) <==> v == Undefined || v == Str("undefined")
  {
    StringifyUndefinedAgrees(v);
    assert map[field := v][field] == v;
  }

  // ---------------------------------------------------------------------------
  // Where and the reference filter

  lemma {:induction false} FilterMembers(rs: seq<Record>, q: Query, keep: bool)
    ensures forall x :: x in Filter(rs, q, keep) <==> x in rs && Holds(q, x) == keep
  {
    if |rs| > 0 {
      FilterMembers(rs[1..], q, keep);
      assert rs == [rs[0]] + rs[1..];
    }
  }

  /** The first record goes to one side of a query or to the other. */
  lemma FilterHead(rs: seq<Record>, q: Query)
    requires |rs| > 0
    ensures var tail := rs[1..];
            || (Filter(rs, q, true) == [rs[0]] + Filter(tail, q, true) && Filter(rs, q, false) == Filter(tail, q, false))
            || (Filter(rs, q, true) == Filter(tail, q, true) && Filter(rs, q, false) == [rs[0]] + Filter(tail, q, false))
  {
  }

  /** Every record goes to exactly one side of a query. */
  lemma {:induction false} FilterSplits(rs: seq<Record>, q: Query)
    ensures multiset(Filter(rs, q, true)) + multiset(Filter(rs, q, false)) == multiset(rs)
  {
    if |rs| > 0 {
      var tail := rs[1..];
      FilterSplits(tail, q);
      FilterHead(rs, q);
      assert rs == [rs[0]] + tail;
    }
  }

  /** One step of `Filter` over a suffix. */
  lemma FilterFrom(rs: seq<Record>, q: Query, keep: bool, lo: nat)
    requires lo < |rs|
    ensures Filter(rs[lo..], q, keep) == (if Holds(q, rs[lo]) == keep then [rs[lo]] else []) + Filter(rs[lo + 1..], q, keep)
  {
    var suffix := rs[lo..];
    assert suffix[0] == rs[lo] && suffix[1..] == rs[lo + 1..];
  }

  lemma ProjectCons(rs: seq<Record>, p: nat, ps: seq<nat>)
    requires p < |rs|
    requires forall k :: 0 <= k < |ps| ==> ps[k] < |rs|
    ensures Project(rs, [p] + ps) == [rs[p]] + Project(rs, ps)
  {
    ProjectAppend(rs, [p], ps);
  }

  lemma {:induction false} MatchedFromIsFilter(rs: seq<Record>, q: Query, lo: nat)
    requires lo <= |rs|
    ensures Project(rs, MatchedFrom(rs, q, lo)) == Filter(rs[lo..], q, true)
    decreases |rs| - lo
  {
    if lo < |rs| {
      var rest := MatchedFrom(rs, q, lo + 1);
      MatchedFromIsFilter(rs, q, lo + 1);
      FilterFrom(rs, q, true, lo);
      if Holds(q, rs[lo]) {
        ProjectCons(rs, lo, rest);
      }
    } else {
      assert rs[lo..] == [];
    }
  }

  /** `where` keeps exactly the matching records, in storage order. */
  lemma WhereIsFilter(c: DbCollection, q: Query)
    ensures Where(c, q) == Filter(c.records, q, true)
  {
    MatchedFromIsFilter(c.records, q, 0);
    assert c.records[0..] == c.records;
  }

  lemma {:induction false} FilterAllHold(rs: seq<Record>, q: Query)
    requires forall k :: 0 <= k < |rs| ==> Holds(q, rs[k])
    ensures Filter(rs, q, true) == rs
  {
    if |rs| > 0 {
      FilterAllHold(rs[1..], q);
    }
  }

  /** An empty query returns every record. */
  lemma WhereEmptyQuery(c: DbCollection)
    ensures Where(c, Fields(map[])) == c.records
  {
    WhereIsFilter(c, Fields(map[]));
    FilterAllHold(c.records, Fields(map[]));
  }

  // ---------------------------------------------------------------------------
  // firstOrCreate

  /** When some record matches, `firstOrCreate` returns the first match and
      leaves the table alone. */
  lemma FirstOrCreateFinds(c: DbCollection, query: Record, defaults: Record, i: nat)
    requires i < |c.records| && MatchesFields(c.records[i], query)
    requires forall j :: 0 <= j < i ==> !MatchesFields(c.records[j], query)
    ensures FirstOrCreate(c, query, defaults) == (c, c.records[i])
  {
    var found := Where(c, Fields(query));
    assert c.records[i] in found;
    var i' :| 0 <= i' < |c.records| && found[0] == c.records[i'] && Holds(Fields(query), c.records[i'])
              && forall j :: 0 <= j < i' ==> !Holds(Fields(query), c.records[j]);
    assert !(i' < i) && !(i < i');
  }

  /** When no record matches, `firstOrCreate` inserts the defaults
      overridden by the query. */
  lemma FirstOrCreateCreates(c: DbCollection, query: Record, defaults: Record)
    requires forall i :: 0 <= i < |c.records| ==> !MatchesFields(c.records[i], query)
    ensures FirstOrCreate(c, query, defaults) == InsertOne(c, Merge(defaults, query))
  {
    var found := Where(c, Fields(query));
    assert forall x :: x !in found;
  }

  /** The record `firstOrCreate` creates matches its query, unless the query
      asks for a missing id, which creation replaces. */
  lemma CreatedRecordMatches(query: Record, defaults: Record, n: nat)
    requires IdField in query ==> query[IdField] != Undefined && query[IdField] != Null
    ensures MatchesFields(WithId(Merge(defaults, query), n), query)
  {
    var created := WithId(Merge(defaults, query), n);
    forall k | k in query ensures Get(created, k) == query[k] {
    }
  }

  /** Unless the query asks for a missing id, calling `firstOrCreate` twice
      creates at most one record: the second call finds the first one's. */
  lemma FirstOrCreateIdempotent(c: DbCollection, query: Record, defaults: Record)
    requires IdField in query ==> query[IdField] != Undefined && query[IdField] != Null
    ensures var first := FirstOrCreate(c, query, defaults);
            FirstOrCreate(first.0, query, defaults) == first
  {
    if forall i :: 0 <= i < |c.records| ==> !MatchesFields(c.records[i], query) {
      var n := |c.records|;
      FirstOrCreateCreates(c, query, defaults);
      var first := InsertOne(c, Merge(defaults, query));
      CreatedRecordMatches(query, defaults, n);
      assert forall j :: 0 <= j < n ==> first.0.records[j] == c.records[j];
      FirstOrCreateFinds(first.0, query, defaults, n);
    }
  }

  // ---------------------------------------------------------------------------
  // Update

  lemma {:induction false} MatchedFromNone(rs: seq<Record>, q: Query, lo: nat)
    requires lo <= |rs|
    requires forall i :: lo <= i < |rs| ==> !Holds(q, rs[i])
    ensures MatchedFrom(rs, q, lo) == []
    decreases |rs| - lo
  {
    if lo < |rs| {
      MatchedFromNone(rs, q, lo + 1);
    }
  }

  /** `update(attrs)` reports the records that the merge changes, merged,
      once each and in storage order. */
  lemma UpdateEveryReportsInOrder(c: DbCollection, attrs: Record)
    ensures UpdateEvery(c, attrs).1 == MergeAll(Filter(c.records, ChangedBy(attrs), true), attrs)
  {
    var rs := c.records;
    var ps := MatchedPositions(rs, ChangedBy(attrs));
    MatchedFromIsFilter(rs, ChangedBy(attrs), 0);
    assert rs[0..] == rs;
    var reported := Project(MergeAll(rs, attrs), ps);
    var expected := MergeAll(Project(rs, ps), attrs);
    assert |reported| == |expected|;
    forall k | 0 <= k < |ps| ensures reported[k] == expected[k] {
    }
  }

  /** `update(attrs)` a second time changes nothing and reports nothing. */
  lemma UpdateEveryIdempotent(c: DbCollection, attrs: Record)
    ensures var first := UpdateEvery(c, attrs);
            var second := UpdateEvery(first.0, attrs);
            second.0 == first.0 && second.1 == []
  {
    var first := UpdateEvery(c, attrs);
    var second := UpdateEvery(first.0, attrs);
    forall i | 0 <= i < |c.records| ensures second.0.records[i] == first.0.records[i] {
      MergeIdempotent(c.records[i], attrs);
    }
    assert second.0.records == first.0.records;
    MatchedFromNone(first.0.records, ChangedBy(attrs), 0);
  }

  /** After `update(id, attrs)` with attrs that leave the id alone, `find(id)`
      returns the record `update` returned. */
  lemma UpdateByIdThenFind(c: DbCollection, id: Value, attrs: Record)
    requires IdField !in attrs
    requires Find(c, id).Some?
    ensures var r := UpdateById(c, id, attrs);
            r.Returned? && Find(r.db, id) == r.value
  {
    var r := UpdateById(c, id, attrs);
    var rs := c.records;
    var i := IdIndex(rs, id).value;
    var after := rs[i := Merge(rs[i], attrs)];
    assert r.db.records == after && r.value == Some(after[i]);
    assert Get(after[i], IdField) == CoerceId(id);
    var k := IdIndex(after, id).value;
    assert k == i by {
      assert !(k < i);
    }
  }

  /** `update(query, attrs)` gives every matched record the values of `attrs`. */
  lemma UpdateWhereAssigns(c: DbCollection, q: Query, attrs: Record)
    ensures var res := UpdateWhere(c, q, attrs);
            forall x, k :: x in res.1 && k in attrs ==> k in x && x[k] == attrs[k]
  {
  }

  // ---------------------------------------------------------------------------
  // Remove

  lemma RangeDistinct(lo: nat, hi: nat)
    ensures Distinct(Range(lo, hi))
  {
  }

  lemma IncreasingDistinct(ps: seq<nat>)
    requires Increasing(ps)
    ensures Distinct(ps)
  {
  }

  lemma HeadTail(s: seq<nat>)
    requires |s| > 0
    ensures [s[0]] + s[1..] == s
  {
  }

  lemma DistinctTail(s: seq<nat>)
    requires |s| > 0 && Distinct(s)
    ensures Distinct(s[1..])
  {
    var tail := s[1..];
    forall j, k | 0 <= j < k < |tail| ensures tail[j] != tail[k] {
      assert tail[j] == s[j + 1] && tail[k] == s[k + 1];
    }
  }

  /** Splicing out, one by one, positions that are all present and all
      different removes exactly those positions. */
  lemma {:induction false} RemoveFoldOfHits(alive: seq<nat>, ps: seq<nat>, n: nat)
    requires forall k :: 0 <= k < |alive| ==> alive[k] < n
    requires Distinct(alive) && Distinct(ps)
    requires forall k :: 0 <= k < |ps| ==> ps[k] in alive
    ensures RemoveFold(alive, AsFound(ps), n) == Without(alive, ps)
    decreases |ps|
  {
    if |ps| == 0 {
      WithoutNoneOf(alive, ps);
    } else {
      var p := ps[0];
      var rest := ps[1..];
      var ts := AsFound(ps);
      assert ts[0] == Some(p);
      assert ts[1..] == AsFound(rest);
      SpliceFirstOccurrence(alive, p);
      var next := Without(alive, [p]);
      assert RemoveFold(alive, ts, n) == RemoveFold(next, AsFound(rest), n);
      WithoutKeepsDistinct(alive, [p]);
      WithoutBelow(alive, [p], n);
      DistinctTail(ps);
      forall k | 0 <= k < |rest| ensures rest[k] in next {
        assert rest[k] == ps[k + 1] && ps[k + 1] != p;
      }
      RemoveFoldOfHits(next, rest, n);
      WithoutTwice(alive, [p], rest);
      HeadTail(ps);
    }
  }

  lemma {:induction false} ProjectWithoutRange(rs: seq<Record>, q: Query, ps: seq<nat>, lo: nat)
    requires lo <= |rs|
    requires forall i :: lo <= i < |rs| ==> (i in ps <==> Holds(q, rs[i]))
    ensures var kept := Without(Range(lo, |rs|), ps);
            && (forall k :: 0 <= k < |kept| ==> kept[k] < |rs|)
            && Project(rs, kept) == Filter(rs[lo..], q, false)
    decreases |rs| - lo
  {
    WithoutBelow(Range(lo, |rs|), ps, |rs|);
    if lo < |rs| {
      var tail := Range(lo + 1, |rs|);
      var range := Range(lo, |rs|);
      assert range == [lo] + tail;
      var rest := Without(tail, ps);
      ProjectWithoutRange(rs, q, ps, lo + 1);
      WithoutBelow(tail, ps, |rs|);
      FilterFrom(rs, q, false, lo);
      if lo in ps {
        assert Without(range, ps) == rest;
      } else {
        assert Without(range, ps) == [lo] + rest;
        ProjectCons(rs, lo, rest);
      }
    } else {
      assert rs[lo..] == [];
    }
  }

  /** `remove(query)` keeps exactly the records that do not match, in their
      order: the complement of `where(query)`. */
  lemma RemoveWhereIsFilter(c: DbCollection, q: Query)
    ensures RemoveWhere(c, q).records == Filter(c.records, q, false)
  {
    var rs := c.records;
    var n := |rs|;
    var ps := MatchedPositions(rs, q);
    RangeDistinct(0, n);
    RangeMembers(0, n);
    IncreasingDistinct(ps);
    RemoveFoldOfHits(Range(0, n), ps, n);
    ProjectWithoutRange(rs, q, ps, 0);
    assert rs[0..] == rs;
  }

  /** `remove(query)` for a query object keeps exactly the non-matching
      records, in their order. */
  lemma RemoveQueryIsFilter(c: DbCollection, q: Record)
    ensures Remove(c, Matching(Fields(q))) == Returned(DbCollection(c.name, Filter(c.records, Fields(q), false)), ())
  {
    RemoveWhereIsFilter(c, Fields(q));
  }

  /** `where(query)` and `remove(query)` split the table: every record lands
      on exactly one side. */
  lemma WhereAndRemoveWhereSplit(c: DbCollection, q: Query)
    ensures multiset(Where(c, q)) + multiset(RemoveWhere(c, q).records) == multiset(c.records)
  {
    WhereIsFilter(c, q);
    RemoveWhereIsFilter(c, q);
    FilterSplits(c.records, q);
  }

  /** If exactly one record has the id, `find` misses it after `remove(id)`. */
  lemma RemoveUniqueIdThenFind(c: DbCollection, id: Value, i: nat)
    requires i < |c.records| && Get(c.records[i], IdField) == CoerceId(id)
    requires forall j :: 0 <= j < |c.records| && j != i ==> Get(c.records[j], IdField) != CoerceId(id)
    ensures Find(RemoveById(c, id), id) == None
  {
    var rs := c.records;
    var after := RemoveById(c, id).records;
    assert after == rs[..i] + rs[i + 1..];
    forall j | 0 <= j < |after| ensures Get(after[j], IdField) != CoerceId(id) {
      if j < i {
        assert after[j] == rs[j];
      } else {
        assert after[j] == rs[j + 1];
      }
    }
  }

  lemma ProjectRange(rs: seq<Record>)
    ensures Project(rs, Range(0, |rs|)) == rs
  {
  }

  lemma ProjectSplice(rs: seq<Record>, alive: seq<nat>, start: int)
    requires forall k :: 0 <= k < |alive| ==> alive[k] < |rs|
    requires -1 <= start < |alive|
    ensures forall k :: 0 <= k < |SpliceOne(alive, start)| ==> SpliceOne(alive, start)[k] < |rs|
    ensures Project(rs, SpliceOne(alive, start)) == SpliceOne(Project(rs, alive), start)
  {
    var whole := Project(rs, alive);
    if |alive| > 0 {
      var f := if start == -1 then |alive| - 1 else start;
      var kept := alive[..f] + alive[f + 1..];
      assert SpliceOne(alive, start) == kept;
      assert SpliceOne(whole, start) == whole[..f] + whole[f + 1..];
      forall k | 0 <= k < |kept| ensures kept[k] < |rs| && rs[kept[k]] == (whole[..f] + whole[f + 1..])[k] {
        if k < f {
          assert kept[k] == alive[k];
        } else {
          assert kept[k] == alive[k + 1];
        }
      }
    }
  }

  /** One step of the removal fold is one splice. */
  lemma RemoveFoldSingle(alive: seq<nat>, t: Option<nat>, n: nat)
    requires forall k :: 0 <= k < |alive| ==> alive[k] < n
    ensures RemoveFold(alive, [t], n) == SpliceOne(alive, Locate(alive, t))
  {
    assert [t][1..] == [];
  }

  /** Where the record found for an id sits among all positions. */
  lemma LocateInRange(n: nat, t: Option<nat>)
    requires t.Some? ==> t.value < n
    ensures Locate(Range(0, n), t) == match t case None => -1 case Some(i) => i
  {
    if t.Some? {
      IndexOfRange(n, t.value);
    }
  }

  /** `remove([id])` does what `remove(id)` does, on a hit and on a miss. */
  lemma RemoveOneIdListIsRemoveId(c: DbCollection, id: Value)
    ensures RemoveByIds(c, [id]) == RemoveById(c, id)
  {
    var rs := c.records;
    var n := |rs|;
    var range := Range(0, n);
    var t := IdIndex(rs, id);
    var ts := Positions(rs, [id]);
    assert ts == [t];
    LocateInRange(n, t);
    var start := Locate(range, t);
    RemoveFoldSingle(range, t, n);
    var alive := RemoveFold(range, ts, n);
    assert alive == SpliceOne(range, start);
    ProjectSplice(rs, range, start);
    ProjectRange(rs);
    assert Project(rs, alive) == SpliceOne(rs, start);
  }

  /** Removing the same present position twice: the second splice misses
      and drops the last position. */
  lemma RemoveFoldSameTwice(alive: seq<nat>, i: nat, n: nat)
    requires forall k :: 0 <= k < |alive| ==> alive[k] < n
    requires Distinct(alive) && i in alive
    ensures RemoveFold(alive, [Some(i), Some(i)], n) == SpliceOne(SpliceOne(alive, IndexOf(alive, i)), -1)
  {
    var ts := [Some(i), Some(i)];
    assert ts[1..] == [Some(i)];
    var once := SpliceOne(alive, IndexOf(alive, i));
    SpliceFirstOccurrence(alive, i);
    assert i !in once;
    RemoveFoldSingle(once, Some(i), n);
  }

  /** Picking the records at the positions left by two splices is splicing
      the records themselves twice. */
  lemma ProjectSpliceTwice(rs: seq<Record>, i: nat)
    requires i < |rs|
    ensures var alive := SpliceOne(SpliceOne(Range(0, |rs|), i), -1);
            && (forall k :: 0 <= k < |alive| ==> alive[k] < |rs|)
            && Project(rs, alive) == SpliceOne(SpliceOne(rs, i), -1)
  {
    var range := Range(0, |rs|);
    ProjectRange(rs);
    ProjectSplice(rs, range, i);
    ProjectSplice(rs, SpliceOne(range, i), -1);
  }

  /** On positions: splicing out the same position twice removes it and
      then drops the last survivor. */
  lemma RepeatedPositionDropsLast(rs: seq<Record>, i: nat)
    requires i < |rs|
    ensures var n := |rs|;
            var alive := RemoveFold(Range(0, n), [Some(i), Some(i)], n);
            && (forall k :: 0 <= k < |alive| ==> alive[k] < n)
            && Project(rs, alive) == SpliceOne(SpliceOne(rs, i), -1)
  {
    var n := |rs|;
    var range := Range(0, n);
    IndexOfRange(n, i);
    RangeDistinct(0, n);
    assert range[i] == i;
    RemoveFoldSameTwice(range, i, n);
    ProjectSpliceTwice(rs, i);
  }

  /** `remove([id, id])` removes the record found for `id`, and then, since
      that record is gone, drops the last record as well. */
  lemma RemoveRepeatedIdDropsLast(c: DbCollection, id: Value)
    requires Find(c, id).Some?
    requires |c.records| >= 2
    ensures var once := RemoveById(c, id).records;
            RemoveByIds(c, [id, id]).records == once[..|once| - 1]
  {
    var rs := c.records;
    var t := IdIndex(rs, id);
    assert t.Some?;
    var i := t.value;
    assert Positions(rs, [id, id]) == [Some(i), Some(i)];
    RepeatedPositionDropsLast(rs, i);
    assert RemoveById(c, id).records == SpliceOne(rs, i);
  }

  /** Auto-ids count records rather than look at the largest id: after a
      removal, an inserted record can repeat an id already in the table. */
  lemma AutoIdCanRepeatAfterRemove()
    ensures var c := DbCollection("t", [map[IdField := Int(1)], map[IdField := Int(2)]]);
            var after := InsertOne(RemoveById(c, Int(1)), map[]).0;
            after.records == [map[IdField := Int(2)], map[IdField := Int(2)]]
  {
    var c := DbCollection("t", [map[IdField := Int(1)], map[IdField := Int(2)]]);
    assert Get(c.records[0], IdField) == Int(1);
    assert IdIndex(c.records, Int(1)) == Some(0);
  }
}
