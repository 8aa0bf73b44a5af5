/** A database table as the services use it through knex: rows keyed by an
    auto-increment primary key, scanned in key order. */
module Table {
  import opened Js

  /** The stored columns of each row, by primary key. The primary-key
      column itself is not stored in the row; `Read` adds it. */
  type Rows = map<nat, Object>

  /** A table: its rows and the next auto-increment value. */
  datatype Db = Db(rows: Rows, nextId: nat)
  {
    /** Every stored key was handed out by the auto-increment counter. */
    predicate Valid()
    {
      forall id :: id in rows ==> id < nextId
    }
  }

  /** The pagination window the listing queries apply (`.offset(o).limit(l)`).
      How the Paginator computes it from `page` and `limit`, and the metadata
      it builds from a count, are not part of this model. */
  datatype Paginator = Paginator(offset: nat, limit: nat)

  /** The result of a paginated listing: the count handed to
      `paginator.getMetadata`, and the rows of the page. */
  datatype Listing = Listing(metadataCount: nat, items: seq<Object>)

  /** The columns a write stores: knex leaves out `undefined` values; the
      primary key column is never rewritten. */
  function Written(data: Object, pk: Key): Object
  {
    map k | k in data && k != pk && data[k] != Undefined :: data[k]
  }

  /** `UPDATE ... SET data` applied to one stored row. */
  function Write(row: Object, data: Object, pk: Key): Object
  {
    row + Written(data, pk)
  }

  /** What a write stores for a column: the data's value, except for the primary key. */
  lemma GetWritten(data: Object, pk: Key, k: Key)
    ensures Get(Written(data, pk), k) == if k == pk then Undefined else Get(data, k)
  {
  }

  /** A column after a write: the written value if the write stores one, else the old value. */
  lemma GetWrite(row: Object, data: Object, pk: Key, k: Key)
    ensures Get(Write(row, data, pk), k) ==
            if k != pk && Get(data, k) != Undefined then Get(data, k) else Get(row, k)
  {
  }

  /** `SELECT *` of one row: the stored columns plus the primary key. */
  function Read(db: Db, pk: Key, id: nat): (r: Object)
    requires id in db.rows
    ensures Get(r, pk) == Num(id as real)
  {
    db.rows[id] + map[pk := Num(id as real)]
  }

  /** `SELECT c1, ..., cn` of a row: a column the row never had reads as NULL. */
  function Select(row: Object, cols: set<Key>): (r: Object)
    ensures r.Keys == cols
  {
    map c | c in cols :: if Get(row, c) == Undefined then Null else Get(row, c)
  }

  /** `INSERT`: the new row takes the next auto-increment key. */
  function Insert(db: Db, data: Object, pk: Key): Db
  {
    Db(db.rows[db.nextId := Written(data, pk)], db.nextId + 1)
  }

  /** `UPDATE ... SET data WHERE pk = id`: no row changes when the key is absent. */
  function Update(db: Db, pk: Key, id: nat, data: Object): Db
  {
    if id in db.rows then Db(db.rows[id := Write(db.rows[id], data, pk)], db.nextId) else db
  }

  /** An insert adds one row, under the next key, and changes no other row. */
  lemma InsertFrame(db: Db, data: Object, pk: Key)
    requires db.Valid()
    ensures var after := Insert(db, data, pk);
            && after.Valid() && db.nextId !in db.rows
            && after.rows.Keys == db.rows.Keys + {db.nextId} && after.nextId == db.nextId + 1
            && after.rows[db.nextId] == Written(data, pk)
            && (forall other :: other in db.rows ==> after.rows[other] == db.rows[other])
  {
  }

  /** An insert followed by an update of the new row stores both writes in that row. */
  lemma InsertThenUpdate(db: Db, data: Object, more: Object, pk: Key)
    ensures Update(Insert(db, data, pk), pk, db.nextId, more) ==
            Db(db.rows[db.nextId := Write(Written(data, pk), more, pk)], db.nextId + 1)
  {
  }

  /** Such a pair of writes adds one row, under the next key, and changes no other row. */
  lemma InsertThenUpdateFrame(db: Db, data: Object, more: Object, pk: Key)
    requires db.Valid()
    ensures var after := Update(Insert(db, data, pk), pk, db.nextId, more);
            && after.Valid() && db.nextId !in db.rows
            && after.rows.Keys == db.rows.Keys + {db.nextId} && after.nextId == db.nextId + 1
            && after.rows[db.nextId] == Write(Written(data, pk), more, pk)
            && (forall other :: other in db.rows ==> after.rows[other] == db.rows[other])
  {
    InsertThenUpdate(db, data, more, pk);
  }

  /** An update of a present row rewrites that row only. */
  lemma UpdateFrame(db: Db, pk: Key, id: nat, data: Object)
    requires db.Valid() && id in db.rows
    ensures var after := Update(db, pk, id, data);
            && after.Valid() && after.rows.Keys == db.rows.Keys && after.nextId == db.nextId
            && after.rows[id] == Write(db.rows[id], data, pk)
            && (forall other :: other in db.rows && other != id ==> after.rows[other] == db.rows[other])
  {
  }

  /** `DELETE ... WHERE pk = id`. */
  function Delete(db: Db, id: nat): Db
  {
    Db(db.rows - {id}, db.nextId)
  }

  /** `DELETE` of every row; the auto-increment counter is kept. */
  function Clear(db: Db): Db
  {
    Db(map[], db.nextId)
  }

  /** A `WHERE` clause, as knex builds it. */
  datatype Condition =
    | Everything                       // no `where`
    | Equals(col: Key, v: Value)       // `.where(col, v)`, `.where({ col: v })`
    | Like(col: Key, text: string)     // `.where(col, "like", `%${text}%`)`
    | Later(col: Key, ms: int)         // `.where(col, ">", date)`
    | Both(left: Condition, right: Condition)  // `.andWhere(...)`, several keys of one `where({...})`

  /** A value as SQL compares it: booleans are stored as 1 and 0. */
  function SqlValue(v: Value): Value
  {
    if v.Bool? then Num(if v.b then 1.0 else 0.0) else v
  }

  /** `stored = given` in SQL: NULL equals nothing. */
  predicate SqlEquals(stored: Value, given: Value)
  {
    stored != Null && stored != Undefined && given != Null && given != Undefined &&
    SqlValue(stored) == SqlValue(given)
  }

  /** Whether a row, as `SELECT *` reads it, satisfies the clause. */
  predicate Accepts(cond: Condition, row: Object)
  {
    match cond
    case Everything => true
    case Equals(col, v) => SqlEquals(Get(row, col), v)
    case Like(col, text) => Get(row, col).Str? && Contains(Get(row, col).s, text)
    case Later(col, ms) => Get(row, col).Date? && Get(row, col).ms > ms
    case Both(left, right) => Accepts(left, row) && Accepts(right, row)
  }

  /** The keys, in ascending order from `lo`, of the rows that `cond` accepts
      (a `WHERE` clause evaluated on each row as `SELECT *` reads it). */
  function Matching(db: Db, pk: Key, cond: Condition, lo: nat): (r: seq<nat>)
    ensures forall i :: 0 <= i < |r| ==> r[i] in db.rows && lo <= r[i] < db.nextId
    ensures forall i, j :: 0 <= i < j < |r| ==> r[i] < r[j]
    decreases db.nextId - lo
  {
    if lo >= db.nextId then []
    else
      var rest := Matching(db, pk, cond, lo + 1);
      if lo in db.rows && Accepts(cond, Read(db, pk, lo)) then [lo] + rest else rest
  }

  /** A key is listed exactly when its row is in range and accepted. */
  lemma {:induction false} MatchingExactly(db: Db, pk: Key, cond: Condition, lo: nat, id: nat)
    ensures id in Matching(db, pk, cond, lo) <==>
            lo <= id < db.nextId && id in db.rows && Accepts(cond, Read(db, pk, id))
    decreases db.nextId - lo
  {
    if lo < db.nextId {
      MatchingExactly(db, pk, cond, lo + 1, id);
    }
  }

  /** The same, for a whole valid table. */
  lemma MatchingAll(db: Db, pk: Key, cond: Condition)
    requires db.Valid()
    ensures forall id :: id in Matching(db, pk, cond, 0) <==> id in db.rows && Accepts(cond, Read(db, pk, id))
  {
    forall id ensures id in Matching(db, pk, cond, 0) <==> id in db.rows && Accepts(cond, Read(db, pk, id)) {
      MatchingExactly(db, pk, cond, 0, id);
    }
  }

  /** The accepted rows with keys from `lo` on. */
  function AcceptedFrom(db: Db, pk: Key, cond: Condition, lo: nat): set<nat>
  {
    set id | id in db.rows && lo <= id && Accepts(cond, Read(db, pk, id))
  }

  lemma {:induction false} MatchingCountFrom(db: Db, pk: Key, cond: Condition, lo: nat)
    requires db.Valid()
    ensures |Matching(db, pk, cond, lo)| == |AcceptedFrom(db, pk, cond, lo)|
    decreases db.nextId - lo
  {
    if lo >= db.nextId {
      AcceptedBeyond(db, pk, cond, lo);
    } else {
      MatchingCountFrom(db, pk, cond, lo + 1);
      AcceptedStep(db, pk, cond, lo);
    }
  }

  lemma AcceptedBeyond(db: Db, pk: Key, cond: Condition, lo: nat)
    requires db.Valid() && lo >= db.nextId
    ensures AcceptedFrom(db, pk, cond, lo) == {}
  {
    var here := AcceptedFrom(db, pk, cond, lo);
    forall id | id in here ensures false {
    }
  }

  lemma AcceptedStep(db: Db, pk: Key, cond: Condition, lo: nat)
    ensures lo in db.rows && Accepts(cond, Read(db, pk, lo)) ==>
              AcceptedFrom(db, pk, cond, lo) == {lo} + AcceptedFrom(db, pk, cond, lo + 1) &&
              lo !in AcceptedFrom(db, pk, cond, lo + 1)
    ensures !(lo in db.rows && Accepts(cond, Read(db, pk, lo))) ==>
              AcceptedFrom(db, pk, cond, lo) == AcceptedFrom(db, pk, cond, lo + 1)
  {
    var here := AcceptedFrom(db, pk, cond, lo);
    var next := AcceptedFrom(db, pk, cond, lo + 1);
    assert forall id :: id in here <==> id in next || (id == lo && lo in db.rows && Accepts(cond, Read(db, pk, lo)));
  }

  /** `count(...)` over a `WHERE` clause counts exactly the rows the same clause lists. */
  lemma MatchingCount(db: Db, pk: Key, cond: Condition)
    requires db.Valid()
    ensures |Matching(db, pk, cond, 0)| == |Accepted(db, pk, cond)|
  {
    MatchingCountFrom(db, pk, cond, 0);
    assert AcceptedFrom(db, pk, cond, 0) == Accepted(db, pk, cond);
  }

  /** The keys of the rows the clause accepts. */
  function Accepted(db: Db, pk: Key, cond: Condition): set<nat>
  {
    set id | id in db.rows && Accepts(cond, Read(db, pk, id))
  }

  /** `.where(...).first()`: the accepted row with the smallest key, if any. */
  function First(db: Db, pk: Key, cond: Condition): (r: Option<nat>)
    ensures r.Some? ==> r.value in db.rows
  {
    var ids := Matching(db, pk, cond, 0);
    if ids == [] then None else Some(ids[0])
  }

  /** `id` holds the accepted row with the smallest key. */
  predicate IsFirst(db: Db, pk: Key, cond: Condition, id: nat)
  {
    id in db.rows && Accepts(cond, Read(db, pk, id)) &&
    forall other :: other in db.rows && Accepts(cond, Read(db, pk, other)) ==> id <= other
  }

  /** `first()` finds a row exactly when one is accepted, and it finds the
      accepted row with the smallest key. */
  lemma FirstSpec(db: Db, pk: Key, cond: Condition)
    requires db.Valid()
    ensures First(db, pk, cond).None? <==> forall id :: id in db.rows ==> !Accepts(cond, Read(db, pk, id))
    ensures First(db, pk, cond).Some? ==> IsFirst(db, pk, cond, First(db, pk, cond).value)
  {
    var ids := Matching(db, pk, cond, 0);
    MatchingAll(db, pk, cond);
    if ids != [] {
      forall other | other in db.rows && Accepts(cond, Read(db, pk, other)) ensures ids[0] <= other {
        assert other in ids;
      }
    } else {
      forall id | id in db.rows ensures !Accepts(cond, Read(db, pk, id)) {
        assert id !in ids;
      }
    }
  }

  /** The same, stated for one key. */
  lemma FirstIsFirst(db: Db, pk: Key, cond: Condition, id: nat)
    requires db.Valid()
    ensures First(db, pk, cond) == Some(id) <==> IsFirst(db, pk, cond, id)
  {
    FirstSpec(db, pk, cond);
    if IsFirst(db, pk, cond, id) {
      var found := First(db, pk, cond).value;
      assert found <= id && id <= found;
    }
  }

  /** `.where(pk, id).first()` finds the row stored under `id`, if there is one. */
  lemma FirstByKey(db: Db, pk: Key, id: nat)
    requires db.Valid()
    ensures First(db, pk, Equals(pk, Num(id as real))) == if id in db.rows then Some(id) else None
  {
    FirstSpec(db, pk, Equals(pk, Num(id as real)));
    if id in db.rows {
      assert Accepts(Equals(pk, Num(id as real)), Read(db, pk, id));
    }
  }

  /** The rows of the given keys, as `SELECT *` reads them. */
  function ReadEach(db: Db, pk: Key, ids: seq<nat>): (r: seq<Object>)
    requires forall i :: 0 <= i < |ids| ==> ids[i] in db.rows
    ensures |r| == |ids|
    ensures forall i :: 0 <= i < |ids| ==> r[i] == Read(db, pk, ids[i])
  {
    seq(|ids|, i requires 0 <= i < |ids| => Read(db, pk, ids[i]))
  }

  /** `SELECT c1, ..., cn` applied to every row of a result. */
  function SelectEach(rows: seq<Object>, cols: set<Key>): (r: seq<Object>)
    ensures |r| == |rows|
    ensures forall i :: 0 <= i < |rows| ==> r[i] == Select(rows[i], cols)
  {
    seq(|rows|, i requires 0 <= i < |rows| => Select(rows[i], cols))
  }

  /** `.offset(o).limit(l)` applied to a result in scan order. */
  function Window<T>(s: seq<T>, p: Paginator): (r: seq<T>)
    ensures |r| <= p.limit
    ensures forall i :: 0 <= i < |r| ==> p.offset + i < |s| && r[i] == s[p.offset + i]
    ensures |r| == if p.offset >= |s| then 0 else if |s| - p.offset < p.limit then |s| - p.offset else p.limit
  {
    var lo := if p.offset <= |s| then p.offset else |s|;
    var hi := if lo + p.limit <= |s| then lo + p.limit else |s|;
    s[lo..hi]
  }
}
