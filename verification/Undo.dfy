/** Models the undo of a transaction in src/modules/iasql_functions/iasql.ts: `recreateQueries` and
    `getFormattedQuery` turn logged row changes into statements, `applyInverseQueries` runs them newest first. */
module Undo {
  import opened Bags
  import opened Options

  /** A row: its columns that are not null. */
  type Row = map<string, string>

  /** Per table: the columns the database generates, those with AWS resolve support, and the defaults of
      the columns that have one. */
  datatype Schema = Schema(generated: set<string>, resolve: set<string>, defaults: Row) {
    predicate Valid() { defaults.Keys !! generated }

    /** What of a row an undo can put back. */
    function Lasting(r: Row): Row { r - generated }

    /** The generated columns among given values. */
    function Generated(r: Row): Row { r - (r.Keys - generated) }

    /** Columns of a WHERE clause. */
    function Condition(r: Row): Row { r - generated - resolve }
  }

  datatype Change = Insert(table: string, after: Row) | Delete(table: string, before: Row)
                  | Update(table: string, before: Row, after: Row)

  /** A statement in terms of column values; an empty list of columns is a syntax error. */
  datatype Query = InsertInto(table: string, values: Row) | DeleteFrom(table: string, cond: Row)
                 | UpdateSet(table: string, values: Row, cond: Row)

  /** getFormattedQuery: null columns were dropped before, generated ones are dropped here. */
  function Formatted(s: Schema, c: Change, inverse: bool): Query {
    match c
    case Insert(t, r) => if inverse then DeleteFrom(t, s.Condition(r)) else InsertInto(t, s.Lasting(r))
    case Delete(t, r) => if inverse then InsertInto(t, s.Lasting(r)) else DeleteFrom(t, s.Condition(r))
    case Update(t, o, n) =>
      if inverse then UpdateSet(t, s.Lasting(o), s.Condition(n)) else UpdateSet(t, s.Lasting(n), s.Condition(o))
  }

  predicate Matches(r: Row, cond: Row) { forall k :: k in cond ==> k in r && r[k] == cond[k] }

  function Meets(cond: Row): Row -> bool { r => Matches(r, cond) }

  function Misses(cond: Row): Row -> bool { r => !Matches(r, cond) }

  function Overwrite(values: Row): Row -> Row { r => r + values }

  /** The rows after a statement on their table, up to their order; `gen` gives the values the database
      generates.  A statement with an empty column list fails and changes nothing. */
  function Executed(s: Schema, rows: seq<Row>, q: Query, gen: Row): seq<Row> {
    match q
    case InsertInto(_, values) => if values == map[] then rows else rows + [s.defaults + s.Generated(gen) + values]
    case DeleteFrom(_, cond) => if cond == map[] then rows else Select(rows, Misses(cond))
    case UpdateSet(_, values, cond) =>
      if values == map[] || cond == map[] then rows
      else Select(rows, Misses(cond)) + Image(Select(rows, Meets(cond)), Overwrite(values))
  }

  type Tables = map<string, seq<Row>>

  function Rows(db: Tables, t: string): seq<Row> { if t in db then db[t] else [] }

  type Schemas = string -> Schema

  function Step(ss: Schemas, db: Tables, q: Query, gen: Row): Tables {
    db[q.table := Executed(ss(q.table), Rows(db, q.table), q, gen)]
  }

  /** All statements in order; `gen[i]` belongs to statement `i`. */
  function Applied(ss: Schemas, db: Tables, qs: seq<Query>, gen: seq<Row>): Tables
    requires |gen| == |qs|
  {
    if qs == [] then db
    else Step(ss, Applied(ss, db, qs[..|qs| - 1], gen[..|qs| - 1]), qs[|qs| - 1], gen[|qs| - 1])
  }

  function Recreated(ss: Schemas, changeLogs: seq<Change>, inverse: bool): (qs: seq<Query>)
    ensures |qs| == |changeLogs|
    ensures forall i :: 0 <= i < |qs| ==> qs[i] == Formatted(ss(changeLogs[i].table), changeLogs[i], inverse)
  {
    seq(|changeLogs|, i requires 0 <= i < |changeLogs| => Formatted(ss(changeLogs[i].table), changeLogs[i], inverse))
  }

  class Database {
    const schemas: Schemas
    var tables: Tables

    constructor (schemas: Schemas, tables: Tables)
      ensures this.schemas == schemas && this.tables == tables
    {
      this.schemas := schemas;
      this.tables := tables;
    }

    method RecreateQueries(changeLogs: seq<Change>, inverse: bool) returns (queries: seq<Query>)
      ensures queries == Recreated(schemas, changeLogs, inverse)
    {
      queries := [];
      for i := 0 to |changeLogs|
        invariant queries == Recreated(schemas, changeLogs, inverse)[..i]
      {
        queries := queries + [Formatted(schemas(changeLogs[i].table), changeLogs[i], inverse)];
      }
    }

    /** A failing statement is logged and skipped. */
    method ApplyQueries(queries: seq<Query>, gen: seq<Row>)
      requires |gen| == |queries|
      modifies this
      ensures tables == Applied(schemas, old(tables), queries, gen)
    {
      for i := 0 to |queries|
        invariant tables == Applied(schemas, old(tables), queries[..i], gen[..i])
      {
        assert queries[..i + 1][..i] == queries[..i] && gen[..i + 1][..i] == gen[..i];
        tables := Step(schemas, tables, queries[i], gen[i]);
      }
      assert queries[..|queries|] == queries && gen[..|queries|] == gen;
    }

    /** The row side of `revert`: `changeLogs` come newest first. */
    method Revert(changeLogs: seq<Change>, gen: seq<Row>)
      requires |gen| == |changeLogs|
      modifies this
      ensures tables == Applied(schemas, old(tables), Recreated(schemas, changeLogs, true), gen)
    {
      var queries := RecreateQueries(changeLogs, true);
      ApplyQueries(queries, gen);
    }
  }

  /** The values are those of the row's columns that the database does not generate. */
  ghost predicate IsValues(s: Schema, values: Row, r: Row) {
    forall k :: (k in values <==> k in r && k !in s.generated) && (k in values ==> values[k] == r[k])
  }

  /** The condition is on the row's columns that are neither generated nor resolved, with their values. */
  ghost predicate IsCondition(s: Schema, cond: Row, r: Row) {
    forall k :: (k in cond <==> k in r && k !in s.generated && k !in s.resolve) && (k in cond ==> cond[k] == r[k])
  }

  /** What a recreated statement is: forwards it repeats the change, inverted it takes the change back; it finds
      the row by the state that it is to change and sets the other. */
  lemma FormattedMeans(s: Schema, c: Change, inverse: bool)
    ensures var q := Formatted(s, c, inverse);
            && q.table == c.table
            && match c
               case Insert(_, r) =>
                 if inverse then q.DeleteFrom? && IsCondition(s, q.cond, r)
                 else q.InsertInto? && IsValues(s, q.values, r)
               case Delete(_, r) =>
                 if inverse then q.InsertInto? && IsValues(s, q.values, r)
                 else q.DeleteFrom? && IsCondition(s, q.cond, r)
               case Update(_, o, n) =>
                 && q.UpdateSet? && IsValues(s, q.values, if inverse then o else n)
                 && IsCondition(s, q.cond, if inverse then n else o)
  {
  }

  // Tables up to generated columns ----------------------------------------------------------------------

  /** The rows without their generated columns. */
  function Lastings(s: Schema, rows: seq<Row>): seq<Row> { Image(rows, (r: Row) => s.Lasting(r)) }

  /** The table as a bag of rows without their generated columns. */
  function Bag(s: Schema, rows: seq<Row>): multiset<Row> { multiset(Lastings(s, rows)) }

  ghost predicate SameTable(ss: Schemas, db: Tables, db': Tables, t: string) {
    Bag(ss(t), Rows(db, t)) == Bag(ss(t), Rows(db', t))
  }

  ghost predicate Same(ss: Schemas, db: Tables, db': Tables) { forall t :: SameTable(ss, db, db', t) }

  lemma LastingsSplit(s: Schema, rows: seq<Row>, cond: Row)
    requires cond.Keys !! s.generated
    ensures Lastings(s, Select(rows, Meets(cond))) == Select(Lastings(s, rows), Meets(cond))
    ensures Lastings(s, Select(rows, Misses(cond))) == Select(Lastings(s, rows), Misses(cond))
  {
    forall r: Row ensures Matches(s.Lasting(r), cond) <==> Matches(r, cond) {}
    SelectImage(rows, Meets(cond), Meets(cond), (r: Row) => s.Lasting(r));
    SelectImage(rows, Misses(cond), Misses(cond), (r: Row) => s.Lasting(r));
  }

  lemma OverwrittenLastings(s: Schema, rows: seq<Row>, values: Row)
    requires values.Keys !! s.generated
    ensures Lastings(s, Image(rows, Overwrite(values))) == Image(Lastings(s, rows), Overwrite(values))
  {
    forall r: Row ensures s.Lasting(r + values) == s.Lasting(r) + values {}
  }

  /** The bag after a statement, in terms of the bag's rows before it. */
  function Effect(s: Schema, l: seq<Row>, q: Query): multiset<Row> {
    match q
    case InsertInto(_, values) => multiset(l) + if values == map[] then multiset{} else multiset{s.defaults + values}
    case DeleteFrom(_, cond) => if cond == map[] then multiset(l) else multiset(Select(l, Misses(cond)))
    case UpdateSet(_, values, cond) =>
      if values == map[] || cond == map[] then multiset(l)
      else multiset(Select(l, Misses(cond))) + multiset(Image(Select(l, Meets(cond)), Overwrite(values)))
  }

  lemma InsertedBag(s: Schema, rows: seq<Row>, t: string, values: Row, gen: Row)
    requires s.Valid() && values.Keys !! s.generated
    ensures Bag(s, Executed(s, rows, InsertInto(t, values), gen)) == Effect(s, Lastings(s, rows), InsertInto(t, values))
  {
    if values != map[] {
      var r := s.defaults + s.Generated(gen) + values;
      assert s.Lasting(r) == s.defaults + values;
      ImageParts(rows, [r], (r: Row) => s.Lasting(r));
      assert Lastings(s, [r]) == [s.Lasting(r)];
    }
  }

  lemma DeletedBag(s: Schema, rows: seq<Row>, t: string, cond: Row, gen: Row)
    requires cond.Keys !! s.generated
    ensures Bag(s, Executed(s, rows, DeleteFrom(t, cond), gen)) == Effect(s, Lastings(s, rows), DeleteFrom(t, cond))
  {
    LastingsSplit(s, rows, cond);
  }

  lemma UpdatedBag(s: Schema, rows: seq<Row>, t: string, values: Row, cond: Row, gen: Row)
    requires values.Keys !! s.generated && cond.Keys !! s.generated
    ensures Bag(s, Executed(s, rows, UpdateSet(t, values, cond), gen))
         == Effect(s, Lastings(s, rows), UpdateSet(t, values, cond))
  {
    LastingsSplit(s, rows, cond);
    var hit, kept := Select(rows, Meets(cond)), Select(rows, Misses(cond));
    OverwrittenLastings(s, hit, values);
    ImageParts(kept, Image(hit, Overwrite(values)), (r: Row) => s.Lasting(r));
  }

  // One change --------------------------------------------------------------------------------------------

  /** The logged change led from `rows` to `rows'`. */
  ghost predicate Happened(c: Change, rows: seq<Row>, rows': seq<Row>) {
    match c
    case Insert(_, r) => multiset(rows') == multiset(rows) + multiset{r}
    case Delete(_, r) => multiset(rows) == multiset(rows') + multiset{r}
    case Update(_, o, n) => exists rest :: multiset(rows) == rest + multiset{o} && multiset(rows') == rest + multiset{n}
  }

  /** The WHERE clause of the undo has columns and exactly one row of the table meets it. */
  predicate Identifies(s: Schema, r: Row, rows': seq<Row>) {
    s.Condition(r) != map[] && |Select(rows', Meets(s.Condition(r)))| == 1
  }

  /** The update gave a value to a column that was null. */
  predicate FillsNull(s: Schema, o: Row, n: Row) { exists k :: k in s.Lasting(n) && k !in o }

  /** Every other row that meets the WHERE clause has the old values already. */
  ghost predicate OthersHold(s: Schema, o: Row, n: Row, rows': seq<Row>) {
    forall r :: r in multiset(rows') - multiset{n} && Matches(r, s.Condition(n)) ==> Matches(r, s.Lasting(o))
  }

  /** When the undo of a change restores the table, in terms of the change and of the table after it. */
  ghost predicate Undoable(s: Schema, c: Change, rows': seq<Row>) {
    match c
    case Insert(_, r) => Identifies(s, r, rows')
    case Delete(_, r) => s.Lasting(r) != map[] && s.defaults.Keys <= r.Keys
    case Update(_, o, n) =>
      if s.Condition(n) == map[] || s.Lasting(o) == map[] then s.Lasting(n) == s.Lasting(o)
      else !FillsNull(s, o, n) && OthersHold(s, o, n, rows')
  }

  lemma BagPlus(s: Schema, rows: seq<Row>, rows': seq<Row>, r: Row)
    requires multiset(rows') == multiset(rows) + multiset{r}
    ensures Bag(s, rows') == Bag(s, rows) + multiset{s.Lasting(r)}
  {
    ImagePlus(rows, rows', r, (x: Row) => s.Lasting(x));
  }

  lemma BagRest(s: Schema, rows: seq<Row>, rows': seq<Row>, o: Row, n: Row) returns (left: seq<Row>)
    requires Happened(Update("", o, n), rows, rows')
    ensures multiset(left) == multiset(rows') - multiset{n} && multiset(rows') == multiset(left) + multiset{n}
    ensures Bag(s, rows) == Bag(s, left) + multiset{s.Lasting(o)}
    ensures Bag(s, rows') == Bag(s, left) + multiset{s.Lasting(n)}
  {
    var m :| multiset(rows) == m + multiset{o} && multiset(rows') == m + multiset{n};
    left := SameRest(rows, m, o);
    BagPlus(s, left, rows, o);
    BagPlus(s, left, rows', n);
    RestIs(rows', m, n);
  }

  lemma RestIs<T>(a: seq<T>, rest: multiset<T>, x: T)
    requires multiset(a) == rest + multiset{x}
    ensures rest == multiset(a) - multiset{x}
  {
  }

  /** How many rows match is the same on every table that is equal up to generated columns. */
  lemma SameMatches(s: Schema, a: seq<Row>, b: seq<Row>, cond: Row)
    requires cond.Keys !! s.generated && Bag(s, a) == Bag(s, b)
    ensures |Select(Lastings(s, a), Meets(cond))| == |Select(b, Meets(cond))|
  {
    SelectEqual(Lastings(s, a), Lastings(s, b), Meets(cond));
    LastingsSplit(s, b, cond);
  }

  /** What deleting does to the bag when the row is there. */
  lemma DeleteEffect(l: seq<Row>, cond: Row, r: Row)
    requires r in multiset(l) && Matches(r, cond)
    ensures multiset(l) == multiset(Select(l, Misses(cond))) + multiset{r} <==> |Select(l, Meets(cond))| == 1
    ensures |Select(l, Meets(cond))| == 1 ==> Select(l, Meets(cond)) == [r]
  {
    SelectSplits(l, Meets(cond), Misses(cond));
    if |Select(l, Meets(cond))| == 1 { OnlyOne(l, Meets(cond), r); }
    assert |multiset(l)| == |Select(l, Meets(cond))| + |Select(l, Misses(cond))|;
    assert |multiset(Select(l, Misses(cond))) + multiset{r}| == |Select(l, Misses(cond))| + 1;
  }

  /** Undo of an insert, on any table that equals the one after it up to generated columns. */
  lemma UndoInsert(s: Schema, t: string, r: Row, rows: seq<Row>, rows': seq<Row>, now: seq<Row>, gen: Row)
    requires s.Valid() && Happened(Insert(t, r), rows, rows') && Bag(s, now) == Bag(s, rows')
    ensures Bag(s, Executed(s, now, Formatted(s, Insert(t, r), true), gen)) == Bag(s, rows)
       <==> Undoable(s, Insert(t, r), rows')
  {
    var cond, l := s.Condition(r), Lastings(s, now);
    BagPlus(s, rows, rows', r);
    DeletedBag(s, now, t, cond, gen);
    SameMatches(s, now, rows', cond);
    DeleteEffect(l, cond, s.Lasting(r));
    More(Bag(s, rows), s.Lasting(r));
    if cond != map[] {
      Cancel(Bag(s, rows), multiset(Select(l, Misses(cond))), multiset{s.Lasting(r)});
    }
  }

  lemma UndoDelete(s: Schema, t: string, r: Row, rows: seq<Row>, rows': seq<Row>, now: seq<Row>, gen: Row)
    requires s.Valid() && Happened(Delete(t, r), rows, rows') && Bag(s, now) == Bag(s, rows')
    ensures Bag(s, Executed(s, now, Formatted(s, Delete(t, r), true), gen)) == Bag(s, rows)
       <==> Undoable(s, Delete(t, r), rows')
  {
    var values := s.Lasting(r);
    BagPlus(s, rows', rows, r);
    InsertedBag(s, now, t, values, gen);
    More(Bag(s, rows'), values);
    Swap(Bag(s, rows'), s.defaults + values, values);
    WithDefaults(s, r);
  }

  /** Inserting a row again gives the same row unless a null column has a default. */
  lemma WithDefaults(s: Schema, r: Row)
    requires s.Valid()
    ensures s.defaults + s.Lasting(r) == s.Lasting(r) <==> s.defaults.Keys <= r.Keys
  {
    if s.defaults + s.Lasting(r) == s.Lasting(r) {
      forall k | k in s.defaults ensures k in r { assert k in s.defaults + s.Lasting(r); }
    }
  }

  lemma OverwriteTwice(v: Row)
    ensures forall r: Row :: Overwrite(v)(Overwrite(v)(r)) == Overwrite(v)(r)
    ensures forall r: Row :: Overwrite(v)(r) == r <==> Matches(r, v)
  {
    forall r: Row ensures r + v + v == r + v {}
    forall r: Row ensures r + v == r <==> Matches(r, v) {
      if r + v == r { forall k | k in v ensures k in r && r[k] == v[k] { assert k in r + v; } }
    }
  }

  /** What other rows hold, read on rows without their generated columns. */
  lemma OthersHoldOnBag(s: Schema, o: Row, n: Row, rows': seq<Row>, left: seq<Row>)
    requires multiset(left) == multiset(rows') - multiset{n}
    ensures OthersHold(s, o, n, rows') <==>
            forall h :: h in Bag(s, left) && Matches(h, s.Condition(n)) ==> Matches(h, s.Lasting(o))
  {
    var c, v := s.Condition(n), s.Lasting(o);
    forall r: Row
      ensures (Matches(s.Lasting(r), c) <==> Matches(r, c)) && (Matches(s.Lasting(r), v) <==> Matches(r, v))
    {}
    if OthersHold(s, o, n, rows') {
      forall h | h in Bag(s, left) && Matches(h, c) ensures Matches(h, v) {
        var i :| 0 <= i < |left| && Lastings(s, left)[i] == h;
        assert left[i] in multiset(left);
      }
    } else {
      var r :| r in multiset(left) && Matches(r, c) && !Matches(r, v);
      var i :| 0 <= i < |left| && left[i] == r;
      assert Lastings(s, left)[i] in Bag(s, left);
    }
  }

  /** The effect of a well-formed undo of an update, on the bag. */
  lemma UpdateEffect(s: Schema, t: string, o: Row, n: Row, l: seq<Row>, rest: multiset<Row>)
    requires multiset(l) == rest + multiset{s.Lasting(n)} && s.Condition(n) != map[] && s.Lasting(o) != map[]
    ensures Effect(s, l, UpdateSet(t, s.Lasting(o), s.Condition(n))) == rest + multiset{s.Lasting(o)}
       <==> !FillsNull(s, o, n) && forall h :: h in rest && Matches(h, s.Condition(n)) ==> Matches(h, s.Lasting(o))
  {
    var cond, values := s.Condition(n), s.Lasting(o);
    OverwriteTwice(values);
    ReplaceSelected(l, rest, s.Lasting(n), values, Meets(cond), Misses(cond), Overwrite(values));
    Refilled(s, o, n);
  }

  /** The same for any update, in terms of the other rows. */
  lemma UpdateVerdict(s: Schema, t: string, o: Row, n: Row, rows': seq<Row>, left: seq<Row>, l: seq<Row>)
    requires multiset(left) == multiset(rows') - multiset{n}
    requires multiset(l) == Bag(s, left) + multiset{s.Lasting(n)}
    ensures Effect(s, l, UpdateSet(t, s.Lasting(o), s.Condition(n))) == Bag(s, left) + multiset{s.Lasting(o)}
       <==> Undoable(s, Update(t, o, n), rows')
  {
    if s.Condition(n) != map[] && s.Lasting(o) != map[] {
      UpdateEffect(s, t, o, n, l, Bag(s, left));
      OthersHoldOnBag(s, o, n, rows', left);
    } else {
      Swap(Bag(s, left), s.Lasting(n), s.Lasting(o));
    }
  }

  /** Undo of an update: exact, for every update. */
  lemma UndoUpdate(s: Schema, t: string, o: Row, n: Row, rows: seq<Row>, rows': seq<Row>, now: seq<Row>, gen: Row)
    requires s.Valid() && Happened(Update(t, o, n), rows, rows') && Bag(s, now) == Bag(s, rows')
    ensures Bag(s, Executed(s, now, Formatted(s, Update(t, o, n), true), gen)) == Bag(s, rows)
       <==> Undoable(s, Update(t, o, n), rows')
  {
    var left := BagRest(s, rows, rows', o, n);
    UpdateVerdict(s, t, o, n, rows', left, Lastings(s, now));
    UpdatedBag(s, now, t, s.Lasting(o), s.Condition(n), gen);
  }

  /** Overwriting gives the old row back unless a null was filled. */
  lemma Refilled(s: Schema, o: Row, n: Row)
    ensures s.Lasting(n) + s.Lasting(o) == s.Lasting(o) <==> !FillsNull(s, o, n)
  {
    if s.Lasting(n) + s.Lasting(o) == s.Lasting(o) {
      forall k | k in s.Lasting(n) ensures k in o { assert k in s.Lasting(n) + s.Lasting(o); }
    }
  }

  /** The value of a column, if it is not null. */
  function Column(k: string): Row -> Option<string> { r => if k in r then Some(r[k]) else None }

  /** What an update filled in stays.  The undo sets no column that the old row did not have: in any table of
      any schema the column holds the same bag of values and nulls before and after, so the filled value is
      still there. */
  lemma FilledStays(s: Schema, t: string, o: Row, n: Row, rows: seq<Row>, gen: Row, k: string)
    requires k !in o
    ensures var after := Executed(s, rows, Formatted(s, Update(t, o, n), true), gen);
            && multiset(Image(after, Column(k))) == multiset(Image(rows, Column(k)))
            && (n in rows && k in n ==> exists r :: r in after && k in r && r[k] == n[k])
  {
    var cond, values := s.Condition(n), s.Lasting(o);
    var after := Executed(s, rows, Formatted(s, Update(t, o, n), true), gen);
    if values != map[] && cond != map[] {
      forall r: Row ensures Column(k)(Overwrite(values)(r)) == Column(k)(r) {}
      ImageUnseen(rows, Meets(cond), Misses(cond), Overwrite(values), Column(k));
    }
    if n in rows && k in n {
      ImageHas(rows, Column(k), Some(n[k]));
      assert Some(n[k]) in multiset(Image(after, Column(k)));
      ImageHas(after, Column(k), Some(n[k]));
      var r :| r in after && Column(k)(r) == Some(n[k]);
      assert k in r && r[k] == n[k];
    }
  }

  /** An update can be undone when its WHERE clause identifies the row and no null was filled. */
  lemma IdentifiedIsUndoable(s: Schema, t: string, o: Row, n: Row, rows': seq<Row>)
    requires n in rows' && Identifies(s, n, rows') && !FillsNull(s, o, n)
    ensures Undoable(s, Update(t, o, n), rows')
  {
    var cond := s.Condition(n);
    OnlyOne(rows', Meets(cond), n);
    forall r | r in multiset(rows') - multiset{n} ensures !Matches(r, cond) { SelectCounts(rows', Meets(cond), r); }
    var k :| k in cond;
    assert k in s.Lasting(n) && k in s.Lasting(o);
  }

  // Whole transactions --------------------------------------------------------------------------------------

  /** The states of the tables while the changes happened, oldest first. */
  ghost predicate Logged(changes: seq<Change>, states: seq<Tables>) {
    && |states| == |changes| + 1
    && forall i {:trigger changes[i]} :: 0 <= i < |changes| ==> Led(changes[i], states[i], states[i + 1])
  }

  ghost predicate Led(c: Change, db: Tables, db': Tables) {
    && Happened(c, Rows(db, c.table), Rows(db', c.table))
    && forall t :: t != c.table ==> Rows(db', t) == Rows(db, t)
  }

  ghost predicate UndoableAt(ss: Schemas, c: Change, db': Tables) { Undoable(ss(c.table), c, Rows(db', c.table)) }

  function NewestFirst(changes: seq<Change>): (r: seq<Change>)
    ensures |r| == |changes| && forall i :: 0 <= i < |r| ==> r[i] == changes[|changes| - 1 - i]
  {
    seq(|changes|, i requires 0 <= i < |changes| => changes[|changes| - 1 - i])
  }

  lemma StepTouchesOne(ss: Schemas, db: Tables, q: Query, gen: Row)
    ensures Rows(Step(ss, db, q, gen), q.table) == Executed(ss(q.table), Rows(db, q.table), q, gen)
    ensures forall t :: t != q.table ==> Rows(Step(ss, db, q, gen), t) == Rows(db, t)
  {
  }

  /** One undo step, on tables that equal those after the change up to generated columns. */
  lemma UndoStep(ss: Schemas, c: Change, db: Tables, db': Tables, now: Tables, gen: Row)
    requires ss(c.table).Valid() && Led(c, db, db') && Same(ss, now, db')
    requires UndoableAt(ss, c, db')
    ensures Same(ss, Step(ss, now, Formatted(ss(c.table), c, true), gen), db)
  {
    var s, t := ss(c.table), c.table;
    var q := Formatted(s, c, true);
    assert SameTable(ss, now, db', t);
    UndoTable(s, c, Rows(db, t), Rows(db', t), Rows(now, t), gen);
    StepTouchesOne(ss, now, q, gen);
    var after := Step(ss, now, q, gen);
    forall u ensures SameTable(ss, after, db, u) { UndoElsewhere(ss, c, db, db', now, after, u); }
  }

  lemma UndoElsewhere(ss: Schemas, c: Change, db: Tables, db': Tables, now: Tables, after: Tables, u: string)
    requires Led(c, db, db') && Same(ss, now, db') && SameTable(ss, after, db, c.table)
    requires forall t :: t != c.table ==> Rows(after, t) == Rows(now, t)
    ensures SameTable(ss, after, db, u)
  {
    assert SameTable(ss, now, db', u);
  }

  lemma UndoTable(s: Schema, c: Change, rows: seq<Row>, rows': seq<Row>, now: seq<Row>, gen: Row)
    requires s.Valid() && Happened(c, rows, rows') && Bag(s, now) == Bag(s, rows') && Undoable(s, c, rows')
    ensures Formatted(s, c, true).table == c.table
    ensures Bag(s, Executed(s, now, Formatted(s, c, true), gen)) == Bag(s, rows)
  {
    match c
    case Insert(t, r) => UndoInsert(s, t, r, rows, rows', now, gen);
    case Delete(t, r) => UndoDelete(s, t, r, rows, rows', now, gen);
    case Update(t, o, n) => UndoUpdate(s, t, o, n, rows, rows', now, gen);
  }

  /** The undo as a recursion over the changes, the newest (last) one first. */
  function Undone(ss: Schemas, db: Tables, changes: seq<Change>, gen: seq<Row>): Tables
    requires |gen| == |changes|
    decreases |changes|
  {
    if changes == [] then db
    else
      var c := changes[|changes| - 1];
      Undone(ss, Step(ss, db, Formatted(ss(c.table), c, true), gen[0]), changes[..|changes| - 1], gen[1..])
  }

  lemma {:induction false} AppliedFront(ss: Schemas, db: Tables, qs: seq<Query>, gen: seq<Row>)
    requires |gen| == |qs| > 0
    ensures Applied(ss, db, qs, gen) == Applied(ss, Step(ss, db, qs[0], gen[0]), qs[1..], gen[1..])
    decreases |qs|
  {
    var n := |qs| - 1;
    if n > 0 {
      AppliedFront(ss, db, qs[..n], gen[..n]);
      assert qs[1..][..n - 1] == qs[..n][1..] && gen[1..][..n - 1] == gen[..n][1..];
    }
  }

  lemma RecreatedTail(ss: Schemas, changes: seq<Change>)
    requires changes != []
    ensures Recreated(ss, NewestFirst(changes), true)[1..] == Recreated(ss, NewestFirst(changes[..|changes| - 1]), true)
  {
  }

  lemma {:induction false} AppliedIsUndone(ss: Schemas, db: Tables, changes: seq<Change>, gen: seq<Row>)
    requires |gen| == |changes|
    ensures Applied(ss, db, Recreated(ss, NewestFirst(changes), true), gen) == Undone(ss, db, changes, gen)
    decreases |changes|
  {
    if changes != [] {
      var qs, n := Recreated(ss, NewestFirst(changes), true), |changes| - 1;
      AppliedFront(ss, db, qs, gen);
      RecreatedTail(ss, changes);
      AppliedIsUndone(ss, Step(ss, db, qs[0], gen[0]), changes[..n], gen[1..]);
    }
  }

  /** Every change can be undone where it stands. */
  ghost predicate AllUndoable(ss: Schemas, changes: seq<Change>, states: seq<Tables>) {
    && |states| == |changes| + 1
    && forall i {:trigger changes[i]} :: 0 <= i < |changes| ==> UndoableAt(ss, changes[i], states[i + 1])
  }

  lemma EarlierLogged(ss: Schemas, changes: seq<Change>, states: seq<Tables>)
    requires changes != [] && Logged(changes, states)
    requires AllUndoable(ss, changes, states)
    ensures Logged(changes[..|changes| - 1], states[..|changes|])
    ensures AllUndoable(ss, changes[..|changes| - 1], states[..|changes|])
    ensures var n := |changes| - 1;
            Led(changes[n], states[n], states[n + 1]) && UndoableAt(ss, changes[n], states[n + 1])
  {
  }

  lemma {:induction false} UndoneRestores(ss: Schemas, changes: seq<Change>, states: seq<Tables>, now: Tables,
      gen: seq<Row>)
    requires (forall t :: ss(t).Valid()) && Logged(changes, states) && |gen| == |changes|
    requires Same(ss, now, states[|changes|])
    requires AllUndoable(ss, changes, states)
    ensures Same(ss, Undone(ss, now, changes, gen), states[0])
    decreases |changes|
  {
    if changes != [] {
      var n := |changes| - 1;
      var c := changes[n];
      EarlierLogged(ss, changes, states);
      UndoStep(ss, c, states[n], states[n + 1], now, gen[0]);
      var earlier := Step(ss, now, Formatted(ss(c.table), c, true), gen[0]);
      UndoneRestores(ss, changes[..n], states[..n + 1], earlier, gen[1..]);
    }
  }

  /** For every logged run of changes in which each change can be undone where it stands, replaying the
      inverse statements newest first restores the starting tables, up to generated columns. */
  lemma UndoRestores(ss: Schemas, changes: seq<Change>, states: seq<Tables>, gen: seq<Row>)
    requires (forall t :: ss(t).Valid()) && Logged(changes, states) && |gen| == |changes|
    requires AllUndoable(ss, changes, states)
    ensures Same(ss, Applied(ss, states[|changes|], Recreated(ss, NewestFirst(changes), true), gen), states[0])
  {
    UndoneRestores(ss, changes, states, states[|changes|], gen);
    AppliedIsUndone(ss, states[|changes|], changes, gen);
  }

  // Replaying forwards --------------------------------------------------------------------------------------

  /** The change that leads back. */
  function Inverse(c: Change): Change {
    match c
    case Insert(t, r) => Delete(t, r)
    case Delete(t, r) => Insert(t, r)
    case Update(t, o, n) => Update(t, n, o)
  }

  lemma InverseHappened(c: Change, rows: seq<Row>, rows': seq<Row>)
    ensures Happened(c, rows, rows') <==> Happened(Inverse(c), rows', rows)
  {
  }

  /** The forward statement of a change, on any table that equals the one before it up to generated columns,
      gives the table after it if and only if the inverse change could be undone: exact, for every change. */
  lemma ReplayIff(s: Schema, c: Change, rows: seq<Row>, rows': seq<Row>, now: seq<Row>, gen: Row)
    requires s.Valid() && Happened(c, rows, rows') && Bag(s, now) == Bag(s, rows)
    ensures Bag(s, Executed(s, now, Formatted(s, c, false), gen)) == Bag(s, rows') <==> Undoable(s, Inverse(c), rows)
  {
    InverseHappened(c, rows, rows');
    match c
    case Insert(t, r) => UndoDelete(s, t, r, rows', rows, now, gen);
    case Delete(t, r) => UndoInsert(s, t, r, rows', rows, now, gen);
    case Update(t, o, n) => UndoUpdate(s, t, n, o, rows', rows, now, gen);
  }

  /** Every change can be replayed where it stands. */
  ghost predicate AllReplayable(ss: Schemas, changes: seq<Change>, states: seq<Tables>) {
    && |states| == |changes| + 1
    && forall i {:trigger changes[i]} :: 0 <= i < |changes| ==>
         Undoable(ss(changes[i].table), Inverse(changes[i]), Rows(states[i], changes[i].table))
  }

  lemma ReplayStep(ss: Schemas, c: Change, db: Tables, db': Tables, now: Tables, gen: Row)
    requires ss(c.table).Valid() && Led(c, db, db') && Same(ss, now, db)
    requires Undoable(ss(c.table), Inverse(c), Rows(db, c.table))
    ensures Same(ss, Step(ss, now, Formatted(ss(c.table), c, false), gen), db')
  {
    var s, t := ss(c.table), c.table;
    var q := Formatted(s, c, false);
    assert q.table == t && SameTable(ss, now, db, t);
    ReplayIff(s, c, Rows(db, t), Rows(db', t), Rows(now, t), gen);
    StepTouchesOne(ss, now, q, gen);
    var after := Step(ss, now, q, gen);
    forall u ensures SameTable(ss, after, db', u) {
      assert SameTable(ss, now, db, u);
      if u != t { assert Rows(db', u) == Rows(db, u) && Rows(after, u) == Rows(now, u); }
    }
  }

  /** For every logged run in which each change can be replayed where it stands, the forward statements, oldest
      first, lead from the starting tables to the final ones, up to generated columns. */
  lemma {:induction false} ReplayRepeats(ss: Schemas, changes: seq<Change>, states: seq<Tables>, gen: seq<Row>)
    requires (forall t :: ss(t).Valid()) && Logged(changes, states) && |gen| == |changes|
    requires AllReplayable(ss, changes, states)
    ensures Same(ss, Applied(ss, states[0], Recreated(ss, changes, false), gen), states[|changes|])
    decreases |changes|
  {
    if changes != [] {
      var n := |changes| - 1;
      var c := changes[n];
      assert AllReplayable(ss, changes[..n], states[..n + 1]) && Logged(changes[..n], states[..n + 1]);
      ReplayRepeats(ss, changes[..n], states[..n + 1], gen[..n]);
      assert Recreated(ss, changes, false)[..n] == Recreated(ss, changes[..n], false);
      var now := Applied(ss, states[0], Recreated(ss, changes[..n], false), gen[..n]);
      ReplayStep(ss, c, states[n], states[n + 1], now, gen[n]);
    }
  }
}
