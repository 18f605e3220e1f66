/** Models the ids that `MapperBase.init` of src/modules/interfaces.ts builds: `generateId`, `entityId` and
    `idFields`, which join and split cloud columns at '|'. */
module IdCodec {

  datatype Result<T> = Ok(value: T) | Err

  /** The properties of an object that are set; an absent property reads as undefined. */
  type Fields = map<string, string>

  function Join(parts: seq<string>): string {
    if parts == [] then "" else if |parts| == 1 then parts[0] else parts[0] + "|" + Join(parts[1..])
  }

  function Split(s: string): (parts: seq<string>)
    ensures parts != []
  {
    if s == "" then [""]
    else
      var rest := Split(s[1..]);
      if s[0] == '|' then [""] + rest else [[s[0]] + rest[0]] + rest[1..]
  }

  /** A property inside a joined list: undefined prints as nothing. */
  function Part(f: Fields, col: string): string { if col in f then f[col] else "" }

  /** A property coerced to a string on its own. */
  function Coerced(f: Fields, col: string): string { if col in f then f[col] else "undefined" }

  function Parts(f: Fields, cols: seq<string>): (ps: seq<string>)
    ensures |ps| == |cols| && forall i :: 0 <= i < |ps| ==> ps[i] == Part(f, cols[i])
  {
    seq(|cols|, i requires 0 <= i < |cols| => Part(f, cols[i]))
  }

  /** A mapper's id columns: its cloud columns, if the entity declares any, and its primary column. */
  datatype Mapper = Mapper(cloudColumns: Result<seq<string>>, primary: string) {
    predicate Valid() {
      cloudColumns.Ok? ==>
        var cols := cloudColumns.value;
        forall i, j :: 0 <= i < j < |cols| ==> cols[i] != cols[j]
    }

    function GenerateId(f: Fields): Result<string> {
      match cloudColumns
      case Ok(cols) =>
        if |f| != |cols| || !(forall k :: k in f ==> k in cols) then Err
        else
          var out := Join(Parts(f, cols));
          Ok(if out == "" then Coerced(f, primary) else out)
      case Err => if |f| != 1 || !(forall k :: k in f ==> k == primary) then Err else Ok(Coerced(f, primary))
    }

    function EntityId(e: Fields): string {
      match cloudColumns
      case Ok(cols) =>
        if exists i :: 0 <= i < |cols| && Part(e, cols[i]) == "" then Coerced(e, primary)
        else
          var out := Join(Parts(e, cols));
          if out == "" then Coerced(e, primary) else out
      case Err => Coerced(e, primary)
    }

    function IdFields(id: string): Fields {
      var parts := Split(id);
      match cloudColumns
      case Ok(cols) => Filled(cols, parts)
      case Err => map[primary := parts[|parts| - 1]]
    }

    /** `cloudColumns.forEach((cc, i) => (fields[cc] = splittedId[i]))` as a loop. */
    method FillFields(id: string) returns (fields: Fields)
      requires cloudColumns.Ok?
      ensures fields == IdFields(id)
    {
      var cols, splitted := cloudColumns.value, Split(id);
      fields := map[];
      for i := 0 to |cols|
        invariant fields == Filled(cols[..i], splitted)
      {
        assert cols[..i + 1][..i] == cols[..i];
        fields := if i < |splitted| then fields[cols[i] := splitted[i]] else fields - {cols[i]};
      }
      assert cols[..|cols|] == cols;
    }
  }

  /** Column i gets part i; a column without a part is set to undefined. */
  function Filled(cols: seq<string>, parts: seq<string>): Fields {
    if cols == [] then map[]
    else
      var n := |cols| - 1;
      var f := Filled(cols[..n], parts);
      if n < |parts| then f[cols[n] := parts[n]] else f - {cols[n]}
  }

  // Joining and splitting --------------------------------------------------------------------------------

  lemma {:induction false} JoinSplit(s: string)
    ensures Join(Split(s)) == s
  {
    if s != "" {
      JoinSplit(s[1..]);
      var rest := Split(s[1..]);
      if s[0] == '|' {
        assert ([""] + rest)[1..] == rest;
        assert "" + "|" + s[1..] == s;
      } else {
        var parts := [[s[0]] + rest[0]] + rest[1..];
        assert parts[1..] == rest[1..];
        assert [s[0]] + s[1..] == s;
        if |rest| > 1 { assert parts[0] + "|" + Join(rest[1..]) == [s[0]] + (rest[0] + "|" + Join(rest[1..])); }
      }
    }
  }

  /** A bar splits. */
  lemma {:induction false} SplitAtBar(a: string, b: string)
    requires '|' !in a
    ensures Split(a + "|" + b) == [a] + Split(b)
    decreases |a|
  {
    if a == "" {
      assert a + "|" + b == "|" + b;
      assert ("|" + b)[1..] == b;
    } else {
      assert (a + "|" + b)[1..] == a[1..] + "|" + b;
      SplitAtBar(a[1..], b);
      assert [a[0]] + a[1..] == a;
      assert ([a[1..]] + Split(b))[1..] == Split(b);
    }
  }

  lemma {:induction false} SplitPlain(a: string)
    requires '|' !in a
    ensures Split(a) == [a]
  {
    if a != "" {
      SplitPlain(a[1..]);
      assert [a[0]] + a[1..] == a;
    }
  }

  lemma {:induction false} SplitJoin(parts: seq<string>)
    requires parts != [] && forall p :: p in parts ==> '|' !in p
    ensures Split(Join(parts)) == parts
  {
    assert parts[0] in parts;
    if |parts| == 1 {
      SplitPlain(parts[0]);
    } else {
      SplitJoin(parts[1..]);
      SplitAtBar(parts[0], Join(parts[1..]));
    }
  }

  lemma {:induction false} SplitParts(s: string)
    ensures forall p :: p in Split(s) ==> '|' !in p
  {
    if s != "" {
      SplitParts(s[1..]);
      var rest := Split(s[1..]);
      assert rest[0] in rest;
      forall p | p in Split(s) ensures '|' !in p {
        assert p == "" || p == [s[0]] + rest[0] || p in rest;
      }
    }
  }

  lemma JoinNonempty(parts: seq<string>)
    requires |parts| > 1 || (|parts| == 1 && parts[0] != "")
    ensures Join(parts) != ""
  {
  }

  // Round trips ---------------------------------------------------------------------------------------------

  lemma {:induction false} FilledAt(cols: seq<string>, parts: seq<string>, i: nat)
    requires (forall a, b :: 0 <= a < b < |cols| ==> cols[a] != cols[b]) && i < |cols|
    ensures cols[i] in Filled(cols, parts) <==> i < |parts|
    ensures i < |parts| ==> Filled(cols, parts)[cols[i]] == parts[i]
    decreases |cols|
  {
    if i < |cols| - 1 { FilledAt(cols[..|cols| - 1], parts, i); }
  }

  lemma {:induction false} FilledKeys(cols: seq<string>, parts: seq<string>)
    ensures forall k :: k in Filled(cols, parts) ==> k in cols
  {
    if cols != [] { FilledKeys(cols[..|cols| - 1], parts); }
  }

  function Elements(cols: seq<string>): set<string> { set c | c in cols }

  lemma {:induction false} DistinctSize(cols: seq<string>)
    requires forall a, b :: 0 <= a < b < |cols| ==> cols[a] != cols[b]
    ensures |Elements(cols)| == |cols|
  {
    if cols != [] {
      var n := |cols| - 1;
      DistinctSize(cols[..n]);
      assert Elements(cols) == Elements(cols[..n]) + {cols[n]};
    }
  }

  lemma SubsetOfSameSize(a: set<string>, b: set<string>)
    requires a <= b && |a| == |b|
    ensures a == b
  {
    assert |b - a| == |b| - |a|;
  }

  /** Accepted fields are exactly the cloud columns. */
  lemma AcceptedKeys(m: Mapper, f: Fields)
    requires m.Valid() && m.cloudColumns.Ok? && m.GenerateId(f).Ok?
    ensures f.Keys == Elements(m.cloudColumns.value)
  {
    DistinctSize(m.cloudColumns.value);
    SubsetOfSameSize(f.Keys, Elements(m.cloudColumns.value));
  }

  predicate Plain(f: Fields) { forall k :: k in f ==> '|' !in f[k] }

  /** The first value with a bar is cut short by the split. */
  lemma BarBreaks(m: Mapper, f: Fields, parts: seq<string>, id: string, i: nat)
    requires m.Valid() && m.cloudColumns.Ok? && i < |m.cloudColumns.value|
    requires m.cloudColumns.value[i] in f && '|' in f[m.cloudColumns.value[i]]
    ensures m.IdFields(id) != f
  {
    var cols := m.cloudColumns.value;
    SplitParts(id);
    FilledAt(cols, Split(id), i);
    if i < |Split(id)| { assert Split(id)[i] in Split(id); }
  }

  /** Accepted fields come back from their id if and only if no value contains a bar and the values do not join
      to nothing; with nothing to join, they come back only if there is no column or it is the primary one. */
  lemma FieldsRoundTrip(m: Mapper, f: Fields)
    requires m.Valid() && m.cloudColumns.Ok? && m.GenerateId(f).Ok?
    ensures m.IdFields(m.GenerateId(f).value) == f <==>
            Plain(f) && (Join(Parts(f, m.cloudColumns.value)) != "" || m.cloudColumns.value == []
                         || m.cloudColumns.value == [m.primary])
  {
    if Join(Parts(f, m.cloudColumns.value)) != "" { JoinedRoundTrip(m, f); } else { EmptyRoundTrip(m, f); }
  }

  lemma EmptyRoundTrip(m: Mapper, f: Fields)
    requires m.Valid() && m.cloudColumns.Ok? && m.GenerateId(f).Ok? && Join(Parts(f, m.cloudColumns.value)) == ""
    ensures Plain(f)
    ensures m.IdFields(m.GenerateId(f).value) == f <==>
            m.cloudColumns.value == [] || m.cloudColumns.value == [m.primary]
  {
    var cols := m.cloudColumns.value;
    AcceptedKeys(m, f);
    if |cols| > 0 {
      var parts := Parts(f, cols);
      if |cols| > 1 || parts[0] != "" {
        JoinNonempty(parts);
        assert false;
      }
      assert cols == [cols[0]] && f == map[cols[0] := ""];
      SplitPlain("undefined");
      FilledAt(cols, Split(m.GenerateId(f).value), 0);
      FilledKeys(cols, Split(m.GenerateId(f).value));
    }
  }

  lemma JoinedRoundTrip(m: Mapper, f: Fields)
    requires m.Valid() && m.cloudColumns.Ok? && m.GenerateId(f).Ok?
    requires Join(Parts(f, m.cloudColumns.value)) != ""
    ensures m.IdFields(m.GenerateId(f).value) == f <==> Plain(f)
  {
    var cols := m.cloudColumns.value;
    var parts := Parts(f, cols);
    AcceptedKeys(m, f);
    if Plain(f) {
      SplitJoin(parts);
      FilledKeys(cols, parts);
      var back := m.IdFields(m.GenerateId(f).value);
      forall k ensures k in back <==> k in f
               ensures k in back && k in f ==> back[k] == f[k]
      {
        if k in f {
          var i :| 0 <= i < |cols| && cols[i] == k;
          FilledAt(cols, parts, i);
        }
      }
    } else {
      var k :| k in f && '|' in f[k];
      assert k in Elements(cols);
      var i :| 0 <= i < |cols| && cols[i] == k;
      BarBreaks(m, f, parts, m.GenerateId(f).value, i);
    }
  }

  /** Plain fields with different values have different ids. */
  lemma GenerateIdInjective(m: Mapper, f: Fields, g: Fields)
    requires m.Valid() && m.cloudColumns.Ok? && Plain(f) && Plain(g)
    requires m.GenerateId(f).Ok? && m.GenerateId(f) == m.GenerateId(g)
    requires Join(Parts(f, m.cloudColumns.value)) != "" && Join(Parts(g, m.cloudColumns.value)) != ""
    ensures f == g
  {
    FieldsRoundTrip(m, f);
    FieldsRoundTrip(m, g);
  }

  /** An id with one non-empty part per column comes back from its fields. */
  lemma IdRoundTrip(m: Mapper, id: string)
    requires m.Valid() && m.cloudColumns.Ok? && |Split(id)| == |m.cloudColumns.value| && id != ""
    ensures m.GenerateId(m.IdFields(id)) == Ok(id)
  {
    var cols, parts := m.cloudColumns.value, Split(id);
    var f := m.IdFields(id);
    FilledKeys(cols, parts);
    forall i | 0 <= i < |cols| ensures cols[i] in f && f[cols[i]] == parts[i] { FilledAt(cols, parts, i); }
    assert f.Keys == Elements(cols);
    DistinctSize(cols);
    assert |f| == |f.Keys|;
    assert Parts(f, cols) == parts;
    JoinSplit(id);
  }

  /** The id of an entity whose cloud columns are all set is the one generated from these columns. */
  lemma EntityIdIsGenerated(m: Mapper, e: Fields, f: Fields)
    requires m.Valid() && m.cloudColumns.Ok? && m.cloudColumns.value != []
    requires forall c :: c in m.cloudColumns.value ==> c in e && e[c] != ""
    requires f == map c | c in m.cloudColumns.value :: e[c]
    ensures m.GenerateId(f) == Ok(m.EntityId(e))
  {
    var cols := m.cloudColumns.value;
    DistinctSize(cols);
    assert f.Keys == Elements(cols);
    assert |f| == |f.Keys|;
    forall i | 0 <= i < |cols| ensures Part(e, cols[i]) == Part(f, cols[i]) != "" { assert cols[i] in cols; }
    assert Parts(e, cols) == Parts(f, cols);
    JoinNonempty(Parts(f, cols));
  }

  /** An entity of the cloud: all its cloud columns are set. */
  predicate Created(m: Mapper, e: Fields) {
    m.cloudColumns.Ok? && m.cloudColumns.value != [] && forall c :: c in m.cloudColumns.value ==> c in e && e[c] != ""
  }

  /** Any other entity, one that was not created yet or whose mapper has no cloud columns, has its primary value
      as its id. */
  lemma UncreatedIsPrimary(m: Mapper, e: Fields)
    requires !Created(m, e)
    ensures m.EntityId(e) == if m.primary in e then e[m.primary] else "undefined"
  {
    if m.cloudColumns.Ok? && m.cloudColumns.value != [] {
      var cols := m.cloudColumns.value;
      var c :| c in cols && (c !in e || e[c] == "");
      var i :| 0 <= i < |cols| && cols[i] == c;
      assert Part(e, cols[i]) == "";
    }
  }

  /** Entities that were not created never share an id when their primary values differ. */
  lemma UncreatedApart(m: Mapper, e: Fields, f: Fields)
    requires !Created(m, e) && !Created(m, f) && m.primary in e && m.primary in f && e[m.primary] != f[m.primary]
    ensures m.EntityId(e) != m.EntityId(f)
  {
    UncreatedIsPrimary(m, e);
    UncreatedIsPrimary(m, f);
  }

  /** Created entities without bars share an id only when their cloud columns are equal. */
  lemma CreatedApart(m: Mapper, e: Fields, f: Fields)
    requires m.Valid() && Created(m, e) && Created(m, f) && m.EntityId(e) == m.EntityId(f)
    requires forall c :: c in m.cloudColumns.value ==> '|' !in e[c] && '|' !in f[c]
    ensures forall c :: c in m.cloudColumns.value ==> e[c] == f[c]
  {
    var cols := m.cloudColumns.value;
    var a, b := map c | c in cols :: e[c], map c | c in cols :: f[c];
    EntityIdIsGenerated(m, e, a);
    EntityIdIsGenerated(m, f, b);
    assert cols[0] in cols;
    JoinedParts(m, a);
    JoinedParts(m, b);
    GenerateIdInjective(m, a, b);
    forall c | c in cols ensures e[c] == f[c] { assert a[c] == b[c]; }
  }

  lemma JoinedParts(m: Mapper, f: Fields)
    requires Created(m, f)
    ensures Join(Parts(f, m.cloudColumns.value)) != ""
  {
    var cols := m.cloudColumns.value;
    assert cols[0] in cols;
    JoinNonempty(Parts(f, cols));
  }

  /** With two cloud columns or more, an entity that was created never shares its id with one that was not. */
  lemma CreatedNeverUncreated(m: Mapper, e: Fields, f: Fields)
    requires Created(m, e) && |m.cloudColumns.value| >= 2 && !Created(m, f) && m.primary in f && '|' !in f[m.primary]
    ensures m.EntityId(e) != m.EntityId(f)
  {
    UncreatedIsPrimary(m, f);
    var parts := Parts(e, m.cloudColumns.value);
    JoinedParts(m, e);
    forall i | 0 <= i < |parts| ensures parts[i] != "" {
      assert m.cloudColumns.value[i] in m.cloudColumns.value;
    }
    assert Join(parts)[|parts[0]|] == '|';
  }

  /** generateId accepts exactly the cloud columns, or exactly the primary one when there are none. */
  lemma AcceptsIff(m: Mapper, f: Fields)
    requires m.Valid()
    ensures m.GenerateId(f).Ok? <==>
            f.Keys == match m.cloudColumns case Ok(cols) => (set c | c in cols) case Err => {m.primary}
  {
    assert |f| == |f.Keys|;
    match m.cloudColumns
    case Ok(cols) =>
      DistinctSize(cols);
      assert Elements(cols) == set c | c in cols;
      if m.GenerateId(f).Ok? { AcceptedKeys(m, f); }
    case Err =>
      if m.GenerateId(f).Ok? { SubsetOfSameSize(f.Keys, {m.primary}); }
  }

  lemma {:induction false} SplitEnd(a: string, b: string)
    requires '|' !in b
    ensures Split(a + "|" + b)[|Split(a + "|" + b)| - 1] == b
    decreases |a|
  {
    var s := a + "|" + b;
    if a == "" {
      assert s[1..] == b && s[0] == '|';
      SplitPlain(b);
    } else {
      assert s[1..] == a[1..] + "|" + b;
      SplitEnd(a[1..], b);
      assert |Split(s[1..])| > 1 by {
        JoinSplit(s[1..]);
        SplitParts(s[1..]);
        assert s[1..][|a| - 1] == '|';
        assert Split(s[1..])[0] in Split(s[1..]);
      }
    }
  }

  /** Without cloud columns the field of an id is what follows its last bar. */
  lemma PrimaryFollowsLastBar(m: Mapper, a: string, b: string)
    requires m.cloudColumns.Err? && '|' !in b
    ensures m.IdFields(a + "|" + b) == map[m.primary := b] && m.IdFields(b) == map[m.primary := b]
  {
    SplitEnd(a, b);
    SplitPlain(b);
  }

  /** Without cloud columns an id is the last part of the primary value: it survives only without a bar. */
  lemma PrimaryRoundTrip(m: Mapper, f: Fields)
    requires m.cloudColumns.Err? && m.GenerateId(f).Ok? && m.primary in f
    ensures m.IdFields(m.GenerateId(f).value) == f <==> '|' !in f[m.primary]
  {
    var v := f[m.primary];
    SplitParts(v);
    assert Split(v)[|Split(v)| - 1] in Split(v);
    assert f == map[m.primary := v] by {
      assert |f.Keys| == 1;
      SubsetOfSameSize({m.primary}, f.Keys);
    }
    if '|' !in v { SplitPlain(v); }
  }
}
