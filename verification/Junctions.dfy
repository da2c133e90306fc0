/**
 Many-to-many inference (internal/database/gen/relation.go): pure junction
 tables, the reverse fields they absorb, and the join names of explicit
 many-to-many relations.
 */
module Junctions {
  import opened Wrappers
  import opened Text
  import opened KeyedMaps
  import opened Relations
  import opened Schema
  import opened Joins

  const META_COLUMNS := {"created_at", "updated_at", "deleted_at"}

  // ---- the foreign keys of a table ----

  predicate IsForeignKey(r: Relation, table: string) { !r.IsM2M() && r.sourceTable == table }

  function ForeignKeys(rels: seq<Relation>, table: string): (fks: seq<Relation>)
    ensures forall fk :: fk in fks ==> fk in rels && IsForeignKey(fk, table)
  {
    if rels == [] then []
    else
      var last := rels[|rels| - 1];
      ForeignKeys(rels[..|rels| - 1], table) + (if IsForeignKey(last, table) then [last] else [])
  }

  method GroupForeignKeys(rels: seq<Relation>) returns (fksByTable: map<string, seq<Relation>>)
    ensures forall t :: t in fksByTable <==> ForeignKeys(rels, t) != []
    ensures forall t :: t in fksByTable ==> fksByTable[t] == ForeignKeys(rels, t)
  {
    fksByTable := map[];
    for i := 0 to |rels|
      invariant forall t :: t in fksByTable <==> ForeignKeys(rels[..i], t) != []
      invariant forall t :: t in fksByTable ==> fksByTable[t] == ForeignKeys(rels[..i], t)
    {
      assert rels[..i + 1][..i] == rels[..i];
      if !rels[i].IsM2M() {
        var table := rels[i].sourceTable;
        fksByTable := fksByTable[table := (if table in fksByTable then fksByTable[table] else []) + [rels[i]]];
      }
    }
    assert rels[..|rels|] == rels;
  }

  // ---- fkColumnsAreCompleteKey ----

  function GroupName(col: Column): string {
    if col.uniqueGroup == "" then "__single__:" + col.name else col.uniqueGroup
  }

  function TaggedWith(columns: seq<Column>, g: string): set<string> {
    set i | 0 <= i < |columns| && columns[i].unique && GroupName(columns[i]) == g :: columns[i].name
  }

  ghost predicate CompleteKey(columns: seq<Column>, fkCols: set<string>) {
    && fkCols != {}
    && (PrimaryKey(columns) == fkCols || exists g :: TaggedWith(columns, g) == fkCols)
  }

  lemma {:induction false} TaggedStep(columns: seq<Column>, i: nat, g: string)
    requires i < |columns|
    ensures TaggedWith(columns[..i + 1], g) == TaggedWith(columns[..i], g)
            + (if columns[i].unique && GroupName(columns[i]) == g then {columns[i].name} else {})
  {
    var s := columns[..i + 1];
    assert s[i] == columns[i];
    assert forall k :: 0 <= k < i ==> s[k] == columns[..i][k];
  }

  /** sameStringSet: equal and not empty. */
  lemma {:induction false} SameSize(a: set<string>, b: set<string>)
    requires |a| == |b| && a <= b
    ensures a == b
  {
    assert b == a + (b - a);
    assert |b - a| == 0;
  }

  method SameStringSet(a: set<string>, b: set<string>) returns (r: bool)
    ensures r <==> a == b && a != {}
  {
    if |a| == 0 || |a| != |b| { return false; }
    var pending := a;
    while pending != {}
      invariant pending <= a && a - pending <= b
      decreases pending
    {
      var k :| k in pending;
      if k !in b { return false; }
      pending := pending - {k};
    }
    assert a - {} == a;
    SameSize(a, b);
    return true;
  }

  method FkColumnsAreCompleteKey(columns: seq<Column>, fkCols: set<string>) returns (r: bool)
    ensures r <==> CompleteKey(columns, fkCols)
  {
    var pkSet: set<string> := {};
    var uniqueGroups: map<string, set<string>> := map[];
    for i := 0 to |columns|
      invariant pkSet == PrimaryKey(columns[..i])
      invariant forall g :: g in uniqueGroups ==> uniqueGroups[g] == TaggedWith(columns[..i], g)
      invariant forall g :: g !in uniqueGroups ==> TaggedWith(columns[..i], g) == {}
    {
      var col := columns[i];
      UniquenessStep(columns, i);
      forall g ensures TaggedWith(columns[..i + 1], g) == TaggedWith(columns[..i], g)
                       + (if col.unique && GroupName(col) == g then {col.name} else {}) { TaggedStep(columns, i, g); }
      if col.primaryKey { pkSet := pkSet + {col.name}; }
      if col.unique {
        var g := GroupName(col);
        uniqueGroups := uniqueGroups[g := (if g in uniqueGroups then uniqueGroups[g] else {}) + {col.name}];
      }
    }
    assert columns[..|columns|] == columns;
    var same := SameStringSet(pkSet, fkCols);
    if same { return true; }
    var pending := uniqueGroups.Keys;
    while pending != {}
      invariant pending <= uniqueGroups.Keys
      invariant forall g :: g in uniqueGroups && g !in pending ==> uniqueGroups[g] != fkCols || fkCols == {}
      decreases pending
    {
      var g :| g in pending;
      same := SameStringSet(uniqueGroups[g], fkCols);
      if same { return true; }
      pending := pending - {g};
    }
    return false;
  }

  // ---- detectPureM2MTables ----

  function FkColumnSet(fks: seq<Relation>): set<string> {
    set i, c | 0 <= i < |fks| && c in Columns(fks[i].sourceColumn) :: c
  }

  ghost predicate HasExtra(columns: seq<Column>, fkCols: set<string>) {
    exists i :: 0 <= i < |columns| && columns[i].name !in fkCols && columns[i].name !in META_COLUMNS
  }

  ghost predicate IsJunction(tables: Tables, fks: seq<Relation>, table: string) {
    && |fks| == 2 && fks[0].targetTable != fks[1].targetTable && table in tables
    && !HasExtra(tables[table], FkColumnSet(fks))
    && CompleteKey(tables[table], FkColumnSet(fks))
  }

  function JunctionRelation(naming: Naming, table: string, fks: seq<Relation>): (r: Relation)
    requires |fks| == 2
    ensures r.IsM2M()
  {
    var (left, right) := if LessEq(fks[0].targetTable, fks[1].targetTable) then (fks[0], fks[1]) else (fks[1], fks[0]);
    Relation(MANY_TO_MANY, table, left.targetTable, left.targetColumn, right.targetTable, right.targetColumn, "", "",
             false, naming.singular(naming.camel(left.targetTable)) + ['='] +
                 naming.singular(naming.camel(right.targetTable)), false)
  }

  ghost function JunctionTables(tables: Tables, rels: seq<Relation>): (js: set<string>)
    ensures forall t :: t in js ==> |ForeignKeys(rels, t)| == 2
  {
    set t | t in tables && IsJunction(tables, ForeignKeys(rels, t), t)
  }

  function FkKeys(rels: seq<Relation>, t: string): (keys: set<string>) {
    KeySet(KeyOf, ForeignKeys(rels, t))
  }

  /** The keys of the foreign keys that the junctions absorb. */
  function Suppressed(rels: seq<Relation>, junctions: set<string>): (keys: set<string>) {
    set t, k | t in junctions && k in FkKeys(rels, t) :: k
  }

  lemma {:induction false} TwoKeys<T>(key: T -> string, s: seq<T>)
    requires |s| == 2
    ensures KeySet(key, s) == {key(s[0]), key(s[1])}
  {
  }

  ghost function JunctionRelations(naming: Naming, rels: seq<Relation>, order: seq<string>): (m2m: seq<Relation>)
    requires forall t :: t in order ==> |ForeignKeys(rels, t)| == 2
    ensures |m2m| == |order|
    ensures forall i :: 0 <= i < |order| ==> m2m[i] == JunctionRelation(naming, order[i], ForeignKeys(rels, order[i]))
  {
    if order == [] then []
    else
      var n := |order| - 1;
      JunctionRelations(naming, rels, order[..n]) + [JunctionRelation(naming, order[n], ForeignKeys(rels, order[n]))]
  }

  /** `order` lists each member of `s` once. */
  ghost predicate Enumerates(order: seq<string>, s: set<string>) { multiset(order) == multiset(s) }

  /** One table of the range loop: is it a pure junction? */
  method CheckJunction(tables: Tables, table: string, fks: seq<Relation>) returns (yes: bool)
    ensures yes <==> IsJunction(tables, fks, table)
  {
    if |fks| != 2 || fks[0].targetTable == fks[1].targetTable || table !in tables { return false; }
    var cols := tables[table];
    var fkColSet: set<string> := {};
    for i := 0 to |fks|
      invariant fkColSet == FkColumnSet(fks[..i])
    {
      var names := SplitCompositeColumns(fks[i].sourceColumn);
      assert fks[..i + 1] == fks[..i] + [fks[i]];
      FkColumnStep(fks[..i], fks[i]);
      fkColSet := fkColSet + set c | c in names;
    }
    assert fks[..|fks|] == fks;
    var hasExtra := false;
    for i := 0 to |cols|
      invariant !hasExtra
      invariant forall k :: 0 <= k < i ==> cols[k].name in fkColSet || cols[k].name in META_COLUMNS
    {
      if cols[i].name in fkColSet || cols[i].name in META_COLUMNS { continue; }
      return false;
    }
    yes := FkColumnsAreCompleteKey(cols, fkColSet);
  }

  lemma {:induction false} FkColumnStep(fks: seq<Relation>, fk: Relation)
    ensures FkColumnSet(fks + [fk]) == FkColumnSet(fks) + set c | c in Columns(fk.sourceColumn)
  {
    var s := fks + [fk];
    forall c | c in FkColumnSet(s) ensures c in FkColumnSet(fks) || c in Columns(fk.sourceColumn) {
      var i :| 0 <= i < |s| && c in Columns(s[i].sourceColumn);
      assert i < |fks| ==> s[i] == fks[i];
    }
    forall c | c in FkColumnSet(fks) ensures c in FkColumnSet(s) {
      var i :| 0 <= i < |fks| && c in Columns(fks[i].sourceColumn);
      assert s[i] == fks[i];
    }
    assert s[|fks|] == fk;
  }

  lemma {:induction false} ForeignKeyListed(rels: seq<Relation>, t: string, fk: Relation)
    requires fk in rels && IsForeignKey(fk, t)
    ensures fk in ForeignKeys(rels, t)
  {
    var rest := rels[..|rels| - 1];
    assert rels == rest + [rels[|rels| - 1]];
    if fk != rels[|rels| - 1] { ForeignKeyListed(rest, t, fk); }
  }

  lemma {:induction false} AddToMultiset<T>(s: set<T>, x: T)
    requires x !in s
    ensures multiset(s + {x}) == multiset(s) + multiset{x}
  {
  }

  /** `junctions` are the grouped tables that pass IsJunction. */
  ghost predicate Decides(tables: Tables, fksByTable: map<string, seq<Relation>>, junctions: set<string>) {
    && junctions <= fksByTable.Keys
    && forall t {:trigger IsJunction(tables, fksByTable[t], t)} ::
         t in fksByTable ==> (t in junctions <==> IsJunction(tables, fksByTable[t], t))
  }

  method DecideTable(
    tables: Tables, fksByTable: map<string, seq<Relation>>, ghost junctions: set<string>, table: string)
    returns (yes: bool)
    requires Decides(tables, fksByTable, junctions) && table in fksByTable
    ensures yes <==> table in junctions
  {
    yes := CheckJunction(tables, table, fksByTable[table]);
  }

  /** The junction tables, in the order the range over fksByTable meets them. */
  method JunctionOrder(tables: Tables, fksByTable: map<string, seq<Relation>>, ghost junctions: set<string>)
    returns (order: seq<string>)
    requires Decides(tables, fksByTable, junctions)
    ensures Enumerates(order, junctions)
  {
    order := [];
    var pending := fksByTable.Keys;
    ghost var done: set<string> := {};
    while pending != {}
      invariant pending <= fksByTable.Keys && done == junctions - pending
      invariant multiset(order) == multiset(done)
      decreases pending
    {
      var table :| table in pending;
      var yes := DecideTable(tables, fksByTable, junctions, table);
      pending := pending - {table};
      if yes {
        AddToMultiset(done, table);
        order := order + [table];
        done := done + {table};
      }
    }
  }

  /** detectPureM2MTables: which tables are found is fixed, only their order is not. */
  method DetectPureM2MTables(naming: Naming, tables: Tables, rels: seq<Relation>)
    returns (m2m: seq<Relation>, suppress: set<string>, ghost order: seq<string>)
    ensures Enumerates(order, JunctionTables(tables, rels))
    ensures (forall t :: t in order ==> |ForeignKeys(rels, t)| == 2) && m2m == JunctionRelations(naming, rels, order)
    ensures suppress == Suppressed(rels, JunctionTables(tables, rels))
  {
    var fksByTable := GroupForeignKeys(rels);
    forall t ensures t in JunctionTables(tables, rels) <==> IsJunction(tables, ForeignKeys(rels, t), t) {
      JunctionMember(tables, rels, t);
    }
    var found := JunctionOrder(tables, fksByTable, JunctionTables(tables, rels));
    order := found;
    EnumeratedMembers(found, JunctionTables(tables, rels));
    assert Members(found) == JunctionTables(tables, rels);
    m2m := BuildJunctionRelations(naming, rels, fksByTable, found);
    suppress := BuildSuppress(rels, fksByTable, found);
  }

  ghost predicate JunctionKeys(rels: seq<Relation>, fksByTable: map<string, seq<Relation>>, order: seq<string>) {
    forall t :: t in order ==> t in fksByTable && fksByTable[t] == ForeignKeys(rels, t) && |fksByTable[t]| == 2
  }

  method BuildJunctionRelations(
    naming: Naming, ghost rels: seq<Relation>, fksByTable: map<string, seq<Relation>>, order: seq<string>)
    returns (m2m: seq<Relation>)
    requires JunctionKeys(rels, fksByTable, order)
    ensures m2m == JunctionRelations(naming, rels, order)
  {
    forall i | 0 <= i < |order| ensures order[i] in fksByTable && fksByTable[order[i]] == ForeignKeys(rels, order[i]) {
      assert order[i] in order;
    }
    m2m := BuildEach(naming, fksByTable, order, JunctionRelations(naming, rels, order));
  }

  /** The loop that appends one relation for each junction. */
  method BuildEach(
    naming: Naming, fksByTable: map<string, seq<Relation>>, order: seq<string>, ghost goal: seq<Relation>)
    returns (m2m: seq<Relation>)
    requires |goal| == |order| && forall i :: 0 <= i < |order| ==> order[i] in fksByTable && |fksByTable[order[i]]| == 2
    requires forall i :: 0 <= i < |order| ==> goal[i] == JunctionRelation(naming, order[i], fksByTable[order[i]])
    ensures m2m == goal
  {
    m2m := [];
    for i := 0 to |order|
      invariant m2m == goal[..i]
    {
      m2m := m2m + [JunctionRelation(naming, order[i], fksByTable[order[i]])];
    }
  }

  method BuildSuppress(ghost rels: seq<Relation>, fksByTable: map<string, seq<Relation>>, order: seq<string>)
    returns (suppress: set<string>)
    requires JunctionKeys(rels, fksByTable, order)
    ensures suppress == Suppressed(rels, Members(order))
  {
    suppress := {};
    for i := 0 to |order|
      invariant suppress == Suppressed(rels, Members(order[..i]))
    {
      assert order[i] in order;
      var fks := fksByTable[order[i]];
      assert FkKeys(rels, order[i]) == {KeyOf(fks[0]), KeyOf(fks[1])} by { TwoKeys(KeyOf, fks); }
      assert Members(order[..i + 1]) == Members(order[..i]) + {order[i]};
      suppress := suppress + {KeyOf(fks[0]), KeyOf(fks[1])};
    }
    assert order[..|order|] == order;
  }

  lemma {:induction false} EnumeratedMembers(order: seq<string>, s: set<string>)
    requires Enumerates(order, s)
    ensures forall t :: t in order <==> t in s
  {
    forall t ensures t in order <==> t in s { assert t in order <==> t in multiset(order); }
  }

  lemma {:induction false} JunctionMember(tables: Tables, rels: seq<Relation>, t: string)
    ensures t in JunctionTables(tables, rels) <==> IsJunction(tables, ForeignKeys(rels, t), t)
  {
  }

  // ---- applySkipReverse ----

  function SkipReverse(suppress: set<string>, r: Relation): Relation {
    if KeyOf(r) in suppress then r.(skipReverse := true) else r
  }

  function SkipReverseAll(suppress: set<string>, rels: seq<Relation>): (out: seq<Relation>)
    ensures |out| == |rels|
    ensures forall i :: 0 <= i < |rels| ==> out[i] == SkipReverse(suppress, rels[i])
  {
    seq(|rels|, i requires 0 <= i < |rels| => SkipReverse(suppress, rels[i]))
  }

  method ApplySkipReverse(rels: seq<Relation>, suppress: set<string>) returns (out: seq<Relation>)
    ensures out == SkipReverseAll(suppress, rels)
  {
    if |suppress| == 0 { return rels; }
    out := [];
    for i := 0 to |rels|
      invariant out == SkipReverseAll(suppress, rels)[..i]
    {
      var rel := rels[i];
      if KeyOf(rel) in suppress { rel := rel.(skipReverse := true); }
      out := out + [rel];
    }
  }

  // ---- resolveM2MJoins ----

  predicate Targets(fk: Relation, table: string, column: string) {
    fk.targetTable == table && Columns(fk.targetColumn) == Columns(column)
  }

  /** The last foreign key aimed at the given columns. */
  function LastMatch(fks: seq<Relation>, table: string, column: string): (m: Option<Relation>)
    ensures m.Some? ==> m.value in fks && Targets(m.value, table, column)
    ensures m.None? ==> forall fk :: fk in fks ==> !Targets(fk, table, column)
  {
    if fks == [] then None
    else
      var last := fks[|fks| - 1];
      if Targets(last, table, column) then Some(last) else LastMatch(fks[..|fks| - 1], table, column)
  }

  predicate PointsFrom(r: Relation, t: string, table: string, column: string) {
    IsForeignKey(r, t) && Targets(r, table, column)
  }

  lemma {:induction false} LastMatchNext(fks: seq<Relation>, fk: Relation, table: string, column: string)
    ensures LastMatch(fks + [fk], table, column) ==
            if Targets(fk, table, column) then Some(fk) else LastMatch(fks, table, column)
  {
    assert (fks + [fk])[..|fks|] == fks;
  }

  lemma {:induction false} MatchNext(rels: seq<Relation>, last: Relation, t: string, table: string, column: string)
    ensures LastMatch(ForeignKeys(rels + [last], t), table, column) ==
            if PointsFrom(last, t, table, column) then Some(last)
            else LastMatch(ForeignKeys(rels, t), table, column)
  {
    var fks := ForeignKeys(rels, t);
    assert (rels + [last])[..|rels|] == rels;
    if IsForeignKey(last, t) {
      assert ForeignKeys(rels + [last], t) == fks + [last];
      LastMatchNext(fks, last, table, column);
    } else {
      assert ForeignKeys(rels + [last], t) == fks;
    }
  }

  /** The foreign key found is the last relation of the table that points at the columns. */
  lemma {:induction false} LastMatchMeans(rels: seq<Relation>, t: string, table: string, column: string, j: nat)
    requires j < |rels| && PointsFrom(rels[j], t, table, column)
    requires forall k :: j < k < |rels| ==> !PointsFrom(rels[k], t, table, column)
    ensures LastMatch(ForeignKeys(rels, t), table, column) == Some(rels[j])
  {
    var n := |rels| - 1;
    assert rels == rels[..n] + [rels[n]];
    MatchNext(rels[..n], rels[n], t, table, column);
    if j < n {
      LastMatchMeans(rels[..n], t, table, column, j);
    }
  }

  function JoinSide(naming: Naming, fk: Relation, table: string): string {
    if fk.field != "" then fk.field else naming.singular(naming.camel(table))
  }

  function ResolveJoin(naming: Naming, rels: seq<Relation>, r: Relation): (out: GenResult<Relation>) {
    if !r.IsM2M() || r.m2mJoin != "" then Ok(r)
    else
      var fks := ForeignKeys(rels, r.through);
      match (LastMatch(fks, r.sourceTable, r.sourceColumn), LastMatch(fks, r.targetTable, r.targetColumn))
      case (Some(left), Some(right)) =>
        Ok(r.(m2mJoin := JoinSide(naming, left, r.sourceTable) + ['='] + JoinSide(naming, right, r.targetTable)))
      case _ => Err(JunctionKeysNotFound)
  }

  function ResolveJoins(naming: Naming, all: seq<Relation>, rels: seq<Relation>): (out: GenResult<seq<Relation>>)
    ensures out.Ok? ==> |out.value| == |rels|
    ensures out.Ok? ==> forall i :: 0 <= i < |rels| ==> Ok(out.value[i]) == ResolveJoin(naming, all, rels[i])
  {
    if rels == [] then Ok([])
    else match ResolveJoins(naming, all, rels[..|rels| - 1])
      case Err(e) => Err(e)
      case Ok(before) =>
        match ResolveJoin(naming, all, rels[|rels| - 1])
        case Err(e) => Err(e)
        case Ok(r) => Ok(before + [r])
  }

  lemma {:induction false} ResolveJoinsErr(naming: Naming, all: seq<Relation>, rels: seq<Relation>, n: nat)
    requires n <= |rels| && ResolveJoins(naming, all, rels[..n]).Err?
    ensures ResolveJoins(naming, all, rels) == ResolveJoins(naming, all, rels[..n])
  {
    if n == |rels| {
      assert rels[..n] == rels;
    } else {
      var rest := rels[..|rels| - 1];
      assert rest[..n] == rels[..n];
      ResolveJoinsErr(naming, all, rest, n);
    }
  }

  method ResolveOne(naming: Naming, ghost rels: seq<Relation>, fks: seq<Relation>, rel: Relation)
    returns (out: GenResult<Relation>)
    requires rel.IsM2M() && rel.m2mJoin == "" && fks == ForeignKeys(rels, rel.through)
    ensures out == ResolveJoin(naming, rels, rel)
  {
    var left := FindLast(fks, rel.sourceTable, rel.sourceColumn);
    var right := FindLast(fks, rel.targetTable, rel.targetColumn);
    if left.None? || right.None? { return Err(JunctionKeysNotFound); }
    var join := JoinSide(naming, left.value, rel.sourceTable) + ['='] + JoinSide(naming, right.value, rel.targetTable);
    return Ok(rel.(m2mJoin := join));
  }

  method FindLast(fks: seq<Relation>, table: string, column: string) returns (found: Option<Relation>)
    ensures found == LastMatch(fks, table, column)
  {
    found := None;
    for k := 0 to |fks|
      invariant found == LastMatch(fks[..k], table, column)
    {
      assert fks[..k + 1][..k] == fks[..k];
      if Targets(fks[k], table, column) { found := Some(fks[k]); }
    }
    assert fks[..|fks|] == fks;
  }

  method ResolveM2MJoins(naming: Naming, rels: seq<Relation>) returns (out: GenResult<seq<Relation>>)
    ensures out == ResolveJoins(naming, rels, rels)
  {
    var fksByTable := GroupForeignKeys(rels);
    var done: seq<Relation> := [];
    for i := 0 to |rels|
      invariant ResolveJoins(naming, rels, rels[..i]) == Ok(done)
    {
      assert rels[..i + 1][..i] == rels[..i];
      var rel := rels[i];
      if !rel.IsM2M() || rel.m2mJoin != "" {
        done := done + [rel];
      } else {
        var one := ResolveOne(naming, rels, if rel.through in fksByTable then fksByTable[rel.through] else [], rel);
        match one
        case Err(e) =>
          ResolveJoinsErr(naming, rels, rels, i + 1);
          return Err(e);
        case Ok(r) =>
          done := done + [r];
      }
    }
    assert rels[..|rels|] == rels;
    return Ok(done);
  }
}
