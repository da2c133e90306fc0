/**
 The join names of explicit many-to-many relations (resolveM2MJoins in
 internal/database/gen/relation.go) against the belongs-to fields that the
 junction's struct really has.
 */
module JoinNames {
  import opened Wrappers
  import opened Text
  import opened Relations
  import opened MergeLaws
  import opened Junctions
  import opened Emission

  lemma {:induction false} EmitContains(naming: Naming, table: string, rels: seq<Relation>, l: nat) returns (k: nat)
    requires l < |rels| && IsForeignKey(rels[l], table)
    ensures k < |Emit(naming, table, rels)| && Emit(naming, table, rels)[k].BelongsTo?
    ensures Emit(naming, table, rels)[k].name == FieldNames(naming, rels[l]).0
  {
    var n := |rels| - 1;
    if l < n { k := EmitContains(naming, table, rels[..n], l); } else { k := |Emit(naming, table, rels[..n])|; }
  }

  lemma {:induction false} LastMatchSame(fks: seq<Relation>, table: string, a: string, b: string)
    requires Columns(a) == Columns(b)
    ensures LastMatch(fks, table, a) == LastMatch(fks, table, b)
  {
    if fks != [] { LastMatchSame(fks[..|fks| - 1], table, a, b); }
  }

  /** Two foreign keys of one table that passed the merge have different field names. */
  lemma {:induction false} ForeignKeyNamesDiffer(naming: Naming, rels: seq<Relation>, table: string, l: nat, q: nat)
    requires MergeCheck(Claims(naming, rels), |rels|).Ok? && DistinctKeys(rels)
    requires l < |rels| && q < |rels| && l != q && IsForeignKey(rels[l], table) && IsForeignKey(rels[q], table)
    ensures FieldNames(naming, rels[l]).0 != FieldNames(naming, rels[q]).0
  {
    var claims := Claims(naming, rels);
    CheckMeans(claims, |rels|);
    var i, j := if l < q then l else q, if l < q then q else l;
    assert KeyOf(rels[i]) != KeyOf(rels[j]);
    assert !Clash(claims[i], claims[j]);
    assert table + ['.'] + FieldNames(naming, rels[i]).0 in claims[i].slots;
    assert table + ['.'] + FieldNames(naming, rels[j]).0 in claims[j].slots;
  }

  ghost predicate BelongsToNamed(fields: seq<StructField>, name: string) {
    exists k :: 0 <= k < |fields| && fields[k].BelongsTo? && fields[k].name == name
  }

  /** A belongs-to field comes from a foreign key of the table. */
  lemma {:induction false} EmittedBelongsTo(naming: Naming, table: string, rels: seq<Relation>, k: nat) returns (l: nat)
    requires k < |Emit(naming, table, rels)| && Emit(naming, table, rels)[k].BelongsTo?
    ensures l < |rels| && IsForeignKey(rels[l], table)
    ensures Emit(naming, table, rels)[k].name == FieldNames(naming, rels[l]).0
  {
    var n := |rels| - 1;
    if k < |Emit(naming, table, rels[..n])| { l := EmittedBelongsTo(naming, table, rels[..n], k); } else { l := n; }
  }

  lemma {:induction false} ForeignKeyEmitted(
    naming: Naming, merged: seq<Relation>, out: seq<Relation>, table: string, fk: Relation)
    returns (l: nat)
    requires ResolveJoins(naming, merged, merged) == Ok(out) && fk in ForeignKeys(merged, table)
    ensures l < |merged| && merged[l] == fk
    ensures BelongsToNamed(Emit(naming, table, out), FieldNames(naming, fk).0)
  {
    l :| 0 <= l < |merged| && merged[l] == fk;
    assert Ok(out[l]) == ResolveJoin(naming, merged, merged[l]);
    var k := EmitContains(naming, table, out, l);
  }

  /** resolveM2MJoins and the struct writer agree on the name of the foreign key's field. */
  predicate SideNamed(naming: Naming, fk: Relation, end: string) {
    fk.field != "" || fk.sourceTable != end || naming.singular(naming.camel(end)) == "Parent"
  }

  lemma {:induction false} SideExact(naming: Naming, fk: Relation, end: string)
    requires !fk.IsM2M() && fk.targetTable == end
    ensures JoinSide(naming, fk, end) == FieldNames(naming, fk).0 <==> SideNamed(naming, fk, end)
  {
  }

  /**
   The join of r is built from two foreign keys whose belongs-to fields the
   junction's struct has. Each half of the join is that field's name exactly when
   the key has a field name of its own, the junction is not the end the key
   points at, or that end is called Parent. The two fields coincide exactly when
   both ends of r are the same columns of the same table.
   */
  ghost predicate JoinExact(naming: Naming, out: seq<Relation>, r: Relation, leftFk: Relation, rightFk: Relation) {
    var fields := Emit(naming, r.through, out);
    var left, right := JoinSide(naming, leftFk, r.sourceTable), JoinSide(naming, rightFk, r.targetTable);
    && r.m2mJoin == left + ['='] + right
    && leftFk in ForeignKeys(out, r.through) && Targets(leftFk, r.sourceTable, r.sourceColumn)
    && rightFk in ForeignKeys(out, r.through) && Targets(rightFk, r.targetTable, r.targetColumn)
    && BelongsToNamed(fields, FieldNames(naming, leftFk).0) && BelongsToNamed(fields, FieldNames(naming, rightFk).0)
    && (left == FieldNames(naming, leftFk).0 <==> SideNamed(naming, leftFk, r.sourceTable))
    && (right == FieldNames(naming, rightFk).0 <==> SideNamed(naming, rightFk, r.targetTable))
    && (FieldNames(naming, leftFk).0 == FieldNames(naming, rightFk).0 <==>
          r.sourceTable == r.targetTable && Columns(r.sourceColumn) == Columns(r.targetColumn))
  }

  /** Resolving joins leaves the foreign keys as they were. */
  lemma {:induction false} ForeignKeysResolved(naming: Naming, all: seq<Relation>, rels: seq<Relation>, t: string)
    requires ResolveJoins(naming, all, rels).Ok?
    ensures ForeignKeys(ResolveJoins(naming, all, rels).value, t) == ForeignKeys(rels, t)
  {
    if rels != [] {
      var n := |rels| - 1;
      ForeignKeysResolved(naming, all, rels[..n], t);
      var before := ResolveJoins(naming, all, rels[..n]).value;
      var last := ResolveJoin(naming, all, rels[n]).value;
      assert ResolveJoins(naming, all, rels).value == before + [last];
      assert (before + [last])[..n] == before;
    }
  }

  /** Every explicit many-to-many relation that the merge lists and the resolver completes has such a join. */
  lemma {:induction false} JoinNamesExact(naming: Naming, list: seq<Relation>, i: nat)
    returns (leftFk: Relation, rightFk: Relation)
    requires forall r :: r in list ==> ValidRelation(r)
    requires Merge(naming, [], list).Ok?
    requires var merged := Merge(naming, [], list).value;
             && ResolveJoins(naming, merged, merged).Ok? && i < |merged|
             && merged[i].IsM2M() && merged[i].m2mJoin == ""
    ensures var merged := Merge(naming, [], list).value;
            var out := ResolveJoins(naming, merged, merged).value;
            JoinExact(naming, out, out[i], leftFk, rightFk)
  {
    MergeResult(naming, [], list);
    var merged := Merge(naming, [], list).value;
    var out := ResolveJoins(naming, merged, merged).value;
    var r := merged[i];
    assert Ok(out[i]) == ResolveJoin(naming, merged, r);
    ForeignKeysResolved(naming, merged, merged, r.through);
    var fks := ForeignKeys(merged, r.through);
    leftFk := LastMatch(fks, r.sourceTable, r.sourceColumn).value;
    rightFk := LastMatch(fks, r.targetTable, r.targetColumn).value;
    SideExact(naming, leftFk, r.sourceTable);
    SideExact(naming, rightFk, r.targetTable);
    var l := ForeignKeyEmitted(naming, merged, out, r.through, leftFk);
    var q := ForeignKeyEmitted(naming, merged, out, r.through, rightFk);
    if l != q { ForeignKeyNamesDiffer(naming, merged, r.through, l, q); }
    if r.sourceTable == r.targetTable && Columns(r.sourceColumn) == Columns(r.targetColumn) {
      LastMatchSame(fks, r.sourceTable, r.sourceColumn, r.targetColumn);
    }
  }

  // ---- where the names disagree ----

  /** A foreign key without names of its own. */
  function Plain(source: string, column: string, target: string, targetColumn: string): Relation {
    Relation("", "", source, column, target, targetColumn, "", "", false, "", false)
  }

  /** Table e links to itself through `up` and to table p through `across`, and is its own junction with p. */
  function SelfJunction(e: string, p: string, id: string, up: string, across: string, members: string): seq<Relation> {
    [Plain(e, up, e, id), Plain(e, across, p, id),
     Relation(MANY_TO_MANY, e, e, id, p, id, "", members, false, "", false)]
  }

  /** The six default names these relations take do not collide, and the struct of e has no field named after e. */
  predicate NamesApart(naming: Naming, e: string, p: string, members: string) {
    var one, ones := naming.singular(naming.camel(p)), naming.plural(naming.camel(p));
    && one != ones && one != "Parent" && one != "Children" && ones != "Parent" && ones != "Children"
    && members != naming.plural(naming.camel(e))
    && naming.singular(naming.camel(e)) != "Parent" && naming.singular(naming.camel(e)) != one
  }

  predicate Named(e: string, p: string, id: string, up: string, across: string, members: string) {
    && ValidName(e) && ValidName(p) && ValidName(id) && ValidName(up) && ValidName(across) && GoIdentifier(members)
    && e != p && up != across
  }

  lemma {:induction false} SlotsDiffer(t: string, f: string, u: string, g: string)
    requires '.' !in t && '.' !in u && (t != u || f != g)
    ensures t + ['.'] + f != u + ['.'] + g
  {
    if t + ['.'] + f == u + ['.'] + g {
      CutInjective(t, f, u, g, '.');
    }
  }

  lemma {:induction false} SelfJunctionValid(
    e: string, p: string, id: string, up: string, across: string, members: string)
    requires Named(e, p, id, up, across, members)
    ensures var list := SelfJunction(e, p, id, up, across, members);
      (forall r :: r in list ==> ValidRelation(r)) && DistinctKeys(list)
  {
    var list := SelfJunction(e, p, id, up, across, members);
    NameIsColumn(id);
    NameIsColumn(up);
    NameIsColumn(across);
    assert !list[0].IsM2M() && !list[1].IsM2M() && list[2].IsM2M();
    ThreeKeys(list[0], list[1], list[2]);
  }

  lemma {:induction false} ThreeKeys(a: Relation, b: Relation, c: Relation)
    requires ValidRelation(a) && ValidRelation(b) && ValidRelation(c)
    requires !SameIdentity(a, b) && !SameIdentity(a, c) && !SameIdentity(b, c)
    ensures DistinctKeys([a, b, c])
  {
    KeyInjective(a, b);
    KeyInjective(a, c);
    KeyInjective(b, c);
  }

  /** The name pairs (table, field) of a relation's two slots. */
  function Slots(naming: Naming, r: Relation): set<(string, string)> {
    {(r.sourceTable, FieldNames(naming, r).0), (r.targetTable, FieldNames(naming, r).1)}
  }

  lemma {:induction false} SlotsApart(naming: Naming, a: Relation, b: Relation)
    requires Slots(naming, a) !! Slots(naming, b)
    requires '.' !in a.sourceTable && '.' !in a.targetTable && '.' !in b.sourceTable && '.' !in b.targetTable
    ensures !Clash(ClaimOf(naming, a), ClaimOf(naming, b)) && !Clash(ClaimOf(naming, b), ClaimOf(naming, a))
  {
    var (f, g) := FieldNames(naming, a);
    var (h, k) := FieldNames(naming, b);
    assert (a.sourceTable, f) in Slots(naming, a) && (a.targetTable, g) in Slots(naming, a);
    assert (b.sourceTable, h) in Slots(naming, b) && (b.targetTable, k) in Slots(naming, b);
    SlotsDiffer(a.sourceTable, f, b.sourceTable, h);
    SlotsDiffer(a.sourceTable, f, b.targetTable, k);
    SlotsDiffer(a.targetTable, g, b.sourceTable, h);
    SlotsDiffer(a.targetTable, g, b.targetTable, k);
  }

  lemma {:induction false} SelfJunctionNames(
    naming: Naming, e: string, p: string, id: string, up: string, across: string, members: string)
    requires Named(e, p, id, up, across, members)
    ensures var list := SelfJunction(e, p, id, up, across, members);
      && !list[0].IsM2M() && !list[1].IsM2M() && list[2].IsM2M()
      && FieldNames(naming, list[0]) == ("Parent", "Children")
      && FieldNames(naming, list[1]) == (naming.singular(naming.camel(p)), naming.plural(naming.camel(e)))
      && FieldNames(naming, list[2]) == (naming.plural(naming.camel(p)), members)
  {
  }

  lemma {:induction false} ThreeApart(naming: Naming, a: Relation, b: Relation, c: Relation)
    requires forall r :: r in [a, b, c] ==>
        '.' !in r.sourceTable && '.' !in r.targetTable && !ClaimOf(naming, r).selfClash
    requires Slots(naming, a) !! Slots(naming, b) && Slots(naming, a) !! Slots(naming, c)
    requires Slots(naming, b) !! Slots(naming, c)
    ensures forall x, y :: x in [a, b, c] && y in [a, b, c] ==> !Clash(ClaimOf(naming, x), ClaimOf(naming, y))
  {
    assert a in [a, b, c] && b in [a, b, c] && c in [a, b, c];
    SlotsApart(naming, a, b);
    SlotsApart(naming, a, c);
    SlotsApart(naming, b, c);
  }

  lemma {:induction false} SelfJunctionApart(
    naming: Naming, e: string, p: string, id: string, up: string, across: string, members: string)
    requires Named(e, p, id, up, across, members) && NamesApart(naming, e, p, members)
    ensures var list := SelfJunction(e, p, id, up, across, members);
      && (forall r :: r in list ==> !ClaimOf(naming, r).selfClash)
      && forall a, b :: a in list && b in list ==> !Clash(ClaimOf(naming, a), ClaimOf(naming, b))
  {
    SelfJunctionSlots(naming, e, p, id, up, across, members);
    SelfJunctionTables(naming, e, p, id, up, across, members);
    var list := SelfJunction(e, p, id, up, across, members);
    ThreeApart(naming, list[0], list[1], list[2]);
  }

  lemma {:induction false} SelfJunctionSlots(
    naming: Naming, e: string, p: string, id: string, up: string, across: string, members: string)
    requires Named(e, p, id, up, across, members) && NamesApart(naming, e, p, members)
    ensures var list := SelfJunction(e, p, id, up, across, members);
      var a, b, c := list[0], list[1], list[2];
      && Slots(naming, a) !! Slots(naming, b) && Slots(naming, a) !! Slots(naming, c)
          && Slots(naming, b) !! Slots(naming, c)
  {
    SelfJunctionNames(naming, e, p, id, up, across, members);
  }

  lemma {:induction false} SelfJunctionTables(
    naming: Naming, e: string, p: string, id: string, up: string, across: string, members: string)
    requires Named(e, p, id, up, across, members)
    ensures var list := SelfJunction(e, p, id, up, across, members);
      && list == [list[0], list[1], list[2]]
      && forall r :: r in list ==> '.' !in r.sourceTable && '.' !in r.targetTable && !ClaimOf(naming, r).selfClash
  {
    NameIsColumn(e);
    NameIsColumn(p);
    SelfJunctionNames(naming, e, p, id, up, across, members);
    assert "Parent" != "Children" by { assert "Parent"[0] != "Children"[0]; }
  }

  lemma {:induction false} ResolveAll(naming: Naming, all: seq<Relation>, rels: seq<Relation>)
    requires forall r :: r in rels ==> ResolveJoin(naming, all, r).Ok?
    ensures ResolveJoins(naming, all, rels).Ok?
  {
    if rels != [] {
      ResolveAll(naming, all, rels[..|rels| - 1]);
    }
  }

  /**
   Whatever list has these three relations: the join's left half is named after
   e, and it is the first foreign key that is meant.
   */
  lemma {:induction false} SelfJunctionResolves(
    naming: Naming, merged: seq<Relation>, e: string, p: string, id: string, up: string, across: string,
    members: string)
    requires Named(e, p, id, up, across, members)
    requires forall r :: r in merged <==> r in SelfJunction(e, p, id, up, across, members)
    ensures var list := SelfJunction(e, p, id, up, across, members);
      && ResolveJoins(naming, merged, merged).Ok?
      && ResolveJoin(naming, merged, list[2]) ==
           Ok(list[2].(m2mJoin := naming.singular(naming.camel(e)) + ['='] + naming.singular(naming.camel(p))))
  {
    var list := SelfJunction(e, p, id, up, across, members);
    SelfJunctionNames(naming, e, p, id, up, across, members);
    ForeignKeyListed(merged, e, list[0]);
    ForeignKeyListed(merged, e, list[1]);
    OnlyMatch(ForeignKeys(merged, e), list[0], e, id);
    OnlyMatch(ForeignKeys(merged, e), list[1], p, id);
    ResolveAll(naming, merged, merged);
  }

  lemma {:induction false} OnlyMatch(fks: seq<Relation>, fk: Relation, table: string, column: string)
    requires fk in fks && Targets(fk, table, column) && forall f :: f in fks && f.targetTable == table ==> f == fk
    ensures LastMatch(fks, table, column) == Some(fk)
  {
  }

  lemma {:induction false} ResolvedForeignKey(naming: Naming, merged: seq<Relation>, out: seq<Relation>, l: nat)
    requires ResolveJoins(naming, merged, merged) == Ok(out) && l < |out| && !out[l].IsM2M()
    ensures out[l] == merged[l]
  {
    assert Ok(out[l]) == ResolveJoin(naming, merged, merged[l]);
  }

  /** Then no belongs-to field of e's struct is named after e. */
  lemma {:induction false} NoFieldNamedAfter(
    naming: Naming, out: seq<Relation>, merged: seq<Relation>, e: string, p: string, id: string, up: string,
    across: string, members: string)
    requires Named(e, p, id, up, across, members) && NamesApart(naming, e, p, members)
    requires forall r :: r in merged <==> r in SelfJunction(e, p, id, up, across, members)
    requires ResolveJoins(naming, merged, merged) == Ok(out)
    ensures !BelongsToNamed(Emit(naming, e, out), naming.singular(naming.camel(e)))
  {
    var fields := Emit(naming, e, out);
    SelfJunctionNames(naming, e, p, id, up, across, members);
    forall k | 0 <= k < |fields| && fields[k].BelongsTo? ensures fields[k].name != naming.singular(naming.camel(e)) {
      var l := EmittedBelongsTo(naming, e, out, k);
      ResolvedForeignKey(naming, merged, out, l);
      assert merged[l] in merged;
    }
  }

  /**
   A table that links to itself and is its own junction: the relations merge and
   resolve, and the left half of the join names no field of the junction's struct.
   */
  lemma {:induction false} SelfJunctionMisnamed(
    naming: Naming, e: string, p: string, id: string, up: string, across: string, members: string)
    returns (i: nat)
    requires Named(e, p, id, up, across, members) && NamesApart(naming, e, p, members)
    ensures var list := SelfJunction(e, p, id, up, across, members);
      && (forall r :: r in list ==> ValidRelation(r)) && Merge(naming, [], list).Ok?
      && var merged := Merge(naming, [], list).value;
        && ResolveJoins(naming, merged, merged).Ok? && i < |merged| && merged[i] == list[2]
        && var out := ResolveJoins(naming, merged, merged).value;
          && out[i].m2mJoin == naming.singular(naming.camel(e)) + ['='] + naming.singular(naming.camel(p))
          && !BelongsToNamed(Emit(naming, e, out), naming.singular(naming.camel(e)))
  {
    var list := SelfJunction(e, p, id, up, across, members);
    SelfJunctionValid(e, p, id, up, across, members);
    SelfJunctionApart(naming, e, p, id, up, across, members);
    MergeAccepts(naming, list);
    var merged := Merge(naming, [], list).value;
    SelfJunctionResolves(naming, merged, e, p, id, up, across, members);
    var out := ResolveJoins(naming, merged, merged).value;
    NoFieldNamedAfter(naming, out, merged, e, p, id, up, across, members);
    assert list[2] in merged;
    i :| 0 <= i < |merged| && merged[i] == list[2];
    assert Ok(out[i]) == ResolveJoin(naming, merged, merged[i]);
  }

  /** Such as employees with a manager and a project, under the names the libraries give. */
  lemma {:induction false} EmployeesMisnamed(naming: Naming) returns (i: nat)
    requires naming.singular(naming.camel("employees")) == "Employee"
    requires naming.plural(naming.camel("employees")) == "Employees"
    requires naming.singular(naming.camel("projects")) == "Project"
    requires naming.plural(naming.camel("projects")) == "Projects"
    ensures var list := SelfJunction("employees", "projects", "id", "manager_id", "project_id", "Members");
      && Merge(naming, [], list).Ok?
      && var merged := Merge(naming, [], list).value;
        && ResolveJoins(naming, merged, merged).Ok? && i < |merged| && merged[i] == list[2]
        && !BelongsToNamed(Emit(naming, "employees", ResolveJoins(naming, merged, merged).value), "Employee")
  {
    EmployeeNames();
    i := SelfJunctionMisnamed(naming, "employees", "projects", "id", "manager_id", "project_id", "Members");
  }

  lemma {:induction false} EmployeeNames()
    ensures Named("employees", "projects", "id", "manager_id", "project_id", "Members")
    ensures "Project" != "Projects" && "Project" != "Parent" && "Project" != "Children" && "Projects" != "Parent"
    ensures "Projects" != "Children"
    ensures "Members" != "Employees" && "Employee" != "Parent" && "Employee" != "Project"
  {
    assert "employees"[0] != "projects"[0] && "manager_id"[0] != "project_id"[0];
    assert |"Project"| != |"Projects"| && "Project"[1] != "Parent"[1] && "Project"[0] != "Children"[0];
    assert "Projects"[1] != "Parent"[1] && "Projects"[0] != "Children"[0];
    assert "Members"[0] != "Employees"[0] && "Employee"[0] != "Parent"[0] && "Employee"[0] != "Project"[0];
  }
}
