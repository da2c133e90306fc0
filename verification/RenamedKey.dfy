/**
 A junction whose foreign key was given a field name of its own: detection
 (internal/database/gen/relation.go) still joins by the name of the table, which
 the junction's struct then has no field for.
 */
module RenamedKey {
  import opened Wrappers
  import opened Text
  import opened Relations
  import opened MergeLaws
  import opened Schema
  import opened Junctions
  import opened Emission
  import opened Pipeline
  import opened JoinNames
  import opened EmptyTarget
  import opened JunctionFields

  /** Table t links tables u and v through columns a and b, its primary key. */
  datatype Setting = Setting(t: string, a: string, b: string, u: string, v: string, id: string, own: string)
  {
    function Tables(): Tables {
      map[t := [Column(a, true, false, ""), Column(b, true, false, "")],
          u := [Column(id, true, false, "")], v := [Column(id, true, false, "")]]
    }

    /** The first foreign key has a field name of its own. */
    function First(): Relation { Plain(t, a, u, id).(field := own) }

    function Second(): Relation { Plain(t, b, v, id) }

    function Inputs(): seq<Relation> { [First(), Second()] }

    predicate Named() {
      && ValidName(t) && ValidName(a) && ValidName(b) && ValidName(u) && ValidName(v) && ValidName(id)
      && GoIdentifier(own) && a != b && t != u && t != v && u != v && LessEq(u, v)
    }

    /** The name given is not the table's, and no field takes the name of another or of a column. */
    predicate Apart(naming: Naming) {
      && own != Singular(naming, u) && own != Singular(naming, v) && Singular(naming, u) != Singular(naming, v)
      && {own, Singular(naming, v)} !! {"BaseModel", naming.camel(a), naming.camel(b)}
      && {naming.plural(naming.camel(u)), naming.plural(naming.camel(v))} !! {"BaseModel", naming.camel(id)}
    }

    /** What the second merge receives. */
    function Marked(naming: Naming): seq<Relation> {
      [First().(skipReverse := true), Second().(skipReverse := true),
       Relation(MANY_TO_MANY, t, u, id, v, id, "", "", false,
                Singular(naming, u) + ['='] + Singular(naming, v), false)]
    }
  }

  lemma {:induction false} InputsValid(s: Setting)
    requires s.Named()
    ensures ValidRelation(s.First()) && ValidRelation(s.Second())
    ensures !s.First().IsM2M() && !s.Second().IsM2M()
    ensures Columns(s.a) == [s.a] && Columns(s.b) == [s.b] && Columns(s.id) == [s.id]
  {
    NameIsColumn(s.a);
    NameIsColumn(s.b);
    NameIsColumn(s.id);
    assert "" != MANY_TO_MANY;
  }

  lemma {:induction false} InputKeys(s: Setting)
    requires s.Named()
    ensures KeyOf(s.First()) != KeyOf(s.Second()) && Validated(s.Inputs()).Ok?
  {
    InputsValid(s);
    KeyInjective(s.First(), s.Second());
  }

  // ---- annotation and detection ----

  lemma {:induction false} PairKey(columns: seq<Column>, a: string, b: string)
    requires columns == [Column(a, true, false, ""), Column(b, true, false, "")] && a != b
    ensures PrimaryKey(columns) == {a, b} && UniqueSingle(columns) == {}
  {
    assert columns[0].name == a && columns[1].name == b;
  }

  lemma {:induction false} NotAnnotated(s: Setting)
    requires s.Named()
    ensures AnnotateAll(s.Tables(), s.Inputs()) == s.Inputs()
  {
    InputsValid(s);
    PairKey(s.Tables()[s.t], s.a, s.b);
    assert s.a in {s.a, s.b} && s.b in {s.a, s.b};
  }

  lemma {:induction false} KeysOfTwo(x: Relation, y: Relation, t: string)
    requires !x.IsM2M() && !y.IsM2M() && x.sourceTable == y.sourceTable
    ensures ForeignKeys([x, y], t) == if t == x.sourceTable then [x, y] else []
  {
    assert [x, y][..1] == [x] && [x][..0] == [];
    assert ForeignKeys([], t) == [];
  }

  lemma {:induction false} LinkColumns(s: Setting)
    requires s.Named()
    ensures FkColumnSet(s.Inputs()) == {s.a, s.b}
  {
    InputsValid(s);
    assert s.Inputs() == [] + [s.First()] + [s.Second()];
    FkColumnStep([s.First()], s.Second());
    FkColumnStep([], s.First());
    assert FkColumnSet([]) == {};
    assert [] + [s.First()] == [s.First()];
  }

  /** Two foreign keys of one table that make it a junction make it the only one. */
  lemma {:induction false} OneJunction(tables: Tables, x: Relation, y: Relation, t: string)
    requires !x.IsM2M() && !y.IsM2M() && x.sourceTable == t && y.sourceTable == t && IsJunction(tables, [x, y], t)
    ensures JunctionTables(tables, [x, y]) == {t}
  {
    forall k ensures k in JunctionTables(tables, [x, y]) <==> k == t {
      KeysOfTwo(x, y, k);
      JunctionMember(tables, [x, y], k);
    }
  }

  lemma {:induction false} PairComplete(columns: seq<Column>, a: string, b: string)
    requires columns == [Column(a, true, false, ""), Column(b, true, false, "")] && a != b
    ensures CompleteKey(columns, {a, b}) && !HasExtra(columns, {a, b})
  {
    PairKey(columns, a, b);
    assert a in {a, b};
  }

  lemma {:induction false} Junction(s: Setting)
    requires s.Named()
    ensures JunctionTables(s.Tables(), s.Inputs()) == {s.t}
  {
    InputsValid(s);
    LinkColumns(s);
    PairComplete(s.Tables()[s.t], s.a, s.b);
    OneJunction(s.Tables(), s.First(), s.Second(), s.t);
  }

  lemma {:induction false} OneOnly(order: seq<string>, t: string)
    requires Enumerates(order, {t})
    ensures order == [t]
  {
    assert |order| == |multiset(order)| == 1;
    assert order[0] in multiset(order);
  }

  lemma {:induction false} InferredFrom(naming: Naming, tables: Tables, rels: seq<Relation>, t: string)
    requires AnnotateAll(tables, rels) == rels && JunctionTables(tables, rels) == {t}
    ensures |ForeignKeys(rels, t)| == 2
    ensures var suppress := Suppressed(rels, {t});
            Inferred(naming, tables, rels, JunctionsInOrder(tables, rels)) ==
            SkipReverseAll(suppress, rels) + SkipReverseAll(suppress, JunctionRelations(naming, rels, [t]))
  {
    var order := JunctionsInOrder(tables, rels);
    OneOnly(order, t);
    EnumeratedMembers(order, {t});
  }

  /** Two foreign keys that are not has-one and make one junction. */
  lemma {:induction false} DetectTwo(naming: Naming, tables: Tables, x: Relation, y: Relation, t: string)
    requires !x.IsM2M() && !y.IsM2M() && x.sourceTable == t && y.sourceTable == t
    requires AnnotateAll(tables, [x, y]) == [x, y] && JunctionTables(tables, [x, y]) == {t}
    requires var auto := JunctionRelation(naming, t, [x, y]); KeyOf(auto) != KeyOf(x) && KeyOf(auto) != KeyOf(y)
    ensures Inferred(naming, tables, [x, y], JunctionsInOrder(tables, [x, y])) ==
            [x.(skipReverse := true), y.(skipReverse := true)] + [JunctionRelation(naming, t, [x, y])]
  {
    InferredFrom(naming, tables, [x, y], t);
    BothSuppressed(x, y, t);
    SkipTwo(x, y);
    KeysOfTwo(x, y, t);
    SkipAuto(naming, [x, y], t, {KeyOf(x), KeyOf(y)});
  }

  lemma {:induction false} SkipTwo(x: Relation, y: Relation)
    ensures SkipReverseAll({KeyOf(x), KeyOf(y)}, [x, y]) == [x.(skipReverse := true), y.(skipReverse := true)]
  {
  }

  lemma {:induction false} SkipAuto(naming: Naming, rels: seq<Relation>, t: string, suppress: set<string>)
    requires |ForeignKeys(rels, t)| == 2
    requires KeyOf(JunctionRelation(naming, t, ForeignKeys(rels, t))) !in suppress
    ensures SkipReverseAll(suppress, JunctionRelations(naming, rels, [t])) ==
            [JunctionRelation(naming, t, ForeignKeys(rels, t))]
  {
  }

  lemma {:induction false} BothSuppressed(x: Relation, y: Relation, t: string)
    requires !x.IsM2M() && !y.IsM2M() && x.sourceTable == t && y.sourceTable == t
    ensures Suppressed([x, y], {t}) == {KeyOf(x), KeyOf(y)}
  {
    KeysOfTwo(x, y, t);
    TwoKeys(KeyOf, [x, y]);
    assert FkKeys([x, y], t) == {KeyOf(x), KeyOf(y)};
  }

  lemma {:induction false} MarkedAuto(naming: Naming, s: Setting)
    requires s.Named()
    ensures var auto := JunctionRelation(naming, s.t, s.Inputs());
            auto == s.Marked(naming)[2] && KeyOf(auto) != KeyOf(s.First()) && KeyOf(auto) != KeyOf(s.Second())
    ensures ValidRelation(s.Marked(naming)[2])
  {
    InputsValid(s);
    var auto := JunctionRelation(naming, s.t, s.Inputs());
    KeyInjective(auto, s.First());
    KeyInjective(auto, s.Second());
  }

  lemma {:induction false} Detection(naming: Naming, s: Setting)
    requires s.Named()
    ensures Inferred(naming, s.Tables(), s.Inputs(), JunctionsInOrder(s.Tables(), s.Inputs())) == s.Marked(naming)
  {
    InputsValid(s);
    NotAnnotated(s);
    Junction(s);
    MarkedAuto(naming, s);
    DetectTwo(naming, s.Tables(), s.First(), s.Second(), s.t);
  }

  // ---- merge, join resolution and column check ----

  lemma {:induction false} MarkedFacts(naming: Naming, s: Setting)
    requires s.Named()
    ensures var list := s.Marked(naming);
      && (forall r :: r in list ==> ValidRelation(r)) && DistinctKeys(list)
      && list == [list[0], list[1], list[2]]
      && !list[0].IsM2M() && !list[1].IsM2M() && list[2].IsM2M()
  {
    InputsValid(s);
    MarkedAuto(naming, s);
    var list := s.Marked(naming);
    ThreeKeys(list[0], list[1], list[2]);
  }

  lemma {:induction false} MarkedNames(naming: Naming, s: Setting)
    requires s.Named()
    ensures var list := s.Marked(naming);
        var us, vs := naming.plural(naming.camel(s.u)), naming.plural(naming.camel(s.v));
      && FieldNames(naming, list[0]).0 == s.own
      && FieldNames(naming, list[1]).0 == Singular(naming, s.v)
      && FieldNames(naming, list[2]) == (vs, us)
  {
    InputsValid(s);
  }

  /** The slots of the three relations, as pairs of table and field. */
  lemma {:induction false} SkippedApart(naming: Naming, a: Relation, b: Relation)
    requires !a.IsM2M() && a.skipReverse && '.' !in a.sourceTable && '.' !in b.sourceTable && '.' !in b.targetTable
    requires a.sourceTable == b.sourceTable ==> FieldNames(naming, a).0 != FieldNames(naming, b).0
    requires a.sourceTable == b.targetTable ==> b.skipReverse && !b.IsM2M()
    ensures !Clash(ClaimOf(naming, a), ClaimOf(naming, b)) && !Clash(ClaimOf(naming, b), ClaimOf(naming, a))
  {
    var f, h, k := FieldNames(naming, a).0, FieldNames(naming, b).0, FieldNames(naming, b).1;
    SlotsDiffer(a.sourceTable, f, b.sourceTable, h);
    if a.sourceTable != b.targetTable { SlotsDiffer(a.sourceTable, f, b.targetTable, k); }
  }

  lemma {:induction false} MarkedApart(naming: Naming, s: Setting)
    requires s.Named() && s.Apart(naming)
    ensures var list := s.Marked(naming);
      && (forall r :: r in list ==> !ClaimOf(naming, r).selfClash)
      && forall x, y :: x in list && y in list ==> !Clash(ClaimOf(naming, x), ClaimOf(naming, y))
  {
    MarkedFacts(naming, s);
    MarkedNames(naming, s);
    NameIsColumn(s.t);
    NameIsColumn(s.u);
    NameIsColumn(s.v);
    var list := s.Marked(naming);
    SkippedApart(naming, list[0], list[1]);
    SkippedApart(naming, list[0], list[2]);
    SkippedApart(naming, list[1], list[2]);
    forall x, y | x in list && y in list ensures !Clash(ClaimOf(naming, x), ClaimOf(naming, y)) {
      assert x == list[0] || x == list[1] || x == list[2];
      assert y == list[0] || y == list[1] || y == list[2];
    }
  }

  lemma {:induction false} MarkedMerge(naming: Naming, s: Setting) returns (out: seq<Relation>)
    requires s.Named() && s.Apart(naming)
    ensures Merge(naming, [], s.Marked(naming)) == Ok(out)
    ensures ResolveJoins(naming, out, out) == Ok(out) && forall r :: r in out <==> r in s.Marked(naming)
  {
    MarkedFacts(naming, s);
    MarkedApart(naming, s);
    MergeAccepts(naming, s.Marked(naming));
    out := Merge(naming, [], s.Marked(naming)).value;
    assert |s.Marked(naming)[2].m2mJoin| > 0;
    ResolveSame(naming, out, out);
  }

  lemma {:induction false} ResolveSame(naming: Naming, all: seq<Relation>, rels: seq<Relation>)
    requires forall r :: r in rels ==> !r.IsM2M() || r.m2mJoin != ""
    ensures ResolveJoins(naming, all, rels) == Ok(rels)
  {
    if rels != [] {
      ResolveSame(naming, all, rels[..|rels| - 1]);
      assert rels == rels[..|rels| - 1] + [rels[|rels| - 1]];
    }
  }

  lemma {:induction false} LinkSide(naming: Naming, s: Setting, col: string, field: string)
    requires s.Named() && (col == s.a || col == s.b)
    requires field !in {"BaseModel", naming.camel(s.a), naming.camel(s.b)}
    ensures CheckSide(naming, s.Tables(), s.t, [col], field, true).Ok?
  {
    var columns := s.Tables()[s.t];
    assert columns == [Column(s.a, true, false, ""), Column(s.b, true, false, "")];
    assert columns[0].name == s.a && columns[1].name == s.b;
  }

  lemma {:induction false} EndSide(
    naming: Naming, s: Setting, table: string, cols: seq<string>, field: string, emitted: bool)
    requires s.Named() && (table == s.u || table == s.v) && (cols == [] || cols == [s.id])
    requires emitted ==> field !in {"BaseModel", naming.camel(s.id)}
    ensures CheckSide(naming, s.Tables(), table, cols, field, emitted).Ok?
  {
    OneColumn(naming, s.Tables()[table]);
  }

  lemma {:induction false} MarkedChecked(naming: Naming, s: Setting)
    requires s.Named() && s.Apart(naming)
    ensures forall r :: r in s.Marked(naming) ==> CheckRelation(naming, s.Tables(), r).Ok?
  {
    InputsValid(s);
    MarkedNames(naming, s);
    var list := s.Marked(naming);
    LinkSide(naming, s, s.a, FieldNames(naming, list[0]).0);
    EndSide(naming, s, s.u, [s.id], FieldNames(naming, list[0]).1, false);
    LinkSide(naming, s, s.b, FieldNames(naming, list[1]).0);
    EndSide(naming, s, s.v, [s.id], FieldNames(naming, list[1]).1, false);
    EndSide(naming, s, s.u, [], FieldNames(naming, list[2]).0, true);
    EndSide(naming, s, s.v, [], FieldNames(naming, list[2]).1, true);
    MarkedFacts(naming, s);
    assert CheckRelation(naming, s.Tables(), list[0]).Ok?;
    assert CheckRelation(naming, s.Tables(), list[1]).Ok?;
    assert CheckRelation(naming, s.Tables(), list[2]).Ok?;
  }

  // ---- the join names no field ----

  lemma {:induction false} NoTableField(naming: Naming, s: Setting, out: seq<Relation>)
    requires s.Named() && s.Apart(naming) && forall r :: r in out <==> r in s.Marked(naming)
    ensures !BelongsToNamed(Emit(naming, s.t, out), Singular(naming, s.u))
  {
    MarkedNames(naming, s);
    MarkedFacts(naming, s);
    var fields := Emit(naming, s.t, out);
    forall k | 0 <= k < |fields| && fields[k].BelongsTo? ensures fields[k].name != Singular(naming, s.u) {
      var l := EmittedBelongsTo(naming, s.t, out, k);
      assert out[l] in out;
    }
  }

  /**
   The run succeeds and detects the junction, and the left half of the join is
   the name of table u, which no belongs-to field of the junction's struct has.
   */
  lemma {:induction false} RenamedKeyMisnamed(naming: Naming, s: Setting) returns (i: nat)
    requires s.Named() && s.Apart(naming)
    ensures Generate(naming, s.Tables(), false, [], s.Inputs()).Ok?
    ensures var out := Generate(naming, s.Tables(), false, [], s.Inputs()).value;
      && i < |out| && out[i].IsM2M() && out[i].through == s.t
      && out[i].m2mJoin == Singular(naming, s.u) + ['='] + Singular(naming, s.v)
      && !BelongsToNamed(Emit(naming, s.t, out), Singular(naming, s.u))
  {
    InputKeys(s);
    Detection(naming, s);
    var out := MarkedMerge(naming, s);
    MarkedChecked(naming, s);
    AllChecked(naming, s.Tables(), out);
    NoTableField(naming, s, out);
    assert s.Marked(naming)[2] in out;
    i :| 0 <= i < |out| && out[i] == s.Marked(naming)[2];
  }

  /** Such as role_user with role_id called Granted, under the names the libraries give. */
  lemma {:induction false} GrantedMisnamed(naming: Naming) returns (i: nat)
    requires Singular(naming, "roles") == "Role" && Singular(naming, "users") == "User"
    requires naming.plural(naming.camel("roles")) == "Roles" && naming.plural(naming.camel("users")) == "Users"
    requires naming.camel("role_id") == "RoleID" && naming.camel("user_id") == "UserID" && naming.camel("id") == "ID"
    ensures var s := Setting("role_user", "role_id", "user_id", "roles", "users", "id", "Granted");
      && Generate(naming, s.Tables(), false, [], s.Inputs()).Ok?
      && var out := Generate(naming, s.Tables(), false, [], s.Inputs()).value;
        && i < |out| && out[i].m2mJoin == "Role" + ['='] + "User"
            && !BelongsToNamed(Emit(naming, "role_user", out), "Role")
  {
    var s := Setting("role_user", "role_id", "user_id", "roles", "users", "id", "Granted");
    GrantedNames();
    i := RenamedKeyMisnamed(naming, s);
  }

  lemma {:induction false} GrantedNames()
    ensures Setting("role_user", "role_id", "user_id", "roles", "users", "id", "Granted").Named()
    ensures {"Granted", "User"} !! {"BaseModel", "RoleID", "UserID"} && {"Roles", "Users"} !! {"BaseModel", "ID"}
    ensures "Granted" != "Role" && "Granted" != "User" && "Role" != "User"
  {
    assert "Granted"[0] != "BaseModel"[0] && "Granted"[0] != "RoleID"[0] && "Granted"[0] != "UserID"[0];
    assert "User"[0] != "BaseModel"[0] && "User"[0] != "RoleID"[0] && |"User"| != |"UserID"|;
    assert "Roles"[0] != "BaseModel"[0] && "Roles"[0] != "ID"[0];
    assert "Users"[0] != "BaseModel"[0] && "Users"[0] != "ID"[0];
    assert "role_user"[4] != "roles"[4] && "role_user"[0] != "users"[0] && "roles"[0] != "users"[0];
    assert "role_id"[0] != "user_id"[0] && "Role"[0] != "User"[0];
  }
}
