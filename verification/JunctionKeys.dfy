/**
 When a detected junction really links each pair of rows at most once. The
 detector reads the tags applyUniqueConstraints leaves, and a column keeps only
 the first group that tagged it, so a composite constraint can look smaller
 than it is.
 */
module JunctionKeys {
  import opened Ordering
  import opened Text
  import opened Relations
  import opened Schema
  import opened Joins
  import opened Junctions

  /** Some declared constraint lies within `cols`. */
  ghost predicate Implied(columns: seq<Column>, groups: Groups, cols: set<string>) {
    || (PrimaryKey(columns) != {} && PrimaryKey(columns) <= cols)
    || exists g :: g in groups && Members(groups[g]) <= cols
  }

  /** In every instance that keeps the declared constraints, the columns tell all rows apart. */
  ghost predicate IsKey(columns: seq<Column>, groups: Groups, cols: set<string>) {
    forall rows: seq<Row> :: Satisfies(rows, columns, groups) ==> UniqueOn(rows, cols)
  }

  lemma {:induction false} UniqueGrows(rows: seq<Row>, some: set<string>, more: set<string>)
    requires UniqueOn(rows, some) && some <= more
    ensures UniqueOn(rows, more)
  {
    forall i, j | 0 <= i < j < |rows| ensures Differ(rows[i], rows[j], more) {
      assert Differ(rows[i], rows[j], some);
    }
  }

  /** Columns are a key exactly when they contain a declared constraint. */
  lemma {:induction false} KeyExact(columns: seq<Column>, groups: Groups, cols: set<string>)
    ensures IsKey(columns, groups, cols) <==> Implied(columns, groups, cols)
  {
    if Implied(columns, groups, cols) {
      forall rows: seq<Row> | Satisfies(rows, columns, groups) ensures UniqueOn(rows, cols) {
        if PrimaryKey(columns) != {} && PrimaryKey(columns) <= cols {
          UniqueGrows(rows, PrimaryKey(columns), cols);
        } else {
          var g :| g in groups && Members(groups[g]) <= cols;
          UniqueGrows(rows, Members(groups[g]), cols);
        }
      }
    } else {
      var rows := Twins(columns, groups, cols);
      TwinsSatisfy(columns, groups, cols);
      TwinsDiffer(columns, groups, cols, cols);
      assert Satisfies(rows, columns, groups) && !UniqueOn(rows, cols);
    }
  }

  // ---- which group tags a column ----

  /** g is the first group, in the order of tagging, that tags the column. */
  ghost predicate FirstTagger(col: Column, groups: Groups, g: string) {
    && g in groups && Tags(col, groups[g])
    && forall h :: h in groups && h != g && GroupOrder(groups)(h, g) ==> !Tags(col, groups[h])
  }

  lemma {:induction false} TaggedByFirst(columns: seq<Column>, groups: Groups, i: nat, g: string)
    requires i < |columns| && Untagged(columns[i]) && FirstTagger(columns[i], groups, g)
    ensures Tagged(columns, groups)[i] == TagColumn(columns[i], g, groups[g])
  {
    var keys := SortedKeys(GroupOrder(groups), groups.Keys);
    GroupKeys(groups);
    assert g in keys;
    var n :| 0 <= n < |keys| && keys[n] == g;
    forall m | 0 <= m < n ensures !Tags(columns[i], groups[keys[m]]) {
      assert keys[m] in keys && GroupOrder(groups)(keys[m], keys[n]);
    }
    TagAllFirst(columns[i], groups, keys, n);
  }

  lemma {:induction false} FirstTaggerExists(columns: seq<Column>, groups: Groups, i: nat) returns (g: string)
    requires i < |columns| && Untagged(columns[i]) && Tagged(columns, groups)[i].unique
    ensures FirstTagger(columns[i], groups, g)
    ensures Tagged(columns, groups)[i] == TagColumn(columns[i], g, groups[g])
  {
    var keys := SortedKeys(GroupOrder(groups), groups.Keys);
    GroupKeys(groups);
    TagAllMeans(columns[i], groups, keys);
    var k :| k in keys && Tags(columns[i], groups[k]);
    var n := FirstTag(columns[i], groups, keys, k);
    g := keys[n];
    assert g in keys;
    EarlierTagNone(columns[i], groups, keys, n);
    TaggedByFirst(columns, groups, i, g);
  }

  lemma {:induction false} EarlierTagNone(col: Column, groups: Groups, keys: seq<string>, n: nat)
    requires Ascending(GroupOrder(groups), keys, groups.Keys) && n < |keys|
    requires Tags(col, groups[keys[n]]) && forall m :: 0 <= m < n ==> !Tags(col, groups[keys[m]])
    ensures FirstTagger(col, groups, keys[n])
  {
    var le := GroupOrder(groups);
    GroupOrderTotal(groups);
    assert keys[n] in keys;
    forall h | h in groups && h != keys[n] && le(h, keys[n]) ensures !Tags(col, groups[h]) {
      assert h in keys;
      var m :| 0 <= m < |keys| && keys[m] == h;
      OrderPlaces(le, keys, groups.Keys, m, n);
    }
  }

  lemma {:induction false} OrderPlaces(
    le: (string, string) -> bool, keys: seq<string>, all: set<string>, m: nat, n: nat)
    requires TotalOrder(le) && Ascending(le, keys, all) && m < |keys| && n < |keys| && keys[m] != keys[n]
    requires le(keys[m], keys[n])
    ensures m < n
  {
  }

  // ---- when detection is right ----

  /** The columns of a composite group that no earlier group tags. */
  ghost function Kept(columns: seq<Column>, groups: Groups, g: string): set<string> {
    set i | 0 <= i < |columns| && FirstTagger(columns[i], groups, g) :: columns[i].name
  }

  /** The group is named like the tag of a column that is unique alone. */
  ghost predicate NamedAsSingle(columns: seq<Column>, groups: Groups, g: string) {
    exists i :: 0 <= i < |columns| && g == "__single__:" + columns[i].name && OwnConstraint(columns[i], groups)
  }

  /** A composite group of which something is left to read as a tag. */
  ghost predicate LeavesTag(columns: seq<Column>, groups: Groups, g: string) {
    g in groups && |groups[g]| > 1 && Kept(columns, groups, g) != {}
  }

  /** The tag covers a constraint; a group named like a single column's tag shares that tag and is saved by it. */
  ghost predicate TagIsKey(columns: seq<Column>, groups: Groups, g: string) {
    Implied(columns, groups, Kept(columns, groups, g)) || NamedAsSingle(columns, groups, g)
  }

  /** What is left of every composite group, if anything, still contains a declared constraint. */
  ghost predicate NothingLost(columns: seq<Column>, groups: Groups) {
    forall g :: LeavesTag(columns, groups, g) ==> TagIsKey(columns, groups, g)
  }

  /** The same of the groups whose remains could be the foreign keys of a junction: no other column but timestamps. */
  ghost predicate NothingMisread(columns: seq<Column>, groups: Groups) {
    forall g :: LeavesTag(columns, groups, g) && !HasExtra(columns, Kept(columns, groups, g)) ==>
        TagIsKey(columns, groups, g)
  }

  /** A column tagged alone belongs to a constraint of its own, and conversely. */
  lemma {:induction false} SingleTagger(columns: seq<Column>, groups: Groups, i: nat, g: string)
    requires i < |columns| && Untagged(columns[i]) && NamedGroups(groups) && FirstTagger(columns[i], groups, g)
    ensures |groups[g]| <= 1 <==>
        GroupName(Tagged(columns, groups)[i]) == "__single__:" + columns[i].name && OwnConstraint(columns[i], groups)
    ensures |groups[g]| > 1 ==> GroupName(Tagged(columns, groups)[i]) == g
    ensures |groups[g]| <= 1 ==> groups[g] == [columns[i].name]
  {
    TaggedByFirst(columns, groups, i, g);
    SingleTagExact(columns, groups, i);
  }

  /** The tag of a composite group covers what it kept, and nothing else unless it is named like a single's tag. */
  lemma {:induction false} TagOfGroup(columns: seq<Column>, groups: Groups, g: string)
    requires (forall i :: 0 <= i < |columns| ==> Untagged(columns[i])) && NamedGroups(groups)
    requires g in groups && |groups[g]| > 1
    ensures Kept(columns, groups, g) <= TaggedWith(Tagged(columns, groups), g)
    ensures !NamedAsSingle(columns, groups, g) ==> Kept(columns, groups, g) == TaggedWith(Tagged(columns, groups), g)
  {
    var tagged := Tagged(columns, groups);
    TaggedKeepsNames(columns, groups);
    forall i | 0 <= i < |columns| && FirstTagger(columns[i], groups, g)
        ensures columns[i].name in TaggedWith(tagged, g) {
      SingleTagger(columns, groups, i, g);
      TaggedByFirst(columns, groups, i, g);
    }
    if !NamedAsSingle(columns, groups, g) {
      forall i | 0 <= i < |tagged| && tagged[i].unique && GroupName(tagged[i]) == g
        ensures tagged[i].name in Kept(columns, groups, g)
      {
        var h := FirstTaggerExists(columns, groups, i);
        SingleTagger(columns, groups, i, h);
      }
    }
  }

  /** A tag that some column carries is a declared constraint's own, or what is left of a composite group. */
  lemma {:induction false} TagCovers(columns: seq<Column>, groups: Groups, cols: set<string>) returns (g: string)
    requires (forall i :: 0 <= i < |columns| ==> Untagged(columns[i])) && NamedGroups(groups)
    requires CompleteKey(Tagged(columns, groups), cols)
    ensures Implied(columns, groups, cols)
        || (LeavesTag(columns, groups, g) && !NamedAsSingle(columns, groups, g) && Kept(columns, groups, g) == cols)
  {
    var tagged := Tagged(columns, groups);
    TaggedKeepsNames(columns, groups);
    g := "";
    if PrimaryKey(tagged) != cols {
      var name :| TaggedWith(tagged, name) == cols;
      var c :| c in cols;
      var i :| 0 <= i < |tagged| && tagged[i].unique && GroupName(tagged[i]) == name && tagged[i].name == c;
      g := FirstTaggerExists(columns, groups, i);
      SingleTagger(columns, groups, i, g);
      if |groups[g]| <= 1 {
        assert Members(groups[g]) <= cols;
      } else {
        TagOfGroup(columns, groups, g);
        assert columns[i].name in Kept(columns, groups, g);
        if NamedAsSingle(columns, groups, g) {
          SavedByName(columns, groups, g);
        }
      }
    }
  }

  lemma {:induction false} SavedByName(columns: seq<Column>, groups: Groups, g: string)
    requires (forall i :: 0 <= i < |columns| ==> Untagged(columns[i])) && NamedGroups(groups)
    requires NamedAsSingle(columns, groups, g)
    ensures Implied(columns, groups, TaggedWith(Tagged(columns, groups), g))
  {
    var tagged := Tagged(columns, groups);
    TaggedKeepsNames(columns, groups);
    var i :| 0 <= i < |columns| && g == "__single__:" + columns[i].name && OwnConstraint(columns[i], groups);
    SingleTagExact(columns, groups, i);
    assert tagged[i].name in TaggedWith(tagged, g);
    var h :| h in groups && groups[h] == [columns[i].name];
    assert Members(groups[h]) <= TaggedWith(tagged, g);
  }

  /**
   Whatever the foreign key columns are, the answer "complete key" is right in
   every instance exactly when no composite group lost too much.
   */
  lemma {:induction false} DetectionExact(columns: seq<Column>, groups: Groups)
    requires (forall i :: 0 <= i < |columns| ==> Untagged(columns[i])) && NamedGroups(groups)
    ensures (forall cols :: CompleteKey(Tagged(columns, groups), cols) ==> IsKey(columns, groups, cols))
            <==> NothingLost(columns, groups)
  {
    var tagged := Tagged(columns, groups);
    if NothingLost(columns, groups) {
      forall cols | CompleteKey(tagged, cols) ensures IsKey(columns, groups, cols) {
        var g := TagCovers(columns, groups, cols);
        KeyExact(columns, groups, cols);
      }
    }
    if forall cols :: CompleteKey(tagged, cols) ==> IsKey(columns, groups, cols) {
      forall g | LeavesTag(columns, groups, g) && !NamedAsSingle(columns, groups, g)
        ensures Implied(columns, groups, Kept(columns, groups, g))
      {
        KeptComplete(columns, groups, g);
        KeyExact(columns, groups, Kept(columns, groups, g));
      }
    }
  }

  lemma {:induction false} KeptComplete(columns: seq<Column>, groups: Groups, g: string)
    requires (forall i :: 0 <= i < |columns| ==> Untagged(columns[i])) && NamedGroups(groups)
    requires LeavesTag(columns, groups, g) && !NamedAsSingle(columns, groups, g)
    ensures CompleteKey(Tagged(columns, groups), Kept(columns, groups, g))
  {
    TagOfGroup(columns, groups, g);
  }

  lemma {:induction false} SameExtra(columns: seq<Column>, groups: Groups, cols: set<string>)
    requires forall i :: 0 <= i < |columns| ==> Untagged(columns[i])
    ensures HasExtra(Tagged(columns, groups), cols) <==> HasExtra(columns, cols)
  {
    TaggedKeepsNames(columns, groups);
    var tagged := Tagged(columns, groups);
    if i :| 0 <= i < |columns| && columns[i].name !in cols && columns[i].name !in META_COLUMNS {
      assert tagged[i].name == columns[i].name;
    }
  }

  /**
   Among column sets that leave no business column over, as a junction's foreign
   keys must, the answer is right in every instance exactly when nothing that
   could be a junction's foreign keys lost too much.
   */
  lemma {:induction false} MisreadExact(columns: seq<Column>, groups: Groups)
    requires (forall i :: 0 <= i < |columns| ==> Untagged(columns[i])) && NamedGroups(groups)
    ensures (forall cols :: CompleteKey(Tagged(columns, groups), cols) && !HasExtra(Tagged(columns, groups), cols) ==>
                              IsKey(columns, groups, cols))
            <==> NothingMisread(columns, groups)
  {
    var tagged := Tagged(columns, groups);
    if NothingMisread(columns, groups) {
      forall cols | CompleteKey(tagged, cols) && !HasExtra(tagged, cols) ensures IsKey(columns, groups, cols) {
        NothingMisreadSound(columns, groups, cols);
        KeyExact(columns, groups, cols);
      }
    }
    if forall cols :: CompleteKey(tagged, cols) && !HasExtra(tagged, cols) ==> IsKey(columns, groups, cols) {
      forall g | LeavesTag(columns, groups, g) && !HasExtra(columns, Kept(columns, groups, g))
          && !NamedAsSingle(columns, groups, g)
        ensures Implied(columns, groups, Kept(columns, groups, g))
      {
        KeptComplete(columns, groups, g);
        SameExtra(columns, groups, Kept(columns, groups, g));
        KeyExact(columns, groups, Kept(columns, groups, g));
      }
    }
  }

  lemma {:induction false} NothingMisreadSound(columns: seq<Column>, groups: Groups, cols: set<string>)
    requires (forall i :: 0 <= i < |columns| ==> Untagged(columns[i])) && NamedGroups(groups)
    requires NothingMisread(columns, groups)
    requires CompleteKey(Tagged(columns, groups), cols) && !HasExtra(Tagged(columns, groups), cols)
    ensures Implied(columns, groups, cols)
  {
    SameExtra(columns, groups, cols);
    var g := TagCovers(columns, groups, cols);
  }

  /** For one detected junction: its foreign keys are a key exactly when they contain a declared constraint. */
  lemma {:induction false} JunctionIsKey(
    tables: Tables, rels: seq<Relation>, t: string, columns: seq<Column>, groups: Groups)
    requires (forall i :: 0 <= i < |columns| ==> Untagged(columns[i])) && NamedGroups(groups)
    requires t in JunctionTables(tables, rels) && tables[t] == Tagged(columns, groups)
    ensures var cols := FkColumnSet(ForeignKeys(rels, t));
      && (IsKey(columns, groups, cols) <==> Implied(columns, groups, cols))
      && (NothingMisread(columns, groups) ==> IsKey(columns, groups, cols))
  {
    var cols := FkColumnSet(ForeignKeys(rels, t));
    KeyExact(columns, groups, cols);
    if NothingMisread(columns, groups) {
      NothingMisreadSound(columns, groups, cols);
    }
  }

  // ---- for every set of relations ----

  /** Two foreign keys of t over the given columns, to different tables. */
  function TwoKeysOver(t: string, names: seq<string>): seq<Relation>
    requires names != []
  {
    [PlainKey(t, Join(names, "+"), "a"), PlainKey(t, names[0], "b")]
  }

  function PlainKey(t: string, column: string, target: string): Relation {
    Relation("", "", t, column, target, "id", "", "", false, "", false)
  }

  lemma {:induction false} CompactNames(names: seq<string>)
    requires forall i :: 0 <= i < |names| ==> ValidName(names[i])
    ensures Compact(names) == names
  {
    if names != [] {
      var n := |names| - 1;
      CompactNames(names[..n]);
      NameTrimmed(names[n]);
      assert names == names[..n] + [names[n]];
    }
  }

  lemma {:induction false} ColumnsOfNames(names: seq<string>)
    requires names != [] && forall i :: 0 <= i < |names| ==> ValidName(names[i])
    ensures Columns(Join(names, "+")) == names
  {
    forall i | 0 <= i < |names| ensures '+' !in names[i] {
      assert ValidName(names[i]);
    }
    SplitJoin(names, '+');
    CompactNames(names);
  }

  lemma {:induction false} KeysOver(t: string, names: seq<string>)
    requires names != [] && forall i :: 0 <= i < |names| ==> ValidName(names[i])
    ensures ForeignKeys(TwoKeysOver(t, names), t) == TwoKeysOver(t, names)
    ensures FkColumnSet(TwoKeysOver(t, names)) == Members(names)
    ensures TwoKeysOver(t, names)[0].targetTable != TwoKeysOver(t, names)[1].targetTable
  {
    var x, y := PlainKey(t, Join(names, "+"), "a"), PlainKey(t, names[0], "b");
    assert !x.IsM2M() && !y.IsM2M() by { assert "" != MANY_TO_MANY; }
    BothForeignKeys(x, y, t);
    ColumnsOfNames(names);
    NameIsColumn(names[0]);
    var fks := [x, y];
    forall c | c in Members(names) ensures c in FkColumnSet(fks) {
      assert c in Columns(fks[0].sourceColumn);
    }
    assert names[0] in names;
    assert "a"[0] != "b"[0];
  }

  lemma {:induction false} NamesOfSet(cols: set<string>) returns (names: seq<string>)
    ensures Members(names) == cols && |names| == |cols|
  {
    StringKeys(cols);
    names := SortedKeys(LessEq, cols);
    assert |names| == |multiset(names)| == |multiset(cols)|;
  }

  /** A complete column set without extras is some relations' junction. */
  lemma {:induction false} Detectable(tables: Tables, t: string, cols: set<string>) returns (rels: seq<Relation>)
    requires t in tables && CompleteKey(tables[t], cols) && !HasExtra(tables[t], cols)
    requires forall c :: c in cols ==> ValidName(c)
    ensures t in JunctionTables(tables, rels) && FkColumnSet(ForeignKeys(rels, t)) == cols
  {
    var names := NamesOfSet(cols);
    forall i | 0 <= i < |names| ensures ValidName(names[i]) {
      assert names[i] in Members(names);
    }
    KeysOver(t, names);
    rels := TwoKeysOver(t, names);
    Detected(tables, rels, t);
  }

  /**
   Whatever the relations, a table that is detected as a pure junction has its
   foreign keys as a key in every instance, exactly when nothing that could be a
   junction's foreign keys lost too much to earlier tags.
   */
  lemma {:induction false} JunctionsExact(tables: Tables, t: string, columns: seq<Column>, groups: Groups)
    requires (forall i :: 0 <= i < |columns| ==> Untagged(columns[i]) && ValidName(columns[i].name))
    requires NamedGroups(groups)
    requires t in tables && tables[t] == Tagged(columns, groups)
    ensures (forall rels :: t in JunctionTables(tables, rels) ==>
        IsKey(columns, groups, FkColumnSet(ForeignKeys(rels, t))))
            <==> NothingMisread(columns, groups)
  {
    if NothingMisread(columns, groups) {
      forall rels | t in JunctionTables(tables, rels)
          ensures IsKey(columns, groups, FkColumnSet(ForeignKeys(rels, t))) {
        JunctionIsKey(tables, rels, t, columns, groups);
      }
    }
    if forall rels :: t in JunctionTables(tables, rels) ==> IsKey(columns, groups, FkColumnSet(ForeignKeys(rels, t))) {
      forall cols | CompleteKey(tables[t], cols) && !HasExtra(tables[t], cols) ensures IsKey(columns, groups, cols) {
        CompleteNames(columns, groups, cols);
        var rels := Detectable(tables, t, cols);
      }
      MisreadExact(columns, groups);
    }
  }

  lemma {:induction false} CompleteNames(columns: seq<Column>, groups: Groups, cols: set<string>)
    requires forall i :: 0 <= i < |columns| ==> Untagged(columns[i]) && ValidName(columns[i].name)
    requires CompleteKey(Tagged(columns, groups), cols)
    ensures forall c :: c in cols ==> ValidName(c)
  {
    TaggedKeepsNames(columns, groups);
  }

  /** No column sits in two constraints, and every constrained column is a column of the table. */
  ghost predicate SeparateGroups(columns: seq<Column>, groups: Groups) {
    && (forall g, h, c :: g in groups && h in groups && c in groups[g] && c in groups[h] ==> g == h)
    && (forall g, c :: g in groups && c in groups[g] ==> exists i :: 0 <= i < |columns| && columns[i].name == c)
  }

  /** Separate constraints lose nothing, so a table the detector accepts has its foreign keys as a key. */
  lemma {:induction false} SeparateSound(columns: seq<Column>, groups: Groups, cols: set<string>)
    requires (forall i :: 0 <= i < |columns| ==> Untagged(columns[i])) && NamedGroups(groups)
    requires SeparateGroups(columns, groups) && CompleteKey(Tagged(columns, groups), cols)
    ensures NothingLost(columns, groups) && Implied(columns, groups, cols)
  {
    forall g | LeavesTag(columns, groups, g) ensures Implied(columns, groups, Kept(columns, groups, g)) {
      forall c | c in Members(groups[g]) ensures c in Kept(columns, groups, g) {
        var i :| 0 <= i < |columns| && columns[i].name == c;
        assert FirstTagger(columns[i], groups, g);
      }
    }
    var g := TagCovers(columns, groups, cols);
  }

  // ---- when it is not ----

  const USER := Column("user_id", false, false, "")
  const ROLE := Column("role_id", false, false, "")
  const CREATED := Column("created_at", false, false, "")

  /** Declared constraints: created_at alone, and (user_id, role_id, created_at). */
  function Overlapping(): Groups { map["a" := ["created_at"], "b" := ["user_id", "role_id", "created_at"]] }

  /** user_roles.user_id -> users.id and user_roles.role_id -> roles.id. */
  function Links(): seq<Relation> {
    [PlainKey("user_roles", "user_id", "users"), PlainKey("user_roles", "role_id", "roles")]
  }

  lemma {:induction false} OverlapOnly()
    ensures FirstTagger(USER, Overlapping(), "b") && FirstTagger(ROLE, Overlapping(), "b")
    ensures Overlapping()["a"] == [CREATED.name] && NamedGroups(Overlapping())
  {
    assert "user_id" != "created_at" && "role_id" != "created_at" by {
      assert "user_id"[0] != "created_at"[0] && "role_id"[0] != "created_at"[0];
    }
    assert ["user_id", "role_id", "created_at"][0] == "user_id" && ["user_id", "role_id", "created_at"][1] == "role_id";
  }

  lemma {:induction false} OverlapTags()
    ensures var t := Tagged([USER, ROLE, CREATED], Overlapping());
            && t[0] == USER.(unique := true, uniqueGroup := "b")
            && t[1] == ROLE.(unique := true, uniqueGroup := "b")
            && UniqueAlone(t[2]) && t[2].name == "created_at"
  {
    var columns, groups := [USER, ROLE, CREATED], Overlapping();
    OverlapOnly();
    TaggedByFirst(columns, groups, 0, "b");
    TaggedByFirst(columns, groups, 1, "b");
    SingleTagExact(columns, groups, 2);
    TaggedKeepsNames(columns, groups);
  }

  /** The tags make (user_id, role_id) look complete, and no declared constraint lies within it. */
  lemma {:induction false} OverlapLooksComplete()
    ensures var columns := [USER, ROLE, CREATED];
            var cols := {"user_id", "role_id"};
            && !HasExtra(Tagged(columns, Overlapping()), cols)
            && CompleteKey(Tagged(columns, Overlapping()), cols)
            && !Implied(columns, Overlapping(), cols)
  {
    var columns, groups := [USER, ROLE, CREATED], Overlapping();
    OverlapTags();
    var tagged := Tagged(columns, groups);
    assert GroupName(tagged[2])[0] == '_';
    assert TaggedWith(tagged, "b") == {"user_id", "role_id"};
    assert "created_at" in Members(groups["a"]) && "created_at" in Members(groups["b"]);
  }

  lemma {:induction false} BothForeignKeys(x: Relation, y: Relation, t: string)
    requires IsForeignKey(x, t) && IsForeignKey(y, t)
    ensures ForeignKeys([x, y], t) == [x, y]
  {
    assert [x][..0] == [] && [x, y][..1] == [x];
    assert ForeignKeys([], t) == [];
    assert ForeignKeys([x], t) == [x];
  }

  lemma {:induction false} BothColumns(x: Relation, y: Relation)
    requires ValidName(x.sourceColumn) && ValidName(y.sourceColumn)
    ensures FkColumnSet([x, y]) == {x.sourceColumn, y.sourceColumn}
  {
    NameIsColumn(x.sourceColumn);
    NameIsColumn(y.sourceColumn);
    var fks := [x, y];
    assert x.sourceColumn in Columns(fks[0].sourceColumn) && y.sourceColumn in Columns(fks[1].sourceColumn);
  }

  lemma {:induction false} LinkColumns()
    ensures ForeignKeys(Links(), "user_roles") == Links() && FkColumnSet(Links()) == {"user_id", "role_id"}
    ensures Links()[0].targetTable != Links()[1].targetTable
  {
    var x, y := PlainKey("user_roles", "user_id", "users"), PlainKey("user_roles", "role_id", "roles");
    BothForeignKeys(x, y, "user_roles");
    LinkNames();
    BothColumns(x, y);
  }

  lemma {:induction false} LinkNames()
    ensures ValidName("user_id") && ValidName("role_id") && "users" != "roles"
  {
    assert "users"[0] != "roles"[0];
  }

  /**
   A schema and relations on which the detector reports user_roles as a pure
   junction although it may link one user to one role many times: the triple
   constraint lost created_at to the single one and looks like (user_id, role_id).
   */
  lemma {:induction false} OverlapMisread()
    returns (columns: seq<Column>, groups: Groups, rels: seq<Relation>, t: string)
    ensures columns == [USER, ROLE, CREATED] && groups == Overlapping() && rels == Links() && t == "user_roles"
    ensures var tables: Tables := map[t := Tagged(columns, groups)];
            && t in JunctionTables(tables, rels)
            && !IsKey(columns, groups, FkColumnSet(ForeignKeys(rels, t)))
            && !NothingMisread(columns, groups)
  {
    var cols, names;
    columns, groups, cols := OverlapColumns();
    rels, t, names := OverlapLinks();
    Misread(columns, groups, rels, t, cols);
  }

  lemma {:induction false} OverlapColumns() returns (columns: seq<Column>, groups: Groups, cols: set<string>)
    ensures columns == [USER, ROLE, CREATED] && groups == Overlapping() && cols == {"user_id", "role_id"}
    ensures (forall i :: 0 <= i < |columns| ==> Untagged(columns[i])) && NamedGroups(groups)
    ensures !HasExtra(Tagged(columns, groups), cols) && CompleteKey(Tagged(columns, groups), cols)
    ensures !Implied(columns, groups, cols)
  {
    OverlapOnly();
    OverlapLooksComplete();
    columns, groups, cols := [USER, ROLE, CREATED], Overlapping(), {"user_id", "role_id"};
  }

  lemma {:induction false} OverlapLinks() returns (rels: seq<Relation>, t: string, cols: set<string>)
    ensures rels == Links() && t == "user_roles" && cols == {"user_id", "role_id"}
    ensures ForeignKeys(rels, t) == rels && |rels| == 2 && rels[0].targetTable != rels[1].targetTable
    ensures FkColumnSet(rels) == cols
  {
    LinkColumns();
    rels, t, cols := Links(), "user_roles", {"user_id", "role_id"};
  }

  lemma {:induction false} Misread(
    columns: seq<Column>, groups: Groups, rels: seq<Relation>, t: string, cols: set<string>)
    requires (forall i :: 0 <= i < |columns| ==> Untagged(columns[i])) && NamedGroups(groups)
    requires ForeignKeys(rels, t) == rels && |rels| == 2 && rels[0].targetTable != rels[1].targetTable
    requires FkColumnSet(rels) == cols
    requires !HasExtra(Tagged(columns, groups), cols) && CompleteKey(Tagged(columns, groups), cols)
    requires !Implied(columns, groups, cols)
    ensures var tables: Tables := map[t := Tagged(columns, groups)];
            && t in JunctionTables(tables, rels) && !IsKey(columns, groups, FkColumnSet(ForeignKeys(rels, t)))
            && !NothingMisread(columns, groups)
  {
    var tables: Tables := map[t := Tagged(columns, groups)];
    Detected(tables, rels, t);
    JunctionIsKey(tables, rels, t, columns, groups);
  }

  lemma {:induction false} Detected(tables: Tables, rels: seq<Relation>, t: string)
    requires t in tables && ForeignKeys(rels, t) == rels && |rels| == 2 && rels[0].targetTable != rels[1].targetTable
    requires !HasExtra(tables[t], FkColumnSet(rels)) && CompleteKey(tables[t], FkColumnSet(rels))
    ensures t in JunctionTables(tables, rels)
  {
    assert IsJunction(tables, ForeignKeys(rels, t), t);
  }
}
