/**
 Columns, unique constraints and has-one inference (internal/database/gen/model.go,
 relation.go), with the meaning of both in table instances.
 */
module Schema {
  import opened Ordering
  import opened Text
  import opened Relations

  /** The part of a column that relation inference looks at. */
  datatype Column = Column(name: string, primaryKey: bool, unique: bool, uniqueGroup: string)

  type Groups = map<string, seq<string>>

  // ---- applyUniqueConstraints ----

  function GroupSize(groups: Groups, g: string): nat { if g in groups then |groups[g]| else 0 }

  function GroupOrder(groups: Groups): (string, string) -> bool {
    (a, b) => GroupSize(groups, a) < GroupSize(groups, b)
        || (GroupSize(groups, a) == GroupSize(groups, b) && LessEq(a, b))
  }

  lemma {:induction false} GroupOrderTotal(groups: Groups)
    ensures TotalOrder(GroupOrder(groups))
  {
    StringOrder();
  }

  /** Whether group `cols` may tag `col` (a single-column group skips the primary key). */
  predicate Tags(col: Column, cols: seq<string>) {
    col.name in cols && !(col.primaryKey && |cols| == 1)
  }

  function TagColumn(col: Column, g: string, cols: seq<string>): Column {
    if col.unique || !Tags(col, cols) then col
    else if |cols| > 1 then col.(unique := true, uniqueGroup := g)
    else col.(unique := true)
  }

  function TagAll(col: Column, groups: Groups, keys: seq<string>): Column
    requires forall k :: k in keys ==> k in groups
  {
    if keys == [] then col
    else
      var last := keys[|keys| - 1];
      TagColumn(TagAll(col, groups, keys[..|keys| - 1]), last, groups[last])
  }

  /** Every column of a table, tagged by the groups in ascending size and name. */
  ghost function Tagged(columns: seq<Column>, groups: Groups): (r: seq<Column>)
    ensures |r| == |columns|
  {
    var keys := SortedKeys(GroupOrder(groups), groups.Keys);
    GroupKeys(groups);
    seq(|columns|, i requires 0 <= i < |columns| => TagAll(columns[i], groups, keys))
  }

  lemma {:induction false} GroupKeys(groups: Groups)
    ensures Ascending(GroupOrder(groups), SortedKeys(GroupOrder(groups), groups.Keys), groups.Keys)
  {
    GroupOrderTotal(groups);
    AscendingKeys(GroupOrder(groups), groups.Keys);
  }

  method ApplyUniqueConstraints(columns: array<Column>, groups: Groups)
    modifies columns
    ensures columns[..] == Tagged(old(columns[..]), groups)
  {
    GroupKeys(groups);
    if |groups| == 0 {
      assert groups.Keys == {};
      assert |SortedKeys(GroupOrder(groups), groups.Keys)| == |multiset(groups.Keys)| == 0;
      return;
    }
    var keys := CollectSorted(GroupOrder(groups), groups.Keys) by { GroupOrderTotal(groups); }
    TagGroups(columns, groups, keys);
    assert keys[..|keys|] == keys;
  }

  /** The loop over the sorted groups. */
  method TagGroups(columns: array<Column>, groups: Groups, keys: seq<string>)
    requires forall k :: k in keys ==> k in groups
    modifies columns
    ensures TaggedSoFar(old(columns[..]), columns[..], groups, keys, |keys|)
  {
    ghost var start := columns[..];
    assert keys[..0] == [];
    for g := 0 to |keys|
      invariant TaggedSoFar(start, columns[..], groups, keys, g)
    {
      assert keys[g] in keys;
      ghost var before := columns[..];
      TagGroup(columns, keys[g], groups[keys[g]]);
      TaggedNext(start, before, columns[..], groups, keys, g);
    }
  }

  /** The columns after the first g groups. */
  ghost predicate TaggedSoFar(start: seq<Column>, now: seq<Column>, groups: Groups, keys: seq<string>, g: nat)
    requires forall k :: k in keys ==> k in groups
  {
    g <= |keys| && |now| == |start| && forall i :: 0 <= i < |start| ==> now[i] == TagAll(start[i], groups, keys[..g])
  }

  lemma {:induction false} TaggedNext(
    start: seq<Column>, before: seq<Column>, now: seq<Column>, groups: Groups, keys: seq<string>, g: nat)
    requires (forall k :: k in keys ==> k in groups) && g < |keys| && keys[g] in groups
    requires TaggedSoFar(start, before, groups, keys, g)
    requires |now| == |before|
    requires forall i :: 0 <= i < |before| ==> now[i] == TagColumn(before[i], keys[g], groups[keys[g]])
    ensures TaggedSoFar(start, now, groups, keys, g + 1)
  {
    assert keys[..g + 1][..g] == keys[..g];
  }

  /** The two inner loops: every column name of one group against every column. */
  method TagGroup(columns: array<Column>, group: string, cols: seq<string>)
    modifies columns
    ensures forall i :: 0 <= i < columns.Length ==> columns[i] == TagColumn(old(columns[i]), group, cols)
  {
    for c := 0 to |cols|
      invariant forall i :: 0 <= i < columns.Length ==>
        columns[i] == if old(columns[i]).name in cols[..c] then TagColumn(old(columns[i]), group, cols)
            else old(columns[i])
    {
      assert cols[..c + 1] == cols[..c] + [cols[c]];
      ghost var before := columns[..];
      for i := 0 to columns.Length
        invariant forall k :: 0 <= k < columns.Length ==>
          columns[k] == if k < i && before[k].name == cols[c] then TagColumn(before[k], group, cols) else before[k]
      {
        if columns[i].name != cols[c] || columns[i].unique { continue; }
        if columns[i].primaryKey && |cols| == 1 { continue; }
        columns[i] := columns[i].(unique := true);
        if |cols| > 1 { columns[i] := columns[i].(uniqueGroup := group); }
      }
    }
    assert cols[..|cols|] == cols;
  }

  ghost predicate Untagged(col: Column) { !col.unique && col.uniqueGroup == "" }

  lemma {:induction false} TagAllMeans(col: Column, groups: Groups, keys: seq<string>)
    requires Untagged(col) && forall k :: k in keys ==> k in groups
    ensures var r := TagAll(col, groups, keys);
            && r.name == col.name && r.primaryKey == col.primaryKey
            && (r.unique <==> exists k :: k in keys && Tags(col, groups[k]))
            && (!r.unique ==> Untagged(r))
  {
    if keys != [] {
      var rest, last := keys[..|keys| - 1], keys[|keys| - 1];
      assert keys == rest + [last];
      TagAllMeans(col, groups, rest);
      var before := TagAll(col, groups, rest);
      if !before.unique && Tags(col, groups[last]) { assert last in keys; }
    }
  }

  /** The first tagging group decides the recorded group name. */
  lemma {:induction false} TagAllFirst(col: Column, groups: Groups, keys: seq<string>, n: nat)
    requires Untagged(col) && forall k :: k in keys ==> k in groups
    requires n < |keys| && Tags(col, groups[keys[n]])
    requires forall i :: 0 <= i < n ==> !Tags(col, groups[keys[i]])
    ensures TagAll(col, groups, keys) == TagColumn(col, keys[n], groups[keys[n]])
  {
    var rest := keys[..|keys| - 1];
    if n < |rest| {
      TagAllFirst(col, groups, rest, n);
    } else {
      forall k | k in rest ensures !Tags(col, groups[k]) {
        var i :| 0 <= i < |rest| && rest[i] == k;
        assert keys[i] == k;
      }
      TagAllSame(col, groups, rest);
    }
  }

  lemma {:induction false} TagAllSame(col: Column, groups: Groups, keys: seq<string>)
    requires forall k :: k in keys ==> k in groups && !Tags(col, groups[k])
    ensures TagAll(col, groups, keys) == col
  {
    if keys != [] {
      assert keys[|keys| - 1] in keys;
      TagAllSame(col, groups, keys[..|keys| - 1]);
    }
  }

  lemma {:induction false} FirstTag(col: Column, groups: Groups, keys: seq<string>, k: string) returns (n: nat)
    requires forall k :: k in keys ==> k in groups
    requires k in keys && Tags(col, groups[k])
    ensures n < |keys| && Tags(col, groups[keys[n]])
    ensures forall i :: 0 <= i < n ==> !Tags(col, groups[keys[i]])
  {
    n := 0;
    var m :| 0 <= m < |keys| && keys[m] == k;
    while !Tags(col, groups[keys[n]])
      invariant n <= m
      invariant forall i :: 0 <= i < n ==> !Tags(col, groups[keys[i]])
      decreases m - n
    {
      n := n + 1;
    }
  }

  /** A column unique by itself, as collectUniqueness reads the tags. */
  predicate UniqueAlone(col: Column) { col.unique && col.uniqueGroup == "" }

  ghost predicate NamedGroups(groups: Groups) { forall g :: g in groups ==> g != "" && groups[g] != [] }

  ghost predicate BySize(groups: Groups, keys: seq<string>) {
    && (forall k :: k in keys <==> k in groups)
    && (forall i, j :: 0 <= i < j < |keys| ==> |groups[keys[i]]| <= |groups[keys[j]]|)
  }

  lemma {:induction false} SizesAscend(le: (string, string) -> bool, groups: Groups, keys: seq<string>)
    requires forall a, b :: le(a, b) ==> GroupSize(groups, a) <= GroupSize(groups, b)
    requires Ascending(le, keys, groups.Keys)
    ensures BySize(groups, keys)
  {
    forall i, j | 0 <= i < j < |keys| ensures |groups[keys[i]]| <= |groups[keys[j]]| {
      assert keys[i] in keys && keys[j] in keys;
      assert le(keys[i], keys[j]);
    }
  }

  ghost predicate OwnConstraint(col: Column, groups: Groups) {
    !col.primaryKey && exists g :: g in groups && groups[g] == [col.name]
  }

  lemma {:induction false} TaggedAlone(col: Column, groups: Groups, keys: seq<string>)
    requires Untagged(col) && NamedGroups(groups) && BySize(groups, keys)
    ensures UniqueAlone(TagAll(col, groups, keys)) <==> OwnConstraint(col, groups)
  {
    TagAllMeans(col, groups, keys);
    if k :| k in keys && Tags(col, groups[k]) {
      var n := FirstTag(col, groups, keys, k);
      TagAllFirst(col, groups, keys, n);
      assert keys[n] in keys;
      if |groups[keys[n]]| == 1 {
        assert groups[keys[n]] == [col.name];
      } else if g :| g in groups && groups[g] == [col.name] && !col.primaryKey {
        var i :| 0 <= i < |keys| && keys[i] == g;
        assert Tags(col, groups[keys[i]]);
      }
    } else if g :| g in groups && groups[g] == [col.name] && !col.primaryKey {
      assert g in keys && Tags(col, groups[g]);
    }
  }

  /**
   Reading the tags back finds exactly the single-column constraints off the
   primary key: the ascending-size order keeps a composite group from hiding one.
   */
  lemma {:induction false} SingleTagExact(columns: seq<Column>, groups: Groups, i: nat)
    requires i < |columns| && Untagged(columns[i]) && NamedGroups(groups)
    ensures UniqueAlone(Tagged(columns, groups)[i]) <==> OwnConstraint(columns[i], groups)
  {
    GroupKeys(groups);
    SizesAscend(GroupOrder(groups), groups, SortedKeys(GroupOrder(groups), groups.Keys));
    TaggedAlone(columns[i], groups, SortedKeys(GroupOrder(groups), groups.Keys));
  }

  /** The group comes no later than the other: smaller, or of one size and no later by name. */
  predicate Before(groups: Groups, g: string, h: string)
    requires g in groups && h in groups
  {
    |groups[g]| < |groups[h]| || (|groups[g]| == |groups[h]| && LessEq(g, h))
  }

  /** The tag a column gets is that of the first constraint naming it, single ones on the primary key aside. */
  lemma {:induction false} TagExact(columns: seq<Column>, groups: Groups, i: nat, g: string)
    requires i < |columns| && Untagged(columns[i]) && g in groups && Tags(columns[i], groups[g])
    requires forall h :: h in groups && Tags(columns[i], groups[h]) ==> Before(groups, g, h)
    ensures Tagged(columns, groups)[i] ==
            columns[i].(unique := true, uniqueGroup := if |groups[g]| > 1 then g else "")
  {
    GroupOrderTotal(groups);
    GroupKeys(groups);
    var keys := SortedKeys(GroupOrder(groups), groups.Keys);
    var n := KeyPlace(GroupOrder(groups), keys, groups.Keys, g);
    forall m | 0 <= m < n ensures !Tags(columns[i], groups[keys[m]]) {
      assert keys[m] in keys;
      Earlier(groups, keys[m], g);
    }
    TagAllFirst(columns[i], groups, keys, n);
  }

  lemma {:induction false} Earlier(groups: Groups, h: string, g: string)
    requires g in groups && h in groups && h != g && GroupOrder(groups)(h, g)
    ensures !Before(groups, g, h)
  {
    LessEqTotal(h, g);
  }

  lemma {:induction false} KeyPlace(le: (string, string) -> bool, keys: seq<string>, all: set<string>, g: string)
    returns (n: nat)
    requires Ascending(le, keys, all) && g in all
    ensures n < |keys| && keys[n] == g
    ensures forall m :: 0 <= m < n ==> le(keys[m], g) && keys[m] != g
  {
    assert g in keys;
    n :| 0 <= n < |keys| && keys[n] == g;
  }

  /** A column that no constraint tags stays as it was. */
  lemma {:induction false} Untouched(columns: seq<Column>, groups: Groups, i: nat)
    requires i < |columns| && forall g :: g in groups ==> !Tags(columns[i], groups[g])
    ensures Tagged(columns, groups)[i] == columns[i]
  {
    GroupKeys(groups);
    TagAllSame(columns[i], groups, SortedKeys(GroupOrder(groups), groups.Keys));
  }

  // ---- collectUniqueness and annotateHasOne ----

  type Tables = map<string, seq<Column>>

  function UniqueSingle(columns: seq<Column>): set<string> {
    set i | 0 <= i < |columns| && UniqueAlone(columns[i]) :: columns[i].name
  }

  function PrimaryKey(columns: seq<Column>): set<string> {
    set i | 0 <= i < |columns| && columns[i].primaryKey :: columns[i].name
  }

  method CollectUniqueness(tables: Tables)
    returns (uniqueSingle: map<string, set<string>>, pkCols: map<string, set<string>>)
    ensures uniqueSingle == map t | t in tables :: UniqueSingle(tables[t])
    ensures pkCols == map t | t in tables :: PrimaryKey(tables[t])
  {
    uniqueSingle, pkCols := map[], map[];
    var pending := tables.Keys;
    while pending != {}
      invariant pending <= tables.Keys
      invariant uniqueSingle == map t | t in tables.Keys - pending :: UniqueSingle(tables[t])
      invariant pkCols == map t | t in tables.Keys - pending :: PrimaryKey(tables[t])
      decreases pending
    {
      var table :| table in pending;
      var columns := tables[table];
      var u: set<string>, p: set<string> := {}, {};
      for i := 0 to |columns|
        invariant u == UniqueSingle(columns[..i]) && p == PrimaryKey(columns[..i])
      {
        if columns[i].primaryKey { p := p + {columns[i].name}; }
        if columns[i].unique && columns[i].uniqueGroup == "" { u := u + {columns[i].name}; }
        UniquenessStep(columns, i);
      }
      assert columns[..|columns|] == columns;
      uniqueSingle, pkCols := uniqueSingle[table := u], pkCols[table := p];
      pending := pending - {table};
    }
    assert tables.Keys - {} == tables.Keys;
  }

  lemma {:induction false} UniquenessStep(columns: seq<Column>, i: nat)
    requires i < |columns|
    ensures UniqueSingle(columns[..i + 1]) ==
            UniqueSingle(columns[..i]) + (if UniqueAlone(columns[i]) then {columns[i].name} else {})
    ensures PrimaryKey(columns[..i + 1]) ==
            PrimaryKey(columns[..i]) + (if columns[i].primaryKey then {columns[i].name} else {})
  {
    var s := columns[..i + 1];
    assert s[i] == columns[i];
    assert forall k :: 0 <= k < i ==> s[k] == columns[..i][k];
  }

  /** The guard annotateHasOne applies: the whole foreign key is one unique column. */
  predicate SourceIsUnique(tables: Tables, r: Relation) {
    && !r.IsM2M() && |Columns(r.sourceColumn)| == 1 && r.sourceTable in tables
    && var col := Columns(r.sourceColumn)[0];
       var columns := tables[r.sourceTable];
       col in UniqueSingle(columns) || PrimaryKey(columns) == {col}
  }

  function Annotate(tables: Tables, r: Relation): Relation {
    if SourceIsUnique(tables, r) then r.(hasOne := true) else r
  }

  function AnnotateAll(tables: Tables, rels: seq<Relation>): (out: seq<Relation>)
    ensures |out| == |rels|
    ensures forall i :: 0 <= i < |rels| ==> out[i] == Annotate(tables, rels[i])
  {
    seq(|rels|, i requires 0 <= i < |rels| => Annotate(tables, rels[i]))
  }

  /** One turn of the annotation loop. */
  method AnnotateOne(
    rel: Relation, ghost tables: Tables, uniqueSingle: map<string, set<string>>, pkCols: map<string, set<string>>)
    returns (r: Relation)
    requires uniqueSingle == map t | t in tables :: UniqueSingle(tables[t])
    requires pkCols == map t | t in tables :: PrimaryKey(tables[t])
    ensures r == Annotate(tables, rel)
  {
    r := rel;
    if rel.IsM2M() { return; }
    var cols := SplitCompositeColumns(rel.sourceColumn);
    if |cols| != 1 { return; }
    var col := cols[0];
    if rel.sourceTable in uniqueSingle && col in uniqueSingle[rel.sourceTable] {
      return rel.(hasOne := true);
    }
    if rel.sourceTable in pkCols {
      var pks := pkCols[rel.sourceTable];
      if |pks| == 1 && col in pks {
        SingletonSet(pks, col);
        return rel.(hasOne := true);
      }
    }
  }

  method AnnotateHasOne(relations: array<Relation>, ghost tables: Tables,
                        uniqueSingle: map<string, set<string>>, pkCols: map<string, set<string>>)
    requires uniqueSingle == map t | t in tables :: UniqueSingle(tables[t])
    requires pkCols == map t | t in tables :: PrimaryKey(tables[t])
    modifies relations
    ensures relations[..] == AnnotateAll(tables, old(relations[..]))
  {
    ghost var goal := AnnotateAll(tables, relations[..]);
    for i := 0 to relations.Length
      invariant relations[..i] == goal[..i] && relations[i..] == old(relations[i..])
    {
      assert relations[i] == relations[i..][0] == old(relations[i]);
      relations[i] := AnnotateOne(relations[i], tables, uniqueSingle, pkCols);
    }
  }

  lemma {:induction false} SingletonSet(s: set<string>, x: string)
    requires |s| == 1 && x in s
    ensures s == {x}
  {
    assert |s - {x}| == 0;
    assert s == (s - {x}) + {x};
  }
}
