/**
 Table relations of the model generator (internal/database/gen/relation.go):
 the record, its string key, name validation, default field names, and the
 merge of physical and logical relations.
 */
module Relations {
  import opened Wrappers
  import opened Ordering
  import opened Text
  import opened KeyedMaps

  const MANY_TO_MANY := "many-to-many"

  datatype Relation = Relation(
    kind: string, through: string,
    sourceTable: string, sourceColumn: string,
    targetTable: string, targetColumn: string,
    field: string, reverseField: string,
    hasOne: bool, m2mJoin: string, skipReverse: bool)
  {
    predicate IsM2M() { kind == MANY_TO_MANY }

    function Endpoints(): string {
      sourceTable + ['.'] + (sourceColumn + ['-'] + (['>'] + (targetTable + ['.'] + targetColumn)))
    }

    function Key(): string {
      if IsM2M() then ['m', '2', 'm'] + [':'] + (through + [':'] + Endpoints()) else Endpoints()
    }
  }

  datatype GenError =
    | InvalidRelation | DuplicateRelation | SelfFieldConflict | FieldConflict
    | JunctionKeysNotFound | UnknownTable | ColumnNotFound | ColumnFieldConflict

  type GenResult<T> = Result<T, GenError>

  /** The word-inflection and camel-case libraries, left uninterpreted. */
  datatype Naming = Naming(camel: string -> string, singular: string -> string, plural: string -> string)

  // ---- composite columns and name validation ----

  function Compact(parts: seq<string>): (cols: seq<string>)
    ensures |cols| <= |parts|
    ensures forall i :: 0 <= i < |cols| ==> cols[i] != ""
  {
    if parts == [] then []
    else
      var last := Trim(parts[|parts| - 1]);
      Compact(parts[..|parts| - 1]) + (if last != "" then [last] else [])
  }

  /** The column list that a composite such as "a+b" denotes. */
  function Columns(value: string): (cols: seq<string>)
    ensures forall i :: 0 <= i < |cols| ==> cols[i] != ""
  {
    Compact(Split(value, '+'))
  }

  method SplitCompositeColumns(value: string) returns (out: seq<string>)
    ensures out == Columns(value)
  {
    var parts := Split(value, '+');
    out := [];
    for i := 0 to |parts|
      invariant out == Compact(parts[..i])
    {
      assert parts[..i + 1][..i] == parts[..i];
      var p := Trim(parts[i]);
      if p != "" { out := out + [p]; }
    }
    assert parts[..|parts|] == parts;
  }

  /** One part of a composite: a name, or nothing, with white space around it. */
  datatype Part = Part(before: string, name: string, after: string)
  {
    predicate WellFormed() { Blank(before) && Trimmed(name) && Blank(after) && '+' !in Text() }

    function Text(): string { before + name + after }
  }

  function Texts(parts: seq<Part>): (texts: seq<string>)
    ensures |texts| == |parts| && forall i :: 0 <= i < |parts| ==> texts[i] == parts[i].Text()
  {
    seq(|parts|, i requires 0 <= i < |parts| => parts[i].Text())
  }

  function Names(parts: seq<Part>): seq<string> {
    if parts == [] then []
    else Names(parts[..|parts| - 1]) + if parts[|parts| - 1].name != "" then [parts[|parts| - 1].name] else []
  }

  /** However it is spaced, a composite denotes the names between its plus signs, blank parts left out. */
  lemma {:induction false} ColumnsRead(parts: seq<Part>)
    requires parts != [] && forall i :: 0 <= i < |parts| ==> parts[i].WellFormed()
    ensures Columns(Join(Texts(parts), ['+'])) == Names(parts)
  {
    SplitJoin(Texts(parts), '+');
    CompactReads(parts);
  }

  lemma {:induction false} CompactReads(parts: seq<Part>)
    requires forall i :: 0 <= i < |parts| ==> parts[i].WellFormed()
    ensures Compact(Texts(parts)) == Names(parts)
  {
    if parts != [] {
      var n := |parts| - 1;
      CompactReads(parts[..n]);
      assert Texts(parts)[..n] == Texts(parts[..n]);
      TrimPadded(parts[n].before, parts[n].name, parts[n].after);
    }
  }

  predicate IsLetter(c: char) { 'a' <= c <= 'z' || 'A' <= c <= 'Z' }
  predicate IsNameChar(c: char) { IsLetter(c) || '0' <= c <= '9' || c == '_' }

  /** ^[a-zA-Z_][a-zA-Z0-9_]*$ */
  predicate ValidName(s: string) {
    s != "" && (IsLetter(s[0]) || s[0] == '_') && forall i :: 0 <= i < |s| ==> IsNameChar(s[i])
  }

  /** ^[A-Z][a-zA-Z0-9_]*$ */
  predicate GoIdentifier(s: string) {
    s != "" && 'A' <= s[0] <= 'Z' && forall i :: 0 <= i < |s| ==> IsNameChar(s[i])
  }

  predicate ValidColumns(s: string) {
    forall i :: 0 <= i < |Columns(s)| ==> ValidName(Columns(s)[i])
  }

  predicate ValidEndpoints(r: Relation) {
    && ValidName(r.sourceTable) && ValidName(r.targetTable)
    && ValidColumns(r.sourceColumn) && ValidColumns(r.targetColumn)
  }

  predicate ValidRelation(r: Relation) {
    && ValidEndpoints(r)
    && (r.IsM2M() ==> ValidName(r.through))
    && (r.field == "" || GoIdentifier(r.field))
    && (r.reverseField == "" || GoIdentifier(r.reverseField))
  }

  function KeyOf(r: Relation): string { r.Key() }

  predicate DistinctKeys(rels: seq<Relation>) { Distinct(KeyOf, rels) }

  // ---- the key is injective over validated names ----

  lemma {:induction false} CompactCovers(parts: seq<string>, i: nat, c: char)
    requires i < |parts| && c in parts[i] && !IsSpace(c)
    ensures exists j :: 0 <= j < |Compact(parts)| && c in Compact(parts)[j]
  {
    var n := |parts| - 1;
    if i == n {
      TrimKeeps(parts[n], c);
      var cols := Compact(parts);
      assert cols[|cols| - 1] == Trim(parts[n]);
    } else {
      CompactCovers(parts[..n], i, c);
      var j :| 0 <= j < |Compact(parts[..n])| && c in Compact(parts[..n])[j];
      assert Compact(parts)[j] == Compact(parts[..n])[j];
    }
  }

  lemma {:induction false} NameTrimmed(name: string)
    requires ValidName(name)
    ensures Trim(name) == name
  {
    assert IsNameChar(name[0]) && IsNameChar(name[|name| - 1]);
    TrimIdentity(name);
  }

  /** A name by itself is a list of one column. */
  lemma {:induction false} NameIsColumn(name: string)
    requires ValidName(name)
    ensures Columns(name) == [name] && '.' !in name
  {
    SplitNone(name, '+');
    NameTrimmed(name);
    assert [name][..0] == [];
    assert Compact([]) == [];
  }

  /** A validated column list holds name characters, '+' and white space only. */
  lemma {:induction false} ColumnChars(s: string, c: char)
    requires ValidColumns(s) && c in s
    ensures IsNameChar(c) || c == '+' || IsSpace(c)
  {
    if c != '+' && !IsSpace(c) {
      var i := SplitCovers(s, '+', c);
      CompactCovers(Split(s, '+'), i, c);
      var j :| 0 <= j < |Columns(s)| && c in Columns(s)[j];
      assert ValidName(Columns(s)[j]);
    }
  }

  function Count(s: string, c: char): nat { multiset(s)[c] }

  lemma {:induction false} CountZero(s: string, c: char)
    ensures Count(s, c) == 0 <==> c !in s
  {
    assert c in s <==> c in multiset(s);
  }

  lemma {:induction false} EndpointsCount(r: Relation, c: char)
    requires c == '.' || c == '-'
    ensures Count(r.Endpoints(), c) ==
            Count(r.sourceTable, c) + Count(r.sourceColumn, c) + Count(r.targetTable, c) + Count(r.targetColumn, c) +
            if c == '.' then 2 else 1
  {
  }

  lemma {:induction false} NoMoreDelimiters(a: Relation, b: Relation, c: char)
    requires ValidEndpoints(a) && a.Endpoints() == b.Endpoints() && (c == '.' || c == '-')
    ensures c !in b.sourceTable && c !in b.sourceColumn && c !in b.targetTable && c !in b.targetColumn
  {
    PlainParts(a, c);
    EndpointsCount(a, c);
    EndpointsCount(b, c);
    CountZero(a.sourceTable, c);
    CountZero(a.sourceColumn, c);
    CountZero(a.targetTable, c);
    CountZero(a.targetColumn, c);
    CountZero(b.sourceTable, c);
    CountZero(b.sourceColumn, c);
    CountZero(b.targetTable, c);
    CountZero(b.targetColumn, c);
  }

  lemma {:induction false} PlainParts(a: Relation, c: char)
    requires ValidEndpoints(a) && (c == '.' || c == '-')
    ensures c !in a.sourceTable && c !in a.sourceColumn && c !in a.targetTable && c !in a.targetColumn
  {
    if c in a.sourceColumn { ColumnChars(a.sourceColumn, c); }
    if c in a.targetColumn { ColumnChars(a.targetColumn, c); }
  }

  lemma {:induction false} NoColon(r: Relation)
    requires ValidEndpoints(r)
    ensures ':' !in r.Endpoints()
  {
    forall c | c in r.sourceColumn ensures c != ':' { ColumnChars(r.sourceColumn, c); }
    forall c | c in r.targetColumn ensures c != ':' { ColumnChars(r.targetColumn, c); }
  }

  /** Whatever has the key of a valid relation has its endpoints. */
  lemma {:induction false} EndpointsForced(a: Relation, b: Relation)
    requires ValidEndpoints(a) && a.Endpoints() == b.Endpoints()
    ensures a.sourceTable == b.sourceTable && a.sourceColumn == b.sourceColumn
    ensures a.targetTable == b.targetTable && a.targetColumn == b.targetColumn
  {
    PlainParts(a, '.');
    PlainParts(a, '-');
    NoMoreDelimiters(a, b, '.');
    NoMoreDelimiters(a, b, '-');
    var x, y := ['>'] + (a.targetTable + ['.'] + a.targetColumn), ['>'] + (b.targetTable + ['.'] + b.targetColumn);
    CutInjective(a.sourceTable, a.sourceColumn + ['-'] + x, b.sourceTable, b.sourceColumn + ['-'] + y, '.');
    CutInjective(a.sourceColumn, x, b.sourceColumn, y, '-');
    assert x[1..] == a.targetTable + ['.'] + a.targetColumn && y[1..] == b.targetTable + ['.'] + b.targetColumn;
    CutInjective(a.targetTable, a.targetColumn, b.targetTable, b.targetColumn, '.');
  }

  predicate SameIdentity(a: Relation, b: Relation) {
    && a.IsM2M() == b.IsM2M() && (a.IsM2M() ==> a.through == b.through)
    && a.sourceTable == b.sourceTable && a.sourceColumn == b.sourceColumn
    && a.targetTable == b.targetTable && a.targetColumn == b.targetColumn
  }

  lemma {:induction false} M2MKeyHasColon(r: Relation)
    requires r.IsM2M()
    ensures ':' in r.Key() && r.Key()[4..] == r.through + [':'] + r.Endpoints()
  {
    assert r.Key()[3] == ':';
  }

  /** Two validated relations share a key exactly when they are the same relation. */
  lemma {:induction false} KeyInjective(a: Relation, b: Relation)
    requires ValidRelation(a) && ValidRelation(b)
    ensures a.Key() == b.Key() <==> SameIdentity(a, b)
  {
    if a.Key() == b.Key() {
      NoColon(a);
      NoColon(b);
      if a.IsM2M() { M2MKeyHasColon(a); }
      if b.IsM2M() { M2MKeyHasColon(b); }
      if a.IsM2M() && b.IsM2M() {
        CutInjective(a.through, a.Endpoints(), b.through, b.Endpoints(), ':');
      }
      EndpointsForced(a, b);
    }
  }

  // ---- struct field names ----

  function FieldNames(naming: Naming, r: Relation): (names: (string, string)) {
    var self := r.sourceTable == r.targetTable;
    var field :=
      if r.field != "" then r.field
      else if r.IsM2M() then naming.plural(naming.camel(r.targetTable))
      else if self then "Parent"
      else naming.singular(naming.camel(r.targetTable));
    var reverse :=
      if r.reverseField != "" then r.reverseField
      else if !r.IsM2M() && self then (if r.hasOne then "Child" else "Children")
      else naming.plural(naming.camel(r.sourceTable));
    (field, reverse)
  }

  /** The struct slots "table.Field" a relation fills, each mapped to its key. */
  function Occupies(naming: Naming, r: Relation): (slots: map<string, string>) {
    var (field, reverse) := FieldNames(naming, r);
    var own := map[r.sourceTable + ['.'] + field := r.Key()];
    if r.IsM2M() || !r.skipReverse
    then own[r.targetTable + ['.'] + reverse := r.Key()]
    else own
  }

  // ---- mergeRelations ----

  function Override(existing: Relation, r: Relation): (o: Relation)
    ensures o.Endpoints() == existing.Endpoints()
  {
    existing.(
      field := if r.field != "" then r.field else existing.field,
      reverseField := if r.reverseField != "" then r.reverseField else existing.reverseField,
      kind := if r.kind != "" then r.kind else existing.kind,
      through := if r.through != "" then r.through else existing.through)
  }

  function MergedMap(physical: seq<Relation>, logical: seq<Relation>): (m: map<string, Relation>) {
    Combine(KeyOf, Override, Overwrite(KeyOf, map[], physical), logical)
  }

  function Pick(m: map<string, Relation>, keys: seq<string>): (rels: seq<Relation>)
    requires forall i :: 0 <= i < |keys| ==> keys[i] in m
    ensures |rels| == |keys| && forall i :: 0 <= i < |keys| ==> rels[i] == m[keys[i]]
  {
    seq(|keys|, i requires 0 <= i < |keys| => m[keys[i]])
  }

  /** What one relation asks of the merge: its slots, under its key. */
  datatype Claim = Claim(valid: bool, selfClash: bool, slots: map<string, string>, name: string)
  {
    ghost predicate WellFormed() { forall slot :: slot in slots ==> slots[slot] == name }
  }

  function ClaimOf(naming: Naming, r: Relation): (c: Claim)
    ensures c.WellFormed()
  {
    var (field, reverse) := FieldNames(naming, r);
    Claim(ValidRelation(r), r.sourceTable == r.targetTable && field == reverse, Occupies(naming, r), r.Key())
  }

  function Claims(naming: Naming, rels: seq<Relation>): (claims: seq<Claim>)
    ensures |claims| == |rels|
    ensures forall i :: 0 <= i < |rels| ==> claims[i] == ClaimOf(naming, rels[i])
  {
    seq(|rels|, i requires 0 <= i < |rels| => ClaimOf(naming, rels[i]))
  }

  /** Two different relations want the same slot. */
  ghost predicate Clash(a: Claim, b: Claim) {
    a.name != b.name && exists slot :: slot in a.slots && slot in b.slots
  }

  /** What the merge loop finds wrong with claim n, given the ones before it. */
  ghost function MergeErrorAt(claims: seq<Claim>, n: nat): (r: GenResult<()>)
    requires n < |claims|
  {
    if !claims[n].valid then Err(InvalidRelation)
    else if claims[n].selfClash then Err(SelfFieldConflict)
    else if exists j :: 0 <= j < n && Clash(claims[j], claims[n]) then Err(FieldConflict)
    else Ok(())
  }

  ghost function MergeCheck(claims: seq<Claim>, n: nat): (r: GenResult<()>)
    requires n <= |claims|
  {
    if n == 0 then Ok(())
    else match MergeCheck(claims, n - 1)
      case Err(e) => Err(e)
      case Ok(_) => MergeErrorAt(claims, n - 1)
  }

  ghost function Finish(naming: Naming, m: map<string, Relation>): (r: GenResult<seq<Relation>>) {
    StringKeys(m.Keys);
    var rels := Pick(m, SortedKeys(LessEq, m.Keys));
    match MergeCheck(Claims(naming, rels), |rels|)
    case Ok(_) => Ok(rels)
    case Err(e) => Err(e)
  }

  /** mergeRelations, free of any map iteration order. */
  ghost function Merge(naming: Naming, physical: seq<Relation>, logical: seq<Relation>): (r: GenResult<seq<Relation>>) {
    Finish(naming, MergedMap(physical, logical))
  }

  /** fields records exactly the slots of the first n claims, under their names. */
  ghost predicate FieldsTrack(claims: seq<Claim>, n: nat, fields: map<string, string>)
    requires n <= |claims|
  {
    && (forall slot :: slot in fields ==> exists j :: 0 <= j < n && slot in claims[j].slots)
    && (forall j, slot :: 0 <= j < n && slot in claims[j].slots ==>
          slot in fields && fields[slot] == claims[j].name)
  }

  ghost predicate Free(claim: Claim, fields: map<string, string>) {
    forall slot :: slot in claim.slots && slot in fields ==> fields[slot] == claim.name
  }

  /** Accepting claim n extends the record; refusing it means a real clash. */
  lemma {:induction false} TrackStep(claims: seq<Claim>, n: nat, fields: map<string, string>)
    requires n < |claims| && claims[n].WellFormed() && FieldsTrack(claims, n, fields)
    ensures Free(claims[n], fields) <==> !exists j :: 0 <= j < n && Clash(claims[j], claims[n])
    ensures Free(claims[n], fields) ==> FieldsTrack(claims, n + 1, fields + claims[n].slots)
  {
    if !Free(claims[n], fields) {
      var slot :| slot in claims[n].slots && slot in fields && fields[slot] != claims[n].name;
      var j :| 0 <= j < n && slot in claims[j].slots;
      assert Clash(claims[j], claims[n]);
    }
  }

  /** One pass of the merge loop's inner range over `occupy`, in any order. */
  method OccupySlots(claim: Claim, fields: map<string, string>) returns (ok: bool, updated: map<string, string>)
    requires claim.WellFormed()
    ensures ok <==> Free(claim, fields)
    ensures ok ==> updated == fields + claim.slots
  {
    var occupy := claim.slots;
    var pending := occupy.Keys;
    updated := fields;
    while pending != {}
      invariant pending <= occupy.Keys
      invariant updated.Keys == fields.Keys + (occupy.Keys - pending)
      invariant forall k :: k in updated ==> updated[k] == if k in occupy.Keys - pending then claim.name else fields[k]
      invariant forall k :: k in occupy.Keys - pending && k in fields ==> fields[k] == claim.name
      decreases pending
    {
      var k :| k in pending;
      if k in updated && updated[k] != occupy[k] {
        return false, updated;
      }
      updated := updated[k := occupy[k]];
      pending := pending - {k};
    }
    return true, updated;
  }

  lemma {:induction false} MergeCheckPrefix(claims: seq<Claim>, n: nat, m: nat)
    requires n <= m <= |claims| && MergeCheck(claims, n).Err?
    ensures MergeCheck(claims, m) == MergeCheck(claims, n)
  {
    if n < m { MergeCheckPrefix(claims, n, m - 1); }
  }

  method MergeRelations(naming: Naming, physical: seq<Relation>, logical: seq<Relation>)
    returns (r: GenResult<seq<Relation>>)
    ensures r == Merge(naming, physical, logical)
  {
    var merged: map<string, Relation> := map[];
    for i := 0 to |physical|
      invariant merged == Overwrite(KeyOf, map[], physical[..i])
    {
      assert physical[..i + 1][..i] == physical[..i];
      merged := merged[physical[i].Key() := physical[i]];
    }
    assert physical[..|physical|] == physical;
    for i := 0 to |logical|
      invariant merged == Combine(KeyOf, Override, Overwrite(KeyOf, map[], physical), logical[..i])
    {
      assert logical[..i + 1][..i] == logical[..i];
      var key := logical[i].Key();
      if key in merged {
        merged := merged[key := Override(merged[key], logical[i])];
      } else {
        merged := merged[key := logical[i]];
      }
    }
    assert logical[..|logical|] == logical;
    r := ValidateMerged(naming, merged);
  }

  method ValidateMerged(naming: Naming, merged: map<string, Relation>) returns (r: GenResult<seq<Relation>>)
    ensures r == Finish(naming, merged)
  {
    var keys := CollectSorted(LessEq, merged.Keys) by { StringOrder(); }
    StringKeys(merged.Keys);
    var result := Pick(merged, keys);
    var check := CheckClaims(Claims(naming, result));
    match check
    case Ok(_) => r := Ok(result);
    case Err(e) => r := Err(e);
  }

  /** What the loop finds at claim n decides the whole check, or lets it go on. */
  lemma {:induction false} ClaimStep(claims: seq<Claim>, n: nat, fields: map<string, string>)
    requires n < |claims| && claims[n].WellFormed() && MergeCheck(claims, n).Ok? && FieldsTrack(claims, n, fields)
    ensures var c := claims[n];
      && (!c.valid ==> MergeCheck(claims, |claims|) == Err(InvalidRelation))
      && (c.valid && c.selfClash ==> MergeCheck(claims, |claims|) == Err(SelfFieldConflict))
      && (c.valid && !c.selfClash && !Free(c, fields) ==> MergeCheck(claims, |claims|) == Err(FieldConflict))
      && (c.valid && !c.selfClash && Free(c, fields) ==>
          MergeCheck(claims, n + 1).Ok? && FieldsTrack(claims, n + 1, fields + c.slots))
  {
    TrackStep(claims, n, fields);
    if MergeErrorAt(claims, n).Err? {
      MergeCheckPrefix(claims, n + 1, |claims|);
    }
  }

  /** The merge loop over the sorted relations, with its `fields` record. */
  method CheckClaims(claims: seq<Claim>) returns (r: GenResult<()>)
    requires forall i :: 0 <= i < |claims| ==> claims[i].WellFormed()
    ensures r == MergeCheck(claims, |claims|)
  {
    var fields: map<string, string> := map[];
    for i := 0 to |claims|
      invariant MergeCheck(claims, i).Ok?
      invariant FieldsTrack(claims, i, fields)
    {
      ClaimStep(claims, i, fields);
      if !claims[i].valid {
        return Err(InvalidRelation);
      }
      if claims[i].selfClash {
        return Err(SelfFieldConflict);
      }
      var ok, updated := OccupySlots(claims[i], fields);
      if !ok {
        return Err(FieldConflict);
      }
      fields := updated;
    }
    return Ok(());
  }
}
