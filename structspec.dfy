/** parseStructTypeSpec and checkFields of gen/gen.go: one marked struct type. */
module StructSpec {
  import opened Wrappers
  import opened Strings
  import opened Syntax
  import opened FieldRecord
  import opened StructRecord
  import opened GoTypes
  import opened FieldTags

  /**
   * Why extraction fails. Each error names the type it was found in; the
   * last two stand for the source's panics ("please report this bug"),
   * which the parser never lets happen for well-formed input.
   */
  datatype Error =
    | ParseError(message: string)
    | AnonymousField(typeName: string)
    | UnexportedField(typeName: string, field: string)
    | InvalidTag(typeName: string, field: string)
    | PointerPK(typeName: string, field: string)
    | SlicePK(typeName: string, field: string)
    | DuplicatePK(typeName: string, field: string, first: string)
    | NoFields(typeName: string)
    | DuplicateColumn(typeName: string, field: string, column: string, first: string)
    | MultipleNames(typeName: string, count: nat)
    | UnsupportedType(typeName: string, field: string)


  /**
   * The member has a sky value the generator acts on: a tag literal of at
   * least three characters whose sky value is neither "" nor "-".
   */
  predicate Tagged(m: Member) {
    && m.tag.Some?
    && 3 <= m.tag.value.rawLength
    && m.tag.value.sky != ""
    && m.tag.value.sky != "-"
  }

  /** Go's ast.IsExported for names whose first letter is ASCII: an upper-case first letter. */
  predicate IsExported(name: string) {
    |name| > 0 && 'A' <= name[0] <= 'Z'
  }

  /**
   * `f` is what a tagged member maps to: its one exported name, its type's
   * spelling, the non-empty column of its sky value and the pk label, with
   * a primary key neither a pointer nor an array or slice.
   */
  predicate FieldOf(m: Member, f: Field) {
    && Tagged(m)
    && m.names == [f.name]
    && IsExported(f.name)
    && ParseFieldTag(m.tag.value.sky) == ColumnTag(f.column, f.isPK)
    && f.column != ""
    && Spellable(m.typ)
    && f.goType == FileGoType(m.typ)
    && KeyTypeAllowed(f)
  }

  /** What the member loop does with one member: pass over it, fail, or map it to a field. */
  datatype Step = Skip | Reject(error: Error) | Keep(field: Field)

  /**
   * One member on its own, checked in the source's order: tag, names,
   * export, column, type, then the pointer and slice checks for a primary
   * key. Only the duplicate-pk check needs the members before it.
   */
  function Classify(typeName: string, m: Member): (r: Step)
    ensures r.Skip? <==> !Tagged(m)
    ensures r.Keep? ==> FieldOf(m, r.field)
  {
    if !Tagged(m) then Skip
    else if |m.names| == 0 then Reject(AnonymousField(typeName))
    else if |m.names| != 1 then Reject(MultipleNames(typeName, |m.names|))
    else
      var name := m.names[0];
      if !IsExported(name) then Reject(UnexportedField(typeName, name))
      else
        var tag := ParseFieldTag(m.tag.value.sky);
        if tag.column == "" then Reject(InvalidTag(typeName, name))
        else if !Spellable(m.typ) then Reject(UnsupportedType(typeName, name))
        else
          var typ := FileGoType(m.typ);
          if tag.isPK && HasPrefix(typ, "*") then Reject(PointerPK(typeName, name))
          else if tag.isPK && HasPrefix(typ, "[") then Reject(SlicePK(typeName, name))
          else Keep(Field(name, typ, tag.column, tag.isPK))
  }

  /** The member loop's state: the fields mapped so far and the primary key's index, -1 for none. */
  datatype Draft = Draft(fields: seq<Field>, pkIndex: int)

  /** What the member loop keeps true of its state. */
  predicate DraftValid(d: Draft) {
    && -1 <= d.pkIndex < |d.fields|
    && FlagsAgree(d.fields, d.pkIndex)
    && forall i :: 0 <= i < |d.fields| ==> Mappable(d.fields[i])
  }

  /** A field a member can map to: a non-empty column, and a primary key neither a pointer nor an array or slice. */
  predicate Mappable(f: Field) {
    && f.column != ""
    && KeyTypeAllowed(f)
  }

  /** A step the loop can take: a kept field is mappable. */
  predicate Sound(st: Step) {
    st.Keep? ==> Mappable(st.field)
  }

  /** Each member's step, in declaration order. */
  function Steps(typeName: string, members: seq<Member>): (steps: seq<Step>)
    ensures |steps| == |members|
    ensures forall i :: 0 <= i < |steps| ==> steps[i] == Classify(typeName, members[i]) && Sound(steps[i])
    decreases |members|
  {
    if |members| == 0 then []
    else Steps(typeName, members[..|members| - 1]) + [Classify(typeName, members[|members| - 1])]
  }

  lemma StepsPrefix(typeName: string, members: seq<Member>, i: nat)
    requires i <= |members|
    ensures Steps(typeName, members[..i]) == Steps(typeName, members)[..i]
  {
    var l, r := Steps(typeName, members[..i]), Steps(typeName, members)[..i];
    forall k | 0 <= k < i
      ensures l[k] == r[k]
    {
      assert l[k] == Classify(typeName, members[k]);
    }
  }

  /** One turn of the member loop. */
  function Advance(typeName: string, d: Draft, st: Step): (r: Result<Draft, Error>)
    requires DraftValid(d) && Sound(st)
    ensures r.Ok? ==> DraftValid(r.value)
  {
    match st
    case Skip => Ok(d)
    case Reject(e) => Err(e)
    case Keep(f) =>
      if f.isPK && 0 <= d.pkIndex then Err(DuplicatePK(typeName, f.name, d.fields[d.pkIndex].name))
      else Ok(Draft(d.fields + [f], if f.isPK then |d.fields| else d.pkIndex))
  }

  /** The fields of the kept steps, in order. */
  function Kept(steps: seq<Step>): seq<Field>
    decreases |steps|
  {
    if |steps| == 0 then []
    else
      var n := |steps| - 1;
      Kept(steps[..n]) + if steps[n].Keep? then [steps[n].field] else []
  }

  /** The fields the tagged members map to, in declaration order. */
  function MappedFields(typeName: string, members: seq<Member>): seq<Field> {
    Kept(Steps(typeName, members))
  }

  /** The member loop over the steps, stopping at the first error. */
  function Walk(typeName: string, steps: seq<Step>): (r: Result<Draft, Error>)
    requires forall i :: 0 <= i < |steps| ==> Sound(steps[i])
    ensures r.Ok? ==> DraftValid(r.value) && r.value.fields == Kept(steps)
    decreases |steps|
  {
    if |steps| == 0 then Ok(Draft([], -1))
    else
      var d :- Walk(typeName, steps[..|steps| - 1]);
      Advance(typeName, d, steps[|steps| - 1])
  }

  /** How many fields are flagged as primary key. */
  function PKCount(fields: seq<Field>): nat
    decreases |fields|
  {
    if |fields| == 0 then 0
    else PKCount(fields[..|fields| - 1]) + if fields[|fields| - 1].isPK then 1 else 0
  }

  /** No member is rejected on its own. */
  predicate NoRejects(typeName: string, members: seq<Member>) {
    forall i :: 0 <= i < |members| ==> !Classify(typeName, members[i]).Reject?
  }

  lemma {:induction false} PKCountOfDraft(fields: seq<Field>, pkIndex: int)
    requires DraftValid(Draft(fields, pkIndex))
    ensures PKCount(fields) == if 0 <= pkIndex then 1 else 0
    decreases |fields|
  {
    if |fields| > 0 {
      var n := |fields| - 1;
      assert DraftValid(Draft(fields[..n], if pkIndex == n then -1 else pkIndex));
      PKCountOfDraft(fields[..n], if pkIndex == n then -1 else pkIndex);
    }
  }

  lemma PKCountAppend(fields: seq<Field>, f: Field)
    ensures PKCount(fields + [f]) == PKCount(fields) + if f.isPK then 1 else 0
  {
    assert (fields + [f])[..|fields|] == fields;
  }

  /** No step rejects its member. */
  predicate NoRejectSteps(steps: seq<Step>) {
    forall i :: 0 <= i < |steps| ==> !steps[i].Reject?
  }

  lemma NoRejectStepsSnoc(steps: seq<Step>)
    requires |steps| > 0
    ensures NoRejectSteps(steps) <==> NoRejectSteps(steps[..|steps| - 1]) && !steps[|steps| - 1].Reject?
  {
    assert forall i :: 0 <= i < |steps| - 1 ==> steps[..|steps| - 1][i] == steps[i];
  }

  /** The steps of a member list reject nothing exactly when no member is rejected. */
  lemma NoRejectsSteps(typeName: string, members: seq<Member>)
    ensures NoRejects(typeName, members) <==> NoRejectSteps(Steps(typeName, members))
  {
  }

  /**
   * The member loop succeeds exactly when no step rejects and at most one
   * kept field carries the pk label.
   */
  lemma {:induction false} WalkSucceeds(typeName: string, steps: seq<Step>)
    requires forall i :: 0 <= i < |steps| ==> Sound(steps[i])
    ensures Walk(typeName, steps).Ok? <==> NoRejectSteps(steps) && PKCount(Kept(steps)) <= 1
    decreases |steps|
  {
    if |steps| > 0 {
      var n := |steps| - 1;
      var pre := steps[..n];
      WalkSucceeds(typeName, pre);
      NoRejectStepsSnoc(steps);
      var fs := Kept(pre);
      match steps[n]
      case Skip =>
        assert Kept(steps) == fs + [] == fs;
      case Reject(_) =>
      case Keep(f) =>
        assert Kept(steps) == fs + [f];
        PKCountAppend(fs, f);
        if Walk(typeName, pre).Ok? {
          var d := Walk(typeName, pre).value;
          PKCountOfDraft(d.fields, d.pkIndex);
        }
    }
  }

  /** One more step: the loop over the first i+1 steps is one turn after the loop over the first i. */
  lemma WalkExtend(typeName: string, steps: seq<Step>, i: nat)
    requires i < |steps|
    requires forall i :: 0 <= i < |steps| ==> Sound(steps[i])
    ensures Walk(typeName, steps[..i]).Err? ==> Walk(typeName, steps[..i + 1]) == Walk(typeName, steps[..i])
    ensures Walk(typeName, steps[..i]).Ok? ==>
      Walk(typeName, steps[..i + 1]) == Advance(typeName, Walk(typeName, steps[..i]).value, steps[i])
  {
    assert steps[..i + 1][..i] == steps[..i];
  }

  /** Once the loop fails, the steps after that point do not matter. */
  lemma {:induction false} WalkErrPersists(typeName: string, steps: seq<Step>, j: nat)
    requires j <= |steps|
    requires forall i :: 0 <= i < |steps| ==> Sound(steps[i])
    requires Walk(typeName, steps[..j]).Err?
    ensures Walk(typeName, steps) == Walk(typeName, steps[..j])
    decreases |steps|
  {
    if j < |steps| {
      var n := |steps| - 1;
      assert steps[..n][..j] == steps[..j];
      WalkErrPersists(typeName, steps[..n], j);
    } else {
      assert steps[..j] == steps;
    }
  }

  /** A tagged member that meets every rule is kept, as exactly the field it maps to. */
  lemma ClassifyKeeps(typeName: string, m: Member, f: Field)
    requires FieldOf(m, f)
    ensures Classify(typeName, m) == Keep(f)
  {
  }

  /** A tagged member without a name (an embedded type) is rejected. */
  lemma AnonymousMemberIsRejected(typeName: string, m: Member)
    requires Tagged(m) && |m.names| == 0
    ensures Classify(typeName, m) == Reject(AnonymousField(typeName))
  {
  }

  /** A tagged member declaring several names at once is rejected (the source panics here). */
  lemma MultiNameMemberIsRejected(typeName: string, m: Member)
    requires Tagged(m) && |m.names| > 1
    ensures Classify(typeName, m) == Reject(MultipleNames(typeName, |m.names|))
  {
  }

  /** A tagged member whose name is not exported is rejected, naming the member. */
  lemma UnexportedMemberIsRejected(typeName: string, m: Member)
    requires Tagged(m) && |m.names| == 1 && !IsExported(m.names[0])
    ensures Classify(typeName, m) == Reject(UnexportedField(typeName, m.names[0]))
  {
  }

  /**
   * An exported member whose sky value yields no column is rejected as an
   * invalid tag, whatever its type: a value with a second segment other
   * than `pk`, or with three or more segments.
   */
  lemma UnusableTagIsRejected(typeName: string, m: Member)
    requires Tagged(m) && |m.names| == 1 && IsExported(m.names[0])
    requires || (exists c, second :: ',' !in c && ',' !in second && second != "pk" && m.tag.value.sky == c + "," + second)
             || CommaCount(m.tag.value.sky) >= 2
    ensures Classify(typeName, m) == Reject(InvalidTag(typeName, m.names[0]))
  {
    if CommaCount(m.tag.value.sky) >= 2 {
      ParseFieldTagManySegments(m.tag.value.sky);
    } else {
      var c, second :| ',' !in c && ',' !in second && second != "pk" && m.tag.value.sky == c + "," + second;
      ParseFieldTagOtherLabel(c, second);
    }
  }

  /** An array or slice member labelled pk is rejected. */
  lemma SlicePKIsRejected(typeName: string, m: Member, c: string)
    requires Tagged(m) && m.tag.value.sky == c + ",pk" && c != "" && ',' !in c
    requires |m.names| == 1 && IsExported(m.names[0])
    requires m.typ.ArrayType? && Spellable(m.typ)
    ensures Classify(typeName, m) == Reject(SlicePK(typeName, m.names[0]))
  {
    ParseFieldTagPK(c);
    assert FileGoType(m.typ)[..1] == "[";
  }

  /** A tagged member of a type shape the spelling does not handle is rejected, once its name and tag pass. */
  lemma UnsupportedTypeIsRejected(typeName: string, m: Member)
    requires Tagged(m) && |m.names| == 1 && IsExported(m.names[0])
    requires ParseFieldTag(m.tag.value.sky).column != "" && !Spellable(m.typ)
    ensures Classify(typeName, m) == Reject(UnsupportedType(typeName, m.names[0]))
  {
  }

  /** `,pk` names no column: the member is rejected as an invalid tag, not taken as a keyless primary key. */
  lemma BarePKLabelIsInvalid(typeName: string, m: Member)
    requires Tagged(m) && m.tag.value.sky == ",pk"
    requires |m.names| == 1 && IsExported(m.names[0])
    ensures Classify(typeName, m) == Reject(InvalidTag(typeName, m.names[0]))
  {
    ParseFieldTagPK("");
    assert "" + ",pk" == ",pk";
  }

  /** A pointer member labelled pk is rejected. */
  lemma PointerPKIsRejected(typeName: string, m: Member, c: string)
    requires Tagged(m) && m.tag.value.sky == c + ",pk" && c != "" && ',' !in c
    requires |m.names| == 1 && IsExported(m.names[0])
    requires m.typ.Star? && Spellable(m.typ)
    ensures Classify(typeName, m) == Reject(PointerPK(typeName, m.names[0]))
  {
    ParseFieldTagPK(c);
    assert FileGoType(m.typ)[..1] == "*";
  }

  // ---------------------------------------------------------------------
  // Checking the mapped fields
  // ---------------------------------------------------------------------

  /** The position of the first field whose column an earlier field already uses. */
  function FirstDuplicate(fields: seq<Field>): (r: Option<nat>)
    ensures r.None? <==> ColumnsDistinct(fields)
    ensures r.Some? ==> && r.value < |fields|
                        && ColumnsDistinct(fields[..r.value])
                        && exists k :: 0 <= k < r.value && fields[k].column == fields[r.value].column
    decreases |fields|
  {
    if |fields| == 0 then None
    else
      var n := |fields| - 1;
      match FirstDuplicate(fields[..n])
      case Some(j) =>
        assert fields[..n][..j] == fields[..j];
        Some(j)
      case None =>
        if exists k :: 0 <= k < n && fields[k].column == fields[n].column then Some(n) else None
  }

  /** The first field using `column`. */
  function FirstWithColumn(fields: seq<Field>, column: string): (k: nat)
    requires exists i :: 0 <= i < |fields| && fields[i].column == column
    ensures k < |fields| && fields[k].column == column
    ensures forall j :: 0 <= j < k ==> fields[j].column != column
  {
    if fields[0].column == column then 0 else 1 + FirstWithColumn(fields[1..], column)
  }

  /**
   * The outcome of checkFields: an error when no member was mapped, or
   * when a column repeats, naming the first field that repeats a column
   * and the field that used it first; none otherwise.
   */
  function CheckFieldsResult(typeName: string, fields: seq<Field>): (r: Option<Error>)
    ensures r.None? <==> 0 < |fields| && ColumnsDistinct(fields)
    ensures r == Some(NoFields(typeName)) <==> |fields| == 0
    ensures r.Some? && 0 < |fields| ==>
      exists j, k :: && 0 <= k < j < |fields|
                     && ColumnsDistinct(fields[..j])
                     && fields[k].column == fields[j].column
                     && r.value == DuplicateColumn(typeName, fields[j].name, fields[j].column, fields[k].name)
  {
    if |fields| == 0 then Some(NoFields(typeName))
    else
      match FirstDuplicate(fields)
      case None => None
      case Some(j) =>
        var k := FirstWithColumn(fields, fields[j].column);
        assert k < j;
        Some(DuplicateColumn(typeName, fields[j].name, fields[j].column, fields[k].name))
  }

  /** Two fields inside a prefix with distinct columns have distinct columns. */
  lemma DistinctInPrefix(fields: seq<Field>, n: nat, a: nat, b: nat)
    requires a < b < n <= |fields|
    requires ColumnsDistinct(fields[..n])
    ensures fields[a].column != fields[b].column
  {
    assert fields[..n][a] == fields[a] && fields[..n][b] == fields[b];
  }

  /** A repeat at j after distinct columns before it is the first duplicate. */
  lemma FirstDuplicateAt(fields: seq<Field>, j: nat, k: nat)
    requires k < j < |fields|
    requires ColumnsDistinct(fields[..j])
    requires fields[k].column == fields[j].column
    ensures FirstDuplicate(fields) == Some(j)
  {
    assert !ColumnsDistinct(fields);
    var r := FirstDuplicate(fields);
    if r.value < j {
      var k' :| 0 <= k' < r.value && fields[k'].column == fields[r.value].column;
      DistinctInPrefix(fields, j, k', r.value);
    } else if r.value > j {
      DistinctInPrefix(fields, r.value, k, j);
    }
  }

  /** ... and its earlier twin is the first field with that column. */
  lemma FirstWithColumnAt(fields: seq<Field>, j: nat, k: nat)
    requires k < j < |fields|
    requires ColumnsDistinct(fields[..j])
    requires fields[k].column == fields[j].column
    ensures FirstWithColumn(fields, fields[j].column) == k
  {
    var f := FirstWithColumn(fields, fields[j].column);
    if f < k {
      DistinctInPrefix(fields, j, f, k);
    }
  }

  /** checkFields: the Struct's fields checked for emptiness and repeated columns, in order. */
  method CheckFields(s: Struct) returns (err: Option<Error>)
    ensures err == CheckFieldsResult(s.typeName, s.fields)
    ensures err.None? <==> 0 < |s.fields| && ColumnsDistinct(s.fields)
  {
    if |s.fields| == 0 {
      return Some(NoFields(s.typeName));
    }
    var dupes: map<string, string> := map[];
    for i := 0 to |s.fields|
      invariant ColumnsDistinct(s.fields[..i])
      invariant forall k :: 0 <= k < i ==> s.fields[k].column in dupes && dupes[s.fields[k].column] == s.fields[k].name
      invariant forall c :: c in dupes ==> exists k :: 0 <= k < i && s.fields[k].column == c
    {
      var f := s.fields[i];
      if f.column in dupes {
        var k :| 0 <= k < i && s.fields[k].column == f.column;
        FirstDuplicateAt(s.fields, i, k);
        FirstWithColumnAt(s.fields, i, k);
        return Some(DuplicateColumn(s.typeName, f.name, f.column, dupes[f.column]));
      }
      dupes := dupes[f.column := f.name];
      assert s.fields[..i + 1] == s.fields[..i] + [f];
    }
    assert s.fields[..|s.fields|] == s.fields;
    return None;
  }

  // ---------------------------------------------------------------------
  // parseStructTypeSpec
  // ---------------------------------------------------------------------

  /**
   * The Struct a struct type's members make, with its store name still
   * empty, or the first error in declaration order.
   */
  function ParseStruct(typeName: string, members: seq<Member>): (r: Result<Struct, Error>)
    ensures r.Ok? ==> && r.value.Valid()
                      && r.value.typeName == typeName
                      && r.value.storeName == ""
                      && r.value.fields == MappedFields(typeName, members)
  {
    var d :- Walk(typeName, Steps(typeName, members));
    match CheckFieldsResult(typeName, d.fields)
    case Some(e) => Err(e)
    case None => Ok(Struct(typeName, "", d.fields, d.pkIndex))
  }

  /**
   * A struct type yields a Struct exactly when no member is rejected on
   * its own, at most one field carries the pk label, and the mapped fields
   * are non-empty with distinct columns.
   */
  lemma ParseStructSucceeds(typeName: string, members: seq<Member>)
    ensures var fs := MappedFields(typeName, members);
      ParseStruct(typeName, members).Ok?
      <==> NoRejects(typeName, members) && PKCount(fs) <= 1 && 0 < |fs| && ColumnsDistinct(fs)
  {
    WalkSucceeds(typeName, Steps(typeName, members));
    NoRejectsSteps(typeName, members);
  }

  /** The loop over the members before i succeeds when none of them is rejected and at most one is a primary key. */
  lemma WalkPrefix(typeName: string, members: seq<Member>, i: nat)
    requires i < |members|
    requires NoRejects(typeName, members[..i])
    requires PKCount(MappedFields(typeName, members[..i])) <= 1
    ensures var steps := Steps(typeName, members);
      && Walk(typeName, steps[..i]).Ok?
      && Walk(typeName, steps[..i]).value.fields == MappedFields(typeName, members[..i])
  {
    StepsPrefix(typeName, members, i);
    WalkSucceeds(typeName, Steps(typeName, members[..i]));
    NoRejectsSteps(typeName, members[..i]);
  }

  /**
   * The first member rejected on its own decides the error, provided the
   * members before it passed (no second pk label among them).
   */
  lemma FirstRejectDecides(typeName: string, members: seq<Member>, i: nat)
    requires i < |members|
    requires NoRejects(typeName, members[..i])
    requires PKCount(MappedFields(typeName, members[..i])) <= 1
    requires Classify(typeName, members[i]).Reject?
    ensures ParseStruct(typeName, members) == Err(Classify(typeName, members[i]).error)
  {
    var steps := Steps(typeName, members);
    WalkPrefix(typeName, members, i);
    WalkExtend(typeName, steps, i);
    WalkErrPersists(typeName, steps, i + 1);
  }

  /**
   * A second pk label fails the type with an error naming the field that
   * repeats the label and the field that carried it first.
   */
  lemma SecondPKNamesBoth(typeName: string, members: seq<Member>, i: nat, p: nat)
    requires i < |members|
    requires NoRejects(typeName, members[..i])
    requires var fs := MappedFields(typeName, members[..i]);
      PKCount(fs) <= 1 && p < |fs| && fs[p].isPK
    requires Classify(typeName, members[i]).Keep? && Classify(typeName, members[i]).field.isPK
    ensures ParseStruct(typeName, members)
      == Err(DuplicatePK(typeName, Classify(typeName, members[i]).field.name,
                         MappedFields(typeName, members[..i])[p].name))
  {
    var steps := Steps(typeName, members);
    WalkPrefix(typeName, members, i);
    WalkExtend(typeName, steps, i);
    WalkErrPersists(typeName, steps, i + 1);
  }

  /**
   * Among members that pass, the first field repeating an earlier field's
   * column fails the type, naming both fields and the column.
   */
  lemma RepeatedColumnNamesBoth(typeName: string, members: seq<Member>, j: nat, k: nat)
    requires NoRejects(typeName, members)
    requires var fs := MappedFields(typeName, members);
      && PKCount(fs) <= 1
      && k < j < |fs|
      && ColumnsDistinct(fs[..j])
      && fs[k].column == fs[j].column
    ensures var fs := MappedFields(typeName, members);
      ParseStruct(typeName, members) == Err(DuplicateColumn(typeName, fs[j].name, fs[j].column, fs[k].name))
  {
    var fs := MappedFields(typeName, members);
    WalkSucceeds(typeName, Steps(typeName, members));
    NoRejectsSteps(typeName, members);
    FirstDuplicateAt(fs, j, k);
    FirstWithColumnAt(fs, j, k);
  }

  /** When no member is rejected but none maps to a field, the type fails with the no-fields error. */
  lemma NoMappedFieldsFails(typeName: string, members: seq<Member>)
    requires NoRejects(typeName, members)
    requires MappedFields(typeName, members) == []
    ensures ParseStruct(typeName, members) == Err(NoFields(typeName))
  {
    WalkSucceeds(typeName, Steps(typeName, members));
    NoRejectsSteps(typeName, members);
  }

  /** Steps that all pass over their member keep no field. */
  lemma {:induction false} KeptOfSkips(steps: seq<Step>)
    requires forall i :: 0 <= i < |steps| ==> steps[i].Skip?
    ensures Kept(steps) == []
    decreases |steps|
  {
    if |steps| > 0 {
      KeptOfSkips(steps[..|steps| - 1]);
    }
  }

  /** A marked struct type none of whose members carries a usable sky value fails with the no-fields error. */
  lemma UntaggedStructFails(typeName: string, members: seq<Member>)
    requires forall i :: 0 <= i < |members| ==> !Tagged(members[i])
    ensures ParseStruct(typeName, members) == Err(NoFields(typeName))
  {
    KeptOfSkips(Steps(typeName, members));
    NoMappedFieldsFails(typeName, members);
  }

  /**
   * parseStructTypeSpec: the member loop, then checkFields. The Struct it
   * returns is valid, and its fields are the tagged members' fields in
   * declaration order.
   */
  method ParseStructTypeSpec(typeName: string, members: seq<Member>) returns (r: Result<Struct, Error>)
    ensures r == ParseStruct(typeName, members)
    ensures r.Ok? ==> && r.value.Valid()
                      && r.value.typeName == typeName
                      && r.value.fields == MappedFields(typeName, members)
  {
    var fields: seq<Field> := [];
    var pkIndex := -1;
    var n := 0;
    ghost var steps := Steps(typeName, members);
    for i := 0 to |members|
      invariant Walk(typeName, steps[..i]) == Ok(Draft(fields, pkIndex))
      invariant n == |fields|
    {
      WalkExtend(typeName, steps, i);
      var m := members[i];
      assert steps[i] == Classify(typeName, m);
      if m.tag.None? {
        continue;
      }
      var tag := m.tag.value;
      if tag.rawLength < 3 {
        continue;
      }
      var sky := tag.sky;
      if sky == "" || sky == "-" {
        continue;
      }
      if |m.names| == 0 {
        WalkErrPersists(typeName, steps, i + 1);
        return Err(AnonymousField(typeName));
      }
      if |m.names| != 1 {
        WalkErrPersists(typeName, steps, i + 1);
        return Err(MultipleNames(typeName, |m.names|));
      }
      var name := m.names[0];
      if !IsExported(name) {
        WalkErrPersists(typeName, steps, i + 1);
        return Err(UnexportedField(typeName, name));
      }
      var column := ParseFieldTag(sky);
      if column.column == "" {
        WalkErrPersists(typeName, steps, i + 1);
        return Err(InvalidTag(typeName, name));
      }
      if !Spellable(m.typ) {
        WalkErrPersists(typeName, steps, i + 1);
        return Err(UnsupportedType(typeName, name));
      }
      var typ := FileGoType(m.typ);
      if column.isPK {
        if HasPrefix(typ, "*") {
          WalkErrPersists(typeName, steps, i + 1);
          return Err(PointerPK(typeName, name));
        }
        if HasPrefix(typ, "[") {
          WalkErrPersists(typeName, steps, i + 1);
          return Err(SlicePK(typeName, name));
        }
        if pkIndex >= 0 {
          WalkErrPersists(typeName, steps, i + 1);
          return Err(DuplicatePK(typeName, name, fields[pkIndex].name));
        }
      }
      fields := fields + [Field(name, typ, column.column, column.isPK)];
      if column.isPK {
        pkIndex := n;
      }
      n := n + 1;
    }
    assert steps[..|members|] == steps;
    var s := Struct(typeName, "", fields, pkIndex);
    var err := CheckFields(s);
    if err.Some? {
      return Err(err.value);
    }
    return Ok(s);
  }
}
