/**
 * File of gen/gen.go: finding the marked struct types of a parsed Go file
 * and turning each into a Struct description.
 */
module Gen {
  import opened Wrappers
  import opened Strings
  import opened Syntax
  import opened StructRecord
  import opened Markers
  import opened StructSpec

  /** A marked struct type found in the file: its name, the store name its doc gives and its members. */
  datatype Candidate = Candidate(typeName: string, storeName: string, members: seq<Member>)

  /** The doc a type spec is read with: its own, or the group's when it is the group's only spec. */
  function DocOf(groupDoc: Option<CommentGroup>, groupSize: nat, ts: TypeSpec): Option<CommentGroup> {
    if ts.doc.None? && groupSize == 1 then groupDoc else ts.doc
  }

  /**
   * The candidate a spec yields: a type spec whose doc carries a marker and
   * which defines a complete struct type; anything else yields none.
   */
  function SpecCandidate(groupDoc: Option<CommentGroup>, groupSize: nat, spec: Spec): Option<Candidate> {
    match spec
    case OtherSpec => None
    case TypeSpecOf(ts) =>
      match DocOf(groupDoc, groupSize, ts)
      case None => None
      case Some(doc) =>
        match FindStoreName(CommentText(doc))
        case None => None
        case Some(table) =>
          match ts.typ
          case OtherType => None
          case StructType(members, incomplete) =>
            if incomplete then None else Some(Candidate(ts.name, table, members))
  }

  /** The candidates of a group's specs, in order. */
  function SpecCandidates(groupDoc: Option<CommentGroup>, groupSize: nat, specs: seq<Spec>): seq<Candidate>
    decreases |specs|
  {
    if |specs| == 0 then []
    else
      var n := |specs| - 1;
      SpecCandidates(groupDoc, groupSize, specs[..n])
        + AsSeq(SpecCandidate(groupDoc, groupSize, specs[n]))
  }

  /** The candidate, if any, as a sequence of zero or one. */
  function AsSeq(o: Option<Candidate>): seq<Candidate> {
    match o
    case Some(c) => [c]
    case None => []
  }

  /** The candidates of one declaration; functions have none. */
  function DeclCandidates(d: Decl): seq<Candidate> {
    match d
    case FuncDecl => []
    case GenDecl(doc, specs) => SpecCandidates(doc, |specs|, specs)
  }

  /** The candidates of the file's declarations, in declaration order. */
  function Candidates(decls: seq<Decl>): seq<Candidate>
    decreases |decls|
  {
    if |decls| == 0 then []
    else Candidates(decls[..|decls| - 1]) + DeclCandidates(decls[|decls| - 1])
  }

  /** The candidate's Struct, carrying the store name its marker gives. */
  function Build(c: Candidate): Result<Struct, Error> {
    var s :- ParseStruct(c.typeName, c.members);
    Ok(s.(storeName := c.storeName))
  }

  /** The values of a sequence of outcomes, in order, or the first error among them. */
  function Collect<T>(rs: seq<Result<T, Error>>): (r: Result<seq<T>, Error>)
    ensures r.Ok? ==> |r.value| == |rs|
    decreases |rs|
  {
    if |rs| == 0 then Ok([])
    else
      var vs :- Collect(rs[..|rs| - 1]);
      var v :- rs[|rs| - 1];
      Ok(vs + [v])
  }

  /** Each candidate's outcome, in order. */
  function Builds(cands: seq<Candidate>): (rs: seq<Result<Struct, Error>>)
    ensures |rs| == |cands|
    ensures forall i :: 0 <= i < |cands| ==> rs[i] == Build(cands[i])
    decreases |cands|
  {
    if |cands| == 0 then []
    else Builds(cands[..|cands| - 1]) + [Build(cands[|cands| - 1])]
  }

  /** What File returns for a parsed file: the Structs of its marked types in declaration order, or the first error. */
  function Extract(file: ParsedFile): Result<seq<Struct>, Error> {
    match file
    case ParseFailure(message) => Err(ParseError(message))
    case Parsed(decls) => Collect(Builds(Candidates(decls)))
  }

  lemma {:induction false} BuildsAppend(a: seq<Candidate>, b: seq<Candidate>)
    ensures Builds(a + b) == Builds(a) + Builds(b)
    decreases |b|
  {
    if |b| == 0 {
      assert a + b == a;
    } else {
      var n := |b| - 1;
      assert (a + b)[..|a + b| - 1] == a + b[..n];
      assert (a + b)[|a + b| - 1] == b[n];
      assert Builds(a + b) == Builds(a + b[..n]) + [Build(b[n])];
      assert Builds(b) == Builds(b[..n]) + [Build(b[n])];
      BuildsAppend(a, b[..n]);
      Reassociate3(Builds(a), Builds(b[..n]), [Build(b[n])]);
    }
  }


  /** When Collect succeeds, its values are the outcomes' values, position by position. */
  lemma {:induction false} CollectInOrder<T>(rs: seq<Result<T, Error>>)
    requires Collect(rs).Ok?
    ensures forall i :: 0 <= i < |rs| ==> rs[i] == Ok(Collect(rs).value[i])
    decreases |rs|
  {
    if |rs| > 0 {
      var n := |rs| - 1;
      CollectInOrder(rs[..n]);
    }
  }

  /** Collect succeeds exactly when every outcome is a value. */
  lemma {:induction false} CollectSucceeds<T>(rs: seq<Result<T, Error>>)
    ensures Collect(rs).Ok? <==> forall i :: 0 <= i < |rs| ==> rs[i].Ok?
    decreases |rs|
  {
    if |rs| > 0 {
      var n := |rs| - 1;
      CollectSucceeds(rs[..n]);
      assert forall i :: 0 <= i < n ==> rs[..n][i] == rs[i];
    }
  }

  /** When Collect fails, its error is the first failing outcome's. */
  lemma {:induction false} CollectFirstError<T>(rs: seq<Result<T, Error>>, i: nat)
    requires i < |rs|
    requires forall j :: 0 <= j < i ==> rs[j].Ok?
    requires rs[i].Err?
    ensures Collect(rs) == Err(rs[i].error)
    decreases |rs|
  {
    var n := |rs| - 1;
    if i < n {
      CollectFirstError(rs[..n], i);
    } else {
      CollectSucceeds(rs[..n]);
    }
  }

  /** A failure stays a failure whatever outcomes follow. */
  lemma {:induction false} CollectErrPersists<T>(rs: seq<Result<T, Error>>, more: seq<Result<T, Error>>)
    requires Collect(rs).Err?
    ensures Collect(rs + more) == Collect(rs)
    decreases |more|
  {
    if |more| > 0 {
      var n := |more| - 1;
      assert (rs + more)[..|rs + more| - 1] == rs + more[..n];
      CollectErrPersists(rs, more[..n]);
    } else {
      assert rs + more == rs;
    }
  }

  /**
   * File's outcome, when it has Structs, is its candidates' Structs in
   * declaration order: each valid, named after its type and carrying its
   * marker's store name.
   */
  lemma ExtractInOrder(decls: seq<Decl>)
    requires Extract(Parsed(decls)).Ok?
    ensures var ss := Extract(Parsed(decls)).value;
      var cands := Candidates(decls);
      && |ss| == |cands|
      && forall i :: 0 <= i < |ss| ==> && Build(cands[i]) == Ok(ss[i])
                                       && ss[i].Valid()
                                       && ss[i].typeName == cands[i].typeName
                                       && ss[i].storeName == cands[i].storeName
  {
    var ss := Extract(Parsed(decls)).value;
    var cands := Candidates(decls);
    CollectInOrder(Builds(cands));
    forall i | 0 <= i < |ss|
      ensures ss[i].Valid() && ss[i].typeName == cands[i].typeName && ss[i].storeName == cands[i].storeName
    {
      assert Build(cands[i]) == Ok(ss[i]);
      var s := ParseStruct(cands[i].typeName, cands[i].members).value;
      assert ss[i] == s.(storeName := cands[i].storeName);
    }
  }

  /** File succeeds exactly when every marked struct type parses. */
  lemma ExtractSucceeds(decls: seq<Decl>)
    ensures Extract(Parsed(decls)).Ok? <==>
      forall c :: c in Candidates(decls) ==> ParseStruct(c.typeName, c.members).Ok?
  {
    var cands := Candidates(decls);
    CollectSucceeds(Builds(cands));
    assert forall i :: 0 <= i < |cands| ==> Builds(cands)[i] == Build(cands[i]);
  }

  /** When File fails on a parsed file, the error is that of the first marked struct type that fails. */
  lemma ExtractFirstError(decls: seq<Decl>, i: nat)
    requires var cands := Candidates(decls);
      && i < |cands|
      && (forall j :: 0 <= j < i ==> ParseStruct(cands[j].typeName, cands[j].members).Ok?)
      && ParseStruct(cands[i].typeName, cands[i].members).Err?
    ensures var c := Candidates(decls)[i];
      Extract(Parsed(decls)) == Err(ParseStruct(c.typeName, c.members).error)
  {
    CollectFirstError(Builds(Candidates(decls)), i);
  }

  /** Every candidate's store name is the non-empty word run of a marker. */
  lemma {:induction false} CandidateStoreNames(decls: seq<Decl>)
    ensures forall c :: c in Candidates(decls) ==>
      |c.storeName| > 0 && forall i :: 0 <= i < |c.storeName| ==> IsWordChar(c.storeName[i])
    decreases |decls|
  {
    if |decls| > 0 {
      CandidateStoreNames(decls[..|decls| - 1]);
      match decls[|decls| - 1]
      case FuncDecl =>
      case GenDecl(doc, specs) => SpecCandidateStoreNames(doc, |specs|, specs);
    }
  }

  lemma {:induction false} SpecCandidateStoreNames(groupDoc: Option<CommentGroup>, groupSize: nat, specs: seq<Spec>)
    ensures forall c :: c in SpecCandidates(groupDoc, groupSize, specs) ==>
      |c.storeName| > 0 && forall i :: 0 <= i < |c.storeName| ==> IsWordChar(c.storeName[i])
    decreases |specs|
  {
    if |specs| > 0 {
      SpecCandidateStoreNames(groupDoc, groupSize, specs[..|specs| - 1]);
    }
  }

  lemma {:induction false} CandidatesAppend(a: seq<Decl>, b: seq<Decl>)
    ensures Candidates(a + b) == Candidates(a) + Candidates(b)
    decreases |b|
  {
    if |b| == 0 {
      assert a + b == a;
    } else {
      var n := |b| - 1;
      assert (a + b)[..|a + b| - 1] == a + b[..n];
      assert (a + b)[|a + b| - 1] == b[n];
      CandidatesAppend(a, b[..n]);
      calc {
        Candidates(a + b);
        Candidates(a + b[..n]) + DeclCandidates(b[n]);
        Candidates(a) + Candidates(b[..n]) + DeclCandidates(b[n]);
        { Reassociate3(Candidates(a), Candidates(b[..n]), DeclCandidates(b[n])); }
        Candidates(a) + Candidates(b);
      }
    }
  }

  lemma {:induction false} SpecCandidatesAppend(groupDoc: Option<CommentGroup>, groupSize: nat, a: seq<Spec>, b: seq<Spec>)
    ensures SpecCandidates(groupDoc, groupSize, a + b)
      == SpecCandidates(groupDoc, groupSize, a) + SpecCandidates(groupDoc, groupSize, b)
    decreases |b|
  {
    if |b| == 0 {
      assert a + b == a;
    } else {
      var n := |b| - 1;
      assert (a + b)[..|a + b| - 1] == a + b[..n];
      assert (a + b)[|a + b| - 1] == b[n];
      SpecCandidatesAppend(groupDoc, groupSize, a, b[..n]);
      Reassociate3(SpecCandidates(groupDoc, groupSize, a), SpecCandidates(groupDoc, groupSize, b[..n]),
                  AsSeq(SpecCandidate(groupDoc, groupSize, b[n])));
    }
  }

  /** The group doc is read only for a group of exactly one spec. */
  lemma {:induction false} GroupDocOnlyForSingleSpec(groupDoc: Option<CommentGroup>, specs: seq<Spec>)
    requires |specs| != 1
    ensures SpecCandidates(groupDoc, |specs|, specs) == SpecCandidates(None, |specs|, specs)
  {
    forall k | 0 <= k <= |specs|
      ensures SpecCandidates(groupDoc, |specs|, specs[..k]) == SpecCandidates(None, |specs|, specs[..k])
    {
      GroupDocPrefix(groupDoc, |specs|, specs, k);
    }
    assert specs[..|specs|] == specs;
  }

  lemma {:induction false} GroupDocPrefix(groupDoc: Option<CommentGroup>, groupSize: nat, specs: seq<Spec>, k: nat)
    requires groupSize != 1 && k <= |specs|
    ensures SpecCandidates(groupDoc, groupSize, specs[..k]) == SpecCandidates(None, groupSize, specs[..k])
  {
    if k > 0 {
      GroupDocPrefix(groupDoc, groupSize, specs, k - 1);
      assert specs[..k][..k - 1] == specs[..k - 1];
    }
  }

  /** No type spec is marked: the file yields no Structs and no error. */
  predicate Unmarked(decls: seq<Decl>) {
    forall d, sp :: d in decls && d.GenDecl? && sp in d.specs && sp.TypeSpecOf? ==>
      match DocOf(d.doc, |d.specs|, sp.ts)
      case None => true
      case Some(doc) => FindStoreName(CommentText(doc)).None?
  }

  lemma {:induction false} UnmarkedFileIsEmpty(decls: seq<Decl>)
    requires Unmarked(decls)
    ensures Extract(Parsed(decls)) == Ok([])
  {
    UnmarkedHasNoCandidates(decls);
    assert Builds([]) == [];
  }

  lemma {:induction false} UnmarkedHasNoCandidates(decls: seq<Decl>)
    requires Unmarked(decls)
    ensures Candidates(decls) == []
    decreases |decls|
  {
    if |decls| > 0 {
      var n := |decls| - 1;
      assert Unmarked(decls[..n]) by {
        forall d | d in decls[..n] ensures d in decls { }
      }
      UnmarkedHasNoCandidates(decls[..n]);
      var d := decls[n];
      assert d in decls;
      if d.GenDecl? {
        UnmarkedSpecs(d.doc, d.specs, |d.specs|);
        assert d.specs[..|d.specs|] == d.specs;
      }
    }
  }

  lemma {:induction false} UnmarkedSpecs(groupDoc: Option<CommentGroup>, specs: seq<Spec>, k: nat)
    requires k <= |specs|
    requires forall sp :: sp in specs && sp.TypeSpecOf? ==>
      match DocOf(groupDoc, |specs|, sp.ts)
      case None => true
      case Some(doc) => FindStoreName(CommentText(doc)).None?
    ensures SpecCandidates(groupDoc, |specs|, specs[..k]) == []
  {
    if k > 0 {
      UnmarkedSpecs(groupDoc, specs, k - 1);
      assert specs[..k][..k - 1] == specs[..k - 1];
      assert specs[k - 1] in specs;
    } else {
      assert specs[..0] == [];
    }
  }

  /** Collect over one more outcome. */
  lemma CollectSnoc<T>(rs: seq<Result<T, Error>>, r: Result<T, Error>)
    ensures Collect(rs).Err? ==> Collect(rs + [r]) == Collect(rs)
    ensures Collect(rs).Ok? && r.Err? ==> Collect(rs + [r]) == Err(r.error)
    ensures Collect(rs).Ok? && r.Ok? ==> Collect(rs + [r]) == Ok(Collect(rs).value + [r.value])
  {
    assert (rs + [r])[..|rs|] == rs;
  }

  lemma SpecCandidatesStep(groupDoc: Option<CommentGroup>, specs: seq<Spec>, j: nat)
    requires j < |specs|
    ensures SpecCandidates(groupDoc, |specs|, specs[..j + 1])
      == SpecCandidates(groupDoc, |specs|, specs[..j]) + AsSeq(SpecCandidate(groupDoc, |specs|, specs[j]))
  {
    assert specs[..j + 1][..j] == specs[..j];
  }

  lemma CandidatesStep(decls: seq<Decl>, i: nat)
    requires i < |decls|
    ensures Candidates(decls[..i + 1]) == Candidates(decls[..i]) + DeclCandidates(decls[i])
  {
    assert decls[..i + 1][..i] == decls[..i];
  }

  /** The candidates around one declaration. */
  lemma CandidatesSplit(decls: seq<Decl>, i: nat)
    requires i < |decls|
    ensures Candidates(decls) == Candidates(decls[..i]) + DeclCandidates(decls[i]) + Candidates(decls[i + 1..])
  {
    assert decls == decls[..i + 1] + decls[i + 1..];
    CandidatesAppend(decls[..i + 1], decls[i + 1..]);
    CandidatesStep(decls, i);
  }

  /**
   * The checks File makes of one spec, in its order: a type spec, its doc
   * (the group's when it has none and is alone in its group), a marker in
   * that doc, a struct type, a complete field list.
   */
  method InspectSpec(groupDoc: Option<CommentGroup>, groupSize: nat, spec: Spec) returns (cand: Option<Candidate>)
    ensures cand == SpecCandidate(groupDoc, groupSize, spec)
  {
    if spec.OtherSpec? {
      return None;
    }
    var ts := spec.ts;
    var doc := ts.doc;
    if doc.None? && groupSize == 1 {
      doc := groupDoc;
    }
    if doc.None? {
      return None;
    }
    var sm := FindStoreName(CommentText(doc.value));
    if sm.None? {
      return None;
    }
    var table := sm.value;
    if ts.typ.OtherType? {
      return None;
    }
    if ts.typ.incomplete {
      return None;
    }
    return Some(Candidate(ts.name, table, ts.typ.members));
  }

  /**
   * File: every declaration and spec in order; each marked, complete
   * struct type is parsed, and the first error aborts with no result.
   */
  method File(file: ParsedFile) returns (r: Result<seq<Struct>, Error>)
    ensures r == Extract(file)
    ensures r.Ok? ==> forall i :: 0 <= i < |r.value| ==> r.value[i].Valid()
  {
    if file.ParseFailure? {
      return Err(ParseError(file.message));
    }
    var decls := file.decls;
    var res: seq<Struct> := [];
    for i := 0 to |decls|
      invariant Collect(Builds(Candidates(decls[..i]))) == Ok(res)
    {
      CandidatesStep(decls, i);
      var decl := decls[i];
      if decl.FuncDecl? {
        assert Candidates(decls[..i]) + [] == Candidates(decls[..i]);
        continue;
      }
      var before := Candidates(decls[..i]);
      var specs := decl.specs;
      assert before + SpecCandidates(decl.doc, |specs|, specs[..0]) == before by {
        assert specs[..0] == [];
      }
      for j := 0 to |specs|
        invariant Collect(Builds(before + SpecCandidates(decl.doc, |specs|, specs[..j]))) == Ok(res)
      {
        var cand := InspectSpec(decl.doc, |specs|, specs[j]);
        if cand.None? {
          SkipSpec(before, decl.doc, specs, j);
          continue;
        }
        var c := cand.value;
        ghost var next := KeepSpec(before, decl.doc, specs, j, c);
        var s := ParseStructTypeSpec(c.typeName, c.members);
        BuildOf(c, s);
        if s.Err? {
          var more := CandidatesAround(decls, i, j);
          BuildsErrPersists(next, more);
          return Err(s.error);
        }
        res := res + [s.value.(storeName := c.storeName)];
      }
      assert specs[..|specs|] == specs;
    }
    assert decls[..|decls|] == decls;
    ExtractInOrder(decls);
    return Ok(res);
  }

  /** A candidate's outcome is its struct type's, with the store name set. */
  lemma BuildOf(c: Candidate, s: Result<Struct, Error>)
    requires s == ParseStruct(c.typeName, c.members)
    ensures s.Err? ==> Build(c) == Err(s.error)
    ensures s.Ok? ==> Build(c) == Ok(s.value.(storeName := c.storeName))
  {
  }

  /** A spec without a candidate leaves File's outcome so far as it was. */
  lemma SkipSpec(before: seq<Candidate>, groupDoc: Option<CommentGroup>, specs: seq<Spec>, j: nat)
    requires j < |specs| && SpecCandidate(groupDoc, |specs|, specs[j]).None?
    ensures before + SpecCandidates(groupDoc, |specs|, specs[..j + 1])
      == before + SpecCandidates(groupDoc, |specs|, specs[..j])
  {
    SpecCandidatesStep(groupDoc, specs, j);
    assert SpecCandidates(groupDoc, |specs|, specs[..j]) + [] == SpecCandidates(groupDoc, |specs|, specs[..j]);
  }

  /** A spec with candidate c adds c's outcome to File's outcome so far. */
  lemma KeepSpec(before: seq<Candidate>, groupDoc: Option<CommentGroup>, specs: seq<Spec>, j: nat, c: Candidate)
    returns (next: seq<Candidate>)
    requires j < |specs| && SpecCandidate(groupDoc, |specs|, specs[j]) == Some(c)
    ensures next == before + SpecCandidates(groupDoc, |specs|, specs[..j + 1])
    ensures var done := before + SpecCandidates(groupDoc, |specs|, specs[..j]);
      && (Collect(Builds(done)).Ok? && Build(c).Err? ==> Collect(Builds(next)) == Err(Build(c).error))
      && (Collect(Builds(done)).Ok? && Build(c).Ok? ==>
            Collect(Builds(next)) == Ok(Collect(Builds(done)).value + [Build(c).value]))
  {
    var done := before + SpecCandidates(groupDoc, |specs|, specs[..j]);
    next := before + SpecCandidates(groupDoc, |specs|, specs[..j + 1]);
    SpecCandidatesStep(groupDoc, specs, j);
    Reassociate3(before, SpecCandidates(groupDoc, |specs|, specs[..j]), [c]);
    assert next == done + [c];
    BuildsAppend(done, [c]);
    CollectSnoc(Builds(done), Build(c));
  }


  /** The candidates up to spec j of declaration i come first among the file's candidates. */
  lemma CandidatesAround(decls: seq<Decl>, i: nat, j: nat) returns (more: seq<Candidate>)
    requires i < |decls| && decls[i].GenDecl? && j < |decls[i].specs|
    ensures var d := decls[i];
      Candidates(decls) == Candidates(decls[..i]) + SpecCandidates(d.doc, |d.specs|, d.specs[..j + 1]) + more
  {
    var d := decls[i];
    var q := SpecCandidates(d.doc, |d.specs|, d.specs[j + 1..]);
    var rest := Candidates(decls[i + 1..]);
    assert d.specs == d.specs[..j + 1] + d.specs[j + 1..];
    SpecCandidatesAppend(d.doc, |d.specs|, d.specs[..j + 1], d.specs[j + 1..]);
    CandidatesSplit(decls, i);
    var a := Candidates(decls[..i]);
    var p := SpecCandidates(d.doc, |d.specs|, d.specs[..j + 1]);
    assert DeclCandidates(d) == p + q;
    more := q + rest;
    calc {
      Candidates(decls);
      a + (p + q) + rest;
      { Reassociate3(a, p + q, rest); }
      a + ((p + q) + rest);
      { Reassociate3(p, q, rest); }
      a + (p + more);
      { Reassociate3(a, p, more); }
      a + p + more;
    }
  }

  /** A failure among the first candidates is the failure of all of them. */
  lemma BuildsErrPersists(cands: seq<Candidate>, more: seq<Candidate>)
    requires Collect(Builds(cands)).Err?
    ensures Collect(Builds(cands + more)) == Collect(Builds(cands))
  {
    BuildsAppend(cands, more);
    CollectErrPersists(Builds(cands), Builds(more));
  }
}
