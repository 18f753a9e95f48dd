/** The Struct record of gen/struct.go: its primary-key accessors and its Go-syntax rendering. */
module StructRecord {
  import opened Wrappers
  import opened Strings
  import opened FieldRecord

  /**
   * The description of one marked Go type: its name, the store (table) it
   * maps to, its mapped fields in declaration order, and the index of the
   * primary-key field, or -1 when the type has none (a read-only view).
   */
  datatype Struct = Struct(typeName: string, storeName: string, fields: seq<Field>, pkIndex: int) {

    /**
     * What every Struct the generator produces satisfies: at least one
     * field, non-empty and pairwise distinct columns, the primary-key flag
     * set on exactly the field pkIndex names (none when pkIndex is -1), and
     * that field neither a pointer nor an array or slice.
     */
    predicate Valid() {
      && |fields| > 0
      && -1 <= pkIndex < |fields|
      && PKFlagsAgree()
      && (forall i :: 0 <= i < |fields| ==> fields[i].column != "")
      && ColumnsDistinct(fields)
      && (0 <= pkIndex ==> KeyTypeAllowed(fields[pkIndex]))
    }

    /** The primary-key flag is set on exactly the field at pkIndex, and on none when it is -1. */
    predicate PKFlagsAgree() {
      FlagsAgree(fields, pkIndex)
    }

    /** Whether the type has a primary key; for a valid Struct, exactly when some field is flagged. */
    predicate HasPK(): (r: bool)
      ensures Valid() ==> (r <==> exists i :: 0 <= i < |fields| && fields[i].isPK)
    {
      pkIndex >= 0
    }

    /**
     * The primary-key field; the source panics when there is none. For a
     * valid Struct it is the one and only flagged field.
     */
    function PKField(): (f: Field)
      requires HasPK() && pkIndex < |fields|
      ensures f in fields
      ensures Valid() ==> f.isPK && forall g :: g in fields && g.isPK ==> g == f
    {
      fields[pkIndex]
    }

    /** The `Type` line of the rendering. */
    function TypeLine(): string {
      "\tType: " + Quote(typeName) + ",\n"
    }

    /** The `SQLName` line of the rendering: the store name. */
    function StoreNameLine(): string {
      "\tSQLName: " + Quote(storeName) + ",\n"
    }

    /** The `PKFieldIndex` line of the rendering, -1 included. */
    function PKIndexLine(): string {
      "\tPKFieldIndex: " + Decimal(pkIndex) + ",\n"
    }

    /** The text GoString produces: a `gen.Struct{...}` literal, one line per field in order. */
    function Rendering(): string {
      "gen.Struct{\n" + TypeLine() + StoreNameLine() + "\tFields: []gen.Field{\n"
      + FieldLines(fields) + "\t},\n" + PKIndexLine() + "}"
    }

    /** Go's GoString for a Struct, built line by line as the source does. */
    method GoString() returns (res: string)
      ensures res == Rendering()
    {
      res := "gen.Struct{\n";
      res := res + TypeLine();
      res := res + StoreNameLine();
      res := res + "\tFields: []gen.Field{\n";
      ghost var header := res;
      for i := 0 to |fields|
        invariant res == header + FieldLines(fields[..i])
      {
        assert FieldLines(fields[..i + 1]) == FieldLines(fields[..i]) + FieldLine(fields[i]) by {
          assert fields[..i + 1] == fields[..i] + [fields[i]];
          FieldLinesAppend(fields[..i], fields[i]);
        }
        Reassociate3(header, FieldLines(fields[..i]), FieldLine(fields[i]));
        res := res + FieldLine(fields[i]);
      }
      assert fields[..|fields|] == fields;
      res := res + "\t},\n";
      res := res + PKIndexLine();
      res := res + "}";
    }
  }

  /** The line GoString writes for one field. */
  function FieldLine(f: Field): string {
    "\t\t" + f.GoString() + ",\n"
  }

  /** The field lines of a rendering, in the order of `fields`. */
  function FieldLines(fields: seq<Field>): string {
    if |fields| == 0 then "" else FieldLine(fields[0]) + FieldLines(fields[1..])
  }

  lemma {:induction false} FieldLinesAppend(fields: seq<Field>, f: Field)
    ensures FieldLines(fields + [f]) == FieldLines(fields) + FieldLine(f)
  {
    if |fields| == 0 {
      assert fields + [f] == [f];
      assert FieldLines([f]) == FieldLine(f) + FieldLines([]);
    } else {
      var longer := fields + [f];
      assert longer[0] == fields[0];
      assert longer[1..] == fields[1..] + [f];
      FieldLinesAppend(fields[1..], f);
      Reassociate3(FieldLine(fields[0]), FieldLines(fields[1..]), FieldLine(f));
    }
  }

  /** What a field line shows: name, type and column. */
  function Row(f: Field): (string, string, string) {
    (f.name, f.goType, f.column)
  }

  function Rows(fields: seq<Field>): (rows: seq<(string, string, string)>)
    ensures |rows| == |fields|
  {
    if |fields| == 0 then [] else [Row(fields[0])] + Rows(fields[1..])
  }

  lemma {:induction false} RowsAt(fields: seq<Field>, i: nat)
    requires i < |fields|
    ensures Rows(fields)[i] == Row(fields[i])
  {
    if i > 0 {
      RowsAt(fields[1..], i - 1);
    }
  }

  /** Reads one field line: the row it shows and what follows the line. */
  function DecodeFieldLine(s: string): (r: Option<((string, string, string), string)>)
    ensures r.Some? ==> |r.value.1| < |s|
  {
    var a :- Expect("\t\t", s);
    var (name, goType, column, b) :- DecodeField(a);
    var c :- Expect(",\n", b);
    Some(((name, goType, column), c))
  }

  lemma ReadFieldLine(f: Field, rest: string)
    ensures DecodeFieldLine(FieldLine(f) + rest) == Some((Row(f), rest))
    ensures !HasPrefix(FieldLine(f) + rest, "\t},\n")
  {
    var s := FieldLine(f) + rest;
    var t := f.GoString() + (",\n" + rest);
    assert s == "\t\t" + t by {
      Reassociate4("\t\t", f.GoString(), ",\n", rest);
    }
    assert s[..4][1] == '\t';
    ExpectLiteral("\t\t", t);
    DecodeGoString(f, ",\n" + rest);
    ExpectLiteral(",\n", rest);
  }

  /** Reads field lines up to the closing `\t},\n` of the list: their rows and what follows. */
  function DecodeFieldLines(s: string): (r: Option<(seq<(string, string, string)>, string)>)
    ensures r.Some? ==> |r.value.1| < |s|
    decreases |s|
  {
    if HasPrefix(s, "\t},\n") then Some(([], s[4..]))
    else
      var (row, a) :- DecodeFieldLine(s);
      var (more, b) :- DecodeFieldLines(a);
      Some(([row] + more, b))
  }

  /** Reads a line `heading`, a `%q` rendering, `,\n`: the quoted text and what follows the line. */
  function QuotedLine(heading: string, s: string): (r: Option<(string, string)>)
    ensures r.Some? ==> |r.value.1| < |s|
  {
    var (text, a) :- Labelled(heading, s);
    var b :- Expect(",\n", a);
    Some((text, b))
  }

  lemma ReadQuotedLine(heading: string, text: string, rest: string)
    ensures QuotedLine(heading, heading + Quote(text) + ",\n" + rest) == Some((text, rest))
  {
    Reassociate4(heading, Quote(text), ",\n", rest);
    Reassociate3(heading, Quote(text), ",\n" + rest);
    LabelledQuote(heading, text, ",\n" + rest);
    ExpectLiteral(",\n", rest);
  }

  /** The fields a rendering describes, flagging as primary key the one at `pkIndex`. */
  function FieldsOf(rows: seq<(string, string, string)>, pkIndex: int): (fields: seq<Field>)
    ensures |fields| == |rows|
  {
    seq(|rows|, i requires 0 <= i < |rows| => Field(rows[i].0, rows[i].1, rows[i].2, i == pkIndex))
  }

  /** Reads the lines before the field list: the type name, the store name and what follows the list's opening. */
  function DecodeHead(s: string): Option<(string, string, string)> {
    var a :- Expect("gen.Struct{\n", s);
    var (typeName, b) :- QuotedLine("\tType: ", a);
    var (storeName, c) :- QuotedLine("\tSQLName: ", b);
    var d :- Expect("\tFields: []gen.Field{\n", c);
    Some((typeName, storeName, d))
  }

  /** Reads the field lines, the list's closing, the primary-key index line and the final brace. */
  function DecodeTail(s: string): Option<(seq<(string, string, string)>, int)> {
    var (rows, e) :- DecodeFieldLines(s);
    var f :- Expect("\tPKFieldIndex: ", e);
    var (pkIndex, g) :- ParseDecimal(f);
    var h :- Expect(",\n", g);
    if h == "}" then Some((rows, pkIndex)) else None
  }

  /** Reads a Struct back from its rendering. */
  function DecodeStruct(s: string): Option<Struct> {
    var (typeName, storeName, rest) :- DecodeHead(s);
    var (rows, pkIndex) :- DecodeTail(rest);
    Some(Struct(typeName, storeName, FieldsOf(rows, pkIndex), pkIndex))
  }


  lemma {:induction false} DecodeLines(fields: seq<Field>, rest: string)
    ensures DecodeFieldLines(FieldLines(fields) + ("\t},\n" + rest)) == Some((Rows(fields), rest))
  {
    var s := FieldLines(fields) + ("\t},\n" + rest);
    if |fields| == 0 {
      assert FieldLines(fields) == "";
      assert s == "\t},\n" + rest;
      ExpectLiteral("\t},\n", rest);
    } else {
      var f := fields[0];
      var tail := FieldLines(fields[1..]) + ("\t},\n" + rest);
      assert FieldLines(fields) == FieldLine(f) + FieldLines(fields[1..]);
      assert s == FieldLine(f) + tail by {
        Reassociate3(FieldLine(f), FieldLines(fields[1..]), "\t},\n" + rest);
      }
      ReadFieldLine(f, tail);
      assert !HasPrefix(s, "\t},\n");
      assert DecodeFieldLine(s) == Some((Row(f), tail));
      DecodeLines(fields[1..], rest);
      assert DecodeFieldLines(tail) == Some((Rows(fields[1..]), rest));
    }
  }

  /** The lines before the field list are read back into the type name and the store name. */
  lemma ReadHead(s: Struct, rest: string)
    ensures DecodeHead("gen.Struct{\n" + (s.TypeLine() + (s.StoreNameLine() + ("\tFields: []gen.Field{\n" + rest))))
      == Some((s.typeName, s.storeName, rest))
  {
    var fieldsHead := "\tFields: []gen.Field{\n";
    var tail2 := fieldsHead + rest;
    var tail1 := s.StoreNameLine() + tail2;
    ExpectLiteral("gen.Struct{\n", s.TypeLine() + tail1);
    ReadQuotedLine("\tType: ", s.typeName, tail1);
    ReadQuotedLine("\tSQLName: ", s.storeName, tail2);
    ExpectLiteral(fieldsHead, rest);
  }

  /** The field lines and the lines after them are read back into the rows and the primary-key index. */
  lemma ReadTail(s: Struct)
    ensures DecodeTail(FieldLines(s.fields) + ("\t},\n" + (s.PKIndexLine() + "}"))) == Some((Rows(s.fields), s.pkIndex))
  {
    var pkLine := s.PKIndexLine();
    DecodeLines(s.fields, pkLine + "}");
    assert pkLine + "}" == "\tPKFieldIndex: " + (Decimal(s.pkIndex) + (",\n" + "}")) by {
      Reassociate4("\tPKFieldIndex: ", Decimal(s.pkIndex), ",\n", "}");
    }
    ExpectLiteral("\tPKFieldIndex: ", Decimal(s.pkIndex) + (",\n" + "}"));
    ParseDecimalOfDecimal(s.pkIndex, ",\n" + "}");
    ExpectLiteral(",\n", "}");
  }

  /**
   * A Struct whose primary-key flags agree with pkIndex is read back
   * exactly from its rendering: the rendering loses nothing.
   */
  lemma DecodeRendering(s: Struct)
    requires s.PKFlagsAgree()
    ensures DecodeStruct(s.Rendering()) == Some(s)
  {
    var fieldsHead, pkLine := "\tFields: []gen.Field{\n", s.PKIndexLine();
    var tail3 := "\t},\n" + (pkLine + "}");
    var rest := FieldLines(s.fields) + tail3;
    assert s.Rendering() == "gen.Struct{\n" + (s.TypeLine() + (s.StoreNameLine() + (fieldsHead + rest))) by {
      Reassociate8("gen.Struct{\n", s.TypeLine(), s.StoreNameLine(), fieldsHead, FieldLines(s.fields), "\t},\n", pkLine, "}");
    }
    ReadHead(s, rest);
    ReadTail(s);
    FieldsOfRows(s);
  }


  lemma FieldsOfRows(s: Struct)
    requires s.PKFlagsAgree()
    ensures FieldsOf(Rows(s.fields), s.pkIndex) == s.fields
  {
    forall i | 0 <= i < |s.fields|
      ensures FieldsOf(Rows(s.fields), s.pkIndex)[i] == s.fields[i]
    {
      RowsAt(s.fields, i);
    }
  }

  /** A rendering opens the `gen.Struct{` literal and closes it with its brace. */
  lemma RenderingShape(s: Struct)
    ensures HasPrefix(s.Rendering(), "gen.Struct{\n") && s.Rendering()[|s.Rendering()| - 1] == '}'
  {
    var fieldsHead, pkLine := "\tFields: []gen.Field{\n", s.PKIndexLine();
    var r := s.Rendering();
    var body := s.TypeLine() + (s.StoreNameLine() + (fieldsHead + (FieldLines(s.fields) + ("\t},\n" + (pkLine + "}")))));
    assert r == "gen.Struct{\n" + body by {
      Reassociate8("gen.Struct{\n", s.TypeLine(), s.StoreNameLine(), fieldsHead, FieldLines(s.fields), "\t},\n", pkLine, "}");
    }
    assert r[..12] == "gen.Struct{\n";
  }

  /**
   * Two Structs whose flags agree with their pkIndex (valid ones do) and
   * that render alike are the same Struct.
   */
  lemma RenderingInjective(s: Struct, t: Struct)
    requires s.PKFlagsAgree() && t.PKFlagsAgree()
    ensures s.Rendering() == t.Rendering() <==> s == t
  {
    if s.Rendering() == t.Rendering() {
      DecodeRendering(s);
      DecodeRendering(t);
    }
  }
}
