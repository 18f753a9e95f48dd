/** The Field record of gen/field.go and its Go-syntax rendering. */
module FieldRecord {
  import opened Wrappers
  import opened Strings

  /**
   * One mapped member of a generated type: the member's Go name, the
   * canonical spelling of its Go type, the store column it maps to and
   * whether it is the primary key.
   */
  datatype Field = Field(name: string, goType: string, column: string, isPK: bool) {

    /** Go's GoString for a Field: the three strings quoted under their labels; isPK is not rendered. */
    function GoString(): string {
      "{Name: " + Quote(name) + ", Type: " + Quote(goType) + ", Column: " + Quote(column) + "}"
    }
  }

  /** A field may serve as primary key only if its type is neither a pointer nor an array or slice. */
  predicate KeyTypeAllowed(f: Field) {
    f.isPK ==> !HasPrefix(f.goType, "*") && !HasPrefix(f.goType, "[")
  }

  /** The primary-key flag is set on exactly the field at pkIndex, and on none when pkIndex is -1. */
  predicate FlagsAgree(fields: seq<Field>, pkIndex: int) {
    forall i :: 0 <= i < |fields| ==> (fields[i].isPK <==> i == pkIndex)
  }

  /** No two fields map to the same column. */
  predicate ColumnsDistinct(fields: seq<Field>) {
    forall i, j :: 0 <= i < j < |fields| ==> fields[i].column != fields[j].column
  }

  /**
   * Reads a field rendering at the front of `s`: the name, type and column
   * it shows and the text that follows its closing brace.
   */
  function DecodeField(s: string): (r: Option<(string, string, string, string)>)
    ensures r.Some? ==> |r.value.3| < |s|
  {
    var (name, a) :- Labelled("{Name: ", s);
    var (goType, b) :- Labelled(", Type: ", a);
    var (column, c) :- Labelled(", Column: ", b);
    var d :- Expect("}", c);
    Some((name, goType, column, d))
  }

  /** The rendering shows name, type and column, in that order, and can be read back. */
  lemma DecodeGoString(f: Field, rest: string)
    ensures DecodeField(f.GoString() + rest) == Some((f.name, f.goType, f.column, rest))
  {
    var qn, qt, qc := Quote(f.name), Quote(f.goType), Quote(f.column);
    Reassociate8("{Name: ", qn, ", Type: ", qt, ", Column: ", qc, "}", rest);
    var tail2 := ", Column: " + (qc + ("}" + rest));
    var tail1 := ", Type: " + (qt + tail2);
    Reassociate3("{Name: ", qn, tail1);
    Reassociate3(", Type: ", qt, tail2);
    Reassociate3(", Column: ", qc, "}" + rest);
    LabelledQuote("{Name: ", f.name, tail1);
    LabelledQuote(", Type: ", f.goType, tail2);
    LabelledQuote(", Column: ", f.column, "}" + rest);
    ExpectLiteral("}", rest);
  }

  /** Two fields render alike exactly when they agree on name, type and column: isPK never shows. */
  lemma GoStringInjective(f: Field, g: Field)
    ensures f.GoString() == g.GoString() <==> (f.name, f.goType, f.column) == (g.name, g.goType, g.column)
  {
    if f.GoString() == g.GoString() {
      DecodeGoString(f, "");
      DecodeGoString(g, "");
      assert f.GoString() + "" == g.GoString() + "";
    }
  }
}
