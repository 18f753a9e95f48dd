/** parseFieldTag of gen/gen.go: the column and pk label of a sky tag value. */
module FieldTags {
  import opened Strings

  /** What a sky tag value says: the column ("" when the value is not usable) and the pk label. */
  datatype ColumnTag = ColumnTag(column: string, isPK: bool)

  /**
   * Splits the sky tag value at commas: one segment is a column, two are
   * a column and the `pk` label; anything else yields no column.
   */
  function ParseFieldTag(t: string): (r: ColumnTag)
    ensures ',' !in r.column
    ensures r.isPK ==> t == r.column + ",pk"
    ensures !r.isPK && r.column != "" ==> t == r.column
  {
    var p := SplitCommas(t);
    if |p| == 0 || |p| > 2 then ColumnTag("", false)
    else if |p| == 2 then
      if p[1] == "pk" then
        assert Join(p[1..], ",") == p[1];
        assert t == Join(p, ",") == p[0] + "," + p[1];
        Reassociate3(p[0], ",", "pk");
        assert "," + "pk" == ",pk";
        ColumnTag(p[0], true)
      else ColumnTag("", false)
    else ColumnTag(p[0], false)
  }

  /** A value without commas is a plain column name. */
  lemma ParseFieldTagColumn(c: string)
    requires ',' !in c
    ensures ParseFieldTag(c) == ColumnTag(c, false)
  {
    SplitWithoutComma(c);
  }

  /** `c,pk` is column c, labelled primary key; with c empty (`,pk`) the column is "" and pk is set. */
  lemma ParseFieldTagPK(c: string)
    requires ',' !in c
    ensures ParseFieldTag(c + ",pk") == ColumnTag(c, true)
  {
    assert c + ",pk" == c + "," + "pk";
    SplitAtFirstComma(c, "pk");
    SplitWithoutComma("pk");
  }

  /** A second segment other than `pk` makes the value unusable. */
  lemma ParseFieldTagOtherLabel(c: string, second: string)
    requires ',' !in c && ',' !in second && second != "pk"
    ensures ParseFieldTag(c + "," + second) == ColumnTag("", false)
  {
    SplitAtFirstComma(c, second);
    SplitWithoutComma(second);
  }

  /** Three or more segments make the value unusable. */
  lemma ParseFieldTagManySegments(t: string)
    requires CommaCount(t) >= 2
    ensures ParseFieldTag(t) == ColumnTag("", false)
  {
  }
}
