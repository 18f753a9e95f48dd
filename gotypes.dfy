/** fileGoType of gen/gen.go: the spelling of a struct member's type. */
module GoTypes {
  import opened Strings
  import opened Syntax

  /** The type shapes the spelling handles; any other shape makes the source panic. */
  predicate Spellable(x: Expr) {
    match x
    case Star(e) => Spellable(e)
    case Selector(e, _) => Spellable(e)
    case ArrayType(l, e) => Spellable(l) && Spellable(e)
    case Unsupported(_) => false
    case _ => true
  }

  /**
   * The Go spelling of a type expression, with `byte` written as its
   * canonical alias `uint8` and an absent array length spelled "".
   */
  function FileGoType(x: Expr): (r: string)
    requires Spellable(x)
  {
    match x
    case Star(e) => "*" + FileGoType(e)
    case Selector(e, sel) => FileGoType(e) + "." + sel
    case Ident(name) => if name == "byte" then "uint8" else name
    case ArrayType(l, e) => "[" + FileGoType(l) + "]" + FileGoType(e)
    case BasicLit(v) => v
    case Nil => ""
  }

  /** A name or literal the parser can produce: non-empty, and starting with neither `*` nor `[`. */
  predicate ProperName(n: string) {
    |n| > 0 && n[0] != '*' && n[0] != '['
  }

  /** A type expression as the parser builds it: proper names throughout, and Nil only as a slice's length. */
  predicate WellFormed(x: Expr) {
    match x
    case Star(e) => WellFormed(e)
    case Selector(e, _) => WellFormed(e)
    case Ident(n) => ProperName(n)
    case ArrayType(l, e) => (l.Nil? || WellFormed(l)) && WellFormed(e)
    case BasicLit(v) => ProperName(v)
    case Nil => false
    case Unsupported(_) => false
  }

  /** The outermost type constructor of an expression, looking through qualifications `pkg.T`. */
  function Head(x: Expr): (h: Expr)
    ensures !h.Selector?
  {
    match x
    case Selector(e, _) => Head(e)
    case _ => x
  }

  lemma {:induction false} WellFormedSpellable(x: Expr)
    requires WellFormed(x)
    ensures Spellable(x)
  {
    match x
    case Star(e) => WellFormedSpellable(e);
    case Selector(e, _) => WellFormedSpellable(e);
    case ArrayType(l, e) =>
      if !l.Nil? { WellFormedSpellable(l); }
      WellFormedSpellable(e);
    case _ =>
  }

  /**
   * The primary-key checks test the spelling's first character; for a
   * well-formed type it is `*` exactly for a pointer and `[` exactly for an
   * array or slice type.
   */
  lemma {:induction false} SpellingHead(x: Expr)
    requires WellFormed(x)
    ensures Spellable(x)
    ensures var t := FileGoType(x);
      && |t| > 0
      && (HasPrefix(t, "*") <==> Head(x).Star?)
      && (HasPrefix(t, "[") <==> Head(x).ArrayType?)
  {
    WellFormedSpellable(x);
    FirstCharPrefix(FileGoType(x), '*');
    FirstCharPrefix(FileGoType(x), '[');
    match x
    case Star(e) =>
      WellFormedSpellable(e);
    case Selector(e, sel) =>
      SpellingHead(e);
      var t := FileGoType(e);
      assert (t + "." + sel)[0] == t[0];
    case Ident(n) =>
    case ArrayType(l, e) =>
      assert FileGoType(x)[0] == '[';
    case BasicLit(v) =>
  }

  lemma FirstCharPrefix(t: string, c: char)
    ensures |t| > 0 ==> (HasPrefix(t, [c]) <==> t[0] == c)
  {
    if |t| > 0 && t[0] == c {
      assert t[..1] == [c];
    }
  }

  /** The expression with every `byte` written as `uint8`. */
  function Canonical(x: Expr): (c: Expr)
  {
    match x
    case Star(e) => Star(Canonical(e))
    case Selector(e, sel) => Selector(Canonical(e), sel)
    case Ident(name) => if name == "byte" then Ident("uint8") else x
    case ArrayType(l, e) => ArrayType(Canonical(l), Canonical(e))
    case _ => x
  }

  /** `byte` and `uint8` are one type to the generator: spelling does not see the difference. */
  lemma {:induction false} SpellingIgnoresByteAlias(x: Expr)
    requires Spellable(x)
    ensures Spellable(Canonical(x))
    ensures FileGoType(Canonical(x)) == FileGoType(x)
  {
    match x
    case Star(e) => SpellingIgnoresByteAlias(e);
    case Selector(e, _) => SpellingIgnoresByteAlias(e);
    case ArrayType(l, e) =>
      SpellingIgnoresByteAlias(l);
      SpellingIgnoresByteAlias(e);
    case _ =>
  }
}
