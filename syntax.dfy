/**
 * The parts of a parsed Go source file (the go/ast tree) that the generator
 * looks at. Parsing itself is not modelled: a file arrives already parsed,
 * or as the parser's error.
 */
module Syntax {
  import opened Wrappers

  /** A type expression, as the parser produces it for a struct member's type. */
  datatype Expr =
    | Star(x: Expr)                   // *T
    | Selector(x: Expr, sel: string)  // pkg.T
    | Ident(name: string)             // T
    | ArrayType(len: Expr, elt: Expr) // [N]T, or []T when len is Nil
    | BasicLit(value: string)         // a literal such as the N of [N]T, as written
    | Nil                             // an absent expression: the length of a slice type
    | Unsupported(kind: string)       // any other shape: map, func, chan, struct, interface, [...]T

  /**
   * A struct tag literal: its raw length as written (backquotes included)
   * and the value reflect.StructTag.Get("sky") finds in it, which is ""
   * when the key is absent.
   */
  datatype TagLit = TagLit(rawLength: nat, sky: string)

  /** One entry of a struct's field list: its names (none for an embedded member), its type and its tag. */
  datatype Member = Member(names: seq<string>, typ: Expr, tag: Option<TagLit>)

  /**
   * What a type spec defines: a struct, with its field list and whether the
   * parser left that list incomplete, or any other type.
   */
  datatype TypeDef = StructType(members: seq<Member>, incomplete: bool) | OtherType

  /** A comment group: the text of each of its comments, comment markers included. */
  type CommentGroup = seq<string>

  /** `type Name ...` with the doc comment attached to it, if any. */
  datatype TypeSpec = TypeSpec(name: string, doc: Option<CommentGroup>, typ: TypeDef)

  /** A spec of a general declaration: a type spec, or an import or value spec. */
  datatype Spec = TypeSpecOf(ts: TypeSpec) | OtherSpec

  /** A top-level declaration: a general declaration with its group doc and specs, or a function. */
  datatype Decl = GenDecl(doc: Option<CommentGroup>, specs: seq<Spec>) | FuncDecl

  /** What the parser makes of the source file: its top-level declarations in order, or its error. */
  datatype ParsedFile = Parsed(decls: seq<Decl>) | ParseFailure(message: string)
}
