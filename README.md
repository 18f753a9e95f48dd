# skygen `gen` package — a Dafny model

skygen generates data-access code for Go types. Its `gen` package reads one Go
source file and finds each struct type whose doc comment carries a marker
`sky:<table>`. It describes each such type as a `Struct`: the type name, the store
(table) name, and the mapped `Field`s with their Go name, type spelling, column and
primary-key flag. This project models that package and proves what it
guarantees:

- which declarations become candidates, and which doc comment is read for each;
- how the marker is matched and the store name captured;
- how a member's `sky` tag value is split into a column and a `pk` label;
- how a type expression is spelled;
- the order of the member checks, and which error each failure yields;
- the final check for an empty field list and repeated columns;
- the whole-file abort on the first error;
- the Go-syntax renderings of `Struct` and `Field`, proved by reading them back
  to lose nothing except the pk flags, which a Struct's pk index restores.

Modules, one concern each:

| module | file | models |
|---|---|---|
| `Wrappers` | wrappers.dfy | `Option` and `Result` |
| `Strings` | strings.dfy | `strings.Join`, `strings.Split` on `,`, the `%q` quoting and the `%d` formatting the renderings use, with their read-back functions |
| `Syntax` | syntax.dfy | the part of the parsed file (go/ast) that the package looks at |
| `FieldRecord` | field.dfy | `Field` and its `GoString` (gen/field.go) |
| `StructRecord` | struct.dfy | `Struct`, `HasPK`, `PKField` and `GoString` (gen/struct.go) |
| `GoTypes` | gotypes.dfy | `fileGoType` |
| `Markers` | markers.dfy | `commentText` and the marker pattern `sky:([0-9A-Za-z_]+)` |
| `FieldTags` | tags.dfy | `parseFieldTag` |
| `StructSpec` | structspec.dfy | `parseStructTypeSpec` and `checkFields` |
| `Gen` | gen.dfy | `File` |

Where the source changes state step by step, the model does too:
- `Struct.GoString` builds its string with `+=` in a loop;
- `CheckFields` fills the `dupes` map;
- `ParseStructTypeSpec` runs the member loop;
- `File` runs the nested declaration and spec loops.

Each of these is a method whose `ensures` ties its result to a specification
function: `Rendering`, `CheckFieldsResult`, `ParseStruct` and `Extract`. The
lemmas are proved about those functions. `Field` and `Struct` are values. The
one update the source makes to a returned `Struct`, `File` setting its
`StoreName` to the marker's table name, is a record update
(`s.(storeName := table)`) in the model.

A tag value `,pk` has an empty first segment, so `parseFieldTag` returns the
column "" with the pk label set. The member is then rejected as an invalid tag
before its type is looked at. A pointer member tagged `,pk` therefore fails with
the invalid-tag error, not the pointer-key error (`StructSpec.BarePKLabelIsInvalid`).

## Model

| member | source | states |
|---|---|---|
| Strings.UnquoteQuote | gen/field.go:17 | Reading back a `%q` rendering gives back the exact text and the input that follows it. |
| Strings.ParseDecimalOfDecimal | gen/struct.go:25 | Reading back a `%d` rendering of any int, negative ones included, gives back the int and the input that follows it. |
| Strings.Join | gen/gen.go:92 | `strings.Join`. Its properties are stated by `Strings.JoinContains` and `Strings.SplitCommas`. |
| Strings.JoinContains | gen/gen.go:92 | Each part of a join occurs whole and contiguous inside the joined text. |
| Strings.Quote | gen/field.go:17 | The `%q` verb. `Strings.UnquoteQuote` reads every quoted string back. |
| Strings.Decimal | gen/struct.go:25 | The `%d` verb. `Strings.ParseDecimalOfDecimal` reads every rendered int back. |
| FieldRecord.DecodeGoString | gen/field.go:16-18 | The `{Name: …, Type: …, Column: …}` rendering of a field shows its name, type and column in that order, and reading it back returns exactly those three and the text after it. |
| FieldRecord.GoStringInjective | gen/field.go:16-18 | Two fields render alike if and only if they agree on name, type and column; the pk flag is not rendered. |
| FieldRecord.Field.GoString | gen/field.go:16-18 | The field's rendering. `FieldRecord.DecodeGoString` and `FieldRecord.GoStringInjective` state what it keeps and what it drops. |
| StructRecord.Struct.HasPK | gen/struct.go:30-33 | For a valid Struct, having a primary key (index at least 0) holds exactly when some field carries the pk flag. |
| StructRecord.Struct.PKField | gen/struct.go:35-41 | The primary-key field is one of the fields; in a valid Struct it is flagged and is the only flagged field. |
| StructRecord.Struct.Rendering | gen/struct.go:16-27 | The text `GoString` builds. `StructRecord.DecodeRendering`, `StructRecord.RenderingInjective` and `StructRecord.RenderingShape` state its properties. |
| StructRecord.Struct.GoString | gen/struct.go:15-28 | The loop that appends one line per field produces the `gen.Struct{…}` rendering: header lines, every field line in order, the closing lines and the pk index. |
| StructRecord.DecodeRendering | gen/struct.go:16-28 | Reading a Struct's rendering back gives back the same Struct: type name, store name, every field with its pk flag, and the pk index. |
| StructRecord.RenderingInjective | gen/struct.go:16-28 | Two Structs whose pk flags agree with their index render alike if and only if they are equal. |
| StructRecord.RenderingShape | gen/struct.go:17-26 | A rendering opens with `gen.Struct{` and a newline and ends with the closing brace. |
| GoTypes.WellFormedSpellable | gen/gen.go:64-85 | Every WellFormed type expression (pointer, qualified name, identifier, array or slice, literal length) is handled by the spelling, so the panic branch is never reached for it. Other shapes (map, func, chan, struct, interface) are not WellFormed. |
| GoTypes.FileGoType | gen/gen.go:64-85 | The type spelling. `GoTypes.WellFormedSpellable`, `GoTypes.SpellingHead` and `GoTypes.SpellingIgnoresByteAlias` state its properties. |
| GoTypes.SpellingHead | gen/gen.go:64-85 | For a well-formed type, the spelling is non-empty and starts with `*` exactly for a pointer, and with `[` exactly for an array or slice, looking through package qualification. |
| GoTypes.SpellingIgnoresByteAlias | gen/gen.go:70-75 | Writing every `byte` as `uint8` leaves the spelling unchanged. |
| Markers.FindStoreName | gen/gen.go:62 | The pattern matches if and only if some position holds `sky:` followed by a word character; the capture is then a non-empty run of word characters. |
| Markers.CommentText | gen/gen.go:87-93 | The comments' texts joined with single spaces. `Markers.MarkerInOneComment` states that no comment's marker is lost in the join. |
| Markers.StoreNameIsLeftmostLongest | gen/gen.go:62 | The leftmost marker decides the store name, and the name is the whole run of word characters after it. |
| Markers.MarkerInOneComment | gen/gen.go:87-93 | A marker inside any one comment of a group is still found in the group's space-joined text. |
| Strings.SplitCommas | gen/gen.go:169 | Splitting at commas gives one more segment than there are commas; no segment holds a comma, and rejoining the segments with commas gives the input back. |
| FieldTags.ParseFieldTag | gen/gen.go:168-183 | The column never holds a comma. With the pk label, the value is exactly the column followed by `,pk`. A non-empty column without the label is the whole value. |
| FieldTags.ParseFieldTagColumn | gen/gen.go:181-182 | A value without commas is a column without the pk label. |
| FieldTags.ParseFieldTagPK | gen/gen.go:173-176 | `c,pk` gives column c with the pk label, for every comma-free c, the empty one included. |
| FieldTags.ParseFieldTagOtherLabel | gen/gen.go:177-178 | Two segments whose second is not `pk` give an empty column and no label. |
| FieldTags.ParseFieldTagManySegments | gen/gen.go:170-171 | Three or more segments give an empty column and no label. |
| StructSpec.Classify | gen/gen.go:101-144 | A member is passed over exactly when it has no usable sky value. A member that is kept maps to a field made of its one exported name, the spelling of its type, the non-empty column and the pk label of its tag, and as a primary key it is neither a pointer nor an array or slice. |
| StructSpec.BarePKLabelIsInvalid | gen/gen.go:127-132 | A member tagged `,pk` is rejected with the invalid-tag error naming the member. |
| StructSpec.PointerPKIsRejected | gen/gen.go:134-139 | A pointer member whose tag carries the pk label is rejected with the pointer-key error naming the member. |
| StructSpec.ClassifyKeeps | gen/gen.go:101-160 | A tagged member that meets every rule is kept, as exactly the field it maps to: the converse of `Classify`'s contract. |
| StructSpec.AnonymousMemberIsRejected | gen/gen.go:113-117 | A tagged member without a name is rejected with the anonymous-field error. |
| StructSpec.MultiNameMemberIsRejected | gen/gen.go:118-120 | A tagged member declaring several names is rejected with the multiple-names error, which stands for the source's panic. |
| StructSpec.UnexportedMemberIsRejected | gen/gen.go:121-126 | A tagged member whose one name is not exported is rejected with the unexported-field error naming it. |
| StructSpec.UnusableTagIsRejected | gen/gen.go:127-132 | An exported member whose sky value has a second segment other than `pk`, or three or more segments, is rejected with the invalid-tag error naming it. |
| StructSpec.UnsupportedTypeIsRejected | gen/gen.go:133 | A member whose name and tag pass but whose type the spelling does not handle is rejected with the unsupported-type error, which stands for the panic of gen/gen.go:82-83. |
| StructSpec.SlicePKIsRejected | gen/gen.go:140-144 | An array or slice member whose tag carries the pk label is rejected with the slice-key error naming the member. |
| StructSpec.Advance | gen/gen.go:145-160 | One turn of the member loop keeps the loop state valid: the pk index points at the one flagged field, or is -1 when no field is flagged. |
| StructSpec.Walk | gen/gen.go:101-161 | When the member loop finishes without error, its fields are exactly the kept fields in member order, and its state is valid. |
| StructSpec.WalkSucceeds | gen/gen.go:101-161 | The member loop succeeds if and only if no member is rejected and at most one kept field carries the pk label. |
| StructSpec.FirstDuplicate | gen/gen.go:189-197 | There is no repeated column if and only if the columns are distinct; otherwise the result is the first field whose column an earlier field already used. |
| StructSpec.CheckFieldsResult | gen/gen.go:185-199 | The check passes if and only if there is at least one field and the columns are distinct. The no-fields error comes exactly when there are no fields. A repeated column names the first field that repeats it, the column, and the earlier field that used it. |
| StructSpec.CheckFields | gen/gen.go:185-199 | The loop over the `dupes` map returns exactly the error of the check, and no error exactly when there are fields and their columns are distinct. |
| StructSpec.ParseStruct | gen/gen.go:95-166 | A Struct produced from a type is valid, carries the type's name and an empty store name, and its fields are the tagged members' fields in declaration order. |
| StructSpec.ParseStructSucceeds | gen/gen.go:95-166 | A struct type yields a Struct if and only if: no member is rejected on its own, at most one field is a primary key, and the fields are non-empty with distinct columns. |
| StructSpec.FirstRejectDecides | gen/gen.go:101-150 | The first member rejected on its own decides the error, provided the members before it passed. |
| StructSpec.SecondPKNamesBoth | gen/gen.go:145-149 | A second pk label fails the type with an error naming the member that repeats it and the field that carried it first. |
| StructSpec.RepeatedColumnNamesBoth | gen/gen.go:189-197 | When the member loop passes, the first field that repeats a column fails the type with an error naming both fields and the column. |
| StructSpec.NoMappedFieldsFails | gen/gen.go:186-188 | When no member is rejected but none maps to a field, the type fails with the no-fields error. |
| StructSpec.UntaggedStructFails | gen/gen.go:101-112 | A marked struct type none of whose members carries a usable sky value fails with the no-fields error. |
| StructSpec.ParseStructTypeSpec | gen/gen.go:95-166 | The member loop followed by the fields check returns exactly `ParseStruct`'s outcome. On success the Struct is valid, named after the type, and its fields are the mapped fields. |
| Gen.File | gen/gen.go:14-60 | The nested loops over declarations and specs return exactly `Extract`'s outcome for the file, and every Struct they return is valid. |
| Gen.SpecCandidate | gen/gen.go:26-49 | The spec checks File makes. `Gen.GroupDocOnlyForSingleSpec`, `Gen.UnmarkedFileIsEmpty` and `Gen.CandidateStoreNames` state their properties. |
| Gen.Candidates | gen/gen.go:21-57 | The marked, complete struct types of the file in declaration order. `Gen.CandidateStoreNames` and `Gen.ExtractInOrder` state their properties. |
| Gen.Extract | gen/gen.go:14-60 | What File returns. `Gen.ExtractInOrder`, `Gen.ExtractSucceeds` and `Gen.ExtractFirstError` state its properties. |
| Gen.ExtractInOrder | gen/gen.go:20-59 | A successful extraction returns one Struct per marked, complete struct type, in declaration order. Each is valid, named after its type, and carries its marker's store name. |
| Gen.ExtractSucceeds | gen/gen.go:50-55 | Extraction from a parsed file succeeds if and only if every candidate type parses. |
| Gen.ExtractFirstError | gen/gen.go:50-53 | When extraction fails, the error is that of the first candidate type that fails; no partial result is returned. |
| Gen.GroupDocOnlyForSingleSpec | gen/gen.go:31-34 | In a group of more than one spec, or none, the group's doc comment does not affect which types are extracted. |
| Gen.UnmarkedFileIsEmpty | gen/gen.go:35-41 | A file where no type spec's doc carries a marker yields an empty result and no error. |
| Gen.CandidateStoreNames | gen/gen.go:38-42 | The store name of every extracted type is a non-empty run of word characters. |

## Left out

- Parsing the file: `parser.ParseFile` and the file system are not modelled. A file arrives as its declarations, or as the parser's error message, which File returns as its error.
- `reflect.StructTag.Get`: a tag is modelled by its raw length and the value `Get("sky")` returns. That value is an input, not derived from the tag text.
- Regular expressions in general: only the one pattern `sky:([0-9A-Za-z_]+)` is modelled, as leftmost-first matching with a greedy capture.
- `%q` quoting: only strings of ASCII-range characters are treated as Go quotes them. Characters from 0x80 up are written verbatim, where Go escapes those that are not printable or not valid UTF-8.
- `%d`: only the decimal digits and sign of an `int` are modelled. The width of Go's `int` does not matter here, since the pk index is -1 or a field position.
- StructSpec.IsExported: tests for an ASCII capital first character; Go's `unicode.IsUpper` also accepts other upper-case letters.
- Panics: an unsupported type shape (map, func, chan, struct, interface, `[...]T`) and a member with several names panic in the source. Here they are the `UnsupportedType` and `MultipleNames` errors.
- StructRecord.Struct.PKField: panics in the source for a Struct without a primary key, and would fail on an index past the fields. Here both cases are excluded by its `requires`, which every caller must meet.
- Error messages: errors are structured values (kind, type name, field names, column), not formatted text. The anonymous-field error keeps only the type name, not the member's type expression.
- Gen.File: ignores the file path argument and the `token.FileSet`; neither affects the result.
