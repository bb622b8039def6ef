/** The pseudo-AST of the generic-library generator: type identifiers,
    arguments and prototypes, together with the way each one prints itself.
    Character classes follow Python 2 regular expressions without the
    UNICODE flag, since the generator's parser is built on them. */
module GenTypes {
  import opened Text

  /** `\s`: space, tab, newline, carriage return, vertical tab, form feed. */
  predicate IsSpace(c: char) {
    c == ' ' || c == '\t' || c == '\n' || c == '\r' || c == '\U{000B}' || c == '\U{000C}'
  }

  predicate IsLetter(c: char) {
    'a' <= c <= 'z' || 'A' <= c <= 'Z'
  }

  /** `[^\W\d]`: a word character that is not a digit. */
  predicate IsIdentStart(c: char) {
    IsLetter(c) || c == '_'
  }

  /** `\w`. */
  predicate IsWordChar(c: char) {
    IsIdentStart(c) || IsDigit(c)
  }

  /** What `[^\W\d]\w*` matches in full. */
  predicate IsIdentifier(s: string) {
    |s| > 0 && IsIdentStart(s[0]) && forall i :: 0 < i < |s| ==> IsWordChar(s[i])
  }

  predicate StartsWith(s: string, prefix: string) {
    |prefix| <= |s| && s[..|prefix|] == prefix
  }

  const GentypeName: string := "gentype"
  const FloatName: string := "float"

  /** The widths `vectors` instantiates, in the order it lists them. */
  const VectorWidths: seq<nat> := [2, 3, 4, 8, 16]

  /** `TypeId`: a base name and a vector width, 0 for a scalar. */
  datatype TypeId = TypeId(name: string, width: nat) {

    /** `TypeId.__str__`: the width is printed only when it is not 0. */
    function Show(): string {
      if width != 0 then name + ShowNat(width) else name
    }

    /** `get_cty`: the suffix of the C builtin for this base type. */
    function Cty(): string {
      if name == FloatName then "f" else ""
    }

    predicate IsGentype() {
      name == GentypeName
    }

    predicate IsBase() {
      width == 0
    }
  }

  /** The type identifiers the parser can produce. */
  predicate ValidTypeId(t: TypeId) {
    (t.name == GentypeName || t.name == FloatName) && (t.width == 0 || t.width in VectorWidths)
  }

  datatype Arg = Arg(ty: TypeId, ident: string)

  datatype Prototype = Prototype(ret: TypeId, name: string, args: seq<Arg>)

  /** The prototypes the parser can produce: known types, identifiers,
      and at least one argument. */
  predicate WellFormed(p: Prototype) {
    && ValidTypeId(p.ret)
    && IsIdentifier(p.name)
    && |p.args| > 0
    && forall a :: a in p.args ==> ValidArg(a)
  }

  predicate ValidArg(a: Arg) {
    ValidTypeId(a.ty) && IsIdentifier(a.ident)
  }

  /** `Arg.__str__`. */
  function ShowArg(a: Arg): string {
    a.ty.Show() + " " + a.ident
  }

  /** The arguments separated by ", ", as the loop of `Prototype.__str__` writes them. */
  function ShowArgs(args: seq<Arg>): string {
    if |args| == 0 then ""
    else if |args| == 1 then ShowArg(args[0])
    else ShowArg(args[0]) + ", " + ShowArgs(args[1..])
  }

  /** `Prototype.__str__`. */
  function ShowPrototype(p: Prototype): string {
    p.ret.Show() + " " + p.name + "(" + ShowArgs(p.args) + ")"
  }

  /** `vectors(base_ty)`: the base name suffixed with each vector width. */
  function Vectors(base: string): (r: seq<string>)
    ensures |r| == |VectorWidths|
  {
    seq(|VectorWidths|, i requires 0 <= i < |VectorWidths| => base + ShowNat(VectorWidths[i]))
  }
}
