/**
 * `ty_to_rust_type`: the translation of an IDL type expression into the
 * text of a Rust type, recording every user-defined name it meets in the
 * `unresolved` set.
 */
module TypeMapper {
  import opened Idl
  import opened Decimal

  /** The names of the `Defined` nodes of a type expression. */
  function DefinedNames(t: IdlType): set<string>
  {
    match t
    case Option(inner) => DefinedNames(inner)
    case Vec(inner) => DefinedNames(inner)
    case Array(inner, _) => DefinedNames(inner)
    case Defined(name) => {name}
    case _ => {}
  }

  /** The Rust type text together with the `unresolved` set after the call. */
  datatype Mapped = Mapped(rust: string, unresolved: set<string>)

  function TyToRustType(t: IdlType, unresolved: set<string>): (r: Mapped)
    ensures r.unresolved == unresolved + DefinedNames(t)
  {
    match t
    case Bool => Mapped("bool", unresolved)
    case U8 => Mapped("u8", unresolved)
    case I8 => Mapped("i8", unresolved)
    case U16 => Mapped("u16", unresolved)
    case I16 => Mapped("i16", unresolved)
    case U32 => Mapped("u32", unresolved)
    case I32 => Mapped("i32", unresolved)
    case F32 => Mapped("f32", unresolved)
    case U64 => Mapped("u64", unresolved)
    case I64 => Mapped("i64", unresolved)
    case F64 => Mapped("f64", unresolved)
    case U128 => Mapped("u128", unresolved)
    case I128 => Mapped("i128", unresolved)
    case Bytes => Mapped("Vec<u8>", unresolved)
    case String => Mapped("String", unresolved)
    case PublicKey => Mapped("Pubkey", unresolved)
    case Option(inner) =>
      var m := TyToRustType(inner, unresolved);
      Mapped("Option<" + m.rust + ">", m.unresolved)
    case Vec(inner) =>
      var m := TyToRustType(inner, unresolved);
      Mapped("Vec<" + m.rust + ">", m.unresolved)
    case Array(inner, size) =>
      var m := TyToRustType(inner, unresolved);
      Mapped("[" + m.rust + "; " + NatToDecimal(size) + "]", m.unresolved)
    case Defined(name) =>
      Mapped(name, unresolved + {name})
  }

  /** The Rust type text alone, which does not depend on the set passed in. */
  function RustTypeOf(t: IdlType): string
  {
    TyToRustType(t, {}).rust
  }

  /** The text produced for a type is the same whatever `unresolved` holds. */
  lemma {:induction false} RustTextIgnoresSet(t: IdlType, unresolved: set<string>)
    ensures TyToRustType(t, unresolved).rust == RustTypeOf(t)
  {
    match t
    case Option(inner) => RustTextIgnoresSet(inner, unresolved);
    case Vec(inner) => RustTextIgnoresSet(inner, unresolved);
    case Array(inner, _) => RustTextIgnoresSet(inner, unresolved);
    case _ =>
  }

  /** Every primitive keeps its width and signedness in a fixed Rust name. */
  lemma PrimitiveNames()
    ensures RustTypeOf(Bool) == "bool"
    ensures RustTypeOf(U8) == "u8" && RustTypeOf(I8) == "i8"
    ensures RustTypeOf(U16) == "u16" && RustTypeOf(I16) == "i16"
    ensures RustTypeOf(U32) == "u32" && RustTypeOf(I32) == "i32"
    ensures RustTypeOf(U64) == "u64" && RustTypeOf(I64) == "i64"
    ensures RustTypeOf(U128) == "u128" && RustTypeOf(I128) == "i128"
    ensures RustTypeOf(F32) == "f32" && RustTypeOf(F64) == "f64"
    ensures RustTypeOf(Bytes) == "Vec<u8>" && RustTypeOf(String) == "String"
    ensures RustTypeOf(PublicKey) == "Pubkey"
  {
  }

  /**
   * The wrappers put the mapped inner type inside the Rust wrapper, and an
   * array keeps its length; a `Defined` name is written verbatim.
   */
  lemma {:induction false} CompositeNames(t: IdlType, n: nat, name: string)
    ensures RustTypeOf(Option(t)) == "Option<" + RustTypeOf(t) + ">"
    ensures RustTypeOf(Vec(t)) == "Vec<" + RustTypeOf(t) + ">"
    ensures RustTypeOf(Array(t, n)) == "[" + RustTypeOf(t) + "; " + NatToDecimal(n) + "]"
    ensures RustTypeOf(Defined(name)) == name
  {
    RustTextIgnoresSet(t, {});
  }
}
