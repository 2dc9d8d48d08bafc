/**
 * The parsed interface description (IDL) of an Anchor program, as the
 * `anchor_idl` crate hands it to the generator. Only the parts the
 * generator reads are kept.
 */
module Idl {
  import W = Wrappers

  /** A type expression of the IDL (`anchor_idl::IdlType`). */
  datatype IdlType =
    | Bool
    | U8 | I8 | U16 | I16 | U32 | I32 | F32 | U64 | I64 | F64 | U128 | I128
    | Bytes
    | String
    | PublicKey
    | Option(inner: IdlType)
    | Vec(inner: IdlType)
    | Array(inner: IdlType, size: nat)
    | Defined(name: string)

  /** A named, typed field of a struct or an instruction argument. */
  datatype IdlField = IdlField(name: string, ty: IdlType)

  /** The payload an enum variant may carry; the generator never reads it. */
  datatype EnumFields = Named(fields: seq<IdlField>) | Tuple(types: seq<IdlType>)

  datatype IdlEnumVariant = IdlEnumVariant(name: string, fields: W.Option<EnumFields>)

  datatype TypeDefinitionTy =
    | Struct(fields: seq<IdlField>)
    | Enum(variants: seq<IdlEnumVariant>)

  /** An entry of the `accounts` or of the `types` section. */
  datatype TypeDefinition = TypeDefinition(name: string, ty: TypeDefinitionTy)

  datatype Instruction = Instruction(name: string, args: seq<IdlField>)

  /** The JSON value kept as the IDL's free-form `metadata`. */
  datatype JsonValue =
    | JNull
    | JBool(b: bool)
    | JNumber(n: int)
    | JString(s: string)
    | JArray(items: seq<JsonValue>)
    | JObject(members: map<string, JsonValue>)

  datatype IdlDocument = IdlDocument(
    instructions: seq<Instruction>,
    accounts: seq<TypeDefinition>,
    types: seq<TypeDefinition>,
    metadata: W.Option<JsonValue>)
}
