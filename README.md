# parse_idl translation engine, modelled in Dafny

`parse_idl` reads the Anchor IDL of a Solana program and writes one Rust
source file per document. The file holds the program address, a
`Discriminator` table and the Rust structs and enums for the instruction
arguments and for the user-defined types they reach. The table maps the
8-byte instruction sighash to the snake-cased instruction name. This project
models the translation engine in `src/main.rs` and proves its properties:

- **Type mapper** (`ty_to_rust_type`). `TypeMapper.TyToRustType` maps an
  `IdlType` to its Rust text and threads the `unresolved` set. Its partner is
  a reader for that text (`RustTypeParser`). The reader recovers the IDL type
  from the text, so the mapping is injective for user-defined names that are
  identifier-shaped and not keywords. Among such types the one exception is
  `Bytes` and `Vec(U8)`, which are both written `Vec<u8>`.
- **Discriminator builder** (`build_sighash`). `Sighash.BuildSighash` takes the
  first 8 bytes of SHA-256 over the UTF-8 bytes of `"global:" + snake_case(name)`.
  SHA-256 and the `heck` case conversions are fields of `Collaborators.Env`, a
  record of function values. The model assumes only that a digest has 32 bytes.
  `Utf8` models `str::as_bytes`, with a decoder as its left inverse.
- **Resolution driver** (the body of `main`). `Driver` holds imperative
  methods with the loops of `main`:
  - the metadata checks;
  - the discriminator loop;
  - the argument-struct loop, with its inner field loop;
  - the two single-pass resolution loops over `accounts` and then `types`.

  Each method is proved equal to a specification function in `Resolution`.
  The lemmas about those functions state what the generator promises.
  Declarations are emitted as records (`Resolution.Decl`), not as text.
  `ResolutionExamples` pins concrete documents, including the two cases in
  which the single pass leaves a defined name unresolved.

A missing or malformed `metadata.address` still leaves an output file
behind. Line 20 creates the file and line 23 writes the `use` lines, both
before the check at lines 25-33. `Driver.TranslateAll` therefore leaves an
`ImportsOnly` file for the failing document and stops the whole run.

## Model

| member | source | states |
|---|---|---|
| `TypeMapper.TyToRustType` | src/main.rs:233-259 | after a call, `unresolved` is its old value plus every `Defined` name in the type; nothing is removed |
| `TypeMapper.RustTextIgnoresSet` | src/main.rs:233-259 | the Rust text produced for a type does not depend on what `unresolved` holds |
| `TypeMapper.PrimitiveNames` | src/main.rs:235-250 | each primitive maps to its fixed Rust name with width and signedness kept (U8→u8, I16→i16, U128→u128, Bytes→Vec<u8>, String→String, PublicKey→Pubkey, …) |
| `TypeMapper.CompositeNames` | src/main.rs:251-257 | Option/Vec wrap the mapped inner type; Array writes `[inner; n]` with `n` in decimal; `Defined(name)` is written verbatim |
| `RustTypeParser.ParseRoundTrip` | src/main.rs:233-259 | reading back the text of a type with identifier-shaped names recovers the type (Bytes read as Vec(U8)) and leaves what follows untouched |
| `RustTypeParser.RustTextInjective` | src/main.rs:233-259 | two such types get the same Rust text if and only if they are equal up to Bytes ≡ Vec(U8) |
| `RustTypeParser.NormalizeKeepsText` | src/main.rs:248-252 | `Bytes` and `Vec(U8)` are written alike (`Vec<u8>`), at any depth |
| `Decimal.NatToDecimal` | src/main.rs:253 | an array length is written as a non-empty run of digits with no leading zero |
| `Decimal.DecimalRoundTrip` | src/main.rs:253 | the written digits read back as the length itself |
| `Decimal.NatToDecimalInjective` | src/main.rs:253 | distinct lengths are written differently |
| `Utf8.DecodeEncode` | src/main.rs:156 | decoding the UTF-8 bytes of a string gives the string back |
| `Utf8.EncodeInjective` | src/main.rs:156 | distinct strings have distinct UTF-8 bytes |
| `Utf8.EncodeAppend` | src/main.rs:153-156 | the bytes of a concatenation are the concatenation of the bytes |
| `Sighash.BuildSighash` | src/main.rs:149-161 | the discriminator has exactly 8 bytes and is the first 8 bytes of the SHA-256 digest of the preimage |
| `Sighash.PreimageShape` | src/main.rs:150-156 | the hashed bytes are the 7 bytes of `global:` followed by the UTF-8 of the snake-cased name |
| `Sighash.PreimageInjective` | src/main.rs:150-156 | two names have the same preimage if and only if they snake-case alike |
| `Sighash.SighashDeterministic` | src/main.rs:149-161 | the discriminator is a function of the snake-cased name alone |
| `Resolution.ProgramAddress` | src/main.rs:25-33 | no metadata, no `address` key in a metadata object, or a non-string address each give their own error; otherwise the address string is returned verbatim |
| `Resolution.FieldRefsMembers` | src/main.rs:58-63 | a name is among those a field list adds exactly when it is a `Defined` name inside one of its field types |
| `Resolution.DeclOf` | src/main.rs:72-117 | a definition is emitted under its own name; a struct has, for each IDL field in order, the snake-cased field name and the mapped Rust type; an enum keeps its variant names in order and nothing else |
| `Resolution.FieldRefsExtend` | src/main.rs:58-63 | mapping one more field adds exactly that field's `Defined` names |
| `Resolution.ArgStructsGrowth` | src/main.rs:50-67 | the argument phase appends one struct per instruction with arguments (none for an empty list) and adds exactly the names the arguments mention |
| `Resolution.ArgStructsInOrder` | src/main.rs:50-67 | the struct `UpperCamel(ix.name)` of each instruction with arguments sits at its instruction-order position, with snake-cased fields and mapped types in argument order |
| `Resolution.ScanEffect` | src/main.rs:70-121 | a scan only appends. Each emitted declaration belongs to a definition whose name was unresolved at the start or was mentioned by an earlier definition of the same scan. Names leave the set only if a definition carries them, and join only if a definition mentions them |
| `Resolution.ScanResolves` | src/main.rs:70-94 | an unresolved name that a definition of the scan carries, and that no definition of the scan mentions, is emitted and removed |
| `Resolution.ScanIdle` | src/main.rs:97-121 | a scan that meets no unresolved name changes nothing |
| `Resolution.NoReferenceScan` | src/main.rs:70-94 | over definitions without references, a scan removes exactly the names it defines |
| `Resolution.ScanKeepsLateMention` | src/main.rs:97-121 | single pass: a name first mentioned by a definition the scan emits stays unresolved unless a later definition of the same scan carries it, even when an earlier one does |
| `Resolution.LeftoverBounds` | src/main.rs:123-125 | the reported leftovers contain every argument reference defined nowhere, and contain no name that is not referenced somewhere |
| `Resolution.LateMentionStaysUnresolved` | src/main.rs:70-125 | a name first mentioned by a `types` definition the `types` scan emits, and carried by no later `types` entry, is reported as unresolved, whether `accounts` or an earlier `types` entry defines it |
| `Resolution.ResolutionComplete` | src/main.rs:50-125 | if every argument type is defined in `accounts` and the accounts reference nothing, nothing is reported |
| `Resolution.TranslationFailsOnlyOnMetadata` | src/main.rs:25-46 | translation fails exactly when the address check fails, and nothing is produced then. On success the address is carried verbatim and there is one discriminator per instruction |
| `ResolutionExamples.EarlierTypeStaysUnresolved` | src/main.rs:97-125 | on a fixed document, the exact outcome in the case `Resolution.ScanKeepsLateMention` states in general: a `types` entry that references an earlier `types` entry leaves that name unresolved and unemitted |
| `ResolutionExamples.AccountMentionedFromTypesStaysUnresolved` | src/main.rs:70-125 | on a fixed document, the exact outcome in the case `Resolution.LateMentionStaysUnresolved` states in general: a name first referenced while scanning `types` but defined in `accounts` stays unresolved |
| `ResolutionExamples.SelfReferenceResolves` | src/main.rs:100-119 | a self-referencing struct is emitted once and its name is removed, because removal follows the field mapping |
| `ResolutionExamples.EnumPayloadIsIgnored` | src/main.rs:111-117 | enum variant payloads are never mapped, so a type named only there is neither emitted nor reported |
| `ResolutionExamples.InitializePoolPreimage` | src/main.rs:149-161 | the bytes hashed for `initialize_pool` are those of "global:" followed by those of the name |
| `ResolutionExamples.InitializePoolTranslation` | src/main.rs:35-67 | `initialize_pool(authority: publicKey)` gives one discriminator, the sighash of `initialize_pool` keyed to that name, one struct `InitializePool { authority: Pubkey }`, and nothing unresolved |
| `Driver.BuildDiscriminatorTable` | src/main.rs:40-46 | exactly one entry per instruction, in instruction order, keyed by `build_sighash(ix.name)` with value `snake_case(ix.name)` |
| `Driver.EmitFields` | src/main.rs:58-64 | threading `unresolved` field after field yields the fields in IDL order (snake-cased name, mapped type) and adds exactly their `Defined` names |
| `Driver.EmitArgStructs` | src/main.rs:50-67 | the argument-struct loop computes `Resolution.ArgStructs` |
| `Driver.ResolveDefinitions` | src/main.rs:70-121 | each resolution loop computes the single pass `Resolution.Scan` |
| `Driver.Translate` | src/main.rs:21-125 | the per-document body of `main` computes `Resolution.Translation` |
| `Driver.TranslateAll` | src/main.rs:14-33 | documents are translated in turn. The first failing document leaves a file with only the `use` lines and ends the run. Every earlier document's file is complete |

## Left out

- `find_idl_json` (src/main.rs:131-147) walks the directory. The documents arrive as a sequence, and file names and output paths (lines 15-20) are not modelled.
- JSON parsing by `serde_json` / `anchor_idl` (lines 18-19) is an external library. The parsed IDL is the input. Only the fields the generator reads are kept, and JSON numbers are integers.
- The text writers (`add_imports` … `close_define_struct_or_enum`, lines 163-232) only format text. Declarations are records, and the order of the written text within a declaration is not modelled. The `Discriminator` table is the sequence of its `h.insert` lines. A repeated key, which would overwrite an earlier entry in the generated `HashMap`, is kept as written.
- SHA-256 internals (openssl, lines 155-157) and the `heck` case conversions (line 8) are foreign code. They are parameters with no property except the 32-byte digest length, so case-conversion idempotence is not stated.
- The `log::warn` output (lines 123-125) and its `HashSet` iteration order are left out. The leftover set is the model of the warnings.
- The I/O `unwrap` panics (lines 15-20 and every writer) are left out. F32/F64 only produce the names `f32`/`f64`; no float arithmetic is involved.
- `RustTypeParser.ParseRoundTrip` covers only user-defined names that are non-empty identifiers other than the Rust keywords the mapper writes (`u8`, `Option`, …). A `Defined("u8")` would be written exactly like `U8`.
