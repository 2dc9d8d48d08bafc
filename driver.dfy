/**
 * The body of `main`, with the text writers replaced by appending
 * declaration records: the metadata checks, the discriminator loop, the
 * argument-struct loop and the two resolution loops, each proved to compute
 * the corresponding specification function of module Resolution.
 */
module Driver {
  import opened Wrappers
  import opened Idl
  import opened TypeMapper
  import opened Collaborators
  import opened Sighash
  import opened Resolution

  /** What the generator leaves in a document's output file. */
  datatype WrittenFile =
    | Complete(generated: Generated)
    | ImportsOnly  // created and given its `use` lines before the metadata check failed

  /** The loop that writes one `h.insert(sighash, snake_name)` per instruction. */
  method BuildDiscriminatorTable(env: Env, ixs: seq<Instruction>) returns (table: seq<DiscriminatorEntry>)
    ensures |table| == |ixs|
    ensures forall i :: 0 <= i < |ixs| ==>
      table[i] == DiscriminatorEntry(BuildSighash(env, ixs[i].name), env.snakeCase(ixs[i].name))
  {
    table := [];
    for i := 0 to |ixs|
      invariant |table| == i
      invariant forall j :: 0 <= j < i ==>
        table[j] == DiscriminatorEntry(BuildSighash(env, ixs[j].name), env.snakeCase(ixs[j].name))
    {
      table := table + [DiscriminatorEntry(BuildSighash(env, ixs[i].name), env.snakeCase(ixs[i].name))];
    }
  }

  /**
   * The loop that writes the fields of a struct, threading `unresolved`
   * through `ty_to_rust_type` field after field.
   */
  method EmitFields(env: Env, fields: seq<IdlField>, unresolved: set<string>)
    returns (decls: seq<FieldDecl>, unresolved': set<string>)
    ensures |decls| == |fields|
    ensures forall i :: 0 <= i < |fields| ==>
      decls[i] == FieldDecl(env.snakeCase(fields[i].name), RustTypeOf(fields[i].ty))
    ensures unresolved' == unresolved + FieldRefs(fields)
  {
    decls, unresolved' := [], unresolved;
    for i := 0 to |fields|
      invariant |decls| == i
      invariant forall j :: 0 <= j < i ==>
        decls[j] == FieldDecl(env.snakeCase(fields[j].name), RustTypeOf(fields[j].ty))
      invariant unresolved' == unresolved + FieldRefs(fields[..i])
    {
      var mapped := TyToRustType(fields[i].ty, unresolved');
      RustTextIgnoresSet(fields[i].ty, unresolved');
      FieldRefsExtend(fields, i);
      var field := FieldDecl(env.snakeCase(fields[i].name), mapped.rust);
      assert field == FieldDecl(env.snakeCase(fields[i].name), RustTypeOf(fields[i].ty));
      decls := decls + [field];
      unresolved' := mapped.unresolved;
    }
    assert fields[..|fields|] == fields;
  }

  /** The loop that writes an argument struct for every instruction with arguments. */
  method EmitArgStructs(env: Env, ixs: seq<Instruction>, out: Output) returns (out': Output)
    ensures out' == ArgStructs(env, ixs, out)
  {
    out' := out;
    for i := 0 to |ixs|
      invariant out' == ArgStructs(env, ixs[..i], out)
    {
      assert ixs[..i + 1][..i] == ixs[..i];
      var ix := ixs[i];
      if ix.args != [] {
        var fields, unresolved := EmitFields(env, ix.args, out'.unresolved);
        assert fields == FieldDecls(env, ix.args);
        out' := Output(out'.decls + [StructDecl(env.upperCamelCase(ix.name), fields)], unresolved);
      }
    }
    assert ixs[..|ixs|] == ixs;
  }

  /**
   * One resolution loop: a definition is written iff its name is in
   * `unresolved` when the loop reaches it, and the name is removed after
   * its fields have been mapped.
   */
  method ResolveDefinitions(env: Env, defs: seq<TypeDefinition>, out: Output) returns (out': Output)
    ensures out' == Scan(env, defs, out)
  {
    out' := out;
    for i := 0 to |defs|
      invariant out' == Scan(env, defs[..i], out)
    {
      assert defs[..i + 1][..i] == defs[..i];
      var def := defs[i];
      if def.name in out'.unresolved {
        var decl: Decl;
        var unresolved := out'.unresolved;
        match def.ty {
          case Struct(fields) =>
            var fieldDecls;
            fieldDecls, unresolved := EmitFields(env, fields, unresolved);
            assert fieldDecls == FieldDecls(env, fields);
            decl := StructDecl(def.name, fieldDecls);
          case Enum(variants) =>
            var names := [];
            for j := 0 to |variants|
              invariant |names| == j
              invariant forall k :: 0 <= k < j ==> names[k] == variants[k].name
            {
              names := names + [variants[j].name];
            }
            decl := EnumDecl(def.name, names);
            assert unresolved == out'.unresolved + DefRefs(def);
        }
        assert decl == DeclOf(env, def);
        out' := Output(out'.decls + [decl], unresolved - {def.name});
      }
    }
    assert defs[..|defs|] == defs;
  }

  /** The translation of one document. */
  method Translate(env: Env, idl: IdlDocument) returns (r: Result<Generated, MetadataError>)
    ensures r == Translation(env, idl)
  {
    if idl.metadata.None? {
      return Failure(MissingMetadata);
    }
    var metadata := idl.metadata.value;
    if !metadata.JObject? || "address" !in metadata.members {
      return Failure(MissingAddress);
    }
    var address := metadata.members["address"];
    if !address.JString? {
      return Failure(AddressNotString);
    }
    var id := address.s;

    var table := BuildDiscriminatorTable(env, idl.instructions);
    assert table == DiscriminatorTable(env, idl.instructions);
    var out := EmitArgStructs(env, idl.instructions, Output([], {}));
    out := ResolveDefinitions(env, idl.accounts, out);
    out := ResolveDefinitions(env, idl.types, out);
    r := Success(Generated(id, table, out.decls, out.unresolved));
  }

  /**
   * The loop over the IDL files: each document's output file is written in
   * turn, and the first document whose metadata check fails ends the whole
   * run, leaving its file with the `use` lines only.
   */
  method TranslateAll(env: Env, docs: seq<IdlDocument>) returns (written: seq<WrittenFile>, err: Option<MetadataError>)
    ensures err.None? ==> |written| == |docs|
    ensures err.Some? ==>
      (0 < |written| <= |docs|
       && written[|written| - 1] == ImportsOnly
       && Translation(env, docs[|written| - 1]) == Failure(err.value))
    ensures forall i :: 0 <= i < |written| && written[i].Complete? ==>
      Translation(env, docs[i]) == Success(written[i].generated)
    ensures forall i :: 0 <= i < |written| - (if err.Some? then 1 else 0) ==> written[i].Complete?
  {
    written := [];
    for i := 0 to |docs|
      invariant |written| == i
      invariant forall j :: 0 <= j < i ==>
        written[j].Complete? && Translation(env, docs[j]) == Success(written[j].generated)
    {
      var r := Translate(env, docs[i]);
      if r.Failure? {
        written := written + [ImportsOnly];
        return written, Some(r.error);
      }
      written := written + [Complete(r.value)];
    }
    err := None;
  }
}
