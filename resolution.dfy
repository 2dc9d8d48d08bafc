/**
 * What one IDL document translates to: the discriminator table, the
 * argument structs of the instructions and the single-pass resolution of
 * the `accounts` and then the `types` definitions. These functions are the
 * specification the imperative driver is proved against; each left fold is
 * written from the end of its sequence, the order in which the driver's
 * loops extend their results.
 */
module Resolution {
  import opened Wrappers
  import opened Idl
  import opened TypeMapper
  import opened Collaborators
  import opened Sighash

  /** A field of an emitted struct: its name and its Rust type text. */
  datatype FieldDecl = FieldDecl(name: string, ty: string)

  /** An emitted declaration: a struct with ordered fields or an enum with ordered unit variants. */
  datatype Decl =
    | StructDecl(name: string, fields: seq<FieldDecl>)
    | EnumDecl(name: string, variants: seq<string>)

  /** One `h.insert(..)` line of the generated `Discriminator::new`. */
  datatype DiscriminatorEntry = DiscriminatorEntry(key: Discriminator, ixName: string)

  /** The generated unit of a document, and the names still unresolved at its end. */
  datatype Generated = Generated(
    programId: string,
    discriminators: seq<DiscriminatorEntry>,
    decls: seq<Decl>,
    unresolved: set<string>)

  datatype MetadataError = MissingMetadata | MissingAddress | AddressNotString

  /** The state the driver threads: declarations written so far and the `unresolved` set. */
  datatype Output = Output(decls: seq<Decl>, unresolved: set<string>)

  /** The program address: the string under "address" in the metadata object. */
  function ProgramAddress(metadata: Option<JsonValue>): (r: Result<string, MetadataError>)
    ensures r == Failure(MissingMetadata) <==> metadata.None?
    ensures r == Failure(MissingAddress) <==>
      metadata.Some? && !(metadata.value.JObject? && "address" in metadata.value.members)
    ensures r.Success? <==>
      metadata.Some? && metadata.value.JObject? && "address" in metadata.value.members
      && metadata.value.members["address"].JString?
    ensures r.Success? ==> r.value == metadata.value.members["address"].s
  {
    match metadata
    case None => Failure(MissingMetadata)
    case Some(value) =>
      if !value.JObject? || "address" !in value.members then Failure(MissingAddress)
      else if !value.members["address"].JString? then Failure(AddressNotString)
      else Success(value.members["address"].s)
  }

  /** The user-defined names the types of `fields` mention. */
  function FieldRefs(fields: seq<IdlField>): set<string>
  {
    if fields == [] then {}
    else FieldRefs(fields[..|fields| - 1]) + DefinedNames(fields[|fields| - 1].ty)
  }

  /** A name is added by a field list exactly when one of its field types mentions it. */
  lemma {:induction false} FieldRefsMembers(fields: seq<IdlField>, name: string)
    ensures name in FieldRefs(fields) <==>
      exists i :: 0 <= i < |fields| && name in DefinedNames(fields[i].ty)
  {
    if fields != [] {
      var init := fields[..|fields| - 1];
      FieldRefsMembers(init, name);
      assert forall i :: 0 <= i < |init| ==> init[i] == fields[i];
    }
  }

  /** Extending a prefix of the fields by one field adds that field's names. */
  lemma FieldRefsExtend(fields: seq<IdlField>, i: nat)
    requires i < |fields|
    ensures FieldRefs(fields[..i + 1]) == FieldRefs(fields[..i]) + DefinedNames(fields[i].ty)
  {
    assert fields[..i + 1][..i] == fields[..i];
  }

  /** The fields of an emitted struct: snake-cased names and mapped types, in IDL order. */
  function FieldDecls(env: Env, fields: seq<IdlField>): seq<FieldDecl>
  {
    seq(|fields|, i requires 0 <= i < |fields| =>
      FieldDecl(env.snakeCase(fields[i].name), RustTypeOf(fields[i].ty)))
  }

  /** The declaration emitted for a definition of the `accounts` or `types` section. */
  function DeclOf(env: Env, def: TypeDefinition): (d: Decl)
    ensures d.name == def.name
    ensures def.ty.Struct? ==>
      (d.StructDecl? && |d.fields| == |def.ty.fields|
       && forall i :: 0 <= i < |d.fields| ==>
            d.fields[i] == FieldDecl(env.snakeCase(def.ty.fields[i].name), RustTypeOf(def.ty.fields[i].ty)))
    ensures def.ty.Enum? ==>
      (d.EnumDecl? && |d.variants| == |def.ty.variants|
       && forall i :: 0 <= i < |d.variants| ==> d.variants[i] == def.ty.variants[i].name)
  {
    match def.ty
    case Struct(fields) => StructDecl(def.name, FieldDecls(env, fields))
    case Enum(variants) => EnumDecl(def.name, seq(|variants|, i requires 0 <= i < |variants| => variants[i].name))
  }

  /** The names emitting a definition adds to `unresolved`; enum payloads are never mapped. */
  function DefRefs(def: TypeDefinition): set<string>
  {
    match def.ty
    case Struct(fields) => FieldRefs(fields)
    case Enum(_) => {}
  }

  function Names(defs: seq<TypeDefinition>): set<string>
  {
    set i | 0 <= i < |defs| :: defs[i].name
  }

  function AllDefRefs(defs: seq<TypeDefinition>): set<string>
  {
    if defs == [] then {} else AllDefRefs(defs[..|defs| - 1]) + DefRefs(defs[|defs| - 1])
  }

  /** One iteration of a resolution scan. */
  function ResolveStep(env: Env, out: Output, def: TypeDefinition): Output
  {
    if def.name in out.unresolved
    then Output(out.decls + [DeclOf(env, def)], (out.unresolved + DefRefs(def)) - {def.name})
    else out
  }

  /** A single pass over one definition section. */
  function Scan(env: Env, defs: seq<TypeDefinition>, out: Output): Output
  {
    if defs == [] then out
    else ResolveStep(env, Scan(env, defs[..|defs| - 1], out), defs[|defs| - 1])
  }

  /** The argument struct of an instruction. */
  function ArgStruct(env: Env, ix: Instruction): Decl
  {
    StructDecl(env.upperCamelCase(ix.name), FieldDecls(env, ix.args))
  }

  function ArgStep(env: Env, out: Output, ix: Instruction): Output
  {
    if ix.args == [] then out
    else Output(out.decls + [ArgStruct(env, ix)], out.unresolved + FieldRefs(ix.args))
  }

  /** The argument-struct phase over the instructions. */
  function ArgStructs(env: Env, ixs: seq<Instruction>, out: Output): Output
  {
    if ixs == [] then out
    else ArgStep(env, ArgStructs(env, ixs[..|ixs| - 1], out), ixs[|ixs| - 1])
  }

  /** How many instructions carry arguments. */
  function CountWithArgs(ixs: seq<Instruction>): nat
  {
    if ixs == [] then 0
    else CountWithArgs(ixs[..|ixs| - 1]) + (if ixs[|ixs| - 1].args == [] then 0 else 1)
  }

  /** The user-defined names the instruction arguments mention. */
  function ArgRefs(ixs: seq<Instruction>): set<string>
  {
    if ixs == [] then {} else ArgRefs(ixs[..|ixs| - 1]) + FieldRefs(ixs[|ixs| - 1].args)
  }

  function DiscriminatorTable(env: Env, ixs: seq<Instruction>): seq<DiscriminatorEntry>
  {
    seq(|ixs|, i requires 0 <= i < |ixs| =>
      DiscriminatorEntry(BuildSighash(env, ixs[i].name), env.snakeCase(ixs[i].name)))
  }

  /** The whole translation of one document. */
  function Translation(env: Env, idl: IdlDocument): Result<Generated, MetadataError>
  {
    match ProgramAddress(idl.metadata)
    case Failure(e) => Failure(e)
    case Success(id) =>
      var afterArgs := ArgStructs(env, idl.instructions, Output([], {}));
      var afterAccounts := Scan(env, idl.accounts, afterArgs);
      var afterTypes := Scan(env, idl.types, afterAccounts);
      Success(Generated(id, DiscriminatorTable(env, idl.instructions), afterTypes.decls, afterTypes.unresolved))
  }

  // ---------------------------------------------------------------------
  // The argument-struct phase

  /**
   * The phase only appends, one struct per instruction with arguments, and
   * adds exactly the names the arguments mention.
   */
  lemma {:induction false} ArgStructsGrowth(env: Env, ixs: seq<Instruction>, out: Output)
    ensures var r := ArgStructs(env, ixs, out);
      && r.unresolved == out.unresolved + ArgRefs(ixs)
      && |r.decls| == |out.decls| + CountWithArgs(ixs)
      && r.decls[..|out.decls|] == out.decls
  {
    if ixs != [] {
      ArgStructsGrowth(env, ixs[..|ixs| - 1], out);
    }
  }

  /** One step of the argument phase keeps what was written before it. */
  lemma ArgStepKeeps(env: Env, out: Output, ix: Instruction, k: nat)
    requires k < |out.decls|
    ensures k < |ArgStep(env, out, ix).decls| && ArgStep(env, out, ix).decls[k] == out.decls[k]
  {
  }

  /**
   * The struct of the i-th instruction with arguments sits at the position
   * given by how many instructions before it carry arguments: the structs
   * appear in instruction order.
   */
  lemma {:induction false} ArgStructsInOrder(env: Env, ixs: seq<Instruction>, out: Output, i: nat)
    requires i < |ixs| && ixs[i].args != []
    ensures var r := ArgStructs(env, ixs, out);
      && |out.decls| + CountWithArgs(ixs[..i]) < |r.decls|
      && r.decls[|out.decls| + CountWithArgs(ixs[..i])] == ArgStruct(env, ixs[i])
  {
    var n := |ixs|;
    var init := ixs[..n - 1];
    var r := ArgStructs(env, ixs, out);
    var mid := ArgStructs(env, init, out);
    ArgStructsGrowth(env, init, out);
    assert r == ArgStep(env, mid, ixs[n - 1]);
    if i < n - 1 {
      ArgStructsInOrder(env, init, out, i);
      assert ixs[..i] == init[..i];
      ArgStepKeeps(env, mid, ixs[n - 1], |out.decls| + CountWithArgs(ixs[..i]));
    } else {
      assert ixs[..i] == init;
    }
  }

  // ---------------------------------------------------------------------
  // The resolution scans

  /**
   * A scan only appends, and each appended declaration is that of a
   * definition whose name was unresolved before the scan or was mentioned
   * by an EARLIER definition of the same scan (single pass). A name leaves
   * the set only if a definition carries it; a name joins it only if a
   * definition of the scan mentions it.
   */
  lemma {:induction false} ScanEffect(env: Env, defs: seq<TypeDefinition>, out: Output)
    ensures var r := Scan(env, defs, out);
      && |out.decls| <= |r.decls| <= |out.decls| + |defs|
      && r.decls[..|out.decls|] == out.decls
      && out.unresolved - Names(defs) <= r.unresolved <= out.unresolved + AllDefRefs(defs)
      && forall k :: |out.decls| <= k < |r.decls| ==>
           exists i :: 0 <= i < |defs| && r.decls[k] == DeclOf(env, defs[i])
             && (defs[i].name in out.unresolved || defs[i].name in AllDefRefs(defs[..i]))
  {
    if defs != [] {
      var n := |defs|;
      var init := defs[..n - 1];
      var last := defs[n - 1];
      ScanEffect(env, init, out);
      var mid := Scan(env, init, out);
      var r := Scan(env, defs, out);
      assert Names(defs) == Names(init) + {last.name} by {
        assert forall i :: 0 <= i < |init| ==> init[i] == defs[i];
      }
      assert AllDefRefs(defs) == AllDefRefs(init) + DefRefs(last);
      forall k | |out.decls| <= k < |r.decls|
        ensures exists i :: (0 <= i < n && r.decls[k] == DeclOf(env, defs[i])
          && (defs[i].name in out.unresolved || defs[i].name in AllDefRefs(defs[..i])))
      {
        if k < |mid.decls| {
          var i :| 0 <= i < |init| && mid.decls[k] == DeclOf(env, init[i])
            && (init[i].name in out.unresolved || init[i].name in AllDefRefs(init[..i]));
          assert init[i] == defs[i] && init[..i] == defs[..i];
          assert r.decls[k] == mid.decls[k];
        } else {
          assert r.decls[k] == DeclOf(env, last);
          assert defs[..n - 1] == init;
          assert last.name in mid.unresolved;
        }
      }
    }
  }

  /**
   * A name that is unresolved when a scan starts, that some definition of
   * the scan carries and that no definition of the scan mentions, is
   * emitted and leaves the set.
   */
  lemma {:induction false} ScanResolves(env: Env, defs: seq<TypeDefinition>, out: Output, name: string)
    requires name in out.unresolved && name in Names(defs) && name !in AllDefRefs(defs)
    ensures var r := Scan(env, defs, out);
      name !in r.unresolved && exists k :: |out.decls| <= k < |r.decls| && r.decls[k].name == name
  {
    var n := |defs|;
    var init := defs[..n - 1];
    var last := defs[n - 1];
    var mid := Scan(env, init, out);
    var r := Scan(env, defs, out);
    assert AllDefRefs(defs) == AllDefRefs(init) + DefRefs(last);
    ScanEffect(env, init, out);
    ScanEffect(env, defs, out);
    if name in Names(init) {
      ScanResolves(env, init, out, name);
      var k :| |out.decls| <= k < |mid.decls| && mid.decls[k].name == name;
      assert r.decls[k] == mid.decls[k];
    } else {
      assert last.name == name;
      assert name in mid.unresolved;
      assert r.decls[|mid.decls|] == DeclOf(env, last);
    }
  }

  /** A scan that reaches no unresolved name changes nothing. */
  lemma {:induction false} ScanIdle(env: Env, defs: seq<TypeDefinition>, out: Output)
    requires forall i :: 0 <= i < |defs| ==> defs[i].name !in out.unresolved
    ensures Scan(env, defs, out) == out
  {
    if defs != [] {
      ScanIdle(env, defs[..|defs| - 1], out);
    }
  }

  /**
   * Over definitions that mention no user-defined type, a scan removes
   * exactly the names it carries.
   */
  lemma NoReferenceScan(env: Env, defs: seq<TypeDefinition>, out: Output)
    requires AllDefRefs(defs) == {}
    ensures Scan(env, defs, out).unresolved == out.unresolved - Names(defs)
  {
    ScanEffect(env, defs, out);
    var r := Scan(env, defs, out);
    forall name | name in r.unresolved && name in Names(defs)
      ensures false
    {
      ScanResolves(env, defs, out, name);
    }
  }

  /**
   * Single pass: a name first mentioned by a definition the scan emits is
   * not resolved by that scan unless a LATER definition carries it, even
   * when an earlier definition of the scan does.
   */
  lemma {:induction false} ScanKeepsLateMention(env: Env, defs: seq<TypeDefinition>, out: Output, i: nat, name: string)
    requires i < |defs| && defs[i].name in Scan(env, defs[..i], out).unresolved
    requires name in DefRefs(defs[i]) && name != defs[i].name
    requires forall j :: i < j < |defs| ==> defs[j].name != name
    ensures name in Scan(env, defs, out).unresolved
  {
    var n := |defs|;
    var init := defs[..n - 1];
    if n - 1 == i {
      assert init == defs[..i];
    } else {
      assert init[..i] == defs[..i];
      ScanKeepsLateMention(env, init, out, i, name);
    }
  }

  // ---------------------------------------------------------------------
  // The whole translation

  /**
   * The leftover set reported at the end lies between the argument
   * references no section defines and every reference of any kind.
   */
  lemma LeftoverBounds(env: Env, idl: IdlDocument)
    requires Translation(env, idl).Success?
    ensures var left := Translation(env, idl).value.unresolved;
      && ArgRefs(idl.instructions) - Names(idl.accounts) - Names(idl.types) <= left
      && left <= ArgRefs(idl.instructions) + AllDefRefs(idl.accounts) + AllDefRefs(idl.types)
  {
    var afterArgs := ArgStructs(env, idl.instructions, Output([], {}));
    ArgStructsGrowth(env, idl.instructions, Output([], {}));
    ScanEffect(env, idl.accounts, afterArgs);
    ScanEffect(env, idl.types, Scan(env, idl.accounts, afterArgs));
  }

  /**
   * The `types` scan cannot resolve a name first mentioned by a `types`
   * definition it emits, unless a later `types` definition carries it: a
   * name that only `accounts` (or only an earlier `types` entry) defines is
   * reported as unresolved.
   */
  lemma LateMentionStaysUnresolved(env: Env, idl: IdlDocument, i: nat, name: string)
    requires Translation(env, idl).Success?
    requires i < |idl.types| && name in DefRefs(idl.types[i]) && name != idl.types[i].name
    requires var afterAccounts := Scan(env, idl.accounts, ArgStructs(env, idl.instructions, Output([], {})));
      idl.types[i].name in Scan(env, idl.types[..i], afterAccounts).unresolved
    requires forall j :: i < j < |idl.types| ==> idl.types[j].name != name
    ensures name in Translation(env, idl).value.unresolved
  {
    var afterAccounts := Scan(env, idl.accounts, ArgStructs(env, idl.instructions, Output([], {})));
    ScanKeepsLateMention(env, idl.types, afterAccounts, i, name);
  }

  /**
   * When every argument type is defined in `accounts` and the accounts
   * mention no further user-defined type, nothing is left unresolved.
   */
  lemma ResolutionComplete(env: Env, idl: IdlDocument)
    requires ProgramAddress(idl.metadata).Success?
    requires ArgRefs(idl.instructions) <= Names(idl.accounts)
    requires AllDefRefs(idl.accounts) == {}
    ensures Translation(env, idl).Success? && Translation(env, idl).value.unresolved == {}
  {
    var afterArgs := ArgStructs(env, idl.instructions, Output([], {}));
    ArgStructsGrowth(env, idl.instructions, Output([], {}));
    NoReferenceScan(env, idl.accounts, afterArgs);
    var afterAccounts := Scan(env, idl.accounts, afterArgs);
    assert afterAccounts.unresolved == {};
    ScanIdle(env, idl.types, afterAccounts);
  }

  /** The translation fails exactly when the metadata has no string address, with nothing emitted. */
  lemma TranslationFailsOnlyOnMetadata(env: Env, idl: IdlDocument)
    ensures Translation(env, idl).Failure? <==> ProgramAddress(idl.metadata).Failure?
    ensures Translation(env, idl).Failure? ==>
      Translation(env, idl).error == ProgramAddress(idl.metadata).error
    ensures Translation(env, idl).Success? ==>
      && Translation(env, idl).value.programId == ProgramAddress(idl.metadata).value
      && |Translation(env, idl).value.discriminators| == |idl.instructions|
  {
  }
}
