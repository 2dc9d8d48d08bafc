/**
 * Concrete documents that pin the behaviour of the single-pass resolver:
 * what it resolves, the two situations in which a defined name is still
 * reported, and a complete small translation.
 */
module ResolutionExamples {
  import opened Wrappers
  import opened Idl
  import opened TypeMapper
  import opened Collaborators
  import opened Sighash
  import opened Utf8
  import opened Resolution

  const Address: string := "Pool1111111111111111111111111111111111111111"

  function WithAddress(ixs: seq<Instruction>, accounts: seq<TypeDefinition>, types: seq<TypeDefinition>): IdlDocument
  {
    IdlDocument(ixs, accounts, types, Some(JObject(map["address" := JString(Address)])))
  }

  /** An instruction `f` with one argument of the user-defined type `name`. */
  function UsesType(name: string): Instruction
  {
    Instruction("f", [IdlField("x", Defined(name))])
  }

  lemma FieldRefsOne(f: IdlField)
    ensures FieldRefs([f]) == DefinedNames(f.ty)
  {
    assert [f][..0] == [];
  }

  lemma ArgStructsOne(env: Env, ix: Instruction, out: Output)
    ensures ArgStructs(env, [ix], out) == ArgStep(env, out, ix)
  {
    assert [ix][..0] == [];
  }

  lemma ScanOne(env: Env, d: TypeDefinition, out: Output)
    ensures Scan(env, [d], out) == ResolveStep(env, out, d)
  {
    assert [d][..0] == [];
  }

  lemma ScanTwo(env: Env, d1: TypeDefinition, d2: TypeDefinition, out: Output)
    ensures Scan(env, [d1, d2], out) == ResolveStep(env, ResolveStep(env, out, d1), d2)
  {
    assert [d1, d2][..1] == [d1];
    ScanOne(env, d1, out);
  }

  /** The state after the argument phase of a document whose one instruction uses `name`. */
  lemma AfterUsesType(env: Env, name: string)
    ensures ArgStructs(env, [UsesType(name)], Output([], {})) == Output([ArgStruct(env, UsesType(name))], {name})
  {
    ArgStructsOne(env, UsesType(name), Output([], {}));
    FieldRefsOne(IdlField("x", Defined(name)));
  }

  /**
   * A `types` entry that mentions a type defined EARLIER in the same section
   * is emitted, but the earlier type has already been passed: it is not
   * emitted and is reported.
   */
  lemma EarlierTypeStaysUnresolved(env: Env)
    ensures var a := TypeDefinition("A", Struct([]));
      var b := TypeDefinition("B", Struct([IdlField("a", Defined("A"))]));
      var r := Translation(env, WithAddress([UsesType("B")], [], [a, b]));
      r.Success? && r.value.unresolved == {"A"}
      && r.value.decls == [ArgStruct(env, UsesType("B")), DeclOf(env, b)]
  {
    var a := TypeDefinition("A", Struct([]));
    var b := TypeDefinition("B", Struct([IdlField("a", Defined("A"))]));
    var afterArgs := Output([ArgStruct(env, UsesType("B"))], {"B"});
    AfterUsesType(env, "B");
    ScanTwo(env, a, b, afterArgs);
    FieldRefsOne(IdlField("a", Defined("A")));
    assert ResolveStep(env, afterArgs, a) == afterArgs;
    assert ResolveStep(env, afterArgs, b) == Output(afterArgs.decls + [DeclOf(env, b)], {"A"});
  }

  /**
   * A name first mentioned by a `types` entry but defined in `accounts` is
   * never emitted: the accounts scan has already finished.
   */
  lemma AccountMentionedFromTypesStaysUnresolved(env: Env)
    ensures var a := TypeDefinition("A", Struct([]));
      var b := TypeDefinition("B", Struct([IdlField("a", Defined("A"))]));
      var r := Translation(env, WithAddress([UsesType("B")], [a], [b]));
      r.Success? && r.value.unresolved == {"A"}
      && r.value.decls == [ArgStruct(env, UsesType("B")), DeclOf(env, b)]
  {
    var a := TypeDefinition("A", Struct([]));
    var b := TypeDefinition("B", Struct([IdlField("a", Defined("A"))]));
    var afterArgs := Output([ArgStruct(env, UsesType("B"))], {"B"});
    AfterUsesType(env, "B");
    ScanOne(env, a, afterArgs);
    ScanOne(env, b, afterArgs);
    FieldRefsOne(IdlField("a", Defined("A")));
    assert ResolveStep(env, afterArgs, a) == afterArgs;
    assert ResolveStep(env, afterArgs, b) == Output(afterArgs.decls + [DeclOf(env, b)], {"A"});
  }

  /**
   * A struct that mentions itself is resolved: its own name is added while
   * its fields are mapped and removed right after.
   */
  lemma SelfReferenceResolves(env: Env)
    ensures var s := TypeDefinition("Node", Struct([IdlField("next", Option(Defined("Node")))]));
      var r := Translation(env, WithAddress([UsesType("Node")], [], [s]));
      r.Success? && r.value.unresolved == {}
      && r.value.decls == [ArgStruct(env, UsesType("Node")), DeclOf(env, s)]
  {
    var s := TypeDefinition("Node", Struct([IdlField("next", Option(Defined("Node")))]));
    var afterArgs := Output([ArgStruct(env, UsesType("Node"))], {"Node"});
    AfterUsesType(env, "Node");
    ScanOne(env, s, afterArgs);
    FieldRefsOne(IdlField("next", Option(Defined("Node"))));
    assert ResolveStep(env, afterArgs, s) == Output(afterArgs.decls + [DeclOf(env, s)], {});
  }

  /**
   * An enum variant's payload is never mapped: a type named only there is
   * neither emitted nor reported.
   */
  lemma EnumPayloadIsIgnored(env: Env)
    ensures var e := TypeDefinition("Side", Enum([
        IdlEnumVariant("Bid", None),
        IdlEnumVariant("Ask", Some(Tuple([Defined("Price")])))]));
      var p := TypeDefinition("Price", Struct([IdlField("ticks", U64)]));
      var r := Translation(env, WithAddress([UsesType("Side")], [], [e, p]));
      r.Success? && r.value.unresolved == {}
      && r.value.decls == [ArgStruct(env, UsesType("Side")), EnumDecl("Side", ["Bid", "Ask"])]
  {
    var e := TypeDefinition("Side", Enum([
        IdlEnumVariant("Bid", None),
        IdlEnumVariant("Ask", Some(Tuple([Defined("Price")])))]));
    var p := TypeDefinition("Price", Struct([IdlField("ticks", U64)]));
    var afterArgs := Output([ArgStruct(env, UsesType("Side"))], {"Side"});
    AfterUsesType(env, "Side");
    ScanTwo(env, e, p, afterArgs);
    assert DeclOf(env, e) == EnumDecl("Side", ["Bid", "Ask"]);
    var afterSide := Output(afterArgs.decls + [DeclOf(env, e)], {});
    assert ResolveStep(env, afterArgs, e) == afterSide;
    assert ResolveStep(env, afterSide, p) == afterSide;
  }

  const InitializePool: Instruction := Instruction("initialize_pool", [IdlField("authority", PublicKey)])

  /** The preimage of `initialize_pool` is the bytes of "global:" followed by those of its name. */
  lemma InitializePoolPreimage(env: Env)
    requires env.snakeCase("initialize_pool") == "initialize_pool"
    ensures Preimage(env, "initialize_pool") == GlobalNamespaceBytes + Encode("initialize_pool")
  {
    PreimageShape(env, "initialize_pool");
  }

  lemma InitializePoolArgs(env: Env)
    requires env.upperCamelCase("initialize_pool") == "InitializePool"
    requires env.snakeCase("authority") == "authority"
    ensures ArgStructs(env, [InitializePool], Output([], {}))
      == Output([StructDecl("InitializePool", [FieldDecl("authority", "Pubkey")])], {})
  {
    ArgStructsOne(env, InitializePool, Output([], {}));
    FieldRefsOne(InitializePool.args[0]);
    assert FieldDecls(env, InitializePool.args) == [FieldDecl("authority", "Pubkey")];
  }

  /**
   * The document with one instruction `initialize_pool(authority: publicKey)`:
   * one discriminator, that of `initialize_pool` under its snake-cased name;
   * one struct `InitializePool { authority: Pubkey }`; nothing left unresolved.
   */
  lemma InitializePoolTranslation(env: Env)
    requires env.snakeCase("initialize_pool") == "initialize_pool"
    requires env.upperCamelCase("initialize_pool") == "InitializePool"
    requires env.snakeCase("authority") == "authority"
    ensures Translation(env, WithAddress([InitializePool], [], [])) == Success(Generated(
        Address,
        [DiscriminatorEntry(BuildSighash(env, "initialize_pool"), "initialize_pool")],
        [StructDecl("InitializePool", [FieldDecl("authority", "Pubkey")])],
        {}))
  {
    InitializePoolArgs(env);
    var table := DiscriminatorTable(env, [InitializePool]);
    assert table == [DiscriminatorEntry(BuildSighash(env, "initialize_pool"), "initialize_pool")];
  }
}
