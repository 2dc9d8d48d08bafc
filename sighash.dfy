/**
 * The code the generator calls but does not contain: the SHA-256 digest of
 * FIPS 180-4 (through openssl) and the `heck` case conversions. They are
 * passed in as function values, so the model assumes nothing about them
 * beyond their types: a digest is 32 bytes.
 */
module Collaborators {
  import opened Utf8

  type Digest = s: seq<byte> | |s| == 32 witness seq(32, _ => 0)

  datatype Env = Env(
    sha256: seq<byte> -> Digest,
    snakeCase: string -> string,
    upperCamelCase: string -> string)
}

/**
 * `build_sighash`: the 8-byte discriminator of an instruction, the first
 * eight bytes of SHA-256 over "global:" followed by the snake-cased name.
 */
module Sighash {
  import opened Utf8
  import opened Collaborators

  type Discriminator = s: seq<byte> | |s| == 8 witness seq(8, _ => 0)

  /** The namespace tag every instruction preimage starts with. */
  const GlobalNamespace: string := "global:"

  /** The ASCII bytes of "global:". */
  const GlobalNamespaceBytes: seq<byte> := [0x67, 0x6C, 0x6F, 0x62, 0x61, 0x6C, 0x3A]

  /** The bytes hashed for an instruction named `fname`. */
  function Preimage(env: Env, fname: string): seq<byte>
  {
    Encode(GlobalNamespace + env.snakeCase(fname))
  }

  function BuildSighash(env: Env, fname: string): (sighash: Discriminator)
    ensures sighash + env.sha256(Preimage(env, fname))[8..] == env.sha256(Preimage(env, fname))
  {
    env.sha256(Preimage(env, fname))[..8]
  }

  /** The preimage is the fixed 7-byte tag followed by the UTF-8 of the snake-cased name. */
  lemma PreimageShape(env: Env, fname: string)
    ensures Preimage(env, fname) == GlobalNamespaceBytes + Encode(env.snakeCase(fname))
  {
    EncodeAppend(GlobalNamespace, env.snakeCase(fname));
    EncodeAscii(GlobalNamespace);
  }

  /** Two instruction names share a preimage exactly when they snake-case alike. */
  lemma PreimageInjective(env: Env, f: string, g: string)
    ensures Preimage(env, f) == Preimage(env, g) <==> env.snakeCase(f) == env.snakeCase(g)
  {
    if Preimage(env, f) == Preimage(env, g) {
      EncodeInjective(GlobalNamespace + env.snakeCase(f), GlobalNamespace + env.snakeCase(g));
      assert env.snakeCase(f) == (GlobalNamespace + env.snakeCase(f))[|GlobalNamespace|..];
      assert env.snakeCase(g) == (GlobalNamespace + env.snakeCase(g))[|GlobalNamespace|..];
    }
  }

  /**
   * The discriminator depends on the name only through its snake-cased form:
   * names that differ only in casing style share a discriminator.
   */
  lemma SighashDeterministic(env: Env, f: string, g: string)
    requires env.snakeCase(f) == env.snakeCase(g)
    ensures BuildSighash(env, f) == BuildSighash(env, g)
  {
  }
}
