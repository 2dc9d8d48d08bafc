/**
 * A reader for the Rust type text the mapper writes. It is the partner of
 * `TyToRustType`: reading back the text recovers the IDL type, up to the one
 * place where two IDL types share a Rust spelling (`Bytes` and `Vec(U8)`
 * are both written `Vec<u8>`).
 */
module RustTypeParser {
  import opened Idl
  import opened Decimal
  import opened TypeMapper
  import W = Wrappers

  predicate IsIdentChar(c: char)
  {
    'a' <= c <= 'z' || 'A' <= c <= 'Z' || '0' <= c <= '9' || c == '_'
  }

  /** The Rust spellings of the primitives and wrappers. */
  const Keywords: set<string> := {
    "bool", "u8", "i8", "u16", "i16", "u32", "i32", "f32", "u64", "i64", "f64",
    "u128", "i128", "String", "Pubkey", "Option", "Vec"}

  /** A user-defined type name the reader can tell apart from everything else. */
  predicate ValidName(name: string)
  {
    |name| > 0 && name !in Keywords && forall i :: 0 <= i < |name| ==> IsIdentChar(name[i])
  }

  predicate NamesValid(t: IdlType)
  {
    forall name :: name in DefinedNames(t) ==> ValidName(name)
  }

  /** The longest prefix of `s` whose characters satisfy `p`, and the remainder. */
  function Span(p: char -> bool, s: string): (r: (string, string))
    ensures r.0 + r.1 == s
    ensures forall i :: 0 <= i < |r.0| ==> p(r.0[i])
    ensures r.1 == [] || !p(r.1[0])
  {
    if s == [] || !p(s[0]) then ([], s)
    else
      var rest := Span(p, s[1..]);
      var taken := [s[0]] + rest.0;
      assert forall i :: 1 <= i < |taken| ==> taken[i] == rest.0[i - 1];
      assert taken + rest.1 == [s[0]] + s[1..] == s;
      (taken, rest.1)
  }

  /** The primitive a keyword names, or the user-defined type of that name. */
  function NamedType(word: string): IdlType
  {
    match word
    case "bool" => Bool
    case "u8" => U8
    case "i8" => I8
    case "u16" => U16
    case "i16" => I16
    case "u32" => U32
    case "i32" => I32
    case "f32" => F32
    case "u64" => U64
    case "i64" => I64
    case "f64" => F64
    case "u128" => U128
    case "i128" => I128
    case "String" => String
    case "Pubkey" => PublicKey
    case _ => Defined(word)
  }

  /** Reads one Rust type from the front of `s`, returning it and what follows. */
  function ParseRustType(s: string): W.Option<(IdlType, string)>
    decreases |s|
  {
    var (word, rest) := Span(IsIdentChar, s);
    if word == [] then
      if |s| > 0 && s[0] == '[' then ParseArrayTail(ParseRustType(s[1..])) else W.None
    else if word == "Option" || word == "Vec" then
      if |rest| > 0 && rest[0] == '<' then ParseWrapperTail(word, ParseRustType(rest[1..])) else W.None
    else W.Some((NamedType(word), rest))
  }

  /** After the element type of an array: the `; `, the length and the `]`. */
  function ParseArrayTail(elem: W.Option<(IdlType, string)>): W.Option<(IdlType, string)>
  {
    match elem
    case None => W.None
    case Some((t, r1)) =>
      if |r1| >= 2 && r1[..2] == "; " then
        var (digits, r2) := Span(IsDigit, r1[2..]);
        if digits != [] && |r2| > 0 && r2[0] == ']'
        then W.Some((Array(t, DecimalValue(digits)), r2[1..]))
        else W.None
      else W.None
  }

  /** After the type an `Option<` or `Vec<` encloses: the `>`. */
  function ParseWrapperTail(word: string, elem: W.Option<(IdlType, string)>): W.Option<(IdlType, string)>
  {
    match elem
    case None => W.None
    case Some((t, r1)) =>
      if |r1| > 0 && r1[0] == '>'
      then W.Some((if word == "Option" then Option(t) else Vec(t), r1[1..]))
      else W.None
  }

  /** The IDL type with `Bytes` spelt as the `Vec(U8)` it is written as. */
  function Normalize(t: IdlType): IdlType
  {
    match t
    case Bytes => Vec(U8)
    case Option(inner) => Option(Normalize(inner))
    case Vec(inner) => Vec(Normalize(inner))
    case Array(inner, n) => Array(Normalize(inner), n)
    case _ => t
  }

  lemma {:induction false} SpanSplits(p: char -> bool, a: string, b: string)
    requires forall i :: 0 <= i < |a| ==> p(a[i])
    requires b == [] || !p(b[0])
    ensures Span(p, a + b) == (a, b)
  {
    if a == [] {
      assert a + b == b;
    } else {
      assert (a + b)[0] == a[0];
      assert (a + b)[1..] == a[1..] + b;
      SpanSplits(p, a[1..], b);
      assert [a[0]] + a[1..] == a;
    }
  }

  /** A word that is neither wrapper is read as the type it names. */
  lemma ParseWord(word: string, rest: string)
    requires word != [] && word != "Option" && word != "Vec"
    requires forall i :: 0 <= i < |word| ==> IsIdentChar(word[i])
    requires rest == [] || !IsIdentChar(rest[0])
    ensures ParseRustType(word + rest) == W.Some((NamedType(word), rest))
  {
    SpanSplits(IsIdentChar, word, rest);
  }

  lemma WrapperWordsAreIdentifiers(word: string)
    requires word == "Option" || word == "Vec"
    ensures forall i :: 0 <= i < |word| ==> IsIdentChar(word[i])
  {
  }

  /** Regrouping a concatenation of five strings to the right. */
  lemma Regroup(a: string, b: string, c: string, d: string, e: string)
    ensures a + b + c + d + e == a + (b + (c + (d + e)))
  {
  }

  /** Regrouping a concatenation of six strings to the right. */
  lemma Regroup6(a: string, b: string, c: string, d: string, e: string, f: string)
    ensures a + b + c + d + e + f == a + (b + (c + (d + (e + f))))
  {
  }

  /** `Option<..>` and `Vec<..>` are read by reading what they enclose. */
  lemma ParseWrapper(word: string, elem: IdlType, inner: string, rest: string)
    requires word == "Option" || word == "Vec"
    requires ParseRustType(inner + (">" + rest)) == W.Some((elem, ">" + rest))
    ensures ParseRustType(word + ("<" + (inner + (">" + rest))))
      == W.Some((if word == "Option" then Option(elem) else Vec(elem), rest))
  {
    var tail := "<" + (inner + (">" + rest));
    WrapperWordsAreIdentifiers(word);
    SpanSplits(IsIdentChar, word, tail);
    assert tail[1..] == inner + (">" + rest);
  }

  /** `[..; n]` is read by reading the element type and then the length. */
  lemma ParseArray(elem: IdlType, inner: string, n: nat, rest: string)
    requires ParseRustType(inner + ("; " + (NatToDecimal(n) + ("]" + rest))))
      == W.Some((elem, "; " + (NatToDecimal(n) + ("]" + rest))))
    ensures ParseRustType("[" + (inner + ("; " + (NatToDecimal(n) + ("]" + rest)))))
      == W.Some((Array(elem, n), rest))
  {
    var digits := NatToDecimal(n);
    var tail := "; " + (digits + ("]" + rest));
    var s := "[" + (inner + tail);
    SpanSplits(IsIdentChar, [], s);
    assert s[1..] == inner + tail;
    assert tail[..2] == "; ";
    assert tail[2..] == digits + ("]" + rest);
    SpanSplits(IsDigit, digits, "]" + rest);
    DecimalRoundTrip(n);
  }

  /** Every primitive other than Bytes is written as a keyword that names it. */
  lemma PrimitiveKeyword(t: IdlType)
    requires !(t.Bytes? || t.Option? || t.Vec? || t.Array? || t.Defined?)
    ensures RustTypeOf(t) in Keywords - {"Option", "Vec"}
    ensures NamedType(RustTypeOf(t)) == t
  {
  }

  /** One step of the round trip for a wrapper, given the round trip of what it wraps. */
  lemma WrapperRoundTrip(t: IdlType, rest: string)
    requires t.Option? || t.Vec?
    requires ParseRustType(RustTypeOf(t.inner) + (">" + rest)) == W.Some((Normalize(t.inner), ">" + rest))
    ensures ParseRustType(RustTypeOf(t) + rest) == W.Some((Normalize(t), rest))
  {
    var word := if t.Option? then "Option" else "Vec";
    CompositeNames(t.inner, 0, "");
    assert word + "<" == if t.Option? then "Option<" else "Vec<";
    Regroup(word, "<", RustTypeOf(t.inner), ">", rest);
    ParseWrapper(word, Normalize(t.inner), RustTypeOf(t.inner), rest);
  }

  /** One step of the round trip for an array, given the round trip of its element type. */
  lemma ArrayRoundTrip(t: IdlType, rest: string)
    requires t.Array?
    requires ParseRustType(RustTypeOf(t.inner) + ("; " + (NatToDecimal(t.size) + ("]" + rest))))
      == W.Some((Normalize(t.inner), "; " + (NatToDecimal(t.size) + ("]" + rest))))
    ensures ParseRustType(RustTypeOf(t) + rest) == W.Some((Normalize(t), rest))
  {
    var digits := NatToDecimal(t.size);
    CompositeNames(t.inner, t.size, "");
    Regroup6("[", RustTypeOf(t.inner), "; ", digits, "]", rest);
    ParseArray(Normalize(t.inner), RustTypeOf(t.inner), t.size, rest);
  }

  /** The round trip for `Bytes`, which is read back as `Vec(U8)`. */
  lemma BytesRoundTrip(rest: string)
    requires rest == [] || !IsIdentChar(rest[0])
    ensures ParseRustType(RustTypeOf(Bytes) + rest) == W.Some((Vec(U8), rest))
  {
    BytesText(rest);
    U8RoundTrip(">" + rest);
    ParseWrapper("Vec", U8, "u8", rest);
  }

  lemma BytesText(rest: string)
    ensures RustTypeOf(Bytes) + rest == "Vec" + ("<" + ("u8" + (">" + rest)))
  {
    assert RustTypeOf(Bytes) == "Vec<u8>";
    assert "Vec<u8>" == "Vec" + "<" + "u8" + ">";
  }

  lemma U8RoundTrip(rest: string)
    requires rest == [] || !IsIdentChar(rest[0])
    ensures ParseRustType("u8" + rest) == W.Some((U8, rest))
  {
    PrimitiveKeyword(U8);
    ParseWord("u8", rest);
  }

  /** The round trip for a user-defined name. */
  lemma DefinedRoundTrip(name: string, rest: string)
    requires ValidName(name)
    requires rest == [] || !IsIdentChar(rest[0])
    ensures ParseRustType(RustTypeOf(Defined(name)) + rest) == W.Some((Defined(name), rest))
  {
    CompositeNames(Bool, 0, name);
    ParseWord(name, rest);
  }

  /** The round trip for a primitive other than `Bytes`. */
  lemma PrimitiveRoundTrip(t: IdlType, rest: string)
    requires !(t.Bytes? || t.Option? || t.Vec? || t.Array? || t.Defined?)
    requires rest == [] || !IsIdentChar(rest[0])
    ensures ParseRustType(RustTypeOf(t) + rest) == W.Some((t, rest))
  {
    PrimitiveKeyword(t);
    ParseWord(RustTypeOf(t), rest);
  }

  /**
   * Reading back the text of a type whose user-defined names are valid
   * identifiers recovers the type (with Bytes read as Vec(U8)) and leaves
   * whatever followed it untouched.
   */
  lemma {:induction false} ParseRoundTrip(t: IdlType, rest: string)
    requires NamesValid(t)
    requires rest == [] || !IsIdentChar(rest[0])
    ensures ParseRustType(RustTypeOf(t) + rest) == W.Some((Normalize(t), rest))
  {
    match t
    case Option(inner) =>
      ParseRoundTrip(inner, ">" + rest);
      WrapperRoundTrip(t, rest);
    case Vec(inner) =>
      ParseRoundTrip(inner, ">" + rest);
      WrapperRoundTrip(t, rest);
    case Array(inner, n) =>
      ParseRoundTrip(inner, "; " + (NatToDecimal(n) + ("]" + rest)));
      ArrayRoundTrip(t, rest);
    case Defined(name) =>
      assert name in DefinedNames(t);
      DefinedRoundTrip(name, rest);
    case Bytes =>
      BytesRoundTrip(rest);
    case _ =>
      PrimitiveRoundTrip(t, rest);
  }

  /**
   * Two types with valid user-defined names are written alike exactly when
   * they are equal up to the spelling of `Bytes`.
   */
  lemma RustTextInjective(a: IdlType, b: IdlType)
    requires NamesValid(a) && NamesValid(b)
    ensures RustTypeOf(a) == RustTypeOf(b) <==> Normalize(a) == Normalize(b)
  {
    if RustTypeOf(a) == RustTypeOf(b) {
      ParseRoundTrip(a, []);
      ParseRoundTrip(b, []);
      assert RustTypeOf(a) + [] == RustTypeOf(a);
      assert RustTypeOf(b) + [] == RustTypeOf(b);
    }
    if Normalize(a) == Normalize(b) {
      NormalizeKeepsText(a);
      NormalizeKeepsText(b);
    }
  }

  /** Normalizing a type does not change the Rust text written for it. */
  lemma {:induction false} NormalizeKeepsText(t: IdlType)
    ensures RustTypeOf(Normalize(t)) == RustTypeOf(t)
  {
    match t
    case Option(inner) =>
      NormalizeKeepsText(inner);
      CompositeNames(inner, 0, "");
      CompositeNames(Normalize(inner), 0, "");
    case Vec(inner) =>
      NormalizeKeepsText(inner);
      CompositeNames(inner, 0, "");
      CompositeNames(Normalize(inner), 0, "");
    case Array(inner, n) =>
      NormalizeKeepsText(inner);
      CompositeNames(inner, n, "");
      CompositeNames(Normalize(inner), n, "");
    case Bytes =>
      CompositeNames(U8, 0, "");
    case _ =>
  }
}
