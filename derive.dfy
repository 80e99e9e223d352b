/**
  `#[derive(FrcStructure)]` (`frclib-structure-macros/src/lib.rs`): which
  inputs the derive accepts, the associated constants it generates, and
  what `parse_schema` makes of the schema text a derived struct publishes.
*/
module Derive {
  import opened Wrappers
  import opened Structures
  import FT = FieldTypes
  import Prims
  import Units
  import S = Schema
  import Registry

  // ---------------------------------------------------------------------
  // The derive itself

  /** The fields of a struct as the derive sees them. */
  datatype FieldsShape =
    | Named(fields: seq<FieldDecl>)
    | Unnamed(arity: nat)
    | UnitShape

  /** The item the derive is attached to. */
  datatype DeriveInput =
    | StructItem(ident: string, shape: FieldsShape)
    | EnumItem(ident: string)
    | UnionItem(ident: string)

  /** The generated impl: the struct's layout and the value of its `SIZE` expression. */
  datatype DerivedImpl = DerivedImpl(layout: Layout, size: nat)

  const OnlyStructs: string := "Only structs are supported"
  const UnitStructsUnsupported: string := "Unit structs are not supported"

  /**
    `impl_frc_struct`: enums and unions abort with one message, tuple and
    unit structs with another; for a struct with named fields the field
    names and types are collected in declaration order and `SIZE` is the
    sum `0 + f1::SIZE + f2::SIZE + ...`, built up field by field.
  */
  method ImplFrcStruct(input: DeriveInput) returns (r: Result<DerivedImpl, string>)
    ensures r.Ok? <==> input.StructItem? && input.shape.Named?
    ensures !input.StructItem? ==> r == Err(OnlyStructs)
    ensures input.StructItem? && !input.shape.Named? ==> r == Err(UnitStructsUnsupported)
    ensures r.Ok? ==> r.value.layout == Struct(input.ident, input.shape.fields)
    ensures r.Ok? ==> r.value.size == Size(r.value.layout)
    ensures r.Ok? ==>
              Description(r.value.layout) == Registry.StructDesc(FieldsSchemaTextAsWritten(input.shape.fields), input.ident, r.value.size)
  {
    if !input.StructItem? {
      return Err(OnlyStructs);
    }
    if !input.shape.Named? {
      return Err(UnitStructsUnsupported);
    }
    var named := input.shape.fields;
    var names: seq<string> := [];
    var types: seq<Layout> := [];
    for i := 0 to |named|
      invariant |names| == i && |types| == i
      invariant forall j :: 0 <= j < i ==> names[j] == named[j].name && types[j] == named[j].layout
    {
      names := names + [named[i].name];
      types := types + [named[i].layout];
    }
    var fields := seq(|names|, j requires 0 <= j < |names| => FieldDecl(names[j], types[j]));
    assert fields == named;
    var size := 0;
    for i := 0 to |types|
      invariant size == FieldsSize(fields[..i])
    {
      assert fields[..i + 1][..i] == fields[..i];
      size := size + Size(types[i]);
    }
    assert fields[..|fields|] == fields;
    return Ok(DerivedImpl(Struct(input.ident, fields), size));
  }

  // ---------------------------------------------------------------------
  // Scalar fields and the schema language

  /** A field type whose `format_field` is a single primitive declaration. */
  predicate IsScalar(l: Layout)
  {
    l.Primitive? || l.IntUnit? || l.UIntUnit?
  }

  /** Every primitive's `TYPE` is a word that `from_type` maps to a kind of the same width. */
  lemma TypeNamesAreSchemaPrimitives(p: Prims.Prim)
    ensures S.IsWord(Prims.TypeStr(p))
    ensures FT.FromType(Prims.TypeStr(p), 1).Some?
    ensures FT.BaseSize(FT.FromType(Prims.TypeStr(p), 1).value) == Prims.Width(p)
  {
  }

  /** The same holds for every scalar field type, the integer units included. */
  lemma TypeNameIsSchemaPrimitive(l: Layout)
    requires IsScalar(l)
    ensures S.IsWord(TypeName(l))
    ensures FT.FromType(TypeName(l), 1).Some?
    ensures FT.BaseSize(FT.FromType(TypeName(l), 1).value) == Size(l)
  {
    if l.Primitive? {
      TypeNamesAreSchemaPrimitives(l.p);
    }
  }

  /** The field kind the schema parser gives a scalar field's `TYPE`. */
  function FieldTypeOf(l: Layout): (ft: FT.FieldType)
    requires IsScalar(l)
    ensures S.IsWord(TypeName(l)) && FT.IsPrimitiveName(TypeName(l))
    ensures FT.FromType(TypeName(l), 1) == Some(ft)
    ensures ft.count == 1 && FT.Size(ft) == Size(l)
  {
    TypeNameIsSchemaPrimitive(l);
    FT.FromType(TypeName(l), 1).value
  }

  /** Every field is a scalar whose name lexes as an identifier. */
  predicate ScalarFields(fields: seq<FieldDecl>)
  {
    forall i :: 0 <= i < |fields| ==> IsScalar(fields[i].layout) && S.IsName(fields[i].name)
  }

  /**
    What a flat struct's schema should parse to: one entry per field, in
    declaration order, each at the running offset.
  */
  function Flatten(fields: seq<FieldDecl>, prefix: string, offset: nat): (r: seq<S.Field>)
    requires ScalarFields(fields)
    ensures |r| == |fields|
  {
    if fields == [] then []
    else [S.Field(prefix + fields[0].name, offset, FieldTypeOf(fields[0].layout))]
         + Flatten(fields[1..], prefix, offset + Size(fields[0].layout))
  }

  /**
    Entry `i` is field `i`, at `offset` plus the size of the fields before
    it: where `Structures.FieldBytes` shows the field's bytes start in the
    packed struct.
  */
  lemma {:induction false} FlattenOffsets(fields: seq<FieldDecl>, prefix: string, offset: nat, i: nat)
    requires ScalarFields(fields) && i < |fields|
    ensures Flatten(fields, prefix, offset)[i]
         == S.Field(prefix + fields[i].name, offset + FieldsSize(fields[..i]), FieldTypeOf(fields[i].layout))
    decreases i
  {
    if i > 0 {
      var rest := fields[1..];
      FlattenOffsets(rest, prefix, offset + Size(fields[0].layout), i - 1);
      assert rest[i - 1] == fields[i];
      var front := fields[..i];
      FieldsSizeCons(front);
      assert front[1..] == rest[..i - 1] && front[0] == fields[0];
    } else {
      assert fields[..0] == [];
    }
  }

  /** `TYPE name;` lexes as a type name, an identifier and a separator. */
  lemma DeclarationLexes(l: Layout, name: string, tail: string)
    requires IsScalar(l) && S.IsName(name)
    ensures S.Lex(FormatField(l, name) + ";" + tail)
         == [S.Tok(S.TypeName(TypeName(l))), S.Tok(S.Ident(name)), S.Tok(S.Semicolon)] + S.Lex(tail)
  {
    var t := TypeName(l);
    TypeNameIsSchemaPrimitive(l);
    ScalarFormatField(l, name);
    var closed := [';'] + tail;
    RegroupDeclaration(t, name, tail);
    S.LexPair(t, name, closed);
    S.LexSemicolon(tail);
    assert S.WordToken(t) == S.TypeName(t) && S.WordToken(name) == S.Ident(name);
  }

  lemma RegroupDeclaration(t: string, name: string, tail: string)
    ensures t + " " + name + ";" + tail == t + " " + (name + ([';'] + tail))
  {
  }

  /** The three lexemes of a declaration add one group to what follows them. */
  lemma DeclarationGroups(t: S.Token, i: S.Token, rest: seq<S.Lexeme>)
    requires t.TypeName? && i.Ident?
    ensures S.HasLexError([S.Tok(t), S.Tok(i), S.Tok(S.Semicolon)] + rest) == S.HasLexError(rest)
    ensures S.SplitDeclarations(S.KeptTokens([S.Tok(t), S.Tok(i), S.Tok(S.Semicolon)] + rest))
         == [[t, i]] + S.SplitDeclarations(S.KeptTokens(rest))
  {
    var l3 := [S.Tok(S.Semicolon)] + rest;
    var l2 := [S.Tok(i)] + l3;
    S.KeptCons(S.Semicolon, rest);
    S.KeptCons(i, l3);
    S.KeptCons(t, l2);
    assert [S.Tok(t)] + l2 == [S.Tok(t), S.Tok(i), S.Tok(S.Semicolon)] + rest;
    var ts := S.KeptTokens(rest);
    S.SplitSemicolon(ts);
    S.SplitCons(i, [S.Semicolon] + ts);
    var split := S.SplitDeclarations(ts);
    assert ([[]] + split)[0] == [] && ([[]] + split)[1..] == split;
    var none: seq<S.Token> := [];
    assert [i] + none == [i];
    S.SplitCons(t, [i] + ([S.Semicolon] + ts));
    assert ([[i]] + split)[0] == [i] && ([[i]] + split)[1..] == split;
    assert [t] + [i] == [t, i];
    assert [t] + ([i] + ([S.Semicolon] + ts)) == [t, i, S.Semicolon] + ts;
  }

  /** A scalar declaration emits its one entry and advances by the field's size. */
  lemma ScalarDeclarationParses(descs: seq<Registry.StructDesc>, l: Layout, name: string, prefix: string,
                                cursor: nat, fuel: nat)
    requires IsScalar(l) && S.IsName(name)
    ensures S.ParseDeclaration(descs, [S.TypeName(TypeName(l)), S.Ident(name)], prefix, cursor, fuel)
         == Some(([S.Field(prefix + name, cursor, FieldTypeOf(l))], Size(l)))
  {
    var _ := FieldTypeOf(l);
  }

  /** What the lexer should produce for the declarations of scalar fields. */
  function DeclarationLexemes(fields: seq<FieldDecl>): (r: seq<S.Lexeme>)
    requires ScalarFields(fields)
  {
    if fields == [] then []
    else [S.Tok(S.TypeName(TypeName(fields[0].layout))), S.Tok(S.Ident(fields[0].name)), S.Tok(S.Semicolon)]
         + DeclarationLexemes(fields[1..])
  }

  /** The declarations the parser should split those lexemes into (the last, after the final `;`, empty). */
  function DeclarationGroupsOf(fields: seq<FieldDecl>): (r: seq<seq<S.Token>>)
    requires ScalarFields(fields)
  {
    if fields == [] then [[]]
    else [[S.TypeName(TypeName(fields[0].layout)), S.Ident(fields[0].name)]] + DeclarationGroupsOf(fields[1..])
  }

  lemma {:induction false} SeparatedSchemaLexes(fields: seq<FieldDecl>)
    requires ScalarFields(fields)
    ensures S.Lex(FieldsSchemaText(fields)) == DeclarationLexemes(fields)
    decreases |fields|
  {
    if fields == [] {
      assert S.Lex("") == [];
    } else {
      var tail := FieldsSchemaText(fields[1..]);
      SeparatedSchemaLexes(fields[1..]);
      DeclarationLexes(fields[0].layout, fields[0].name, tail);
    }
  }

  lemma {:induction false} SeparatedSchemaSplits(fields: seq<FieldDecl>)
    requires ScalarFields(fields)
    ensures !S.HasLexError(DeclarationLexemes(fields))
    ensures S.SplitDeclarations(S.KeptTokens(DeclarationLexemes(fields))) == DeclarationGroupsOf(fields)
    decreases |fields|
  {
    if fields == [] {
      var e: seq<S.Token> := [];
      assert S.KeptTokens([]) == e && S.SplitDeclarations(e) == [e];
    } else {
      SeparatedSchemaSplits(fields[1..]);
      var _ := FieldTypeOf(fields[0].layout);
      DeclarationGroups(S.TypeName(TypeName(fields[0].layout)), S.Ident(fields[0].name), DeclarationLexemes(fields[1..]));
    }
  }

  lemma {:induction false} SeparatedDeclarationsParse(descs: seq<Registry.StructDesc>, fields: seq<FieldDecl>,
                                                      prefix: string, offset: nat, fuel: nat)
    requires ScalarFields(fields)
    ensures S.ParseDeclarations(descs, DeclarationGroupsOf(fields), prefix, offset, fuel)
         == Some(Flatten(fields, prefix, offset))
    decreases |fields|
  {
    var groups := DeclarationGroupsOf(fields);
    if fields == [] {
      var none: seq<S.Field> := [];
      assert groups[0] == [] && groups[1..] == [];
      assert S.ParseDeclaration(descs, groups[0], prefix, offset, fuel) == Some((none, 0));
      assert none + none == none;
    } else {
      var f := fields[0];
      var first := S.Field(prefix + f.name, offset, FieldTypeOf(f.layout));
      var rest := DeclarationGroupsOf(fields[1..]);
      assert groups[0] == [S.TypeName(TypeName(f.layout)), S.Ident(f.name)] && groups[1..] == rest;
      ScalarDeclarationParses(descs, f.layout, f.name, prefix, offset, fuel);
      assert S.ParseDeclarations(descs, groups, prefix, offset, fuel)
          == S.Prepend([first], S.ParseDeclarations(descs, rest, prefix, offset + Size(f.layout), fuel));
      SeparatedDeclarationsParse(descs, fields[1..], prefix, offset + Size(f.layout), fuel);
    }
  }

  /**
    The corrected schema of a derived struct of scalar fields (each
    declaration closed by `;`) parses, under any prefix and at any offset,
    to its fields in declaration order at their packed offsets.
  */
  lemma DerivedSchemaParses(descs: seq<Registry.StructDesc>, ident: string, fields: seq<FieldDecl>,
                            prefix: string, offset: nat, fuel: nat)
    requires ScalarFields(fields)
    ensures S.ParseSchema(descs, SchemaText(Struct(ident, fields)), prefix, offset, fuel)
         == Some(Flatten(fields, prefix, offset))
  {
    SeparatedSchemaLexes(fields);
    SeparatedSchemaSplits(fields);
    SeparatedDeclarationsParse(descs, fields, prefix, offset, fuel);
  }

  // ---------------------------------------------------------------------
  // The schema text as written

  /** The text `a b c` of three words lexes as those three words. */
  lemma LexThreeWords(a: string, b: string, c: string)
    requires S.IsWord(a) && S.IsWord(b) && S.IsWord(c)
    ensures S.Lex(a + " " + (b + " " + (c + "")))
         == [S.Tok(S.WordToken(a)), S.Tok(S.WordToken(b)), S.Tok(S.WordToken(c))]
  {
    S.LexWordSpace(a, b + " " + (c + ""));
    S.LexWordSpace(b, c + "");
    S.LexWord(c, "");
    assert S.Lex("") == [];
  }

  /** A scalar field's `format_field` is `TYPE name`. */
  lemma ScalarFormatField(l: Layout, name: string)
    requires IsScalar(l)
    ensures FormatField(l, name) == TypeName(l) + " " + name
  {
  }

  /** The length an array field writes between its brackets lexes back to that length. */
  lemma ArrayLengthLexes(n: nat, tail: string)
    requires n < 0x1_0000_0000
    ensures S.Lex(NatToString(n) + "]" + tail) == [S.Tok(S.Integer(n))] + S.Lex("]" + tail)
  {
    NatToStringIsDecimal(n);
    assert NatToString(n) + "]" + tail == NatToString(n) + ("]" + tail);
    S.LexDigits(NatToString(n), "]" + tail);
  }

  lemma RegroupText(a: string, x: string, b: string, y: string)
    ensures (a + " " + x) + ((b + " " + y) + "") == a + " " + ((x + b) + " " + (y + ""))
  {
  }

  /** The derived text of two scalar fields, as written. */
  lemma ConcatenatedText(ident: string, x: FieldDecl, y: FieldDecl)
    requires IsScalar(x.layout) && IsScalar(y.layout)
    ensures SchemaTextAsWritten(Struct(ident, [x, y]))
         == TypeName(x.layout) + " " + ((x.name + TypeName(y.layout)) + " " + (y.name + ""))
  {
    var fields := [x, y];
    assert fields[0] == x && fields[1..] == [y] && [y][1..] == [];
    ScalarFormatField(x.layout, x.name);
    ScalarFormatField(y.layout, y.name);
    assert FieldsSchemaTextAsWritten([y]) == FormatField(y.layout, y.name) + "";
    RegroupText(TypeName(x.layout), x.name, TypeName(y.layout), y.name);
  }

  /**
    With no separator, the name of one scalar field runs into the type
    name of the next: `TYPE1 xTYPE2 y` is read as a single declaration
    `TYPE1 xTYPE2` (the trailing `y` is neither a count nor a name), so
    the second field is lost and the first is misnamed.
  */
  lemma ConcatenatedSchemaMisparses(descs: seq<Registry.StructDesc>, ident: string,
                                    x: FieldDecl, y: FieldDecl, prefix: string, offset: nat, fuel: nat)
    requires ScalarFields([x, y]) && S.IsName(x.name + TypeName(y.layout))
    ensures S.ParseSchema(descs, SchemaTextAsWritten(Struct(ident, [x, y])), prefix, offset, fuel)
         == Some([S.Field(prefix + (x.name + TypeName(y.layout)), offset, FieldTypeOf(x.layout))])
    ensures |Flatten([x, y], prefix, offset)| == 2
  {
    assert [x, y][0] == x && [x, y][1] == y;
    ConcatenatedText(ident, x, y);
    RunTogetherDeclarationParses(descs, x, y, prefix, offset, fuel);
  }

  /** The run-together text `TYPE1 xTYPE2 y` parses as the one declaration `TYPE1 xTYPE2`. */
  lemma RunTogetherDeclarationParses(descs: seq<Registry.StructDesc>, x: FieldDecl, y: FieldDecl,
                                     prefix: string, offset: nat, fuel: nat)
    requires IsScalar(x.layout) && IsScalar(y.layout) && S.IsName(x.name) && S.IsName(y.name)
    requires S.IsName(x.name + TypeName(y.layout))
    ensures S.ParseSchema(descs, TypeName(x.layout) + " " + ((x.name + TypeName(y.layout)) + " " + (y.name + "")),
                          prefix, offset, fuel)
         == Some([S.Field(prefix + (x.name + TypeName(y.layout)), offset, FieldTypeOf(x.layout))])
  {
    var a, b, c := TypeName(x.layout), x.name + TypeName(y.layout), y.name;
    var _ := FieldTypeOf(x.layout);
    LexThreeWords(a, b, c);
    assert S.WordToken(a) == S.TypeName(a) && S.WordToken(b) == S.Ident(b) && S.WordToken(c) == S.Ident(c);
    var g := [S.TypeName(a), S.Ident(b), S.Ident(c)];
    ThreeTokenDeclaration(g[0], g[1], g[2]);
    assert S.DeclaredCount(g) == 1;
    var groups: seq<seq<S.Token>> := [g];
    assert groups[1..] == [];
    var fs := [S.Field(prefix + b, offset, FieldTypeOf(x.layout))];
    assert S.ParseDeclaration(descs, g, prefix, offset, fuel) == Some((fs, Size(x.layout)));
    assert fs + [] == fs;
    assert S.ParseDeclarations(descs, groups, prefix, offset, fuel) == Some(fs);
  }

  /** Three kept lexemes with no separator form one declaration. */
  lemma ThreeTokenDeclaration(t: S.Token, i: S.Token, j: S.Token)
    requires S.Kept(t) && S.Kept(i) && S.Kept(j)
    requires t != S.Semicolon && i != S.Semicolon && j != S.Semicolon
    ensures !S.HasLexError([S.Tok(t), S.Tok(i), S.Tok(j)])
    ensures S.SplitDeclarations(S.KeptTokens([S.Tok(t), S.Tok(i), S.Tok(j)])) == [[t, i, j]]
  {
    var e: seq<S.Lexeme> := [];
    var none: seq<S.Token> := [];
    assert !S.HasLexError(e) && S.KeptTokens(e) == none;
    S.KeptCons(j, e);
    S.KeptCons(i, [S.Tok(j)] + e);
    S.KeptCons(t, [S.Tok(i)] + ([S.Tok(j)] + e));
    assert [S.Tok(t)] + ([S.Tok(i)] + ([S.Tok(j)] + e)) == [S.Tok(t), S.Tok(i), S.Tok(j)];
    S.SplitCons(j, none);
    assert [j] + none == [j];
    S.SplitCons(i, [j]);
    S.SplitCons(t, [i] + [j]);
    assert [t] + ([i] + [j]) == [t, i, j];
  }

  /** `bool a` followed by `int32 b`: the derived text `bool aint32 b` yields one `bool` named `aint32`. */
  lemma BoolThenInt32Misparses(descs: seq<Registry.StructDesc>, a: string, b: string)
    requires a == "a" && b == "b"
    ensures S.ParseSchema(descs, SchemaTextAsWritten(Struct("Pair", [FieldDecl(a, Primitive(Prims.Bool)),
                                                                      FieldDecl(b, Primitive(Prims.I32))])), "", 0, 0)
         == Some([S.Field(a + "int32", 0, FT.Bool(1))])
  {
    var x, y := FieldDecl(a, Primitive(Prims.Bool)), FieldDecl(b, Primitive(Prims.I32));
    var joined := a + "int32";
    assert joined == "aint32";
    assert S.IsName(joined);
    assert S.IsName(a) && S.IsName(b);
    assert [x, y][0] == x && [x, y][1] == y;
    assert FieldTypeOf(x.layout) == FT.Bool(1);
    ConcatenatedSchemaMisparses(descs, "Pair", x, y, "", 0, 0);
    assert "" + joined == joined;
  }
}
