/**
  Worked parses of `parse_schema` for any words: two primitive fields one
  after the other, a registered struct expanded in place, and a struct
  nested two levels deep, whose outer field name is lost.
*/
module SchemaExamples {
  import opened Wrappers
  import opened FieldTypes
  import Registry
  import opened Schema

  /** Two declarations `a b;c d`. */
  lemma LexTwoPairs(a: string, b: string, c: string, d: string)
    requires IsWord(a) && IsWord(b) && IsWord(c) && IsWord(d)
    ensures Lex(a + " " + (b + ([';'] + (c + " " + (d + "")))))
         == [Tok(WordToken(a)), Tok(WordToken(b)), Tok(Semicolon), Tok(WordToken(c)), Tok(WordToken(d))]
  {
    var second := c + " " + (d + "");
    var ta, tb, tc, td := Tok(WordToken(a)), Tok(WordToken(b)), Tok(WordToken(c)), Tok(WordToken(d));
    LexPair(a, b, [';'] + second);
    LexSemicolon(second);
    LexPair(c, d, "");
    var l1, l2, l3 := Lex([';'] + second), Lex(second), Lex("");
    assert l3 == [];
    assert l2 == [tc, td] + l3;
    assert l1 == [Tok(Semicolon)] + l2;
    Regroup(ta, tb, Tok(Semicolon), tc, td);
  }

  lemma Regroup<X>(a: X, b: X, c: X, d: X, e: X)
    ensures [a, b] + ([c] + ([d, e] + [])) == [a, b, c, d, e]
  {
  }

  // ---------------------------------------------------------------------
  // From lexemes to declarations, for any tokens

  /** One declaration `a b`, with no lexing error. */
  lemma OneDeclaration(a: Token, b: Token)
    requires Kept(a) && Kept(b) && a != Semicolon && b != Semicolon
    ensures !HasLexError([Tok(a), Tok(b)]) && KeptTokens([Tok(a), Tok(b)]) == [a, b]
    ensures SplitDeclarations(KeptTokens([Tok(a), Tok(b)])) == [[a, b]]
  {
    var e: seq<Lexeme> := [];
    assert !HasLexError(e) && KeptTokens(e) == [];
    KeptCons(b, e);
    assert [Tok(b)] + e == [Tok(b)];
    KeptCons(a, [Tok(b)]);
    assert [Tok(a)] + [Tok(b)] == [Tok(a), Tok(b)];
    var none: seq<Token> := [];
    SplitCons(b, none);
    assert [b] + none == [b];
    SplitCons(a, [b]);
    assert [a] + [b] == [a, b];
  }

  /** Two declarations `a b;c d`, with no lexing error. */
  lemma TwoDeclarations(a: Token, b: Token, c: Token, d: Token)
    requires Kept(a) && Kept(b) && Kept(c) && Kept(d)
    requires a != Semicolon && b != Semicolon && c != Semicolon && d != Semicolon
    ensures !HasLexError([Tok(a), Tok(b), Tok(Semicolon), Tok(c), Tok(d)])
    ensures KeptTokens([Tok(a), Tok(b), Tok(Semicolon), Tok(c), Tok(d)]) == [a, b, Semicolon, c, d]
    ensures SplitDeclarations(KeptTokens([Tok(a), Tok(b), Tok(Semicolon), Tok(c), Tok(d)])) == [[a, b], [c, d]]
  {
    var l2 := [Tok(c), Tok(d)];
    OneDeclaration(c, d);
    var l3 := [Tok(Semicolon)] + l2;
    KeptCons(Semicolon, l2);
    var l4 := [Tok(b)] + l3;
    KeptCons(b, l3);
    KeptCons(a, l4);
    assert [Tok(a)] + l4 == [Tok(a), Tok(b), Tok(Semicolon), Tok(c), Tok(d)];
    var t3 := [Semicolon] + [c, d];
    var rest := [[c, d]];
    SplitSemicolon([c, d]);
    assert SplitDeclarations(t3) == [[]] + rest;
    assert ([[]] + rest)[0] == [] && ([[]] + rest)[1..] == rest;
    SplitCons(b, t3);
    var nothing: seq<Token> := [];
    assert [b] + nothing == [b];
    assert SplitDeclarations([b] + t3) == [[b]] + rest;
    SplitCons(a, [b] + t3);
    assert ([[b]] + rest)[0] == [b] && ([[b]] + rest)[1..] == rest;
    assert [a] + [b] == [a, b] && [[a, b]] + rest == [[a, b], [c, d]];
    assert [a] + ([b] + t3) == [a, b, Semicolon, c, d];
  }

  /** With the lexer's output known, the parse is the parse of its declarations. */
  lemma ParseSchemaOf(descs: seq<Registry.StructDesc>, schema: string, prefix: string, offset: nat, fuel: nat,
                      lexed: seq<Lexeme>, groups: seq<seq<Token>>)
    requires Lex(schema) == lexed && !HasLexError(lexed) && SplitDeclarations(KeptTokens(lexed)) == groups
    ensures ParseSchema(descs, schema, prefix, offset, fuel) == ParseDeclarations(descs, groups, prefix, offset, fuel)
  {
  }

  // ---------------------------------------------------------------------
  // Declarations

  lemma PrimitiveDeclaration(descs: seq<Registry.StructDesc>, t: string, id: string, prefix: string,
                             cursor: nat, fuel: nat, ft: FieldType)
    requires FromType(t, 1) == Some(ft)
    ensures ParseDeclaration(descs, [TypeName(t), Ident(id)], prefix, cursor, fuel)
         == Some(([Field(prefix + id, cursor, ft)], Size(ft)))
  {
  }

  lemma StructDeclaration(descs: seq<Registry.StructDesc>, sub: string, id: string, prefix: string,
                          cursor: nat, fuel: nat, desc: Registry.StructDesc, nested: seq<Field>)
    requires fuel >= 1 && Registry.GetIn(descs, sub) == Some(desc)
    requires ParseSchema(descs, desc.schema, id + ".", cursor, fuel - 1) == Some(nested)
    ensures ParseDeclaration(descs, [Ident(sub), Ident(id)], prefix, cursor, fuel) == Some((nested, desc.size))
  {
  }

  lemma OneParsed(descs: seq<Registry.StructDesc>, g: seq<Token>, prefix: string, cursor: nat, fuel: nat,
                  fs: seq<Field>, advance: nat)
    requires ParseDeclaration(descs, g, prefix, cursor, fuel) == Some((fs, advance))
    ensures ParseDeclarations(descs, [g], prefix, cursor, fuel) == Some(fs)
  {
    assert [g][1..] == [];
    assert fs + [] == fs;
  }

  lemma TwoParsed(descs: seq<Registry.StructDesc>, g1: seq<Token>, g2: seq<Token>, prefix: string,
                  cursor: nat, fuel: nat, fs1: seq<Field>, advance1: nat, fs2: seq<Field>, advance2: nat)
    requires ParseDeclaration(descs, g1, prefix, cursor, fuel) == Some((fs1, advance1))
    requires ParseDeclaration(descs, g2, prefix, cursor + advance1, fuel) == Some((fs2, advance2))
    ensures ParseDeclarations(descs, [g1, g2], prefix, cursor, fuel) == Some(fs1 + fs2)
  {
    assert [g1, g2][1..] == [g2];
    OneParsed(descs, g2, prefix, cursor + advance1, fuel, fs2, advance2);
  }

  // ---------------------------------------------------------------------
  // The worked parses

  /**
    `t1 x;t2 y` with two primitive type names: two fields, the second
    starting where the first ends, both named under the prefix.
  */
  lemma TwoPrimitiveFields(descs: seq<Registry.StructDesc>, t1: string, x: string, t2: string, y: string,
                           prefix: string, offset: nat, fuel: nat, ft1: FieldType, ft2: FieldType)
    requires IsWord(t1) && IsWord(t2) && IsName(x) && IsName(y)
    requires FromType(t1, 1) == Some(ft1) && FromType(t2, 1) == Some(ft2)
    ensures ParseSchema(descs, t1 + " " + (x + ([';'] + (t2 + " " + (y + "")))), prefix, offset, fuel)
         == Some([Field(prefix + x, offset, ft1), Field(prefix + y, offset + Size(ft1), ft2)])
  {
    var schema := t1 + " " + (x + ([';'] + (t2 + " " + (y + ""))));
    var g1, g2 := [TypeName(t1), Ident(x)], [TypeName(t2), Ident(y)];
    LexTwoPrimitiveDeclarations(t1, x, t2, y);
    ParseSchemaOf(descs, schema, prefix, offset, fuel, Lex(schema), [g1, g2]);
    var f1, f2 := Field(prefix + x, offset, ft1), Field(prefix + y, offset + Size(ft1), ft2);
    PrimitiveDeclaration(descs, t1, x, prefix, offset, fuel, ft1);
    PrimitiveDeclaration(descs, t2, y, prefix, offset + Size(ft1), fuel, ft2);
    TwoParsed(descs, g1, g2, prefix, offset, fuel, [f1], Size(ft1), [f2], Size(ft2));
    assert [f1] + [f2] == [f1, f2];
  }

  /** `t1 x;t2 y` splits into the declarations `t1 x` and `t2 y`. */
  lemma LexTwoPrimitiveDeclarations(t1: string, x: string, t2: string, y: string)
    requires IsWord(t1) && IsWord(t2) && IsName(x) && IsName(y)
    requires IsPrimitiveName(t1) && IsPrimitiveName(t2)
    ensures !HasLexError(Lex(t1 + " " + (x + ([';'] + (t2 + " " + (y + ""))))))
    ensures SplitDeclarations(KeptTokens(Lex(t1 + " " + (x + ([';'] + (t2 + " " + (y + "")))))))
         == [[TypeName(t1), Ident(x)], [TypeName(t2), Ident(y)]]
  {
    assert WordToken(t1) == TypeName(t1) && WordToken(t2) == TypeName(t2);
    assert WordToken(x) == Ident(x) && WordToken(y) == Ident(y);
    LexTwoPairs(t1, x, t2, y);
    TwoDeclarations(TypeName(t1), Ident(x), TypeName(t2), Ident(y));
  }

  /**
    `S name` with `S` registered: the fields of `S`'s own schema, parsed
    at the same offset under the prefix `name.`, with one unit of the
    recursion budget spent.
  */
  lemma RegisteredStructField(descs: seq<Registry.StructDesc>, sub: string, name: string, prefix: string,
                              offset: nat, fuel: nat, desc: Registry.StructDesc, nested: seq<Field>)
    requires IsName(sub) && IsName(name) && fuel >= 1
    requires Registry.GetIn(descs, sub) == Some(desc)
    requires ParseSchema(descs, desc.schema, name + ".", offset, fuel - 1) == Some(nested)
    ensures ParseSchema(descs, sub + " " + (name + ""), prefix, offset, fuel) == Some(nested)
  {
    var schema := sub + " " + (name + "");
    var g := [Ident(sub), Ident(name)];
    LexPair(sub, name, "");
    assert Lex("") == [];
    assert Lex(schema) == [Tok(Ident(sub)), Tok(Ident(name))];
    OneDeclaration(Ident(sub), Ident(name));
    ParseSchemaOf(descs, schema, prefix, offset, fuel, Lex(schema), [g]);
    StructDeclaration(descs, sub, name, prefix, offset, fuel, desc, nested);
    OneParsed(descs, g, prefix, offset, fuel, nested, desc.size);
  }

  /**
    `P outer` where `P`'s schema is `T inner` and `T` is registered: the
    fields come out exactly as `T`'s schema parses under the prefix
    `inner.` alone: the outer name `outer.` is dropped.
  */
  lemma NestedPrefixDropsOuterName(descs: seq<Registry.StructDesc>, p: string, outer: string,
                                   t: string, inner: string, prefix: string, offset: nat, fuel: nat,
                                   descP: Registry.StructDesc, descT: Registry.StructDesc, fs: seq<Field>)
    requires IsName(p) && IsName(outer) && IsName(t) && IsName(inner) && fuel >= 2
    requires Registry.GetIn(descs, p) == Some(descP) && descP.schema == t + " " + (inner + "")
    requires Registry.GetIn(descs, t) == Some(descT)
    requires ParseSchema(descs, descT.schema, inner + ".", offset, fuel - 2) == Some(fs)
    ensures ParseSchema(descs, p + " " + (outer + ""), prefix, offset, fuel) == Some(fs)
  {
    var nested := t + " " + (inner + "");
    RegisteredStructField(descs, t, inner, outer + ".", offset, fuel - 1, descT, fs);
    assert ParseSchema(descs, descP.schema, outer + ".", offset, fuel - 1) == Some(fs);
    RegisteredStructField(descs, p, outer, prefix, offset, fuel, descP, fs);
  }
}
