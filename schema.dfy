/**
  The schema language of `src/structure/mod.rs`: its tokens, the lexer that
  produces them, and `parse_schema`, which flattens a schema into
  (dotted name, absolute offset, field type) triples, expanding references to
  registered structs recursively.
*/
module Schema {
  import opened Wrappers
  import opened FieldTypes
  import Registry

  // ---------------------------------------------------------------------
  // Tokens and lexer

  datatype Token =
    | TypeName(name: string)
    | EnumKeyword
    | EnumVariant(variant: string, discriminant: int)
    | Integer(n: nat)
    | Ident(id: string)
    | OpenBrace
    | CloseBrace
    | OpenBracket
    | CloseBracket
    | Comma
    | Semicolon
    | Colon

  /** One item of the lexer's output: a token, or a lexing error. */
  datatype Lexeme = Tok(token: Token) | LexError

  /** Characters the lexer skips: space, tab, newline and form feed (not carriage return). */
  predicate IsSkip(c: char)
  {
    c == ' ' || c == '\t' || c == '\n' || c == '\U{000C}'
  }

  predicate IsDigit(c: char)
  {
    '0' <= c <= '9'
  }

  /** `[-a-zA-Z_]`, the first character of an identifier. */
  predicate IsIdentStart(c: char)
  {
    c == '-' || c == '_' || 'a' <= c <= 'z' || 'A' <= c <= 'Z'
  }

  /** `[a-zA-Z0-9_-]`, the later characters of an identifier. */
  predicate IsIdentChar(c: char)
  {
    IsIdentStart(c) || IsDigit(c)
  }

  /** Length of the longest prefix of `s` made of identifier characters. */
  function IdentRun(s: string): (n: nat)
    ensures n <= |s|
    ensures s != [] && IsIdentChar(s[0]) ==> n >= 1
  {
    if s == [] || !IsIdentChar(s[0]) then 0 else 1 + IdentRun(s[1..])
  }

  /** Length of the longest prefix of `s` made of decimal digits. */
  function DigitRun(s: string): (n: nat)
    ensures n <= |s|
    ensures s != [] && IsDigit(s[0]) ==> n >= 1
  {
    if s == [] || !IsDigit(s[0]) then 0 else 1 + DigitRun(s[1..])
  }

  function DigitOf(c: char): nat
  {
    if IsDigit(c) then c as int - '0' as int else 0
  }

  /** The value of a string of decimal digits. */
  function DecimalValue(s: string): nat
  {
    if s == [] then 0 else DecimalValue(s[..|s| - 1]) * 10 + DigitOf(s[|s| - 1])
  }

  /** Length of a `-?[0-9]+` literal at the start of `t`, or 0 if there is none. */
  function SignedRun(t: string): (n: nat)
    ensures n <= |t|
  {
    if t != [] && t[0] == '-' then
      if DigitRun(t[1..]) > 0 then 1 + DigitRun(t[1..]) else 0
    else DigitRun(t)
  }

  function SignedValue(lit: string): int
  {
    if lit != [] && lit[0] == '-' then -(DecimalValue(lit[1..]) as int) else DecimalValue(lit)
  }

  /** A whole identifier-shaped word: a type name (higher priority), the `enum` keyword, or an identifier. */
  function WordToken(w: string): Token
  {
    if IsPrimitiveName(w) then TypeName(w)
    else if w == "enum" then EnumKeyword
    else Ident(w)
  }

  function PunctLexeme(c: char): Lexeme
  {
    match c
    case '{' => Tok(OpenBrace)
    case '}' => Tok(CloseBrace)
    case '[' => Tok(OpenBracket)
    case ']' => Tok(CloseBracket)
    case ',' => Tok(Comma)
    case ';' => Tok(Semicolon)
    case ':' => Tok(Colon)
    case _ => LexError
  }

  /**
    One step of the lexer at the start of a non-empty input: what it emits
    (nothing for skipped whitespace) and how many characters it consumes.
    The longest match wins, and the primitive type names and `enum` take
    priority over an identifier of the same length. An identifier
    immediately followed by `=` and a signed decimal is an enum variant
    whose value must fit in i8; an integer must fit in u32. A character no
    token starts with is an error, and lexing resumes after it.
  */
  function LexStep(s: string): (r: (seq<Lexeme>, nat))
    requires s != []
    ensures 1 <= r.1 <= |s|
    ensures |r.0| <= 1
  {
    if IsSkip(s[0]) then ([], 1)
    else if IsIdentStart(s[0]) then WordStep(s)
    else if IsDigit(s[0]) then NumberStep(s)
    else ([PunctLexeme(s[0])], 1)
  }

  /** An identifier-shaped word, or an enum variant `name=value`, at the start of `s`. */
  function WordStep(s: string): (r: (seq<Lexeme>, nat))
    requires s != [] && IsIdentStart(s[0])
    ensures 1 <= r.1 <= |s|
    ensures |r.0| == 1
  {
    var n := IdentRun(s);
    if n < |s| && s[n] == '=' && SignedRun(s[n + 1..]) > 0 then
      var m := n + 1 + SignedRun(s[n + 1..]);
      var v := SignedValue(s[n + 1..m]);
      ([if -128 <= v < 128 then Tok(EnumVariant(s[..n], v)) else LexError], m)
    else
      ([Tok(WordToken(s[..n]))], n)
  }

  /** A decimal literal at the start of `s`. */
  function NumberStep(s: string): (r: (seq<Lexeme>, nat))
    requires s != [] && IsDigit(s[0])
    ensures 1 <= r.1 <= |s|
    ensures |r.0| == 1
  {
    var n := DigitRun(s);
    var v := DecimalValue(s[..n]);
    ([if v < 0x1_0000_0000 then Tok(Integer(v)) else LexError], n)
  }

  /** The lexer: the whole input, one step at a time. */
  function Lex(s: string): seq<Lexeme>
    decreases |s|
  {
    if s == [] then []
    else
      var step := LexStep(s);
      step.0 + Lex(s[step.1..])
  }

  predicate HasLexError(lexed: seq<Lexeme>)
  {
    exists i :: 0 <= i < |lexed| && lexed[i].LexError?
  }

  // ---------------------------------------------------------------------
  // Parser

  /** One flattened field: dotted name, absolute byte offset, primitive kind with count. */
  datatype Field = Field(name: string, offset: nat, ftype: FieldType)

  /** The token kinds the parser keeps; everything else (braces, enum syntax, ...) is dropped. */
  predicate Kept(t: Token)
  {
    t.Ident? || t.Integer? || t.TypeName? || t.Semicolon?
  }

  /** The kept tokens of an error-free lexer output, in order. */
  function KeptTokens(lexed: seq<Lexeme>): (r: seq<Token>)
    ensures forall i :: 0 <= i < |r| ==> Kept(r[i])
  {
    if lexed == [] then []
    else (if lexed[0].Tok? && Kept(lexed[0].token) then [lexed[0].token] else [])
         + KeptTokens(lexed[1..])
  }

  /**
    `slice::split` on `Semicolon`: the maximal runs between separators, so
    n separators give n + 1 (possibly empty) declarations.
  */
  function SplitDeclarations(ts: seq<Token>): (r: seq<seq<Token>>)
    ensures |r| >= 1
    ensures forall i, j :: 0 <= i < |r| && 0 <= j < |r[i]| ==> r[i][j] != Semicolon
  {
    if ts == [] then [[]]
    else if ts[0] == Semicolon then [[]] + SplitDeclarations(ts[1..])
    else
      var rest := SplitDeclarations(ts[1..]);
      [[ts[0]] + rest[0]] + rest[1..]
  }

  /** Joins declarations back together with a `Semicolon` between neighbours. */
  function JoinDeclarations(groups: seq<seq<Token>>): seq<Token>
  {
    if groups == [] then []
    else if |groups| == 1 then groups[0]
    else groups[0] + [Semicolon] + JoinDeclarations(groups[1..])
  }

  /** Splitting loses nothing: joining the declarations gives back the token list. */
  lemma {:induction false} SplitThenJoin(ts: seq<Token>)
    ensures JoinDeclarations(SplitDeclarations(ts)) == ts
  {
    if ts != [] {
      SplitThenJoin(ts[1..]);
      var rest := SplitDeclarations(ts[1..]);
      if ts[0] == Semicolon {
        assert SplitDeclarations(ts) == [[]] + rest;
        assert ([[]] + rest)[1..] == rest;
      } else {
        var r := SplitDeclarations(ts);
        assert r[1..] == rest[1..];
        if |rest| == 1 {
          assert JoinDeclarations(rest) == rest[0];
        } else {
          assert rest == [rest[0]] + rest[1..];
        }
      }
    }
  }

  /** Option-aware prepend of already-emitted fields. */
  function Prepend(acc: seq<Field>, rest: Option<seq<Field>>): Option<seq<Field>>
  {
    match rest
    case None => None
    case Some(fs) => Some(acc + fs)
  }

  lemma PrependAssociates(acc: seq<Field>, fs: seq<Field>, rest: Option<seq<Field>>)
    ensures Prepend(acc, Prepend(fs, rest)) == Prepend(acc + fs, rest)
  {
    if rest.Some? {
      assert acc + (fs + rest.value) == (acc + fs) + rest.value;
    }
  }

  /** The repeat count of a primitive declaration: a trailing integer, else 1. */
  function DeclaredCount(g: seq<Token>): nat
  {
    if |g| == 3 && g[2].Integer? then g[2].n else 1
  }

  /**
    One declaration, at byte `cursor`: the fields it emits and how far it
    advances the cursor. `None` means the recursion budget `fuel` ran out
    while expanding a nested struct; the source has no such budget (see the
    model's notes).
  */
  function ParseDeclaration(descs: seq<Registry.StructDesc>, g: seq<Token>, prefix: string,
                            cursor: nat, fuel: nat): Option<(seq<Field>, nat)>
    decreases fuel, 0, 0
  {
    if |g| < 2 || |g| > 3 || !g[1].Ident? then Some(([], 0))
    else
      match g[0]
      case Ident(sub) =>
        (match Registry.GetIn(descs, sub)
         case None => Some(([], 0))
         case Some(desc) =>
           if fuel == 0 then None
           else
             match ParseSchema(descs, desc.schema, g[1].id + ".", cursor, fuel - 1)
             case None => None
             case Some(nested) => Some((nested, desc.size)))
      case TypeName(t) =>
        (match FromType(t, DeclaredCount(g))
         case None => Some(([], 0))
         case Some(stype) => Some(([Field(prefix + g[1].id, cursor, stype)], Size(stype))))
      case _ => Some(([], 0))
  }

  /** The declarations in order, each starting where the previous one left the cursor. */
  function ParseDeclarations(descs: seq<Registry.StructDesc>, groups: seq<seq<Token>>, prefix: string,
                             cursor: nat, fuel: nat): Option<seq<Field>>
    decreases fuel, 1, |groups|
  {
    if groups == [] then Some([])
    else
      match ParseDeclaration(descs, groups[0], prefix, cursor, fuel)
      case None => None
      case Some((fs, advance)) =>
        Prepend(fs, ParseDeclarations(descs, groups[1..], prefix, cursor + advance, fuel))
  }

  /** `parse_schema(schema, prefix, offset)`: any lexing error gives the empty list. */
  function ParseSchema(descs: seq<Registry.StructDesc>, schema: string, prefix: string,
                       offset: nat, fuel: nat): Option<seq<Field>>
    decreases fuel, 2, 0
  {
    var lexed := Lex(schema);
    if HasLexError(lexed) then Some([])
    else ParseDeclarations(descs, SplitDeclarations(KeptTokens(lexed)), prefix, offset, fuel)
  }

  /** `parse_schema_toplevel`: no prefix, offset 0; a schema that does not lex describes no fields. */
  function ParseSchemaToplevel(descs: seq<Registry.StructDesc>, schema: string, fuel: nat): (r: Option<seq<Field>>)
    ensures HasLexError(Lex(schema)) ==> r == Some([])
  {
    ParseSchema(descs, schema, "", 0, fuel)
  }

  // ---------------------------------------------------------------------
  // The imperative parser

  /** The early-exit scan for a lexing error. */
  method FindLexError(lexed: seq<Lexeme>) returns (found: bool)
    ensures found == HasLexError(lexed)
  {
    var k := 0;
    while k < |lexed|
      invariant 0 <= k <= |lexed|
      invariant forall i :: 0 <= i < k ==> !lexed[i].LexError?
    {
      if lexed[k].LexError? {
        return true;
      }
      k := k + 1;
    }
    return false;
  }

  /**
    `parse_schema` as the source runs it: the scan for lexing errors, then
    one pass over the declarations with a mutable cursor, recursing into
    registered structs.
  */
  method ParseSchemaWithCursor(db: Registry.DescDB, schema: string, prefix: string, offset: nat, fuel: nat)
    returns (r: Option<seq<Field>>)
    ensures r == ParseSchema(db.descs, schema, prefix, offset, fuel)
    decreases fuel, 2, 0
  {
    var lexed := Lex(schema);
    var failed := FindLexError(lexed);
    if failed {
      return Some([]);
    }
    r := ParseDeclarationsWithCursor(db, SplitDeclarations(KeptTokens(lexed)), prefix, offset, fuel);
  }

  /** The pass over the declarations, advancing the cursor after each one. */
  method ParseDeclarationsWithCursor(db: Registry.DescDB, groups: seq<seq<Token>>, prefix: string,
                                     offset: nat, fuel: nat)
    returns (r: Option<seq<Field>>)
    ensures r == ParseDeclarations(db.descs, groups, prefix, offset, fuel)
    decreases fuel, 1, 0
  {
    var cursor := offset;
    var acc: seq<Field> := [];
    var i := 0;
    assert groups[0..] == groups;
    PrependEmpty(ParseDeclarations(db.descs, groups, prefix, offset, fuel));
    while i < |groups|
      invariant 0 <= i <= |groups|
      invariant ParseDeclarations(db.descs, groups, prefix, offset, fuel)
             == Prepend(acc, ParseDeclarations(db.descs, groups[i..], prefix, cursor, fuel))
    {
      var decl := ParseDeclarationWithCursor(db, groups[i], prefix, cursor, fuel);
      DeclarationsLoopStep(db.descs, groups, i, prefix, offset, cursor, fuel, acc, decl);
      if decl.None? {
        return None;
      }
      var (emitted, advance) := decl.value;
      acc, cursor := acc + emitted, cursor + advance;
      i := i + 1;
    }
    assert groups[i..] == [] && acc + [] == acc;
    r := Some(acc);
  }

  /** One turn of the loop keeps its invariant: a failing declaration fails the whole fold. */
  lemma DeclarationsLoopStep(descs: seq<Registry.StructDesc>, groups: seq<seq<Token>>, i: nat, prefix: string,
                             offset: nat, cursor: nat, fuel: nat, acc: seq<Field>,
                             decl: Option<(seq<Field>, nat)>)
    requires i < |groups|
    requires ParseDeclarations(descs, groups, prefix, offset, fuel)
          == Prepend(acc, ParseDeclarations(descs, groups[i..], prefix, cursor, fuel))
    requires decl == ParseDeclaration(descs, groups[i], prefix, cursor, fuel)
    ensures decl.None? ==> ParseDeclarations(descs, groups, prefix, offset, fuel) == None
    ensures decl.Some? ==>
              ParseDeclarations(descs, groups, prefix, offset, fuel)
              == Prepend(acc + decl.value.0, ParseDeclarations(descs, groups[i + 1..], prefix, cursor + decl.value.1, fuel))
  {
    DeclarationsStep(descs, groups, i, prefix, cursor, fuel);
    if decl.Some? {
      var rest := ParseDeclarations(descs, groups[i + 1..], prefix, cursor + decl.value.1, fuel);
      assert ParseDeclarations(descs, groups[i..], prefix, cursor, fuel) == Prepend(decl.value.0, rest);
      PrependAssociates(acc, decl.value.0, rest);
    }
  }

  lemma PrependEmpty(rest: Option<seq<Field>>)
    ensures Prepend([], rest) == rest
  {
    if rest.Some? {
      assert [] + rest.value == rest.value;
    }
  }

  /** The fold over the declarations from `i` on: declaration `i`, then the rest after its advance. */
  lemma DeclarationsStep(descs: seq<Registry.StructDesc>, groups: seq<seq<Token>>, i: nat, prefix: string,
                         cursor: nat, fuel: nat)
    requires i < |groups|
    ensures ParseDeclarations(descs, groups[i..], prefix, cursor, fuel)
         == match ParseDeclaration(descs, groups[i], prefix, cursor, fuel)
            case None => None
            case Some((fs, advance)) => Prepend(fs, ParseDeclarations(descs, groups[i + 1..], prefix, cursor + advance, fuel))
  {
    assert groups[i..][0] == groups[i] && groups[i..][1..] == groups[i + 1..];
  }

  /** One declaration as the loop body of `parse_schema` handles it. */
  method ParseDeclarationWithCursor(db: Registry.DescDB, g: seq<Token>, prefix: string, cursor: nat, fuel: nat)
    returns (r: Option<(seq<Field>, nat)>)
    ensures r == ParseDeclaration(db.descs, g, prefix, cursor, fuel)
    decreases fuel, 0, 0
  {
    if |g| < 2 || |g| > 3 || !g[1].Ident? {
      return Some(([], 0));
    }
    match g[0] {
      case Ident(sub) =>
        var found := db.Get(sub);
        assert found == Registry.GetIn(db.descs, sub);
        if found.None? {
          return Some(([], 0));
        }
        if fuel == 0 {
          return None;
        }
        var nested := ParseSchemaWithCursor(db, found.value.schema, g[1].id + ".", cursor, fuel - 1);
        if nested.None? {
          return None;
        }
        return Some((nested.value, found.value.size));
      case TypeName(t) =>
        var stype := FromType(t, DeclaredCount(g));
        if stype.None? {
          return Some(([], 0));
        }
        return Some(([Field(prefix + g[1].id, cursor, stype.value)], Size(stype.value)));
      case _ =>
        return Some(([], 0));
    }
  }

  // ---------------------------------------------------------------------
  // Lexer steps

  /** Maximal munch: the identifier run is made of identifier characters and cannot be extended. */
  lemma {:induction false} IdentRunIsMaximal(s: string)
    ensures forall i :: 0 <= i < IdentRun(s) ==> IsIdentChar(s[i])
    ensures IdentRun(s) < |s| ==> !IsIdentChar(s[IdentRun(s)])
  {
    if s != [] && IsIdentChar(s[0]) {
      IdentRunIsMaximal(s[1..]);
      forall i | 1 <= i < IdentRun(s)
        ensures IsIdentChar(s[i])
      {
        assert s[i] == s[1..][i - 1];
      }
    }
  }

  /** Maximal munch for decimal literals. */
  lemma {:induction false} DigitRunIsMaximal(s: string)
    ensures forall i :: 0 <= i < DigitRun(s) ==> IsDigit(s[i])
    ensures DigitRun(s) < |s| ==> !IsDigit(s[DigitRun(s)])
  {
    if s != [] && IsDigit(s[0]) {
      DigitRunIsMaximal(s[1..]);
      forall i | 1 <= i < DigitRun(s)
        ensures IsDigit(s[i])
      {
        assert s[i] == s[1..][i - 1];
      }
    }
  }

  lemma {:induction false} IdentRunOfWord(w: string, rest: string)
    requires forall i :: 0 <= i < |w| ==> IsIdentChar(w[i])
    requires rest == [] || !IsIdentChar(rest[0])
    ensures IdentRun(w + rest) == |w|
  {
    if w != [] {
      assert (w + rest)[1..] == w[1..] + rest;
      IdentRunOfWord(w[1..], rest);
    } else {
      assert w + rest == rest;
    }
  }

  lemma {:induction false} DigitRunOfDigits(d: string, rest: string)
    requires forall i :: 0 <= i < |d| ==> IsDigit(d[i])
    requires rest == [] || !IsDigit(rest[0])
    ensures DigitRun(d + rest) == |d|
  {
    if d != [] {
      assert (d + rest)[1..] == d[1..] + rest;
      DigitRunOfDigits(d[1..], rest);
    } else {
      assert d + rest == rest;
    }
  }

  /** A word followed by something that can neither extend it nor make it an enum variant. */
  lemma LexWord(w: string, rest: string)
    requires w != [] && IsIdentStart(w[0])
    requires forall i :: 0 <= i < |w| ==> IsIdentChar(w[i])
    requires rest == [] || (!IsIdentChar(rest[0]) && rest[0] != '=')
    ensures Lex(w + rest) == [Tok(WordToken(w))] + Lex(rest)
  {
    IdentRunOfWord(w, rest);
    var s := w + rest;
    assert s[0] == w[0];
    assert s[..|w|] == w && s[|w|..] == rest;
    assert WordStep(s) == ([Tok(WordToken(w))], |w|);
  }

  /** A non-empty run of identifier characters starting with a letter, `-` or `_`. */
  predicate IsWord(w: string)
  {
    w != [] && IsIdentStart(w[0]) && forall i :: 0 <= i < |w| ==> IsIdentChar(w[i])
  }

  /** A word that lexes as an identifier. */
  predicate IsName(w: string)
  {
    IsWord(w) && !IsPrimitiveName(w) && w != "enum"
  }

  /** A word followed by a space. */
  lemma LexWordSpace(w: string, tail: string)
    requires IsWord(w)
    ensures Lex(w + " " + tail) == [Tok(WordToken(w))] + Lex(tail)
  {
    var spaced := [' '] + tail;
    assert w + " " + tail == w + spaced;
    LexWord(w, spaced);
    LexSkip(' ', tail);
  }

  /** A declaration `a b`, followed by nothing or by a separator. */
  lemma LexPair(a: string, b: string, rest: string)
    requires IsWord(a) && IsWord(b)
    requires rest == [] || rest[0] == ';'
    ensures Lex(a + " " + (b + rest)) == [Tok(WordToken(a)), Tok(WordToken(b))] + Lex(rest)
  {
    LexWordSpace(a, b + rest);
    LexWord(b, rest);
    ConsCons(Tok(WordToken(a)), Tok(WordToken(b)), Lex(rest));
  }

  lemma ConsCons<X>(x: X, y: X, s: seq<X>)
    ensures [x] + ([y] + s) == [x, y] + s
  {
  }

  /** A decimal literal followed by a non-digit. */
  lemma LexDigits(d: string, rest: string)
    requires d != []
    requires forall i :: 0 <= i < |d| ==> IsDigit(d[i])
    requires rest == [] || !IsDigit(rest[0])
    ensures Lex(d + rest)
         == [if DecimalValue(d) < 0x1_0000_0000 then Tok(Integer(DecimalValue(d))) else LexError] + Lex(rest)
  {
    DigitRunOfDigits(d, rest);
    var s := d + rest;
    assert s[0] == d[0];
    assert !IsSkip(d[0]) && !IsIdentStart(d[0]);
    assert s[..|d|] == d && s[|d|..] == rest;
    assert NumberStep(s).1 == |d|;
  }

  lemma LexSkip(c: char, rest: string)
    requires IsSkip(c)
    ensures Lex([c] + rest) == Lex(rest)
  {
    assert ([c] + rest)[1..] == rest;
    assert LexStep([c] + rest) == ([], 1);
  }

  lemma LexPunct(c: char, rest: string)
    requires c in "{}[],;:"
    ensures PunctLexeme(c).Tok?
    ensures Lex([c] + rest) == [PunctLexeme(c)] + Lex(rest)
  {
    assert ([c] + rest)[0] == c && ([c] + rest)[1..] == rest;
    assert LexStep([c] + rest) == ([PunctLexeme(c)], 1);
  }

  lemma LexSemicolon(rest: string)
    ensures Lex([';'] + rest) == [Tok(Semicolon)] + Lex(rest)
  {
    LexPunct(';', rest);
  }

  /** A kept token in front adds itself to the kept tokens. */
  lemma KeptCons(t: Token, rest: seq<Lexeme>)
    requires Kept(t)
    ensures KeptTokens([Tok(t)] + rest) == [t] + KeptTokens(rest)
    ensures HasLexError([Tok(t)] + rest) == HasLexError(rest)
  {
    var l := [Tok(t)] + rest;
    assert l[0] == Tok(t) && l[1..] == rest;
    if HasLexError(rest) {
      var i :| 0 <= i < |rest| && rest[i].LexError?;
      assert l[i + 1] == rest[i];
    }
    if HasLexError(l) {
      var i :| 0 <= i < |l| && l[i].LexError?;
      assert rest[i - 1] == l[i];
    }
  }

  /** Filtering the lexer's output distributes over concatenation. */
  lemma {:induction false} KeptTokensAppend(a: seq<Lexeme>, b: seq<Lexeme>)
    ensures KeptTokens(a + b) == KeptTokens(a) + KeptTokens(b)
  {
    if a == [] {
      assert a + b == b;
    } else {
      assert (a + b)[0] == a[0] && (a + b)[1..] == a[1..] + b;
      KeptTokensAppend(a[1..], b);
    }
  }

  lemma {:induction false} HasLexErrorAppend(a: seq<Lexeme>, b: seq<Lexeme>)
    ensures HasLexError(a + b) <==> HasLexError(a) || HasLexError(b)
  {
    if HasLexError(a + b) {
      var i :| 0 <= i < |a + b| && (a + b)[i].LexError?;
      if i < |a| {
        assert a[i].LexError?;
      } else {
        assert b[i - |a|].LexError?;
      }
    }
    if HasLexError(a) {
      var i :| 0 <= i < |a| && a[i].LexError?;
      assert (a + b)[i].LexError?;
    }
    if HasLexError(b) {
      var i :| 0 <= i < |b| && b[i].LexError?;
      assert (a + b)[|a| + i].LexError?;
    }
  }

  // ---------------------------------------------------------------------
  // Properties of the parser

  /**
    `parse_schema_toplevel` is `parse_schema` with no prefix at offset 0,
    and a schema of whitespace alone (the empty one included) has no fields.
  */
  lemma BlankSchemaHasNoFields(descs: seq<Registry.StructDesc>, schema: string, fuel: nat)
    requires forall i :: 0 <= i < |schema| ==> IsSkip(schema[i])
    ensures ParseSchemaToplevel(descs, schema, fuel) == ParseSchema(descs, schema, "", 0, fuel)
    ensures ParseSchemaToplevel(descs, schema, fuel) == Some([])
  {
    var none: seq<Token> := [];
    BlankLexesToNothing(schema);
    assert KeptTokens([]) == none && SplitDeclarations(none) == [none];
    var groups := [none];
    assert groups[1..] == [];
    var fs: seq<Field> := [];
    assert fs + fs == fs;
    assert ParseDeclarations(descs, groups, "", 0, fuel) == Some(fs);
  }

  /** Whitespace produces no lexeme, so a blank text lexes to nothing. */
  lemma {:induction false} BlankLexesToNothing(s: string)
    requires forall i :: 0 <= i < |s| ==> IsSkip(s[i])
    ensures Lex(s) == []
    decreases |s|
  {
    if s != [] {
      assert LexStep(s) == ([], 1);
      BlankLexesToNothing(s[1..]);
    }
  }

  /** Any lexing error anywhere in the schema yields no fields at all (not an error). */
  lemma LexErrorYieldsNoFields(descs: seq<Registry.StructDesc>, schema: string, prefix: string,
                               offset: nat, fuel: nat, i: nat)
    requires i < |Lex(schema)| && Lex(schema)[i].LexError?
    ensures ParseSchema(descs, schema, prefix, offset, fuel) == Some([])
  {
  }

  /**
    How one declaration is treated: a malformed one (wrong length, second
    token not an identifier, first token neither a type name nor a registered
    struct) emits nothing and leaves the cursor where it is; a primitive one
    emits one field named `prefix + name` at the cursor; a registered struct
    is expanded under the prefix `name + "."` alone.
  */
  lemma DeclarationCases(descs: seq<Registry.StructDesc>, g: seq<Token>, prefix: string,
                         cursor: nat, fuel: nat)
    ensures (|g| < 2 || |g| > 3 || !g[1].Ident? || !(g[0].Ident? || g[0].TypeName?)) ==>
                  ParseDeclaration(descs, g, prefix, cursor, fuel) == Some(([], 0))
    ensures 2 <= |g| <= 3 && g[1].Ident? && g[0].Ident? && !Registry.ContainsIn(descs, g[0].id) ==>
                  ParseDeclaration(descs, g, prefix, cursor, fuel) == Some(([], 0))
    ensures 2 <= |g| <= 3 && g[1].Ident? && g[0].TypeName? && IsPrimitiveName(g[0].name) ==>
                  var ft := FromType(g[0].name, DeclaredCount(g)).value;
                  ParseDeclaration(descs, g, prefix, cursor, fuel)
                    == Some(([Field(prefix + g[1].id, cursor, ft)], BaseSize(ft) * DeclaredCount(g)))
    ensures 2 <= |g| <= 3 && g[1].Ident? && g[0].Ident? && Registry.ContainsIn(descs, g[0].id) && fuel > 0 ==>
                  var desc := Registry.GetIn(descs, g[0].id).value;
                  ParseDeclaration(descs, g, prefix, cursor, fuel)
                    == match ParseSchema(descs, desc.schema, g[1].id + ".", cursor, fuel - 1)
                       case None => None
                       case Some(nested) => Some((nested, desc.size))
  {
    if 2 <= |g| <= 3 && g[1].Ident? && g[0].Ident? {
      Registry.ContainsIffGet(descs, g[0].id);
    }
  }

  lemma {:induction false} SchemaOffsetsAtLeast(descs: seq<Registry.StructDesc>, schema: string, prefix: string,
                                                offset: nat, fuel: nat)
    ensures var r := ParseSchema(descs, schema, prefix, offset, fuel);
            r.Some? ==> forall i :: 0 <= i < |r.value| ==> r.value[i].offset >= offset
    decreases fuel, 2, 0
  {
    var lexed := Lex(schema);
    if !HasLexError(lexed) {
      DeclarationsOffsetsAtLeast(descs, SplitDeclarations(KeptTokens(lexed)), prefix, offset, fuel);
    }
  }

  lemma {:induction false} DeclarationsOffsetsAtLeast(descs: seq<Registry.StructDesc>, groups: seq<seq<Token>>,
                                                      prefix: string, cursor: nat, fuel: nat)
    ensures var r := ParseDeclarations(descs, groups, prefix, cursor, fuel);
            r.Some? ==> forall i :: 0 <= i < |r.value| ==> r.value[i].offset >= cursor
    decreases fuel, 1, |groups|
  {
    if groups != [] {
      DeclarationOffsetsAtLeast(descs, groups[0], prefix, cursor, fuel);
      match ParseDeclaration(descs, groups[0], prefix, cursor, fuel)
      case None =>
      case Some((fs, advance)) =>
        DeclarationsOffsetsAtLeast(descs, groups[1..], prefix, cursor + advance, fuel);
    }
  }

  lemma {:induction false} DeclarationOffsetsAtLeast(descs: seq<Registry.StructDesc>, g: seq<Token>, prefix: string,
                                                     cursor: nat, fuel: nat)
    ensures var r := ParseDeclaration(descs, g, prefix, cursor, fuel);
            r.Some? ==> forall i :: 0 <= i < |r.value.0| ==> r.value.0[i].offset >= cursor
    decreases fuel, 0, 0
  {
    if 2 <= |g| <= 3 && g[1].Ident? && g[0].Ident? && fuel > 0 {
      match Registry.GetIn(descs, g[0].id)
      case None =>
      case Some(desc) => SchemaOffsetsAtLeast(descs, desc.schema, g[1].id + ".", cursor, fuel - 1);
    }
  }

  /** More recursion budget never changes a completed parse: the budget only cuts off cyclic registries. */
  lemma {:induction false} SchemaFuelMonotone(descs: seq<Registry.StructDesc>, schema: string, prefix: string,
                                              offset: nat, fuel: nat, more: nat)
    requires fuel <= more
    ensures ParseSchema(descs, schema, prefix, offset, fuel).Some? ==>
                  ParseSchema(descs, schema, prefix, offset, more) == ParseSchema(descs, schema, prefix, offset, fuel)
    decreases fuel, 2, 0
  {
    var lexed := Lex(schema);
    if !HasLexError(lexed) {
      DeclarationsFuelMonotone(descs, SplitDeclarations(KeptTokens(lexed)), prefix, offset, fuel, more);
    }
  }

  lemma {:induction false} DeclarationsFuelMonotone(descs: seq<Registry.StructDesc>, groups: seq<seq<Token>>,
                                                    prefix: string, cursor: nat, fuel: nat, more: nat)
    requires fuel <= more
    ensures ParseDeclarations(descs, groups, prefix, cursor, fuel).Some? ==>
                  ParseDeclarations(descs, groups, prefix, cursor, more)
                  == ParseDeclarations(descs, groups, prefix, cursor, fuel)
    decreases fuel, 1, |groups|
  {
    if groups != [] {
      DeclarationFuelMonotone(descs, groups[0], prefix, cursor, fuel, more);
      match ParseDeclaration(descs, groups[0], prefix, cursor, fuel)
      case None =>
      case Some((fs, advance)) =>
        DeclarationsFuelMonotone(descs, groups[1..], prefix, cursor + advance, fuel, more);
    }
  }

  lemma {:induction false} DeclarationFuelMonotone(descs: seq<Registry.StructDesc>, g: seq<Token>, prefix: string,
                                                   cursor: nat, fuel: nat, more: nat)
    requires fuel <= more
    ensures ParseDeclaration(descs, g, prefix, cursor, fuel).Some? ==>
                  ParseDeclaration(descs, g, prefix, cursor, more) == ParseDeclaration(descs, g, prefix, cursor, fuel)
    decreases fuel, 0, 0
  {
    if 2 <= |g| <= 3 && g[1].Ident? && g[0].Ident? && fuel > 0 {
      var found := Registry.GetIn(descs, g[0].id);
      if found.Some? {
        var desc := found.value;
        var inner := ParseSchema(descs, desc.schema, g[1].id + ".", cursor, fuel - 1);
        SchemaFuelMonotone(descs, desc.schema, g[1].id + ".", cursor, fuel - 1, more - 1);
        if inner.Some? {
          assert ParseDeclaration(descs, g, prefix, cursor, fuel) == Some((inner.value, desc.size));
          assert ParseDeclaration(descs, g, prefix, cursor, more) == Some((inner.value, desc.size));
        }
      }
    }
  }

  /**
    The prefix of a nested struct's fields is `name + "."` alone: the prefix
    of the enclosing declaration plays no part in expanding a registered
    struct, so two levels of nesting lose the outer name.
  */
  lemma NestedExpansionIgnoresPrefix(descs: seq<Registry.StructDesc>, g: seq<Token>, prefix: string,
                                     other: string, cursor: nat, fuel: nat)
    requires 2 <= |g| <= 3 && g[0].Ident? && g[1].Ident?
    ensures ParseDeclaration(descs, g, prefix, cursor, fuel) == ParseDeclaration(descs, g, other, cursor, fuel)
  {
  }

  lemma SplitCons(t: Token, rest: seq<Token>)
    requires t != Semicolon
    ensures SplitDeclarations([t] + rest)
         == [[t] + SplitDeclarations(rest)[0]] + SplitDeclarations(rest)[1..]
  {
    assert ([t] + rest)[0] == t && ([t] + rest)[1..] == rest;
  }

  lemma SplitSemicolon(rest: seq<Token>)
    ensures SplitDeclarations([Semicolon] + rest) == [[]] + SplitDeclarations(rest)
  {
    assert ([Semicolon] + rest)[0] == Semicolon && ([Semicolon] + rest)[1..] == rest;
  }

  /** A run of tokens with no separator, followed by a separator, is one whole declaration. */
  lemma {:induction false} SplitDeclarationThenSemicolon(g: seq<Token>, rest: seq<Token>)
    requires forall i :: 0 <= i < |g| ==> g[i] != Semicolon
    ensures SplitDeclarations(g + ([Semicolon] + rest)) == [g] + SplitDeclarations(rest)
  {
    if g == [] {
      assert g + ([Semicolon] + rest) == [Semicolon] + rest;
      SplitSemicolon(rest);
    } else {
      var tail := g[1..] + ([Semicolon] + rest);
      assert g + ([Semicolon] + rest) == [g[0]] + tail;
      SplitDeclarationThenSemicolon(g[1..], rest);
      SplitCons(g[0], tail);
      assert [g[0]] + g[1..] == g;
    }
  }

  /** A run of tokens with no separator at the end of the input is the last declaration. */
  lemma {:induction false} SplitLastDeclaration(g: seq<Token>)
    requires forall i :: 0 <= i < |g| ==> g[i] != Semicolon
    ensures SplitDeclarations(g) == [g]
  {
    if g != [] {
      SplitLastDeclaration(g[1..]);
      SplitCons(g[0], g[1..]);
      assert [g[0]] + g[1..] == g;
    }
  }
}
