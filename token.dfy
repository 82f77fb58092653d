/**
 * Lexical tokens of the build language (libbuild2/token.hxx): a token type
 * from an extendable enumeration, separation and quoting flags, the value
 * text and the source position, and the replayable token saved together
 * with its file and lexer mode.
 */
module Token {

  type uint16 = x: int | 0 <= x < 0x1_0000
  type uint64 = x: int | 0 <= x < 0x1_0000_0000_0000_0000

  /** The token type is an extendable enumeration over uint16; these are its base values. */
  type TokenType = uint16

  const Eos: TokenType := 0
  const Newline: TokenType := 1
  const Word: TokenType := 2
  const PairSeparator: TokenType := 3
  const Colon: TokenType := 4
  const Dollar: TokenType := 5
  const Question: TokenType := 6
  const Percent: TokenType := 7
  const Comma: TokenType := 8
  const LParen: TokenType := 9
  const RParen: TokenType := 10
  const LCBrace: TokenType := 11
  const RCBrace: TokenType := 12
  const MultiLCBrace: TokenType := 13
  const MultiRCBrace: TokenType := 14
  const LSBrace: TokenType := 15
  const RSBrace: TokenType := 16
  const LABrace: TokenType := 17
  const RABrace: TokenType := 18
  const Assign: TokenType := 19
  const Prepend: TokenType := 20
  const Append: TokenType := 21
  const DefaultAssign: TokenType := 22
  const Equal: TokenType := 23
  const NotEqual: TokenType := 24
  const Less: TokenType := 25
  const Greater: TokenType := 26
  const LessEqual: TokenType := 27
  const GreaterEqual: TokenType := 28
  const BitOr: TokenType := 29
  const LogOr: TokenType := 30
  const LogAnd: TokenType := 31
  const LogNot: TokenType := 32
  /** The first value available to derived token types. */
  const ValueNext: TokenType := 33

  datatype QuoteType = Unquoted | Single | Double | Mixed

  /** The printer a token is rendered with; the standard one or another. */
  datatype Printer = StandardPrinter | OtherPrinter(id: nat)

  datatype Token = Token(
    ttype: TokenType,
    separated: bool,
    qtype: QuoteType,
    qcomp: bool,
    value: string,
    line: uint64,
    column: uint64,
    printer: Printer)

  /** The default token: end of stream, at line 0, column 0. */
  function DefaultToken(): (t: Token)
    ensures t.ttype == Eos && !t.separated && t.line == 0 && t.column == 0
    ensures t.value == "" && t.qtype == Unquoted && !t.qcomp && t.printer == StandardPrinter
  {
    TypedToken(Eos, false, 0, 0, StandardPrinter)
  }

  /** A token of the given type without a value, unquoted. */
  function TypedToken(tt: TokenType, s: bool, l: uint64, c: uint64, p: Printer): (t: Token)
    ensures t.ttype == tt && t.separated == s && t.line == l && t.column == c && t.printer == p
    ensures t.value == "" && t.qtype == Unquoted && !t.qcomp
  {
    Token(tt, s, Unquoted, false, "", l, c, p)
  }

  /** A token of the given type and quoting; quoting counts as complete exactly when there is some. */
  function QuotedToken(tt: TokenType, s: bool, qt: QuoteType, l: uint64, c: uint64, p: Printer): (t: Token)
    ensures t.ttype == tt && t.separated == s && t.qtype == qt && t.line == l && t.column == c
    ensures t.qcomp <==> qt != Unquoted
    ensures t.value == "" && t.printer == p
  {
    Token(tt, s, qt, qt != Unquoted, "", l, c, p)
  }

  /** A word token carrying text; always printed by the standard printer. */
  function WordToken(v: string, s: bool, qt: QuoteType, qc: bool, l: uint64, c: uint64): (t: Token)
    ensures t.ttype == Word && t.value == v && t.separated == s
    ensures t.qtype == qt && t.qcomp == qc && t.line == l && t.column == c
    ensures t.printer == StandardPrinter
  {
    Token(Word, s, qt, qc, v, l, c, StandardPrinter)
  }

  /** The token with its presentation (separation, quoting, position, printer) reset. */
  function Bare(t: Token): Token
  {
    t.(separated := false, qtype := Unquoted, qcomp := false, line := 0, column := 0, printer := StandardPrinter)
  }

  /** Token equality: type and value only, that is, the tokens agree once their presentation is reset. */
  function TokenEq(x: Token, y: Token): (r: bool)
    ensures r <==> Bare(x) == Bare(y)
  {
    x.ttype == y.ttype && x.value == y.value
  }

  /** Token inequality: the negation of equality, so tokens differing only in presentation are not unequal. */
  function TokenNe(x: Token, y: Token): (r: bool)
    ensures r <==> Bare(x) != Bare(y)
    ensures r ==> x != y
  {
    !TokenEq(x, y)
  }

  /** Equality is an equivalence that ignores position, separation, quoting and printer. */
  lemma EqualIsEquivalence(x: Token, y: Token, z: Token)
    ensures TokenEq(x, x)
    ensures TokenEq(x, y) ==> TokenEq(y, x)
    ensures TokenEq(x, y) && TokenEq(y, z) ==> TokenEq(x, z)
  {
  }

  lemma EqualIgnoresPresentation(x: Token, s: bool, qt: QuoteType, qc: bool, l: uint64, c: uint64, p: Printer)
    ensures TokenEq(x, x.(separated := s, qtype := qt, qcomp := qc, line := l, column := c, printer := p))
  {
  }

  /** Two word tokens are equal exactly when their texts are. */
  lemma WordTokensEqual(v1: string, s1: bool, q1: QuoteType, c1: bool, l1: uint64, k1: uint64,
                        v2: string, s2: bool, q2: QuoteType, c2: bool, l2: uint64, k2: uint64)
    ensures TokenEq(WordToken(v1, s1, q1, c1, l1, k1), WordToken(v2, s2, q2, c2, l2, k2)) <==> v1 == v2
  {
  }

  /**
   * Inequality is irreflexive and symmetric, and equal tokens are unequal
   * to the same tokens.
   */
  lemma NotEqualIsApartness(x: Token, y: Token, z: Token)
    ensures !TokenNe(x, x)
    ensures TokenNe(x, y) ==> TokenNe(y, x)
    ensures TokenNe(x, y) && TokenEq(y, z) ==> TokenNe(x, z)
  {
  }

  /** The name of a source file, for diagnostics. */
  datatype PathName = PathName(name: string)

  datatype SourceLocation = SourceLocation(file: PathName, line: uint64, column: uint64)

  type LexerMode = uint16

  /** A token saved for replay, with the file it came from and the lexer mode. */
  datatype ReplayToken = ReplayToken(token: Token, file: PathName, mode: LexerMode)
  {
    /** The token's position in its file. */
    function Location(): (l: SourceLocation)
      ensures l.file == file && l.line == token.line && l.column == token.column
    {
      SourceLocation(file, token.line, token.column)
    }
  }

  type ReplayTokens = seq<ReplayToken>
}
