/** The abstract syntax of a Smart Game Format (SGF) document, as built by the
    parser in sgf.ts: Collection -> GameTree -> Sequence -> Node -> Property,
    with one or more bracketed string values per property. */
module SgfAst {

  /** The character the cursor hands out at (or past) the end of the text.
      An unescaped literal '\0' inside the text is indistinguishable from it;
      right after a backslash it is an ordinary escaped character. */
  const NUL: char := '\0'

  /** Vertical tab, written out because Dafny has no '\v' escape. */
  const VTAB: char := '\U{000B}'

  /** The five characters the parser skips between units. */
  predicate IsWhitespace(c: char)
  {
    c == '\n' || c == ' ' || c == '\t' || c == '\r' || c == VTAB
  }

  /** Upper-case ASCII letter, by code-point comparison. */
  predicate IsUpper(c: char)
  {
    'A' <= c <= 'Z'
  }

  /** A property identifier: one or more upper-case letters. */
  predicate IsIdent(s: string)
  {
    |s| > 0 && forall k :: 0 <= k < |s| ==> IsUpper(s[k])
  }

  /** The six structural errors; each carries the message the source reports. */
  datatype SgfError =
    | ExpectedOpenParen
    | ExpectedCloseParen
    | ExpectedSemicolon
    | ExpectedOpenBracket
    | ExpectedCloseBracket
    | ExpectedPropIdent
  {
    function Message(): string
    {
      match this
      case ExpectedOpenParen => "expected '('"
      case ExpectedCloseParen => "expected ')'"
      case ExpectedSemicolon => "expected ';'"
      case ExpectedOpenBracket => "expected '['"
      case ExpectedCloseBracket => "expected ']'"
      case ExpectedPropIdent => "expected propident"
    }
  }

  /** The six messages are distinct, so the message alone tells which error
      the parse ended with. */
  lemma MessageDistinct(a: SgfError, b: SgfError)
    ensures a.Message() == b.Message() ==> a == b
  {
  }

  /** Either the parsed value or the one error of the failed parse. */
  datatype Result<+T> = Ok(value: T) | Err(error: SgfError)
  {
    predicate IsFailure()
    {
      Err?
    }

    function PropagateFailure<U>(): Result<U>
      requires Err?
    {
      Err(error)
    }

    function Extract(): T
      requires Ok?
    {
      value
    }
  }

  /** The root of a document: the first game tree and the ones after it. */
  datatype Collection = Collection(head: GameTree, tail: seq<GameTree>)

  /** A sequence of nodes followed by its variations, in source order. */
  datatype GameTree = GameTree(head: Sequence, tail: seq<GameTree>)

  /** A non-empty chain of nodes: the first one and the ones after it. */
  datatype Sequence = Sequence(head: Node, tail: seq<Node>)

  /** Zero or more properties. */
  datatype Node = Node(properties: seq<Property>)

  /** An identifier, its first value, and the additional values after the
      first one (the first value is not repeated in propValues). */
  datatype Property = Property(propIdent: string, propValue: string, propValues: seq<string>)
}
