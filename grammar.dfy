/** The parser of sgf.ts as pure functions. Every rule takes the text and the
    cursor position it starts at and yields the parsed unit together with the
    position the cursor is left at, or the error that ends the parse. These
    functions are the specification the imperative Parser class is proved
    against, and the objects the lemmas in SgfProperties speak about. */
module SgfGrammar {
  import opened SgfAst

  /** peek(): the character under the cursor, NUL at or past the end. */
  function PeekAt(text: string, i: nat): char
  {
    if i < |text| then text[i] else NUL
  }

  /** The cursor position after one read(): it never moves past the end. */
  function Next(text: string, i: nat): nat
  {
    if i < |text| then i + 1 else i
  }

  /** Puts `pre` in front of the items a successful rule produced; an error
      goes through unchanged. */
  function Prefix<T>(pre: seq<T>, r: Result<(seq<T>, nat)>): Result<(seq<T>, nat)>
  {
    match r
    case Ok((items, j)) => Ok((pre + items, j))
    case Err(e) => Err(e)
  }

  lemma PrefixNil<T>(r: Result<(seq<T>, nat)>)
    ensures Prefix([], r) == r
  {
    match r
    case Ok((items, j)) => assert [] + items == items;
    case Err(_) =>
  }

  lemma PrefixPrefix<T>(a: seq<T>, b: seq<T>, r: Result<(seq<T>, nat)>)
    ensures Prefix(a, Prefix(b, r)) == Prefix(a + b, r)
  {
    match r
    case Ok((items, j)) => assert a + (b + items) == (a + b) + items;
    case Err(_) =>
  }

  lemma PrefixDone<T>(pre: seq<T>, j: nat)
    ensures Prefix(pre, Ok(([], j))) == Ok((pre, j))
  {
    assert pre + [] == pre;
  }

  /** The result of a rule run by a method, `r`, with the cursor it left,
      `j`, against the result `spec` of the rule's function. After a failure
      the cursor position is not part of the contract. */
  predicate Agrees<T(==)>(r: Result<T>, j: nat, spec: Result<(T, nat)>)
  {
    match spec
    case Ok((v, k)) => r == Ok(v) && j == k
    case Err(e) => r == Err(e)
  }

  /** read_whitespace: where the cursor stops after skipping whitespace. */
  function SkipWs(text: string, i: nat): (j: nat)
    requires i <= |text|
    ensures i <= j <= |text|
    ensures !IsWhitespace(PeekAt(text, j))
    decreases |text| - i
  {
    if IsWhitespace(PeekAt(text, i)) then SkipWs(text, i + 1) else i
  }

  /** The loop of parse_propident: where the run of letters starting at i ends. */
  function UpperRun(text: string, i: nat): (j: nat)
    requires i <= |text|
    ensures i <= j <= |text|
    ensures !IsUpper(PeekAt(text, j))
    decreases |text| - i
  {
    if IsUpper(PeekAt(text, i)) then UpperRun(text, i + 1) else i
  }

  /** Every character UpperRun passes over is a letter. */
  lemma {:induction false} UpperRunLetters(text: string, i: nat)
    requires i <= |text|
    ensures forall k :: i <= k < UpperRun(text, i) ==> IsUpper(text[k])
    decreases |text| - i
  {
    if IsUpper(PeekAt(text, i)) {
      UpperRunLetters(text, i + 1);
    }
  }

  /** parse_propident: a non-empty run of letters, then whitespace. */
  function ParsePropIdent(text: string, i: nat): (r: Result<(string, nat)>)
    requires i <= |text|
    ensures r.Ok? ==> i < r.value.1 <= |text|
  {
    var j := UpperRun(text, i);
    if j == i then Err(ExpectedPropIdent) else Ok((text[i..j], SkipWs(text, j)))
  }

  /** The loop of parse_propvalue, from just after the '[': the decoded
      characters and the position just after the closing ']'. A backslash is
      dropped and the character read after it is kept verbatim (NUL if the
      backslash is the last character); an unescaped ']' ends the value; NUL
      before that is the error "expected ']'". */
  function ValueBody(text: string, i: nat): (r: Result<(string, nat)>)
    requires i <= |text|
    ensures r.Ok? ==> i < r.value.1 <= |text|
    decreases |text| - i
  {
    var p := PeekAt(text, i);
    if p == ']' then Ok(([], i + 1))
    else if p == '\\' then Prefix([PeekAt(text, i + 1)], ValueBody(text, Next(text, i + 1)))
    else if p == NUL then Err(ExpectedCloseBracket)
    else Prefix([p], ValueBody(text, i + 1))
  }

  /** parse_propvalue: reads (and discards) the '[' its caller has seen, the
      body up to the closing ']', then whitespace. */
  function ParsePropValue(text: string, i: nat): (r: Result<(string, nat)>)
    requires i <= |text|
    ensures r.Ok? ==> i < r.value.1 <= |text|
  {
    match ValueBody(text, Next(text, i))
    case Ok((v, j)) => Ok((v, SkipWs(text, j)))
    case Err(e) => Err(e)
  }

  /** The loop of parse_property: further values while the next character is '['. */
  function ValueList(text: string, i: nat): (r: Result<(seq<string>, nat)>)
    requires i <= |text|
    ensures r.Ok? ==> i <= r.value.1 <= |text|
    decreases |text| - i
  {
    if PeekAt(text, i) != '[' then Ok(([], i))
    else match ParsePropValue(text, i)
      case Err(e) => Err(e)
      case Ok((v, j)) => Prefix([v], ValueList(text, j))
  }

  /** parse_property: an identifier, at least one value, further values,
      whitespace. */
  function ParseProperty(text: string, i: nat): (r: Result<(Property, nat)>)
    requires i <= |text|
    ensures r.Ok? ==> i < r.value.1 <= |text|
  {
    match ParsePropIdent(text, i)
    case Err(e) => Err(e)
    case Ok((id, j)) =>
      if PeekAt(text, j) != '[' then Err(ExpectedOpenBracket)
      else match ParsePropValue(text, j)
        case Err(e) => Err(e)
        case Ok((v, k)) =>
          match ValueList(text, k)
          case Err(e) => Err(e)
          case Ok((vs, m)) => Ok((Property(id, v, vs), SkipWs(text, m)))
  }

  /** The loop of parse_node: properties while the next character is a letter.
      It never fails with "expected propident". */
  function PropertyList(text: string, i: nat): (r: Result<(seq<Property>, nat)>)
    requires i <= |text|
    ensures r.Ok? ==> i <= r.value.1 <= |text|
    decreases |text| - i
  {
    if !IsUpper(PeekAt(text, i)) then Ok(([], i))
    else match ParseProperty(text, i)
      case Err(e) => Err(e)
      case Ok((p, j)) => Prefix([p], PropertyList(text, j))
  }

  /** parse_node: reads the ';' its caller has seen, zero or more properties,
      whitespace. */
  function ParseNode(text: string, i: nat): (r: Result<(Node, nat)>)
    requires i <= |text|
    ensures r.Ok? ==> i <= r.value.1 <= |text|
    ensures r.Ok? && i < |text| ==> i < r.value.1
  {
    match PropertyList(text, Next(text, i))
    case Err(e) => Err(e)
    case Ok((ps, j)) => Ok((Node(ps), SkipWs(text, j)))
  }

  /** The loop of parse_sequence: further nodes while the next character is ';'. */
  function NodeList(text: string, i: nat): (r: Result<(seq<Node>, nat)>)
    requires i <= |text|
    ensures r.Ok? ==> i <= r.value.1 <= |text|
    decreases |text| - i
  {
    if PeekAt(text, i) != ';' then Ok(([], i))
    else match ParseNode(text, i)
      case Err(e) => Err(e)
      case Ok((n, j)) => Prefix([n], NodeList(text, j))
  }

  /** parse_sequence: a compulsory first node, further nodes, whitespace.
      Only a ';' continues a sequence. */
  function ParseSequence(text: string, i: nat): (r: Result<(Sequence, nat)>)
    requires i <= |text|
    ensures r.Ok? ==> i < r.value.1 <= |text|
  {
    if PeekAt(text, i) != ';' then Err(ExpectedSemicolon)
    else match ParseNode(text, i)
      case Err(e) => Err(e)
      case Ok((n, j)) =>
        match NodeList(text, j)
        case Err(e) => Err(e)
        case Ok((ns, k)) => Ok((Sequence(n, ns), SkipWs(text, k)))
  }

  /** parse_gametree: reads the '(' its caller has seen, a sequence, the
      variations while the next character is '(', the closing ')', whitespace. */
  function ParseGameTree(text: string, i: nat): (r: Result<(GameTree, nat)>)
    requires i <= |text|
    ensures r.Ok? ==> i < r.value.1 <= |text|
    decreases |text| - i, 1
  {
    match ParseSequence(text, Next(text, i))
    case Err(e) => Err(e)
    case Ok((s, j)) =>
      match GameTreeList(text, j)
      case Err(e) => Err(e)
      case Ok((ts, k)) =>
        if PeekAt(text, k) != ')' then Err(ExpectedCloseParen)
        else Ok((GameTree(s, ts), SkipWs(text, k + 1)))
  }

  /** The loop of parse_gametree: variations while the next character is '('. */
  function GameTreeList(text: string, i: nat): (r: Result<(seq<GameTree>, nat)>)
    requires i <= |text|
    ensures r.Ok? ==> i <= r.value.1 <= |text|
    decreases |text| - i, 2
  {
    if PeekAt(text, i) != '(' then Ok(([], i))
    else match ParseGameTree(text, i)
      case Err(e) => Err(e)
      case Ok((t, j)) => Prefix([t], GameTreeList(text, j))
  }

  /** The loop of parse: after the first tree, stop at NUL, else demand '('
      and parse another tree. Trailing text other than NUL is an error. */
  function CollectionTail(text: string, i: nat): (r: Result<(seq<GameTree>, nat)>)
    requires i <= |text|
    ensures r.Ok? ==> i <= r.value.1 <= |text|
    decreases |text| - i
  {
    var p := PeekAt(text, i);
    if p == NUL then Ok(([], i))
    else if p != '(' then Err(ExpectedOpenParen)
    else match ParseGameTree(text, i)
      case Err(e) => Err(e)
      case Ok((t, j)) => Prefix([t], CollectionTail(text, j))
  }

  /** parse: whitespace, a compulsory first tree, the remaining trees up to
      NUL, whitespace. On success the cursor is at the end of the text or at
      a literal NUL; "expected propident" is never the outcome. */
  function ParseCollection(text: string, i: nat): (r: Result<(Collection, nat)>)
    requires i <= |text|
    ensures r.Ok? ==> i < r.value.1 <= |text|
  {
    var i0 := SkipWs(text, i);
    if PeekAt(text, i0) != '(' then Err(ExpectedOpenParen)
    else match ParseGameTree(text, i0)
      case Err(e) => Err(e)
      case Ok((t, j)) =>
        match CollectionTail(text, j)
        case Err(e) => Err(e)
        case Ok((ts, k)) => Ok((Collection(t, ts), SkipWs(text, k)))
  }

  /** `new Parser(text).parse()`: the outcome without the final cursor. */
  function Parse(text: string): Result<Collection>
  {
    match ParseCollection(text, 0)
    case Ok((c, _)) => Ok(c)
    case Err(e) => Err(e)
  }
}
