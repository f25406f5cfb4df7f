/** The Parser class of sgf.ts: an immutable text and a read cursor that every
    rule moves forward. Each method is proved to do exactly what the function
    of the same name in SgfGrammar says, so what SgfGrammar and SgfProperties
    prove about those functions holds of the methods. */
module SgfParser {
  import opened SgfAst
  import G = SgfGrammar

  class Parser {
    const text: string
    var index: nat

    /** The cursor never leaves the text. */
    ghost predicate Valid()
      reads this
    {
      index <= |text|
    }

    constructor (text: string)
      ensures Valid() && this.text == text && index == 0
    {
      this.text := text;
      index := 0;
    }

    /** The character `n` places ahead of the cursor, NUL past the end. */
    function Peek(n: nat := 0): (c: char)
      reads this
      ensures index + n < |text| ==> c == text[index + n]
      ensures index + n >= |text| ==> c == NUL
    {
      G.PeekAt(text, index + n)
    }

    /** The character under the cursor, which then moves one place; at the
        end NUL, and the cursor stays. */
    method Read() returns (c: char)
      requires Valid()
      modifies this
      ensures Valid()
      ensures old(index) < |text| ==> c == text[old(index)] && index == old(index) + 1
      ensures old(index) >= |text| ==> c == NUL && index == old(index)
    {
      if index >= |text| {
        return NUL;
      }
      c := text[index];
      index := index + 1;
    }

    /** Moves the cursor past a run of whitespace. */
    method ReadWhitespace()
      requires Valid()
      modifies this
      ensures Valid() && index == G.SkipWs(text, old(index))
    {
      while IsWhitespace(Peek())
        invariant old(index) <= index <= |text|
        invariant G.SkipWs(text, index) == G.SkipWs(text, old(index))
        decreases |text| - index
      {
        var _ := Read();
      }
    }

    method Parse() returns (r: Result<Collection>)
      requires Valid()
      modifies this
      ensures Valid() && G.Agrees(r, index, G.ParseCollection(text, old(index)))
    {
      ReadWhitespace();
      if Peek() != '(' {
        return Err(ExpectedOpenParen);
      }
      var head :- ParseGameTree();
      ghost var start := index;
      var tail := [];
      G.PrefixNil(G.CollectionTail(text, index));
      while true
        invariant start <= index <= |text|
        invariant G.CollectionTail(text, start) == G.Prefix(tail, G.CollectionTail(text, index))
        decreases |text| - index
      {
        if Peek() == NUL {
          break;
        } else if Peek() != '(' {
          return Err(ExpectedOpenParen);
        } else {
          var gt :- ParseGameTree();
          G.PrefixPrefix(tail, [gt], G.CollectionTail(text, index));
          tail := tail + [gt];
        }
      }
      G.PrefixDone(tail, index);
      ReadWhitespace();
      r := Ok(Collection(head, tail));
    }

    method ParseGameTree() returns (r: Result<GameTree>)
      requires Valid()
      modifies this
      ensures Valid() && G.Agrees(r, index, G.ParseGameTree(text, old(index)))
      decreases |text| - index
    {
      var _ := Read();  // the '(' the caller has seen
      assert index == G.Next(text, old(index));
      var s :- ParseSequence();
      ghost var start := index;
      var tail := [];
      G.PrefixNil(G.GameTreeList(text, index));
      while Peek() == '('
        invariant old(index) < start <= index <= |text|
        invariant G.GameTreeList(text, start) == G.Prefix(tail, G.GameTreeList(text, index))
        decreases |text| - index
      {
        var gt :- ParseGameTree();
        G.PrefixPrefix(tail, [gt], G.GameTreeList(text, index));
        tail := tail + [gt];
      }
      G.PrefixDone(tail, index);
      var c := Read();
      if c != ')' {
        return Err(ExpectedCloseParen);
      }
      ReadWhitespace();
      r := Ok(GameTree(s, tail));
    }

    method ParseSequence() returns (r: Result<Sequence>)
      requires Valid()
      modifies this
      ensures Valid() && G.Agrees(r, index, G.ParseSequence(text, old(index)))
    {
      if Peek() != ';' {
        return Err(ExpectedSemicolon);
      }
      var node :- ParseNode();
      ghost var start := index;
      var nodes := [];
      G.PrefixNil(G.NodeList(text, index));
      while Peek() == ';'
        invariant start <= index <= |text|
        invariant G.NodeList(text, start) == G.Prefix(nodes, G.NodeList(text, index))
        decreases |text| - index
      {
        var n :- ParseNode();
        G.PrefixPrefix(nodes, [n], G.NodeList(text, index));
        nodes := nodes + [n];
      }
      G.PrefixDone(nodes, index);
      ReadWhitespace();
      r := Ok(Sequence(node, nodes));
    }

    method ParseNode() returns (r: Result<Node>)
      requires Valid()
      modifies this
      ensures Valid() && G.Agrees(r, index, G.ParseNode(text, old(index)))
    {
      var _ := Read();  // the ';' the caller has seen
      ghost var start := index;
      assert start == G.Next(text, old(index));
      var props := [];
      G.PrefixNil(G.PropertyList(text, index));
      while IsUpper(Peek())
        invariant start <= index <= |text|
        invariant G.PropertyList(text, start) == G.Prefix(props, G.PropertyList(text, index))
        decreases |text| - index
      {
        var prop :- ParseProperty();
        G.PrefixPrefix(props, [prop], G.PropertyList(text, index));
        props := props + [prop];
      }
      G.PrefixDone(props, index);
      ReadWhitespace();
      r := Ok(Node(props));
    }

    method ParseProperty() returns (r: Result<Property>)
      requires Valid()
      modifies this
      ensures Valid() && G.Agrees(r, index, G.ParseProperty(text, old(index)))
    {
      var ident :- ParsePropIdent();
      if Peek() != '[' {
        return Err(ExpectedOpenBracket);
      }
      var value :- ParsePropValue();
      ghost var start := index;
      var values := [];
      G.PrefixNil(G.ValueList(text, index));
      while Peek() == '['
        invariant start <= index <= |text|
        invariant G.ValueList(text, start) == G.Prefix(values, G.ValueList(text, index))
        decreases |text| - index
      {
        var pv :- ParsePropValue();
        G.PrefixPrefix(values, [pv], G.ValueList(text, index));
        values := values + [pv];
      }
      G.PrefixDone(values, index);
      ReadWhitespace();
      r := Ok(Property(ident, value, values));
    }

    method ParsePropIdent() returns (r: Result<string>)
      requires Valid()
      modifies this
      ensures Valid() && G.Agrees(r, index, G.ParsePropIdent(text, old(index)))
    {
      var result := "";
      while IsUpper(Peek())
        invariant old(index) <= index <= |text|
        invariant result == text[old(index)..index]
        invariant G.UpperRun(text, index) == G.UpperRun(text, old(index))
        decreases |text| - index
      {
        var c := Read();
        result := result + [c];
      }
      if |result| == 0 {
        return Err(ExpectedPropIdent);
      }
      ReadWhitespace();
      r := Ok(result);
    }

    method ParsePropValue() returns (r: Result<string>)
      requires Valid()
      modifies this
      ensures Valid() && G.Agrees(r, index, G.ParsePropValue(text, old(index)))
    {
      var _ := Read();  // the '[' the caller has seen
      ghost var start := index;
      assert start == G.Next(text, old(index));
      var result := "";
      G.PrefixNil(G.ValueBody(text, index));
      while true
        invariant start <= index <= |text|
        invariant G.ValueBody(text, start) == G.Prefix(result, G.ValueBody(text, index))
        decreases |text| - index
      {
        var p := Peek();
        if p == ']' {
          var _ := Read();
          G.PrefixDone(result, index);
          break;
        } else if p == '\\' {
          var _ := Read();
          var c := Read();
          G.PrefixPrefix(result, [c], G.ValueBody(text, index));
          result := result + [c];
        } else if p == NUL {
          return Err(ExpectedCloseBracket);
        } else {
          var c := Read();
          G.PrefixPrefix(result, [c], G.ValueBody(text, index));
          result := result + [c];
        }
      }
      ReadWhitespace();
      r := Ok(result);
    }
  }

  /** `new Parser(text).parse()`. */
  method ParseText(text: string) returns (r: Result<Collection>)
    ensures r == G.Parse(text)
  {
    var p := new Parser(text);
    r := p.Parse();
  }
}
