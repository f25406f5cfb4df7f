/** What each rule of the grammar can yield: the errors it can end with, the
    character its loop stops in front of, and the shape of what it builds.
    Since the Parser methods are proved equal to these functions, the same
    holds of the methods. */
module SgfShapes {
  import opened SgfAst
  import opened SgfGrammar

  /** parse_propident succeeds exactly when a letter is under the cursor; it
      takes the whole run of letters, verbatim, then the whitespace after it. */
  lemma PropIdentShape(text: string, i: nat)
    requires i <= |text|
    ensures ParsePropIdent(text, i).Ok? <==> IsUpper(PeekAt(text, i))
    ensures ParsePropIdent(text, i).Err? ==> ParsePropIdent(text, i).error == ExpectedPropIdent
    ensures ParsePropIdent(text, i).Ok? ==> var (id, j) := ParsePropIdent(text, i).value;
      && IsIdent(id) && id == text[i..i + |id|]
      && !IsUpper(PeekAt(text, i + |id|)) && j == SkipWs(text, i + |id|)
  {
    var j := UpperRun(text, i);
    UpperRunLetters(text, i);
    if j != i {
      var id := text[i..j];
      forall k | 0 <= k < |id| ensures IsUpper(id[k]) {
        assert id[k] == text[i + k];
      }
    }
  }

  /** The value loop ends just past an unescaped ']', and fails only for want
      of one. */
  lemma {:induction false} ValueBodyShape(text: string, i: nat)
    requires i <= |text|
    ensures ValueBody(text, i).Ok? ==> text[ValueBody(text, i).value.1 - 1] == ']'
    ensures ValueBody(text, i).Err? ==> ValueBody(text, i).error == ExpectedCloseBracket
    decreases |text| - i
  {
    var p := PeekAt(text, i);
    if p == '\\' {
      ValueBodyShape(text, Next(text, i + 1));
    } else if p != ']' && p != NUL {
      ValueBodyShape(text, i + 1);
    }
  }

  /** parse_propvalue fails only with "expected ']'" and leaves the cursor
      after the whitespace that follows the ']'. */
  lemma PropValueShape(text: string, i: nat)
    requires i <= |text|
    ensures ParsePropValue(text, i).Err? ==> ParsePropValue(text, i).error == ExpectedCloseBracket
    ensures ParsePropValue(text, i).Ok? ==> !IsWhitespace(PeekAt(text, ParsePropValue(text, i).value.1))
  {
    ValueBodyShape(text, Next(text, i));
  }

  /** The loop of parse_property stops in front of the first character that
      is not '[', and fails only inside a value. */
  lemma {:induction false} ValueListShape(text: string, i: nat)
    requires i <= |text|
    ensures ValueList(text, i).Ok? ==> var j := ValueList(text, i).value.1;
      PeekAt(text, j) != '[' && (i < j ==> !IsWhitespace(PeekAt(text, j)))
    ensures ValueList(text, i).Err? ==> ValueList(text, i).error == ExpectedCloseBracket
    decreases |text| - i
  {
    if PeekAt(text, i) == '[' {
      PropValueShape(text, i);
      if ParsePropValue(text, i).Ok? {
        ValueListShape(text, ParsePropValue(text, i).value.1);
      }
    }
  }

  /** parse_property yields "expected propident" exactly when no letter is
      under the cursor; a property's identifier is letters taken verbatim from
      the text; after it neither '[' nor whitespace is under the cursor. */
  lemma PropertyShape(text: string, i: nat)
    requires i <= |text|
    ensures !IsUpper(PeekAt(text, i)) <==> ParseProperty(text, i) == Err(ExpectedPropIdent)
    ensures ParseProperty(text, i).Err? ==>
      ParseProperty(text, i).error in {ExpectedPropIdent, ExpectedOpenBracket, ExpectedCloseBracket}
    ensures ParseProperty(text, i).Ok? ==> var (p, j) := ParseProperty(text, i).value;
      && IsIdent(p.propIdent) && p.propIdent == text[i..i + |p.propIdent|]
      && PeekAt(text, j) != '[' && !IsWhitespace(PeekAt(text, j))
  {
    PropIdentShape(text, i);
    if ParsePropIdent(text, i).Ok? {
      var j := ParsePropIdent(text, i).value.1;
      if PeekAt(text, j) == '[' {
        PropValueShape(text, j);
        if ParsePropValue(text, j).Ok? {
          ValueListShape(text, ParsePropValue(text, j).value.1);
        }
      }
    }
  }

  /** The loop of parse_node stops in front of the first character that is not
      a letter, and never fails with "expected propident". */
  lemma {:induction false} PropertyListShape(text: string, i: nat)
    requires i <= |text|
    ensures PropertyList(text, i).Ok? ==> var j := PropertyList(text, i).value.1;
      !IsUpper(PeekAt(text, j)) && (i < j ==> !IsWhitespace(PeekAt(text, j)))
    ensures PropertyList(text, i).Err? ==>
      PropertyList(text, i).error in {ExpectedOpenBracket, ExpectedCloseBracket}
    decreases |text| - i
  {
    if IsUpper(PeekAt(text, i)) {
      PropertyShape(text, i);
      if ParseProperty(text, i).Ok? {
        PropertyListShape(text, ParseProperty(text, i).value.1);
      }
    }
  }

  /** parse_node never fails with "expected propident" (it calls parse_property
      only on a letter) and leaves the cursor after whitespace. */
  lemma NodeShape(text: string, i: nat)
    requires i <= |text|
    ensures ParseNode(text, i).Err? ==> ParseNode(text, i).error in {ExpectedOpenBracket, ExpectedCloseBracket}
    ensures ParseNode(text, i).Ok? ==> !IsWhitespace(PeekAt(text, ParseNode(text, i).value.1))
  {
    PropertyListShape(text, Next(text, i));
  }

  /** The loop of parse_sequence stops in front of the first character that is
      not ';'. */
  lemma {:induction false} NodeListShape(text: string, i: nat)
    requires i <= |text|
    ensures NodeList(text, i).Ok? ==> var j := NodeList(text, i).value.1;
      PeekAt(text, j) != ';' && (i < j ==> !IsWhitespace(PeekAt(text, j)))
    ensures NodeList(text, i).Err? ==> NodeList(text, i).error in {ExpectedOpenBracket, ExpectedCloseBracket}
    decreases |text| - i
  {
    if PeekAt(text, i) == ';' {
      NodeShape(text, i);
      if ParseNode(text, i).Ok? {
        NodeListShape(text, ParseNode(text, i).value.1);
      }
    }
  }

  /** A sequence fails with "expected ';'" exactly when no ';' is under the
      cursor, and ends in front of a character other than ';'. */
  lemma SequenceShape(text: string, i: nat)
    requires i <= |text|
    ensures PeekAt(text, i) != ';' <==> ParseSequence(text, i) == Err(ExpectedSemicolon)
    ensures ParseSequence(text, i).Err? ==>
      ParseSequence(text, i).error in {ExpectedSemicolon, ExpectedOpenBracket, ExpectedCloseBracket}
    ensures ParseSequence(text, i).Ok? ==> var j := ParseSequence(text, i).value.1;
      PeekAt(text, j) != ';' && !IsWhitespace(PeekAt(text, j))
  {
    if PeekAt(text, i) == ';' {
      NodeShape(text, i);
      if ParseNode(text, i).Ok? {
        NodeListShape(text, ParseNode(text, i).value.1);
      }
    }
  }

  /** A game tree never fails with "expected '('" (only the top-level loop
      demands one) nor with "expected propident". */
  lemma {:induction false} GameTreeShape(text: string, i: nat)
    requires i <= |text|
    ensures ParseGameTree(text, i).Err? ==> ParseGameTree(text, i).error !in {ExpectedOpenParen, ExpectedPropIdent}
    ensures ParseGameTree(text, i).Ok? ==> !IsWhitespace(PeekAt(text, ParseGameTree(text, i).value.1))
    decreases |text| - i, 1
  {
    var i1 := Next(text, i);
    SequenceShape(text, i1);
    if ParseSequence(text, i1).Ok? {
      GameTreeListShape(text, ParseSequence(text, i1).value.1);
    }
  }

  /** The loop of parse_gametree stops in front of the first character that is
      not '('. */
  lemma {:induction false} GameTreeListShape(text: string, i: nat)
    requires i <= |text|
    ensures GameTreeList(text, i).Ok? ==> var j := GameTreeList(text, i).value.1;
      PeekAt(text, j) != '(' && (i < j ==> !IsWhitespace(PeekAt(text, j)))
    ensures GameTreeList(text, i).Err? ==> GameTreeList(text, i).error !in {ExpectedOpenParen, ExpectedPropIdent}
    decreases |text| - i, 2
  {
    if PeekAt(text, i) == '(' {
      GameTreeShape(text, i);
      if ParseGameTree(text, i).Ok? {
        GameTreeListShape(text, ParseGameTree(text, i).value.1);
      }
    }
  }

  /** The top-level loop ends only at the end of the text or at a literal NUL;
      any other character that does not open a tree is "expected '('". */
  lemma {:induction false} CollectionTailShape(text: string, i: nat)
    requires i <= |text|
    ensures CollectionTail(text, i).Ok? ==> PeekAt(text, CollectionTail(text, i).value.1) == NUL
    ensures PeekAt(text, i) !in {NUL, '('} ==> CollectionTail(text, i) == Err(ExpectedOpenParen)
    ensures CollectionTail(text, i).Err? ==> CollectionTail(text, i).error != ExpectedPropIdent
    decreases |text| - i
  {
    if PeekAt(text, i) == '(' {
      GameTreeShape(text, i);
      if ParseGameTree(text, i).Ok? {
        CollectionTailShape(text, ParseGameTree(text, i).value.1);
      }
    }
  }

  /** parse demands '(' after leading whitespace, stops only at the end of the
      text or at a literal NUL, and never reports "expected propident". */
  lemma ParseShape(text: string)
    ensures PeekAt(text, SkipWs(text, 0)) != '(' ==> Parse(text) == Err(ExpectedOpenParen)
    ensures Parse(text).Err? ==> Parse(text).error != ExpectedPropIdent
    ensures ParseCollection(text, 0).Ok? ==> PeekAt(text, ParseCollection(text, 0).value.1) == NUL
  {
    var i0 := SkipWs(text, 0);
    if PeekAt(text, i0) == '(' {
      GameTreeShape(text, i0);
      if ParseGameTree(text, i0).Ok? {
        var j := ParseGameTree(text, i0).value.1;
        CollectionTailShape(text, j);
        if CollectionTail(text, j).Ok? {
          var k := CollectionTail(text, j).value.1;
          assert SkipWs(text, k) == k;
        }
      }
    }
  }

  // ---------------------------------------------------------------------
  // Every identifier of a parsed document is a run of capital letters

  predicate PropertiesIdent(ps: seq<Property>)
  {
    forall k :: 0 <= k < |ps| ==> IsIdent(ps[k].propIdent)
  }

  predicate NodesIdent(ns: seq<Node>)
  {
    forall k :: 0 <= k < |ns| ==> PropertiesIdent(ns[k].properties)
  }

  predicate SequenceIdent(s: Sequence)
  {
    PropertiesIdent(s.head.properties) && NodesIdent(s.tail)
  }

  predicate TreeIdent(t: GameTree)
  {
    SequenceIdent(t.head) && forall k :: 0 <= k < |t.tail| ==> TreeIdent(t.tail[k])
  }

  predicate TreesIdent(ts: seq<GameTree>)
  {
    forall k :: 0 <= k < |ts| ==> TreeIdent(ts[k])
  }

  predicate CollectionIdent(c: Collection)
  {
    TreeIdent(c.head) && TreesIdent(c.tail)
  }

  lemma {:induction false} PropertyListIdent(text: string, i: nat)
    requires i <= |text|
    ensures PropertyList(text, i).Ok? ==> PropertiesIdent(PropertyList(text, i).value.0)
    decreases |text| - i
  {
    if IsUpper(PeekAt(text, i)) {
      PropertyShape(text, i);
      if ParseProperty(text, i).Ok? {
        var (p, j) := ParseProperty(text, i).value;
        PropertyListIdent(text, j);
        if PropertyList(text, j).Ok? {
          var ps := PropertyList(text, j).value.0;
          assert PropertyList(text, i).value.0 == [p] + ps;
        }
      }
    }
  }

  lemma {:induction false} NodeListIdent(text: string, i: nat)
    requires i <= |text|
    ensures NodeList(text, i).Ok? ==> NodesIdent(NodeList(text, i).value.0)
    decreases |text| - i
  {
    if PeekAt(text, i) == ';' {
      PropertyListIdent(text, Next(text, i));
      if ParseNode(text, i).Ok? {
        var (n, j) := ParseNode(text, i).value;
        NodeListIdent(text, j);
        if NodeList(text, j).Ok? {
          var ns := NodeList(text, j).value.0;
          assert NodeList(text, i).value.0 == [n] + ns;
        }
      }
    }
  }

  lemma {:induction false} SequenceIdentOk(text: string, i: nat)
    requires i <= |text|
    ensures ParseSequence(text, i).Ok? ==> SequenceIdent(ParseSequence(text, i).value.0)
  {
    if PeekAt(text, i) == ';' {
      PropertyListIdent(text, Next(text, i));
      if ParseNode(text, i).Ok? {
        NodeListIdent(text, ParseNode(text, i).value.1);
      }
    }
  }

  lemma {:induction false} GameTreeIdent(text: string, i: nat)
    requires i <= |text|
    ensures ParseGameTree(text, i).Ok? ==> TreeIdent(ParseGameTree(text, i).value.0)
    decreases |text| - i, 1
  {
    var i1 := Next(text, i);
    SequenceIdentOk(text, i1);
    if ParseSequence(text, i1).Ok? {
      GameTreeListIdent(text, ParseSequence(text, i1).value.1);
    }
  }

  lemma {:induction false} GameTreeListIdent(text: string, i: nat)
    requires i <= |text|
    ensures GameTreeList(text, i).Ok? ==> TreesIdent(GameTreeList(text, i).value.0)
    decreases |text| - i, 2
  {
    if PeekAt(text, i) == '(' {
      GameTreeIdent(text, i);
      if ParseGameTree(text, i).Ok? {
        var (t, j) := ParseGameTree(text, i).value;
        GameTreeListIdent(text, j);
        if GameTreeList(text, j).Ok? {
          var ts := GameTreeList(text, j).value.0;
          assert GameTreeList(text, i).value.0 == [t] + ts;
        }
      }
    }
  }

  lemma {:induction false} CollectionTailIdent(text: string, i: nat)
    requires i <= |text|
    ensures CollectionTail(text, i).Ok? ==> TreesIdent(CollectionTail(text, i).value.0)
    decreases |text| - i
  {
    if PeekAt(text, i) == '(' {
      GameTreeIdent(text, i);
      if ParseGameTree(text, i).Ok? {
        var (t, j) := ParseGameTree(text, i).value;
        CollectionTailIdent(text, j);
        if CollectionTail(text, j).Ok? {
          var ts := CollectionTail(text, j).value.0;
          assert CollectionTail(text, i).value.0 == [t] + ts;
        }
      }
    }
  }

  /** Every property identifier of a document parse accepts is a non-empty
      run of capital letters. */
  lemma {:induction false} ParseIdent(text: string)
    ensures Parse(text).Ok? ==> CollectionIdent(Parse(text).value)
  {
    var i0 := SkipWs(text, 0);
    GameTreeIdent(text, i0);
    if ParseGameTree(text, i0).Ok? {
      CollectionTailIdent(text, ParseGameTree(text, i0).value.1);
    }
  }
}
