/** Concrete inputs: fragments of the sample game record that sgf.ts parses
    in its test function, and small documents showing each error. */
module SgfSample {
  import opened SgfAst
  import opened SgfGrammar
  import opened SgfSteps
  import opened SgfProperties
  import opened SgfLayout
  import opened SgfWriter
  import opened SgfReadBack

  // ---------------------------------------------------------------------
  // Fragments of the sample record

  /** The triangle marks of the sample: one property with three values. */
  const Marks: string := "TR[qc][pd][qd]"

  lemma {:induction false} MarksValues()
    ensures ValueList(Marks, 6) == Ok((["pd", "qd"], 14))
  {
    assert ParsePropValue(Marks, 6).Ok? && ParsePropValue(Marks, 6).value.0 == "pd" && ParsePropValue(Marks, 6).value.1 == 10;
    assert ParsePropValue(Marks, 10).Ok? && ParsePropValue(Marks, 10).value.0 == "qd" && ParsePropValue(Marks, 10).value.1 == 14;
    ValueListStop(Marks, 14);
    ValueListMore(Marks, 10, "qd", 14);
    ValueListMore(Marks, 6, "pd", 10);
    PrefixDone(["qd"], 14);
    PrefixPrefix(["pd"], ["qd"], Ok(([], 14)));
    assert ["pd"] + ["qd"] == ["pd", "qd"];
  }

  /** The first value is kept apart from the further ones. */
  lemma {:induction false} MarksProperty()
    ensures ParseProperty(Marks, 0) == Ok((Property("TR", "qc", ["pd", "qd"]), 14))
  {
    assert ParsePropIdent(Marks, 0).Ok? && ParsePropIdent(Marks, 0).value.0 == "TR" && ParsePropIdent(Marks, 0).value.1 == 2;
    assert ParsePropValue(Marks, 2).Ok? && ParsePropValue(Marks, 2).value.0 == "qc" && ParsePropValue(Marks, 2).value.1 == 6;
    MarksValues();
    PropertyStep(Marks, 0, "TR", 2, "qc", 6, ["pd", "qd"], 14);
  }

  /** The players of the sample, whose white name has a space on each side:
      the spaces are part of the value. */
  const WhiteName: string := " alice "
  const Players: string := "PW[" + WhiteName + "]PB[bob ]"

  lemma PlayerWhite()
    ensures ParseProperty(Players, 0) == Ok((Property("PW", " alice ", []), 11))
  {
    assert Plain(WhiteName);
    assert Players == "PW" + "[" + WhiteName + "]" + "PB[bob ]";
    PlainProperty("PW", WhiteName, "PB[bob ]");
  }

  /** The comment of the sample: the inner '[' needs no escape, the final
      one is escaped and stays in the text. */
  const CommentText: string := "comment [some comment"
  const Comment: string := "[" + CommentText + "\\]]"

  lemma CommentValue()
    ensures ParsePropValue(Comment, 0) == Ok(("comment [some comment]", 25))
  {
    assert Plain(CommentText);
    EscapedBracketValue(CommentText, "");
    assert Comment + "" == Comment;
    assert CommentText + "]" == "comment [some comment]";
  }

  /** A NUL right after a backslash is an escaped character like any other:
      the value goes on to its ']'. */
  lemma EscapedNulValue()
    ensures ParsePropValue("[\\\0]", 0) == Ok(("\0", 4))
  {
    var text := "[\\\0]";
    assert |text| == 4 && text[1] == '\\' && text[2] == NUL && text[3] == ']';
    EscapedNul(text, 1);
    assert ValueBody(text, 3) == Ok(([], 4));
    PrefixDone([NUL], 4);
    assert SkipWs(text, 4) == 4;
  }

  /** The pass in the sample: a ';' with no property before the next ';'. */
  const Pass: string := ";\n;W[rd]"

  lemma EmptyNodeSample()
    ensures ParseNode(Pass, 0) == Ok((Node([]), 2))
  {
  }

  // ---------------------------------------------------------------------
  // Game trees and variations

  const Bare: Sequence := Sequence(Node([]), [])
  const Leaf: GameTree := GameTree(Bare, [])

  /** A root node with two variations, as the sample record has. */
  const Fork: string := "(;(;)(;))"

  lemma ForkLeaf(i: nat)
    requires i == 2 || i == 5
    ensures ParseGameTree(Fork, i) == Ok((Leaf, i + 3))
  {
    assert ParseSequence(Fork, i + 1).Ok? && ParseSequence(Fork, i + 1).value.0 == Bare && ParseSequence(Fork, i + 1).value.1 == i + 2;
    GameTreeListStop(Fork, i + 2);
    GameTreeStep(Fork, i, Bare, i + 2, [], i + 2);
  }

  /** The variations are the tail of the root tree; the collection has no
      further tree. */
  lemma ForkRecord()
    ensures Parse(Fork) == Ok(Collection(GameTree(Bare, [Leaf, Leaf]), []))
  {
    ForkLeaf(2);
    ForkLeaf(5);
    GameTreeListStop(Fork, 8);
    GameTreeListMore(Fork, 5, Leaf, 8);
    GameTreeListMore(Fork, 2, Leaf, 5);
    PrefixDone([Leaf], 8);
    assert [Leaf] + [Leaf] == [Leaf, Leaf];
    assert ParseSequence(Fork, 1).Ok? && ParseSequence(Fork, 1).value.0 == Bare && ParseSequence(Fork, 1).value.1 == 2;
    GameTreeStep(Fork, 0, Bare, 2, [Leaf, Leaf], 8);
    assert SkipWs(Fork, 9) == 9 && SkipWs(Fork, 0) == 0;
    CollectionTailStop(Fork, 9);
    CollectionStep(Fork, GameTree(Bare, [Leaf, Leaf]), 9, [], 9);
  }

  // ---------------------------------------------------------------------
  // A document the writer writes

  /** A record with a root node of two properties and one move after it. */
  const GameRoot: Node := Node([Property("GM", "1", []), Property("FF", "4", [])])
  const GameMove: Node := Node([Property("B", "pd", [])])
  const GameInfo: Collection := Collection(GameTree(Sequence(GameRoot, [GameMove]), []), [])

  /** The text of a property with one plain value. */
  lemma OneValue(id: string, v: string)
    requires Plain(v)
    ensures PropertyText(Property(id, v, [])) == id + "[" + v + "]"
  {
    EscapePlain(v);
    assert ValueTexts([]) == [];
  }

  lemma GameRootText()
    ensures NodeText(GameRoot) == ";GM[1]FF[4]"
  {
    OneValue("GM", "1");
    OneValue("FF", "4");
    var ws := PropertyTexts(GameRoot.properties);
    assert GameRoot.properties[0] == Property("GM", "1", []) && GameRoot.properties[1] == Property("FF", "4", []);
    assert "GM" + "[" + "1" + "]" == "GM[1]" && "FF" + "[" + "4" + "]" == "FF[4]";
    assert ws == ["GM[1]", "FF[4]"];
    assert ws[1..] == ["FF[4]"];
    assert Concat(ws[1..]) == "FF[4]" + "";
    assert Concat(ws) == "GM[1]" + "FF[4]";
  }

  lemma GameMoveText()
    ensures NodeText(GameMove) == ";B[pd]"
  {
    OneValue("B", "pd");
    var ws := PropertyTexts(GameMove.properties);
    assert GameMove.properties[0] == Property("B", "pd", []);
    assert "B" + "[" + "pd" + "]" == "B[pd]";
    assert ws == ["B[pd]"];
    assert Concat(ws) == "B[pd]" + "";
  }

  lemma GameMovesText()
    ensures NodesText([GameMove]) == ";B[pd]"
  {
    GameMoveText();
    var ws := NodeTexts([GameMove]);
    assert ws == [";B[pd]"];
    assert Concat(ws) == ";B[pd]" + "";
  }

  lemma GameSequenceText()
    ensures SequenceText(Sequence(GameRoot, [GameMove])) == ";GM[1]FF[4];B[pd]"
  {
    GameRootText();
    GameMovesText();
    assert ";GM[1]FF[4]" + ";B[pd]" == ";GM[1]FF[4];B[pd]";
  }

  /** The text of a collection of one tree without variations. */
  lemma {:induction false} OneTree(s: Sequence)
    ensures Write(Collection(GameTree(s, []), [])) == "(" + SequenceText(s) + ")"
  {
    assert TreeTexts([]) == [];
  }

  /** The writer's text of the record. The record is a parameter rather than
      the constant itself so that the solver unfolds the writer on it only as
      far as the lemmas above say. */
  lemma InfoBrackets()
    ensures "(" + ";GM[1]FF[4];B[pd]" + ")" == "(;GM[1]FF[4];B[pd])"
  {
  }

  lemma {:induction false} GameInfoText(c: Collection)
    requires c == GameInfo
    ensures Write(c) == "(;GM[1]FF[4];B[pd])"
  {
    OneTree(c.head.head);
    GameSequenceText();
    InfoBrackets();
  }

  /** The writer's text of that record parses back to it. */
  lemma GameInfoRecord()
    ensures Parse("(;GM[1]FF[4];B[pd])") == Ok(GameInfo)
  {
    GameInfoText(GameInfo);
    ParseWrite(GameInfo);
  }

  // ---------------------------------------------------------------------
  // One document for each outcome of parse

  /** The smallest game record, after leading whitespace. */
  lemma SmallestRecord()
    ensures Parse(" \n(;)") == Ok(Collection(Leaf, []))
  {
  }

  lemma EmptyText()
    ensures Parse("") == Err(ExpectedOpenParen)
  {
  }

  lemma MissingCloseParen()
    ensures Parse("(;") == Err(ExpectedCloseParen)
  {
  }

  lemma MissingValue()
    ensures Parse("(;B)") == Err(ExpectedOpenBracket)
  {
  }

  lemma UnterminatedValue()
    ensures Parse("(;B[a") == Err(ExpectedCloseBracket)
  {
  }

  /** Whitespace is not skipped after '(' ... */
  lemma SpaceAfterOpenParen()
    ensures Parse("( ;)") == Err(ExpectedSemicolon)
  {
  }

  /** ... nor after ';' before the first property, which is then never
      reached: the tree lacks its ')'. */
  lemma SpaceAfterSemicolon()
    ensures Parse("(; B)") == Err(ExpectedCloseParen)
  {
  }

  /** The space after that ';' is skipped once the node is done, so a second
      ';' after it starts the next node. */
  lemma SpaceBetweenNodes()
    ensures Parse("(; ;)") == Ok(Collection(GameTree(Sequence(Node([]), [Node([])]), []), []))
  {
    var text := "(; ;)";
    var s := Sequence(Node([]), [Node([])]);
    PropertyListStop(text, 2);
    NodeStep(text, 1, [], 2);
    assert SkipWs(text, 2) == 3;
    PropertyListStop(text, 4);
    NodeStep(text, 3, [], 4);
    NodeListStop(text, 4);
    NodeListMore(text, 3, Node([]), 4);
    PrefixDone([Node([])], 4);
    SequenceStep(text, 1, Node([]), 3, [Node([])], 4);
    GameTreeListStop(text, 4);
    GameTreeStep(text, 0, s, 4, [], 4);
    assert SkipWs(text, 0) == 0 && SkipWs(text, 5) == 5;
    CollectionTailStop(text, 5);
    CollectionStep(text, GameTree(s, []), 5, [], 5);
  }

  /** Whitespace after the last tree is skipped before the top-level loop
      looks at what follows. */
  lemma TrailingWhitespace()
    ensures Parse("(;) \n") == Ok(Collection(Leaf, []))
  {
  }

  /** Only capital letters start a property. */
  lemma LowerCaseIdent()
    ensures Parse("(;b)") == Err(ExpectedCloseParen)
  {
  }

  /** Text after the last tree is rejected ... */
  lemma TrailingText()
    ensures Parse("(;)x") == Err(ExpectedOpenParen)
  {
  }

  /** ... unless a NUL character comes first. */
  lemma TrailingAfterNul()
    ensures Parse("(;)\0x") == Ok(Collection(Leaf, []))
  {
  }
}
