/** The round trip: the parser of sgf.ts reads back every document the
    writer writes. Each lemma works on the written pieces and the positions
    where they lie; the grammar side of each rule is put together from the
    step lemmas. */
module SgfReadBack {
  import opened SgfAst
  import opened SgfGrammar
  import opened SgfSteps
  import opened SgfProperties
  import opened SgfLayout
  import opened SgfWriter

  // ---------------------------------------------------------------------
  // What the rules read

  /** Parse reads the identifier `id` from `i` to `e`. Each `...Read` predicate is
      stated for every position equal to `i`, so that the solver unfolds the rule
      only where a lemma names it at that position. */
  predicate IdentRead(text: string, i: nat, id: string, e: nat)
  {
    forall p: nat :: p == i ==> p <= |text| && ParsePropIdent(text, p) == Ok((id, e))
  }

  predicate ValueRead(text: string, i: nat, v: string, e: nat)
  {
    forall p: nat :: p == i ==> p <= |text| && ParsePropValue(text, p) == Ok((v, e))
  }

  predicate ValuesRead(text: string, i: nat, vs: seq<string>, e: nat)
  {
    forall p: nat :: p == i ==> p <= |text| && ValueList(text, p) == Ok((vs, e))
  }

  predicate PropertyRead(text: string, i: nat, pr: Property, e: nat)
  {
    forall p: nat :: p == i ==> p <= |text| && ParseProperty(text, p) == Ok((pr, e))
  }

  predicate PropertiesRead(text: string, i: nat, ps: seq<Property>, e: nat)
  {
    forall p: nat :: p == i ==> p <= |text| && PropertyList(text, p) == Ok((ps, e))
  }

  predicate NodeRead(text: string, i: nat, n: Node, e: nat)
  {
    forall p: nat :: p == i ==> p <= |text| && ParseNode(text, p) == Ok((n, e))
  }

  predicate NodesRead(text: string, i: nat, ns: seq<Node>, e: nat)
  {
    forall p: nat :: p == i ==> p <= |text| && NodeList(text, p) == Ok((ns, e))
  }

  predicate SeqRead(text: string, i: nat, s: Sequence, e: nat)
  {
    forall p: nat :: p == i ==> p <= |text| && ParseSequence(text, p) == Ok((s, e))
  }

  predicate TreeRead(text: string, i: nat, t: GameTree, e: nat)
  {
    forall p: nat :: p == i ==> p <= |text| && ParseGameTree(text, p) == Ok((t, e))
  }

  /** The trees `ts` are read one after the other from `i` to `e`, starting at `pos`. */
  predicate TreesPlaced(text: string, ts: seq<GameTree>, pos: seq<nat>, i: nat, e: nat)
  {
    && |pos| == |ts| + 1 && pos[0] == i && pos[|ts|] == e
    && forall k :: 0 <= k < |ts| ==> PeekAt(text, pos[k]) == '(' && TreeRead(text, pos[k], ts[k], pos[k + 1])
  }

  // ---------------------------------------------------------------------
  // Values

  /** The text around a written value, regrouped as the value loop reads it. */
  lemma {:induction false} ValueSplice(text: string, i: nat, v: string)
    requires At(text, i, ValueText(v))
    ensures i + |ValueText(v)| <= |text|
    ensures text == text[..i + 1] + (Escape(v) + ("]" + text[i + |ValueText(v)|..]))
  {
    AtBound(text, i, ValueText(v));
    AtSplit(text, i, "[", Escape(v) + "]");
    AtSplice(text, i + 1, Escape(v) + "]");
    Assoc(Escape(v), "]", text[i + |ValueText(v)|..]);
  }

  /** The value loop decodes an escaped string after any text and stops
      just after the ']' that follows it. */
  lemma {:induction false} ValueBodyAfter(pre: string, s: string, rest: string)
    ensures ValueBody(pre + (Escape(s) + ("]" + rest)), |pre|) == Ok((s, |pre| + |Escape(s)| + 1))
  {
    ValueBodyShift(pre, Escape(s) + ("]" + rest), 0);
    EscapedBody(s, rest);
  }

  lemma {:induction false} ValueAt(text: string, i: nat, v: string, w: string, e: nat)
    requires ValueWritten(v, w) && At(text, i, w) && e == i + |w|
    requires !IsWhitespace(PeekAt(text, e))
    ensures ValueRead(text, i, v, e)
  {
    assert w == ValueText(v);
    ValueSplice(text, i, v);
    ValueBodyAfter(text[..i + 1], v, text[i + |ValueText(v)|..]);
    AtBound(text, i, ValueText(v));
    SkipWsSpan(text, i + |ValueText(v)|, i + |ValueText(v)|);
  }

  /** The value list reads the values parse reads one after the other. */
  lemma {:induction false} ValuesAssemble(text: string, vs: seq<string>, pos: seq<nat>, i: nat, e: nat)
    requires |pos| == |vs| + 1 && pos[0] == i && pos[|vs|] == e && e <= |text|
    requires forall k :: 0 <= k < |vs| ==> PeekAt(text, pos[k]) == '[' && ValueRead(text, pos[k], vs[k], pos[k + 1])
    requires PeekAt(text, e) != '['
    ensures ValuesRead(text, i, vs, e)
  {
    forall k | 0 <= k < |vs|
      ensures pos[k] <= |text| && PeekAt(text, pos[k]) == '[' && ParsePropValue(text, pos[k]) == Ok((vs[k], pos[k + 1]))
    {
      assert ValueRead(text, pos[k], vs[k], pos[k + 1]);
    }
    ValueListFrom(text, vs, pos, 0);
    assert vs[0..] == vs;
  }

  lemma {:induction false} ValuesAt(text: string, i: nat, vs: seq<string>, vws: seq<string>, e: nat)
    requires ValuesWritten(vs, vws) && At(text, i, Concat(vws)) && e == i + |Concat(vws)|
    requires PeekAt(text, e) != '[' && !IsWhitespace(PeekAt(text, e))
    ensures ValuesRead(text, i, vs, e)
  {
    ConcatAt(text, i, vws);
    var pos := Starts(i, vws);
    forall k | 0 <= k < |vs|
      ensures PeekAt(text, pos[k]) == '[' && ValueRead(text, pos[k], vs[k], pos[k + 1])
    {
      ValueFirst(vs[k], vws[k]);
      AtPeek(text, pos[k], vws[k], 0);
      if k + 1 < |vs| {
        ValueFirst(vs[k + 1], vws[k + 1]);
        AtPeek(text, pos[k + 1], vws[k + 1], 0);
      }
      ValueAt(text, pos[k], vs[k], vws[k], pos[k + 1]);
    }
    ValuesAssemble(text, vs, pos, i, e);
  }

  // ---------------------------------------------------------------------
  // Properties

  lemma {:induction false} IdentAt(text: string, i: nat, id: string)
    requires IsIdent(id) && At(text, i, id) && PeekAt(text, i + |id|) == '['
    ensures IdentRead(text, i, id, i + |id|)
  {
    AtBound(text, i, id);
    forall k | i <= k < i + |id| ensures IsUpper(text[k]) {
      AtPeek(text, i, id, k - i);
    }
    UpperRunOver(text, i, |id|);
    AtSlice(text, i, id);
    SkipWsSpan(text, i + |id|, i + |id|);
  }

  /** A property from the identifier and the values parse reads. */
  lemma {:induction false} PropertyAssemble(text: string, i: nat, p: Property, j: nat, k: nat, e: nat)
    requires IdentRead(text, i, p.propIdent, j) && PeekAt(text, j) == '['
    requires ValueRead(text, j, p.propValue, k) && ValuesRead(text, k, p.propValues, e)
    requires e <= |text| && !IsWhitespace(PeekAt(text, e))
    ensures PropertyRead(text, i, p, e)
  {
    assert ParsePropIdent(text, i) == Ok((p.propIdent, j));
    assert ParsePropValue(text, j) == Ok((p.propValue, k));
    assert ValueList(text, k) == Ok((p.propValues, e));
    PropertyStep(text, i, p.propIdent, j, p.propValue, k, p.propValues, e);
    SkipWsSpan(text, e, e);
  }

  lemma {:induction false} PropertyAt(text: string, i: nat, p: Property, w: string, e: nat)
    requires PropertyOk(p) && PropertyWritten(p, w) && At(text, i, w) && e == i + |w|
    requires PeekAt(text, e) != '[' && !IsWhitespace(PeekAt(text, e))
    ensures PropertyRead(text, i, p, e)
  {
    PropertyParts(p, w);
    var vw: string, vws: seq<string> :| ValueWritten(p.propValue, vw) && ValuesWritten(p.propValues, vws) && w == p.propIdent + (vw + Concat(vws));
    var j := i + |p.propIdent|;
    var k := j + |vw|;
    AtBound(text, i, w);
    AtSplit(text, i, p.propIdent, vw + Concat(vws));
    AtSplit(text, j, vw, Concat(vws));
    ValueFirst(p.propValue, vw);
    AtPeek(text, j, vw, 0);
    IdentAt(text, i, p.propIdent);
    if p.propValues != [] {
      ValueFirst(p.propValues[0], vws[0]);
      ConcatFirst(vws);
      AtPeek(text, k, Concat(vws), 0);
    }
    ValueAt(text, j, p.propValue, vw, k);
    ValuesAt(text, k, p.propValues, vws, e);
    PropertyAssemble(text, i, p, j, k, e);
  }

  /** The property list reads the properties parse reads one after the other. */
  lemma {:induction false} PropertiesAssemble(text: string, ps: seq<Property>, pos: seq<nat>, i: nat, e: nat)
    requires |pos| == |ps| + 1 && pos[0] == i && pos[|ps|] == e && e <= |text|
    requires forall k :: 0 <= k < |ps| ==> IsUpper(PeekAt(text, pos[k])) && PropertyRead(text, pos[k], ps[k], pos[k + 1])
    requires !IsUpper(PeekAt(text, e))
    ensures PropertiesRead(text, i, ps, e)
  {
    forall k | 0 <= k < |ps|
      ensures pos[k] <= |text| && IsUpper(PeekAt(text, pos[k])) && ParseProperty(text, pos[k]) == Ok((ps[k], pos[k + 1]))
    {
      assert PropertyRead(text, pos[k], ps[k], pos[k + 1]);
    }
    PropertyListFrom(text, ps, pos, 0);
    assert ps[0..] == ps;
  }

  lemma {:induction false} PropertiesAt(text: string, i: nat, ps: seq<Property>, pws: seq<string>, e: nat)
    requires forall k :: 0 <= k < |ps| ==> PropertyOk(ps[k])
    requires PropertiesWritten(ps, pws) && At(text, i, Concat(pws)) && e == i + |Concat(pws)|
    requires !IsUpper(PeekAt(text, e)) && PeekAt(text, e) != '[' && !IsWhitespace(PeekAt(text, e))
    ensures PropertiesRead(text, i, ps, e)
  {
    ConcatAt(text, i, pws);
    var pos := Starts(i, pws);
    forall k | 0 <= k < |ps|
      ensures IsUpper(PeekAt(text, pos[k])) && PropertyRead(text, pos[k], ps[k], pos[k + 1])
    {
      PropertyFirst(ps[k], pws[k]);
      AtPeek(text, pos[k], pws[k], 0);
      if k + 1 < |ps| {
        PropertyFirst(ps[k + 1], pws[k + 1]);
        AtPeek(text, pos[k + 1], pws[k + 1], 0);
      }
      PropertyAt(text, pos[k], ps[k], pws[k], pos[k + 1]);
    }
    PropertiesAssemble(text, ps, pos, i, e);
  }

  // ---------------------------------------------------------------------
  // Nodes and sequences

  /** A node from the properties parse reads after its ';'. */
  lemma {:induction false} NodeAssemble(text: string, i: nat, n: Node, e: nat)
    requires i < |text| && PropertiesRead(text, i + 1, n.properties, e)
    requires e <= |text| && !IsWhitespace(PeekAt(text, e))
    ensures NodeRead(text, i, n, e)
  {
    assert PropertyList(text, i + 1) == Ok((n.properties, e));
    NodeStep(text, i, n.properties, e);
    SkipWsSpan(text, e, e);
  }

  lemma {:induction false} NodeAt(text: string, i: nat, n: Node, w: string, e: nat)
    requires NodeOk(n) && NodeWritten(n, w) && At(text, i, w) && e == i + |w|
    requires !IsUpper(PeekAt(text, e)) && PeekAt(text, e) != '[' && !IsWhitespace(PeekAt(text, e))
    ensures NodeRead(text, i, n, e)
  {
    NodeParts(n, w);
    var pws: seq<string> :| PropertiesWritten(n.properties, pws) && w == ";" + Concat(pws);
    AtBound(text, i, w);
    AtSplit(text, i, ";", Concat(pws));
    PropertiesAt(text, i + 1, n.properties, pws, e);
    NodeAssemble(text, i, n, e);
  }

  /** The node list reads the nodes parse reads one after the other. */
  lemma {:induction false} NodesAssemble(text: string, ns: seq<Node>, pos: seq<nat>, i: nat, e: nat)
    requires |pos| == |ns| + 1 && pos[0] == i && pos[|ns|] == e && e <= |text|
    requires forall k :: 0 <= k < |ns| ==> PeekAt(text, pos[k]) == ';' && NodeRead(text, pos[k], ns[k], pos[k + 1])
    requires PeekAt(text, e) != ';'
    ensures NodesRead(text, i, ns, e)
  {
    forall k | 0 <= k < |ns|
      ensures pos[k] <= |text| && PeekAt(text, pos[k]) == ';' && ParseNode(text, pos[k]) == Ok((ns[k], pos[k + 1]))
    {
      assert NodeRead(text, pos[k], ns[k], pos[k + 1]);
    }
    NodeListFrom(text, ns, pos, 0);
    assert ns[0..] == ns;
  }

  lemma {:induction false} NodesAt(text: string, i: nat, ns: seq<Node>, nws: seq<string>, e: nat)
    requires forall k :: 0 <= k < |ns| ==> NodeOk(ns[k])
    requires NodesWritten(ns, nws) && At(text, i, Concat(nws)) && e == i + |Concat(nws)|
    requires var c := PeekAt(text, e); !IsUpper(c) && c != '[' && c != ';' && !IsWhitespace(c)
    ensures NodesRead(text, i, ns, e)
  {
    ConcatAt(text, i, nws);
    var pos := Starts(i, nws);
    forall k | 0 <= k < |ns|
      ensures PeekAt(text, pos[k]) == ';' && NodeRead(text, pos[k], ns[k], pos[k + 1])
    {
      NodeFirst(ns[k], nws[k]);
      AtPeek(text, pos[k], nws[k], 0);
      if k + 1 < |ns| {
        NodeFirst(ns[k + 1], nws[k + 1]);
        AtPeek(text, pos[k + 1], nws[k + 1], 0);
      }
      NodeAt(text, pos[k], ns[k], nws[k], pos[k + 1]);
    }
    NodesAssemble(text, ns, pos, i, e);
  }

  /** A sequence from the nodes parse reads. */
  lemma {:induction false} SequenceAssemble(text: string, i: nat, s: Sequence, j: nat, e: nat)
    requires PeekAt(text, i) == ';' && NodeRead(text, i, s.head, j) && NodesRead(text, j, s.tail, e)
    requires e <= |text| && !IsWhitespace(PeekAt(text, e))
    ensures SeqRead(text, i, s, e)
  {
    assert ParseNode(text, i) == Ok((s.head, j));
    assert NodeList(text, j) == Ok((s.tail, e));
    SequenceStep(text, i, s.head, j, s.tail, e);
    SkipWsSpan(text, e, e);
  }

  lemma {:induction false} SequenceAt(text: string, i: nat, s: Sequence, w: string, e: nat)
    requires SequenceOk(s) && SeqWritten(s, w) && At(text, i, w) && e == i + |w|
    requires var c := PeekAt(text, e); !IsUpper(c) && c != '[' && c != ';' && !IsWhitespace(c)
    ensures SeqRead(text, i, s, e)
  {
    SeqParts(s, w);
    var hw: string, nws: seq<string> :| NodeWritten(s.head, hw) && NodesWritten(s.tail, nws) && w == hw + Concat(nws);
    var j := i + |hw|;
    AtBound(text, i, w);
    AtSplit(text, i, hw, Concat(nws));
    if s.tail != [] {
      NodeFirst(s.tail[0], nws[0]);
      ConcatFirst(nws);
      AtPeek(text, j, Concat(nws), 0);
    }
    NodeAt(text, i, s.head, hw, j);
    NodesAt(text, j, s.tail, nws, e);
    NodeFirst(s.head, hw);
    AtPeek(text, i, hw, 0);
    SequenceAssemble(text, i, s, j, e);
  }

  // ---------------------------------------------------------------------
  // Game trees

  /** Where the parts of a tree's text lie, for any texts of its parts. */
  lemma {:induction false} TreeShape(text: string, i: nat, st: string, tt: string)
    requires At(text, i, "(" + (st + (tt + ")")))
    requires tt != [] ==> tt[0] == '('
    ensures var j := i + 1 + |st|; var k := j + |tt|;
      && i < |text| && Next(text, i) == i + 1
      && At(text, i + 1, st) && At(text, j, tt)
      && PeekAt(text, j) == (if tt == [] then ')' else '(')
      && k < |text| && PeekAt(text, k) == ')' && k + 1 == i + |"(" + (st + (tt + ")"))|
  {
    var j := i + 1 + |st|;
    AtSplit(text, i, "(", st + (tt + ")"));
    AtSplit(text, i + 1, st, tt + ")");
    AtSplit(text, j, tt, ")");
    AtPeek(text, j + |tt|, ")", 0);
    if tt != [] {
      AtPeek(text, j, tt, 0);
    }
  }

  /** A tree from its sequence and the trees after it, in grammar terms. */
  lemma {:induction false} TreeAssemble(text: string, i: nat, s: Sequence, ts: seq<GameTree>, pos: seq<nat>, e: nat)
    requires i <= |text| && Next(text, i) == i + 1
    requires |pos| == |ts| + 1 && ParseSequence(text, i + 1) == Ok((s, pos[0]))
    requires forall k :: 0 <= k < |ts| ==>
      pos[k] <= |text| && PeekAt(text, pos[k]) == '(' && ParseGameTree(text, pos[k]) == Ok((ts[k], pos[k + 1]))
    requires pos[|ts|] < |text| && PeekAt(text, pos[|ts|]) == ')'
    requires e == pos[|ts|] + 1 && !IsWhitespace(PeekAt(text, e))
    ensures ParseGameTree(text, i) == Ok((GameTree(s, ts), e))
  {
    GameTreeListFrom(text, ts, pos, 0);
    assert ts[0..] == ts;
    GameTreeStep(text, i, s, pos[0], ts, pos[|ts|]);
    SkipWsSpan(text, e, e);
  }

  /** A tree from the trees parse reads after its sequence. */
  lemma {:induction false} TreeAssembleRead(text: string, i: nat, t: GameTree, e: nat, j: nat, pos: seq<nat>)
    requires i < |text| && Next(text, i) == i + 1 && SeqRead(text, i + 1, t.head, j)
    requires |pos| == |t.tail| + 1 && TreesPlaced(text, t.tail, pos, j, pos[|t.tail|])
    requires pos[|t.tail|] < |text| && PeekAt(text, pos[|t.tail|]) == ')'
    requires e == pos[|t.tail|] + 1 && !IsWhitespace(PeekAt(text, e))
    ensures TreeRead(text, i, t, e)
  {
    forall k | 0 <= k < |t.tail|
      ensures pos[k] <= |text| && PeekAt(text, pos[k]) == '(' && ParseGameTree(text, pos[k]) == Ok((t.tail[k], pos[k + 1]))
    {
      assert TreeRead(text, pos[k], t.tail[k], pos[k + 1]);
    }
    assert ParseSequence(text, i + 1) == Ok((t.head, j));
    TreeAssemble(text, i, t.head, t.tail, pos, e);
  }

  lemma {:induction false} TreeAt(text: string, i: nat, t: GameTree, w: string, e: nat)
    requires TreeOk(t) && TreeWritten(t, w) && At(text, i, w) && e == i + |w| && !IsWhitespace(PeekAt(text, e))
    ensures TreeRead(text, i, t, e)
    decreases t, 1
  {
    TreeParts(t, w);
    var sw: string, tws: seq<string> :| SeqWritten(t.head, sw) && TreesWritten(t.tail, tws) && w == "(" + (sw + (Concat(tws) + ")"));
    if t.tail != [] {
      TreeFirst(t.tail[0], tws[0]);
      ConcatFirst(tws);
    }
    TreeShape(text, i, sw, Concat(tws));
    var j := i + 1 + |sw|;
    var m := j + |Concat(tws)|;
    SequenceAt(text, i + 1, t.head, sw, j);
    TreesAt(text, j, t.tail, tws, m, ')');
    var pos: seq<nat> :| TreesPlaced(text, t.tail, pos, j, m);
    TreeAssembleRead(text, i, t, e, j, pos);
  }

  lemma {:induction false} TreesAt(text: string, i: nat, ts: seq<GameTree>, tws: seq<string>, e: nat, close: char)
    requires (forall k :: 0 <= k < |ts| ==> TreeOk(ts[k])) && TreesWritten(ts, tws)
    requires At(text, i, Concat(tws)) && e == i + |Concat(tws)| && PeekAt(text, e) == close && !IsWhitespace(close)
    ensures exists pos: seq<nat> :: TreesPlaced(text, ts, pos, i, e)
    decreases ts, 0
  {
    ConcatAt(text, i, tws);
    var pos := Starts(i, tws);
    forall k | 0 <= k < |ts|
      ensures PeekAt(text, pos[k]) == '(' && TreeRead(text, pos[k], ts[k], pos[k + 1])
    {
      TreeFirst(ts[k], tws[k]);
      AtPeek(text, pos[k], tws[k], 0);
      if k + 1 < |ts| {
        TreeFirst(ts[k + 1], tws[k + 1]);
        AtPeek(text, pos[k + 1], tws[k + 1], 0);
      }
      TreeAt(text, pos[k], ts[k], tws[k], pos[k + 1]);
    }
    assert TreesPlaced(text, ts, pos, i, e);
  }

  // ---------------------------------------------------------------------
  // The whole document

  /** The collection from the trees parse reads, in grammar terms. */
  lemma {:induction false} CollectionAssemble(text: string, c: Collection, j: nat, pos: seq<nat>)
    requires PeekAt(text, 0) == '(' && SkipWs(text, 0) == 0 && TreeRead(text, 0, c.head, j)
    requires TreesPlaced(text, c.tail, pos, j, |text|)
    ensures Parse(text) == Ok(c)
  {
    forall k | 0 <= k < |c.tail|
      ensures pos[k] <= |text| && PeekAt(text, pos[k]) == '(' && ParseGameTree(text, pos[k]) == Ok((c.tail[k], pos[k + 1]))
    {
      assert TreeRead(text, pos[k], c.tail[k], pos[k + 1]);
    }
    assert ParseGameTree(text, 0) == Ok((c.head, j));
    CollectionTailFrom(text, c.tail, pos, 0);
    assert c.tail[0..] == c.tail;
    CollectionStep(text, c.head, j, c.tail, |text|);
  }

  /** Parse reads a collection from any text where its trees are written one
      after the other up to the end. */
  lemma {:induction false} ReadCollection(text: string, c: Collection, hw: string, tws: seq<string>)
    requires Writable(c) && TreeWritten(c.head, hw) && TreesWritten(c.tail, tws) && text == hw + Concat(tws)
    ensures Parse(text) == Ok(c)
  {
    PairAt(hw, Concat(tws));
    TreeFirst(c.head, hw);
    AtPeek(text, 0, hw, 0);
    SkipWsSpan(text, 0, 0);
    if c.tail != [] {
      TreeFirst(c.tail[0], tws[0]);
      ConcatFirst(tws);
      AtPeek(text, |hw|, Concat(tws), 0);
    }
    TreeAt(text, 0, c.head, hw, |hw|);
    TreesAt(text, |hw|, c.tail, tws, |text|, NUL);
    var pos: seq<nat> :| TreesPlaced(text, c.tail, pos, |hw|, |text|);
    CollectionAssemble(text, c, |hw|, pos);
  }

  /** The round trip: parse reads back every document the writer writes. */
  lemma {:induction false} ParseWrite(c: Collection)
    requires Writable(c)
    ensures Parse(Write(c)) == Ok(c)
  {
    WriteParts(c);
    var hw: string, tws: seq<string> :| TreeWritten(c.head, hw) && TreesWritten(c.tail, tws) && Write(c) == hw + Concat(tws);
    ReadCollection(Write(c), c, hw, tws);
  }
}
