/** One step of each grammar rule: what a rule yields once the rules it
    calls are known to succeed. Longer derivations (the round trip, the
    sample document) are chains of these steps. */
module SgfSteps {
  import opened SgfAst
  import opened SgfGrammar

  lemma {:induction false} ValueListMore(text: string, i: nat, v: string, j: nat)
    requires i <= |text| && PeekAt(text, i) == '['
    requires ParsePropValue(text, i) == Ok((v, j))
    ensures ValueList(text, i) == Prefix([v], ValueList(text, j))
  {
  }

  lemma {:induction false} ValueListStop(text: string, i: nat)
    requires i <= |text| && PeekAt(text, i) != '['
    ensures ValueList(text, i) == Ok(([], i))
  {
  }

  lemma {:induction false} PropertyStep(text: string, i: nat, id: string, j: nat, v: string, k: nat, vs: seq<string>, m: nat)
    requires i <= |text| && ParsePropIdent(text, i) == Ok((id, j)) && PeekAt(text, j) == '['
    requires ParsePropValue(text, j) == Ok((v, k)) && ValueList(text, k) == Ok((vs, m))
    ensures ParseProperty(text, i) == Ok((Property(id, v, vs), SkipWs(text, m)))
  {
  }

  lemma {:induction false} PropertyListMore(text: string, i: nat, p: Property, j: nat)
    requires i <= |text| && IsUpper(PeekAt(text, i))
    requires ParseProperty(text, i) == Ok((p, j))
    ensures PropertyList(text, i) == Prefix([p], PropertyList(text, j))
  {
  }

  lemma {:induction false} PropertyListStop(text: string, i: nat)
    requires i <= |text| && !IsUpper(PeekAt(text, i))
    ensures PropertyList(text, i) == Ok(([], i))
  {
  }

  lemma {:induction false} NodeStep(text: string, i: nat, ps: seq<Property>, j: nat)
    requires i <= |text| && PropertyList(text, Next(text, i)) == Ok((ps, j))
    ensures ParseNode(text, i) == Ok((Node(ps), SkipWs(text, j)))
  {
  }

  lemma {:induction false} NodeListMore(text: string, i: nat, n: Node, j: nat)
    requires i <= |text| && PeekAt(text, i) == ';'
    requires ParseNode(text, i) == Ok((n, j))
    ensures NodeList(text, i) == Prefix([n], NodeList(text, j))
  {
  }

  lemma {:induction false} NodeListStop(text: string, i: nat)
    requires i <= |text| && PeekAt(text, i) != ';'
    ensures NodeList(text, i) == Ok(([], i))
  {
  }

  lemma {:induction false} SequenceStep(text: string, i: nat, n: Node, j: nat, ns: seq<Node>, k: nat)
    requires i <= |text| && PeekAt(text, i) == ';'
    requires ParseNode(text, i) == Ok((n, j)) && NodeList(text, j) == Ok((ns, k))
    ensures ParseSequence(text, i) == Ok((Sequence(n, ns), SkipWs(text, k)))
  {
  }

  lemma {:induction false} GameTreeStep(text: string, i: nat, s: Sequence, j: nat, ts: seq<GameTree>, k: nat)
    requires i <= |text| && ParseSequence(text, Next(text, i)) == Ok((s, j))
    requires GameTreeList(text, j) == Ok((ts, k)) && PeekAt(text, k) == ')'
    ensures ParseGameTree(text, i) == Ok((GameTree(s, ts), SkipWs(text, k + 1)))
  {
  }

  lemma {:induction false} GameTreeListMore(text: string, i: nat, t: GameTree, j: nat)
    requires i <= |text| && PeekAt(text, i) == '('
    requires ParseGameTree(text, i) == Ok((t, j))
    ensures GameTreeList(text, i) == Prefix([t], GameTreeList(text, j))
  {
  }

  lemma {:induction false} GameTreeListStop(text: string, i: nat)
    requires i <= |text| && PeekAt(text, i) != '('
    ensures GameTreeList(text, i) == Ok(([], i))
  {
  }

  lemma {:induction false} CollectionTailMore(text: string, i: nat, t: GameTree, j: nat)
    requires i <= |text| && PeekAt(text, i) == '('
    requires ParseGameTree(text, i) == Ok((t, j))
    ensures CollectionTail(text, i) == Prefix([t], CollectionTail(text, j))
  {
  }

  lemma {:induction false} CollectionTailStop(text: string, i: nat)
    requires i <= |text| && PeekAt(text, i) == NUL
    ensures CollectionTail(text, i) == Ok(([], i))
  {
  }

  lemma {:induction false} CollectionStep(text: string, t: GameTree, j: nat, ts: seq<GameTree>, k: nat)
    requires PeekAt(text, SkipWs(text, 0)) == '('
    requires ParseGameTree(text, SkipWs(text, 0)) == Ok((t, j))
    requires CollectionTail(text, j) == Ok((ts, k))
    ensures Parse(text) == Ok(Collection(t, ts))
  {
  }

  // ---------------------------------------------------------------------
  // List rules over consecutive items

  lemma {:induction false} ValueListFrom(text: string, vs: seq<string>, pos: seq<nat>, n: nat)
    requires |pos| == |vs| + 1 && n <= |vs| && pos[|vs|] <= |text|
    requires forall k :: n <= k < |vs| ==>
      pos[k] <= |text| && PeekAt(text, pos[k]) == '[' && ParsePropValue(text, pos[k]) == Ok((vs[k], pos[k + 1]))
    requires PeekAt(text, pos[|vs|]) != '['
    ensures ValueList(text, pos[n]) == Ok((vs[n..], pos[|vs|]))
    decreases |vs| - n
  {
    if n == |vs| {
      ValueListStop(text, pos[n]);
    } else {
      ValueListFrom(text, vs, pos, n + 1);
      ValueListMore(text, pos[n], vs[n], pos[n + 1]);
      assert [vs[n]] + vs[n + 1..] == vs[n..];
    }
  }

  lemma {:induction false} PropertyListFrom(text: string, ps: seq<Property>, pos: seq<nat>, n: nat)
    requires |pos| == |ps| + 1 && n <= |ps| && pos[|ps|] <= |text|
    requires forall k :: n <= k < |ps| ==>
      pos[k] <= |text| && IsUpper(PeekAt(text, pos[k])) && ParseProperty(text, pos[k]) == Ok((ps[k], pos[k + 1]))
    requires !IsUpper(PeekAt(text, pos[|ps|]))
    ensures PropertyList(text, pos[n]) == Ok((ps[n..], pos[|ps|]))
    decreases |ps| - n
  {
    if n == |ps| {
      PropertyListStop(text, pos[n]);
    } else {
      PropertyListFrom(text, ps, pos, n + 1);
      PropertyListMore(text, pos[n], ps[n], pos[n + 1]);
      assert [ps[n]] + ps[n + 1..] == ps[n..];
    }
  }

  lemma {:induction false} NodeListFrom(text: string, ns: seq<Node>, pos: seq<nat>, n: nat)
    requires |pos| == |ns| + 1 && n <= |ns| && pos[|ns|] <= |text|
    requires forall k :: n <= k < |ns| ==>
      pos[k] <= |text| && PeekAt(text, pos[k]) == ';' && ParseNode(text, pos[k]) == Ok((ns[k], pos[k + 1]))
    requires PeekAt(text, pos[|ns|]) != ';'
    ensures NodeList(text, pos[n]) == Ok((ns[n..], pos[|ns|]))
    decreases |ns| - n
  {
    if n == |ns| {
      NodeListStop(text, pos[n]);
    } else {
      NodeListFrom(text, ns, pos, n + 1);
      NodeListMore(text, pos[n], ns[n], pos[n + 1]);
      assert [ns[n]] + ns[n + 1..] == ns[n..];
    }
  }

  lemma {:induction false} GameTreeListFrom(text: string, ts: seq<GameTree>, pos: seq<nat>, n: nat)
    requires |pos| == |ts| + 1 && n <= |ts| && pos[|ts|] <= |text|
    requires forall k :: n <= k < |ts| ==>
      pos[k] <= |text| && PeekAt(text, pos[k]) == '(' && ParseGameTree(text, pos[k]) == Ok((ts[k], pos[k + 1]))
    requires PeekAt(text, pos[|ts|]) != '('
    ensures GameTreeList(text, pos[n]) == Ok((ts[n..], pos[|ts|]))
    decreases |ts| - n
  {
    if n == |ts| {
      GameTreeListStop(text, pos[n]);
    } else {
      GameTreeListFrom(text, ts, pos, n + 1);
      GameTreeListMore(text, pos[n], ts[n], pos[n + 1]);
      assert [ts[n]] + ts[n + 1..] == ts[n..];
    }
  }

  lemma {:induction false} CollectionTailFrom(text: string, ts: seq<GameTree>, pos: seq<nat>, n: nat)
    requires |pos| == |ts| + 1 && n <= |ts| && pos[|ts|] <= |text|
    requires forall k :: n <= k < |ts| ==>
      pos[k] <= |text| && PeekAt(text, pos[k]) == '(' && ParseGameTree(text, pos[k]) == Ok((ts[k], pos[k + 1]))
    requires PeekAt(text, pos[|ts|]) == NUL
    ensures CollectionTail(text, pos[n]) == Ok((ts[n..], pos[|ts|]))
    decreases |ts| - n
  {
    if n == |ts| {
      CollectionTailStop(text, pos[n]);
    } else {
      CollectionTailFrom(text, ts, pos, n + 1);
      CollectionTailMore(text, pos[n], ts[n], pos[n + 1]);
      assert [ts[n]] + ts[n + 1..] == ts[n..];
    }
  }

  // ---------------------------------------------------------------------
  // Failure steps: an error of a rule a rule calls is returned unchanged

  lemma PropertyFails(text: string, i: nat)
    requires i <= |text|
    ensures ParsePropIdent(text, i).Err? ==> ParseProperty(text, i) == Err(ParsePropIdent(text, i).error)
    ensures ParsePropIdent(text, i).Ok? ==> var j := ParsePropIdent(text, i).value.1;
      && (PeekAt(text, j) != '[' ==> ParseProperty(text, i) == Err(ExpectedOpenBracket))
      && (PeekAt(text, j) == '[' && ParsePropValue(text, j).Err? ==>
            ParseProperty(text, i) == Err(ParsePropValue(text, j).error))
      && (PeekAt(text, j) == '[' && ParsePropValue(text, j).Ok? && ValueList(text, ParsePropValue(text, j).value.1).Err? ==>
            ParseProperty(text, i) == Err(ValueList(text, ParsePropValue(text, j).value.1).error))
  {
  }

  lemma NodeFails(text: string, i: nat)
    requires i <= |text|
    ensures PropertyList(text, Next(text, i)).Err? ==> ParseNode(text, i) == Err(PropertyList(text, Next(text, i)).error)
  {
  }

  lemma SequenceFails(text: string, i: nat)
    requires i <= |text| && PeekAt(text, i) == ';'
    ensures ParseNode(text, i).Err? ==> ParseSequence(text, i) == Err(ParseNode(text, i).error)
    ensures ParseNode(text, i).Ok? && NodeList(text, ParseNode(text, i).value.1).Err? ==>
      ParseSequence(text, i) == Err(NodeList(text, ParseNode(text, i).value.1).error)
  {
  }

  lemma GameTreeFails(text: string, i: nat)
    requires i <= |text|
    ensures ParseSequence(text, Next(text, i)).Err? ==> ParseGameTree(text, i) == Err(ParseSequence(text, Next(text, i)).error)
    ensures ParseSequence(text, Next(text, i)).Ok? ==> var j := ParseSequence(text, Next(text, i)).value.1;
      && (GameTreeList(text, j).Err? ==> ParseGameTree(text, i) == Err(GameTreeList(text, j).error))
      && (GameTreeList(text, j).Ok? && PeekAt(text, GameTreeList(text, j).value.1) != ')' ==>
            ParseGameTree(text, i) == Err(ExpectedCloseParen))
  {
  }

  lemma CollectionFails(text: string)
    ensures var i0 := SkipWs(text, 0);
      PeekAt(text, i0) == '(' && ParseGameTree(text, i0).Err? ==> Parse(text) == Err(ParseGameTree(text, i0).error)
    ensures var i0 := SkipWs(text, 0);
      PeekAt(text, i0) == '(' && ParseGameTree(text, i0).Ok? && CollectionTail(text, ParseGameTree(text, i0).value.1).Err? ==>
        Parse(text) == Err(CollectionTail(text, ParseGameTree(text, i0).value.1).error)
  {
  }
}
