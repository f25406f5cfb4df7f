/** Properties of the SGF grammar functions (and so of the Parser methods
    proved equal to them): whitespace skipping, escape decoding, progress and
    the error cases of the rules. */
module SgfProperties {
  import opened SgfAst
  import opened SgfGrammar
  import opened SgfSteps

  // ---------------------------------------------------------------------
  // Whitespace

  /** Skipping whitespace twice is skipping it once. */
  lemma SkipWsIdempotent(text: string, i: nat)
    requires i <= |text|
    ensures SkipWs(text, SkipWs(text, i)) == SkipWs(text, i)
  {
  }

  /** SkipWs consumes nothing but whitespace. */
  lemma {:induction false} SkipWsWhitespace(text: string, i: nat)
    requires i <= |text|
    ensures forall k :: i <= k < SkipWs(text, i) ==> IsWhitespace(text[k])
    decreases |text| - i
  {
    if IsWhitespace(PeekAt(text, i)) {
      SkipWsWhitespace(text, i + 1);
    }
  }

  /** SkipWs stops exactly at the end of the run of whitespace: with the
      contract of SkipWs this says it consumes those characters and no others. */
  lemma {:induction false} SkipWsSpan(text: string, i: nat, j: nat)
    requires i <= j <= |text|
    requires forall k :: i <= k < j ==> IsWhitespace(text[k])
    requires !IsWhitespace(PeekAt(text, j))
    ensures SkipWs(text, i) == j
    decreases j - i
  {
    if i < j {
      SkipWsSpan(text, i + 1, j);
    }
  }

  // ---------------------------------------------------------------------
  // Escape decoding

  /** A rule's result with every position moved n characters on. */
  function Shift<T>(r: Result<(T, nat)>, n: nat): Result<(T, nat)>
  {
    match r
    case Ok((v, j)) => Ok((v, j + n))
    case Err(e) => Err(e)
  }

  lemma Assoc(a: string, b: string, c: string)
    ensures (a + b) + c == a + (b + c)
  {
  }

  lemma PrefixShift(a: string, b: string, r: Result<(string, nat)>, m: nat, n: nat)
    ensures Prefix(a, Shift(Shift(Prefix(b, r), m), n)) == Shift(Prefix(a + b, r), m + n)
  {
    match r
    case Ok((v, j)) => Assoc(a, b, v);
    case Err(_) =>
  }

  lemma PeekShift(pre: string, t: string, i: nat)
    ensures PeekAt(pre + t, |pre| + i) == PeekAt(t, i)
    ensures Next(pre + t, |pre| + i) == |pre| + Next(t, i)
  {
  }

  /** The value loop reads nothing before its start: text put in front of
      the value only moves the positions it reports. */
  lemma {:induction false} ValueBodyShift(pre: string, t: string, i: nat)
    requires i <= |t|
    ensures ValueBody(pre + t, |pre| + i) == Shift(ValueBody(t, i), |pre|)
    decreases |t| - i
  {
    PeekShift(pre, t, i);
    var p := PeekAt(t, i);
    if p == '\\' {
      PeekShift(pre, t, i + 1);
      ValueBodyShift(pre, t, Next(t, i + 1));
    } else if p != ']' && p != NUL {
      ValueBodyShift(pre, t, i + 1);
    }
  }

  /** One character as a writer would put it in a value: ']', '\' and NUL
      are preceded by a backslash. An unescaped NUL would end the value. */
  function EscapeChar(c: char): (e: string)
    ensures 1 <= |e| <= 2
  {
    if c == ']' || c == '\\' || c == NUL then ['\\', c] else [c]
  }

  /** Each character escaped in turn. Part of the specification only: the
      parser has no writer. */
  function Escape(s: string): (e: string)
    ensures |s| <= |e|
  {
    if s == [] then [] else EscapeChar(s[0]) + Escape(s[1..])
  }

  lemma EscapeCons(s: string, tail: string)
    requires s != []
    ensures Escape(s) + tail == EscapeChar(s[0]) + (Escape(s[1..]) + tail)
  {
    assert Escape(s) == EscapeChar(s[0]) + Escape(s[1..]);
    Assoc(EscapeChar(s[0]), Escape(s[1..]), tail);
  }

  /** The value loop reads an escaped character back as that character. */
  lemma EscapeCharStep(c: char, rest: string)
    ensures ValueBody(EscapeChar(c) + rest, 0) ==
      Prefix([c], ValueBody(EscapeChar(c) + rest, |EscapeChar(c)|))
  {
    var e := EscapeChar(c);
    assert (e + rest)[0] == e[0];
    if |e| == 2 {
      assert (e + rest)[1] == c;
    }
  }

  lemma EscapeDecodesStep(s: string, tail: string)
    requires s != []
    ensures ValueBody(Escape(s) + tail, 0) ==
      Prefix([s[0]], Shift(ValueBody(Escape(s[1..]) + tail, 0), |EscapeChar(s[0])|))
  {
    var e, rest := EscapeChar(s[0]), Escape(s[1..]) + tail;
    EscapeCons(s, tail);
    EscapeCharStep(s[0], rest);
    ValueBodyShift(e, rest, 0);
  }

  /** The value loop decodes an escaped string back to the string and then
      goes on with what follows it, as if the string had not been there. */
  lemma {:induction false} EscapeDecodes(s: string, tail: string)
    ensures ValueBody(Escape(s) + tail, 0) == Shift(Prefix(s, ValueBody(tail, 0)), |Escape(s)|)
    decreases s
  {
    if s == [] {
      assert Escape(s) + tail == tail;
      PrefixNil(ValueBody(tail, 0));
    } else {
      EscapeDecodesStep(s, tail);
      EscapeDecodes(s[1..], tail);
      PrefixShift([s[0]], s[1..], ValueBody(tail, 0), |Escape(s[1..])|, |EscapeChar(s[0])|);
      assert [s[0]] + s[1..] == s;
    }
  }

  /** The value loop decodes an escaped string and stops at the ']' after it. */
  lemma EscapedBody(s: string, rest: string)
    ensures ValueBody(Escape(s) + ("]" + rest), 0) == Ok((s, |Escape(s)| + 1))
  {
    EscapeDecodes(s, "]" + rest);
    assert ValueBody("]" + rest, 0) == Ok(([], 1));
    PrefixDone(s, 1);
  }

  lemma EscapedRegroup(e: string, rest: string)
    ensures "[" + e + "]" + rest == "[" + (e + ("]" + rest))
  {
    Assoc("[", e, "]");
    Assoc("[" + e, "]", rest);
    Assoc("[", e, "]" + rest);
  }

  /** parse_propvalue on '[' + Escape(s) + ']' yields s, whatever follows. */
  lemma PropValueEscaped(s: string, rest: string)
    ensures var text := "[" + Escape(s) + "]" + rest;
      ParsePropValue(text, 0) == Ok((s, SkipWs(text, |Escape(s)| + 2)))
  {
    EscapedRegroup(Escape(s), rest);
    ValueBodyShift("[", Escape(s) + ("]" + rest), 0);
    EscapedBody(s, rest);
  }

  /** Without its closing ']', an escaped string is the error "expected ']'". */
  lemma PropValueUnterminated(s: string)
    ensures ParsePropValue("[" + Escape(s), 0) == Err(ExpectedCloseBracket)
  {
    ValueBodyShift("[", Escape(s), 0);
    EscapeDecodes(s, []);
    assert Escape(s) + [] == Escape(s);
  }

  /** A backslash as the last character of the text reads NUL as the escaped
      character, without moving the cursor past the end; the value then fails
      for want of ']'. */
  lemma TrailingBackslash(text: string, i: nat)
    requires i + 1 == |text| && text[i] == '\\'
    ensures PeekAt(text, i + 1) == NUL && Next(text, i + 1) == |text|
    ensures ValueBody(text, i) == Err(ExpectedCloseBracket)
  {
  }

  /** So an escaped string followed by a lone backslash is "expected ']'". */
  lemma {:induction false} PropValueTrailingBackslash(s: string)
    ensures ParsePropValue("[" + (Escape(s) + "\\"), 0) == Err(ExpectedCloseBracket)
  {
    ValueBodyShift("[", Escape(s) + "\\", 0);
    EscapeDecodes(s, "\\");
    TrailingBackslash("\\", 0);
  }

  /** A literal NUL right after a backslash is not taken for the end of the
      text: it is the escaped character, and the value goes on after it. */
  lemma EscapedNul(text: string, i: nat)
    requires i + 1 < |text| && text[i] == '\\' && text[i + 1] == NUL
    ensures ValueBody(text, i) == Prefix([NUL], ValueBody(text, i + 2))
  {
  }

  // ---------------------------------------------------------------------
  // Plain values: no ']', no backslash, no NUL

  /** A string a writer would put in a value unchanged. */
  predicate Plain(s: string)
  {
    forall k :: 0 <= k < |s| ==> s[k] != ']' && s[k] != '\\' && s[k] != NUL
  }

  /** Escaping leaves a plain string as it is. */
  lemma {:induction false} EscapePlain(s: string)
    requires Plain(s)
    ensures Escape(s) == s
    decreases s
  {
    if s != [] {
      assert Plain(s[1..]) by {
        forall k | 0 <= k < |s[1..]| ensures s[1..][k] != ']' && s[1..][k] != '\\' && s[1..][k] != NUL {
          assert s[1..][k] == s[k + 1];
        }
      }
      EscapePlain(s[1..]);
      assert [s[0]] + s[1..] == s;
    }
  }

  /** Escaping works character by character. */
  lemma {:induction false} EscapeAppend(a: string, b: string)
    ensures Escape(a + b) == Escape(a) + Escape(b)
    decreases a
  {
    if a == [] {
      assert a + b == b;
    } else {
      assert (a + b)[0] == a[0];
      assert (a + b)[1..] == a[1..] + b;
      EscapeAppend(a[1..], b);
      Assoc(EscapeChar(a[0]), Escape(a[1..]), Escape(b));
    }
  }

  /** A plain value is read back verbatim, leading and trailing spaces
      included. */
  lemma PlainValue(s: string, rest: string)
    requires Plain(s)
    ensures var text := "[" + s + "]" + rest;
      ParsePropValue(text, 0) == Ok((s, SkipWs(text, |s| + 2)))
  {
    EscapePlain(s);
    PropValueEscaped(s, rest);
  }

  lemma EscapeBracket()
    ensures Escape("]") == "\\]"
  {
  }

  lemma BracketText(s: string, rest: string)
    ensures "[" + (s + "\\]") + "]" + rest == "[" + s + "\\]]" + rest
  {
    Assoc("[", s, "\\]");
    Assoc("[" + s, "\\]", "]");
    assert "\\]" + "]" == "\\]]";
  }

  /** A plain string followed by an escaped ']' is read back with a literal
      ']' at its end. */
  lemma EscapedBracketValue(s: string, rest: string)
    requires Plain(s)
    ensures var text := "[" + s + "\\]]" + rest;
      ParsePropValue(text, 0) == Ok((s + "]", SkipWs(text, |s| + 4)))
  {
    EscapePlain(s);
    EscapeBracket();
    EscapeAppend(s, "]");
    PropValueEscaped(s + "]", rest);
    BracketText(s, rest);
  }

  /** A run of n letters followed by a non-letter is what parse_propident's
      loop takes. */
  lemma {:induction false} UpperRunOver(text: string, i: nat, n: nat)
    requires i + n <= |text|
    requires forall k :: i <= k < i + n ==> IsUpper(text[k])
    requires !IsUpper(PeekAt(text, i + n))
    ensures UpperRun(text, i) == i + n
    decreases n
  {
    if n > 0 {
      assert IsUpper(text[i]);
      UpperRunOver(text, i + 1, n - 1);
    }
  }

  /** Where the parts of a one-valued property sit in its text. */
  lemma PlainText(id: string, s: string, rest: string)
    ensures (id + "[" + s + "]" + rest)[..|id|] == id
    ensures PeekAt(id + "[" + s + "]" + rest, |id|) == '['
    ensures PeekAt(id + "[" + s + "]" + rest, |id| + |s| + 2) == PeekAt(rest, 0)
  {
    Assoc(id, "[", s);
    Assoc(id + "[" + s, "]", rest);
    PlainRegroup(id, s, rest);
    PeekShift(id + "[" + s + "]", rest, 0);
  }

  /** The identifier of a one-valued property is read whole. */
  lemma PlainIdent(id: string, s: string, rest: string)
    requires IsIdent(id)
    ensures var text := id + "[" + s + "]" + rest;
      ParsePropIdent(text, 0) == Ok((id, |id|))
  {
    var text := id + "[" + s + "]" + rest;
    PlainText(id, s, rest);
    forall k | 0 <= k < |id| ensures IsUpper(text[k]) {
      assert text[k] == text[..|id|][k];
    }
    UpperRunOver(text, 0, |id|);
  }

  /** The value loop copies a plain string and stops at the ']' after it. */
  lemma PlainDecodes(s: string, tail: string)
    requires Plain(s)
    ensures ValueBody(s + ("]" + tail), 0) == Ok((s, |s| + 1))
  {
    EscapePlain(s);
    EscapeDecodes(s, "]" + tail);
    assert ValueBody("]" + tail, 0) == Ok(([], 1));
    PrefixDone(s, 1);
  }

  lemma PlainRegroup(id: string, s: string, rest: string)
    ensures id + "[" + s + "]" + rest == (id + "[") + (s + ("]" + rest))
  {
    Assoc(id + "[" , s, "]");
    Assoc(id + "[" + s, "]", rest);
    Assoc(s, "]", rest);
    Assoc(id + "[", s, "]" + rest);
  }

  /** The value of a one-valued property, read in place. */
  lemma PlainBody(id: string, s: string, rest: string)
    requires Plain(s)
    ensures ValueBody(id + "[" + s + "]" + rest, |id| + 1) == Ok((s, |id| + |s| + 2))
  {
    var pre := id + "[";
    var t := s + ("]" + rest);
    PlainRegroup(id, s, rest);
    ValueBodyShift(pre, t, 0);
    PlainDecodes(s, rest);
  }

  /** A property with one value free of ']', '\\' and NUL yields its
      identifier and that value verbatim, and ends in front of what follows. */
  lemma PlainProperty(id: string, s: string, rest: string)
    requires IsIdent(id) && Plain(s)
    requires PeekAt(rest, 0) != '[' && !IsWhitespace(PeekAt(rest, 0))
    ensures ParseProperty(id + "[" + s + "]" + rest, 0) == Ok((Property(id, s, []), |id| + |s| + 2))
  {
    var text := id + "[" + s + "]" + rest;
    var e := |id| + |s| + 2;
    PlainText(id, s, rest);
    PlainIdent(id, s, rest);
    PlainBody(id, s, rest);
    assert SkipWs(text, e) == e;
    assert ParsePropValue(text, |id|) == Ok((s, e));
    ValueListStop(text, e);
    PropertyStep(text, 0, id, |id|, s, e, [], e);
  }

  // ---------------------------------------------------------------------
  // Progress: nesting is bounded by the input

  /** The number of game trees in a tree, itself included. */
  function TreeCount(t: GameTree): nat
  {
    1 + TreeListCount(t.tail)
  }

  function TreeListCount(ts: seq<GameTree>): nat
  {
    if ts == [] then 0 else TreeCount(ts[0]) + TreeListCount(ts[1..])
  }

  /** Every game tree costs at least three characters ("(;" and ")"), so a
      parse can nest or repeat trees only as far as the input reaches. */
  lemma {:induction false} GameTreeConsumes(text: string, i: nat)
    requires i <= |text|
    ensures ParseGameTree(text, i).Ok? ==>
      var (t, j) := ParseGameTree(text, i).value; i + 3 * TreeCount(t) <= j
    decreases |text| - i, 1
  {
    if ParseGameTree(text, i).Ok? {
      var i1 := Next(text, i);
      var (s, j) := ParseSequence(text, i1).value;
      GameTreeListConsumes(text, j);
    }
  }

  lemma {:induction false} GameTreeListConsumes(text: string, i: nat)
    requires i <= |text|
    ensures GameTreeList(text, i).Ok? ==>
      var (ts, j) := GameTreeList(text, i).value; i + 3 * TreeListCount(ts) <= j
    decreases |text| - i, 2
  {
    if GameTreeList(text, i).Ok? && PeekAt(text, i) == '(' {
      GameTreeConsumes(text, i);
      var (t, j) := ParseGameTree(text, i).value;
      GameTreeListConsumes(text, j);
      var (ts, k) := GameTreeList(text, j).value;
      assert GameTreeList(text, i).value.0 == [t] + ts;
      assert ([t] + ts)[1..] == ts;
    }
  }

  // ---------------------------------------------------------------------
  // Shape of properties, nodes and sequences

  /** A letter run not followed by '[' (after whitespace) has no value. */
  lemma PropertyNeedsValue(text: string, i: nat)
    requires i <= |text|
    requires ParsePropIdent(text, i).Ok? && PeekAt(text, ParsePropIdent(text, i).value.1) != '['
    ensures ParseProperty(text, i) == Err(ExpectedOpenBracket)
  {
  }

  /** A node whose ';' is followed by anything but a letter has no properties. */
  lemma EmptyNode(text: string, i: nat)
    requires i <= |text|
    requires !IsUpper(PeekAt(text, Next(text, i)))
    ensures ParseNode(text, i) == Ok((Node([]), SkipWs(text, Next(text, i))))
  {
  }

  /** Whitespace right after '(' is not skipped: the sequence finds no ';'. */
  lemma NoWhitespaceAfterOpenParen(text: string, i: nat)
    requires i + 1 < |text| && IsWhitespace(text[i + 1])
    ensures ParseGameTree(text, i) == Err(ExpectedSemicolon)
  {
  }
}
