/** A writer for SGF documents. sgf.ts has no writer; this one is part of
    the specification: it puts no whitespace anywhere and puts a backslash
    before each ']', '\' and NUL inside a value. */
module SgfWriter {
  import opened SgfAst
  import opened SgfProperties
  import opened SgfLayout

  // ---------------------------------------------------------------------
  // The text of each unit

  function ValueText(v: string): string
  {
    "[" + (Escape(v) + "]")
  }

  /** The text of each value in turn. */
  function ValueTexts(vs: seq<string>): (ws: seq<string>)
    ensures |ws| == |vs| && forall k :: 0 <= k < |vs| ==> ws[k] == ValueText(vs[k])
  {
    seq(|vs|, k requires 0 <= k < |vs| => ValueText(vs[k]))
  }

  function ValuesText(vs: seq<string>): string
  {
    Concat(ValueTexts(vs))
  }

  function PropertyText(p: Property): string
  {
    p.propIdent + (ValueText(p.propValue) + ValuesText(p.propValues))
  }

  /** The text of each property in turn. */
  function PropertyTexts(ps: seq<Property>): (ws: seq<string>)
    ensures |ws| == |ps| && forall k :: 0 <= k < |ps| ==> ws[k] == PropertyText(ps[k])
  {
    seq(|ps|, k requires 0 <= k < |ps| => PropertyText(ps[k]))
  }

  function PropertiesText(ps: seq<Property>): string
  {
    Concat(PropertyTexts(ps))
  }

  function NodeText(n: Node): string
  {
    ";" + PropertiesText(n.properties)
  }

  /** The text of each node in turn. */
  function NodeTexts(ns: seq<Node>): (ws: seq<string>)
    ensures |ws| == |ns| && forall k :: 0 <= k < |ns| ==> ws[k] == NodeText(ns[k])
  {
    seq(|ns|, k requires 0 <= k < |ns| => NodeText(ns[k]))
  }

  function NodesText(ns: seq<Node>): string
  {
    Concat(NodeTexts(ns))
  }

  function SequenceText(s: Sequence): string
  {
    NodeText(s.head) + NodesText(s.tail)
  }

  function TreeText(t: GameTree): string
    decreases t
  {
    "(" + (SequenceText(t.head) + (TreesText(t.tail) + ")"))
  }

  /** The text of each tree in turn. */
  function TreeTexts(ts: seq<GameTree>): (ws: seq<string>)
    ensures |ws| == |ts| && forall k :: 0 <= k < |ts| ==> ws[k] == TreeText(ts[k])
    decreases ts, 0
  {
    seq(|ts|, k requires 0 <= k < |ts| => TreeText(ts[k]))
  }

  function TreesText(ts: seq<GameTree>): string
    decreases ts, 1
  {
    Concat(TreeTexts(ts))
  }

  /** The document as the writer puts it. */
  function Write(c: Collection): string
  {
    TreeText(c.head) + TreesText(c.tail)
  }

  // ---------------------------------------------------------------------
  // Documents the parser reads back

  /** Identifiers are non-empty runs of capital letters, the only identifiers
      the parser reads. Values are unrestricted: the writer escapes every
      character that would end one. */
  predicate PropertyOk(p: Property)
  {
    IsIdent(p.propIdent)
  }

  predicate NodeOk(n: Node)
  {
    forall k :: 0 <= k < |n.properties| ==> PropertyOk(n.properties[k])
  }

  predicate SequenceOk(s: Sequence)
  {
    NodeOk(s.head) && forall k :: 0 <= k < |s.tail| ==> NodeOk(s.tail[k])
  }

  predicate TreeOk(t: GameTree)
  {
    SequenceOk(t.head) && forall k :: 0 <= k < |t.tail| ==> TreeOk(t.tail[k])
  }

  predicate Writable(c: Collection)
  {
    TreeOk(c.head) && forall k :: 0 <= k < |c.tail| ==> TreeOk(c.tail[k])
  }

  // ---------------------------------------------------------------------
  // Texts as pieces

  /** `w` is the text of `v`. Each `...Written` predicate is stated for every
      unit equal to the given one, so that the solver unfolds the text only in
      a lemma that names it; the other lemmas work on the pieces. */
  predicate ValueWritten(v: string, w: string)
  {
    forall u: string :: u == v ==> w == ValueText(u)
  }

  predicate PropertyWritten(p: Property, w: string)
  {
    forall q: Property :: q == p ==> w == PropertyText(q)
  }

  predicate NodeWritten(n: Node, w: string)
  {
    forall m: Node :: m == n ==> w == NodeText(m)
  }

  predicate SeqWritten(s: Sequence, w: string)
  {
    forall r: Sequence :: r == s ==> w == SequenceText(r)
  }

  predicate TreeWritten(t: GameTree, w: string)
  {
    forall u: GameTree :: u == t ==> w == TreeText(u)
  }

  /** `ws` holds the text of each item in turn. */
  predicate ValuesWritten(vs: seq<string>, ws: seq<string>)
  {
    |ws| == |vs| && forall k :: 0 <= k < |vs| ==> ValueWritten(vs[k], ws[k])
  }

  predicate PropertiesWritten(ps: seq<Property>, ws: seq<string>)
  {
    |ws| == |ps| && forall k :: 0 <= k < |ps| ==> PropertyWritten(ps[k], ws[k])
  }

  predicate NodesWritten(ns: seq<Node>, ws: seq<string>)
  {
    |ws| == |ns| && forall k :: 0 <= k < |ns| ==> NodeWritten(ns[k], ws[k])
  }

  predicate TreesWritten(ts: seq<GameTree>, ws: seq<string>)
  {
    |ws| == |ts| && forall k :: 0 <= k < |ts| ==> TreeWritten(ts[k], ws[k])
  }

  lemma {:induction false} ValueFirst(v: string, w: string)
    requires ValueWritten(v, w)
    ensures |w| > 0 && w[0] == '['
  {
    assert w == ValueText(v);
  }

  lemma {:induction false} PropertyFirst(p: Property, w: string)
    requires IsIdent(p.propIdent) && PropertyWritten(p, w)
    ensures |w| > 0 && IsUpper(w[0])
  {
    assert w == PropertyText(p);
  }

  lemma {:induction false} NodeFirst(n: Node, w: string)
    requires NodeWritten(n, w)
    ensures |w| > 0 && w[0] == ';'
  {
    assert w == NodeText(n);
  }

  lemma {:induction false} TreeFirst(t: GameTree, w: string)
    requires TreeWritten(t, w)
    ensures |w| > 0 && w[0] == '('
  {
    assert w == TreeText(t);
  }

  lemma {:induction false} PropertyParts(p: Property, w: string)
    requires PropertyWritten(p, w)
    ensures exists vw: string, vws: seq<string> ::
      ValueWritten(p.propValue, vw) && ValuesWritten(p.propValues, vws) && w == p.propIdent + (vw + Concat(vws))
  {
    assert w == PropertyText(p);
    var vws := ValueTexts(p.propValues);
    forall k | 0 <= k < |vws| ensures ValueWritten(p.propValues[k], vws[k]) {
    }
    assert ValueWritten(p.propValue, ValueText(p.propValue)) && ValuesWritten(p.propValues, vws);
  }

  lemma {:induction false} NodeParts(n: Node, w: string)
    requires NodeWritten(n, w)
    ensures exists pws: seq<string> :: PropertiesWritten(n.properties, pws) && w == ";" + Concat(pws)
  {
    assert w == NodeText(n);
    var pws := PropertyTexts(n.properties);
    forall k | 0 <= k < |pws| ensures PropertyWritten(n.properties[k], pws[k]) {
    }
    assert PropertiesWritten(n.properties, pws);
  }

  lemma {:induction false} SeqParts(s: Sequence, w: string)
    requires SeqWritten(s, w)
    ensures exists hw: string, nws: seq<string> :: NodeWritten(s.head, hw) && NodesWritten(s.tail, nws) && w == hw + Concat(nws)
  {
    assert w == SequenceText(s);
    var nws := NodeTexts(s.tail);
    forall k | 0 <= k < |nws| ensures NodeWritten(s.tail[k], nws[k]) {
    }
    assert NodeWritten(s.head, NodeText(s.head)) && NodesWritten(s.tail, nws);
  }

  lemma {:induction false} TreeParts(t: GameTree, w: string)
    requires TreeWritten(t, w)
    ensures exists sw: string, tws: seq<string> ::
      SeqWritten(t.head, sw) && TreesWritten(t.tail, tws) && w == "(" + (sw + (Concat(tws) + ")"))
  {
    assert w == TreeText(t);
    var tws := TreeTexts(t.tail);
    forall k | 0 <= k < |tws| ensures TreeWritten(t.tail[k], tws[k]) {
    }
    assert TreesText(t.tail) == Concat(tws);
    assert SeqWritten(t.head, SequenceText(t.head)) && TreesWritten(t.tail, tws);
  }

  lemma {:induction false} WriteParts(c: Collection)
    ensures exists hw: string, tws: seq<string> :: TreeWritten(c.head, hw) && TreesWritten(c.tail, tws) && Write(c) == hw + Concat(tws)
  {
    var tws := TreeTexts(c.tail);
    forall k | 0 <= k < |tws| ensures TreeWritten(c.tail[k], tws[k]) {
    }
    assert TreeWritten(c.head, TreeText(c.head)) && TreesWritten(c.tail, tws);
  }
}
