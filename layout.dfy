/** Pieces of text at positions of a larger text, and strings written one
    after the other. */
module SgfLayout {
  import opened SgfGrammar

  // ---------------------------------------------------------------------
  // Pieces of text at a position

  /** `piece` occurs in `text` at position i. */
  predicate At(text: string, i: nat, piece: string)
    decreases piece
  {
    if piece == [] then i <= |text| else i < |text| && text[i] == piece[0] && At(text, i + 1, piece[1..])
  }

  lemma {:induction false} AtBound(text: string, i: nat, piece: string)
    requires At(text, i, piece)
    ensures i + |piece| <= |text|
    decreases piece
  {
    if piece != [] {
      AtBound(text, i + 1, piece[1..]);
    }
  }

  lemma {:induction false} AtPeek(text: string, i: nat, piece: string, k: nat)
    requires At(text, i, piece) && k < |piece|
    ensures PeekAt(text, i + k) == piece[k]
    decreases k
  {
    if k > 0 {
      AtPeek(text, i + 1, piece[1..], k - 1);
    }
  }

  lemma {:induction false} AtSplit(text: string, i: nat, x: string, y: string)
    requires At(text, i, x + y)
    ensures At(text, i, x) && At(text, i + |x|, y)
    decreases x
  {
    if x == [] {
      assert x + y == y;
      AtBound(text, i, y);
    } else {
      assert (x + y)[1..] == x[1..] + y;
      AtSplit(text, i + 1, x[1..], y);
    }
  }

  lemma {:induction false} AtSuffix(text: string, i: nat)
    requires i <= |text|
    ensures At(text, i, text[i..])
    decreases |text| - i
  {
    if i < |text| {
      assert text[i..][1..] == text[i + 1..];
      AtSuffix(text, i + 1);
    }
  }

  lemma {:induction false} AtWhole(text: string)
    ensures At(text, 0, text)
  {
    AtSuffix(text, 0);
    assert text[0..] == text;
  }

  lemma {:induction false} AtSlice(text: string, i: nat, piece: string)
    requires At(text, i, piece)
    ensures i + |piece| <= |text| && text[i..i + |piece|] == piece
  {
    AtBound(text, i, piece);
    forall k | 0 <= k < |piece| ensures text[i..i + |piece|][k] == piece[k] {
      AtPeek(text, i, piece, k);
    }
  }

  /** The text around a piece, written out. */
  lemma {:induction false} AtSplice(text: string, i: nat, piece: string)
    requires At(text, i, piece)
    ensures i + |piece| <= |text| && text == text[..i] + (piece + text[i + |piece|..])
  {
    AtSlice(text, i, piece);
    assert text == text[..i] + (text[i..i + |piece|] + text[i + |piece|..]);
  }

  lemma {:induction false} PairAt(x: string, y: string)
    ensures At(x + y, 0, x) && At(x + y, |x|, y) && |x + y| == |x| + |y|
  {
    AtWhole(x + y);
    AtSplit(x + y, 0, x, y);
  }

  // ---------------------------------------------------------------------
  // Strings one after the other

  /** The strings one after the other. */
  function Concat(ws: seq<string>): string
  {
    if ws == [] then "" else ws[0] + Concat(ws[1..])
  }

  lemma {:induction false} ConcatFirst(ws: seq<string>)
    requires ws != [] && |ws[0]| > 0
    ensures |Concat(ws)| > 0 && Concat(ws)[0] == ws[0][0]
  {
  }

  /** Where each of the strings starts, and where the last one ends. */
  function Starts(i: nat, ws: seq<string>): (pos: seq<nat>)
    ensures |pos| == |ws| + 1 && pos[0] == i && pos[|ws|] == i + |Concat(ws)|
    ensures forall k :: 0 <= k < |ws| ==> pos[k + 1] == pos[k] + |ws[k]|
    decreases ws
  {
    if ws == [] then [i] else [i] + Starts(i + |ws[0]|, ws[1..])
  }

  lemma {:induction false} ConcatAt(text: string, i: nat, ws: seq<string>)
    requires At(text, i, Concat(ws))
    ensures Starts(i, ws)[|ws|] <= |text|
    ensures forall k :: 0 <= k < |ws| ==> At(text, Starts(i, ws)[k], ws[k])
    decreases ws
  {
    AtBound(text, i, Concat(ws));
    if ws != [] {
      AtSplit(text, i, ws[0], Concat(ws[1..]));
      ConcatAt(text, i + |ws[0]|, ws[1..]);
      var pos := Starts(i, ws);
      var rest := Starts(i + |ws[0]|, ws[1..]);
      forall k | 0 <= k < |ws| ensures At(text, pos[k], ws[k]) {
        if k > 0 {
          assert pos[k] == rest[k - 1] && ws[k] == ws[1..][k - 1];
        }
      }
    }
  }
}
