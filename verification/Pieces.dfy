/** A string handed over in pieces. */
module Pieces {

  function Concat<T>(pieces: seq<seq<T>>): seq<T> {
    if pieces == [] then [] else Concat(pieces[..|pieces| - 1]) + pieces[|pieces| - 1]
  }

  lemma ConcatNext<T>(pieces: seq<seq<T>>, i: nat)
    requires i < |pieces|
    ensures Concat(pieces[..i + 1]) == Concat(pieces[..i]) + pieces[i]
    ensures Concat(pieces[..0]) == []
  {
    assert pieces[..i + 1][..i] == pieces[..i];
  }

  lemma {:induction false} ConcatMonotone<T>(pieces: seq<seq<T>>, i: nat)
    requires i <= |pieces|
    ensures |Concat(pieces[..i])| <= |Concat(pieces)|
    decreases |pieces| - i
  {
    if i == |pieces| {
      assert pieces[..i] == pieces;
    } else {
      ConcatNext(pieces, i);
      ConcatMonotone(pieces, i + 1);
    }
  }

  lemma ConcatSnoc<T>(pieces: seq<seq<T>>, piece: seq<T>)
    ensures Concat(pieces + [piece]) == Concat(pieces) + piece
    ensures Concat([piece]) == piece
  {
    assert (pieces + [piece])[..|pieces|] == pieces;
    assert [piece][..0] == [] && [] + piece == piece;
  }
}
