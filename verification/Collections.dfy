/** Sets and sequences in general. */
module Collections {

  lemma {:induction false} SubsetSize<T>(a: set<T>, b: set<T>)
    requires a <= b
    ensures |a| <= |b|
    decreases a
  {
    if a != {} {
      var x :| x in a;
      SubsetSize(a - {x}, b - {x});
    }
  }

  /** Pieces of a stream, put together. */
  function Joined<T>(pieces: seq<seq<T>>): seq<T> {
    if |pieces| == 0 then [] else pieces[0] + Joined(pieces[1..])
  }

  lemma {:induction false} JoinedLast<T>(pieces: seq<seq<T>>)
    requires |pieces| > 0
    ensures Joined(pieces) == Joined(pieces[..|pieces| - 1]) + pieces[|pieces| - 1]
    decreases |pieces|
  {
    var n := |pieces| - 1;
    if n == 0 {
      assert pieces[1..] == [];
    } else {
      assert pieces[1..][..n - 1] == pieces[..n][1..];
      JoinedLast(pieces[1..]);
    }
  }
}
