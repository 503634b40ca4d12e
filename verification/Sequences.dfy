/** Reversal of sequences. */
module Sequences {

  function Reverse<T>(s: seq<T>): seq<T> {
    if s == [] then [] else [s[|s| - 1]] + Reverse(s[..|s| - 1])
  }

  lemma {:induction false} ReverseLength<T>(s: seq<T>)
    ensures |Reverse(s)| == |s|
  {
    if s != [] { ReverseLength(s[..|s| - 1]); }
  }

  lemma {:induction false} ReverseAt<T>(s: seq<T>, k: nat)
    requires k < |s|
    ensures |Reverse(s)| == |s| && Reverse(s)[k] == s[|s| - 1 - k]
  {
    if k > 0 { ReverseAt(s[..|s| - 1], k - 1); } else { ReverseLength(s); }
  }

  lemma {:induction false} ReverseCons<T>(c: T, s: seq<T>)
    ensures Reverse([c] + s) == Reverse(s) + [c]
  {
    if s == [] {
      assert ([c] + s)[..0] == [];
    } else {
      var front := s[..|s| - 1];
      ReverseCons(c, front);
      assert ([c] + s)[..|s|] == [c] + front;
    }
  }

  lemma {:induction false} ReverseTwice<T>(s: seq<T>)
    ensures Reverse(Reverse(s)) == s
  {
    if s != [] {
      ReverseTwice(s[..|s| - 1]);
      ReverseCons(s[|s| - 1], Reverse(s[..|s| - 1]));
    }
  }
}
