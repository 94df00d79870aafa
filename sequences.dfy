/** Scans over sequences that the analyses share: positions matching a test, and how many there are. */
module Sequences {

  /** The ascending positions `j` with `lo <= j < hi` whose element satisfies `p`. */
  function Positions<T>(s: seq<T>, lo: nat, hi: nat, p: T -> bool): (r: seq<nat>)
    requires hi <= |s|
    ensures |r| <= if lo < hi then hi - lo else 0
    ensures forall k :: 0 <= k < |r| ==> lo <= r[k] < hi && p(s[r[k]])
    ensures forall k, m :: 0 <= k < m < |r| ==> r[k] < r[m]
    ensures forall j :: lo <= j < hi ==> (j in r <==> p(s[j]))
    decreases hi
  {
    if hi <= lo then []
    else Positions(s, lo, hi - 1, p) + (if p(s[hi - 1]) then [hi - 1] else [])
  }

  /** The number of positions of `s` whose element satisfies `p`. */
  function CountWhere<T>(s: seq<T>, p: T -> bool): nat {
    |set i | 0 <= i < |s| && p(s[i])|
  }

  /** Counting over a non-empty sequence is counting over all but its last element, plus that one. */
  lemma CountWhereSnoc<T>(s: seq<T>, p: T -> bool)
    requires s != []
    ensures CountWhere(s, p) == CountWhere(s[..|s| - 1], p) + if p(s[|s| - 1]) then 1 else 0
  {
    var n := |s| - 1;
    var before := set i | 0 <= i < n && p(s[..n][i]);
    assert before == set i | 0 <= i < n && p(s[i]) by {
      forall i | 0 <= i < n ensures s[..n][i] == s[i] {}
    }
    var after := set i | 0 <= i < |s| && p(s[i]);
    if p(s[n]) {
      assert after == before + {n};
    } else {
      assert after == before;
    }
  }

  /** The positions below `hi` depend only on the first `hi` elements. */
  lemma {:induction false} PositionsPrefix<T>(s: seq<T>, t: seq<T>, lo: nat, hi: nat, p: T -> bool)
    requires hi <= |s| && hi <= |t| && s[..hi] == t[..hi]
    ensures Positions(s, lo, hi, p) == Positions(t, lo, hi, p)
    decreases hi
  {
    if lo < hi {
      assert s[..hi - 1] == t[..hi - 1] by {
        assert s[..hi - 1] == s[..hi][..hi - 1];
        assert t[..hi - 1] == t[..hi][..hi - 1];
      }
      PositionsPrefix(s, t, lo, hi - 1, p);
      assert s[hi - 1] == s[..hi][hi - 1] == t[..hi][hi - 1] == t[hi - 1];
    }
  }

  /** The positions in a non-empty sequence are those in all but its last element, then the last if it matches. */
  lemma PositionsSnoc<T>(s: seq<T>, p: T -> bool)
    requires s != []
    ensures var n := |s| - 1;
      Positions(s, 0, |s|, p) == Positions(s[..n], 0, n, p) + (if p(s[n]) then [n] else [])
  {
    var n := |s| - 1;
    PositionsPrefix(s, s[..n], 0, n, p);
  }

  /** `out` lists `f` of the elements of `s` at the positions `ps`, in order. */
  ghost predicate ImageAt<T, U>(out: seq<U>, s: seq<T>, ps: seq<nat>, f: T -> U) {
    |out| == |ps| && forall k :: 0 <= k < |ps| ==> ps[k] < |s| && out[k] == f(s[ps[k]])
  }

  /** Extending a sequence keeps the image of the old positions, and may add its last element. */
  lemma ImageSnoc<T, U>(s: seq<T>, qs: seq<nat>, out: seq<U>, f: T -> U, keep: bool)
    requires s != []
    requires ImageAt(out, s[..|s| - 1], qs, f)
    ensures ImageAt(out + (if keep then [f(s[|s| - 1])] else []), s, qs + (if keep then [|s| - 1] else []), f)
  {
    var n := |s| - 1;
    forall k | 0 <= k < |qs| ensures s[qs[k]] == s[..n][qs[k]] {
    }
  }

  /** Without a matching element there is no position. */
  lemma {:induction false} PositionsNone<T>(s: seq<T>, lo: nat, hi: nat, p: T -> bool)
    requires hi <= |s|
    requires forall j :: lo <= j < hi ==> !p(s[j])
    ensures Positions(s, lo, hi, p) == []
    decreases hi
  {
    if lo < hi {
      PositionsNone(s, lo, hi - 1, p);
    }
  }
}
