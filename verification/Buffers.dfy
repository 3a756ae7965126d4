/** Overwriting a stretch of a buffer. */
module Buffers {

  function Splice<T>(s: seq<T>, at: nat, data: seq<T>): (r: seq<T>)
    requires at + |data| <= |s|
    ensures |r| == |s|
  {
    s[..at] + data + s[at + |data|..]
  }

  /** Writing one more element extends the spliced stretch by one. */
  lemma SpliceNext<T>(s: seq<T>, at: nat, data: seq<T>, x: T)
    requires at + |data| < |s|
    ensures Splice(s, at, data)[at + |data| := x] == Splice(s, at, data + [x])
  {}

  lemma PrefixNext<T>(s: seq<T>, k: nat)
    requires k < |s|
    ensures s[..k] + [s[k]] == s[..k + 1]
    ensures s[..k + 1][..k] == s[..k]
  {}

  lemma SpliceNothing<T>(s: seq<T>, at: nat)
    requires at <= |s|
    ensures Splice(s, at, []) == s
  {}

  lemma SpliceHolds<T>(s: seq<T>, at: nat, data: seq<T>)
    requires at + |data| <= |s|
    ensures Splice(s, at, data)[at..at + |data|] == data
  {}

  lemma SpliceElsewhere<T>(s: seq<T>, at: nat, data: seq<T>, i: nat)
    requires at + |data| <= |s| && i < |s| && !(at <= i < at + |data|)
    ensures Splice(s, at, data)[i] == s[i]
  {}

  lemma SpliceOutside<T>(s: seq<T>, at: nat, data: seq<T>, lo: nat, hi: nat)
    requires at + |data| <= |s| && lo <= at && at + |data| <= hi
    ensures SameOutside(s, Splice(s, at, data), lo, hi)
  {}

  ghost predicate SameOutside<T>(s: seq<T>, t: seq<T>, lo: int, hi: int) {
    |s| == |t| && forall i | 0 <= i < |s| && !(lo <= i < hi) :: s[i] == t[i]
  }

  lemma SameSlice<T>(s: seq<T>, t: seq<T>, lo: int, hi: int, from: nat, to: nat)
    requires SameOutside(s, t, lo, hi) && from <= to <= |s|
    requires to <= lo || hi <= from
    ensures s[from..to] == t[from..to]
  {}
}
