/** Facts about parts of sequences, each proved element by element. */
module Slices {

  lemma SliceOfSlice<T>(s: seq<T>, a: nat, b: nat, c: nat, d: nat)
    requires a <= b <= |s| && c <= d <= b - a
    ensures s[a..b][c..d] == s[a + c..a + d]
  {
    var u, v := s[a..b][c..d], s[a + c..a + d];
    forall k | 0 <= k < |u| ensures u[k] == v[k] {
      assert s[a..b][c + k] == s[a + c + k];
    }
  }

  lemma SliceOfHead<T>(s: seq<T>, b: nat, c: nat, d: nat)
    requires c <= d <= b <= |s|
    ensures s[..b][c..d] == s[c..d]
  {
    var u, v := s[..b][c..d], s[c..d];
    forall k | 0 <= k < |u| ensures u[k] == v[k] {
      assert s[..b][c + k] == s[c + k];
    }
  }

  lemma SliceOfTail<T>(s: seq<T>, a: nat, c: nat, d: nat)
    requires a <= |s| && c <= d <= |s| - a
    ensures s[a..][c..d] == s[a + c..a + d]
  {
    var u, v := s[a..][c..d], s[a + c..a + d];
    forall k | 0 <= k < |u| ensures u[k] == v[k] {
      assert s[a..][c + k] == s[a + c + k];
    }
  }

  /** A front part and what follows it make up the whole. */
  lemma Parted<T>(s: seq<T>, a: nat, b: nat)
    requires a <= b <= |s|
    ensures s[..b] + s[b..] == s && s[a..b] + s[b..] == s[a..]
  {
  }

  lemma Associates<T>(a: seq<T>, b: seq<T>, c: seq<T>)
    ensures a + (b + c) == (a + b) + c
  {
  }
}
