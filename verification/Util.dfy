/** Small helpers shared by the other modules. */
module Util {
  datatype Option<+T> = None | Some(value: T)

  function Min(a: int, b: int): (m: int)
    ensures m <= a && m <= b && (m == a || m == b)
  {
    if a < b then a else b
  }

  function One(b: bool): nat { if b then 1 else 0 }

  /** s without its first x. */
  function RemoveFirst<T(==)>(s: seq<T>, x: T): seq<T>
  {
    if s == [] then [] else if s[0] == x then s[1..] else [s[0]] + RemoveFirst(s[1..], x)
  }

  lemma {:induction false} RemoveNone<T>(s: seq<T>, x: T)
    requires x !in s
    ensures RemoveFirst<T>(s, x) == s
  {
    if s != [] {
      RemoveNone(s[1..], x);
    }
  }

  /** The concatenation of a list of lists. */
  function Flatten<T>(ss: seq<seq<T>>): seq<T>
  {
    if ss == [] then [] else ss[0] + Flatten(ss[1..])
  }

  lemma {:induction false} FlattenConcat<T>(a: seq<seq<T>>, b: seq<seq<T>>)
    ensures Flatten(a + b) == Flatten(a) + Flatten(b)
  {
    if a == [] {
      assert a + b == b;
    } else {
      var c := a + b;
      assert c[0] == a[0] && c[1..] == a[1..] + b;
      FlattenConcat(a[1..], b);
    }
  }

  lemma FlattenSnoc<T>(a: seq<seq<T>>, x: seq<T>)
    ensures Flatten(a + [x]) == Flatten(a) + x
  {
    FlattenConcat(a, [x]);
    assert Flatten([x]) == x + Flatten([]);
  }

  /** The bytes at `at` and after it replaced by `with`; the length is kept. */
  function Splice<T>(s: seq<T>, at: nat, with: seq<T>): (r: seq<T>)
    requires at + |with| <= |s|
    ensures |r| == |s|
    ensures r[..at] == s[..at] && r[at..at + |with|] == with && r[at + |with|..] == s[at + |with|..]
  {
    s[..at] + with + s[at + |with|..]
  }

  lemma SliceSlice<T>(s: seq<T>, at: nat, len: nat, i: nat, j: nat)
    requires at + len <= |s| && i <= j <= len
    ensures s[at..at + len][i..j] == s[at + i..at + j]
  {
    var x := s[at..at + len];
    forall k | i <= k < j ensures x[k] == s[at + k] {
    }
    assert x[i..j] == s[at + i..at + j];
  }
}
