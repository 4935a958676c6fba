/**
  Words in memory, and the byte-order conversion of common/swap.c: how a host of either
  byte order stores a word, what it reads of the bytes another host has stored, and arrays
  of words that are converted in place.
*/
module ByteOrder {
  import opened Util

  /*
    A word is an unsigned 32-bit value.  `Store` is the four bytes a host keeps it
    in, `Load` the value of four bytes; `Swap` is the host's ntohl, which is what
    swap_falls_noetig applies to every word (a no-op on a big-endian host).
  */

  type byte = x: int | 0 <= x < 256
  type word = x: int | 0 <= x < 0x1_0000_0000

  /** A word taken as a C int that counts: a negative one makes no turn of a loop. */
  function Turns(w: word): nat {
    if w < 0x8000_0000 then w else 0
  }

  datatype Endian = Big | Little

  /** 256^n. */
  function Power(n: nat): (p: nat)
    ensures p > 0
  {
    if n == 0 then 1 else 256 * Power(n - 1)
  }

  /** The number whose digits to base 256 are the first n of ds, the most significant first. */
  function Value(ds: seq<byte>, n: nat): (v: nat)
    requires n <= |ds|
    ensures v < Power(n)
    decreases |ds|, n
  {
    if n == 0 then 0 else 256 * Value(ds, n - 1) + ds[n - 1]
  }

  /** The lowest n digits of v. */
  function Digits(v: nat, n: nat): (ds: seq<byte>)
    ensures |ds| == n
    decreases v, n
  {
    if n == 0 then [] else Digits(v / 256, n - 1) + [v % 256]
  }

  lemma {:induction false} ValuePrefix(ds: seq<byte>, d: byte, n: nat)
    requires n <= |ds|
    ensures Value(ds + [d], n) == Value(ds, n)
  {
    if n > 0 {
      ValuePrefix(ds, d, n - 1);
    }
  }

  lemma {:induction false} ValueDigits(v: nat, n: nat)
    requires v < Power(n)
    ensures Value(Digits(v, n), n) == v
  {
    if n > 0 {
      ValueDigits(v / 256, n - 1);
      ValuePrefix(Digits(v / 256, n - 1), v % 256, n - 1);
    }
  }

  lemma {:induction false} DigitsValue(ds: seq<byte>, n: nat)
    requires n <= |ds|
    ensures Digits(Value(ds, n), n) == ds[..n]
  {
    if n > 0 {
      var upper, last: int := Value(ds, n - 1), ds[n - 1];
      DigitsValue(ds, n - 1);
      assert Value(ds, n) == 256 * upper + last;
      assert Value(ds, n) / 256 == upper && Value(ds, n) % 256 == last;
    }
  }

  lemma FourDigits(w: word)
    ensures Digits(w, 4) == [w / 256 / 256 / 256 % 256, w / 256 / 256 % 256, w / 256 % 256, w % 256]
  {
    assert Digits(w, 4) == Digits(w / 256 / 256, 2) + [w / 256 % 256] + [w % 256];
  }

  lemma FourValue(ds: seq<byte>)
    requires |ds| == 4
    ensures var b3: int, b2: int, b1: int, b0: int := ds[0], ds[1], ds[2], ds[3];
      Value(ds, 4) == ((b3 * 256 + b2) * 256 + b1) * 256 + b0
  {
    assert Value(ds, 3) == 256 * (256 * Value(ds, 1) + ds[1]) + ds[2];
  }

  /** Four bytes in the order of the other byte order. */
  function Mirror(bs: seq<byte>): (ms: seq<byte>)
    requires |bs| == 4
    ensures |ms| == 4 && ms[0] == bs[3] && ms[1] == bs[2] && ms[2] == bs[1] && ms[3] == bs[0]
  {
    [bs[3], bs[2], bs[1], bs[0]]
  }

  function Store(e: Endian, w: word): (bs: seq<byte>)
    ensures |bs| == 4
  {
    if e.Big? then Digits(w, 4) else Mirror(Digits(w, 4))
  }

  function Load(e: Endian, bs: seq<byte>): word
    requires |bs| == 4
  {
    assert Power(4) == 0x1_0000_0000;
    Value(if e.Big? then bs else Mirror(bs), 4)
  }

  /** Network order has the most significant byte first, the other order the least. */
  lemma StoreIs(w: word)
    ensures var b3, b2, b1, b0 := w / 0x100_0000, w / 0x1_0000 % 256, w / 256 % 256, w % 256;
      Store(Big, w) == [b3, b2, b1, b0] && Store(Little, w) == [b0, b1, b2, b3]
  {
    FourDigits(w);
    assert w / 256 / 256 == w / 0x1_0000 && w / 256 / 256 / 256 == w / 0x100_0000;
  }

  lemma MirrorMirror(bs: seq<byte>)
    requires |bs| == 4
    ensures Mirror(Mirror(bs)) == bs
  {
  }

  lemma LoadStore(e: Endian, w: word)
    ensures Load(e, Store(e, w)) == w
  {
    assert Power(4) == 0x1_0000_0000;
    ValueDigits(w, 4);
    MirrorMirror(Digits(w, 4));
  }

  lemma StoreLoad(e: Endian, bs: seq<byte>)
    requires |bs| == 4
    ensures Store(e, Load(e, bs)) == bs
  {
    DigitsValue(bs, 4);
    DigitsValue(Mirror(bs), 4);
    MirrorMirror(bs);
  }

  /** The other byte order's reading of the same bytes (SWAP_32, swap_int). */
  function Reversed(w: word): word {
    Load(Little, Store(Big, w))
  }

  /** ntohl on a host of byte order `e`: the word's bytes read in network order. */
  function Swap(e: Endian, w: word): word {
    Load(Big, Store(e, w))
  }

  /** After the conversion the host holds the word in network order. */
  lemma SwapStoresNetworkOrder(e: Endian, w: word)
    ensures Store(e, Swap(e, w)) == Store(Big, w)
  {
    hide Digits, Value, Mirror;
    StoreLoad(Big, Store(e, w));
    MirrorMirror(Digits(w, 4));
  }

  lemma SwapInvolution(e: Endian, w: word)
    ensures Swap(e, Swap(e, w)) == w
  {
    SwapStoresNetworkOrder(e, w);
    LoadStore(Big, w);
  }

  function SwapAll(e: Endian, ws: seq<word>): (r: seq<word>)
    ensures |r| == |ws| && forall i :: 0 <= i < |ws| ==> r[i] == Swap(e, ws[i])
  {
    seq(|ws|, i requires 0 <= i < |ws| => Swap(e, ws[i]))
  }

  lemma SwapAllInvolution(e: Endian, ws: seq<word>)
    ensures SwapAll(e, SwapAll(e, ws)) == ws
  {
    forall i | 0 <= i < |ws| ensures SwapAll(e, SwapAll(e, ws))[i] == ws[i] {
      SwapInvolution(e, ws[i]);
    }
  }

  /** Converts `len` words from `from` on in place. */
  method SwapInPlace(e: Endian, a: array<word>, from: nat, len: nat)
    requires from + len <= a.Length
    modifies a
    ensures a[..] == Splice(old(a[..]), from, SwapAll(e, old(a[from..from + len])))
  {
    var i := from;
    while i < from + len
      invariant from <= i <= from + len
      invariant forall k :: from <= k < i ==> a[k] == Swap(e, old(a[..])[k])
      invariant forall k :: 0 <= k < a.Length && !(from <= k < i) ==> a[k] == old(a[..])[k]
    {
      a[i] := Swap(e, a[i]);
      i := i + 1;
    }
  }

  /** The bytes a host holds for a list of words. */
  function Bytes(e: Endian, ws: seq<word>): (bs: seq<byte>)
    ensures |bs| == 4 * |ws|
  {
    if ws == [] then [] else Store(e, ws[0]) + Bytes(e, ws[1..])
  }

  /** The k-th word lies in the k-th four bytes. */
  lemma {:induction false} BytesAt(e: Endian, ws: seq<word>, k: nat)
    requires k < |ws|
    ensures Bytes(e, ws)[4 * k..4 * k + 4] == Store(e, ws[k])
  {
    hide Store;
    if k > 0 {
      BytesAt(e, ws[1..], k - 1);
    }
  }

  /** The words a host reads from its memory. */
  function Words(e: Endian, bs: seq<byte>): (ws: seq<word>)
    requires |bs| % 4 == 0
    ensures 4 * |ws| == |bs|
  {
    if bs == [] then [] else [Load(e, bs[..4])] + Words(e, bs[4..])
  }

  lemma {:induction false} WordsOfBytes(e: Endian, ws: seq<word>)
    ensures Words(e, Bytes(e, ws)) == ws
  {
    if ws != [] {
      WordsOfBytes(e, ws[1..]);
      LoadStore(e, ws[0]);
      assert Bytes(e, ws)[..4] == Store(e, ws[0]);
      assert Bytes(e, ws)[4..] == Bytes(e, ws[1..]);
    }
  }

  lemma {:induction false} BytesOfWords(e: Endian, bs: seq<byte>)
    requires |bs| % 4 == 0
    ensures Bytes(e, Words(e, bs)) == bs
  {
    if bs != [] {
      BytesOfWords(e, bs[4..]);
      StoreLoad(e, bs[..4]);
      assert Words(e, bs)[1..] == Words(e, bs[4..]);
    }
  }

  lemma {:induction false} BytesConcat(e: Endian, a: seq<word>, b: seq<word>)
    ensures Bytes(e, a + b) == Bytes(e, a) + Bytes(e, b)
  {
    hide Store;
    if a == [] {
      assert a + b == b;
    } else {
      var c := a + b;
      assert c[0] == a[0] && c[1..] == a[1..] + b;
      BytesConcat(e, a[1..], b);
      assert Bytes(e, c) == Store(e, a[0]) + (Bytes(e, a[1..]) + Bytes(e, b));
    }
  }

  /** Converted words lie in memory in network order, whatever the host. */
  lemma {:induction false} SwappedBytes(e: Endian, ws: seq<word>)
    ensures Bytes(e, SwapAll(e, ws)) == Bytes(Big, ws)
  {
    if ws != [] {
      SwapStoresNetworkOrder(e, ws[0]);
      SwappedBytes(e, ws[1..]);
      assert SwapAll(e, ws)[1..] == SwapAll(e, ws[1..]);
    }
  }

  lemma BytesInjective(e: Endian, a: seq<word>, b: seq<word>)
    requires Bytes(e, a) == Bytes(e, b)
    ensures a == b
  {
    WordsOfBytes(e, a);
    WordsOfBytes(e, b);
  }

  lemma {:induction false} WordsConcat(e: Endian, a: seq<byte>, b: seq<byte>)
    requires |a| % 4 == 0 && |b| % 4 == 0
    ensures Words(e, a + b) == Words(e, a) + Words(e, b)
  {
    BytesOfWords(e, a);
    BytesOfWords(e, b);
    BytesConcat(e, Words(e, a), Words(e, b));
    WordsOfBytes(e, Words(e, a) + Words(e, b));
  }

  /** Converting what the host reads in memory gives what is there in network order,
      and the other way round. */
  lemma SwapReads(e: Endian, ws: seq<word>)
    ensures SwapAll(e, ws) == Words(Big, Bytes(e, ws))
    ensures SwapAll(e, Words(Big, Bytes(e, ws))) == ws
  {
    hide Bytes, Words, Swap;
    var sent := Words(Big, Bytes(e, ws));
    BytesOfWords(Big, Bytes(e, ws));
    SwappedBytes(e, sent);
    BytesInjective(e, SwapAll(e, sent), ws);
    SwapAllInvolution(e, sent);
  }
}
