/**
  XDR strings (common/xdrstring.c; section 4.11 of RFC 4506): a length word and the
  bytes in network order, padded with zeros to whole words.
*/
module Xdr {
  import opened Util
  import opened ByteOrder
  import Memory

  /*
    The routines copy with memcpy, mask the last word and convert in place, on hosts of
    either byte order.  A C string is a list of bytes without the terminating NUL.
  */

  function Zeros(n: nat): (z: seq<byte>)
    ensures |z| == n && forall i :: 0 <= i < n ==> z[i] == 0
  {
    seq(n, i => 0)
  }

  /** The words that hold n bytes. */
  function WordsFor(n: nat): nat {
    (n + 3) / 4
  }

  function Padded(s: seq<byte>): (p: seq<byte>)
    ensures |p| == 4 * WordsFor(|s|) && s <= p
  {
    s + Zeros(4 * WordsFor(|s|) - |s|)
  }

  function Encoded(s: seq<byte>): (x: seq<word>)
    requires |s| < 0x1_0000_0000
    ensures |x| == 1 + WordsFor(|s|) && x[0] == |s|
  {
    [|s|] + Words(Big, Padded(s))
  }

  /** The string at the front of these words; what follows its length is taken as is. */
  function Content(x: seq<word>): (s: seq<byte>)
    requires x != [] && 1 + WordsFor(x[0]) <= |x|
    ensures |s| == x[0]
  {
    Bytes(Big, x[1..1 + WordsFor(x[0])])[..x[0]]
  }

  /** The bytes behind the string in its last word. */
  function Padding(x: seq<word>): seq<byte>
    requires x != [] && 1 + WordsFor(x[0]) <= |x|
  {
    Bytes(Big, x[1..1 + WordsFor(x[0])])[x[0]..]
  }

  /** A string comes back from its encoding, whatever follows, and is padded with zeros. */
  lemma ContentOfEncoded(s: seq<byte>, rest: seq<word>)
    requires |s| < 0x1_0000_0000
    ensures var x := Encoded(s) + rest;
      Content(x) == s && forall b :: b in Padding(x) ==> b == 0
  {
    hide Words, Bytes;
    var x := Encoded(s) + rest;
    assert x[1..1 + WordsFor(x[0])] == Words(Big, Padded(s));
    BytesOfWords(Big, Padded(s));
  }

  /** Words with zero padding are the encoding of their content. */
  lemma EncodedOfContent(x: seq<word>)
    requires x != [] && |x| == 1 + WordsFor(x[0]) && forall b :: b in Padding(x) ==> b == 0
    ensures Encoded(Content(x)) == x
  {
    hide Words, Bytes;
    var bs := Bytes(Big, x[1..]);
    assert x[1..1 + WordsFor(x[0])] == x[1..];
    assert bs == bs[..x[0]] + bs[x[0]..];
    assert bs[x[0]..] == Padding(x);
    assert forall i :: 0 <= i < |Padding(x)| ==> Padding(x)[i] in Padding(x);
    assert bs[x[0]..] == Zeros(|bs| - x[0]);
    WordsOfBytes(Big, x[1..]);
    assert x == [x[0]] + x[1..];
  }

  /** The word with all but its first k bytes cleared (MASK0_23, MASK0_15, MASK0_7). */
  function KeepFirst(e: Endian, w: word, k: nat): word
    requires 1 <= k <= 3
  {
    var unit := if k == 1 then 0x100 else if k == 2 then 0x1_0000 else 0x100_0000;
    var upper := 0x1_0000_0000 / unit;
    if e.Big? then w - w % upper else w % unit
  }

  /** The lower digits of a number to base 256. */
  lemma LowDigits(w: word)
    ensures var b0, b1, b2, b3 := w % 256, w / 256 % 256, w / 256 / 256 % 256, w / 256 / 256 / 256 % 256;
      && w % 0x100 == b0 && w % 0x1_0000 == b1 * 256 + b0 && w % 0x100_0000 == (b2 * 256 + b1) * 256 + b0
      && w == ((b3 * 256 + b2) * 256 + b1) * 256 + b0
  {
    assert w / 256 / 256 == w / 0x1_0000;
    assert w / 256 / 256 / 256 == w / 0x100_0000;
  }

  lemma KeepFirstLoads(e: Endian, w: word, k: nat)
    requires 1 <= k <= 3
    ensures KeepFirst(e, w, k) == Load(e, Store(e, w)[..k] + Zeros(4 - k))
  {
    hide Digits, Value;
    LowDigits(w);
    FourDigits(w);
    var bs := Store(e, w)[..k] + Zeros(4 - k);
    FourValue(if e.Big? then bs else Mirror(bs));
  }

  lemma KeepFirstBytes(e: Endian, w: word, k: nat)
    requires 1 <= k <= 3
    ensures Store(e, KeepFirst(e, w, k)) == Store(e, w)[..k] + Zeros(4 - k)
  {
    hide Store, Load, KeepFirst;
    KeepFirstLoads(e, w, k);
    StoreLoad(e, Store(e, w)[..k] + Zeros(4 - k));
  }

  function Masked(e: Endian, ws: seq<word>, rest: nat): seq<word>
    requires rest < 4 && (rest > 0 ==> ws != [])
  {
    if rest == 0 then ws else ws[|ws| - 1 := KeepFirst(e, ws[|ws| - 1], rest)]
  }

  lemma MaskLast(e: Endian, front: seq<word>, last: word, u: seq<byte>, k: nat)
    requires 1 <= k <= 3 && |u| == 4 * |front| + k && Bytes(e, front + [last])[..|u|] == u
    ensures Bytes(e, front + [KeepFirst(e, last, k)]) == u + Zeros(4 - k)
  {
    hide Store, KeepFirst, Bytes;
    BytesConcat(e, front, [last]);
    BytesConcat(e, front, [KeepFirst(e, last, k)]);
    OneWord(e, last);
    OneWord(e, KeepFirst(e, last, k));
    KeepFirstBytes(e, last, k);
    assert u == Bytes(e, front) + Store(e, last)[..k];
  }

  /** The mask leaves the string and zeros. */
  lemma MaskedIsPadded(e: Endian, ws: seq<word>, u: seq<byte>)
    requires |ws| == WordsFor(|u|) && Bytes(e, ws)[..|u|] == u
    ensures Bytes(e, Masked(e, ws, |u| % 4)) == Padded(u)
  {
    hide Bytes, KeepFirst;
    if |u| % 4 == 0 {
      assert Bytes(e, ws) == u && Padded(u) == u;
    } else {
      var front, last := ws[..|ws| - 1], ws[|ws| - 1];
      assert ws == front + [last];
      MaskLast(e, front, last, u, |u| % 4);
      assert Masked(e, ws, |u| % 4) == front + [KeepFirst(e, last, |u| % 4)];
    }
  }

  lemma OneWord(e: Endian, w: word)
    ensures Bytes(e, [w]) == Store(e, w)
  {
    assert Bytes(e, [w]) == Store(e, w) + Bytes(e, []);
  }

  method Mask(e: Endian, mem: array<word>, ghost from: nat, to: nat, rest: nat)
    requires from <= to <= mem.Length && rest < 4 && (rest > 0 ==> from < to)
    modifies mem
    ensures mem[from..to] == Masked(e, old(mem[from..to]), rest)
    ensures mem[..from] == old(mem[..from]) && mem[to..] == old(mem[to..])
  {
    hide KeepFirst;
    if rest > 0 {
      mem[to - 1] := KeepFirst(e, mem[to - 1], rest);
    }
  }

  /** The mask and the conversion that end outstring and append_xdrstring: `u` has been
      copied to the words from `from` on. */
  method Finish(e: Endian, mem: array<word>, from: nat, to: nat, rest: nat, ghost u: seq<byte>)
    requires to == from + WordsFor(|u|) && to <= mem.Length && rest == |u| % 4
    requires Bytes(e, mem[from..to])[..|u|] == u
    modifies mem
    ensures mem[..] == Splice(old(mem[..]), from, Words(Big, Padded(u)))
  {
    hide Bytes, Words, Swap, Masked, Padded;
    MaskedIsPadded(e, mem[from..to], u);
    Mask(e, mem, from, to, rest);
    SwapReads(e, mem[from..to]);
    SwapInPlace(e, mem, from, to - from);
  }

  lemma SplicedTwice(was: seq<word>, now: seq<word>, dest: nat, x: seq<word>, wp: nat, y: seq<word>)
    requires |now| == |was| && wp == dest + |x| && wp + |y| <= |was|
    requires now[..wp] == was[..dest] + x && now[wp + |y|..] == was[wp + |y|..]
    ensures Splice(now, wp, y) == Splice(was, dest, x + y)
  {
    assert now[..wp] + y == was[..dest] + (x + y);
  }

  lemma SpliceSlice(was: seq<byte>, at: nat, len: nat, skip: nat, s: seq<byte>)
    requires skip + |s| <= len && at + len <= |was|
    ensures Splice(was, at + skip, s)[at..at + len][..skip + |s|] == was[at..at + len][..skip] + s
  {
    var now := Splice(was, at + skip, s);
    SliceSlice(now, at, len, 0, skip + |s|);
    SliceSlice(was, at, len, 0, skip);
    assert now[at + skip..at + skip + |s|] == s && now[..at + skip] == was[..at + skip];
    assert now[at..at + skip] == was[at..at + skip] by {
      assert now[..at + skip][at..] == was[..at + skip][at..];
    }
    assert now[at..at + skip + |s|] == now[at..at + skip] + now[at + skip..at + skip + |s|];
  }

  /** Copying to a word keeps the words before it and fills those from it on. */
  method CopyTo(e: Endian, mem: array<word>, from: nat, skip: nat, s: seq<byte>)
    requires skip < 4 && from + WordsFor(skip + |s|) <= mem.Length
    modifies mem
    ensures forall i :: 0 <= i < mem.Length && (i < from || from + WordsFor(skip + |s|) <= i) ==> mem[i] == old(mem[i])
    ensures var to := from + WordsFor(skip + |s|);
      Bytes(e, mem[from..to])[..skip + |s|] == old(Bytes(e, mem[from..to])[..skip]) + s
  {
    hide Bytes, Splice;
    ghost var was := mem[..];
    ghost var to := from + WordsFor(skip + |s|);
    Memory.CopyIn(e, mem, 4 * from + skip, s);
    Memory.BytesSlice(e, mem[..], from, to);
    Memory.BytesSlice(e, was, from, to);
    assert mem[..][from..to] == mem[from..to] && was[from..to] == old(mem[from..to]);
    SpliceSlice(Bytes(e, was), 4 * from, 4 * (to - from), skip, s);
  }

  lemma RoundUp(n: nat)
    ensures n / 4 + (if n % 4 > 0 then 1 else 0) == WordsFor(n)
  {
  }

  /** outnstring; with no limit outstring */
  method OutString(e: Endian, mem: array<word>, dest: nat, str: seq<byte>, limit: Option<nat>) returns (next: nat)
    requires 0 !in str
    requires var s := Cut(str, limit); |s| < 0x8000_0000 && dest + |Encoded(s)| <= mem.Length
    modifies mem
    ensures var s := Cut(str, limit);
      mem[..] == Splice(old(mem[..]), dest, Encoded(s)) && next == dest + |Encoded(s)|
  {
    hide Bytes, Words, Padded, Cut, Splice, WordsFor;
    var s := Cut(str, limit);
    ghost var was := mem[..];
    mem[dest] := |s|;
    var save := dest + 1;
    CopyTo(e, mem, save, 0, s);
    next := save + |s| / 4;
    if |s| % 4 > 0 {
      next := next + 1;
    }
    RoundUp(|s|);
    assert [] + s == s && Bytes(e, mem[save..next])[..0] == [];
    ghost var now := mem[..];
    Finish(e, mem, save, next, |s| % 4, s);
    assert now[..save] == was[..dest] + [|s|];
    SplicedTwice(was, now, dest, [|s|], save, Words(Big, Padded(s)));
  }

  /** The first n characters at most. */
  function Cut(s: seq<byte>, limit: Option<nat>): (r: seq<byte>)
    ensures r <= s
  {
    if limit.Some? && |s| > limit.value then s[..limit.value] else s
  }

  lemma QuotientIs(x: int, q: int, r: int)
    requires x == 4 * q + r && 0 <= r < 4
    ensures x / 4 == q && x % 4 == r
  {
  }

  lemma WordsForSum(m: nat, n: nat)
    requires m % 4 == 0
    ensures 4 * WordsFor(m + n) == m + 4 * WordsFor(n)
  {
    var k, q := m / 4, (n + 3) / 4;
    var r := n + 3 - 4 * q;
    assert m == 4 * k;
    QuotientIs(m + n + 3, k + q, r);
  }

  lemma PadBehind(a: seq<byte>, u: seq<byte>)
    requires |a| % 4 == 0
    ensures Padded(a + u) == a + Padded(u)
  {
    WordsForSum(|a|, |u|);
    assert 4 * WordsFor(|a + u|) - |a + u| == 4 * WordsFor(|u|) - |u|;
  }

  lemma PadWhole(a: seq<byte>, u: seq<byte>)
    requires |a| % 4 == 0
    ensures Padded(a + u) == a + Padded(u)
    ensures Words(Big, Padded(a + u)) == Words(Big, a) + Words(Big, Padded(u))
  {
    hide Words, Padded, WordsFor, Zeros;
    PadBehind(a, u);
    QuotientIs(|Padded(u)|, WordsFor(|u|), 0);
    WordsConcat(Big, a, Padded(u));
  }

  /** The encoding of a in front of its last, incomplete word, and that word. */
  lemma EncodingParts(a: seq<byte>, q: nat)
    requires q == |a| / 4
    ensures Words(Big, Padded(a))[..q] == Words(Big, a[..4 * q])
    ensures |a| % 4 > 0 ==> Store(Big, Words(Big, Padded(a))[q])[..|a| % 4] == a[4 * q..]
  {
    hide Words, Store, Load;
    PadWhole(a[..4 * q], a[4 * q..]);
    assert a == a[..4 * q] + a[4 * q..];
    var tail := Padded(a[4 * q..]);
    if |a| % 4 > 0 {
      assert Words(Big, tail) == [Load(Big, tail)] by { OneLoad(tail); }
      StoreLoad(Big, tail);
    }
  }

  lemma OneLoad(bs: seq<byte>)
    requires |bs| == 4
    ensures Words(Big, bs) == [Load(Big, bs)]
  {
    assert bs[..4] == bs && bs[4..] == [];
  }

  /** The last word of the string in host order again, if it is incomplete. */
  method Reopen(e: Endian, mem: array<word>, wp: nat, rest: nat, ghost tail: seq<byte>, ghost to: nat)
    requires rest < 4 && |tail| == rest && wp <= to <= mem.Length && (rest > 0 ==> wp < to)
    requires rest > 0 ==> Store(Big, mem[wp])[..rest] == tail
    modifies mem
    ensures forall i :: 0 <= i < mem.Length && i != wp ==> mem[i] == old(mem[i])
    ensures rest == 0 ==> forall i :: 0 <= i < mem.Length ==> mem[i] == old(mem[i])
    ensures rest <= 4 * (to - wp) && Bytes(e, mem[wp..to])[..rest] == tail
  {
    hide Store, Swap, Bytes;
    if rest > 0 {
      SwapStoresNetworkOrder(e, mem[wp]);
      mem[wp] := Swap(e, mem[wp]);
      assert mem[wp..to] == [mem[wp]] + mem[wp + 1..to];
      BytesConcat(e, [mem[wp]], mem[wp + 1..to]);
      OneWord(e, mem[wp]);
    }
  }

  lemma TailSlice(n: word, ws: seq<word>, q: nat)
    requires q <= |ws|
    ensures ([n] + ws)[1..1 + q] == ws[..q]
  {
    var x := [n] + ws;
    assert forall k :: 0 <= k < q ==> x[1..1 + q][k] == ws[k];
  }

  /** Appending changes the length and the words from the last incomplete one on. */
  lemma EncodedConcat(a: seq<byte>, t: seq<byte>)
    requires |a + t| < 0x1_0000_0000
    ensures var q := |a| / 4;
      Encoded(a + t) == [|a| + |t|] + Encoded(a)[1..1 + q] + Words(Big, Padded(a[4 * q..] + t))
  {
    hide Words, Padded, Store;
    var q := |a| / 4;
    EncodingParts(a, q);
    PadWhole(a[..4 * q], a[4 * q..] + t);
    assert a + t == a[..4 * q] + (a[4 * q..] + t);
    TailSlice(|a|, Words(Big, Padded(a)), q);
  }

  /** The new characters behind the old ones, in host order from word wp on. */
  method CopyBehind(e: Endian, mem: array<word>, wp: nat, next: nat, rest: nat, t: seq<byte>, ghost tail: seq<byte>)
    requires |tail| == rest < 4 && next == wp + WordsFor(rest + |t|) && next <= mem.Length
    requires rest > 0 ==> Store(Big, mem[wp])[..rest] == tail
    modifies mem
    ensures mem[..wp] == old(mem[..wp]) && mem[next..] == old(mem[next..])
    ensures rest + |t| <= 4 * (next - wp) && Bytes(e, mem[wp..next])[..rest + |t|] == tail + t
  {
    hide Bytes, Store;
    Reopen(e, mem, wp, rest, tail, next);
    CopyTo(e, mem, wp, rest, t);
    assert forall i :: next <= i < mem.Length ==> mem[i] == old(mem[i]);
  }

  lemma EncodingAt(ws: seq<word>, dest: nat, a: seq<byte>, q: nat)
    requires |a| < 0x1_0000_0000 && dest + |Encoded(a)| <= |ws| && ws[dest..dest + |Encoded(a)|] == Encoded(a) &&
      q == |a| / 4
    ensures ws[dest] == |a| && ws[dest + 1..dest + 1 + q] == Encoded(a)[1..1 + q]
    ensures |a| % 4 > 0 ==> Store(Big, ws[dest + 1 + q])[..|a| % 4] == a[4 * q..]
  {
    hide Words, Padded, Store;
    EncodingParts(a, q);
    var x := ws[dest..dest + |Encoded(a)|];
    assert x[0] == ws[dest];
    if |a| % 4 > 0 {
      assert x[1 + q] == ws[dest + 1 + q];
    }
    SliceSlice(ws, dest, |Encoded(a)|, 1, 1 + q);
  }

  lemma FrontIs(now: seq<word>, was: seq<word>, dest: nat, wp: nat, n: word)
    requires dest < wp <= |was| == |now| && now[..wp] == was[..wp][dest := n]
    ensures now[..wp] == was[..dest] + ([n] + was[dest + 1..wp])
  {
  }

  /** And the new length. */
  method Lengthen(e: Endian, mem: array<word>, dest: nat, wp: nat, next: nat, t: seq<byte>, ghost a: seq<byte>)
    requires |a| + |t| < 0x8000_0000 && wp == dest + 1 + |a| / 4 && next == wp + WordsFor(|a| % 4 + |t|) &&
      next <= mem.Length
    requires dest + |Encoded(a)| <= next && mem[dest..dest + |Encoded(a)|] == Encoded(a)
    modifies mem
    ensures mem[..wp] == old(mem[..dest]) + ([|a| + |t|] + Encoded(a)[1..1 + |a| / 4]) &&
      mem[next..] == old(mem[next..])
    ensures |a| % 4 + |t| <= 4 * (next - wp) && Bytes(e, mem[wp..next])[..|a| % 4 + |t|] == a[4 * (|a| / 4)..] + t
  {
    hide Bytes, Encoded, Store;
    ghost var was, q := mem[..], |a| / 4;
    EncodingAt(was, dest, a, q);
    CopyBehind(e, mem, wp, next, mem[dest] % 4, t, a[4 * q..]);
    mem[dest] := mem[dest] + |t|;
    FrontIs(mem[..], was, dest, wp, |a| + |t|);
  }

  lemma AppendSizes(len: nat, more: nat)
    ensures var q, r := len / 4, len % 4;
      && len == 4 * q + r && q <= WordsFor(len) <= WordsFor(len + more)
      && WordsFor(len + more) == q + WordsFor(r + more) && (len + more) % 4 == (r + more) % 4
  {
    var q, r := len / 4, len % 4;
    assert (4 * q) % 4 == 0;
    WordsForSum(4 * q, r + more);
  }

  /** append_xdrstring: behind the encoding of a string `a`; the first n characters at
      most, or all if n is not positive. */
  method AppendString(e: Endian, mem: array<word>, dest: nat, str: seq<byte>, n: int, ghost a: seq<byte>)
    returns (next: nat)
    requires 0 !in str
    requires var t := Cut(str, if n > 0 then Some(n) else None);
      |a + t| < 0x8000_0000 && dest + |Encoded(a + t)| <= mem.Length
    requires dest + |Encoded(a)| <= mem.Length && mem[dest..dest + |Encoded(a)|] == Encoded(a)
    modifies mem
    ensures var t := Cut(str, if n > 0 then Some(n) else None);
      mem[..] == Splice(old(mem[..]), dest, Encoded(a + t)) && next == dest + |Encoded(a + t)|
  {
    hide Bytes, Words, Padded, Cut, Splice, Encoded, WordsFor;
    var t := Cut(str, if n > 0 then Some(n) else None);
    var clen := mem[dest];
    assert clen == mem[dest..dest + |Encoded(a)|][0] == |a|;
    var q, r := clen / 4, clen % 4;
    AppendSizes(clen, |t|);
    var wp := dest + q + 1;
    next := dest + 1 + WordsFor(clen + |t|);
    ghost var was, u := mem[..], a[4 * q..] + t;
    Lengthen(e, mem, dest, wp, next, t, a);
    ghost var now := mem[..];
    Finish(e, mem, wp, next, (clen + |t|) % 4, u);
    EncodedConcat(a, t);
    SplicedTwice(was, now, dest, [clen + |t|] + Encoded(a)[1..1 + q], wp, Words(Big, Padded(u)));
  }

  /** extractstring: the words are converted for the copy and then converted back. */
  method ExtractString(e: Endian, mem: array<word>, p: nat) returns (s: seq<byte>, next: nat)
    requires p < mem.Length && mem[p] < 0x8000_0000 && p + 1 + WordsFor(mem[p]) <= mem.Length
    modifies mem
    ensures mem[..] == old(mem[..]) && next == p + 1 + WordsFor(mem[p])
    ensures s == Content(mem[p..])
  {
    hide Bytes, Words, Swap;
    ghost var was := mem[..];
    var size := mem[p];
    var len := WordsFor(size);
    next := p + 1 + len;
    ghost var ws := mem[p + 1..next];
    SwapInPlace(e, mem, p + 1, len);
    assert mem[p + 1..next] == SwapAll(e, ws);
    SwappedBytes(e, ws);
    s := Bytes(e, mem[p + 1..next])[..size];
    SwapAllInvolution(e, ws);
    SwapInPlace(e, mem, p + 1, len);
    assert mem[p + 1..next] == ws;
    assert mem[..] == was;
    SliceSlice(was, p, |was| - p, 1, 1 + len);
    assert mem[p..] == was[p..|was|];
  }
}
