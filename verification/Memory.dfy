/**
  Word arrays that the programs also address byte by byte (memcpy, read, write on
  casted pointers).  The bytes of an array are those the host stores.
*/
module Memory {
  import opened Util
  import opened ByteOrder

  lemma {:induction false} ByteAt(e: Endian, ws: seq<word>, i: nat, p: nat)
    requires i < |ws| && p < 4
    ensures Bytes(e, ws)[4 * i + p] == Store(e, ws[i])[p]
  {
    if i > 0 {
      ByteAt(e, ws[1..], i - 1, p);
    }
  }

  /** Writing one byte of a word changes that byte only. */
  lemma {:induction false} SetByte(e: Endian, ws: seq<word>, i: nat, p: nat, b: byte)
    requires i < |ws| && p < 4
    ensures Bytes(e, ws[i := Load(e, Store(e, ws[i])[p := b])]) == Bytes(e, ws)[4 * i + p := b]
  {
    hide Store, Load;
    var w := Load(e, Store(e, ws[i])[p := b]);
    StoreLoad(e, Store(e, ws[i])[p := b]);
    if i == 0 {
      assert ws[0 := w][1..] == ws[1..];
    } else {
      SetByte(e, ws[1..], i - 1, p, b);
      assert ws[i := w][1..] == ws[1..][i - 1 := w];
    }
  }

  lemma {:induction false} BytesSlice(e: Endian, ws: seq<word>, i: nat, j: nat)
    requires i <= j <= |ws|
    ensures Bytes(e, ws)[4 * i..4 * j] == Bytes(e, ws[i..j])
  {
    assert ws == ws[..i] + ws[i..j] + ws[j..];
    BytesConcat(e, ws[..i] + ws[i..j], ws[j..]);
    BytesConcat(e, ws[..i], ws[i..j]);
  }

  lemma SpliceSnoc<T>(s: seq<T>, at: nat, with: seq<T>, k: nat)
    requires at + |with| <= |s| && k < |with|
    ensures Splice(s, at, with[..k])[at + k := with[k]] == Splice(s, at, with[..k + 1])
  {
  }

  /** memcpy of bytes to byte offset `at` of a word array. */
  method CopyIn(e: Endian, a: array<word>, at: nat, bs: seq<byte>)
    requires at + |bs| <= 4 * a.Length
    modifies a
    ensures Bytes(e, a[..]) == Splice(old(Bytes(e, a[..])), at, bs)
    ensures forall i :: 0 <= i < a.Length && (4 * i + 4 <= at || at + |bs| <= 4 * i) ==> a[i] == old(a[i])
  {
    hide Store, Load, Bytes;
    ghost var was := a[..];
    var k := 0;
    assert Splice(Bytes(e, was), at, bs[..0]) == Bytes(e, was);
    while k < |bs|
      invariant 0 <= k <= |bs|
      invariant Bytes(e, a[..]) == Splice(Bytes(e, was), at, bs[..k])
      invariant forall i :: 0 <= i < a.Length && (4 * i + 4 <= at || at + k <= 4 * i) ==> a[i] == was[i]
    {
      var i, p := (at + k) / 4, (at + k) % 4;
      ghost var before := a[..];
      SetByte(e, before, i, p, bs[k]);
      a[i] := Load(e, Store(e, a[i])[p := bs[k]]);
      assert a[..] == before[i := Load(e, Store(e, before[i])[p := bs[k]])];
      SpliceSnoc(Bytes(e, was), at, bs, k);
      k := k + 1;
    }
    assert bs[..k] == bs;
  }
}
