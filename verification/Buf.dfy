/**
  The word buffers C_outbuf and C_inbuf (support/buf.cc, outbuf.cc, inbuf.cc) and the
  string they read (support/xdrstrdup.cc).
*/
module Buf {
  import opened Util
  import opened ByteOrder
  import Xdr

  /** The characters of a C string: those before the first NUL. */
  function CString(s: seq<byte>): (r: seq<byte>)
    ensures 0 !in r && r <= s && (0 !in s ==> r == s) && (0 in s ==> r != s)
  {
    if s == [] then [] else if s[0] == 0 then [] else [s[0]] + CString(s[1..])
  }

  /** xdrstrdup turns a carriage return into a line feed. */
  function CrToLf(s: seq<byte>): (r: seq<byte>)
    ensures |r| == |s| && forall i :: 0 <= i < |s| ==> r[i] == if s[i] == 13 then 10 else s[i]
  {
    seq(|s|, i requires 0 <= i < |s| => if s[i] == 13 then 10 else s[i])
  }

  /** The string a reader makes of the characters in the words. */
  function Text(s: seq<byte>): seq<byte> {
    CString(CrToLf(s))
  }

  /** Text of what is put out for a string is the string exactly if it has neither NUL
      nor carriage return. */
  lemma TextExactly(s: seq<byte>)
    ensures Text(CString(s)) == CrToLf(CString(s))
    ensures Text(CString(s)) == s <==> 0 !in s && 13 !in s
  {
    var c := CString(s);
    assert 0 !in CrToLf(c);
    if Text(c) == s {
      assert |c| == |s| && c == s;
      assert forall i :: 0 <= i < |s| ==> s[i] == CrToLf(s)[i];
    }
    if 13 !in s && 0 !in s {
      assert CrToLf(s) == s;
    }
  }

  // ---- reading ----

  /** The exceptions: no word left, and a string's words reach behind the end.  Outside:
      the length word is none that can be meant; what happens then is not modelled. */
  datatype Got<T> = Got(value: T) | Exhausted | NotEnough | Outside

  function IntAt(ws: seq<word>, idx: nat): (Got<word>, nat) {
    if idx >= |ws| then (Exhausted, idx) else (Got(ws[idx]), idx + 1)
  }

  /** The cursor is moved before the exception is thrown. */
  function StringAt(ws: seq<word>, idx: nat): (Got<seq<byte>>, nat) {
    if idx >= |ws| then (Exhausted, idx)
    else if ws[idx] >= 0xFFFF_FFFD then (Outside, idx)
    else
      var next := idx + 1 + Xdr.WordsFor(ws[idx]);
      if next > |ws| then (NotEnough, next)
      else if ws[idx] >= 0x8000_0000 then (Outside, next)
      else (Got(Text(Xdr.Content(ws[idx..]))), next)
  }

  class InBuf {
    const host: Endian
    const buffer: array<word>
    const dsize: nat
    var idx: nat

    ghost predicate Valid()
      reads this
    {
      dsize <= buffer.Length
    }

    /** The words to read. */
    ghost function Words(): seq<word>
      reads this, buffer
      requires Valid()
    {
      buffer[..dsize]
    }

    constructor (host: Endian, ptr: array<word>, size: nat)
      requires size <= ptr.Length
      ensures Valid() && fresh(buffer) && Words() == ptr[..size] && idx == 0 && this.host == host
    {
      var b := new word[size];
      this.host, buffer, dsize, idx := host, b, size, 0;
      new;
      var i := 0;
      while i < size
        invariant 0 <= i <= size
        invariant buffer != ptr && ptr[..] == old(ptr[..]) && idx == 0
        invariant forall k :: 0 <= k < i ==> buffer[k] == ptr[k]
      {
        buffer[i] := ptr[i];
        i := i + 1;
      }
    }

    method GetInt() returns (r: Got<word>)
      requires Valid()
      modifies this
      ensures Valid() && (r, idx) == IntAt(Words(), old(idx))
    {
      if idx >= dsize {
        return Exhausted;
      }
      idx := idx + 1;
      return Got(buffer[idx - 1]);
    }

    method GetString() returns (r: Got<seq<byte>>)
      requires Valid()
      modifies this, buffer
      ensures Valid() && Words() == old(Words()) && (r, idx) == StringAt(Words(), old(idx))
    {
      if idx >= dsize {
        return Exhausted;
      }
      var ptr := idx;
      if buffer[ptr] >= 0xFFFF_FFFD {
        return Outside;
      }
      idx := idx + 1 + Xdr.WordsFor(buffer[ptr]);
      if idx > dsize {
        return NotEnough;
      }
      if buffer[ptr] >= 0x8000_0000 {
        return Outside;
      }
      var s, next := Xdr.ExtractString(host, buffer, ptr);
      SameContent(buffer[ptr..], Words()[ptr..]);
      return Got(Text(s));
    }

    lemma SameContent(long: seq<word>, short: seq<word>)
      requires short <= long && short != [] && 1 + Xdr.WordsFor(short[0]) <= |short|
      ensures Xdr.Content(long) == Xdr.Content(short)
    {
      assert long[1..1 + Xdr.WordsFor(short[0])] == short[1..1 + Xdr.WordsFor(short[0])];
    }
  }

  // ---- writing ----

  function Max(a: int, b: int): int { if a < b then b else a }

  /** `ws` has been put at `at`; what was put before stays as far as it is not covered,
      and a gap may hold anything. */
  predicate Written(was: seq<word>, at: nat, ws: seq<word>, now: seq<word>) {
    && |now| == Max(|was|, at + |ws|)
    && now[at..at + |ws|] == ws
    && now[..Min(at, |was|)] == was[..Min(at, |was|)]
    && (at + |ws| < |was| ==> now[at + |ws|..] == was[at + |ws|..])
  }

  lemma WrittenAtEnd(was: seq<word>, ws: seq<word>, now: seq<word>)
    requires Written(was, |was|, ws, now)
    ensures now == was + ws
  {
    assert now == now[..|was|] + now[|was|..];
  }

  lemma SpliceIsWritten(was: seq<word>, dsize: nat, at: nat, ws: seq<word>, now: seq<word>)
    requires at + |ws| <= |was| && dsize <= |was| && now == Splice(was, at, ws)
    ensures Written(was[..dsize], at, ws, now[..Max(dsize, at + |ws|)])
  {
    var m, k, e := Max(dsize, at + |ws|), Min(at, dsize), at + |ws|;
    var out := now[..m];
    assert out[at..e] == now[at..e] == ws;
    assert out[..k] == now[..at][..k] == was[..at][..k] == was[..dsize][..k];
    if e < dsize {
      assert out[e..] == now[e..][..dsize - e] == was[e..][..dsize - e] == was[..dsize][e..];
    }
  }

  class OutBuf {
    const host: Endian
    var buffer: array<word>
    var bsize: nat
    var ibsize: nat
    var incr: nat
    var dsize: nat
    var idx: nat

    ghost predicate Valid()
      reads this
    {
      buffer.Length == bsize && dsize <= bsize
    }

    /** The words put out. */
    ghost function Contents(): seq<word>
      reads this, buffer
      requires Valid()
    {
      buffer[..dsize]
    }

    constructor (host: Endian, size: nat, incr: nat)
      ensures Valid() && fresh(buffer) && Contents() == [] && idx == 0 && this.host == host
    {
      this.host := host;
      bsize, ibsize, this.incr, dsize, idx := size, size, incr, 0, 0;
      buffer := new word[size];
    }

    /** Room for index i. */
    method Grow(i: nat)
      requires Valid()
      modifies this`buffer, this`bsize, this`incr
      ensures Valid() && i < bsize && fresh(buffer) && buffer[..dsize] == old(buffer[..dsize])
      ensures bsize >= old(bsize)
    {
      var len := bsize;
      if ibsize > len {
        len := ibsize;
      }
      if incr == 0 {
        incr := 100;
      }
      while i >= len
        invariant len >= old(bsize) && incr > 0
        decreases i - len
      {
        len := len + incr;
      }
      var help := new word[len];
      var j := 0;
      while j < dsize
        invariant 0 <= j <= dsize && unchanged(`buffer, `bsize, `dsize) && buffer[..] == old(buffer[..]) &&
          help.Length == len
        invariant forall k :: 0 <= k < j ==> help[k] == buffer[k]
      {
        help[j] := buffer[j];
        j := j + 1;
      }
      buffer := help;
      bsize := len;
    }

    /** index(int): moves the cursor; the old position is returned. */
    method Index(i: nat) returns (j: nat)
      requires Valid()
      modifies this
      ensures Valid() && Contents() == old(Contents()) && idx == i && j == old(idx) &&
        (buffer == old(buffer) || fresh(buffer))
    {
      if i > bsize {
        Grow(i);
      }
      j := idx;
      idx := i;
    }

    /** size(int): cuts the contents; they cannot grow this way. */
    method Size(size: nat) returns (s: Option<nat>)
      requires Valid()
      modifies this`dsize
      ensures Valid() && (s.None? <==> size > |old(Contents())|)
      ensures if s.None? then Contents() == old(Contents())
        else s.value == |old(Contents())| && Contents() == old(Contents())[..size]
    {
      s := Some(dsize);
      if size > dsize {
        return None;
      }
      dsize := size;
    }

    /** operator << for the integer types. */
    method PutInt(v: word)
      requires Valid()
      modifies this, buffer
      ensures Valid() && Written(old(Contents()), old(idx), [v], Contents()) && idx == old(idx) + 1
      ensures (buffer == old(buffer) || fresh(buffer))
    {
      if idx >= bsize {
        Grow(idx);
      }
      buffer[idx] := v;
      idx := idx + 1;
      if idx > dsize {
        dsize := idx;
      }
    }

    /** operator << for strings; what follows a NUL is not put out. */
    method PutString(str: seq<byte>)
      requires Valid() && |CString(str)| < 0x8000_0000
      modifies this, buffer
      ensures Valid() && Written(old(Contents()), old(idx), Xdr.Encoded(CString(str)), Contents())
      ensures idx == old(idx) + |Xdr.Encoded(CString(str))| && (buffer == old(buffer) || fresh(buffer))
    {
      hide Splice, Xdr.Encoded, Written;
      var s := CString(str);
      var num := 1 + Xdr.WordsFor(|s|);
      if idx + num > bsize {
        Grow(idx + num - 1);
      }
      Text0(s);
      ghost var was := buffer[..];
      var next := Xdr.OutString(host, buffer, idx, s, None);
      SpliceIsWritten(was, dsize, idx, Xdr.Encoded(s), buffer[..]);
      idx := idx + num;
      if idx > dsize {
        dsize := idx;
      }
    }

    lemma Text0(s: seq<byte>)
      ensures Xdr.Cut(s, None) == s
    {
    }
  }
}
