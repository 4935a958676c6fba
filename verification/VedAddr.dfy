/**
  VED addresses and their form in a word buffer (commu/ved_addr.cc): printed and extracted
  by methods on real buffers, one address or any number of them behind each other.
*/
module VedAddr {
  import opened Util
  import opened ByteOrder
  import opened Buf
  import Xdr

  type port = x: int | 0 <= x < 0x1_0000

  datatype Addr =
    | Notvalid
    | Builtin(name: seq<byte>)
    | Local(sockname: seq<byte>)
    | Inet(host: seq<byte>, port: port)
    | InetPath(host: seq<byte>, port: port, pathes: seq<seq<byte>>)
    | VicBus

  function Tag(a: Addr): word {
    match a
    case Notvalid => 0
    case Builtin(_) => 1
    case Local(_) => 2
    case Inet(_, _) => 3
    case InetPath(_, _, _) => 4
    case VicBus => 5
  }

  // ---- printing ----

  /** Lengths fit the ints that hold them. */
  predicate Fits(s: seq<byte>) {
    |CString(s)| < 0x8000_0000
  }

  predicate AddrFits(a: Addr) {
    match a
    case Notvalid => true
    case Builtin(s) => Fits(s)
    case Local(s) => Fits(s)
    case Inet(h, _) => Fits(h)
    case InetPath(h, _, ps) => Fits(h) && |ps| < 0x8000_0000 && forall i :: 0 <= i < |ps| ==> Fits(ps[i])
    case VicBus => true
  }

  function StringWords(s: seq<byte>): (ws: seq<word>)
    requires Fits(s)
    ensures ws != []
  {
    Xdr.Encoded(CString(s))
  }

  function PathWords(ps: seq<seq<byte>>): seq<word>
    requires forall i :: 0 <= i < |ps| ==> Fits(ps[i])
  {
    if ps == [] then [] else StringWords(ps[0]) + PathWords(ps[1..])
  }

  function AddrWords(a: Addr): seq<word>
    requires AddrFits(a)
  {
    match a
    case Notvalid => [0]
    case Builtin(s) => [1] + StringWords(s)
    case Local(s) => [2] + StringWords(s)
    case Inet(h, p) => [3] + StringWords(h) + [p]
    case InetPath(h, p, ps) => [4] + StringWords(h) + [p] + [|ps|] + PathWords(ps)
    case VicBus => [5]
  }

  lemma SlicePrefix(s: seq<word>, t: seq<word>, e: nat, i: nat, j: nat)
    requires i <= j <= e && e <= |s| && e <= |t| && s[..e] == t[..e]
    ensures s[i..j] == t[i..j]
  {
    SliceSlice(s, 0, e, i, j);
    SliceSlice(t, 0, e, i, j);
  }

  lemma SliceSuffix(s: seq<word>, t: seq<word>, e: nat, k: nat)
    requires e + k <= |s| == |t| && s[e..] == t[e..]
    ensures s[e + k..] == t[e + k..]
  {
    SliceSlice(s, e, |s| - e, k, |s| - e);
    SliceSlice(t, e, |t| - e, k, |t| - e);
  }

  /** Two writings one behind the other. */
  lemma WrittenTwice(was: seq<word>, at: nat, x: seq<word>, mid: seq<word>, y: seq<word>, now: seq<word>)
    requires Written(was, at, x, mid) && Written(mid, at + |x|, y, now)
    ensures Written(was, at, x + y, now)
  {
    var e := at + |x|;
    assert now[..e] == mid[..e];
    SlicePrefix(now, mid, e, at, e);
    assert now[at..e + |y|] == now[at..e] + now[e..e + |y|];
    SlicePrefix(now, mid, e, 0, Min(at, |was|));
    if e + |y| < |was| {
      SliceSuffix(mid, was, e, |y|);
    }
  }

  /** The pathes of an inet address. */
  method PutPathes(out: OutBuf, ps: seq<seq<byte>>, ghost was: seq<word>, ghost at: nat, ghost head: seq<word>)
    requires out.Valid() && forall i :: 0 <= i < |ps| ==> Fits(ps[i])
    requires out.idx == at + |head| && Written(was, at, head, out.Contents())
    modifies out, out.buffer
    ensures out.Valid() && Written(was, at, head + PathWords(ps), out.Contents()) &&
      out.idx == at + |head + PathWords(ps)|
    ensures out.buffer == old(out.buffer) || fresh(out.buffer)
  {
    hide Written, StringWords;
    var i := 0;
    ghost var done := head;
    assert head + PathWords(ps) == done + PathWords(ps[0..]) by { assert ps[0..] == ps; }
    while i < |ps|
      invariant 0 <= i <= |ps| && out.Valid() && (out.buffer == old(out.buffer) || fresh(out.buffer))
      invariant out.idx == at + |done| && Written(was, at, done, out.Contents())
      invariant head + PathWords(ps) == done + PathWords(ps[i..])
    {
      ghost var mid, x := out.Contents(), StringWords(ps[i]);
      assert x == Xdr.Encoded(CString(ps[i])) by { StringIs(ps[i]); }
      out.PutString(ps[i]);
      WrittenTwice(was, at, done, mid, x, out.Contents());
      assert ps[i..][0] == ps[i] && ps[i..][1..] == ps[i + 1..];
      assert done + PathWords(ps[i..]) == done + x + PathWords(ps[i + 1..]);
      done := done + x;
      i := i + 1;
    }
    assert done + PathWords(ps[i..]) == done;
  }

  lemma StringIs(s: seq<byte>)
    requires Fits(s)
    ensures StringWords(s) == Xdr.Encoded(CString(s))
  {
  }

  /** out_ved_addr of every kind of address */
  method OutVedAddr(out: OutBuf, a: Addr)
    requires out.Valid() && AddrFits(a)
    modifies out, out.buffer
    ensures out.Valid() && Written(old(out.Contents()), old(out.idx), AddrWords(a), out.Contents())
    ensures out.idx == old(out.idx) + |AddrWords(a)| && (out.buffer == old(out.buffer) || fresh(out.buffer))
  {
    hide Written, Xdr.Encoded, PathWords, CString;
    ghost var was, at := out.Contents(), out.idx;
    out.PutInt(Tag(a));
    ghost var c1 := out.Contents();
    match a {
      case Notvalid =>
      case VicBus =>
      case Builtin(s) =>
        out.PutString(s);
        WrittenTwice(was, at, [1], c1, StringWords(s), out.Contents());
      case Local(s) =>
        out.PutString(s);
        WrittenTwice(was, at, [2], c1, StringWords(s), out.Contents());
      case Inet(h, p) =>
        PutHost(out, h, p, was, at, 3);
      case InetPath(h, p, ps) =>
        PutHost(out, h, p, was, at, 4);
        ghost var x, c2 := [4] + StringWords(h) + [p], out.Contents();
        out.PutInt(|ps|);
        WrittenTwice(was, at, x, c2, [|ps|], out.Contents());
        PutPathes(out, ps, was, at, x + [|ps|]);
    }
  }

  /** The host name and the port behind the tag. */
  method PutHost(out: OutBuf, h: seq<byte>, p: port, ghost was: seq<word>, ghost at: nat, ghost tag: word)
    requires out.Valid() && Fits(h) && out.idx == at + 1 && Written(was, at, [tag], out.Contents())
    modifies out, out.buffer
    ensures out.Valid() && Written(was, at, [tag] + StringWords(h) + [p], out.Contents())
    ensures out.idx == at + |[tag] + StringWords(h) + [p]|
    ensures out.buffer == old(out.buffer) || fresh(out.buffer)
  {
    hide Written, Xdr.Encoded;
    ghost var c1 := out.Contents();
    out.PutString(h);
    ghost var c2 := out.Contents();
    WrittenTwice(was, at, [tag], c1, StringWords(h), c2);
    out.PutInt(p);
    WrittenTwice(was, at, [tag] + StringWords(h), c2, [p], out.Contents());
  }

  // ---- reading ----

  /** The exceptions, and what is not modelled: a string or a list of pathes of a length
      that cannot be meant. */
  datatype Outcome = Found(addr: Addr) | UnknownType(t: word) | NoWord | NoWords | Undefined

  /** What an exception from the buffer means. */
  function Thrown<T>(g: Got<T>): Outcome
    requires !g.Got?
  {
    match g
    case Exhausted => NoWord
    case NotEnough => NoWords
    case Outside => Undefined
  }

  datatype Pathes = Pathes(pathes: seq<seq<byte>>) | Broke(why: Outcome)

  function PathesAt(ws: seq<word>, idx: nat, n: nat): (Pathes, nat)
    decreases n
  {
    if n == 0 then (Pathes([]), idx)
    else
      var (s, next) := StringAt(ws, idx);
      if !s.Got? then (Broke(Thrown(s)), next)
      else
        var (rest, end) := PathesAt(ws, next, n - 1);
        (if rest.Broke? then rest else Pathes([s.value] + rest.pathes), end)
  }

  function HostAt(ws: seq<word>, idx: nat, paths: bool): (Outcome, nat) {
    var (h, i1) := StringAt(ws, idx);
    if !h.Got? then (Thrown(h), i1)
    else
      var (p, i2) := IntAt(ws, i1);
      if !p.Got? then (Thrown(p), i2)
      else if !paths then (Found(Inet(h.value, p.value % 0x1_0000)), i2)
      else
        var (n, i3) := IntAt(ws, i2);
        if !n.Got? then (Thrown(n), i3)
        else if n.value >= 0x8000_0000 then (Undefined, i3)
        else
          var (ps, i4) := PathesAt(ws, i3, n.value);
          (if ps.Broke? then ps.why else Found(InetPath(h.value, p.value % 0x1_0000, ps.pathes)), i4)
  }

  function AddrAt(ws: seq<word>, idx: nat): (Outcome, nat) {
    var (t, i1) := IntAt(ws, idx);
    if !t.Got? then (Thrown(t), i1)
    else if t.value == 0 then (Found(Notvalid), i1)
    else if t.value == 5 then (Found(VicBus), i1)
    else if t.value == 1 || t.value == 2 then
      var (s, i2) := StringAt(ws, i1);
      (if !s.Got? then Thrown(s) else if t.value == 1 then Found(Builtin(s.value)) else Found(Local(s.value)), i2)
    else if t.value == 3 || t.value == 4 then HostAt(ws, i1, t.value == 4)
    else (UnknownType(t.value), i1)
  }

  /** The address as it is read again. */
  function Reread(a: Addr): Addr {
    match a
    case Notvalid => a
    case Builtin(s) => Builtin(Text(CString(s)))
    case Local(s) => Local(Text(CString(s)))
    case Inet(h, p) => Inet(Text(CString(h)), p)
    case InetPath(h, p, ps) => InetPath(Text(CString(h)), p, RereadAll(ps))
    case VicBus => a
  }

  function RereadAll(ps: seq<seq<byte>>): (r: seq<seq<byte>>)
    ensures |r| == |ps| && forall i :: 0 <= i < |ps| ==> r[i] == Text(CString(ps[i]))
  {
    seq(|ps|, i requires 0 <= i < |ps| => Text(CString(ps[i])))
  }

  /** No NUL and no carriage return. */
  predicate Plain(s: seq<byte>) {
    0 !in s && 13 !in s
  }

  predicate AddrPlain(a: Addr) {
    match a
    case Notvalid => true
    case Builtin(s) => Plain(s)
    case Local(s) => Plain(s)
    case Inet(h, _) => Plain(h)
    case InetPath(h, _, ps) => Plain(h) && forall i :: 0 <= i < |ps| ==> Plain(ps[i])
    case VicBus => true
  }

  /** What follows the first of two pieces. */
  lemma Behind(ws: seq<word>, idx: nat, x: seq<word>, y: seq<word>)
    requires idx <= |ws| && ws[idx..] == x + y
    ensures idx + |x| <= |ws| && ws[idx + |x|..] == y
  {
    assert ws[idx..][|x|..] == y;
    assert ws[idx + |x|..] == ws[idx..][|x|..];
  }

  lemma StringBack(ws: seq<word>, idx: nat, s: seq<byte>, post: seq<word>)
    requires Fits(s) && idx <= |ws| && ws[idx..] == StringWords(s) + post
    ensures StringAt(ws, idx) == (Got(Text(CString(s))), idx + |StringWords(s)|)
  {
    hide Xdr.Encoded, Xdr.Content, Text;
    Xdr.ContentOfEncoded(CString(s), post);
    assert ws[idx] == ws[idx..][0];
  }

  lemma IntBack(ws: seq<word>, idx: nat, v: word, post: seq<word>)
    requires idx <= |ws| && ws[idx..] == [v] + post
    ensures IntAt(ws, idx) == (Got(v), idx + 1)
  {
    assert ws[idx] == ws[idx..][0];
  }

  lemma {:induction false} PathesBack(ws: seq<word>, idx: nat, ps: seq<seq<byte>>, post: seq<word>)
    requires (forall i :: 0 <= i < |ps| ==> Fits(ps[i])) && idx <= |ws| && ws[idx..] == PathWords(ps) + post
    ensures PathesAt(ws, idx, |ps|) == (Pathes(RereadAll(ps)), idx + |PathWords(ps)|)
    decreases |ps|
  {
    hide StringAt, StringWords, Text;
    if ps != [] {
      var x, rest := StringWords(ps[0]), PathWords(ps[1..]);
      assert ws[idx..] == x + (rest + post);
      StringBack(ws, idx, ps[0], rest + post);
      Behind(ws, idx, x, rest + post);
      PathesBack(ws, idx + |x|, ps[1..], post);
      assert RereadAll(ps) == [Text(CString(ps[0]))] + RereadAll(ps[1..]);
    }
  }

  /** The host name and the port. */
  lemma NameAndPortBack(ws: seq<word>, idx: nat, h: seq<byte>, p: port, tail: seq<word>)
    requires Fits(h) && idx <= |ws| && ws[idx..] == StringWords(h) + ([p] + tail)
    ensures StringAt(ws, idx) == (Got(Text(CString(h))), idx + |StringWords(h)|)
    ensures IntAt(ws, idx + |StringWords(h)|) == (Got(p as word), idx + |StringWords(h)| + 1)
    ensures idx + |StringWords(h)| + 1 <= |ws| && ws[idx + |StringWords(h)| + 1..] == tail
  {
    hide StringAt, StringWords, Text, IntAt;
    StringBack(ws, idx, h, [p] + tail);
    Behind(ws, idx, StringWords(h), [p] + tail);
    IntBack(ws, idx + |StringWords(h)|, p, tail);
    Behind(ws, idx + |StringWords(h)|, [p], tail);
  }

  lemma HostBack(ws: seq<word>, idx: nat, h: seq<byte>, p: port, post: seq<word>)
    requires Fits(h) && idx <= |ws| && ws[idx..] == StringWords(h) + ([p] + post)
    ensures HostAt(ws, idx, false) == (Found(Inet(Text(CString(h)), p)), idx + |StringWords(h)| + 1)
  {
    hide StringAt, StringWords, Text, IntAt;
    NameAndPortBack(ws, idx, h, p, post);
  }

  lemma HostPathBack(ws: seq<word>, idx: nat, h: seq<byte>, p: port, ps: seq<seq<byte>>, post: seq<word>)
    requires Fits(h) && |ps| < 0x8000_0000 && (forall i :: 0 <= i < |ps| ==> Fits(ps[i])) && idx <= |ws|
    requires ws[idx..] == StringWords(h) + ([p] + ([|ps|] + (PathWords(ps) + post)))
    ensures HostAt(ws, idx, true)
         == (Found(InetPath(Text(CString(h)), p, RereadAll(ps))), idx + |StringWords(h)| + 2 + |PathWords(ps)|)
  {
    hide StringAt, StringWords, Text, CString, PathWords, IntAt, PathesAt, RereadAll, Fits;
    var rest := PathWords(ps) + post;
    NameAndPortBack(ws, idx, h, p, [|ps|] + rest);
    var i2 := idx + |StringWords(h)| + 1;
    IntBack(ws, i2, |ps|, rest);
    Behind(ws, i2, [|ps|], rest);
    PathesBack(ws, i2 + 1, ps, post);
  }

  lemma NameBack(ws: seq<word>, idx: nat, tag: word, s: seq<byte>, post: seq<word>)
    requires Fits(s) && idx <= |ws| && ws[idx..] == [tag] + StringWords(s) + post
    ensures IntAt(ws, idx) == (Got(tag), idx + 1)
    ensures StringAt(ws, idx + 1) == (Got(Text(CString(s))), idx + 1 + |StringWords(s)|)
  {
    hide StringAt, StringWords, Text, IntAt;
    TagBack(ws, idx, tag, StringWords(s), post);
    StringBack(ws, idx + 1, s, post);
  }

  lemma InetBack(ws: seq<word>, idx: nat, h: seq<byte>, p: port, post: seq<word>)
    requires Fits(h) && idx <= |ws| && ws[idx..] == [3] + StringWords(h) + [p] + post
    ensures IntAt(ws, idx) == (Got(3), idx + 1)
    ensures HostAt(ws, idx + 1, false) == (Found(Inet(Text(CString(h)), p)), idx + |StringWords(h)| + 2)
  {
    hide StringAt, StringWords, Text, IntAt, HostAt;
    var x := StringWords(h);
    assert [3] + x + [p] + post == [3] + (x + ([p] + post));
    TagBack(ws, idx, 3, x, [p] + post);
    HostBack(ws, idx + 1, h, p, post);
  }

  lemma InetPathBack(ws: seq<word>, idx: nat, h: seq<byte>, p: port, ps: seq<seq<byte>>, post: seq<word>)
    requires Fits(h) && |ps| < 0x8000_0000 && (forall i :: 0 <= i < |ps| ==> Fits(ps[i])) && idx <= |ws|
    requires ws[idx..] == [4] + StringWords(h) + [p] + [|ps|] + PathWords(ps) + post
    ensures IntAt(ws, idx) == (Got(4), idx + 1)
    ensures HostAt(ws, idx + 1, true)
         == (Found(InetPath(Text(CString(h)), p, RereadAll(ps))), idx + |StringWords(h)| + 3 + |PathWords(ps)|)
  {
    hide StringAt, StringWords, Text, IntAt, HostAt, PathWords;
    var x, y := StringWords(h), PathWords(ps);
    assert [4] + x + [p] + [|ps|] + y + post == [4] + (x + ([p] + ([|ps|] + (y + post))));
    TagBack(ws, idx, 4, x, [p] + ([|ps|] + (y + post)));
    HostPathBack(ws, idx + 1, h, p, ps, post);
  }

  /** The words of an address, whatever stands around them, are read again as the
      address with its strings as text, and exactly they are consumed. */
  lemma AddrBack(ws: seq<word>, idx: nat, a: Addr, post: seq<word>)
    requires AddrFits(a) && idx <= |ws| && ws[idx..] == AddrWords(a) + post
    ensures AddrAt(ws, idx) == (Found(Reread(a)), idx + |AddrWords(a)|)
  {
    hide AddrAt, AddrWords, Reread, AddrFits;
    match a {
      case Notvalid => BareAddrBack(ws, idx, a, post);
      case VicBus => BareAddrBack(ws, idx, a, post);
      case Builtin(s) => NameAddrBack(ws, idx, a, s, post);
      case Local(s) => NameAddrBack(ws, idx, a, s, post);
      case Inet(h, p) => InetAddrBack(ws, idx, h, p, post) by { HostFits(h, p); }
      case InetPath(h, p, ps) => InetPathAddrBack(ws, idx, h, p, ps, post);
    }
  }

  lemma HostFits(h: seq<byte>, p: port)
    ensures AddrFits(Inet(h, p)) ==> Fits(h)
  {
  }

  lemma BareAddrBack(ws: seq<word>, idx: nat, a: Addr, post: seq<word>)
    requires (a.Notvalid? || a.VicBus?) && idx <= |ws| && ws[idx..] == AddrWords(a) + post
    ensures AddrAt(ws, idx) == (Found(Reread(a)), idx + |AddrWords(a)|)
  {
    hide IntAt;
    IntBack(ws, idx, Tag(a), post);
  }

  lemma NameAddrBack(ws: seq<word>, idx: nat, a: Addr, s: seq<byte>, post: seq<word>)
    requires (a == Builtin(s) || a == Local(s)) && AddrFits(a) && idx <= |ws| && ws[idx..] == AddrWords(a) + post
    ensures AddrAt(ws, idx) == (Found(Reread(a)), idx + |AddrWords(a)|)
  {
    hide StringAt, StringWords, Text, IntAt;
    NameBack(ws, idx, Tag(a), s, post);
  }

  lemma InetAddrBack(ws: seq<word>, idx: nat, h: seq<byte>, p: port, post: seq<word>)
    requires Fits(h) && idx <= |ws| && ws[idx..] == AddrWords(Inet(h, p)) + post
    ensures AddrAt(ws, idx) == (Found(Reread(Inet(h, p))), idx + |AddrWords(Inet(h, p))|)
  {
    hide StringAt, StringWords, Text, IntAt, HostAt;
    InetBack(ws, idx, h, p, post);
  }

  lemma InetPathAddrBack(ws: seq<word>, idx: nat, h: seq<byte>, p: port, ps: seq<seq<byte>>, post: seq<word>)
    requires AddrFits(InetPath(h, p, ps)) && idx <= |ws| && ws[idx..] == AddrWords(InetPath(h, p, ps)) + post
    ensures AddrAt(ws, idx) == (Found(Reread(InetPath(h, p, ps))), idx + |AddrWords(InetPath(h, p, ps))|)
  {
    hide StringAt, StringWords, Text, IntAt, HostAt, PathWords;
    InetPathBack(ws, idx, h, p, ps, post);
  }

  lemma TagBack(ws: seq<word>, idx: nat, tag: word, x: seq<word>, post: seq<word>)
    requires idx <= |ws| && (ws[idx..] == [tag] + x + post || ws[idx..] == [tag] + (x + post))
    ensures IntAt(ws, idx) == (Got(tag), idx + 1) && idx + 1 <= |ws| && ws[idx + 1..] == x + post
  {
    assert [tag] + x + post == [tag] + (x + post);
    IntBack(ws, idx, tag, x + post);
    Behind(ws, idx, [tag], x + post);
  }

  /** More words behind those that were read change nothing. */
  lemma StringMore(ws: seq<word>, more: seq<word>, idx: nat)
    requires StringAt(ws, idx).0.Got?
    ensures StringAt(ws + more, idx) == StringAt(ws, idx) && StringAt(ws, idx).1 <= |ws|
  {
    hide Text;
    var n := 1 + Xdr.WordsFor(ws[idx]);
    assert (ws + more)[idx..][1..n] == ws[idx..][1..n];
  }

  lemma IntMore(ws: seq<word>, more: seq<word>, idx: nat)
    requires IntAt(ws, idx).0.Got?
    ensures IntAt(ws + more, idx) == IntAt(ws, idx) && IntAt(ws, idx).1 <= |ws|
  {
  }

  lemma {:induction false} PathesMore(ws: seq<word>, more: seq<word>, idx: nat, n: nat)
    requires idx <= |ws| && PathesAt(ws, idx, n).0.Pathes?
    ensures PathesAt(ws + more, idx, n) == PathesAt(ws, idx, n) && PathesAt(ws, idx, n).1 <= |ws|
    decreases n
  {
    hide StringAt;
    if n > 0 {
      StringMore(ws, more, idx);
      PathesMore(ws, more, StringAt(ws, idx).1, n - 1);
    }
  }

  lemma {:induction false} BrokeIsNone(ws: seq<word>, idx: nat, n: nat)
    ensures PathesAt(ws, idx, n).0.Broke? ==> !PathesAt(ws, idx, n).0.why.Found?
    decreases n
  {
    hide StringAt;
    if n > 0 {
      BrokeIsNone(ws, StringAt(ws, idx).1, n - 1);
    }
  }

  lemma HostMore(ws: seq<word>, more: seq<word>, idx: nat, paths: bool)
    requires HostAt(ws, idx, paths).0.Found?
    ensures HostAt(ws + more, idx, paths) == HostAt(ws, idx, paths) && HostAt(ws, idx, paths).1 <= |ws|
  {
    hide StringAt, IntAt, PathesAt;
    StringMore(ws, more, idx);
    var i1 := StringAt(ws, idx).1;
    IntMore(ws, more, i1);
    if paths {
      var i2 := IntAt(ws, i1).1;
      IntMore(ws, more, i2);
      BrokeIsNone(ws, IntAt(ws, i2).1, IntAt(ws, i2).0.value);
      PathesMore(ws, more, IntAt(ws, i2).1, IntAt(ws, i2).0.value);
    }
  }

  lemma AddrMore(ws: seq<word>, more: seq<word>, idx: nat)
    requires AddrAt(ws, idx).0.Found?
    ensures AddrAt(ws + more, idx) == AddrAt(ws, idx) && AddrAt(ws, idx).1 <= |ws|
  {
    hide StringAt, IntAt, HostAt;
    IntMore(ws, more, idx);
    var t, i1 := IntAt(ws, idx).0.value, IntAt(ws, idx).1;
    if t == 1 || t == 2 {
      StringMore(ws, more, i1);
    } else if t == 3 || t == 4 {
      HostMore(ws, more, i1, t == 4);
    }
  }

  /** An address that is cut off anywhere is not taken for one. */
  lemma CutOffIsReported(ws: seq<word>, idx: nat, a: Addr, k: nat)
    requires AddrFits(a) && k < |AddrWords(a)| && idx <= |ws| && ws[idx..] == AddrWords(a)[..k]
    ensures !AddrAt(ws, idx).0.Found?
  {
    hide AddrAt, AddrWords, AddrFits, Reread;
    if AddrAt(ws, idx).0.Found? {
      var all := ws + AddrWords(a)[k..];
      assert all[idx..] == ws[idx..] + AddrWords(a)[k..] == AddrWords(a) + [];
      AddrMore(ws, AddrWords(a)[k..], idx);
      AddrBack(all, idx, a, []);
    }
  }

  /** A tag that is none is named. */
  lemma OtherTagsAreNamed(ws: seq<word>, idx: nat)
    requires idx < |ws| && ws[idx] > 5
    ensures AddrAt(ws, idx) == (UnknownType(ws[idx]), idx + 1)
  {
  }

  /** It is the same address exactly if its strings have neither NUL nor carriage return. */
  lemma RereadExactly(a: Addr)
    ensures Reread(a) == a <==> AddrPlain(a)
  {
    hide Text;
    match a {
      case Notvalid =>
      case VicBus =>
      case Builtin(s) => TextExactly(s);
      case Local(s) => TextExactly(s);
      case Inet(h, _) => TextExactly(h);
      case InetPath(h, _, ps) =>
        TextExactly(h);
        forall i | 0 <= i < |ps| ensures RereadAll(ps)[i] == ps[i] <==> Plain(ps[i]) {
          TextExactly(ps[i]);
        }
        assert RereadAll(ps) == ps <==> forall i :: 0 <= i < |ps| ==> RereadAll(ps)[i] == ps[i];
    }
  }

  /** What becomes of a carriage return and of a NUL. */
  lemma NotReadBack()
    ensures AddrFits(Builtin([65, 13])) && Reread(Builtin([65, 13])) == Builtin([65, 10])
    ensures AddrFits(Builtin([65, 0, 66])) && Reread(Builtin([65, 0, 66])) == Builtin([65])
  {
    assert CString([13]) == [13] + CString([]) == [13];
    assert CString([65, 13]) == [65] + CString([65, 13][1..]) && [65, 13][1..] == [13];
    assert CrToLf([65, 13]) == [65, 10];
    assert CString([65, 10]) == [65] + CString([65, 10][1..]) && [65, 10][1..] == [10];
    assert CString([65, 0, 66]) == [65] + CString([65, 0, 66][1..]) && [65, 0, 66][1..] == [0, 66];
    assert CrToLf([65]) == [65] && CString([65]) == [65] + CString([65][1..]) && [65][1..] == [];
  }

  // ---- reading from the buffer ----

  /** The result with these pathes in front. */
  ghost function InFront(front: seq<seq<byte>>, r: (Pathes, nat)): (Pathes, nat) {
    (if r.0.Broke? then r.0 else Pathes(front + r.0.pathes), r.1)
  }

  lemma NoneInFront(r: (Pathes, nat))
    ensures InFront([], r) == r
  {
    assert r.0.Pathes? ==> [] + r.0.pathes == r.0.pathes;
  }

  lemma PathesStep(front: seq<seq<byte>>, ws: seq<word>, idx: nat, n: nat)
    requires n > 0
    ensures var (s, next) := StringAt(ws, idx);
      InFront(front, PathesAt(ws, idx, n)) ==
        if s.Got? then InFront(front + [s.value], PathesAt(ws, next, n - 1)) else (Broke(Thrown(s)), next)
  {
    hide StringAt;
    var (s, next) := StringAt(ws, idx);
    if s.Got? && PathesAt(ws, next, n - 1).0.Pathes? {
      var rest := PathesAt(ws, next, n - 1).0.pathes;
      assert front + ([s.value] + rest) == front + [s.value] + rest;
    }
  }

  /** The pathes of an inet address. */
  method GetPathes(inbuf: InBuf, n: nat) returns (r: Pathes)
    requires inbuf.Valid()
    modifies inbuf, inbuf.buffer
    ensures inbuf.Valid() && inbuf.Words() == old(inbuf.Words())
    ensures (r, inbuf.idx) == PathesAt(inbuf.Words(), old(inbuf.idx), n)
  {
    hide StringAt;
    ghost var ws, from := inbuf.Words(), inbuf.idx;
    var pathes := [];
    var i := 0;
    NoneInFront(PathesAt(ws, from, n));
    while i < n
      invariant 0 <= i <= n && inbuf.Valid() && inbuf.Words() == ws
      invariant PathesAt(ws, from, n) == InFront(pathes, PathesAt(ws, inbuf.idx, n - i))
    {
      PathesStep(pathes, ws, inbuf.idx, n - i);
      var s := inbuf.GetString();
      if !s.Got? {
        return Broke(Thrown(s));
      }
      pathes := pathes + [s.value];
      i := i + 1;
    }
    assert pathes + [] == pathes;
    return Pathes(pathes);
  }

  method GetHost(inbuf: InBuf, paths: bool) returns (r: Outcome)
    requires inbuf.Valid()
    modifies inbuf, inbuf.buffer
    ensures inbuf.Valid() && inbuf.Words() == old(inbuf.Words())
    ensures (r, inbuf.idx) == HostAt(inbuf.Words(), old(inbuf.idx), paths)
  {
    hide StringAt, IntAt, PathesAt;
    var h := inbuf.GetString();
    if !h.Got? {
      return Thrown(h);
    }
    var p := inbuf.GetInt();
    if !p.Got? {
      return Thrown(p);
    }
    if !paths {
      return Found(Inet(h.value, p.value % 0x1_0000));
    }
    var n := inbuf.GetInt();
    if !n.Got? {
      return Thrown(n);
    }
    if n.value >= 0x8000_0000 {
      return Undefined;
    }
    var ps := GetPathes(inbuf, n.value);
    return if ps.Broke? then ps.why else Found(InetPath(h.value, p.value % 0x1_0000, ps.pathes));
  }

  method ExtractVedAddr(inbuf: InBuf) returns (r: Outcome)
    requires inbuf.Valid()
    modifies inbuf, inbuf.buffer
    ensures inbuf.Valid() && inbuf.Words() == old(inbuf.Words())
    ensures (r, inbuf.idx) == AddrAt(inbuf.Words(), old(inbuf.idx))
  {
    hide StringAt, IntAt, HostAt;
    var t := inbuf.GetInt();
    if !t.Got? {
      return Thrown(t);
    }
    match t.value {
      case 0 => return Found(Notvalid);
      case 1 =>
        var s := inbuf.GetString();
        return if s.Got? then Found(Builtin(s.value)) else Thrown(s);
      case 2 =>
        var s := inbuf.GetString();
        return if s.Got? then Found(Local(s.value)) else Thrown(s);
      case 3 =>
        r := GetHost(inbuf, false);
      case 4 =>
        r := GetHost(inbuf, true);
      case 5 => return Found(VicBus);
      case _ => return UnknownType(t.value);
    }
  }

  /** An address put behind anything in an output buffer and read from there gives the
      address with its strings as text. */
  method PrintAndExtract(out: OutBuf, a: Addr) returns (r: Outcome)
    requires out.Valid() && out.idx == |out.Contents()| && AddrFits(a)
    modifies out, out.buffer
    ensures r == Found(Reread(a)) && (AddrPlain(a) ==> r == Found(a))
    ensures out.Valid() && out.Contents() == old(out.Contents()) + AddrWords(a) && out.idx == |out.Contents()|
    ensures out.buffer == old(out.buffer) || fresh(out.buffer)
  {
    hide Written, AddrAt, AddrWords, Reread;
    ghost var was := out.Contents();
    var from := out.idx;
    OutVedAddr(out, a);
    WrittenAtEnd(was, AddrWords(a), out.Contents());
    var inbuf := new InBuf(out.host, out.buffer, out.dsize);
    inbuf.idx := from;
    assert inbuf.Words()[from..] == AddrWords(a) + [];
    AddrBack(inbuf.Words(), from, a, []);
    RereadExactly(a);
    r := ExtractVedAddr(inbuf);
  }

  /** The words of several addresses. */
  function AllWords(addrs: seq<Addr>): seq<word>
    requires forall i :: 0 <= i < |addrs| ==> AddrFits(addrs[i])
  {
    if addrs == [] then [] else AddrWords(addrs[0]) + AllWords(addrs[1..])
  }

  lemma {:induction false} AllWordsSnoc(addrs: seq<Addr>, i: nat)
    requires i < |addrs| && forall k :: 0 <= k < |addrs| ==> AddrFits(addrs[k])
    ensures AllWords(addrs[..i + 1]) == AllWords(addrs[..i]) + AddrWords(addrs[i])
  {
    hide AddrWords, AddrFits;
    if i == 0 {
      assert addrs[..1] == [addrs[0]] && addrs[..1][1..] == [] && addrs[..0] == [];
      assert AddrWords(addrs[0]) + [] == AddrWords(addrs[0]) && [] + AddrWords(addrs[0]) == AddrWords(addrs[0]);
    } else {
      AllWordsSnoc(addrs[1..], i - 1);
      assert addrs[..i + 1][1..] == addrs[1..][..i] && addrs[..i][1..] == addrs[1..][..i - 1];
    }
  }

  lemma AllWordsFrom(addrs: seq<Addr>, i: nat)
    requires i < |addrs| && forall k :: 0 <= k < |addrs| ==> AddrFits(addrs[k])
    ensures AllWords(addrs[i..]) == AddrWords(addrs[i]) + AllWords(addrs[i + 1..])
  {
    assert addrs[i..][1..] == addrs[i + 1..];
  }

  /** Any addresses printed one behind the other into a new buffer, with any growth
      steps, are read back in order as their text, and all words are consumed. */
  method PrintAndExtractAll(host: Endian, size: nat, incr: nat, addrs: seq<Addr>) returns (rs: seq<Outcome>)
    requires forall i :: 0 <= i < |addrs| ==> AddrFits(addrs[i])
    ensures |rs| == |addrs| && forall i :: 0 <= i < |addrs| ==> rs[i] == Found(Reread(addrs[i]))
  {
    hide Written, AddrAt, AddrWords, Reread, AddrFits, AllWords;
    var out := new OutBuf(host, size, incr);
    var i := 0;
    NoAddrs();
    assert addrs[..0] == [];
    while i < |addrs|
      invariant 0 <= i <= |addrs| && fresh(out) && fresh(out.buffer) && out.Valid()
      invariant out.idx == |out.Contents()| && out.Contents() == AllWords(addrs[..i])
    {
      ghost var was := out.Contents();
      OutVedAddr(out, addrs[i]);
      WrittenAtEnd(was, AddrWords(addrs[i]), out.Contents());
      AllWordsSnoc(addrs, i);
      i := i + 1;
    }
    assert addrs[..i] == addrs;
    var inbuf := new InBuf(out.host, out.buffer, out.dsize);
    rs, i := [], 0;
    ghost var ws := inbuf.Words();
    assert ws[0..] == ws && addrs[0..] == addrs;
    while i < |addrs|
      invariant 0 <= i <= |addrs| && fresh(inbuf) && fresh(inbuf.buffer) && inbuf.Valid()
      invariant inbuf.Words() == ws && inbuf.idx <= |ws| && ws[inbuf.idx..] == AllWords(addrs[i..])
      invariant |rs| == i && forall k :: 0 <= k < i ==> rs[k] == Found(Reread(addrs[k]))
    {
      AllWordsFrom(addrs, i);
      AddrBack(ws, inbuf.idx, addrs[i], AllWords(addrs[i + 1..]));
      Behind(ws, inbuf.idx, AddrWords(addrs[i]), AllWords(addrs[i + 1..]));
      var r := ExtractVedAddr(inbuf);
      rs, i := rs + [r], i + 1;
    }
  }

  lemma NoAddrs()
    ensures AllWords([]) == []
  {
  }
}
