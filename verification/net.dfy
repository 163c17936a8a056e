/**
 * The byte and address helpers of src/net.c: the iovec cursor of
 * forward_iov, the retry and remaining-length accounting of do_read and
 * do_write, the address-family decision of addr_to_str, the byte placement
 * of str_to_addr and the dotted-quad text of sockaddr_in_to_str.
 */
module Net {
  import opened Sys
  import opened Util

  // ---------------------------------------------------------------------
  // iovec cursor
  // ---------------------------------------------------------------------

  /** One `struct iovec`: `len` bytes starting at address `base`. */
  datatype IoVec = IoVec(base: nat, len: nat)

  /** The addresses of the bytes an iovec covers, in order. */
  function Span(v: IoVec): (s: seq<nat>)
    ensures |s| == v.len
  {
    seq(v.len, k => v.base + k)
  }

  /** The number of bytes a run of iovecs covers. */
  function Total(vs: seq<IoVec>): nat
  {
    if vs == [] then 0 else vs[0].len + Total(vs[1..])
  }

  /** The addresses of the bytes a run of iovecs covers, in sending order. */
  function Stream(vs: seq<IoVec>): (s: seq<nat>)
    ensures |s| == Total(vs)
  {
    if vs == [] then [] else Span(vs[0]) + Stream(vs[1..])
  }

  /**
   * The number of leading iovecs that `len` bytes use up entirely: the
   * first `n` cover at most `len` bytes and the first `n + 1` more.
   */
  function Consumed(vs: seq<IoVec>, len: nat): (n: nat)
    requires len < Total(vs)
    ensures n < |vs|
    ensures forall k | 0 <= k < n :: vs[k].len <= len
    ensures Total(vs[..n]) <= len < Total(vs[..n + 1])
  {
    if vs[0].len <= len then
      var m := Consumed(vs[1..], len - vs[0].len);
      assert vs[..1 + m][1..] == vs[1..][..m];
      assert vs[..1 + m + 1][1..] == vs[1..][..m + 1];
      1 + m
    else
      assert vs[..1][1..] == [];
      0
  }

  lemma DropAcross<T>(a: seq<T>, b: seq<T>, r: nat)
    requires |a| <= r <= |a| + |b|
    ensures (a + b)[r..] == b[r - |a|..]
  {
  }

  lemma DropWithin<T>(a: seq<T>, b: seq<T>, r: nat)
    requires r <= |a|
    ensures (a + b)[r..] == a[r..] + b
  {
  }

  /** Advancing an iovec by `r` bytes leaves the rest of its span. */
  lemma SpanAdvance(v: IoVec, r: nat)
    requires r <= v.len
    ensures Span(IoVec(v.base + r, v.len - r)) == Span(v)[r..]
  {
    var s, t := Span(IoVec(v.base + r, v.len - r)), Span(v)[r..];
    assert forall k | 0 <= k < |s| :: s[k] == t[k];
  }

  /** A `struct msghdr` as do_write uses it: the iovec array, the entry msg_iov points at and msg_iovlen. */
  class MsgHdr {
    var iov: array<IoVec>
    var first: nat
    var iovlen: nat

    ghost predicate Valid()
      reads this
    {
      first + iovlen <= iov.Length
    }

    /** The iovecs still to send. */
    ghost function Pending(): seq<IoVec>
      reads this, iov
      requires Valid()
    {
      iov[first..first + iovlen]
    }

    constructor (iov: array<IoVec>)
      ensures Valid() && this.iov == iov && first == 0 && iovlen == iov.Length
      ensures Pending() == iov[..]
    {
      this.iov := iov;
      first := 0;
      iovlen := iov.Length;
    }
  }

  /**
   * forward_iov: skip `len` bytes that were sent. Entries that the bytes
   * use up entirely are dropped from the cursor, and the entry where the
   * bytes end is advanced in place.
   */
  method ForwardIov(msg: MsgHdr, len: nat)
    requires msg.Valid() && len < Total(msg.Pending())
    modifies msg, msg.iov
    ensures msg.Valid() && msg.iov == old(msg.iov)
    ensures msg.first == old(msg.first) + Consumed(old(msg.Pending()), len)
    ensures msg.iovlen == old(msg.iovlen) - Consumed(old(msg.Pending()), len)
    ensures Stream(msg.Pending()) == Stream(old(msg.Pending()))[len..]
    ensures Total(msg.Pending()) == Total(old(msg.Pending())) - len
    ensures msg.iovlen > 0 && msg.Pending()[0].len > 0
    ensures msg.Pending()[1..] == old(msg.Pending())[Consumed(old(msg.Pending()), len) + 1..]
    ensures forall k | 0 <= k < msg.iov.Length && k != msg.first :: msg.iov[k] == old(msg.iov[k])
  {
    ghost var start := msg.Pending();
    var remaining, p := SkipWhole(msg, len, start);
    AdvanceFirst(msg, remaining);
  }

  /** The loop of forward_iov: drop every entry the `len` bytes use up entirely. */
  method SkipWhole(msg: MsgHdr, len: nat, ghost start: seq<IoVec>) returns (remaining: nat, ghost rest: seq<IoVec>)
    requires msg.Valid() && start == msg.Pending() && len < Total(start)
    modifies msg
    ensures msg.Valid() && msg.iov == old(msg.iov) && msg.Pending() == rest
    ensures rest != [] && remaining < rest[0].len
    ensures msg.first == old(msg.first) + Consumed(start, len) && msg.iovlen == old(msg.iovlen) - Consumed(start, len)
    ensures rest == start[Consumed(start, len)..]
    ensures Stream(rest)[remaining..] == Stream(start)[len..]
  {
    ghost var f0 := msg.first;
    rest := start;
    remaining := len;
    while msg.iov[msg.first].len <= remaining
      invariant msg.Valid() && msg.iov == old(msg.iov)
      invariant 0 < |rest| <= |start| && msg.first == f0 + (|start| - |rest|) && msg.iovlen == |rest|
      invariant msg.Pending() == rest && msg.iov[msg.first] == rest[0]
      invariant rest == start[|start| - |rest|..]
      invariant remaining < Total(rest)
      invariant Stream(rest)[remaining..] == Stream(start)[len..]
      invariant |start| - |rest| + Consumed(rest, remaining) == Consumed(start, len)
      decreases msg.iovlen
    {
      ForwardStep(rest, remaining);
      remaining := remaining - msg.iov[msg.first].len;
      DropFirst(msg);
      assert start[|start| - |rest|..][1..] == start[|start| - |rest| + 1..];
      rest := rest[1..];
    }
  }

  /** `msg_iov++; msg_iovlen--`: the cursor moves past its first entry. */
  method DropFirst(msg: MsgHdr)
    requires msg.Valid() && msg.iovlen > 1
    modifies msg
    ensures msg.Valid() && msg.iov == old(msg.iov)
    ensures msg.first == old(msg.first) + 1 && msg.iovlen == old(msg.iovlen) - 1
    ensures msg.Pending() == old(msg.Pending())[1..] && msg.iov[msg.first] == msg.Pending()[0]
  {
    msg.first := msg.first + 1;
    msg.iovlen := msg.iovlen - 1;
  }

  /** The last two lines of forward_iov: advance the current entry in place by `r` bytes. */
  method AdvanceFirst(msg: MsgHdr, r: nat)
    requires msg.Valid() && msg.iovlen > 0 && r < msg.Pending()[0].len
    modifies msg.iov
    ensures msg.Valid() && msg.Pending()[0] == IoVec(old(msg.Pending())[0].base + r, old(msg.Pending())[0].len - r)
    ensures msg.Pending()[1..] == old(msg.Pending())[1..]
    ensures Stream(msg.Pending()) == Stream(old(msg.Pending()))[r..]
    ensures Total(msg.Pending()) == Total(old(msg.Pending())) - r
    ensures forall k | 0 <= k < msg.iov.Length && k != msg.first :: msg.iov[k] == old(msg.iov[k])
  {
    ghost var p := msg.Pending();
    var v := msg.iov[msg.first];
    msg.iov[msg.first] := IoVec(v.base + r, v.len - r);
    ghost var q := msg.Pending();
    assert q == [IoVec(v.base + r, v.len - r)] + p[1..];
    ForwardFinish(p, r);
    assert |Stream(q)| == Total(q);
  }

  /** Skipping a whole first entry: the rest of the stream and the count move past it. */
  lemma ForwardStep(p: seq<IoVec>, r: nat)
    requires r < Total(p) && p[0].len <= r
    ensures r - p[0].len < Total(p[1..])
    ensures Stream(p)[r..] == Stream(p[1..])[r - p[0].len..]
    ensures Consumed(p, r) == 1 + Consumed(p[1..], r - p[0].len)
  {
    DropAcross(Span(p[0]), Stream(p[1..]), r);
  }

  /** Advancing the first entry in place by fewer bytes than it holds. */
  lemma ForwardFinish(p: seq<IoVec>, r: nat)
    requires p != [] && r < p[0].len
    ensures Stream([IoVec(p[0].base + r, p[0].len - r)] + p[1..]) == Stream(p)[r..]
  {
    var w := IoVec(p[0].base + r, p[0].len - r);
    StreamUnfold(p);
    StreamCons(w, p[1..]);
    SpanAdvance(p[0], r);
    DropHead(Stream(p), Span(p[0]), Stream(p[1..]), Stream([w] + p[1..]), Span(w), r);
  }

  lemma StreamUnfold(p: seq<IoVec>)
    requires p != []
    ensures Stream(p) == Span(p[0]) + Stream(p[1..])
  {
  }

  lemma StreamCons(v: IoVec, rest: seq<IoVec>)
    ensures Stream([v] + rest) == Span(v) + Stream(rest)
  {
    assert ([v] + rest)[1..] == rest;
  }

  /** Replacing the head `a` of `a + b` by its suffix from `r` drops the first `r` elements. */
  lemma DropHead<T>(whole: seq<T>, a: seq<T>, b: seq<T>, advanced: seq<T>, a2: seq<T>, r: nat)
    requires whole == a + b && advanced == a2 + b && r <= |a| && a2 == a[r..]
    ensures advanced == whole[r..]
  {
    DropWithin(a, b, r);
  }

  /** The number of EAGAIN failures in a run of results. */
  function EagainCount(s: seq<SysResult>): nat
  {
    if s == [] then 0
    else EagainCount(s[..|s| - 1]) + (if s[|s| - 1] == Err(EAGAIN) then 1 else 0)
  }

  lemma EagainCountStep(s: seq<SysResult>, pos: nat)
    requires pos < |s|
    ensures EagainCount(s[..pos + 1]) == EagainCount(s[..pos]) + (if s[pos] == Err(EAGAIN) then 1 else 0)
  {
    assert s[..pos + 1][..pos] == s[..pos];
  }

  /** A failure that do_read and do_write retry: EINTR always, EAGAIN while the budget lasts. */
  predicate Retried(r: SysResult)
  {
    r == Err(EINTR) || r == Err(EAGAIN)
  }

  /**
   * What do_read makes of the script from entry `pos` on, with `remain`
   * bytes still to read and `repeat` EAGAIN retries left: the outcome and
   * the sizes of the successful reads, in order.
   */
  function ReadFrom(len: nat, remain: nat, repeat: nat, script: seq<SysResult>, pos: nat): (r: (Call<int>, seq<nat>))
    requires pos <= |script|
    decreases |script| - pos
  {
    if pos == |script| then (Pending, [])
    else match Clamp(script[pos], remain)
      case Ok(n) =>
        if n == 0 then (Returned(0, pos + 1), [])
        else if n == remain then (Returned(len, pos + 1), [n])
        else After([n], ReadFrom(len, remain - n, repeat, script, pos + 1))
      case Err(e) =>
        if e == EINTR then ReadFrom(len, remain, repeat, script, pos + 1)
        else if e == EAGAIN && repeat > 0 then ReadFrom(len, remain, repeat - 1, script, pos + 1)
        else (Returned(-1, pos + 1), [])
  }

  /**
   * Every entry do_read consumes before its last one is a read of some but
   * not all of what remains, or a retried failure; when the script runs out
   * first, every entry was one of those. The reads add up to at most what
   * remained, and to less of it when the call is still pending.
   */
  lemma {:induction false} ReadFromEntries(len: nat, remain: nat, repeat: nat, script: seq<SysResult>, pos: nat)
    requires pos <= |script| && remain > 0
    ensures var r := ReadFrom(len, remain, repeat, script, pos);
      && (r.0.Returned? ==> pos < r.0.used <= |script| && forall k | pos <= k < r.0.used - 1 :: (script[k].Ok? && 0 < script[k].n < remain) || Retried(script[k]))
      && (r.0.Pending? ==> forall k | pos <= k < |script| :: (script[k].Ok? && 0 < script[k].n < remain) || Retried(script[k]))
      && (r.0.Pending? ==> Sum(r.1) < remain)
      && Sum(r.1) <= remain
    decreases |script| - pos
  {
    if pos < |script| {
      var rest := ReadFrom(len, remain, repeat, script, pos + 1);
      match Clamp(script[pos], remain)
      case Ok(n) =>
        if 0 < n < remain {
          ReadFromEntries(len, remain - n, repeat, script, pos + 1);
          var tail := ReadFrom(len, remain - n, repeat, script, pos + 1);
          assert ([n] + tail.1)[1..] == tail.1;
        } else if n == remain {
          assert Sum([n]) == n;
        }
      case Err(e) =>
        if e == EINTR {
          ReadFromEntries(len, remain, repeat, script, pos + 1);
        } else if e == EAGAIN && repeat > 0 {
          ReadFromEntries(len, remain, repeat - 1, script, pos + 1);
        }
    }
  }

  /**
   * do_read: read `len` bytes, retrying EINTR without limit and EAGAIN at
   * most `maxCount` times. It returns `len` once the reads add up to it,
   * 0 at end of stream (even after a partial read) and -1 on a failure.
   * `chunks` lists the size of each successful read.
   */
  method DoRead(len: nat, maxCount: nat, script: seq<SysResult>) returns (c: Call<int>, ghost chunks: seq<nat>)
    requires maxCount < 0x8000_0000
    ensures (c, chunks) == ReadFrom(len, len, maxCount, script, 0)
    ensures len > 0 && c.Returned? ==>
      c.used <= |script| && forall k | 0 <= k < c.used - 1 :: (script[k].Ok? && 0 < script[k].n < len) || Retried(script[k])
    ensures len > 0 && c.Pending? ==>
      forall k | 0 <= k < |script| :: (script[k].Ok? && 0 < script[k].n < len) || Retried(script[k])
    ensures !c.Panicked?
    ensures c.Returned? ==> 1 <= c.used <= |script|
    ensures c.Returned? ==> c.value == len || c.value == 0 || c.value == -1
    ensures c.Returned? ==> EagainCount(script[..c.used]) <= maxCount + 1
    ensures c.Returned? && c.value == len && len > 0 ==> Sum(chunks) == len
    ensures c.Returned? && len > 0 ==> (c.value == 0 <==> script[c.used - 1] == Ok(0))
    ensures c.Returned? && c.value == -1 ==>
      && script[c.used - 1].Err? && script[c.used - 1].errno != EINTR
      && (script[c.used - 1].errno == EAGAIN ==> EagainCount(script[..c.used]) == maxCount + 1)
    ensures Sum(chunks) <= len
  {
    if len > 0 {
      ReadFromEntries(len, len, maxCount, script, 0);
    }
    var remain: nat, repeat: nat, pos: nat := len, maxCount, 0;
    chunks := [];
    AfterNone(ReadFrom(len, len, maxCount, script, 0));
    while pos < |script|
      invariant pos <= |script|
      invariant remain + Sum(chunks) == len
      invariant repeat <= maxCount && EagainCount(script[..pos]) == maxCount - repeat
      invariant len > 0 ==> remain > 0
      invariant ReadFrom(len, len, maxCount, script, 0) == After(chunks, ReadFrom(len, remain, repeat, script, pos))
      decreases |script| - pos
    {
      var r := Clamp(script[pos], remain);
      EagainCountStep(script, pos);
      pos := pos + 1;
      match r
      case Ok(n) =>
        if n == 0 {
          AfterLast(chunks, Returned(0, pos));
          return Returned(0, pos), chunks;
        }
        SumAppend(chunks, n);
        AfterConcat(chunks, [n], ReadFrom(len, remain - n, repeat, script, pos));
        chunks := chunks + [n];
        remain := remain - n;
        if remain == 0 {
          return Returned(len, pos), chunks;
        }
      case Err(e) =>
        if e == EINTR {
        } else if e == EAGAIN && repeat > 0 {
          repeat := repeat - 1;
        } else {
          AfterLast(chunks, Returned(-1, pos));
          return Returned(-1, pos), chunks;
        }
    }
    AfterLast<Call<int>, nat>(chunks, Pending);
    return Pending, chunks;
  }

  /**
   * What do_write makes of the script from entry `pos` on, with the
   * addresses `left` still to send and `repeat` EAGAIN retries left: the
   * outcome and the addresses handed over, in order. A send of nothing
   * does not end the loop: it forwards the cursor by nothing and sends again.
   */
  function WriteFrom(len: nat, repeat: nat, script: seq<SysResult>, pos: nat, left: seq<nat>): (r: (Call<int>, seq<nat>))
    requires pos <= |script|
    decreases |script| - pos
  {
    if pos == |script| then (Pending, [])
    else match Clamp(script[pos], |left|)
      case Ok(n) =>
        if n == |left| then (Returned(len, pos + 1), left)
        else After(left[..n], WriteFrom(len, repeat, script, pos + 1, left[n..]))
      case Err(e) =>
        if e == EINTR then WriteFrom(len, repeat, script, pos + 1, left)
        else if e == EAGAIN && repeat > 0 then WriteFrom(len, repeat - 1, script, pos + 1, left)
        else (Returned(-1, pos + 1), [])
  }

  /**
   * Every entry do_write consumes before its last one is a send of less
   * than what is left, or a retried failure; when the script runs out
   * first, every entry was one of those. What is handed over is always a
   * prefix of what was left, and all of it exactly when `len` is returned.
   */
  lemma {:induction false} WriteFromEntries(len: nat, repeat: nat, script: seq<SysResult>, pos: nat, left: seq<nat>)
    requires pos <= |script|
    ensures var r := WriteFrom(len, repeat, script, pos, left);
      && (r.0.Returned? ==> pos < r.0.used <= |script| && forall k | pos <= k < r.0.used - 1 :: (script[k].Ok? && script[k].n < |left|) || Retried(script[k]))
      && (r.0.Pending? ==> forall k | pos <= k < |script| :: (script[k].Ok? && script[k].n < |left|) || Retried(script[k]))
      && r.1 <= left
      && (r.0.Returned? && r.0.value == len ==> r.1 == left)
      && (r.0.Pending? && left != [] ==> |r.1| < |left|)
    decreases |script| - pos
  {
    if pos < |script| {
      match Clamp(script[pos], |left|)
      case Ok(n) =>
        if n < |left| {
          WriteFromEntries(len, repeat, script, pos + 1, left[n..]);
          var tail := WriteFrom(len, repeat, script, pos + 1, left[n..]);
          assert left == left[..n] + left[n..];
          if tail.0.Returned? && tail.0.value == len {
            assert left[..n] + tail.1 == left;
          }
        }
      case Err(e) =>
        if e == EINTR {
          WriteFromEntries(len, repeat, script, pos + 1, left);
        } else if e == EAGAIN && repeat > 0 {
          WriteFromEntries(len, repeat - 1, script, pos + 1, left);
        }
    }
  }

  /**
   * do_write: send the message until `len` bytes have gone, advancing the
   * cursor with forward_iov after each partial send, and return `len`.
   * EINTR is retried without limit, EAGAIN at most `maxCount` times; any
   * other failure returns the call's -1. `sent` is the addresses handed to
   * the kernel, in order.
   */
  method DoWrite(msg: MsgHdr, len: nat, maxCount: nat, script: seq<SysResult>) returns (c: Call<int>, ghost sent: seq<nat>)
    requires msg.Valid() && len == Total(msg.Pending())
    requires maxCount < 0x8000_0000
    modifies msg, msg.iov
    ensures (c, sent) == WriteFrom(len, maxCount, script, 0, Stream(old(msg.Pending())))
    ensures msg.Valid() && msg.iov == old(msg.iov)
    ensures !c.Panicked?
    ensures !(c.Returned? && c.value == len) ==> sent + Stream(msg.Pending()) == Stream(old(msg.Pending()))
    ensures c.Returned? ==> 1 <= c.used <= |script|
    ensures c.Returned? ==> c.value == len || c.value == -1
    ensures c.Returned? ==> EagainCount(script[..c.used]) <= maxCount + 1
    ensures c.Returned? && c.value == len ==> sent == Stream(old(msg.Pending()))
    ensures c.Returned? && c.value == -1 && len > 0 ==>
      && script[c.used - 1].Err? && script[c.used - 1].errno != EINTR
      && (script[c.used - 1].errno == EAGAIN ==> EagainCount(script[..c.used]) == maxCount + 1)
  {
    ghost var whole := Stream(msg.Pending());
    var remain: nat, repeat: nat, pos: nat := len, maxCount, 0;
    sent := [];
    AfterNone(WriteFrom(len, maxCount, script, 0, whole));
    while pos < |script|
      invariant msg.Valid() && msg.iov == old(msg.iov)
      invariant pos <= |script|
      invariant remain == Total(msg.Pending())
      invariant sent + Stream(msg.Pending()) == whole
      invariant repeat <= maxCount && EagainCount(script[..pos]) == maxCount - repeat
      invariant WriteFrom(len, maxCount, script, 0, whole) == After(sent, WriteFrom(len, repeat, script, pos, Stream(msg.Pending())))
      decreases |script| - pos
    {
      var r := Clamp(script[pos], remain);
      EagainCountStep(script, pos);
      pos := pos + 1;
      match r
      case Err(e) =>
        if e == EINTR {
        } else if e == EAGAIN && repeat > 0 {
          repeat := repeat - 1;
        } else {
          AfterLast(sent, Returned(-1, pos));
          return Returned(-1, pos), sent;
        }
      case Ok(n) =>
        ghost var before := Stream(msg.Pending());
        SentPrefix(sent, before, whole, n);
        ghost var done := sent;
        sent := sent + before[..n];
        remain := remain - n;
        if remain == 0 {
          assert before[..n] == before;
          return Returned(len, pos), sent;
        }
        ForwardSent(msg, n);
        AfterConcat(done, before[..n], WriteFrom(len, repeat, script, pos, before[n..]));
    }
    AfterLast<Call<int>, nat>(sent, Pending);
    return Pending, sent;
  }

  /** Moving the first `n` addresses of what is left to what was sent keeps their concatenation. */
  lemma SentPrefix(sent: seq<nat>, left: seq<nat>, whole: seq<nat>, n: nat)
    requires sent + left == whole && n <= |left|
    ensures (sent + left[..n]) + left[n..] == whole
    ensures n == |left| ==> sent + left[..n] == whole
  {
    assert left[..n] + left[n..] == left;
  }

  /** The cursor step of do_write after a partial send of `n` bytes. */
  method ForwardSent(msg: MsgHdr, n: nat)
    requires msg.Valid() && n < Total(msg.Pending())
    modifies msg, msg.iov
    ensures msg.Valid() && msg.iov == old(msg.iov)
    ensures Stream(msg.Pending()) == Stream(old(msg.Pending()))[n..]
    ensures Total(msg.Pending()) == Total(old(msg.Pending())) - n
  {
    ForwardIov(msg, n);
  }

  // ---------------------------------------------------------------------
  // Address family and byte placement
  // ---------------------------------------------------------------------

  datatype Family = Inet | Inet6

  /**
   * The 16-byte layout addr_to_str prints as IPv4: twelve zero bytes and a
   * nonzero byte 12 (the all-zero-prefix embedding of an IPv4 address).
   */
  predicate IsV4Embedded(addr: seq<bv8>)
    requires |addr| == 16
  {
    addr[12] != 0 && forall k | 0 <= k < 12 :: addr[k] == 0
  }

  /**
   * The family scan of addr_to_str, step for step: it only looks when
   * byte 12 is nonzero, then walks `while (!addr[oct_no] && oct_no++ < 12)`
   * and picks IPv4 when the walk stops at 12.
   */
  method AddrFamily(addr: seq<bv8>) returns (af: Family, start: nat)
    requires |addr| == 16
    ensures af == Inet <==> IsV4Embedded(addr)
    ensures start == if af == Inet then 12 else 0
  {
    af, start := Inet6, 0;
    if addr[12] != 0 {
      var octNo := 0;
      while true
        invariant 0 <= octNo <= 12
        invariant forall k | 0 <= k < octNo :: addr[k] == 0
        decreases 12 - octNo
      {
        if addr[octNo] != 0 {
          break;
        }
        var was := octNo;
        octNo := octNo + 1;
        if !(was < 12) {
          break;
        }
      }
      if octNo == 12 {
        af, start := Inet, 12;
      }
    }
  }

  /** The decimal digit for `d`. */
  function Digit(d: nat): (c: char)
    requires d < 10
    ensures '0' <= c <= '9'
  {
    ('0' as int + d) as char
  }

  predicate AllDigits(s: string)
  {
    forall k | 0 <= k < |s| :: '0' <= s[k] <= '9'
  }

  /** `%d` / `%u` of a non-negative number: its decimal digits, no leading zero. */
  function Decimal(n: nat): (s: string)
    ensures 1 <= |s| && AllDigits(s)
    ensures |s| > 1 ==> s[0] != '0'
  {
    if n < 10 then [Digit(n)] else Decimal(n / 10) + [Digit(n % 10)]
  }

  /** The value of a string of decimal digits. */
  function DecimalValue(s: string): nat
    requires AllDigits(s)
  {
    if s == [] then 0 else DecimalValue(s[..|s| - 1]) * 10 + (s[|s| - 1] as int - '0' as int)
  }

  /** Reading back the digits gives the number. */
  lemma {:induction false} DecimalRoundTrip(n: nat)
    ensures DecimalValue(Decimal(n)) == n
  {
    if n >= 10 {
      DecimalRoundTrip(n / 10);
      var s := Decimal(n);
      assert s[..|s| - 1] == Decimal(n / 10);
    }
  }

  /** A number below 10^k takes at most k digits. */
  lemma {:induction false} DecimalLength(n: nat, k: nat, bound: nat)
    requires 1 <= k && bound == Pow10(k) && n < bound
    ensures |Decimal(n)| <= k
  {
    if n >= 10 {
      if k == 1 {
        assert false;
      }
      DecimalLength(n / 10, k - 1, Pow10(k - 1));
    }
  }

  function Pow10(k: nat): nat
  {
    if k == 0 then 1 else 10 * Pow10(k - 1)
  }

  /**
   * What addr_to_str prints, short of the text inet_ntop renders: the family,
   * the address bytes it renders and the port suffix it appends.
   */
  datatype AddrText = AddrText(family: Family, octets: seq<bv8>, portSuffix: string)

  /**
   * addr_to_str: IPv4 over bytes 12..15 for the all-zero-prefix layout,
   * IPv6 over all 16 bytes otherwise, followed by ":port" when the port is
   * not 0.
   */
  method AddrToStr(addr: seq<bv8>, port: nat) returns (text: AddrText)
    requires |addr| == 16 && port < 0x1_0000
    ensures text.family == Inet <==> IsV4Embedded(addr)
    ensures text.octets == if text.family == Inet then addr[12..] else addr
    ensures |text.octets| == if text.family == Inet then 4 else 16
    ensures text.portSuffix == if port == 0 then "" else ":" + Decimal(port)
  {
    var af, start := AddrFamily(addr);
    var suffix := "";
    if port != 0 {
      suffix := ":" + Decimal(port);
    }
    text := AddrText(af, addr[start..], suffix);
  }

  /** What str_to_addr returns (NULL or the buffer) and the buffer afterwards. */
  datatype Placement = Placement(ok: bool, addr: seq<bv8>)

  function Zeros(n: nat): (z: seq<bv8>)
    ensures |z| == n && forall k | 0 <= k < n :: z[k] == 0
  {
    seq(n, _ => 0)
  }

  /**
   * str_to_addr: text without ':' is IPv4, so bytes 0..11 are zeroed and
   * the four parsed bytes go to offset 12; other text fills all 16 bytes.
   * `parsed` is what inet_pton makes of the text (None: it failed, and
   * NULL is returned; the zeroing has already happened).
   */
  function StrToAddr(ipstr: string, addr: seq<bv8>, parsed: Option<seq<bv8>>): (r: Placement)
    requires |addr| == 16
    requires parsed.Some? ==> |parsed.value| == if ':' in ipstr then 16 else 4
    ensures |r.addr| == 16
    ensures r.ok <==> parsed.Some?
    ensures ':' !in ipstr ==> r.addr[..12] == Zeros(12)
    ensures ':' !in ipstr && r.ok ==> r.addr[12..] == parsed.value
    ensures ':' !in ipstr && !r.ok ==> r.addr[12..] == addr[12..]
    ensures ':' in ipstr ==> r.addr == if r.ok then parsed.value else addr
  {
    if ':' in ipstr then
      (if parsed.Some? then Placement(true, parsed.value) else Placement(false, addr))
    else
      var cleared := Zeros(12) + addr[12..];
      if parsed.Some? then Placement(true, Zeros(12) + parsed.value) else Placement(false, cleared)
  }

  /** An IPv4 address placed by str_to_addr is printed as IPv4 again when its first octet is nonzero. */
  lemma StrToAddrKeepsIpv4(ipstr: string, addr: seq<bv8>, parsed: seq<bv8>)
    requires |addr| == 16 && ':' !in ipstr && |parsed| == 4
    ensures var r := StrToAddr(ipstr, addr, Some(parsed));
      (IsV4Embedded(r.addr) <==> parsed[0] != 0) && r.addr[12..] == parsed
  {
    var r := StrToAddr(ipstr, addr, Some(parsed));
    assert r.addr[12] == parsed[0];
  }

  /** An IPv6 address placed by str_to_addr is printed as IPv6 unless it has the all-zero prefix. */
  lemma StrToAddrKeepsIpv6(ipstr: string, addr: seq<bv8>, parsed: seq<bv8>)
    requires |addr| == 16 && ':' in ipstr && |parsed| == 16
    requires exists k | 0 <= k < 12 :: parsed[k] != 0
    ensures !IsV4Embedded(StrToAddr(ipstr, addr, Some(parsed)).addr)
  {
  }

  // ---------------------------------------------------------------------
  // Dotted quad
  // ---------------------------------------------------------------------

  /** `x`, the separator `sep`, then `rest`: one field of a printed address. */
  function Field(x: string, sep: char, rest: string): string
  {
    x + [sep] + rest
  }

  /** The five numbers of a dotted quad, each in decimal: four octets and the port. */
  function QuadFields(octets: seq<bv8>, port: nat): (f: seq<string>)
    requires |octets| == 4
    ensures |f| == 5 && forall k | 0 <= k < 5 :: AllDigits(f[k])
  {
    [Decimal(octets[0] as nat), Decimal(octets[1] as nat), Decimal(octets[2] as nat),
     Decimal(octets[3] as nat), Decimal(port)]
  }

  /** Four fields joined by '.', then ':' and the fifth. */
  function JoinQuad(f: seq<string>): string
    requires |f| == 5
  {
    Field(f[0], '.', Field(f[1], '.', Field(f[2], '.', Field(f[3], ':', f[4]))))
  }

  /** "a.b.c.d:port", each number in decimal, as sockaddr_in_to_str prints it. */
  function DottedQuad(octets: seq<bv8>, port: nat): string
    requires |octets| == 4
  {
    JoinQuad(QuadFields(octets, port))
  }

  /** What the loop of sockaddr_in_to_str still has to print once `i` fields are out. */
  function QuadTail(f: seq<string>, i: nat): string
    requires |f| == 5 && i <= 4
    decreases 4 - i
  {
    if i == 4 then ":" + f[4]
    else f[i] + (if i != 3 then "." else "") + QuadTail(f, i + 1)
  }

  /**
   * sockaddr_in_to_str: the four bytes of `sin_addr` in memory order, in
   * decimal, joined by '.', then ':' and the `sin_port` field as it is
   * stored. The text never needs more than the 32-byte buffer.
   */
  method SockaddrInToStr(octets: seq<bv8>, port: nat) returns (s: string)
    requires |octets| == 4 && port < 0x1_0000
    ensures s == DottedQuad(octets, port)
    ensures |s| < 32
  {
    ghost var f := QuadFields(octets, port);
    s := "";
    for i := 0 to 4
      invariant s + QuadTail(f, i) == QuadTail(f, 0)
    {
      var field := Decimal(octets[i] as nat) + (if i != 3 then "." else "");
      Regroup(s, field, QuadTail(f, i + 1));
      s := s + field;
    }
    Regroup(s, ":", Decimal(port));
    s := s + ":" + Decimal(port);
    QuadTailComplete(f);
    DottedQuadFits(octets, port);
  }

  lemma Regroup(a: string, b: string, c: string)
    ensures a + (b + c) == (a + b) + c
  {
  }

  /** Printing every field from the first one gives the joined text. */
  lemma QuadTailComplete(f: seq<string>)
    requires |f| == 5
    ensures QuadTail(f, 0) == JoinQuad(f)
  {
    assert QuadTail(f, 4) == [':'] + f[4];
    assert QuadTail(f, 3) == Field(f[3], ':', f[4]);
    assert QuadTail(f, 2) == Field(f[2], '.', QuadTail(f, 3));
    assert QuadTail(f, 1) == Field(f[1], '.', QuadTail(f, 2));
  }

  /** The widest dotted quad, "255.255.255.255:65535", has 21 characters. */
  lemma DottedQuadFits(octets: seq<bv8>, port: nat)
    requires |octets| == 4 && port < 0x1_0000
    ensures |DottedQuad(octets, port)| <= 21
  {
    assert Pow10(3) == 1000 && Pow10(5) == 100000;
    DecimalLength(octets[0] as nat, 3, 1000);
    DecimalLength(octets[1] as nat, 3, 1000);
    DecimalLength(octets[2] as nat, 3, 1000);
    DecimalLength(octets[3] as nat, 3, 1000);
    DecimalLength(port, 5, 100000);
  }

  /** Two digit strings followed by the same separator split the same way. */
  lemma SplitAtSeparator(x1: string, r1: string, x2: string, r2: string, sep: char)
    requires AllDigits(x1) && AllDigits(x2) && !('0' <= sep <= '9')
    requires Field(x1, sep, r1) == Field(x2, sep, r2)
    ensures x1 == x2 && r1 == r2
  {
    var s := x1 + [sep] + r1;
    assert s == x2 + [sep] + r2;
    assert s[|x1|] == sep;
    assert s[|x2|] == sep;
    assert |x1| == |x2|;
    assert x1 == s[..|x1|];
    assert x2 == s[..|x2|];
    assert r1 == s[|x1| + 1..];
    assert r2 == s[|x2| + 1..];
  }

  lemma DecimalInjective(m: nat, n: nat)
    requires Decimal(m) == Decimal(n)
    ensures m == n
  {
    DecimalRoundTrip(m);
    DecimalRoundTrip(n);
  }

  /** Four separated digit fields determine each field. */
  lemma JoinQuadInjective(x: seq<string>, y: seq<string>)
    requires |x| == 5 && |y| == 5
    requires forall k | 0 <= k < 4 :: AllDigits(x[k]) && AllDigits(y[k])
    requires JoinQuad(x) == JoinQuad(y)
    ensures x == y
  {
    SplitAtSeparator(x[0], Field(x[1], '.', Field(x[2], '.', Field(x[3], ':', x[4]))),
                     y[0], Field(y[1], '.', Field(y[2], '.', Field(y[3], ':', y[4]))), '.');
    SplitAtSeparator(x[1], Field(x[2], '.', Field(x[3], ':', x[4])), y[1], Field(y[2], '.', Field(y[3], ':', y[4])), '.');
    SplitAtSeparator(x[2], Field(x[3], ':', x[4]), y[2], Field(y[3], ':', y[4]), '.');
    SplitAtSeparator(x[3], x[4], y[3], y[4], ':');
  }

  /** Different addresses or ports never print the same: the text determines both. */
  lemma DottedQuadInjective(a: seq<bv8>, p: nat, b: seq<bv8>, q: nat)
    requires |a| == 4 && |b| == 4
    requires DottedQuad(a, p) == DottedQuad(b, q)
    ensures a == b && p == q
  {
    var x, y := QuadFields(a, p), QuadFields(b, q);
    JoinQuadInjective(x, y);
    assert x[0] == y[0] && x[1] == y[1] && x[2] == y[2] && x[3] == y[3] && x[4] == y[4];
    DecimalInjective(a[0] as nat, b[0] as nat);
    DecimalInjective(a[1] as nat, b[1] as nat);
    DecimalInjective(a[2] as nat, b[2] as nat);
    DecimalInjective(a[3] as nat, b[3] as nat);
    DecimalInjective(p, q);
    OctetsEqual(a, b);
  }

  lemma OctetsEqual(a: seq<bv8>, b: seq<bv8>)
    requires |a| == 4 && |b| == 4
    requires a[0] as nat == b[0] as nat && a[1] as nat == b[1] as nat
    requires a[2] as nat == b[2] as nat && a[3] as nat == b[3] as nat
    ensures a == b
  {
    ByteEqual(a[0], b[0]);
    ByteEqual(a[1], b[1]);
    ByteEqual(a[2], b[2]);
    ByteEqual(a[3], b[3]);
    assert a == [a[0], a[1], a[2], a[3]];
    assert b == [b[0], b[1], b[2], b[3]];
  }

  lemma ByteEqual(u: bv8, v: bv8)
    requires u as nat == v as nat
    ensures u == v
  {
    assert u == (u as nat) as bv8;
  }
}
