/** The ring buffer of rp_fifo.h and rp_fifo.c, as a bounded sequence of bytes. */
module Fifo {

  type Byte = b: nat | b < 256

  function Min(a: nat, b: nat): nat { if a < b then a else b }

  /** The n bytes from `from` on, going round the end of the buffer. */
  function Window(s: seq<Byte>, from: nat, n: nat): (w: seq<Byte>)
    requires from <= |s| && n <= |s|
    ensures |w| == n
  {
    if from + n <= |s| then s[from..from + n] else s[from..] + s[..from + n - |s|]
  }

  /** from + n, going round the end. */
  function Wrap(from: nat, n: nat, size: nat): nat
    requires from <= size && n <= size
  {
    if from + n < size then from + n else from + n - size
  }

  /** The first n bytes of a window that does not go round, and the rest. */
  lemma WindowSplits(s: seq<Byte>, from: nat, n: nat, count: nat)
    requires from <= |s| && n <= count <= |s| && from + n <= |s|
    ensures Window(s, from, count) == s[from..from + n] + Window(s, Wrap(from, n, |s|), count - n)
  {
    var w, r := Window(s, from, count), Window(s, Wrap(from, n, |s|), count - n);
    assert w[..n] == s[from..from + n];
    assert w[n..] == r;
  }

  /** A window grows by what stands behind it. */
  lemma WindowGrows(s: seq<Byte>, from: nat, n: nat, count: nat)
    requires from <= |s| && (from < |s| || |s| == 0) && count + n <= |s| && Wrap(from, count, |s|) + n <= |s|
    ensures Window(s, from, count + n) == Window(s, from, count) + s[Wrap(from, count, |s|)..Wrap(from, count, |s|) + n]
    ensures Wrap(from, count + n, |s|) == Wrap(Wrap(from, count, |s|), n, |s|)
  {
    var tail := Wrap(from, count, |s|);
    if from + count < |s| {
      SliceSplits(s, from, tail, tail + n);
    } else {
      RoundGrows(s, from, tail, n);
    }
  }

  lemma SliceSplits(s: seq<Byte>, a: nat, b: nat, c: nat)
    requires a <= b <= c <= |s|
    ensures s[a..c] == s[a..b] + s[b..c]
  {}

  lemma RoundGrows(s: seq<Byte>, from: nat, tail: nat, n: nat)
    requires from <= |s| && tail + n <= from
    ensures Window(s, from, |s| - from + tail + n) == Window(s, from, |s| - from + tail) + s[tail..tail + n]
  {
    hide Window;
    WindowRound(s, from, tail);
    WindowRound(s, from, tail + n);
    SliceSplits(s, 0, tail, tail + n);
    Associates(s[from..], s[0..tail], s[tail..tail + n]);
  }

  lemma WindowRound(s: seq<Byte>, from: nat, m: nat)
    requires m <= from <= |s|
    ensures Window(s, from, |s| - from + m) == s[from..] + s[0..m]
  {}

  lemma Associates(a: seq<Byte>, b: seq<Byte>, c: seq<Byte>)
    ensures a + (b + c) == (a + b) + c
  {}

  /** What is written outside a window does not change it. */
  lemma WindowKept(s: seq<Byte>, t: seq<Byte>, from: nat, count: nat, n: nat)
    requires |s| == |t| && from <= |s| && (from < |s| || |s| == 0) && count + n <= |s|
    requires Wrap(from, count, |s|) + n <= |s|
    requires forall i :: 0 <= i < |s| && !(Wrap(from, count, |s|) <= i < Wrap(from, count, |s|) + n) ==> t[i] == s[i]
    ensures Window(t, from, count) == Window(s, from, count)
  {}

  class Ring {
    const buffer: array<Byte>
    var count: nat
    var head: nat
    var tail: nat

    ghost predicate Valid()
      reads this
    {
      && count <= buffer.Length
      && head <= buffer.Length && (head < buffer.Length || buffer.Length == 0)
      && tail == Wrap(head, count, buffer.Length)
    }

    ghost function Contents(): (c: seq<Byte>)
      requires Valid()
      reads this, buffer
      ensures |c| == count
    {
      Window(buffer[..], head, count)
    }

    /** rp_fifo_init */
    constructor (capacity: nat)
      ensures Valid() && Contents() == [] && buffer.Length == capacity && fresh(buffer)
    {
      buffer := new Byte[capacity](_ => 0);
      count, head, tail := 0, 0, 0;
    }

    function BytesFree(): nat
      requires Valid()
      reads this
    {
      buffer.Length - count
    }

    /** rp_fifo_consume, of bytes that rp_fifo_raw_r gave. */
    method Consume(n: nat)
      requires Valid() && n <= count && head + n <= buffer.Length
      modifies this`head, this`count
      ensures Valid() && Contents() == old(Contents())[n..]
    {
      WindowSplits(buffer[..], head, n, count);
      head := head + n;
      count := count - n;
      if head == buffer.Length {
        head := 0;
      }
    }

    /** rp_fifo_reserve, of bytes written where rp_fifo_raw_w said. */
    method Reserve(n: nat)
      requires Valid() && n <= BytesFree() && tail + n <= buffer.Length
      modifies this`tail, this`count
      ensures Valid() && Contents() == old(Contents()) + buffer[old(tail)..old(tail) + n]
    {
      WindowGrows(buffer[..], head, n, count);
      assert buffer[..][tail..tail + n] == buffer[tail..tail + n];
      tail := tail + n;
      count := count + n;
      if tail == buffer.Length {
        tail := 0;
      }
    }

    /** rp_fifo_raw_r: the longest contiguous piece at the front. */
    method RawR() returns (p: nat, n: nat)
      requires Valid()
      ensures p == head && n <= count && p + n <= buffer.Length && buffer[p..p + n] == Contents()[..n]
      ensures n == 0 <==> count == 0
      ensures n < count ==> p + n == buffer.Length
    {
      p, n := head, Min(count, buffer.Length - head);
      WindowSplits(buffer[..], head, n, count);
      assert buffer[..][p..p + n] == buffer[p..p + n];
    }

    /** rp_fifo_raw_w: the longest contiguous piece that is free. */
    method RawW() returns (p: nat, n: nat)
      requires Valid()
      ensures p == tail && n <= BytesFree() && p + n <= buffer.Length
      ensures n == 0 <==> BytesFree() == 0
      ensures n < BytesFree() ==> p + n == buffer.Length
    {
      p, n := tail, Min(BytesFree(), buffer.Length - tail);
    }

    /** Write bytes at the tail and reserve them. */
    method Fill(src: seq<Byte>)
      requires Valid() && |src| <= BytesFree() && tail + |src| <= buffer.Length
      modifies this`tail, this`count, buffer
      ensures Valid() && Contents() == old(Contents()) + src
    {
      hide Window;
      ghost var was := buffer[..];
      forall i | 0 <= i < |src| {
        buffer[tail + i] := src[i];
      }
      WindowKept(was, buffer[..], head, count, |src|);
      assert buffer[tail..tail + |src|] == src;
      Reserve(|src|);
    }

    /** rp_fifo_put */
    method Put(src: seq<Byte>) returns (ret: nat, ghost copies: nat)
      requires Valid()
      modifies this`tail, this`count, buffer
      ensures Valid() && ret == Min(|src|, old(BytesFree())) && copies <= 2
      ensures Contents() == old(Contents()) + src[..ret]
    {
      hide Window;
      ret, copies := Min(|src|, BytesFree()), 0;
      var p: nat, n: nat := 0, ret;
      while n > 0
        invariant Valid() && p + n == ret && n <= BytesFree()
        invariant Contents() == old(Contents()) + src[..p]
        invariant copies == 0 || (copies == 1 && (n == 0 || tail == 0)) || (copies == 2 && n == 0)
      {
        var s := Min(n, buffer.Length - tail);
        assert src[..p + s] == src[..p] + src[p..p + s];
        Fill(src[p..p + s]);
        p, n := p + s, n - s;
        copies := copies + 1;
      }
    }

    /** Copy s bytes from the head to dest and consume them. */
    method Drain(dest: array<Byte>, p: nat, s: nat)
      requires Valid() && s <= count && head + s <= buffer.Length && p + s <= dest.Length && dest != buffer
      modifies this`head, this`count, dest
      ensures Valid() && Contents() == old(Contents())[s..]
      ensures dest[..p + s] == old(dest[..p]) + old(Contents())[..s] && dest[p + s..] == old(dest[p + s..])
    {
      WindowSplits(buffer[..], head, s, count);
      assert buffer[head..head + s] == Contents()[..s];
      forall i | 0 <= i < s {
        dest[p + i] := buffer[head + i];
      }
      Consume(s);
    }

    /** rp_fifo_get */
    method Get(dest: array<Byte>, n: nat) returns (ret: nat, ghost copies: nat)
      requires Valid() && n <= dest.Length && dest != buffer
      modifies this`head, this`count, dest
      ensures Valid() && ret == Min(n, old(count)) && copies <= 2
      ensures dest[..ret] == old(Contents())[..ret] && dest[ret..] == old(dest[ret..])
      ensures Contents() == old(Contents())[ret..]
    {
      hide Window;
      ret, copies := Min(n, count), 0;
      var p: nat, m: nat := 0, ret;
      ghost var all := Contents();
      while m > 0
        invariant Valid() && p + m == ret && m <= count
        invariant Contents() == all[p..]
        invariant dest[..p] == all[..p]
        invariant dest[ret..] == old(dest[ret..])
        invariant copies == 0 || (copies == 1 && (m == 0 || head == 0)) || (copies == 2 && m == 0)
      {
        var s := Min(m, buffer.Length - head);
        assert all[..p] + all[p..][..s] == all[..p + s];
        ghost var rest := dest[p + s..];
        assert rest[ret - p - s..] == dest[ret..];
        Drain(dest, p, s);
        assert dest[p + s..][ret - p - s..] == dest[ret..];
        p, m := p + s, m - s;
        copies := copies + 1;
      }
    }
  }
}
