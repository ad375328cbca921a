/** Whole streams of messages: the machine over all bytes at once, the reading loop of rpbot.c
    over pieces of them, and what accepted messages look like. */
module IrcStream {
  import opened Fifo
  import opened IrcGrammar
  import opened IrcMessage

  /** The machine between two bytes, and the messages delivered so far. */
  datatype Conf = Conf(state: State, msg: Msg, out: seq<Msg>)

  /** One byte of the stream. A rejected byte leaves the machine in error for good. */
  function Feed(c: Conf, b: Byte): Conf {
    var next := Next(c.state, b);
    if next == Error then c.(state := Error)
    else
      var m := Act(c.state, b, c.msg);
      if next == Done then Conf(Start, m, c.out + [m]) else Conf(next, m, c.out)
  }

  function Fold(c: Conf, s: seq<Byte>): Conf
    decreases |s|
  {
    if s == [] then c else Fold(Feed(c, s[0]), s[1..])
  }

  lemma FoldNothing(c: Conf)
    ensures Fold(c, []) == c
  {}

  lemma {:induction false} FoldAppend(c: Conf, a: seq<Byte>, b: seq<Byte>)
    ensures Fold(c, a + b) == Fold(Fold(c, a), b)
    decreases |a|
  {
    if a == [] {
      assert a + b == b;
    } else {
      assert (a + b)[0] == a[0] && (a + b)[1..] == a[1..] + b;
      FoldAppend(Feed(c, a[0]), a[1..], b);
    }
  }

  lemma {:induction false} ErrorStays(c: Conf, s: seq<Byte>)
    requires c.state == Error
    ensures Fold(c, s) == c
    decreases |s|
  {
    if s != [] {
      assert Feed(c, s[0]) == c;
      ErrorStays(c, s[1..]);
    }
  }

  /** What the loop makes of a call's result: deliver the message if there is one. */
  function Deliver(c: Conf, r: Scanned): Conf {
    Conf(r.state, r.msg, if r.done then c.out + [r.msg] else c.out)
  }

  /** One call reads its bytes as the stream does, up to the end of the first message in them
      and no further; it stops earlier only at a byte that is rejected. */
  lemma {:induction false} ScanFolds(c: Conf, src: seq<Byte>)
    ensures var r := Scan(c.state, c.msg, src);
      && r.used <= |src|
      && (r.state != Error ==> Deliver(c, r) == Fold(c, src[..r.used]))
      && (r.state == Error ==> !r.done && Fold(c, src).state == Error && Deliver(c, r) == Fold(c, src))
      && (!r.done && r.state != Error ==> r.used == |src|)
      && (src != [] && c.state != Error && r.state != Error ==> r.used > 0)
    decreases |src|
  {
    var r := Scan(c.state, c.msg, src);
    if src == [] || c.state == Error {
      ErrorIfSo(c, src);
      assert src[..0] == [];
    } else {
      var next := Next(c.state, src[0]);
      var d := Feed(c, src[0]);
      if next == Error {
        ErrorStays(d, src[1..]);
      } else if next == Done {
        assert src[..1][0] == src[0] && src[..1][1..] == [];
      } else {
        ScanFolds(d, src[1..]);
        var q := Scan(d.state, d.msg, src[1..]);
        assert src[..r.used][0] == src[0] && src[..r.used][1..] == src[1..][..q.used];
      }
    }
  }

  lemma ErrorIfSo(c: Conf, s: seq<Byte>)
    ensures c.state == Error ==> Fold(c, s) == c
  {
    if c.state == Error {
      ErrorStays(c, s);
    }
  }

  /** A call that completes a message has used exactly the bytes through the first line feed. */
  lemma {:induction false} MessageEndsAtLineFeed(s: State, m: Msg, src: seq<Byte>)
    ensures var r := Scan(s, m, src);
      && (forall i :: 0 <= i < r.used ==> (src[i] == LF <==> r.done && i == r.used - 1))
      && (r.done ==> r.used > 0 && r.state == Start)
    decreases |src|
  {
    if src != [] && s != Error && Next(s, src[0]) != Error {
      var next := Next(s, src[0]);
      assert src[0] == LF <==> next == Done;
      if next != Done {
        MessageEndsAtLineFeed(next, Act(s, src[0], m), src[1..]);
        var q := Scan(next, Act(s, src[0], m), src[1..]);
        forall i | 1 <= i < q.used + 1
          ensures src[i] == LF <==> q.done && i == q.used
        {
          assert src[i] == src[1..][i - 1];
        }
      }
    }
  }

  // ----- the reading loop

  /** One turn of the loop over what is in the ring: parse a piece at its front and consume what
      was used. */
  function Turn(c: Conf, s: seq<Byte>, piece: nat): (Conf, seq<Byte>)
    requires piece <= |s|
  {
    var r := Scan(c.state, c.msg, s[..piece]);
    (Deliver(c, r), s[r.used..])
  }

  lemma TurnAdvances(c: Conf, s: seq<Byte>, piece: nat)
    requires 0 < piece <= |s|
    ensures var (d, t) := Turn(c, s, piece);
      && Fold(d, t) == Fold(c, s)
      && |t| <= |s|
      && (d.state != Error ==> |t| < |s|)
      && (d.state == Error ==> t != [])
  {
    var r := Scan(c.state, c.msg, s[..piece]);
    ScanFolds(c, s[..piece]);
    if r.state == Error {
      assert s == s[..piece] + s[piece..];
      FoldAppend(c, s[..piece], s[piece..]);
      ErrorStays(Deliver(c, r), s[piece..]);
      ErrorStays(Deliver(c, r), s[r.used..]);
      ErrorLeavesBytes(c.state, c.msg, s[..piece]);
    } else {
      assert s == s[..r.used] + s[r.used..] && s[..piece][..r.used] == s[..r.used];
      FoldAppend(c, s[..r.used], s[r.used..]);
      assert c.state == Error ==> r.state == Error;
    }
  }

  lemma {:induction false} ErrorLeavesBytes(s: State, m: Msg, src: seq<Byte>)
    requires src != []
    ensures Scan(s, m, src).state == Error ==> Scan(s, m, src).used < |src|
    decreases |src|
  {
    if s != Error && Next(s, src[0]) != Error && Next(s, src[0]) != Done {
      if src[1..] != [] {
        ErrorLeavesBytes(Next(s, src[0]), Act(s, src[0], m), src[1..]);
      }
    }
  }

  ghost predicate Positive(pieces: nat -> nat) {
    forall i :: pieces(i) > 0
  }

  /** The loop after `turns` turns, the i-th over a piece no longer than what is left: the loop
      does nothing once the ring is empty. */
  ghost function Turns(c: Conf, s: seq<Byte>, pieces: nat -> nat, turns: nat): (r: (Conf, seq<Byte>))
    requires Positive(pieces)
  {
    if turns == 0 then (c, s)
    else
      var (d, t) := Turns(c, s, pieces, turns - 1);
      if t == [] then (d, t) else Turn(d, t, Min(pieces(turns), |t|))
  }

  lemma {:induction false} TurnsFold(c: Conf, s: seq<Byte>, pieces: nat -> nat, turns: nat)
    requires Positive(pieces)
    ensures var (d, t) := Turns(c, s, pieces, turns);
      && Fold(d, t) == Fold(c, s)
      && (Fold(c, s).state != Error ==> d.state != Error && |t| <= (if turns < |s| then |s| - turns else 0))
      && (Fold(c, s).state == Error && s != [] ==> t != [])
  {
    hide Feed, Turn, Next;
    ErrorIfSo(c, s);
    if turns > 0 {
      TurnsFold(c, s, pieces, turns - 1);
      var (d, t) := Turns(c, s, pieces, turns - 1);
      if t != [] {
        TurnAdvances(d, t, Min(pieces(turns), |t|));
        var (e, u) := Turn(d, t, Min(pieces(turns), |t|));
        ErrorIfSo(e, u);
        FoldNothing(e);
      }
    }
  }

  /** The loop ends exactly on bytes that do not lead to the error state, however the ring cuts
      them. A rejected byte is never consumed, so one keeps the ring from ever emptying. */
  lemma LoopFollowsRun(c: Conf, s: seq<Byte>, pieces: nat -> nat)
    requires Positive(pieces)
    ensures s == [] || Fold(c, s).state != Error <==> exists turns :: Turns(c, s, pieces, turns).1 == []
  {
    if s == [] {
      assert Turns(c, s, pieces, 0).1 == [];
    } else if Fold(c, s).state != Error {
      TurnsFold(c, s, pieces, |s|);
    } else {
      forall turns: nat
        ensures Turns(c, s, pieces, turns).1 != []
      {
        TurnsFold(c, s, pieces, turns);
      }
    }
  }

  // ----- a session: bytes arrive, and the loop runs until the ring is empty

  /** The loop, however the ring cuts the bytes it is given, can come to an end in d. */
  ghost predicate Drains(c: Conf, s: seq<Byte>, d: Conf) {
    exists pieces, turns {:trigger Turns(c, s, pieces, turns)} :: Positive(pieces)
        && Turns(c, s, pieces, turns) == (d, [])
  }

  lemma DrainsTo(c: Conf, s: seq<Byte>, d: Conf)
    ensures Drains(c, s, d) <==> d == Fold(c, s) && (s == [] || d.state != Error)
  {
    if Drains(c, s, d) {
      var pieces: nat -> nat, turns: nat :| Positive(pieces) && Turns(c, s, pieces, turns) == (d, []);
      TurnsFold(c, s, pieces, turns);
      FoldNothing(d);
    }
    if d == Fold(c, s) && (s == [] || d.state != Error) {
      var ones := (i: nat) => 1;
      assert Positive(ones);
      if s == [] {
        FoldNothing(c);
        assert Turns(c, s, ones, 0) == (d, []);
      } else {
        TurnsFold(c, s, ones, |s|);
        FoldNothing(Turns(c, s, ones, |s|).0);
      }
    }
  }

  function Concat(arrivals: seq<seq<Byte>>): seq<Byte> {
    if arrivals == [] then [] else arrivals[0] + Concat(arrivals[1..])
  }

  /** The loop is run for each arrival in turn, and ends each time. */
  ghost predicate Session(c: Conf, arrivals: seq<seq<Byte>>, d: Conf)
    decreases |arrivals|
  {
    if arrivals == [] then d == c
    else exists mid :: Drains(c, arrivals[0], mid) && Session(mid, arrivals[1..], d)
  }

  /** A session over any arrivals, each cut by the ring in any way, delivers the messages of the
      whole stream; and there is one unless the machine rejects the stream. */
  lemma {:induction false} CutsDoNotMatter(c: Conf, arrivals: seq<seq<Byte>>, d: Conf)
    requires c.state != Error
    ensures Session(c, arrivals, d) <==> d == Fold(c, Concat(arrivals)) && d.state != Error
    decreases |arrivals|
  {
    if arrivals == [] {
      FoldNothing(c);
    } else {
      var mid, rest := Fold(c, arrivals[0]), Concat(arrivals[1..]);
      FoldAppend(c, arrivals[0], rest);
      ErrorIfSo(mid, rest);
      forall m
        ensures Drains(c, arrivals[0], m) <==> m == mid && m.state != Error
      {
        DrainsTo(c, arrivals[0], m);
        FoldNothing(c);
      }
      if mid.state != Error {
        CutsDoNotMatter(mid, arrivals[1..], d);
      }
    }
  }
}
