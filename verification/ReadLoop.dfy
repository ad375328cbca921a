/** The loop of main_loop in rpbot.c that drains the read buffer into the parser. */
module ReadLoop {
  import opened Fifo
  import opened IrcGrammar
  import opened IrcMessage
  import opened IrcStream

  class Reader {
    const ring: Ring
    const parser: Parser
    ghost var out: seq<Msg>

    constructor (capacity: nat)
      ensures ring.Valid() && ring.Contents() == [] && ring.buffer.Length == capacity
      ensures out == [] && parser.state == Start && fresh(ring) && fresh(ring.buffer) && fresh(parser)
    {
      ring := new Ring(capacity);
      parser := new Parser();
      out := [];
    }

    ghost function Conf(): Conf
      reads this, parser
    {
      IrcStream.Conf(parser.state, parser.View(), out)
    }

    /** The bytes at the front of the ring, up to the end of the buffer. */
    ghost function Piece(): nat
      requires ring.Valid()
      reads ring
    {
      Min(ring.count, ring.buffer.Length - ring.head)
    }

    /** One turn: parse the contiguous piece at the front, hand on a completed message, consume
        what was used. */
    method TakeTurn()
      requires ring.Valid() && ring.count > 0
      modifies this, ring`head, ring`count, parser
      ensures ring.Valid()
      ensures 0 < old(Piece()) <= old(ring.count)
      ensures (Conf(), ring.Contents()) == Turn(old(Conf()), old(ring.Contents()), old(Piece()))
    {
      var p, len := ring.RawR();
      ghost var piece, c, s := len, Conf(), ring.Contents();
      var done;
      len, done := parser.Parse(ring.buffer, p, len);
      if done {
        out := out + [parser.View()];
      }
      ring.Consume(len);
      assert (Conf(), ring.Contents()) == Turn(c, s, piece);
    }

    /** while (rp_fifo_count(ctx->read_buf) > 0). It must be called with bytes that the machine
        does not reject: with others it does not end. */
    method Drain()
      requires ring.Valid() && Fold(Conf(), ring.Contents()).state != Error
      modifies this, ring`head, ring`count, parser
      ensures ring.Valid() && ring.Contents() == []
      ensures Conf() == Fold(old(Conf()), old(ring.Contents()))
    {
      ghost var goal := Fold(Conf(), ring.Contents());
      while ring.count > 0
        invariant ring.Valid() && Fold(Conf(), ring.Contents()) == goal
        decreases ring.count
      {
        ghost var c, s, piece := Conf(), ring.Contents(), Piece();
        TakeTurn();
        TurnAdvances(c, s, piece);
        ErrorIfSo(Conf(), ring.Contents());
      }
    }

    /** do_read of rp_event.c, when bytes have arrived: read into the free piece at the tail,
        again and again, round the end of the ring if need be, until no more bytes are there yet
        or the ring is full. */
    method DoRead(stream: seq<Byte>) returns (rest: seq<Byte>)
      requires ring.Valid() && ring.BytesFree() > 0 && stream != []
      modifies ring`tail, ring`count, ring.buffer
      ensures ring.Valid() && |rest| < |stream|
      ensures exists n ::
        0 < n <= |stream| && rest == stream[n..]
        && ring.Contents() == old(ring.Contents()) + stream[..n]
    {
      hide Window;
      rest := stream;
      ghost var n := 0;
      ghost var was := ring.Contents();
      assert was + stream[..0] == was;
      while true
        invariant ring.Valid() && ring.BytesFree() > 0
        invariant 0 <= n < |stream| && rest == stream[n..] && ring.Contents() == was + stream[..n]
        decreases |rest|
      {
        var p, room := ring.RawW();
        var k :| 0 < k <= room && k <= |rest|;
        assert stream[..n] + rest[..k] == stream[..n + k] && rest[k..] == stream[n + k..];
        ring.Fill(rest[..k]);
        rest, n := rest[k..], n + k;
        if ring.BytesFree() == 0 || rest == [] {
          break;
        }
        if * {
          break;
        }
      }
    }

    /** main_loop: bytes arrive as they will, each time those that are there are read into the
        ring, and the ring is drained. What is delivered depends on the bytes alone. */
    method Receive(stream: seq<Byte>)
      requires ring.Valid() && ring.Contents() == [] && ring.buffer.Length > 0 && Fold(Conf(), stream).state != Error
      modifies this, ring`head, ring`tail, ring`count, ring.buffer, parser
      ensures ring.Valid() && ring.Contents() == []
      ensures Conf() == Fold(old(Conf()), stream)
    {
      hide Fold, Window;
      var rest := stream;
      ghost var goal := Fold(Conf(), stream);
      while rest != []
        invariant ring.Valid() && ring.Contents() == []
        invariant Fold(Conf(), rest) == goal
        decreases |rest|
      {
        rest := ReadAndDrain(rest);
      }
      FoldNothing(Conf());
    }

    /** One round of it. */
    method ReadAndDrain(stream: seq<Byte>) returns (rest: seq<Byte>)
      requires ring.Valid() && ring.Contents() == [] && ring.buffer.Length > 0 && stream != []
      requires Fold(Conf(), stream).state != Error
      modifies this, ring`head, ring`tail, ring`count, ring.buffer, parser
      ensures ring.Valid() && ring.Contents() == [] && |rest| < |stream|
      ensures Fold(Conf(), rest) == Fold(old(Conf()), stream)
    {
      hide Fold, Window;
      ghost var c := Conf();
      rest := DoRead(stream);
      ghost var n :| 0 < n <= |stream| && rest == stream[n..] && ring.Contents() == [] + stream[..n];
      assert [] + stream[..n] == stream[..n] && stream == stream[..n] + rest;
      FoldAppend(c, stream[..n], rest);
      ErrorIfSo(Fold(c, stream[..n]), rest);
      assert Conf() == c;
      Drain();
    }
  }
}
