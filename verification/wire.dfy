/** The socket reads of part9/server.cpp, part8/server.cpp and
    part9/client.cpp, and the 4-byte integers the client and the server
    exchange. A socket is the sequence of results its `read` calls return;
    what the peer sends is the concatenation of the chunks. */
module Wire {
  import opened Wrappers

  type byte = x: int | 0 <= x < 256

  /** The result of one `read` call: some bytes, end of file (a read of 0
      bytes), or -1 with `errno` set to `EINTR`, to `EAGAIN` or
      `EWOULDBLOCK`, or to anything else. A `Chunk` of no bytes stands for
      no real read (`ReadExact` leaves one behind when it uses up a chunk
      exactly): it delivers nothing and every operation here just moves on
      to the next read. */
  datatype Read<T> = Chunk(data: seq<T>) | Eof | Interrupted | WouldBlock | Failed

  /** The data the reads deliver before the first one that ends the stream:
      end of file or any error except an interrupted call. Running out of
      reads counts as end of file. */
  function Delivered<T>(rs: seq<Read<T>>): seq<T> {
    if |rs| == 0 then []
    else match rs[0]
      case Chunk(d) => d + Delivered(rs[1..])
      case Interrupted => Delivered(rs[1..])
      case _ => []
  }

  /** `read_exact(fd, buf, n)`: read until `n` bytes have arrived, retrying
      interrupted calls; give up on end of file or any other error. A read
      asks for the bytes still missing, so a chunk longer than that is cut
      and its tail is what the next read returns. The result is the bytes
      read (`None` for `false`) and the reads still to come. */
  function ReadExact<T>(rs: seq<Read<T>>, n: nat): (r: (Option<seq<T>>, seq<Read<T>>))
    ensures r.0.Some? <==> |Delivered(rs)| >= n
    ensures r.0.Some? ==> r.0.value == Delivered(rs)[..n] && Delivered(r.1) == Delivered(rs)[n..]
    decreases n, |rs|
  {
    if n == 0 then (Some([]), rs)
    else if |rs| == 0 then (None, [])
    else match rs[0]
      case Chunk(d) =>
        if |d| < n then
          var t := ReadExact(rs[1..], n - |d|);
          (if t.0.Some? then Some(d + t.0.value) else None, t.1)
        else
          var next := [Chunk(d[n..])] + rs[1..];
          assert Delivered(next) == d[n..] + Delivered(rs[1..]) by {
            assert next[1..] == rs[1..];
          }
          (Some(d[..n]), next)
      case Interrupted => ReadExact(rs[1..], n)
      case _ => (None, rs[1..])
  }

  // ---------------------------------------------------------------------
  // 4-byte integers, as the client writes them and the server reads them.

  const Two32 := 0x1_0000_0000

  predicate IsInt32(x: int) {
    -0x8000_0000 <= x < 0x8000_0000
  }

  /** The bytes of `int x` in memory, least significant first: two's
      complement, as both ends store it on the same host. */
  function Encode32(x: int): (b: seq<byte>)
    requires IsInt32(x)
    ensures |b| == 4
  {
    var u := if x < 0 then x + Two32 else x;
    [u % 256, u / 256 % 256, u / 256 / 256 % 256, u / 256 / 256 / 256]
  }

  /** Four bytes read as an unsigned number, least significant first. */
  function Unsigned(b: seq<byte>): (u: int)
    requires |b| == 4
    ensures 0 <= u < Two32
  {
    b[0] + 256 * (b[1] + 256 * (b[2] + 256 * b[3] as int))
  }

  /** The `int` four bytes in memory hold. */
  function Decode32(b: seq<byte>): (x: int)
    requires |b| == 4
    ensures IsInt32(x)
  {
    var u := Unsigned(b);
    if u < 0x8000_0000 then u else u - Two32
  }

  /** Every `int` survives the trip through its bytes. */
  lemma Decode32Encode32(x: int)
    requires IsInt32(x)
    ensures Decode32(Encode32(x)) == x
  {
    var u := if x < 0 then x + Two32 else x;
    var b := Encode32(x);
    assert Unsigned(b) == u;
  }

  /** Every four bytes are the bytes of the `int` they hold. */
  lemma Encode32Decode32(b: seq<byte>)
    requires |b| == 4
    ensures Encode32(Decode32(b)) == b
  {
    var u := Unsigned(b);
    var x := Decode32(b);
    assert (if x < 0 then x + Two32 else x) == u;
    var e := Encode32(x);
    Digit(b[0], b[1] + 256 * (b[2] + 256 * b[3] as int));
    Digit(b[1], b[2] + 256 * b[3] as int);
    Digit(b[2], b[3]);
  }

  /** The lowest base-256 digit and the rest. */
  lemma Digit(d: byte, a: int)
    ensures (d + 256 * a) % 256 == d && (d + 256 * a) / 256 == a
  {
  }

  /** `read_exact(fd, &x, sizeof(int))`. */
  function ReadInt(rs: seq<Read<byte>>): (r: (Option<int>, seq<Read<byte>>))
    ensures r.0.Some? <==> |Delivered(rs)| >= 4
  {
    var t := ReadExact(rs, 4);
    (if t.0.Some? then Some(Decode32(t.0.value)) else None, t.1)
  }

  /** An `int` the peer wrote is the `int` read, and reading takes exactly
      its four bytes off the stream. */
  lemma ReadIntWritten(rs: seq<Read<byte>>, x: int, tail: seq<byte>)
    requires IsInt32(x) && Delivered(rs) == Encode32(x) + tail
    ensures ReadInt(rs).0 == Some(x) && Delivered(ReadInt(rs).1) == tail
  {
    var t := ReadExact(rs, 4);
    assert Delivered(rs)[..4] == Encode32(x);
    assert Delivered(rs)[4..] == tail;
    Decode32Encode32(x);
  }

  /** The bytes of several `int`s written one after another. */
  function EncodeInts(ws: seq<int>): (b: seq<byte>)
    requires forall i :: 0 <= i < |ws| ==> IsInt32(ws[i])
    ensures |b| == 4 * |ws|
  {
    if |ws| == 0 then [] else Encode32(ws[0]) + EncodeInts(ws[1..])
  }

  /** The whole `int`s in a byte stream, in order; fewer than four bytes
      left over are not an `int`. */
  function DecodeInts(b: seq<byte>): (ws: seq<int>)
    ensures |ws| == |b| / 4
    ensures forall i :: 0 <= i < |ws| ==> IsInt32(ws[i])
  {
    if |b| < 4 then [] else [Decode32(b[..4])] + DecodeInts(b[4..])
  }

  /** The `int`s the client writes are the `int`s the server reads, one
      `read_exact(fd, &x, sizeof(int))` at a time. */
  lemma {:induction false} DecodeEncodeInts(ws: seq<int>)
    requires forall i :: 0 <= i < |ws| ==> IsInt32(ws[i])
    ensures DecodeInts(EncodeInts(ws)) == ws
    decreases |ws|
  {
    if |ws| > 0 {
      var b := EncodeInts(ws);
      assert b[..4] == Encode32(ws[0]);
      assert b[4..] == EncodeInts(ws[1..]);
      Decode32Encode32(ws[0]);
      DecodeEncodeInts(ws[1..]);
      assert [ws[0]] + ws[1..] == ws;
    }
  }
}
