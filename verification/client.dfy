/** `recv_until_delim` in part9/client.cpp: the client keeps the bytes it
    has read but not yet consumed in a stash, and returns one message at a
    time, cut at a delimiter. */
module Client {
  import opened Wire
  import Text
  import Pipeline
  import opened Graphs

  /** What a call leaves behind: its return value, `out`, the stash, and
      the reads still to come. */
  datatype Framed = Framed(ok: bool, out: seq<char>, stash: seq<char>, rest: seq<Read<char>>)

  /** `recv_until_delim(sock, delim, out, stash)`: look for the delimiter
      in the stash; if it is there, cut the message off and return true
      without reading; otherwise read, append what arrived and look again.
      End of file, a would-block error and any other error return false;
      an interrupted read is retried. */
  function RecvUntilDelim(rs: seq<Read<char>>, delim: char, out: seq<char>, stash: seq<char>): (r: Framed)
    ensures r.ok <==> delim in stash + Delivered(rs)
    ensures r.ok ==>
      var m := stash + Delivered(rs);
      var p := Text.Find(m, delim);
      r.out == m[..p] && r.stash + Delivered(r.rest) == m[p + 1..]
    ensures !r.ok ==> r.out == out
    decreases |rs|
  {
    var p := Text.Find(stash, delim);
    if p < |stash| then
      FindExtends(stash, Delivered(rs), delim);
      Framed(true, stash[..p], stash[p + 1..], rs)
    else if |rs| == 0 then Framed(false, out, stash, [])
    else
      match rs[0]
      case Chunk(d) =>
        assert stash + Delivered(rs) == (stash + d) + Delivered(rs[1..]);
        RecvUntilDelim(rs[1..], delim, out, stash + d)
      case Interrupted => RecvUntilDelim(rs[1..], delim, out, stash)
      case _ => Framed(false, out, stash, rs[1..])
  }

  /** The first delimiter of a text is still the first once more text
      follows. */
  lemma FindExtends(a: seq<char>, b: seq<char>, c: char)
    requires c in a
    ensures Text.Find(a + b, c) == Text.Find(a, c)
    ensures (a + b)[..Text.Find(a, c)] == a[..Text.Find(a, c)]
    ensures (a + b)[Text.Find(a, c) + 1..] == a[Text.Find(a, c) + 1..] + b
  {
    var p := Text.Find(a, c);
    FindPrefix(a + b, p, c);
  }

  lemma FindPrefix(s: seq<char>, p: nat, c: char)
    requires p < |s| && s[p] == c
    requires forall j :: 0 <= j < p ==> s[j] != c
    ensures Text.Find(s, c) == p
  {
    var f := Text.Find(s, c);
    assert f <= p;
  }

  /** With the delimiter already in the stash, the call returns at once:
      no read is made. */
  lemma StashedMessage(rs: seq<Read<char>>, delim: char, out: seq<char>, stash: seq<char>)
    requires delim in stash
    ensures var p := Text.Find(stash, delim);
      RecvUntilDelim(rs, delim, out, stash) == Framed(true, stash[..p], stash[p + 1..], rs)
  {
  }

  /** End of file before any delimiter: false, with `out` and the stash as
      they were. */
  lemma EndOfFile(rs: seq<Read<char>>, delim: char, out: seq<char>, stash: seq<char>)
    requires delim !in stash && |rs| > 0 && rs[0] == Eof
    ensures RecvUntilDelim(rs, delim, out, stash) == Framed(false, out, stash, rs[1..])
  {
    assert Text.Find(stash, delim) == |stash|;
  }

  /** A read that would block ends the call with false; the stash keeps
      what arrived before. */
  lemma WouldBlockEnds(rs: seq<Read<char>>, delim: char, out: seq<char>, stash: seq<char>)
    requires delim !in stash && |rs| > 0 && rs[0] == WouldBlock
    ensures RecvUntilDelim(rs, delim, out, stash) == Framed(false, out, stash, rs[1..])
  {
    assert Text.Find(stash, delim) == |stash|;
  }

  /** An interrupted read changes nothing and the call goes on. */
  lemma InterruptedRetries(rs: seq<Read<char>>, delim: char, out: seq<char>, stash: seq<char>)
    requires delim !in stash && |rs| > 0 && rs[0] == Interrupted
    ensures RecvUntilDelim(rs, delim, out, stash) == RecvUntilDelim(rs[1..], delim, out, stash)
  {
    assert Text.Find(stash, delim) == |stash|;
  }

  /** The bytes a read returns are appended to the stash before the search
      is repeated. */
  lemma ChunkAppends(rs: seq<Read<char>>, delim: char, out: seq<char>, stash: seq<char>)
    requires delim !in stash && |rs| > 0 && rs[0].Chunk?
    ensures RecvUntilDelim(rs, delim, out, stash) == RecvUntilDelim(rs[1..], delim, out, stash + rs[0].data)
  {
    assert Text.Find(stash, delim) == |stash|;
  }

  /** A message that ends in its only delimiter arrives whole, however it
      is cut into reads, and what follows it stays for the next call. */
  lemma ReceiveDelimited(rs: seq<Read<char>>, s: seq<char>, later: seq<char>, out: seq<char>)
    requires Text.Delimited(s) && Delivered(rs) == s + later
    ensures var r := RecvUntilDelim(rs, '}', out, []);
      r.ok && r.out == s[..|s| - 1] && r.stash + Delivered(r.rest) == later
  {
    FirstAtEnd(s, later, '}');
    assert [] + Delivered(rs) == s + later;
  }

  /** Whatever way the server's reply is cut into reads, the client gets
      the whole reply of part9/server.cpp without its brace, and keeps
      whatever arrived after it. */
  lemma ReceiveReply(rs: seq<Read<char>>, res: Pipeline.Result, later: seq<char>, out: seq<char>)
    requires Delivered(rs) == Text.ToString(res) + later
    ensures var s := Text.ToString(res); var r := RecvUntilDelim(rs, '}', out, []);
      r.ok && r.out == s[..|s| - 1] && r.stash + Delivered(r.rest) == later
  {
    Text.ToStringDelimited(res);
    ReceiveDelimited(rs, Text.ToString(res), later, out);
  }

  /** The same for the reply of part8/server.cpp. */
  lemma ReceiveAllText(rs: seq<Read<char>>, g: Graph, res: Pipeline.Result, later: seq<char>, out: seq<char>)
    requires Shaped(g)
    requires Delivered(rs) == Text.AllText(g, res) + later
    ensures var s := Text.AllText(g, res); var r := RecvUntilDelim(rs, '}', out, []);
      r.ok && r.out == s[..|s| - 1] && r.stash + Delivered(r.rest) == later
  {
    Text.AllTextDelimited(g, res);
    ReceiveDelimited(rs, Text.AllText(g, res), later, out);
  }

  /** A text whose only delimiter is its last character is cut exactly
      there, whatever follows. */
  lemma FirstAtEnd(s: seq<char>, later: seq<char>, c: char)
    requires |s| > 0 && s[|s| - 1] == c && c !in s[..|s| - 1]
    ensures c in s + later
    ensures Text.Find(s + later, c) == |s| - 1
    ensures (s + later)[..|s| - 1] == s[..|s| - 1] && (s + later)[|s|..] == later
  {
    assert (s + later)[|s| - 1] == c;
    forall j | 0 <= j < |s| - 1
      ensures (s + later)[j] != c
    {
      assert (s + later)[j] == s[..|s| - 1][j];
    }
    FindPrefix(s + later, |s| - 1, c);
  }
}
