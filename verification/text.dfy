/** The text the servers send back: `to_string` in part9/server.cpp and
    `run_all_algorithms` in part8/server.cpp, both written with an
    `ostringstream` and both ending in the `}` the client waits for. The
    partner of each is a reader that splits the text into lines and words
    and parses the numbers back. */
module Text {
  import opened Wrappers
  import opened Graphs
  import Pipeline

  // ---------------------------------------------------------------------
  // Integers as `operator<<` writes them.

  predicate IsDigit(c: char) {
    '0' <= c <= '9'
  }

  predicate AllDigits(s: seq<char>) {
    forall i :: 0 <= i < |s| ==> IsDigit(s[i])
  }

  function DigitChar(d: int): (c: char)
    requires 0 <= d < 10
    ensures IsDigit(c)
  {
    ('0' as int + d) as char
  }

  /** The decimal digits of `n`, most significant first, without leading
      zeros. */
  function Digits(n: nat): (s: seq<char>)
    ensures |s| > 0 && AllDigits(s)
    ensures |s| > 1 ==> s[0] != '0'
  {
    if n < 10 then [DigitChar(n)] else Digits(n / 10) + [DigitChar(n % 10)]
  }

  /** `out << x` for an `int`: a minus sign for negative numbers, then the
      digits. The text holds no space, line break or brace. */
  function IntToString(x: int): (s: seq<char>)
    ensures |s| > 0
    ensures forall i :: 0 <= i < |s| ==> IsDigit(s[i]) || (i == 0 && s[i] == '-')
  {
    if x < 0 then "-" + Digits(-x) else Digits(x)
  }

  /** The number a string of decimal digits spells. */
  function Value(s: seq<char>): nat
    requires AllDigits(s)
  {
    if |s| == 0 then 0 else Value(s[..|s| - 1]) * 10 + (s[|s| - 1] as int - '0' as int)
  }

  /** Reading an integer back: an optional minus sign and at least one
      digit, nothing else. */
  function ParseInt(s: seq<char>): (r: Option<int>)
    ensures r.Some? ==> |s| > 0 && (r.value < 0 ==> s[0] == '-')
  {
    if |s| == 0 then None
    else if s[0] == '-' then
      if |s| > 1 && AllDigits(s[1..]) then Some(-(Value(s[1..]) as int)) else None
    else if AllDigits(s) then Some(Value(s)) else None
  }

  lemma {:induction false} ValueDigits(n: nat)
    ensures Value(Digits(n)) == n
  {
    if n >= 10 {
      var s := Digits(n);
      assert s[..|s| - 1] == Digits(n / 10);
      ValueDigits(n / 10);
    }
  }

  /** Every `int` written is read back as itself. */
  lemma ParseIntToString(x: int)
    ensures ParseInt(IntToString(x)) == Some(x)
  {
    if x < 0 {
      assert IntToString(x)[1..] == Digits(-x);
      ValueDigits(-x);
    } else {
      ValueDigits(x);
    }
  }

  // ---------------------------------------------------------------------
  // Lines and words.

  /** The first position of `c` in `s`, or `|s|` when there is none. */
  function Find(s: seq<char>, c: char): (i: nat)
    ensures i <= |s| && (i < |s| ==> s[i] == c)
    ensures forall j :: 0 <= j < i ==> s[j] != c
  {
    if |s| == 0 then 0
    else if s[0] == c then 0
    else 1 + Find(s[1..], c)
  }

  /** The pieces of `s` between occurrences of `sep`: `k` separators give
      `k + 1` pieces, empty ones included. */
  function Split(s: seq<char>, sep: char): (r: seq<seq<char>>)
    ensures |r| > 0
    ensures forall i :: 0 <= i < |r| ==> sep !in r[i]
    decreases |s|
  {
    var i := Find(s, sep);
    if i == |s| then [s] else [s[..i]] + Split(s[i + 1..], sep)
  }

  /** Every piece followed by `sep`: how a stream writes a list of lines,
      each ended by `endl`, or of words, each followed by a space. */
  function Terminated(ls: seq<seq<char>>, sep: char): seq<char> {
    if |ls| == 0 then [] else ls[0] + [sep] + Terminated(ls[1..], sep)
  }

  predicate Free(ls: seq<seq<char>>, sep: char) {
    forall i :: 0 <= i < |ls| ==> sep !in ls[i]
  }

  lemma SplitCons(a: seq<char>, sep: char, b: seq<char>)
    requires sep !in a
    ensures Split(a + [sep] + b, sep) == [a] + Split(b, sep)
  {
    var s := a + [sep] + b;
    assert Find(s, sep) == |a| by {
      FindAfter(a, sep, b);
    }
    assert s[..|a|] == a;
    assert s[|a| + 1..] == b;
  }

  lemma {:induction false} FindAfter(a: seq<char>, sep: char, b: seq<char>)
    requires sep !in a
    ensures Find(a + [sep] + b, sep) == |a|
    decreases |a|
  {
    if |a| > 0 {
      assert (a + [sep] + b)[1..] == a[1..] + [sep] + b;
      FindAfter(a[1..], sep, b);
    }
  }

  lemma SplitNone(a: seq<char>, sep: char)
    requires sep !in a
    ensures Split(a, sep) == [a]
  {
    assert Find(a, sep) == |a|;
  }

  /** Splitting undoes writing: the pieces written, each followed by the
      separator, and a last piece come back as exactly those pieces. */
  lemma {:induction false} SplitTerminated(ls: seq<seq<char>>, last: seq<char>, sep: char)
    requires Free(ls, sep) && sep !in last
    ensures Split(Terminated(ls, sep) + last, sep) == ls + [last]
    decreases |ls|
  {
    if |ls| == 0 {
      assert Terminated(ls, sep) + last == last;
      SplitNone(last, sep);
    } else {
      assert Terminated(ls, sep) + last == ls[0] + [sep] + (Terminated(ls[1..], sep) + last);
      SplitCons(ls[0], sep, Terminated(ls[1..], sep) + last);
      SplitTerminated(ls[1..], last, sep);
      assert [ls[0]] + (ls[1..] + [last]) == ls + [last];
    }
  }

  lemma {:induction false} TerminatedAppend(a: seq<seq<char>>, b: seq<seq<char>>, sep: char)
    ensures Terminated(a + b, sep) == Terminated(a, sep) + Terminated(b, sep)
    decreases |a|
  {
    if |a| == 0 {
      assert a + b == b;
    } else {
      assert (a + b)[1..] == a[1..] + b;
      TerminatedAppend(a[1..], b, sep);
    }
  }

  lemma FreeAppend(a: seq<seq<char>>, b: seq<seq<char>>, sep: char)
    requires Free(a, sep) && Free(b, sep)
    ensures Free(a + b, sep)
  {
    assert forall i :: 0 <= i < |a + b| ==> (a + b)[i] == if i < |a| then a[i] else b[i - |a|];
  }

  // ---------------------------------------------------------------------
  // Lists of integers.

  /** Each number as text. */
  function Strs(c: seq<int>): (r: seq<seq<char>>)
    ensures |r| == |c|
    ensures forall i :: 0 <= i < |r| ==> r[i] == IntToString(c[i])
  {
    if |c| == 0 then [] else [IntToString(c[0])] + Strs(c[1..])
  }

  function ParseInts(ws: seq<seq<char>>): (r: Option<seq<int>>)
    ensures r.Some? ==> |r.value| == |ws|
  {
    if |ws| == 0 then Some([])
    else
      match ParseInt(ws[0])
      case None => None
      case Some(x) =>
        match ParseInts(ws[1..])
        case None => None
        case Some(xs) => Some([x] + xs)
  }

  lemma NumbersFree(x: int, sep: char)
    requires sep == ' ' || sep == '\n' || sep == '}' || sep == ':'
    ensures sep !in IntToString(x)
  {
    var s := IntToString(x);
    assert forall i :: 0 <= i < |s| ==> s[i] != sep;
  }

  lemma StrsFree(c: seq<int>, sep: char)
    requires sep == ' ' || sep == '\n' || sep == '}' || sep == ':'
    ensures Free(Strs(c), sep)
  {
    forall i | 0 <= i < |c|
      ensures sep !in Strs(c)[i]
    {
      NumbersFree(c[i], sep);
    }
  }

  /** A list of numbers written as text is read back as itself. */
  lemma {:induction false} ParseStrs(c: seq<int>)
    ensures ParseInts(Strs(c)) == Some(c)
    decreases |c|
  {
    if |c| > 0 {
      ParseIntToString(c[0]);
      assert Strs(c)[1..] == Strs(c[1..]);
      ParseStrs(c[1..]);
      assert [c[0]] + c[1..] == c;
    }
  }

  // ---------------------------------------------------------------------
  // The reply of part9/server.cpp.

  /** One component as the loop writes it: every vertex followed by a
      space. */
  function ComponentLine(c: seq<int>): seq<char> {
    if |c| == 0 then [] else IntToString(c[0]) + " " + ComponentLine(c[1..])
  }

  lemma {:induction false} ComponentLineWords(c: seq<int>)
    ensures ComponentLine(c) == Terminated(Strs(c), ' ')
    decreases |c|
  {
    if |c| > 0 {
      ComponentLineWords(c[1..]);
      assert Strs(c)[1..] == Strs(c[1..]);
    }
  }

  function ComponentLines(cs: seq<seq<int>>): (r: seq<seq<char>>)
    ensures |r| == |cs|
    ensures forall i :: 0 <= i < |cs| ==> r[i] == ComponentLine(cs[i])
  {
    if |cs| == 0 then [] else [ComponentLine(cs[0])] + ComponentLines(cs[1..])
  }

  /** The components, one line each. */
  function Components(cs: seq<seq<int>>): seq<char> {
    if |cs| == 0 then [] else ComponentLine(cs[0]) + "\n" + Components(cs[1..])
  }

  lemma {:induction false} ComponentsLines(cs: seq<seq<int>>)
    ensures Components(cs) == Terminated(ComponentLines(cs), '\n')
    decreases |cs|
  {
    if |cs| > 0 {
      ComponentsLines(cs[1..]);
      assert ComponentLines(cs)[1..] == ComponentLines(cs[1..]);
    }
  }

  lemma ComponentLinesFree(cs: seq<seq<int>>, c: char)
    requires c == '\n' || c == '}'
    ensures Free(ComponentLines(cs), c)
  {
    forall i | 0 <= i < |cs|
      ensures c !in ComponentLine(cs[i])
    {
      ComponentLineWords(cs[i]);
      StrsFree(cs[i], c);
      TerminatedFree(Strs(cs[i]), ' ', c);
    }
  }

  lemma {:induction false} TerminatedFree(ls: seq<seq<char>>, sep: char, c: char)
    requires Free(ls, c) && sep != c
    ensures c !in Terminated(ls, sep)
    decreases |ls|
  {
    if |ls| > 0 {
      TerminatedFree(ls[1..], sep, c);
    }
  }

  /** `to_string(Result)`. */
  function ToString(res: Pipeline.Result): seq<char> {
    "\n" + "MST weight:" + "\n" + IntToString(res.mstWeight) + "\n"
    + "number of cliques:" + "\n" + IntToString(res.numCliques) + "\n"
    + "Strongly Connected Components:" + "\n" + Components(res.sccs)
    + "max flow:" + "\n" + IntToString(res.maxFlow)
    + "}"
  }

  /** The lines of the reply that end in a line break. */
  function ReplyFront(res: Pipeline.Result): seq<seq<char>> {
    ["", "MST weight:", IntToString(res.mstWeight), "number of cliques:", IntToString(res.numCliques),
     "Strongly Connected Components:"]
    + ComponentLines(res.sccs)
    + ["max flow:"]
  }

  /** The lines of the reply before the closing brace. */
  function ReplyLines(res: Pipeline.Result): seq<seq<char>> {
    ReplyFront(res) + [IntToString(res.maxFlow)]
  }

  /** The layout of `to_string` with its pieces left open. */
  lemma ReplyShape(b: seq<char>, c: seq<char>, d: seq<char>, e: seq<char>, f: seq<char>,
                   ls: seq<seq<char>>, h: seq<char>, x: seq<char>)
    ensures "\n" + b + "\n" + c + "\n" + d + "\n" + e + "\n" + f + "\n" + Terminated(ls, '\n') + h + "\n" + x + "}"
      == Terminated(["", b, c, d, e, f] + ls + [h], '\n') + x + "}"
  {
    var six: seq<seq<char>> := ["", b, c, d, e, f];
    var p := "\n" + b + "\n" + c + "\n" + d + "\n" + e + "\n" + f + "\n";
    assert Terminated(six, '\n') == p by {
      Six("", b, c, d, e, f, '\n');
      assert "" + ['\n'] == "\n";
    }
    var t := Terminated(ls, '\n');
    assert Terminated(six + ls + [h], '\n') == p + t + (h + "\n") by {
      TerminatedOne(h, '\n');
      TerminatedAppend(six + ls, [h], '\n');
      TerminatedAppend(six, ls, '\n');
    }
    assert p + t + h + "\n" == p + t + (h + "\n");
  }

  lemma ToStringLines(res: Pipeline.Result)
    ensures ToString(res) == Terminated(ReplyFront(res), '\n') + IntToString(res.maxFlow) + "}"
  {
    ComponentsLines(res.sccs);
    ReplyShape("MST weight:", IntToString(res.mstWeight), "number of cliques:", IntToString(res.numCliques),
      "Strongly Connected Components:", ComponentLines(res.sccs), "max flow:", IntToString(res.maxFlow));
  }

  lemma TerminatedOne(a: seq<char>, sep: char)
    ensures Terminated([a], sep) == a + [sep]
  {
    assert [a][1..] == [];
  }

  lemma TerminatedCons(a: seq<char>, rest: seq<seq<char>>, sep: char)
    ensures Terminated([a] + rest, sep) == a + [sep] + Terminated(rest, sep)
  {
    assert ([a] + rest)[1..] == rest;
  }

  lemma Six(a: seq<char>, b: seq<char>, c: seq<char>, d: seq<char>, e: seq<char>, f: seq<char>, sep: char)
    ensures Terminated([a, b, c, d, e, f], sep) == a + [sep] + b + [sep] + c + [sep] + d + [sep] + e + [sep] + f + [sep]
  {
    TerminatedOne(f, sep);
    TerminatedCons(e, [f], sep);
    assert [e] + [f] == [e, f];
    TerminatedCons(d, [e, f], sep);
    assert [d] + [e, f] == [d, e, f];
    TerminatedCons(c, [d, e, f], sep);
    assert [c] + [d, e, f] == [c, d, e, f];
    TerminatedCons(b, [c, d, e, f], sep);
    assert [b] + [c, d, e, f] == [b, c, d, e, f];
    TerminatedCons(a, [b, c, d, e, f], sep);
    assert [a] + [b, c, d, e, f] == [a, b, c, d, e, f];
  }

  /** Ends in a brace, with no brace before it. */
  predicate Delimited(t: seq<char>) {
    |t| > 0 && t[|t| - 1] == '}' && '}' !in t[..|t| - 1]
  }

  /** A text of lines, each ended by a line break, a last line, and the
      brace: the brace is the only one when no line holds one. */
  lemma TerminatedDelimited(ls: seq<seq<char>>, x: seq<char>)
    requires Free(ls, '}') && '}' !in x
    ensures Delimited(Terminated(ls, '\n') + x + "}")
  {
    var t := Terminated(ls, '\n') + x + "}";
    assert t[..|t| - 1] == Terminated(ls, '\n') + x;
    TerminatedFree(ls, '\n', '}');
  }

  /** The brace closes the reply and appears nowhere else in it, so the
      client's `recv_until_delim(sock, '}', ...)` takes the whole reply. */
  lemma ToStringDelimited(res: Pipeline.Result)
    ensures Delimited(ToString(res))
  {
    ToStringLines(res);
    ReplyFrontFree(res, '}');
    NumbersFree(res.maxFlow, '}');
    TerminatedDelimited(ReplyFront(res), IntToString(res.maxFlow));
  }

  lemma SixFree(a: seq<char>, b: seq<char>, c: seq<char>, d: seq<char>, e: seq<char>, f: seq<char>, x: char)
    requires x !in a && x !in b && x !in c && x !in d && x !in e && x !in f
    ensures Free([a, b, c, d, e, f], x)
  {
  }

  lemma ReplyFrontFree(res: Pipeline.Result, c: char)
    requires c == '\n' || c == '}'
    ensures Free(ReplyFront(res), c)
  {
    var head: seq<seq<char>> := ["", "MST weight:", IntToString(res.mstWeight), "number of cliques:",
      IntToString(res.numCliques), "Strongly Connected Components:"];
    assert Free(head, c) by {
      NumbersFree(res.mstWeight, c);
      NumbersFree(res.numCliques, c);
      SixFree("", "MST weight:", IntToString(res.mstWeight), "number of cliques:", IntToString(res.numCliques),
        "Strongly Connected Components:", c);
    }
    assert Free(head + ComponentLines(res.sccs), c) by {
      ComponentLinesFree(res.sccs, c);
      FreeAppend(head, ComponentLines(res.sccs), c);
    }
    assert Free(["max flow:"], c);
    FreeAppend(head + ComponentLines(res.sccs), ["max flow:"], c);
  }

  /** The client's text of a reply (everything before the brace), split
      into lines, is the reply's lines. */
  lemma ReplyText(res: Pipeline.Result)
    ensures Split(ToString(res)[..|ToString(res)| - 1], '\n') == ReplyLines(res)
  {
    var s := ToString(res);
    ToStringLines(res);
    assert s[..|s| - 1] == Terminated(ReplyFront(res), '\n') + IntToString(res.maxFlow);
    ReplyFrontFree(res, '\n');
    NumbersFree(res.maxFlow, '\n');
    SplitTerminated(ReplyFront(res), IntToString(res.maxFlow), '\n');
  }

  /** The numbers of a component line: the words before the final empty
      one. */
  function ParseComponent(line: seq<char>): Option<seq<int>> {
    var ws := Split(line, ' ');
    if ws[|ws| - 1] == [] then ParseInts(ws[..|ws| - 1]) else None
  }

  lemma ParseComponentLine(c: seq<int>)
    ensures ParseComponent(ComponentLine(c)) == Some(c)
  {
    ComponentLineWords(c);
    StrsFree(c, ' ');
    SplitTerminated(Strs(c), [], ' ');
    assert Terminated(Strs(c), ' ') + [] == Terminated(Strs(c), ' ');
    assert (Strs(c) + [[]])[..|Strs(c)|] == Strs(c);
    ParseStrs(c);
  }

  /** Everything the pipeline computed can be read back from the text the
      client receives: line 2 holds the MST weight, line 4 the number of
      cliques, then one line per component and last the maximum flow. */
  lemma ReplyReadBack(res: Pipeline.Result)
    ensures var s := ToString(res); var ls := Split(s[..|s| - 1], '\n');
      && |ls| == 8 + |res.sccs|
      && ParseInt(ls[2]) == Some(res.mstWeight)
      && ParseInt(ls[4]) == Some(res.numCliques)
      && (forall i :: 0 <= i < |res.sccs| ==> ParseComponent(ls[6 + i]) == Some(res.sccs[i]))
      && ParseInt(ls[|ls| - 1]) == Some(res.maxFlow)
  {
    ReplyText(res);
    ReplyLinesReadBack(res);
  }

  lemma ReplyLinesReadBack(res: Pipeline.Result)
    ensures |ReplyLines(res)| == 8 + |res.sccs|
    ensures ParseInt(ReplyLines(res)[2]) == Some(res.mstWeight)
    ensures ParseInt(ReplyLines(res)[4]) == Some(res.numCliques)
    ensures forall i :: 0 <= i < |res.sccs| ==> ParseComponent(ReplyLines(res)[6 + i]) == Some(res.sccs[i])
    ensures ParseInt(ReplyLines(res)[|ReplyLines(res)| - 1]) == Some(res.maxFlow)
  {
    ParseIntToString(res.mstWeight);
    ParseIntToString(res.numCliques);
    ParseIntToString(res.maxFlow);
    var ls := ReplyLines(res);
    forall i | 0 <= i < |res.sccs|
      ensures ParseComponent(ls[6 + i]) == Some(res.sccs[i])
    {
      assert ls[6 + i] == ComponentLine(res.sccs[i]);
      ParseComponentLine(res.sccs[i]);
    }
  }

  // ---------------------------------------------------------------------
  // The reply of part8/server.cpp.

  /** The neighbours of a vertex as the loop writes them: a space before
      each. */
  function Spaced(l: seq<int>): seq<char> {
    if |l| == 0 then [] else " " + IntToString(l[0]) + Spaced(l[1..])
  }

  /** The line of vertex `u`: its number, a colon, its neighbours. */
  function AdjacencyLine(u: int, l: seq<int>): seq<char> {
    IntToString(u) + ":" + Spaced(l)
  }

  /** The adjacency section from vertex `u` on, one line per vertex. */
  function Adjacency(g: Graph, u: nat): seq<char>
    requires Shaped(g)
    decreases g.numVertices - u
  {
    if u >= g.numVertices then [] else AdjacencyLine(u, g.adj[u]) + "\n" + Adjacency(g, u + 1)
  }

  /** `run_all_algorithms(g)` once the four results are known: the
      adjacency section, then the four algorithms in the order MST,
      cliques, components, maximum flow, then the brace. */
  function AllText(g: Graph, res: Pipeline.Result): seq<char>
    requires Shaped(g)
  {
    "rum all algorithm:" + "\n" + "Graph adjacency list:" + "\n"
    + Adjacency(g, 0)
    + MstSection(res) + CliqueSection(res) + SccSection(res) + FlowSection(res)
    + "}"
  }

  function MstSection(res: Pipeline.Result): seq<char> {
    "\n" + "MST algorithm:" + "\n" + "MST weight:" + IntToString(res.mstWeight) + "\n"
  }

  function CliqueSection(res: Pipeline.Result): seq<char> {
    "\n" + "COUNT CLIQUES algorithm:" + "\n" + "number of cliques:" + IntToString(res.numCliques) + "\n"
  }

  function SccSection(res: Pipeline.Result): seq<char> {
    "\n" + "FIND SCCs algorithm:" + "\n" + "Strongly Connected Components:" + "\n" + Components(res.sccs)
  }

  function FlowSection(res: Pipeline.Result): seq<char> {
    "\n" + "MAX FLOW algorithm:" + "\n" + "max flow:" + IntToString(res.maxFlow) + "\n"
  }

  function AdjacencyLines(g: Graph, u: nat): (r: seq<seq<char>>)
    requires Shaped(g)
    ensures |r| == if u >= g.numVertices then 0 else g.numVertices - u
    ensures forall i :: 0 <= i < |r| ==> r[i] == AdjacencyLine(u + i, g.adj[u + i])
    decreases g.numVertices - u
  {
    if u >= g.numVertices then [] else [AdjacencyLine(u, g.adj[u])] + AdjacencyLines(g, u + 1)
  }

  function MstLines(res: Pipeline.Result): seq<seq<char>> {
    ["", "MST algorithm:", "MST weight:" + IntToString(res.mstWeight)]
  }

  function CliqueLines(res: Pipeline.Result): seq<seq<char>> {
    ["", "COUNT CLIQUES algorithm:", "number of cliques:" + IntToString(res.numCliques)]
  }

  function SccLines(res: Pipeline.Result): seq<seq<char>> {
    ["", "FIND SCCs algorithm:", "Strongly Connected Components:"] + ComponentLines(res.sccs)
  }

  function FlowLines(res: Pipeline.Result): seq<seq<char>> {
    ["", "MAX FLOW algorithm:", "max flow:" + IntToString(res.maxFlow)]
  }

  function Prelude(): seq<seq<char>> {
    ["rum all algorithm:", "Graph adjacency list:"]
  }

  /** The lines of the part8 reply before the closing brace, which stands
      alone on the last line. */
  function AllLines(g: Graph, res: Pipeline.Result): seq<seq<char>>
    requires Shaped(g)
  {
    Prelude() + AdjacencyLines(g, 0)
    + MstLines(res) + CliqueLines(res) + SccLines(res) + FlowLines(res)
  }

  lemma {:induction false} AdjacencyTerminated(g: Graph, u: nat)
    requires Shaped(g)
    ensures Adjacency(g, u) == Terminated(AdjacencyLines(g, u), '\n')
    decreases g.numVertices - u
  {
    if u < g.numVertices {
      AdjacencyTerminated(g, u + 1);
      TerminatedCons(AdjacencyLine(u, g.adj[u]), AdjacencyLines(g, u + 1), '\n');
    }
  }

  lemma Three(a: seq<char>, b: seq<char>, c: seq<char>, sep: char)
    ensures Terminated([a, b, c], sep) == a + [sep] + b + [sep] + c + [sep]
  {
    TerminatedOne(c, sep);
    TerminatedCons(b, [c], sep);
    assert [b] + [c] == [b, c];
    TerminatedCons(a, [b, c], sep);
    assert [a] + [b, c] == [a, b, c];
  }

  /** A section of the part8 reply: a blank line, the algorithm's title,
      and a labelled number. */
  lemma SectionLines(name: seq<char>, tag: seq<char>, v: seq<char>)
    ensures "\n" + name + "\n" + tag + v + "\n" == Terminated(["", name, tag + v], '\n')
  {
    Three("", name, tag + v, '\n');
  }

  lemma MstSectionLines(res: Pipeline.Result)
    ensures MstSection(res) == Terminated(MstLines(res), '\n')
  {
    SectionLines("MST algorithm:", "MST weight:", IntToString(res.mstWeight));
  }

  lemma CliqueSectionLines(res: Pipeline.Result)
    ensures CliqueSection(res) == Terminated(CliqueLines(res), '\n')
  {
    SectionLines("COUNT CLIQUES algorithm:", "number of cliques:", IntToString(res.numCliques));
  }

  lemma FlowSectionLines(res: Pipeline.Result)
    ensures FlowSection(res) == Terminated(FlowLines(res), '\n')
  {
    SectionLines("MAX FLOW algorithm:", "max flow:", IntToString(res.maxFlow));
  }

  /** The components section: a blank line, the title, the heading, then
      the component lines. */
  lemma ListSectionLines(name: seq<char>, head: seq<char>, ls: seq<seq<char>>)
    ensures "\n" + name + "\n" + head + "\n" + Terminated(ls, '\n') == Terminated(["", name, head] + ls, '\n')
  {
    Three("", name, head, '\n');
    TerminatedAppend(["", name, head], ls, '\n');
  }

  lemma SccSectionLines(res: Pipeline.Result)
    ensures SccSection(res) == Terminated(SccLines(res), '\n')
  {
    ComponentsLines(res.sccs);
    ListSectionLines("FIND SCCs algorithm:", "Strongly Connected Components:", ComponentLines(res.sccs));
  }

  /** Writing six groups of lines one after another. */
  lemma TerminatedSix(p1: seq<seq<char>>, p2: seq<seq<char>>, p3: seq<seq<char>>,
                      p4: seq<seq<char>>, p5: seq<seq<char>>, p6: seq<seq<char>>, sep: char)
    ensures Terminated(p1 + p2 + p3 + p4 + p5 + p6, sep)
      == Terminated(p1, sep) + Terminated(p2, sep) + Terminated(p3, sep)
       + Terminated(p4, sep) + Terminated(p5, sep) + Terminated(p6, sep)
  {
    TerminatedAppend(p1 + p2 + p3 + p4 + p5, p6, sep);
    TerminatedAppend(p1 + p2 + p3 + p4, p5, sep);
    TerminatedAppend(p1 + p2 + p3, p4, sep);
    TerminatedAppend(p1 + p2, p3, sep);
    TerminatedAppend(p1, p2, sep);
  }

  lemma PreludeLines()
    ensures Terminated(Prelude(), '\n') == "rum all algorithm:" + "\n" + "Graph adjacency list:" + "\n"
  {
    TerminatedCons("rum all algorithm:", ["Graph adjacency list:"], '\n');
    TerminatedOne("Graph adjacency list:", '\n');
    assert ["rum all algorithm:"] + ["Graph adjacency list:"] == Prelude();
  }

  lemma AllTextLines(g: Graph, res: Pipeline.Result)
    requires Shaped(g)
    ensures AllText(g, res) == Terminated(AllLines(g, res), '\n') + "}"
  {
    TerminatedSix(Prelude(), AdjacencyLines(g, 0), MstLines(res), CliqueLines(res), SccLines(res), FlowLines(res), '\n');
    PreludeLines();
    AdjacencyTerminated(g, 0);
    MstSectionLines(res);
    CliqueSectionLines(res);
    SccSectionLines(res);
    FlowSectionLines(res);
  }

  lemma {:induction false} SpacedFree(l: seq<int>, c: char)
    requires c == '\n' || c == '}'
    ensures c !in Spaced(l)
    decreases |l|
  {
    if |l| > 0 {
      NumbersFree(l[0], c);
      SpacedFree(l[1..], c);
    }
  }

  lemma AdjacencyLinesFree(g: Graph, c: char)
    requires Shaped(g) && (c == '\n' || c == '}')
    ensures Free(AdjacencyLines(g, 0), c)
  {
    var p2 := AdjacencyLines(g, 0);
    forall u | 0 <= u < |p2|
      ensures c !in p2[u]
    {
      NumbersFree(u, c);
      SpacedFree(g.adj[u], c);
    }
  }

  lemma ThreeFree(a: seq<char>, b: seq<char>, tag: seq<char>, x: int, c: char)
    requires c == '\n' || c == '}'
    requires c !in a && c !in b && c !in tag
    ensures Free([a, b, tag + IntToString(x)], c)
  {
    NumbersFree(x, c);
  }

  lemma MstLinesFree(res: Pipeline.Result, c: char)
    requires c == '\n' || c == '}'
    ensures Free(MstLines(res), c)
  {
    ThreeFree("", "MST algorithm:", "MST weight:", res.mstWeight, c);
  }

  lemma CliqueLinesFree(res: Pipeline.Result, c: char)
    requires c == '\n' || c == '}'
    ensures Free(CliqueLines(res), c)
  {
    ThreeFree("", "COUNT CLIQUES algorithm:", "number of cliques:", res.numCliques, c);
  }

  lemma FlowLinesFree(res: Pipeline.Result, c: char)
    requires c == '\n' || c == '}'
    ensures Free(FlowLines(res), c)
  {
    ThreeFree("", "MAX FLOW algorithm:", "max flow:", res.maxFlow, c);
  }

  lemma SccLinesFree(res: Pipeline.Result, c: char)
    requires c == '\n' || c == '}'
    ensures Free(SccLines(res), c)
  {
    var head: seq<seq<char>> := ["", "FIND SCCs algorithm:", "Strongly Connected Components:"];
    assert Free(head, c) by {
      assert c !in "FIND SCCs algorithm:" && c !in "Strongly Connected Components:";
    }
    ComponentLinesFree(res.sccs, c);
    FreeAppend(head, ComponentLines(res.sccs), c);
  }

  lemma FreeSix(p1: seq<seq<char>>, p2: seq<seq<char>>, p3: seq<seq<char>>,
                p4: seq<seq<char>>, p5: seq<seq<char>>, p6: seq<seq<char>>, c: char)
    requires Free(p1, c) && Free(p2, c) && Free(p3, c) && Free(p4, c) && Free(p5, c) && Free(p6, c)
    ensures Free(p1 + p2 + p3 + p4 + p5 + p6, c)
  {
    FreeAppend(p1, p2, c);
    FreeAppend(p1 + p2, p3, c);
    FreeAppend(p1 + p2 + p3, p4, c);
    FreeAppend(p1 + p2 + p3 + p4, p5, c);
    FreeAppend(p1 + p2 + p3 + p4 + p5, p6, c);
  }

  lemma AllLinesFree(g: Graph, res: Pipeline.Result, c: char)
    requires Shaped(g) && (c == '\n' || c == '}')
    ensures Free(AllLines(g, res), c)
  {
    assert Free(Prelude(), c);
    AdjacencyLinesFree(g, c);
    MstLinesFree(res, c);
    CliqueLinesFree(res, c);
    SccLinesFree(res, c);
    FlowLinesFree(res, c);
    FreeSix(Prelude(), AdjacencyLines(g, 0), MstLines(res), CliqueLines(res), SccLines(res), FlowLines(res), c);
  }

  /** The part8 reply, too, ends in its only brace. */
  lemma AllTextDelimited(g: Graph, res: Pipeline.Result)
    requires Shaped(g)
    ensures Delimited(AllText(g, res))
  {
    var s := AllText(g, res);
    AllTextLines(g, res);
    assert s[..|s| - 1] == Terminated(AllLines(g, res), '\n');
    AllLinesFree(g, res, '}');
    TerminatedFree(AllLines(g, res), '\n', '}');
  }

  /** The words of an adjacency line: the vertex with its colon, then each
      neighbour. */
  lemma {:induction false} SplitSpaced(x: seq<char>, l: seq<int>)
    requires ' ' !in x
    ensures Split(x + Spaced(l), ' ') == [x] + Strs(l)
    decreases |l|
  {
    if |l| == 0 {
      assert x + Spaced(l) == x;
      SplitNone(x, ' ');
    } else {
      NumbersFree(l[0], ' ');
      assert x + Spaced(l) == x + [' '] + (IntToString(l[0]) + Spaced(l[1..]));
      SplitCons(x, ' ', IntToString(l[0]) + Spaced(l[1..]));
      SplitSpaced(IntToString(l[0]), l[1..]);
      assert [IntToString(l[0])] + Strs(l[1..]) == Strs(l);
    }
  }

  /** Reading an adjacency line back: the vertex before the colon and the
      neighbours after it. */
  function ParseAdjacency(line: seq<char>): Option<(int, seq<int>)> {
    var ws := Split(line, ' ');
    var head := ws[0];
    if |head| == 0 || head[|head| - 1] != ':' then None
    else
      match ParseInt(head[..|head| - 1])
      case None => None
      case Some(u) =>
        match ParseInts(ws[1..])
        case None => None
        case Some(l) => Some((u, l))
  }

  lemma ParseAdjacencyLine(u: int, l: seq<int>)
    ensures ParseAdjacency(AdjacencyLine(u, l)) == Some((u, l))
  {
    var head := IntToString(u) + ":";
    NumbersFree(u, ' ');
    assert AdjacencyLine(u, l) == head + Spaced(l);
    SplitSpaced(head, l);
    assert head[..|head| - 1] == IntToString(u);
    ParseIntToString(u);
    assert ([head] + Strs(l))[1..] == Strs(l);
    ParseStrs(l);
  }

  /** The number after a label. */
  function Labelled(line: seq<char>, tag: seq<char>): Option<int> {
    if |line| >= |tag| && line[..|tag|] == tag then ParseInt(line[|tag|..]) else None
  }

  lemma LabelledNumber(tag: seq<char>, x: int)
    ensures Labelled(tag + IntToString(x), tag) == Some(x)
  {
    assert (tag + IntToString(x))[..|tag|] == tag;
    assert (tag + IntToString(x))[|tag|..] == IntToString(x);
    ParseIntToString(x);
  }

  /** Where each group of lines lands once the six groups are joined. */
  lemma ConcatSixAt(p1: seq<seq<char>>, p2: seq<seq<char>>, p3: seq<seq<char>>,
                    p4: seq<seq<char>>, p5: seq<seq<char>>, p6: seq<seq<char>>)
    ensures |p1 + p2 + p3 + p4 + p5 + p6| == |p1| + |p2| + |p3| + |p4| + |p5| + |p6|
    ensures forall i :: 0 <= i < |p2| ==> (p1 + p2 + p3 + p4 + p5 + p6)[|p1| + i] == p2[i]
    ensures forall i :: 0 <= i < |p3| ==> (p1 + p2 + p3 + p4 + p5 + p6)[|p1| + |p2| + i] == p3[i]
    ensures forall i :: 0 <= i < |p4| ==> (p1 + p2 + p3 + p4 + p5 + p6)[|p1| + |p2| + |p3| + i] == p4[i]
    ensures forall i :: 0 <= i < |p5| ==> (p1 + p2 + p3 + p4 + p5 + p6)[|p1| + |p2| + |p3| + |p4| + i] == p5[i]
    ensures forall i :: 0 <= i < |p6| ==> (p1 + p2 + p3 + p4 + p5 + p6)[|p1| + |p2| + |p3| + |p4| + |p5| + i] == p6[i]
  {
  }

  lemma AllLinesAt(g: Graph, res: Pipeline.Result)
    requires Shaped(g)
    ensures |AllLines(g, res)| == 2 + g.numVertices + 12 + |res.sccs|
    ensures AllLines(g, res)[g.numVertices + 4] == "MST weight:" + IntToString(res.mstWeight)
    ensures AllLines(g, res)[g.numVertices + 7] == "number of cliques:" + IntToString(res.numCliques)
    ensures AllLines(g, res)[g.numVertices + 13 + |res.sccs|] == "max flow:" + IntToString(res.maxFlow)
  {
    ConcatSixAt(Prelude(), AdjacencyLines(g, 0), MstLines(res), CliqueLines(res), SccLines(res), FlowLines(res));
  }

  lemma AdjacencyAt(g: Graph, res: Pipeline.Result)
    requires Shaped(g)
    ensures forall u :: 0 <= u < g.numVertices ==> AllLines(g, res)[2 + u] == AdjacencyLine(u, g.adj[u])
  {
    ConcatSixAt(Prelude(), AdjacencyLines(g, 0), MstLines(res), CliqueLines(res), SccLines(res), FlowLines(res));
  }

  lemma ComponentsAt(g: Graph, res: Pipeline.Result)
    requires Shaped(g)
    ensures forall i :: 0 <= i < |res.sccs| ==> AllLines(g, res)[g.numVertices + 11 + i] == ComponentLine(res.sccs[i])
  {
    var p5 := SccLines(res);
    ConcatSixAt(Prelude(), AdjacencyLines(g, 0), MstLines(res), CliqueLines(res), p5, FlowLines(res));
    forall i | 0 <= i < |res.sccs|
      ensures p5[3 + i] == ComponentLine(res.sccs[i])
    {
      assert p5[3 + i] == ComponentLines(res.sccs)[i];
    }
  }

  /** The client's lines of the part8 reply: the lines written, then the
      empty line between the last line break and the brace. */
  lemma AllTextSplit(g: Graph, res: Pipeline.Result)
    requires Shaped(g)
    ensures Split(AllText(g, res)[..|AllText(g, res)| - 1], '\n') == AllLines(g, res) + [[]]
  {
    var s := AllText(g, res);
    var ls := AllLines(g, res);
    AllTextLines(g, res);
    assert s[..|s| - 1] == Terminated(ls, '\n') + [];
    AllLinesFree(g, res, '\n');
    SplitTerminated(ls, [], '\n');
  }

  /** Everything `run_all_algorithms` reports can be read back from the
      text the client receives: each vertex's line gives the vertex and its
      neighbours in stored order, and the labelled lines give the four
      results. */
  lemma AllTextReadBack(g: Graph, res: Pipeline.Result)
    requires Shaped(g)
    ensures var s := AllText(g, res); var ls := Split(s[..|s| - 1], '\n'); var n := g.numVertices;
      && |ls| == n + 15 + |res.sccs|
      && (forall u :: 0 <= u < n ==> ParseAdjacency(ls[2 + u]) == Some((u, g.adj[u])))
      && Labelled(ls[n + 4], "MST weight:") == Some(res.mstWeight)
      && Labelled(ls[n + 7], "number of cliques:") == Some(res.numCliques)
      && (forall i :: 0 <= i < |res.sccs| ==> ParseComponent(ls[n + 11 + i]) == Some(res.sccs[i]))
      && Labelled(ls[n + 13 + |res.sccs|], "max flow:") == Some(res.maxFlow)
  {
    AllTextSplit(g, res);
    AllLinesReadBack(g, res);
  }

  lemma AllLinesReadBack(g: Graph, res: Pipeline.Result)
    requires Shaped(g)
    ensures var ls := AllLines(g, res) + [[]]; var n := g.numVertices;
      && |ls| == n + 15 + |res.sccs|
      && (forall u :: 0 <= u < n ==> ParseAdjacency(ls[2 + u]) == Some((u, g.adj[u])))
      && Labelled(ls[n + 4], "MST weight:") == Some(res.mstWeight)
      && Labelled(ls[n + 7], "number of cliques:") == Some(res.numCliques)
      && (forall i :: 0 <= i < |res.sccs| ==> ParseComponent(ls[n + 11 + i]) == Some(res.sccs[i]))
      && Labelled(ls[n + 13 + |res.sccs|], "max flow:") == Some(res.maxFlow)
  {
    var ls := AllLines(g, res);
    var n := g.numVertices;
    AllLinesAt(g, res);
    assert forall i :: 0 <= i < |ls| ==> (ls + [[]])[i] == ls[i];
    forall u | 0 <= u < n
      ensures ParseAdjacency(ls[2 + u]) == Some((u, g.adj[u]))
    {
      AdjacencyAt(g, res);
      ParseAdjacencyLine(u, g.adj[u]);
    }
    LabelledNumber("MST weight:", res.mstWeight);
    LabelledNumber("number of cliques:", res.numCliques);
    LabelledNumber("max flow:", res.maxFlow);
    forall i | 0 <= i < |res.sccs|
      ensures ParseComponent(ls[n + 11 + i]) == Some(res.sccs[i])
    {
      ComponentsAt(g, res);
      ParseComponentLine(res.sccs[i]);
    }
  }
}
