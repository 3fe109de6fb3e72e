/** LineProducer: a byte stream, read in pieces, is sent on as lines. */
module Lines {

  type Byte = b: int | 0 <= b < 256

  const NEWLINE: Byte := 10
  const BUFFER_SIZE: int := 1024

  type Line = seq<Byte>

  /** One call of read(): its return value, and the buffer afterwards.  At the end of the input for now
      the count is 0, after an error it is negative; bytes of the buffer beyond the count are stale. */
  datatype Read = Read(count: int, buffer: seq<Byte>)

  predicate Possible(r: Read) {
    |r.buffer| == BUFFER_SIZE && r.count <= BUFFER_SIZE
  }

  function Delivered(r: Read): seq<Byte>
    requires Possible(r)
  {
    if r.count > 0 then r.buffer[..r.count] else []
  }

  /** The byte stream that a sequence of reads delivers. */
  function Stream(input: seq<Read>): seq<Byte>
    requires forall r | r in input :: Possible(r)
  {
    if input == [] then [] else Stream(input[..|input| - 1]) + Delivered(input[|input| - 1])
  }

  /** The bytes that lines and an unfinished last line stand for. */
  function Rejoin(lines: seq<Line>, rest: Line): seq<Byte> {
    if lines == [] then rest else lines[0] + [NEWLINE] + Rejoin(lines[1..], rest)
  }

  /** lines and rest are the stream cut at its newlines. */
  ghost predicate SplitOf(stream: seq<Byte>, lines: seq<Line>, rest: Line) {
    && Rejoin(lines, rest) == stream
    && NEWLINE !in rest && forall l | l in lines :: NEWLINE !in l
  }

  lemma {:induction false} RejoinGrow(lines: seq<Line>, rest: Line, more: seq<Byte>)
    ensures Rejoin(lines, rest + more) == Rejoin(lines, rest) + more
  {
    if lines == [] {
    } else {
      RejoinGrow(lines[1..], rest, more);
      assert lines[0] + [NEWLINE] + (Rejoin(lines[1..], rest) + more) == Rejoin(lines, rest) + more;
    }
  }

  lemma {:induction false} RejoinLine(lines: seq<Line>, rest: Line)
    ensures Rejoin(lines + [rest], []) == Rejoin(lines, rest) + [NEWLINE]
  {
    if lines == [] {
      assert [rest][1..] == [];
      assert rest + [NEWLINE] + [] == rest + [NEWLINE];
    } else {
      RejoinLine(lines[1..], rest);
      assert (lines + [rest])[1..] == lines[1..] + [rest];
      assert lines[0] + [NEWLINE] + (Rejoin(lines[1..], rest) + [NEWLINE]) == Rejoin(lines, rest) + [NEWLINE];
    }
  }

  /** A read adds the bytes that it counts, in order, at the end of the stream. */
  lemma StreamMeans(input: seq<Read>, r: Read)
    requires forall q | q in input + [r] :: |q.buffer| == 1024 && q.count <= 1024
    ensures Stream([]) == []
    ensures forall q | q in input :: q in input + [r]
    ensures var n := if r.count > 0 then r.count else 0;
            Stream(input + [r]) == Stream(input) + r.buffer[..n]
  {
    assert r in input + [r];
    assert (input + [r])[..|input|] == input;
  }

  /** Lines and a rest stand for the bytes of the lines, each followed by a line feed, and of the rest. */
  lemma {:induction false} RejoinMeans(lines: seq<Line>, l: Line, rest: Line)
    ensures Rejoin([], rest) == rest
    ensures Rejoin(lines + [l], rest) == Rejoin(lines, l) + ['\n' as int] + rest
  {
    if lines == [] {
      assert [l][1..] == [];
    } else {
      RejoinMeans(lines[1..], l, rest);
      assert (lines + [l])[1..] == lines[1..] + [l];
      assert lines[0] + [NEWLINE] + (Rejoin(lines[1..], l) + ['\n' as int] + rest) == Rejoin(lines, l) + ['\n' as int] + rest;
    }
  }

  lemma NextByte(stream: seq<Byte>, lines: seq<Line>, rest: Line, b: Byte)
    requires SplitOf(stream, lines, rest)
    ensures if b == NEWLINE then SplitOf(stream + [b], lines + [rest], []) else SplitOf(stream + [b], lines, rest + [b])
  {
    RejoinGrow(lines, rest, [b]);
    RejoinLine(lines, rest);
  }

  /** The loop over the reads made so far.  Whatever their sizes, what was sent and the pending line are
      the stream cut at its newlines; and every read refreshes the screen once. */
  method LineProducer(input: seq<Read>) returns (sent: seq<Line>, line: Line, posts: nat)
    requires forall r | r in input :: |r.buffer| == 1024 && r.count <= 1024
    ensures SplitOf(Stream(input), sent, line) && Rejoin(sent, line) == Stream(input)
    ensures '\n' as int !in line && forall l | l in sent :: '\n' as int !in l
    ensures posts == |input|
  {
    assert forall r | r in input :: Possible(r);
    sent, line, posts := [], [], 0;
    var k := 0;
    while k < |input|
      invariant 0 <= k <= |input| && posts == k
      invariant SplitOf(Stream(input[..k]), sent, line)
    {
      var c, buffer := input[k].count, input[k].buffer;
      assert input[k] in input;
      ghost var before := Stream(input[..k]);
      var i := 0;
      assert before + buffer[..0] == before;
      while i < c
        invariant 0 <= i <= |buffer| && (i <= c || i == 0)
        invariant SplitOf(before + buffer[..i], sent, line)
      {
        NextByte(before + buffer[..i], sent, line, buffer[i]);
        assert before + buffer[..i] + [buffer[i]] == before + buffer[..i + 1];
        if buffer[i] == NEWLINE {
          sent := sent + [line];
          line := [];
        } else {
          line := line + [buffer[i]];
        }
        i := i + 1;
      }
      posts := posts + 1;
      assert input[..k + 1][..k] == input[..k];
      assert buffer[..i] == Delivered(input[k]);
      k := k + 1;
    }
    assert input[..k] == input;
  }

  lemma LineIffNewline(stream: seq<Byte>, lines: seq<Line>, rest: Line)
    requires SplitOf(stream, lines, rest)
    ensures lines != [] <==> NEWLINE in stream
  {
  }

  /** There is only one way to cut a stream at its newlines. */
  lemma {:induction false} SplitUnique(stream: seq<Byte>, a: seq<Line>, x: Line, b: seq<Line>, y: Line)
    requires SplitOf(stream, a, x) && SplitOf(stream, b, y)
    ensures a == b && x == y
    decreases |a|
  {
    LineIffNewline(stream, a, x);
    LineIffNewline(stream, b, y);
    if a == [] {
    } else {
      FirstNewline(a[0], Rejoin(a[1..], x), b[0], Rejoin(b[1..], y));
      SplitUnique(Rejoin(a[1..], x), a[1..], x, b[1..], y);
      assert a == [a[0]] + a[1..] && b == [b[0]] + b[1..];
    }
  }

  /** A stream's first newline is where its first line ends. */
  lemma FirstNewline(l: Line, s: seq<Byte>, l': Line, s': seq<Byte>)
    requires l + [NEWLINE] + s == l' + [NEWLINE] + s'
    requires NEWLINE !in l && NEWLINE !in l'
    ensures l == l' && s == s'
  {
    var t, t' := l + [NEWLINE] + s, l' + [NEWLINE] + s';
    assert t[|l|] == NEWLINE && t'[|l'|] == NEWLINE;
    assert forall i | 0 <= i < |l| :: t[i] == l[i] && l[i] in l;
    assert forall i | 0 <= i < |l'| :: t'[i] == l'[i] && l'[i] in l';
    assert l == t[..|l|] == t'[..|l|] == l';
    assert s == t[|l| + 1..] == t'[|l| + 1..] == s';
  }

  /** What is sent and what is pending depend on the bytes alone, not on how reads cut them up or on
      reads that deliver nothing. */
  lemma ChunksDoNotMatter(input: seq<Read>, input': seq<Read>, a: seq<Line>, x: Line, b: seq<Line>, y: Line)
    requires (forall r | r in input :: Possible(r)) && (forall r | r in input' :: Possible(r))
    requires Stream(input) == Stream(input')
    requires SplitOf(Stream(input), a, x) && SplitOf(Stream(input'), b, y)
    ensures a == b && x == y
  {
    SplitUnique(Stream(input), a, x, b, y);
  }

  /** Lines already sent are final: reading on only adds to them. */
  lemma {:induction false} SentIsFinal(stream: seq<Byte>, more: seq<Byte>, a: seq<Line>, x: Line, b: seq<Line>, y: Line)
    requires SplitOf(stream, a, x) && SplitOf(stream + more, b, y)
    ensures a <= b
    decreases |a|
  {
    if a == [] {
    } else {
      var s := Rejoin(a[1..], x);
      assert stream + more == a[0] + [NEWLINE] + (s + more);
      LineIffNewline(stream, a, x);
      LineIffNewline(stream + more, b, y);
      FirstNewline(a[0], s + more, b[0], Rejoin(b[1..], y));
      SentIsFinal(s, more, a[1..], x, b[1..], y);
      assert a == [a[0]] + a[1..] && b == [b[0]] + b[1..];
    }
  }
}
