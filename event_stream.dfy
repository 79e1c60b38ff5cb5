/**
 * The OpenRouter response decoder (services/geminiService.ts `streamOpenRouter`,
 * the read loop): a simplified subset of the `text/event-stream` format of
 * section 9.2 (Server-sent events) of the WHATWG HTML Living Standard.
 *
 * Decoded text chunks are appended to a buffer; the buffer is split at line
 * feeds, every piece but the last is handled as a line and the last piece is
 * kept for the next chunk. A line is a frame when, trimmed, it starts with
 * `data: `; the frame `[DONE]` ends the stream. Other payloads are handed to
 * a JSON decoder, which is a parameter here.
 */
module EventStream {
  import opened Types
  import opened Text

  const DataPrefix := "data: "
  const DoneMarker := "[DONE]"

  /** What the JSON decoder makes of a payload: a parse failure, no text, or `choices[0].delta.content`. */
  datatype Decoded = Invalid | NoContent | Content(text: string)

  /** The payload of a data frame: the trimmed line after `data: `. */
  function Payload(line: string): (r: Option<string>)
    ensures r.Some? ==> |r.value| < |line|
  {
    var t := Trim(line);
    if |t| >= |DataPrefix| && t[..|DataPrefix|] == DataPrefix then Some(t[|DataPrefix|..]) else None
  }

  /** A line is a data frame carrying `p` exactly when its trimmed text is `data: ` followed by `p`. */
  lemma {:induction false} PayloadIff(line: string, p: string)
    ensures Payload(line) == Some(p) <==> Trim(line) == DataPrefix + p
  {
    var t := Trim(line);
    if t == DataPrefix + p {
      assert t[..|DataPrefix|] == DataPrefix && t[|DataPrefix|..] == p;
    }
    if Payload(line) == Some(p) {
      assert t == t[..|DataPrefix|] + t[|DataPrefix|..];
    }
  }

  /** A blank line, or one of spaces only, is never a frame. */
  lemma {:induction false} BlankIsNoFrame(line: string)
    requires forall i :: 0 <= i < |line| ==> IsSpace(line[i])
    ensures Payload(line).None?
  {
    TrimEmpty(line);
  }

  /** What handling one line does. */
  datatype Effect = Skip | Stop | Yield(text: string)

  function LineEffect(line: string, decode: string -> Decoded): (e: Effect)
    ensures e.Yield? ==> e.text != ""
    ensures e == Stop <==> Payload(line) == Some(DoneMarker)
  {
    match Payload(line)
    case None => Skip
    case Some(p) =>
      if p == DoneMarker then Stop
      else match decode(p)
        case Content(c) => if c != "" then Yield(c) else Skip
        case _ => Skip
  }

  /** The fragments yielded for a list of lines, and whether `[DONE]` was among them. */
  datatype Output = Output(fragments: seq<string>, stopped: bool)

  function LinesOutput(lines: seq<string>, decode: string -> Decoded): Output {
    if lines == [] then Output([], false)
    else match LineEffect(lines[0], decode)
      case Stop => Output([], true)
      case Skip => LinesOutput(lines[1..], decode)
      case Yield(c) =>
        var rest := LinesOutput(lines[1..], decode);
        Output([c] + rest.fragments, rest.stopped)
  }

  /** Handling two lists of lines in a row: nothing of the second counts after `[DONE]` in the first. */
  lemma {:induction false} LinesOutputAppend(a: seq<string>, b: seq<string>, decode: string -> Decoded)
    ensures var oa := LinesOutput(a, decode); var ob := LinesOutput(b, decode);
      LinesOutput(a + b, decode)
        == if oa.stopped then oa else Output(oa.fragments + ob.fragments, ob.stopped)
  {
    if a == [] {
      assert a + b == b;
    } else {
      assert (a + b)[1..] == a[1..] + b;
      assert (a + b)[0] == a[0];
      LinesOutputAppend(a[1..], b, decode);
      var ra := LinesOutput(a[1..], decode);
      var ob := LinesOutput(b, decode);
      match LineEffect(a[0], decode)
      case Stop =>
      case Skip =>
      case Yield(c) =>
        if !ra.stopped {
          assert [c] + (ra.fragments + ob.fragments) == ([c] + ra.fragments) + ob.fragments;
        }
    }
  }

  /** The stream never yields an empty fragment. */
  lemma {:induction false} LinesOutputNonEmpty(lines: seq<string>, decode: string -> Decoded)
    ensures forall i :: 0 <= i < |LinesOutput(lines, decode).fragments| ==> LinesOutput(lines, decode).fragments[i] != ""
  {
    if lines != [] {
      LinesOutputNonEmpty(lines[1..], decode);
    }
  }

  /** Every fragment comes from a data frame whose payload decodes to it, in line order. */
  lemma {:induction false} LinesOutputSource(lines: seq<string>, decode: string -> Decoded)
    ensures |LinesOutput(lines, decode).fragments| <= |lines|
    ensures LinesOutput(lines, decode).stopped ==> exists i :: 0 <= i < |lines| && Payload(lines[i]) == Some(DoneMarker)
  {
    if lines != [] {
      LinesOutputSource(lines[1..], decode);
      var o := LinesOutput(lines[1..], decode);
      if o.stopped && LineEffect(lines[0], decode) != Stop {
        var i :| 0 <= i < |lines[1..]| && Payload(lines[1..][i]) == Some(DoneMarker);
        assert lines[i + 1] == lines[1..][i];
      }
    }
  }

  /** The lines of a text that end in a line feed: every piece of the split but the last. */
  function CompleteLines(s: string): seq<string> {
    var parts := SplitLines(s);
    parts[..|parts| - 1]
  }

  /** The text after the last line feed. */
  function Remainder(s: string): string {
    var parts := SplitLines(s);
    parts[|parts| - 1]
  }

  /** The split is the complete lines and then the remainder, none of them holding a line feed. */
  lemma Pieces(s: string)
    ensures SplitLines(s) == CompleteLines(s) + [Remainder(s)]
    ensures SingleLines(CompleteLines(s)) && '\n' !in Remainder(s)
  {
    SplitLinesSingle(s);
    var parts := SplitLines(s);
    assert parts == parts[..|parts| - 1] + [parts[|parts| - 1]];
  }

  /** What the stream yields for a sequence of decoded chunks: the output of the complete lines of their concatenation. */
  function Decode(chunks: seq<string>, decode: string -> Decoded): Output {
    LinesOutput(CompleteLines(Concat(chunks)), decode)
  }

  // ---------------------------------------------------------------------------
  // Splitting facts

  /** A piece free of line feeds, then a line feed, starts the split. */
  lemma SplitLinesCons(p: string, x: string)
    requires '\n' !in p
    ensures SplitLines(p + "\n" + x) == [p] + SplitLines(x)
  {
    var s := p + "\n" + x;
    assert forall j :: 0 <= j < |p| ==> s[j] == p[j];
    IndexOfFinds(s, '\n', 0, |p|);
    assert s[..|p|] == p && s[|p| + 1..] == x;
  }

  /** A text without line feeds is one incomplete line. */
  lemma SplitLinesNone(b: string)
    requires '\n' !in b
    ensures SplitLines(b) == [b]
  {
    IndexOfFinds(b, '\n', 0, |b|);
  }

  /** Lines already joined are split off again whatever follows them. */
  lemma {:induction false} SplitAfterJoin(done: seq<string>, b: string, rest: string)
    requires SingleLines(done)
    ensures SplitLines(JoinLines(done + [b]) + rest) == done + SplitLines(b + rest)
    decreases |done|
  {
    if done == [] {
      assert done + [b] == [b];
    } else {
      JoinedHead(done, b, rest);
      assert SingleLines(done[1..]) by {
        forall i | 0 <= i < |done[1..]|
          ensures '\n' !in done[1..][i]
        {
          assert done[1..][i] == done[i + 1];
        }
      }
      SplitAfterJoin(done[1..], b, rest);
      assert done == [done[0]] + done[1..];
    }
  }

  /** Splitting joined lines gives the first line, then the split of the rest. */
  lemma JoinedHead(done: seq<string>, b: string, rest: string)
    requires done != [] && '\n' !in done[0]
    ensures SplitLines(JoinLines(done + [b]) + rest) == [done[0]] + SplitLines(JoinLines(done[1..] + [b]) + rest)
  {
    var p := done[0];
    var x := JoinLines(done[1..] + [b]);
    assert (done + [b])[1..] == done[1..] + [b];
    assert JoinLines(done + [b]) == p + "\n" + x;
    assert p + "\n" + x + rest == p + "\n" + (x + rest);
    SplitLinesCons(p, x + rest);
  }

  /** A split that starts with given lines keeps them among the complete lines. */
  lemma PiecesAfter(s: string, done: seq<string>, t: string)
    requires SplitLines(s) == done + SplitLines(t)
    ensures CompleteLines(s) == done + CompleteLines(t)
    ensures Remainder(s) == Remainder(t)
  {
    var tp := SplitLines(t);
    assert tp == tp[..|tp| - 1] + [tp[|tp| - 1]];
    assert done + tp == (done + tp[..|tp| - 1]) + [tp[|tp| - 1]];
  }

  /** Lines already joined stay complete lines whatever follows them. */
  lemma CompleteLinesOf(done: seq<string>, b: string, rest: string)
    requires SingleLines(done)
    ensures CompleteLines(JoinLines(done + [b]) + rest) == done + CompleteLines(b + rest)
    ensures Remainder(JoinLines(done + [b]) + rest) == Remainder(b + rest)
  {
    SplitAfterJoin(done, b, rest);
    PiecesAfter(JoinLines(done + [b]) + rest, done, b + rest);
  }

  /** The concatenation of two lists of chunks. */
  lemma {:induction false} ConcatAppend(a: seq<string>, b: seq<string>)
    ensures Concat(a + b) == Concat(a) + Concat(b)
    decreases |b|
  {
    if b != [] {
      var c := a + b;
      assert c[..|c| - 1] == a + b[..|b| - 1];
      ConcatAppend(a, b[..|b| - 1]);
    } else {
      assert a + b == a;
    }
  }

  /** The chunks up to and including chunk `i`. */
  lemma ConcatStep(chunks: seq<string>, i: int)
    requires 0 <= i < |chunks|
    ensures Concat(chunks[..i + 1]) == Concat(chunks[..i]) + chunks[i]
  {
    assert chunks[..i + 1][..i] == chunks[..i];
  }

  /** One chunk: the buffer plus the chunk is split into complete lines and a new buffer. */
  lemma {:induction false} ChunkStep(done: seq<string>, buffer: string, chunk: string)
    ensures var x := buffer + chunk;
      JoinLines(done + CompleteLines(x) + [Remainder(x)]) == JoinLines(done + [buffer]) + chunk
  {
    var x := buffer + chunk;
    var lines := CompleteLines(x) + [Remainder(x)];
    PiecesJoin(x);
    JoinStep(done, buffer, chunk, lines);
    assert done + CompleteLines(x) + [Remainder(x)] == done + lines;
  }

  /** The complete lines and the buffer join back into the text. */
  lemma PiecesJoin(x: string)
    ensures JoinLines(CompleteLines(x) + [Remainder(x)]) == x
  {
    Pieces(x);
    SplitLinesJoin(x);
  }

  /** Lines that join into the buffer plus a chunk, after `done`: the join of `done` and the buffer, then the chunk. */
  lemma JoinStep(done: seq<string>, buffer: string, chunk: string, lines: seq<string>)
    requires |lines| >= 1 && JoinLines(lines) == buffer + chunk
    ensures JoinLines(done + lines) == JoinLines(done + [buffer]) + chunk
  {
    if done == [] {
      assert done + lines == lines;
      assert done + [buffer] == [buffer];
    } else {
      var joined := JoinLines(done);
      JoinLinesAppend(done, [buffer]);
      JoinLinesAppend(done, lines);
      assert JoinLines(done + [buffer]) == joined + "\n" + buffer;
      assert joined + "\n" + buffer + chunk == joined + "\n" + (buffer + chunk);
    }
  }

  /** Two lists of lines free of line feeds together. */
  lemma SingleLinesAppend(a: seq<string>, b: seq<string>)
    requires SingleLines(a) && SingleLines(b)
    ensures SingleLines(a + b)
  {
    forall i | 0 <= i < |a + b|
      ensures '\n' !in (a + b)[i]
    {
      if i >= |a| {
        assert (a + b)[i] == b[i - |a|];
      }
    }
  }

  /** Cutting a list at `k` before appending to it. */
  lemma Regroup<T>(a: seq<T>, b: seq<T>, k: int)
    requires 0 <= k <= |a|
    ensures a + b == a[..k] + (a[k..] + b)
  {
    assert a == a[..k] + a[k..];
  }

  /** Once `[DONE]` is among the first `k` lines, the rest of the lines do not matter. */
  lemma StoppedPrefix(lines: seq<string>, k: int, decode: string -> Decoded)
    requires 0 <= k <= |lines| && LinesOutput(lines[..k], decode).stopped
    ensures LinesOutput(lines, decode) == LinesOutput(lines[..k], decode)
  {
    Regroup(lines, [], k);
    assert lines + [] == lines;
    LinesOutputAppend(lines[..k], lines[k..] + [], decode);
  }

  /** `[DONE]` among the lines handled settles the whole stream: what follows it is never read. */
  lemma StopSettles(handled: seq<string>, buffer: string, chunks: seq<string>, i: int, decode: string -> Decoded)
    requires 0 <= i < |chunks|
    requires SingleLines(handled)
    requires JoinLines(handled + [buffer]) == Concat(chunks[..i + 1])
    requires LinesOutput(handled, decode).stopped
    ensures Decode(chunks, decode) == LinesOutput(handled, decode)
  {
    var rest := Concat(chunks[i + 1..]);
    Regroup(chunks, [], i + 1);
    assert chunks + [] == chunks;
    ConcatAppend(chunks[..i + 1], chunks[i + 1..]);
    CompleteLinesOf(handled, buffer, rest);
    LinesOutputAppend(handled, CompleteLines(buffer + rest), decode);
  }

  /** At the end of the stream the complete lines are the ones handled, and the buffer is what is left over. */
  lemma EndSettles(done: seq<string>, buffer: string, chunks: seq<string>)
    requires SingleLines(done) && '\n' !in buffer
    requires JoinLines(done + [buffer]) == Concat(chunks)
    ensures CompleteLines(Concat(chunks)) == done
    ensures Remainder(Concat(chunks)) == buffer
  {
    CompleteLinesOf(done, buffer, "");
    assert buffer + "" == buffer;
    assert Concat(chunks) + "" == Concat(chunks);
    SplitLinesNone(buffer);
    assert done + [] == done;
  }

  /** The state after one more chunk: the handled lines grow by the complete lines of buffer plus chunk. */
  lemma AfterChunk(done: seq<string>, buffer: string, chunks: seq<string>, i: int)
    requires 0 <= i < |chunks|
    requires SingleLines(done) && JoinLines(done + [buffer]) == Concat(chunks[..i])
    ensures var x := buffer + chunks[i];
      SingleLines(done + CompleteLines(x)) && '\n' !in Remainder(x) &&
      JoinLines(done + CompleteLines(x) + [Remainder(x)]) == Concat(chunks[..i + 1])
  {
    var x := buffer + chunks[i];
    ChunkStep(done, buffer, chunks[i]);
    ConcatStep(chunks, i);
    Pieces(x);
    SingleLinesAppend(done, CompleteLines(x));
  }

  /** Handling one more line after some lines. */
  lemma LineStep(prefix: seq<string>, line: string, fragments: seq<string>, decode: string -> Decoded)
    requires LinesOutput(prefix, decode) == Output(fragments, false)
    ensures LineEffect(line, decode) == Stop ==> LinesOutput(prefix + [line], decode) == Output(fragments, true)
    ensures LineEffect(line, decode) == Skip ==> LinesOutput(prefix + [line], decode) == Output(fragments, false)
    ensures LineEffect(line, decode).Yield? ==>
      LinesOutput(prefix + [line], decode) == Output(fragments + [LineEffect(line, decode).text], false)
  {
    LinesOutputAppend(prefix, [line], decode);
    assert [line][1..] == [];
    assert fragments + [] == fragments;
  }

  /** Taking one element more. */
  lemma TakeOneMore<T>(a: seq<T>, n: int)
    requires 0 <= n < |a|
    ensures a[..n + 1] == a[..n] + [a[n]]
  {
  }

  /** Taking every element. */
  lemma TakeAll<T>(a: seq<T>, n: int)
    requires n == |a|
    ensures a[..n] == a
  {
  }

  // ---------------------------------------------------------------------------
  // The read loop

  /** The inner `for` over the complete lines of one read: what it yields, and whether it met `[DONE]`. */
  method HandleLines(lines: seq<string>, decode: string -> Decoded) returns (out: seq<string>, stopped: bool)
    ensures Output(out, stopped) == LinesOutput(lines, decode)
  {
    out := [];
    stopped := false;
    var j := 0;
    while j < |lines|
      invariant 0 <= j <= |lines|
      invariant LinesOutput(lines[..j], decode) == Output(out, false)
    {
      var effect := LineEffect(lines[j], decode);
      TakeOneMore(lines, j);
      LineStep(lines[..j], lines[j], out, decode);
      if effect == Stop {
        StoppedPrefix(lines, j + 1, decode);
        stopped := true;
        return;
      }
      if effect.Yield? {
        out := out + [effect.text];
      }
      j := j + 1;
    }
    TakeAll(lines, j);
  }

  /**
   * The read loop over the chunks the reader delivers: the fragments it
   * yields, whether `[DONE]` ended it, and the buffer left when the reader
   * ran out (never handled).
   */
  method ReadStream(chunks: seq<string>, decode: string -> Decoded) returns (fragments: seq<string>, stopped: bool, leftover: string)
    ensures Output(fragments, stopped) == Decode(chunks, decode)
    ensures !stopped ==> leftover == Remainder(Concat(chunks))
  {
    var buffer := "";
    fragments := [];
    stopped := false;
    ghost var done: seq<string> := [];
    var i := 0;
    while i < |chunks|
      invariant 0 <= i <= |chunks|
      invariant SingleLines(done) && '\n' !in buffer
      invariant JoinLines(done + [buffer]) == Concat(chunks[..i])
      invariant LinesOutput(done, decode) == Output(fragments, false)
    {
      var x := buffer + chunks[i];
      var lines := CompleteLines(x);
      AfterChunk(done, buffer, chunks, i);
      buffer := Remainder(x);
      var out, stop := HandleLines(lines, decode);
      LinesOutputAppend(done, lines, decode);
      fragments := fragments + out;
      done := done + lines;
      if stop {
        stopped := true;
        leftover := buffer;
        StopSettles(done, buffer, chunks, i, decode);
        return;
      }
      i := i + 1;
    }
    TakeAll(chunks, i);
    EndSettles(done, buffer, chunks);
    leftover := buffer;
  }
}
