/**
  The line reassembly inside `readsock`: received chunks are appended to a
  buffer, and while the buffer holds a newline the text before the first
  newline is yielded as a line. The socket itself is replaced by the
  sequence of chunks it delivers, already decoded; an empty chunk is a
  read that returned nothing.
*/
module LineReader {
  import opened Wrappers
  import opened PyStr

  /** Everything received: the chunks in arrival order, concatenated. */
  function Concat(chunks: seq<string>): string
  {
    if chunks == [] then "" else Concat(chunks[..|chunks| - 1]) + chunks[|chunks| - 1]
  }

  lemma ConcatSnoc(chunks: seq<string>, c: string)
    ensures Concat(chunks + [c]) == Concat(chunks) + c
  {
    assert (chunks + [c])[..|chunks|] == chunks;
  }

  predicate NoNewline(s: string)
  {
    '\n' !in s
  }

  predicate AllNoNewline(lines: seq<string>)
  {
    forall i :: 0 <= i < |lines| ==> NoNewline(lines[i])
  }

  /** The text the lines came from: each line followed by its newline. */
  function Terminated(lines: seq<string>): string
  {
    if lines == [] then "" else lines[0] + "\n" + Terminated(lines[1..])
  }

  lemma {:induction false} TerminatedAppend(lines: seq<string>, line: string)
    ensures Terminated(lines + [line]) == Terminated(lines) + line + "\n"
    decreases |lines|
  {
    if lines == [] {
      assert Terminated([line]) == line + "\n" + Terminated([]);
    } else {
      assert (lines + [line])[0] == lines[0];
      assert (lines + [line])[1..] == lines[1..] + [line];
      TerminatedAppend(lines[1..], line);
    }
  }

  lemma ConsLine(line: string, lines: seq<string>, residue: string)
    requires NoNewline(line) && AllNoNewline(lines)
    ensures AllNoNewline([line] + lines)
    ensures Terminated([line] + lines) + residue == line + ['\n'] + (Terminated(lines) + residue)
  {
    assert ([line] + lines)[1..] == lines;
    forall i | 0 <= i < |[line] + lines| ensures NoNewline(([line] + lines)[i]) {
      if i > 0 { assert ([line] + lines)[i] == lines[i - 1]; }
    }
  }

  /** One step of line 76: the line cut off the buffer's front moves to the yielded lines. */
  lemma TakeLine(lines: seq<string>, buffer: string)
    requires '\n' in buffer
    ensures var (line, rest) := SplitOnce(buffer, '\n').value;
      && NoNewline(line) && |rest| < |buffer|
      && Terminated(lines + [line]) + rest == Terminated(lines) + buffer
  {
    var (line, rest) := SplitOnce(buffer, '\n').value;
    SplitOnceCut(buffer, '\n');
    TerminatedAppend(lines, line);
  }

  /**
    The whole of `s` cut at every newline: the complete lines, and the text
    after the last newline, which is not yet a line.
  */
  function SplitLines(s: string): (r: (seq<string>, string))
    ensures AllNoNewline(r.0) && NoNewline(r.1)
    ensures s == Terminated(r.0) + r.1
    decreases |s|
  {
    match SplitOnce(s, '\n')
    case None => ([], s)
    case Some((line, rest)) =>
      SplitOnceCut(s, '\n');
      var (lines, residue) := SplitLines(rest);
      ConsLine(line, lines, residue);
      ([line] + lines, residue)
  }

  /** Cutting at the newlines is the only way to read `s` as lines plus a newline-free tail. */
  lemma {:induction false} SplitLinesUnique(s: string, lines: seq<string>, residue: string)
    requires AllNoNewline(lines) && NoNewline(residue)
    requires s == Terminated(lines) + residue
    ensures SplitLines(s) == (lines, residue)
    decreases |lines|
  {
    if lines == [] {
      assert s == residue;
    } else {
      var rest := Terminated(lines[1..]) + residue;
      assert s == lines[0] + ['\n'] + rest;
      SplitOnceUnique(s, '\n', lines[0], rest);
      assert AllNoNewline(lines[1..]) by {
        forall i | 0 <= i < |lines[1..]| ensures NoNewline(lines[1..][i]) {
          assert lines[1..][i] == lines[i + 1];
        }
      }
      SplitLinesUnique(rest, lines[1..], residue);
      assert [lines[0]] + lines[1..] == lines;
    }
  }

  /**
    Lines 71-90 of `readsock`, run until the received chunks are used up:
    the lines yielded so far and the buffer still held back.
  */
  method ReadSock(chunks: seq<string>) returns (lines: seq<string>, residue: string)
    ensures AllNoNewline(lines) && NoNewline(residue)
    ensures Terminated(lines) + residue == Concat(chunks)
    ensures (lines, residue) == SplitLines(Concat(chunks))
  {
    var buffer := "";
    var next := 0;
    if |chunks| > 0 {
      buffer := chunks[0];
      next := 1;
      assert chunks[..1] == [] + [chunks[0]];
      ConcatSnoc([], chunks[0]);
    }
    lines := [];
    while '\n' in buffer || next < |chunks|
      invariant 0 <= next <= |chunks|
      invariant AllNoNewline(lines)
      invariant Terminated(lines) + buffer == Concat(chunks[..next])
      decreases |chunks| - next, |buffer|
    {
      if '\n' in buffer {
        var (line, rest) := SplitOnce(buffer, '\n').value;
        TakeLine(lines, buffer);
        lines := lines + [line];
        buffer := rest;
      } else {
        var more := chunks[next];
        assert chunks[..next + 1] == chunks[..next] + [more];
        ConcatSnoc(chunks[..next], more);
        if more != "" {
          buffer := buffer + more;
        }
        next := next + 1;
      }
    }
    residue := buffer;
    assert chunks[..next] == chunks;
    SplitLinesUnique(Concat(chunks), lines, residue);
  }

  /** Lines 91-92: a non-empty buffer left at the end is yielded as a last line. */
  function Flush(residue: string): (r: seq<string>)
    ensures r == [] <==> residue == ""
    ensures residue != "" ==> r == [residue]
  {
    if residue != "" then [residue] else []
  }

  /** Every line `readsock` yields when the stream ends, the flushed tail included. */
  function ReadLines(s: string): (r: seq<string>)
    ensures AllNoNewline(r)
  {
    var (lines, residue) := SplitLines(s);
    lines + Flush(residue)
  }

  /** `s` with a newline added when its last line is unterminated. */
  function Terminate(s: string): (t: string)
    ensures t == s || t == s + "\n"
    ensures t != "" ==> t[|t| - 1] == '\n'
  {
    if s == "" || s[|s| - 1] == '\n' then s else s + "\n"
  }

  /**
    With the flush, no text is lost: the lines yielded are exactly the lines
    of the input once its last line is terminated.
  */
  lemma ReadLinesTerminated(s: string)
    ensures Terminated(ReadLines(s)) == Terminate(s)
  {
    var (lines, residue) := SplitLines(s);
    TerminatedAppend(lines, residue);
    if residue == "" {
      assert lines + [] == lines;
      if s != "" {
        assert lines != [];
        TerminatedLastNewline(lines);
      }
    } else {
      assert s[|s| - 1] == residue[|residue| - 1];
      assert residue[|residue| - 1] != '\n';
    }
  }

  lemma {:induction false} TerminatedLastNewline(lines: seq<string>)
    requires lines != []
    ensures |Terminated(lines)| > 0 && Terminated(lines)[|Terminated(lines)| - 1] == '\n'
    decreases |lines|
  {
    if lines[1..] != [] {
      TerminatedLastNewline(lines[1..]);
    }
  }

  /** Splitting `ReadLines` in two: the complete lines, then at most the flushed tail. */
  lemma ReadLinesOfSplit(s: string)
    ensures ReadLines(s) == SplitLines(Terminate(s)).0
    ensures SplitLines(Terminate(s)).1 == ""
  {
    ReadLinesTerminated(s);
    SplitLinesUnique(Terminate(s), ReadLines(s), "");
  }

  /** Lines 74-90 as written never yield a last line that has no newline. */
  lemma UnterminatedLineWithheld(line: string)
    requires NoNewline(line)
    ensures SplitLines(line) == ([], line)
  {
    SplitLinesUnique(line, [], line);
  }

  /** With the flush at lines 91-92, that last line is yielded. */
  lemma UnterminatedLineFlushed(line: string)
    requires NoNewline(line) && line != ""
    ensures ReadLines(line) == [line]
  {
    UnterminatedLineWithheld(line);
  }

  /**
    The reader as the stream's close was meant to end it: the loop of
    `ReadSock`, then the flush of lines 91-92.
  */
  method ReadSockFlushing(chunks: seq<string>) returns (lines: seq<string>)
    ensures AllNoNewline(lines)
    ensures lines == ReadLines(Concat(chunks))
    ensures Terminated(lines) == Terminate(Concat(chunks))
  {
    var complete, residue := ReadSock(chunks);
    lines := complete + Flush(residue);
    ReadLinesTerminated(Concat(chunks));
  }
}
