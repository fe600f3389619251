/**
  The main loop (lines 97-103): every line the reader yields is parsed,
  filtered and, when something is left, reported as one `CAPTURE:` line.
*/
module MainLoop {
  import opened Wrappers
  import opened PyStr
  import opened KeyOrder
  import opened EventParser
  import opened Reporter
  import opened LineReader

  /** The `CAPTURE:` lines printed for `lines`, in order. */
  function Reports(lines: seq<string>): (out: seq<string>)
    ensures |out| <= |lines|
  {
    if lines == [] then []
    else
      var init := Reports(lines[..|lines| - 1]);
      match Capture(lines[|lines| - 1])
      case Some(report) => init + [report]
      case None => init
  }

  /** Each line is reported on its own: nothing carries over from one line to the next. */
  lemma {:induction false} ReportsAppend(a: seq<string>, b: seq<string>)
    ensures Reports(a + b) == Reports(a) + Reports(b)
    decreases |b|
  {
    if b == [] {
      assert a + b == a;
    } else {
      var b' := b[..|b| - 1];
      assert (a + b)[..|a + b| - 1] == a + b';
      assert (a + b)[|a + b| - 1] == b[|b| - 1];
      ReportsAppend(a, b');
    }
  }

  /**
    Lines 97-103 composed with the corrected reader `ReadSockFlushing`,
    over everything the socket delivers before it closes. The output is
    what the source as written prints for the complete lines, followed by
    at most the report of the unterminated last line that only the flush
    of lines 91-92 yields.
  */
  method Run(chunks: seq<string>) returns (output: seq<string>)
    ensures output == Reports(ReadLines(Concat(chunks)))
    ensures var (complete, residue) := SplitLines(Concat(chunks));
      output == Reports(complete) + Reports(Flush(residue))
  {
    var lines := ReadSockFlushing(chunks);
    output := [];
    for i := 0 to |lines|
      invariant output == Reports(lines[..i])
    {
      assert lines[..i + 1][..i] == lines[..i];
      match Capture(lines[i])
      case Some(report) =>
        output := output + [report];
      case None =>
    }
    assert lines[..|lines|] == lines;
    var (complete, residue) := SplitLines(Concat(chunks));
    ReportsAppend(complete, Flush(residue));
  }

  lemma ExecveLineIsOneLine(ty: string, k0: string, v0: string, k1: string, v1: string)
    requires |ty| > 0 && Plain(ty) && |k0| > 0 && Plain(k0) && Plain(v0) && |k1| > 0 && Plain(k1) && Plain(v1)
    ensures NoNewline(ExecveLine(ty, k0, v0, k1, v1))
  {
    var t0 := "type=" + ty;
    forall i | 0 <= i < |t0| ensures !IsSpace(t0[i]) {
      if i >= 5 { assert t0[i] == ty[i - 5]; }
    }
    QuotedTokenIsWord(k0, v0);
    QuotedTokenIsWord(k1, v1);
    JoinAvoids([t0, QuotedToken(k0, v0), QuotedToken(k1, v1)], " ", '\n');
  }

  /**
    An `execve` record with two argument fields, however its bytes are cut
    into chunks, is reported once, with its values in key order.
  */
  lemma ExecveRecordReported(chunks: seq<string>, ty: string, k0: string, v0: string, k1: string, v1: string)
    requires |ty| > 0 && Plain(ty) && Lower(ty) == TypeLine
    requires IsArgKey(k0) && Plain(k0) && '=' !in k0 && Plain(v0)
    requires IsArgKey(k1) && Plain(k1) && '=' !in k1 && Plain(v1)
    requires Less(k0, k1)
    requires Concat(chunks) == ExecveLine(ty, k0, v0, k1, v1) + "\n"
    ensures Reports(ReadLines(Concat(chunks))) == ["CAPTURE: " + (v0 + " " + v1)]
  {
    var line := ExecveLine(ty, k0, v0, k1, v1);
    ExecveLineIsOneLine(ty, k0, v0, k1, v1);
    assert Terminated([line]) + "" == line + "\n";
    SplitLinesUnique(line + "\n", [line], "");
    assert ReadLines(Concat(chunks)) == [line];
    CaptureTwoArguments(ty, k0, v0, k1, v1);
    assert [line][..0] == [];
  }
}
