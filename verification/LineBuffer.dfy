/** The line accumulator both workers use: characters are appended to `line`
    until a '\n' arrives, at which point the line is handled and `line` is
    reset. Its meaning is the text split on '\n' with the unterminated tail
    left out. */
module LineBuffer {
  import opened Js

  /** The '\n'-terminated lines of `text`, in order, without their '\n'. */
  function Lines(text: string): seq<string> {
    var parts := Split(text, '\n');
    parts[..|parts| - 1]
  }

  /** The characters after the last '\n': what the accumulator holds. */
  function Pending(text: string): string {
    var parts := Split(text, '\n');
    parts[|parts| - 1]
  }

  /** One more character either extends the pending text or terminates it
      as one more line. */
  lemma Step(text: string, c: char)
    ensures c == '\n' ==> Lines(text + [c]) == Lines(text) + [Pending(text)] && Pending(text + [c]) == ""
    ensures c != '\n' ==> Lines(text + [c]) == Lines(text) && Pending(text + [c]) == Pending(text) + [c]
  {
    var t := text + [c];
    assert t[..|t| - 1] == text;
    var r0 := Split(text, '\n');
    if c == '\n' {
      assert (r0 + [""])[..|r0|] == r0;
    } else {
      var r := r0[..|r0| - 1] + [r0[|r0| - 1] + [c]];
      assert r[..|r| - 1] == r0[..|r0| - 1];
    }
  }

  /** Every terminated line uses up exactly one '\n'. */
  lemma LineCount(text: string)
    ensures |Lines(text)| == Count(text, '\n')
  {
    SplitShape(text, '\n');
  }

  /** No line and no pending tail contains a '\n': fields never span lines. */
  lemma NoNewlineInLines(text: string)
    ensures forall k :: 0 <= k < |Lines(text)| ==> Free(Lines(text)[k], '\n')
    ensures Free(Pending(text), '\n')
  {
    SplitShape(text, '\n');
  }

  /** Each line followed by its '\n', concatenated. */
  function Terminated(lines: seq<string>): string {
    if |lines| == 0 then "" else Terminated(lines[..|lines| - 1]) + lines[|lines| - 1] + "\n"
  }

  /** Nothing is lost: the terminated lines followed by the pending tail
      spell the whole text. */
  lemma {:induction false} Reassemble(text: string)
    ensures Terminated(Lines(text)) + Pending(text) == text
  {
    if |text| > 0 {
      var init := text[..|text| - 1];
      var c := text[|text| - 1];
      assert text == init + [c];
      Reassemble(init);
      Step(init, c);
      if c == '\n' {
        var ls := Lines(init) + [Pending(init)];
        assert ls[..|ls| - 1] == Lines(init);
      }
    }
  }

  /** Text after the final '\n' adds no line. */
  lemma {:induction false} TailIgnored(text: string, tail: string)
    requires Free(tail, '\n')
    ensures Lines(text + tail) == Lines(text)
  {
    if |tail| > 0 {
      var t0 := tail[..|tail| - 1];
      assert Free(t0, '\n');
      TailIgnored(text, t0);
      assert text + tail == (text + t0) + [tail[|tail| - 1]];
      Step(text + t0, tail[|tail| - 1]);
    } else {
      assert text + tail == text;
    }
  }

  /** row.join("\t") + "\n": the one-line, tab-separated value files both
      command-line scripts write. */
  function TsvLine(row: seq<string>): string {
    Join(row, '\t') + "\n"
  }

  /** A value file is one line, and splitting it on tabs gives back the row,
      when no cell holds a tab or a line break. */
  lemma TsvLineReadsBack(row: seq<string>)
    requires |row| >= 1
    requires forall k :: 0 <= k < |row| ==> Free(row[k], '\t') && Free(row[k], '\n')
    ensures Lines(TsvLine(row)) == [Join(row, '\t')]
    ensures Split(Join(row, '\t'), '\t') == row
  {
    var s := Join(row, '\t');
    JoinFree(row, '\t', '\n');
    SplitJoin(row, '\t');
    var t := TsvLine(row);
    assert t[..|t| - 1] == s;
    SplitFree(s, '\n');
    assert Split(t, '\n') == [s, ""];
  }
}
