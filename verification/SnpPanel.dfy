/** The reference panel the browser client fetches (client/workers/loadSnps.js):
    one tab-separated line per variant, `[_, _, rsId, affyId, affyAllele]`.
    The loader builds `rs` (rsId -> 0-based line ordinal) and `affy`
    (affyId -> {rsId, allele}). */
module SnpPanel {
  import opened Js
  import opened LineBuffer

  datatype AffyEntry = AffyEntry(rsId: Option<string>, allele: Option<string>)

  /** The `snps` object the worker posts back. */
  datatype Panel = Panel(rs: map<string, nat>, affy: map<string, AffyEntry>)

  /** The key `snps.rs[rsId]` writes for a line: its third field, or
      "undefined" when the line has fewer than three fields. */
  function RsKey(line: string): (key: string)
    ensures |Split(line, '\t')| > 2 ==> key == Split(line, '\t')[2]
    ensures |Split(line, '\t')| <= 2 ==> key == "undefined"
  {
    ToJsString(At(Split(line, '\t'), 2))
  }

  /** The key `snps.affy[affyId]` writes for a line: its fourth field. */
  function AffyKey(line: string): (key: string)
    ensures |Split(line, '\t')| > 3 ==> key == Split(line, '\t')[3]
    ensures |Split(line, '\t')| <= 3 ==> key == "undefined"
  {
    ToJsString(At(Split(line, '\t'), 3))
  }

  /** The value stored under AffyKey: the third and fifth fields. */
  function AffyOf(line: string): (entry: AffyEntry)
    ensures entry.rsId.Some? <==> |Split(line, '\t')| > 2
    ensures entry.allele.Some? <==> |Split(line, '\t')| > 4
    ensures entry.rsId.Some? ==> entry.rsId.value == Split(line, '\t')[2]
    ensures entry.allele.Some? ==> entry.allele.value == Split(line, '\t')[4]
  {
    var fields := Split(line, '\t');
    AffyEntry(At(fields, 2), At(fields, 4))
  }

  /** The panel after handling `lines` in order, line k getting ordinal k;
      a later line overwrites an earlier one with the same key. */
  function PanelOf(lines: seq<string>): Panel
  {
    if |lines| == 0 then Panel(map[], map[])
    else
      var p := PanelOf(lines[..|lines| - 1]);
      var line := lines[|lines| - 1];
      Panel(p.rs[RsKey(line) := |lines| - 1], p.affy[AffyKey(line) := AffyOf(line)])
  }

  /** load(): walks the text one character at a time, handling each
      '\n'-terminated line as it completes. `index` ends as the number of
      lines handled. */
  method Load(text: string) returns (snps: Panel, index: nat)
    ensures index == |Lines(text)| == Count(text, '\n')
    ensures snps == PanelOf(Lines(text))
  {
    var line := "";
    index := 0;
    var rs: map<string, nat> := map[];
    var affy: map<string, AffyEntry> := map[];
    for k := 0 to |text|
      invariant line == Pending(text[..k])
      invariant index == |Lines(text[..k])|
      invariant Panel(rs, affy) == PanelOf(Lines(text[..k]))
    {
      Step(text[..k], text[k]);
      assert text[..k + 1] == text[..k] + [text[k]];
      if text[k] == '\n' {
        var fields := Split(line, '\t');
        rs := rs[ToJsString(At(fields, 2)) := index];
        affy := affy[ToJsString(At(fields, 3)) := AffyEntry(At(fields, 2), At(fields, 4))];
        index := index + 1;
        line := "";
        ghost var ls := Lines(text[..k + 1]);
        assert ls[..|ls| - 1] == Lines(text[..k]);
      } else {
        line := line + [text[k]];
      }
    }
    assert text[..|text|] == text;
    LineCount(text);
    snps := Panel(rs, affy);
  }

  /** `rs[id]` is the ordinal of the last line whose rsId field is `id`,
      and `id` is a key exactly when some line carries it. */
  lemma {:induction false} RsIsLastOrdinal(lines: seq<string>, id: string)
    ensures id in PanelOf(lines).rs <==> exists i :: 0 <= i < |lines| && RsKey(lines[i]) == id
    ensures id in PanelOf(lines).rs ==>
      var i := PanelOf(lines).rs[id];
      i < |lines| && RsKey(lines[i]) == id &&
      forall j :: i < j < |lines| ==> RsKey(lines[j]) != id
  {
    if |lines| > 0 {
      var init := lines[..|lines| - 1];
      RsIsLastOrdinal(init, id);
      assert forall i :: 0 <= i < |init| ==> init[i] == lines[i];
    }
  }

  /** Every ordinal stored in `rs` is a valid position among the lines read. */
  lemma RsBelowLineCount(lines: seq<string>)
    ensures forall id :: id in PanelOf(lines).rs ==> PanelOf(lines).rs[id] < |lines|
  {
    forall id | id in PanelOf(lines).rs
      ensures PanelOf(lines).rs[id] < |lines|
    {
      RsIsLastOrdinal(lines, id);
    }
  }

  /** `affy[aid]` is built from the last line whose affyId field is `aid`. */
  lemma {:induction false} AffyIsLastEntry(lines: seq<string>, aid: string)
    ensures aid in PanelOf(lines).affy <==> exists i :: 0 <= i < |lines| && AffyKey(lines[i]) == aid
    ensures aid in PanelOf(lines).affy ==>
      exists i :: 0 <= i < |lines| && AffyKey(lines[i]) == aid &&
        PanelOf(lines).affy[aid] == AffyOf(lines[i]) &&
        forall j :: i < j < |lines| ==> AffyKey(lines[j]) != aid
  {
    if |lines| > 0 {
      var init := lines[..|lines| - 1];
      AffyIsLastEntry(init, aid);
      assert forall i :: 0 <= i < |init| ==> init[i] == lines[i];
      var last := |lines| - 1;
      if AffyKey(lines[last]) == aid {
        assert AffyKey(lines[last]) == aid && PanelOf(lines).affy[aid] == AffyOf(lines[last]);
      }
    }
  }

  /** A line with fewer than three fields is not rejected: it is stored
      under the key "undefined" and still uses up an ordinal. */
  lemma ShortLineKeepsOrdinal(lines: seq<string>, line: string)
    requires Count(line, '\t') < 2
    ensures RsKey(line) == "undefined" && AffyKey(line) == "undefined"
    ensures AffyOf(line).allele == None
    ensures PanelOf(lines + [line]).rs["undefined"] == |lines|
  {
    SplitShape(line, '\t');
    assert (lines + [line])[..|lines|] == lines;
  }

  /** When every line carries a different rsId, the ordinals form exactly the
      positions 0..|lines|-1: line k is found at k and there are |lines| keys. */
  lemma {:induction false} DistinctIdsArePositions(lines: seq<string>)
    requires forall i, j :: 0 <= i < j < |lines| ==> RsKey(lines[i]) != RsKey(lines[j])
    ensures |PanelOf(lines).rs| == |lines|
    ensures forall k :: 0 <= k < |lines| ==>
      RsKey(lines[k]) in PanelOf(lines).rs && PanelOf(lines).rs[RsKey(lines[k])] == k
  {
    if |lines| > 0 {
      var init := lines[..|lines| - 1];
      var last := lines[|lines| - 1];
      assert forall i :: 0 <= i < |init| ==> init[i] == lines[i];
      DistinctIdsArePositions(init);
      if RsKey(last) in PanelOf(init).rs {
        RsIsLastOrdinal(init, RsKey(last));
        assert false;
      }
    }
  }

  /** There are never more rsId keys than lines, and fewer as soon as two
      lines share an rsId. */
  lemma {:induction false} KeyCount(lines: seq<string>)
    ensures |PanelOf(lines).rs| <= |lines|
    ensures (exists i, j :: 0 <= i < j < |lines| && RsKey(lines[i]) == RsKey(lines[j])) ==>
      |PanelOf(lines).rs| < |lines|
  {
    if |lines| > 0 {
      var init := lines[..|lines| - 1];
      var last := lines[|lines| - 1];
      assert forall i :: 0 <= i < |init| ==> init[i] == lines[i];
      KeyCount(init);
      var rs0 := PanelOf(init).rs;
      assert PanelOf(lines).rs == rs0[RsKey(last) := |lines| - 1];
      if exists i, j :: 0 <= i < j < |lines| && RsKey(lines[i]) == RsKey(lines[j]) {
        var i, j :| 0 <= i < j < |lines| && RsKey(lines[i]) == RsKey(lines[j]);
        if j == |lines| - 1 {
          RsIsLastOrdinal(init, RsKey(last));
          assert RsKey(init[i]) == RsKey(last);
          assert PanelOf(lines).rs.Keys == rs0.Keys;
        } else {
          assert RsKey(init[i]) == RsKey(init[j]);
        }
      }
    }
  }

  /** The worker sizes each sample's vector by the number of rsId keys and
      writes a call at its line's ordinal. Every ordinal fits such a vector
      exactly when no two lines share an rsId; otherwise the last line's
      ordinal is past the end, and its calls are dropped. */
  lemma OrdinalsFitIffDistinct(lines: seq<string>)
    ensures (forall id :: id in PanelOf(lines).rs ==> PanelOf(lines).rs[id] < |PanelOf(lines).rs|) <==>
      (forall i, j :: 0 <= i < j < |lines| ==> RsKey(lines[i]) != RsKey(lines[j]))
    ensures |lines| > 0 && (exists i, j :: 0 <= i < j < |lines| && RsKey(lines[i]) == RsKey(lines[j])) ==>
      PanelOf(lines).rs[RsKey(lines[|lines| - 1])] == |lines| - 1 >= |PanelOf(lines).rs|
  {
    var rs := PanelOf(lines).rs;
    KeyCount(lines);
    if forall i, j :: 0 <= i < j < |lines| ==> RsKey(lines[i]) != RsKey(lines[j]) {
      DistinctIdsArePositions(lines);
      forall id | id in rs
        ensures rs[id] < |rs|
      {
        RsIsLastOrdinal(lines, id);
      }
    } else {
      var last := RsKey(lines[|lines| - 1]);
      RsIsLastOrdinal(lines, last);
      assert rs[last] == |lines| - 1;
    }
  }

  /** A final line without its '\n' never reaches the panel. */
  lemma UnterminatedTailIgnored(text: string, tail: string)
    requires Free(tail, '\n')
    ensures PanelOf(Lines(text + tail)) == PanelOf(Lines(text))
  {
    TailIgnored(text, tail);
  }
}
