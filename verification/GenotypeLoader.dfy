/** The genotype-matrix loader of the browser worker
    (client/workers/processInput.js). A tab-separated genotype file is read
    one character at a time; '#' lines are skipped, the first other line
    names the samples, and every later line whose first field is a panel
    rsId writes one call per sample into that sample's zero-initialised
    byte vector, at the rsId's panel ordinal. */
module GenotypeLoader {
  import opened Js
  import opened LineBuffer
  import opened Grayscale
  import SnpPanel

  /** Hilbert order the worker passes to `construct` (a 128 x 128 grid). */
  const Order: nat := 7

  /** How a step ends: normally, or with the TypeError that aborts the
      whole `onload` handler. */
  datatype Result<T> = Ok(value: T) | Thrown

  // ---------------------------------------------------------------------
  // One call field
  // ---------------------------------------------------------------------

  /** `if (gt < 0 || gt > 2) gt = 0`; NaN compares false both ways and is
      left as it is. */
  function Clamp(gt: Option<int>): (r: Option<int>)
    ensures gt.None? ==> r.None?
    ensures gt.Some? ==> r.Some? && 0 <= r.value <= 2
    ensures gt.Some? && 0 <= gt.value <= 2 ==> r == gt
  {
    match gt
    case None => None
    case Some(v) => if v < 0 || v > 2 then Some(0) else Some(v)
  }

  /** Storing a number into a Uint8Array element: NaN becomes 0 and an
      integer is taken modulo 256. */
  function ToUint8(x: Option<int>): (b: int)
    ensures 0 <= b < 256
    ensures x.Some? && 0 <= x.value < 256 ==> b == x.value
    ensures x.None? ==> b == 0
  {
    match x
    case None => 0
    case Some(v) => v % 256
  }

  /** The byte one call field ends up as: parseInt, clamp, store. A missing
      field (`undefined` from the zip) parses as NaN and is stored as 0. */
  function CallByte(genotype: Option<string>): (b: int)
    ensures 0 <= b <= 2
    ensures var gt := ParseInt(ToJsString(genotype));
      b == (if gt.Some? && 0 <= gt.value <= 2 then gt.value else 0)
  {
    ToUint8(Clamp(ParseInt(ToJsString(genotype))))
  }

  /** A one-digit call field: 0, 1 and 2 are stored as they are, 3 to 9
      are out of range and stored as hom-ref. */
  lemma CallByteOfDigit(c: char)
    requires IsDigit(c)
    ensures CallByte(Some([c])) == if c <= '2' then c as int - '0' as int else 0
  {
    var d := c as int - '0' as int;
    assert NumberText(d) + "" == [c];
    ParseIntNumberText(d, "");
  }

  /** A negative call ("-1", "-2", ...) is stored as hom-ref. */
  lemma CallByteOfNegative(c: char)
    requires IsDigit(c)
    ensures CallByte(Some(['-', c])) == 0
  {
    ParseIntOfMinus(['-', c]);
  }

  /** A field that does not start with a digit or sign (a no-call such as
      "." or "NA"), and a missing field, are stored as hom-ref. */
  lemma CallByteOfNonNumber(f: Option<string>)
    requires f.Some? ==> |f.value| > 0 && !IsDigit(f.value[0]) && !IsJsSpace(f.value[0])
                         && f.value[0] != '-' && f.value[0] != '+'
    ensures CallByte(f) == 0
  {
    var s := ToJsString(f);
    assert !IsJsSpace(s[0]);
    assert TrimStart(s) == s;
  }

  // ---------------------------------------------------------------------
  // The per-sample vectors, as values
  // ---------------------------------------------------------------------

  /** `_.zip(samples, calls)`: as long as the longer input, padding the
      shorter one with `undefined`. */
  function Zip(samples: seq<string>, calls: seq<string>): (pairs: seq<(Option<string>, Option<string>)>)
    ensures |pairs| == if |samples| < |calls| then |calls| else |samples|
    ensures forall k :: 0 <= k < |pairs| ==> pairs[k] == (At(samples, k), At(calls, k))
  {
    var n := if |samples| < |calls| then |calls| else |samples|;
    seq(n, k requires 0 <= k < n => (At(samples, k), At(calls, k)))
  }

  function Zeros(n: nat): (v: seq<int>)
    ensures |v| == n && forall p :: 0 <= p < n ==> v[p] == 0
  {
    seq(n, _ => 0)
  }

  /** A typed-array element write: ignored when the position is past the end. */
  function Put(v: seq<int>, index: nat, b: int): (w: seq<int>)
    ensures |w| == |v|
    ensures forall p :: 0 <= p < |v| ==> w[p] == if p == index then b else v[p]
  {
    if index < |v| then v[index := b] else v
  }

  /** `genotypes[sample] = new Uint8Array(numSnps)` for each header sample;
      a repeated name gets a second fresh vector. */
  function AddSamples(m: map<string, seq<int>>, names: seq<string>, numSnps: nat): (r: map<string, seq<int>>)
    ensures m.Keys <= r.Keys
    ensures forall k :: 0 <= k < |names| ==> names[k] in r && r[names[k]] == Zeros(numSnps)
  {
    if |names| == 0 then m
    else AddSamples(m, names[..|names| - 1], numSnps)[names[|names| - 1] := Zeros(numSnps)]
  }

  /** After the header every named sample has a zeroed vector, and every
      other key keeps what it had. */
  lemma {:induction false} AddSamplesContents(m: map<string, seq<int>>, names: seq<string>, numSnps: nat)
    ensures forall s :: s in AddSamples(m, names, numSnps) <==> s in m || s in names
    ensures forall s :: s in AddSamples(m, names, numSnps) ==>
      AddSamples(m, names, numSnps)[s] == if s in names then Zeros(numSnps) else m[s]
  {
    if |names| > 0 {
      AddSamplesContents(m, names[..|names| - 1], numSnps);
      assert forall s :: s in names <==> s in names[..|names| - 1] || s == names[|names| - 1];
    }
  }

  /** The writes of one data line, pair by pair: `genotypes[sample][index] = gt`.
      A pair whose sample has no vector (a call beyond the header, whose
      sample is `undefined`) throws. */
  function WriteCalls(m: map<string, seq<int>>, pairs: seq<(Option<string>, Option<string>)>, index: nat): (r: Result<map<string, seq<int>>>)
    ensures r.Ok? ==> r.value.Keys == m.Keys
    ensures |pairs| > 0 && SampleOf(pairs[|pairs| - 1]) !in m ==> r == Thrown
  {
    if |pairs| == 0 then Ok(m)
    else
      match WriteCalls(m, pairs[..|pairs| - 1], index)
      case Thrown => Thrown
      case Ok(m1) =>
        var key := SampleOf(pairs[|pairs| - 1]);
        if key in m1 then Ok(m1[key := Put(m1[key], index, CallByte(pairs[|pairs| - 1].1))])
        else Thrown
  }

  /** The state the parsing loop carries from line to line. */
  datatype Scan = Scan(samples: Option<seq<string>>, matrix: map<string, seq<int>>, snpCount: nat)

  /** One terminated line of the genotype file. */
  function StepLine(sc: Scan, line: string, rs: map<string, nat>, numSnps: nat): (r: Result<Scan>)
    ensures IsComment(line) ==> r == Ok(sc)
    ensures sc.samples.Some? && r.Ok? ==> r.value.samples == sc.samples
  {
    if IsComment(line) then Ok(sc)
    else
      var fields := Split(line, '\t');
      match sc.samples
      case None =>
        Ok(Scan(Some(fields[1..]), AddSamples(sc.matrix, fields[1..], numSnps), sc.snpCount))
      case Some(samples) =>
        if fields[0] !in rs then Ok(sc)
        else
          match WriteCalls(sc.matrix, Zip(samples, fields[1..]), rs[fields[0]])
          case Thrown => Thrown
          case Ok(m) => Ok(Scan(sc.samples, m, sc.snpCount + 1))
  }

  /** The lines in order; a throw ends the scan. */
  function ScanLines(sc: Scan, lines: seq<string>, rs: map<string, nat>, numSnps: nat): (r: Result<Scan>)
  {
    if |lines| == 0 then Ok(sc)
    else
      match ScanLines(sc, lines[..|lines| - 1], rs, numSnps)
      case Thrown => Thrown
      case Ok(sc1) => StepLine(sc1, lines[|lines| - 1], rs, numSnps)
  }

  // ---------------------------------------------------------------------
  // The worker's state: the `samples` binding and the `genotypes` object
  // of Uint8Arrays that the `onload` handler fills in place
  // ---------------------------------------------------------------------

  datatype SampleResult = SampleResult(sample: string, hilbert: seq<Shade>)

  class InputReader {
    const rs: map<string, nat>
    const numSnps: nat
    var samples: Option<seq<string>>
    var genotypes: map<string, array<int>>

    /** Every vector has `numSnps` entries, no two samples share a vector,
        and every header sample has one. */
    ghost predicate Valid()
      reads this
    {
      && (forall s :: s in genotypes ==> genotypes[s].Length == numSnps)
      && (forall s, t :: s in genotypes && t in genotypes && s != t ==> genotypes[s] != genotypes[t])
      && (samples.Some? ==> forall k :: 0 <= k < |samples.value| ==> samples.value[k] in genotypes)
    }

    /** The vectors' current contents. */
    ghost function Matrix(): (m: map<string, seq<int>>)
      reads this`genotypes, genotypes.Values
      ensures m.Keys == genotypes.Keys
      ensures forall s :: s in m ==> m[s] == genotypes[s][..]
    {
      map s | s in genotypes :: genotypes[s][..]
    }

    /** The message handler's set-up: `numSnps = Object.keys(snps.rs).length`,
        `samples` unset, `genotypes = {}`. */
    constructor (snps: SnpPanel.Panel)
      ensures rs == snps.rs && numSnps == |snps.rs|
      ensures samples == None && genotypes == map[]
      ensures Valid() && Matrix() == map[]
    {
      rs := snps.rs;
      numSnps := |snps.rs|;
      samples := None;
      genotypes := map[];
    }

    /** The header branch: `samples = fields.slice(1)` and a zeroed vector
        per sample. */
    method ReadHeader(names: seq<string>)
      requires Valid()
      modifies this
      ensures Valid()
      ensures samples == Some(names)
      ensures Matrix() == AddSamples(old(Matrix()), names, numSnps)
      ensures forall s :: s in genotypes ==>
        (s in old(genotypes) && genotypes[s] == old(genotypes[s])) || fresh(genotypes[s])
    {
      AddVectors(names);
      AddSamplesContents(old(Matrix()), names, numSnps);
      samples := Some(names);
    }

    /** The header's vector loop, one `new Uint8Array(numSnps)` per name. */
    method AddVectors(names: seq<string>)
      requires Valid()
      modifies this
      ensures Valid() && samples == old(samples)
      ensures Matrix() == AddSamples(old(Matrix()), names, numSnps)
      ensures forall s :: s in genotypes ==>
        (s in old(genotypes) && genotypes[s] == old(genotypes[s])) || fresh(genotypes[s])
    {
      ghost var m0 := Matrix();
      for j := 0 to |names|
        invariant Valid() && samples == old(samples)
        invariant Matrix() == AddSamples(m0, names[..j], numSnps)
        invariant forall s :: s in genotypes ==>
          (s in old(genotypes) && genotypes[s] == old(genotypes[s])) || fresh(genotypes[s])
      {
        AddVector(names[j]);
        assert names[..j + 1][..j] == names[..j];
      }
      assert names[..|names|] == names;
    }

    /** `genotypes[sample] = new Uint8Array(numSnps)` */
    method AddVector(name: string)
      requires Valid()
      modifies this
      ensures Valid() && samples == old(samples)
      ensures genotypes.Keys == old(genotypes).Keys + {name} && fresh(genotypes[name])
      ensures forall s :: s in old(genotypes) ==> s in genotypes
      ensures forall s :: s in genotypes && s != name ==> genotypes[s] == old(genotypes[s])
      ensures Matrix() == old(Matrix())[name := Zeros(numSnps)]
    {
      ghost var before := Matrix();
      var vector := new int[numSnps](_ => 0);
      genotypes := genotypes[name := vector];
      assert vector[..] == Zeros(numSnps);
      UpdatedMap(Matrix(), before, name, Zeros(numSnps));
    }

    /** The data-line branch for a resolved rsId: every (sample, call) pair of
        the zip stored at `index`. */
    method WriteLine(pairs: seq<(Option<string>, Option<string>)>, index: nat) returns (ok: bool)
      requires Valid()
      modifies genotypes.Values
      ensures Valid()
      ensures var r := WriteCalls(old(Matrix()), pairs, index);
        ok == r.Ok? && (ok ==> Matrix() == r.value)
    {
      ghost var m0 := Matrix();
      for j := 0 to |pairs|
        invariant WriteCalls(m0, pairs[..j], index) == Ok(Matrix())
      {
        ghost var before := Matrix();
        WriteCallsNext(m0, pairs, j, index, before);
        var stored := WritePair(pairs[j], index);
        if !stored {
          WriteCallsThrownStays(m0, pairs[..j + 1], pairs, index);
          return false;
        }
      }
      assert pairs[..|pairs|] == pairs;
      ok := true;
    }

    /** One pair of the zip: the call stored in its sample's vector, or
        false (the TypeError) when the sample has none. */
    method WritePair(pair: (Option<string>, Option<string>), index: nat) returns (stored: bool)
      requires Valid()
      modifies genotypes.Values
      ensures var key := SampleOf(pair);
        stored == (key in old(Matrix())) &&
        (stored ==> Matrix() == old(Matrix())[key := Put(old(Matrix())[key], index, CallByte(pair.1))])
    {
      var key := SampleOf(pair);
      if key !in genotypes {
        return false;
      }
      var b := CallByte(pair.1);
      ghost var before := Matrix();
      StoreCall(key, index, b);
      UpdatedMap(Matrix(), before, key, Put(before[key], index, b));
      stored := true;
    }

    /** `genotypes[sample][index] = gt` for a sample that has a vector. */
    method StoreCall(key: string, index: nat, b: int)
      requires Valid() && key in genotypes
      modifies genotypes[key]
      ensures Matrix().Keys == old(Matrix()).Keys
      ensures Matrix()[key] == Put(old(Matrix())[key], index, b)
      ensures forall s :: s in genotypes && s != key ==> Matrix()[s] == old(Matrix())[s]
    {
      var a := genotypes[key];
      if index < a.Length {
        a[index] := b;
      }
    }

    /** The loop body for one terminated line; its `continue`s become early
        returns. `resolved` tells whether the line was a data line whose rsId
        the panel knows, the case in which `snpCount` grows. */
    method HandleLine(line: string, ghost snpCount: nat) returns (ok: bool, resolved: bool)
      requires Valid()
      modifies this, genotypes.Values
      ensures Valid()
      ensures var r := StepLine(Scan(old(samples), old(Matrix()), snpCount), line, rs, numSnps);
        ok == r.Ok? &&
        (ok ==> r.value == Scan(samples, Matrix(), if resolved then snpCount + 1 else snpCount))
      ensures forall s :: s in genotypes ==> genotypes[s] in old(genotypes.Values) || fresh(genotypes[s])
    {
      if StartsWith(line, "#") {
        return true, false;
      }
      var fields := Split(line, '\t');
      if samples.None? {
        ReadHeader(fields[1..]);
        return true, false;
      }
      var rsId := fields[0];
      if rsId !in rs {
        return true, false;
      }
      ok := WriteLine(Zip(samples.value, fields[1..]), rs[rsId]);
      resolved := true;
    }

    /** `reader.onload`: the character loop. `count` is the number of lines
        seen, `snpCount` the number of data lines whose rsId the panel knows.
        `ok` is false when a line made the handler throw. */
    method OnLoad(content: string) returns (ok: bool, count: nat, snpCount: nat)
      requires Valid()
      modifies this, genotypes.Values
      ensures Valid()
      ensures var r := ScanLines(Scan(old(samples), old(Matrix()), 0), Lines(content), rs, numSnps);
        ok == r.Ok? &&
        (ok ==> samples == r.value.samples && Matrix() == r.value.matrix &&
                snpCount == r.value.snpCount && count == |Lines(content)|)
    {
      var line := "";
      count, snpCount := 0, 0;
      ghost var start := Scan(samples, Matrix(), 0);
      for k := 0 to |content|
        invariant Valid()
        invariant line == Pending(content[..k])
        invariant count == |Lines(content[..k])|
        invariant ScanLines(start, Lines(content[..k]), rs, numSnps) == Ok(Scan(samples, Matrix(), snpCount))
        invariant forall s :: s in genotypes ==> genotypes[s] in old(genotypes.Values) || fresh(genotypes[s])
      {
        Step(content[..k], content[k]);
        assert content[..k + 1] == content[..k] + [content[k]];
        if content[k] == '\n' {
          ghost var ls := Lines(content[..k + 1]);
          assert ls[..|ls| - 1] == Lines(content[..k]) && ls[|ls| - 1] == line;
          count := count + 1;
          var handled, resolved := HandleLine(line, snpCount);
          if !handled {
            LinesPrefix(content, k + 1);
            ScanThrownStays(start, Lines(content[..k + 1]), Lines(content), rs, numSnps);
            return false, count, snpCount;
          }
          if resolved {
            snpCount := snpCount + 1;
          }
          line := "";
        } else {
          line := line + [content[k]];
        }
      }
      assert content[..|content|] == content;
      ok := true;
    }

    /** The per-sample loop after parsing: each header sample's vector is
        put into Hilbert order by `construct` and mapped to grayscale. With
        no header line `samples` is unset and `samples.length` throws. */
    method Results(construct: (seq<int>, nat) -> seq<int>) returns (results: Result<seq<SampleResult>>)
      requires Valid()
      ensures samples.None? <==> results.Thrown?
      ensures results.Ok? ==>
        |results.value| == |samples.value| &&
        forall i :: 0 <= i < |results.value| ==>
          results.value[i].sample == samples.value[i] &&
          results.value[i].hilbert == GrayscaleValues(construct(Matrix()[samples.value[i]], Order))
    {
      if samples.None? {
        return Thrown;
      }
      var names := samples.value;
      var acc: seq<SampleResult> := [];
      for i := 0 to |names|
        invariant |acc| == i
        invariant forall j :: 0 <= j < i ==>
          acc[j].sample == names[j] && acc[j].hilbert == GrayscaleValues(construct(Matrix()[names[j]], Order))
      {
        var data := genotypes[names[i]][..];
        var gts := construct(data, Order);
        acc := acc + [SampleResult(names[i], GrayscaleValues(gts))];
      }
      results := Ok(acc);
    }
  }

  // ---------------------------------------------------------------------
  // What one data line does to the vectors
  // ---------------------------------------------------------------------

  /** Every vector has `numSnps` entries, each a valid call 0, 1 or 2. */
  ghost predicate WellFormed(m: map<string, seq<int>>, numSnps: nat) {
    forall s :: s in m ==> |m[s]| == numSnps && forall p :: 0 <= p < numSnps ==> 0 <= m[s][p] <= 2
  }

  /** A data line adds no sample, resizes no vector, and touches no position
      other than its rsId's ordinal. */
  lemma {:induction false} WriteCallsOnlyIndex(m: map<string, seq<int>>, pairs: seq<(Option<string>, Option<string>)>, index: nat)
    requires WriteCalls(m, pairs, index).Ok?
    ensures var r := WriteCalls(m, pairs, index).value;
      r.Keys == m.Keys &&
      forall s :: s in m ==>
        (|r[s]| == |m[s]| && forall p :: 0 <= p < |m[s]| && p != index ==> r[s][p] == m[s][p])
  {
    if |pairs| > 0 {
      WriteCallsOnlyIndex(m, pairs[..|pairs| - 1], index);
    }
  }

  /** A data line keeps every vector well formed: what it stores is a
      clamped call. */
  lemma {:induction false} WriteCallsWellFormed(m: map<string, seq<int>>, pairs: seq<(Option<string>, Option<string>)>,
                                                index: nat, numSnps: nat)
    requires WellFormed(m, numSnps) && WriteCalls(m, pairs, index).Ok?
    ensures WellFormed(WriteCalls(m, pairs, index).value, numSnps)
  {
    if |pairs| > 0 {
      var n := |pairs| - 1;
      WriteCallsWellFormed(m, pairs[..n], index, numSnps);
      var r0 := WriteCalls(m, pairs[..n], index).value;
      var key := SampleOf(pairs[n]);
      assert key in r0;
      var v := Put(r0[key], index, CallByte(pairs[n].1));
      assert WriteCalls(m, pairs, index) == Ok(r0[key := v]);
      assert |v| == numSnps && forall p :: 0 <= p < numSnps ==> 0 <= v[p] <= 2;
    }
  }

  /** The property key a zip pair writes under. */
  function SampleOf(pair: (Option<string>, Option<string>)): string {
    ToJsString(pair.0)
  }

  /** Pair k is the last pair naming its sample. */
  predicate LastNaming(pairs: seq<(Option<string>, Option<string>)>, k: nat)
    requires k < |pairs|
  {
    forall j :: k < j < |pairs| ==> SampleOf(pairs[j]) != SampleOf(pairs[k])
  }

  /** Every pair that is the last to name its sample has its call stored at
      `index` in that sample's vector (when the vector reaches that far). */
  predicate LastWritten(r: map<string, seq<int>>, pairs: seq<(Option<string>, Option<string>)>, index: nat) {
    forall k :: 0 <= k < |pairs| && SampleOf(pairs[k]) in r && index < |r[SampleOf(pairs[k])]| && LastNaming(pairs, k) ==>
      r[SampleOf(pairs[k])][index] == CallByte(pairs[k].1)
  }

  /** When every pair's sample has a vector, the line does not throw, and a
      sample's cell at `index` holds the call of the last pair naming that
      sample (a repeated header name takes its later column). */
  lemma {:induction false} WriteCallsLastWriter(m: map<string, seq<int>>, pairs: seq<(Option<string>, Option<string>)>, index: nat)
    requires forall k :: 0 <= k < |pairs| ==> SampleOf(pairs[k]) in m
    ensures WriteCalls(m, pairs, index).Ok?
    ensures var r := WriteCalls(m, pairs, index).value;
      r.Keys == m.Keys && (forall s :: s in m ==> |r[s]| == |m[s]|) && LastWritten(r, pairs, index)
  {
    if |pairs| > 0 {
      var n := |pairs| - 1;
      var init := pairs[..n];
      assert forall k :: 0 <= k < n ==> SampleOf(init[k]) in m by {
        assert forall k :: 0 <= k < n ==> init[k] == pairs[k];
      }
      WriteCallsLastWriter(m, init, index);
      var r0 := WriteCalls(m, init, index).value;
      var key := SampleOf(pairs[n]);
      var r := r0[key := Put(r0[key], index, CallByte(pairs[n].1))];
      assert WriteCalls(m, pairs, index) == Ok(r);
      LastWriterStep(r0, pairs, index);
      assert LastWritten(r, pairs, index);
    }
    WriteCallsOnlyIndex(m, pairs, index);
  }

  /** The last pair's write keeps what the earlier pairs' last writers
      stored for every other sample. */
  lemma LastWriterStep(r0: map<string, seq<int>>, pairs: seq<(Option<string>, Option<string>)>, index: nat)
    requires |pairs| > 0 && SampleOf(pairs[|pairs| - 1]) in r0
    requires LastWritten(r0, pairs[..|pairs| - 1], index)
    ensures var key := SampleOf(pairs[|pairs| - 1]);
      LastWritten(r0[key := Put(r0[key], index, CallByte(pairs[|pairs| - 1].1))], pairs, index)
  {
    var n := |pairs| - 1;
    var key := SampleOf(pairs[n]);
    var r := r0[key := Put(r0[key], index, CallByte(pairs[n].1))];
    forall k | 0 <= k < |pairs| && SampleOf(pairs[k]) in r && index < |r[SampleOf(pairs[k])]| && LastNaming(pairs, k)
      ensures r[SampleOf(pairs[k])][index] == CallByte(pairs[k].1)
    {
      LastWriterAt(r0, pairs, index, k);
    }
  }

  /** The same, for the pair at k. */
  lemma LastWriterAt(r0: map<string, seq<int>>, pairs: seq<(Option<string>, Option<string>)>, index: nat, k: nat)
    requires |pairs| > 0 && SampleOf(pairs[|pairs| - 1]) in r0
    requires LastWritten(r0, pairs[..|pairs| - 1], index)
    requires k < |pairs| && LastNaming(pairs, k)
    ensures var key := SampleOf(pairs[|pairs| - 1]);
      var r := r0[key := Put(r0[key], index, CallByte(pairs[|pairs| - 1].1))];
      var sk := SampleOf(pairs[k]);
      sk in r && index < |r[sk]| ==> r[sk][index] == CallByte(pairs[k].1)
  {
    var n := |pairs| - 1;
    var init := pairs[..n];
    var key := SampleOf(pairs[n]);
    var sk := SampleOf(pairs[k]);
    var r := r0[key := Put(r0[key], index, CallByte(pairs[n].1))];
    if sk in r && index < |r[sk]| {
      if k < n {
        assert key != sk;
        assert r[sk] == r0[sk];
        assert init[k] == pairs[k];
        assert LastNaming(init, k);
        assert SampleOf(init[k]) in r0 && index < |r0[SampleOf(init[k])]|;
      } else {
        assert k == n && sk == key;
        var w := Put(r0[key], index, CallByte(pairs[n].1));
        assert r[key] == w && w[index] == CallByte(pairs[n].1);
      }
    }
  }

  /** With distinct sample names and no more calls than samples, a data line
      stores sample k's call (hom-ref when the line is short) at the rsId's
      ordinal, for every sample whose vector reaches that far. */
  lemma ResolvedLineStoresCalls(m: map<string, seq<int>>, samples: seq<string>, calls: seq<string>, index: nat)
    requires forall k :: 0 <= k < |samples| ==> samples[k] in m
    requires forall i, j :: 0 <= i < j < |samples| ==> samples[i] != samples[j]
    requires |calls| <= |samples|
    ensures WriteCalls(m, Zip(samples, calls), index).Ok?
    ensures var r := WriteCalls(m, Zip(samples, calls), index).value;
      r.Keys == m.Keys &&
      forall k :: 0 <= k < |samples| && index < |m[samples[k]]| ==>
        |r[samples[k]]| == |m[samples[k]]| && r[samples[k]][index] == CallByte(At(calls, k))
  {
    var pairs := Zip(samples, calls);
    assert forall k :: 0 <= k < |pairs| ==> SampleOf(pairs[k]) == samples[k];
    WriteCallsLastWriter(m, pairs, index);
    forall k | 0 <= k < |samples|
      ensures LastNaming(pairs, k)
    {
    }
  }

  /** A data line with more calls than the header has samples throws: the
      extra call's sample is `undefined`, which has no vector (unless a
      sample is literally named "undefined"). */
  lemma ExtraCallThrows(m: map<string, seq<int>>, samples: seq<string>, calls: seq<string>, index: nat)
    requires "undefined" !in m
    requires |calls| > |samples|
    ensures WriteCalls(m, Zip(samples, calls), index) == Thrown
  {
    var pairs := Zip(samples, calls);
    var n := |samples|;
    var pre := pairs[..n + 1];
    assert pre[..n] == pairs[..n];
    if WriteCalls(m, pairs[..n], index).Ok? {
      WriteCallsOnlyIndex(m, pairs[..n], index);
    }
    assert SampleOf(pre[n]) == "undefined";
    WriteCallsThrownStays(m, pre, pairs, index);
  }

  // ---------------------------------------------------------------------
  // What the whole file does
  // ---------------------------------------------------------------------

  predicate IsComment(line: string) {
    StartsWith(line, "#")
  }

  /** The lines that are not '#' comments, in order. */
  function NonComment(lines: seq<string>): (r: seq<string>)
    ensures |r| <= |lines|
    ensures forall k :: 0 <= k < |r| ==> !IsComment(r[k])
  {
    if |lines| == 0 then []
    else
      var init := NonComment(lines[..|lines| - 1]);
      if IsComment(lines[|lines| - 1]) then init else init + [lines[|lines| - 1]]
  }

  /** Scanning two runs of lines is scanning the first, then the second from
      where the first left off. */
  lemma {:induction false} ScanLinesAppend(sc: Scan, a: seq<string>, b: seq<string>, rs: map<string, nat>, numSnps: nat)
    ensures ScanLines(sc, a + b, rs, numSnps) ==
      match ScanLines(sc, a, rs, numSnps)
      case Thrown => Thrown
      case Ok(sc1) => ScanLines(sc1, b, rs, numSnps)
  {
    if |b| == 0 {
      assert a + b == a;
    } else {
      var b0 := b[..|b| - 1];
      ScanLinesAppend(sc, a, b0, rs, numSnps);
      assert (a + b)[..|a + b| - 1] == a + b0;
    }
  }

  /** Comment lines have no effect anywhere in the file: the scan is the
      scan of the other lines. */
  lemma {:induction false} CommentsDropped(sc: Scan, lines: seq<string>, rs: map<string, nat>, numSnps: nat)
    ensures ScanLines(sc, lines, rs, numSnps) == ScanLines(sc, NonComment(lines), rs, numSnps)
  {
    if |lines| > 0 {
      var init := lines[..|lines| - 1];
      var last := lines[|lines| - 1];
      CommentsDropped(sc, init, rs, numSnps);
      if !IsComment(last) {
        ScanLinesAppend(sc, NonComment(init), [last], rs, numSnps);
      }
    }
  }

  /** Once the header has been read, no line changes the sample list or the
      set of vectors. */
  lemma {:induction false} HeaderSetOnce(sc: Scan, lines: seq<string>, rs: map<string, nat>, numSnps: nat)
    requires sc.samples.Some?
    requires ScanLines(sc, lines, rs, numSnps).Ok?
    ensures var sc1 := ScanLines(sc, lines, rs, numSnps).value;
      sc1.samples == sc.samples && sc1.matrix.Keys == sc.matrix.Keys && sc.snpCount <= sc1.snpCount <= sc.snpCount + |lines|
  {
    if |lines| > 0 {
      var init := lines[..|lines| - 1];
      HeaderSetOnce(sc, init, rs, numSnps);
      var sc0 := ScanLines(sc, init, rs, numSnps).value;
      var line := lines[|lines| - 1];
      var fields := Split(line, '\t');
      if !IsComment(line) && fields[0] in rs {
        WriteCallsOnlyIndex(sc0.matrix, Zip(sc0.samples.value, fields[1..]), rs[fields[0]]);
      }
    }
  }

  /** The sample list is the first line that is not a comment, without its
      first field; a file of comments only leaves it unset. */
  lemma HeaderIsFirstLine(m: map<string, seq<int>>, lines: seq<string>, rs: map<string, nat>, numSnps: nat)
    requires ScanLines(Scan(None, m, 0), lines, rs, numSnps).Ok?
    ensures var sc1 := ScanLines(Scan(None, m, 0), lines, rs, numSnps).value;
      if |NonComment(lines)| == 0 then sc1.samples == None && sc1.matrix == m
      else sc1.samples == Some(Split(NonComment(lines)[0], '\t')[1..])
  {
    var sc := Scan(None, m, 0);
    var data := NonComment(lines);
    CommentsDropped(sc, lines, rs, numSnps);
    if |data| > 0 {
      var head := data[0];
      assert data == [head] + data[1..];
      ScanLinesAppend(sc, [head], data[1..], rs, numSnps);
      assert [head][..0] == [];
      var sc1 := ScanLines(sc, [head], rs, numSnps).value;
      HeaderSetOnce(sc1, data[1..], rs, numSnps);
    }
  }

  /** Lines whose rsId the panel does not know, and comments, leave the scan
      as it was once the header has been read. */
  lemma {:induction false} UnknownIdsDropped(sc: Scan, lines: seq<string>, extra: seq<string>, rs: map<string, nat>, numSnps: nat)
    requires ScanLines(sc, lines, rs, numSnps).Ok? && ScanLines(sc, lines, rs, numSnps).value.samples.Some?
    requires forall k :: 0 <= k < |extra| ==> IsComment(extra[k]) || Split(extra[k], '\t')[0] !in rs
    ensures ScanLines(sc, lines + extra, rs, numSnps) == ScanLines(sc, lines, rs, numSnps)
  {
    if |extra| > 0 {
      var init := extra[..|extra| - 1];
      assert forall k :: 0 <= k < |init| ==> init[k] == extra[k];
      UnknownIdsDropped(sc, lines, init, rs, numSnps);
      assert (lines + extra)[..|lines + extra| - 1] == lines + init;
    } else {
      assert lines + extra == lines;
    }
  }

  /** Starting from well-formed vectors, the whole file leaves every vector
      well formed: `numSnps` entries, each 0, 1 or 2. */
  lemma {:induction false} ScanWellFormed(sc: Scan, lines: seq<string>, rs: map<string, nat>, numSnps: nat)
    requires WellFormed(sc.matrix, numSnps)
    requires ScanLines(sc, lines, rs, numSnps).Ok?
    ensures WellFormed(ScanLines(sc, lines, rs, numSnps).value.matrix, numSnps)
  {
    if |lines| > 0 {
      var init := lines[..|lines| - 1];
      ScanWellFormed(sc, init, rs, numSnps);
      var sc0 := ScanLines(sc, init, rs, numSnps).value;
      var line := lines[|lines| - 1];
      var fields := Split(line, '\t');
      if !IsComment(line) {
        if sc0.samples.None? {
          AddSamplesContents(sc0.matrix, fields[1..], numSnps);
        } else if fields[0] in rs {
          WriteCallsWellFormed(sc0.matrix, Zip(sc0.samples.value, fields[1..]), rs[fields[0]], numSnps);
        }
      }
    }
  }

  // ---------------------------------------------------------------------
  // Lemmas used by the loops
  // ---------------------------------------------------------------------

  lemma UpdatedMap<K, V>(m: map<K, V>, m0: map<K, V>, key: K, v: V)
    requires m.Keys == m0.Keys + {key}
    requires key in m && m[key] == v
    requires forall k :: k in m && k != key ==> m[k] == m0[k]
    ensures m == m0[key := v]
  {
  }

  /** One more pair: its write, or the throw when its sample has no vector. */
  lemma WriteCallsNext(m: map<string, seq<int>>, pairs: seq<(Option<string>, Option<string>)>, j: nat, index: nat,
                       m1: map<string, seq<int>>)
    requires j < |pairs| && WriteCalls(m, pairs[..j], index) == Ok(m1)
    ensures var key := SampleOf(pairs[j]);
      WriteCalls(m, pairs[..j + 1], index) ==
        if key in m1 then Ok(m1[key := Put(m1[key], index, CallByte(pairs[j].1))]) else Thrown
  {
    assert pairs[..j + 1][..j] == pairs[..j];
  }

  lemma {:induction false} WriteCallsThrownStays(m: map<string, seq<int>>, pre: seq<(Option<string>, Option<string>)>,
                                                 pairs: seq<(Option<string>, Option<string>)>, index: nat)
    requires |pre| <= |pairs| && pairs[..|pre|] == pre
    requires WriteCalls(m, pre, index) == Thrown
    ensures WriteCalls(m, pairs, index) == Thrown
  {
    if |pairs| > |pre| {
      var init := pairs[..|pairs| - 1];
      assert init[..|pre|] == pre;
      WriteCallsThrownStays(m, pre, init, index);
    } else {
      assert pairs == pre;
    }
  }

  lemma {:induction false} ScanThrownStays(sc: Scan, pre: seq<string>, lines: seq<string>, rs: map<string, nat>, numSnps: nat)
    requires |pre| <= |lines| && lines[..|pre|] == pre
    requires ScanLines(sc, pre, rs, numSnps) == Thrown
    ensures ScanLines(sc, lines, rs, numSnps) == Thrown
  {
    if |lines| > |pre| {
      var init := lines[..|lines| - 1];
      assert init[..|pre|] == pre;
      ScanThrownStays(sc, pre, init, rs, numSnps);
    } else {
      assert lines == pre;
    }
  }

  /** The lines of a prefix of the text are a prefix of its lines. */
  lemma {:induction false} LinesPrefix(text: string, j: nat)
    requires j <= |text|
    ensures |Lines(text[..j])| <= |Lines(text)|
    ensures Lines(text)[..|Lines(text[..j])|] == Lines(text[..j])
  {
    if j < |text| {
      var t := text[..|text| - 1];
      assert t[..j] == text[..j];
      LinesPrefix(t, j);
      assert text == t + [text[|text| - 1]];
      Step(t, text[|text| - 1]);
    } else {
      assert text[..j] == text;
    }
  }
}
