/** The output file names both command-line scripts build (index.js and
    hilbert-curve/index.js): the prefix of the input's base name, followed by
    the grid size when one was asked for, and the extension. */
module FileNames {
  import opened Js

  /** The path with its trailing '/' characters removed. */
  function TrimSlashes(path: string): (t: string)
    ensures |t| <= |path| && t == path[..|t|]
    ensures |t| == 0 || t[|t| - 1] != '/'
    ensures forall i :: |t| <= i < |path| ==> path[i] == '/'
  {
    if |path| > 0 && path[|path| - 1] == '/' then TrimSlashes(path[..|path| - 1]) else path
  }

  /** path.basename(path) on POSIX: the last '/'-separated segment once
      trailing slashes are dropped ("" for "" and for "/"). It is a '/'-free
      suffix of the trimmed path that starts the path or follows a '/'. */
  function Basename(path: string): (b: string)
    ensures Free(b, '/')
    ensures var t := TrimSlashes(path);
      |b| <= |t| && t[|t| - |b|..] == b && (|b| == |t| || t[|t| - |b| - 1] == '/')
  {
    var parts := Split(TrimSlashes(path), '/');
    SplitShape(TrimSlashes(path), '/');
    SplitLastFollows(TrimSlashes(path), '/');
    parts[|parts| - 1]
  }

  /** basename(file).split(".")[0]: the base name up to its first '.', or
      all of it when it has none. */
  function Prefix(file: string): (prefix: string)
    ensures Free(prefix, '.') && Free(prefix, '/')
    ensures StartsWith(Basename(file), prefix)
    ensures |prefix| == |Basename(file)| || Basename(file)[|prefix|] == '.'
  {
    var b := Basename(file);
    FirstPiece(b);
    Split(b, '.')[0]
  }

  /** The first '.'-piece of a '/'-free name: free of both, a leading part
      of the name, and stopping at its first '.'. */
  lemma FirstPiece(b: string)
    requires Free(b, '/')
    ensures var p := Split(b, '.')[0];
      Free(p, '.') && Free(p, '/') && StartsWith(b, p) && (|p| == |b| || b[|p|] == '.')
  {
    SplitShape(b, '.');
    SplitFirst(b, '.');
    SplitFirstStops(b, '.');
    var p := Split(b, '.')[0];
    assert forall i :: 0 <= i < |p| ==> p[i] == b[i];
  }

  /** `${side}x${side}`, the size part of a name: the side's digits on both
      sides of an 'x', so it holds no '.' or '/'. */
  function SizeText(side: nat): (size: string)
    ensures Free(size, '.') && Free(size, '/')
  {
    var d := NumberText(side);
    FreeConcat("x", d, '.');
    FreeConcat(d, "x" + d, '.');
    FreeConcat("x", d, '/');
    FreeConcat(d, "x" + d, '/');
    d + ("x" + d)
  }

  /** `${prefix}.${side}x${side}.${ext}` when a size was set, else
      `${prefix}.${ext}`; side 0 stands for an unset (falsy) option. */
  function OutputName(prefix: string, side: nat, ext: string): (name: string)
    ensures |name| > |prefix| + |ext|
  {
    if side == 0 then prefix + "." + ext
    else prefix + "." + SizeText(side) + "." + ext
  }

  /** parseInt reads the side back from the size part. */
  lemma SizeTextParses(side: nat)
    ensures ParseInt(SizeText(side)) == Some(side)
  {
    ParseIntNumberText(side, "x" + NumberText(side));
  }

  /** The parts a name is joined from. */
  function NameParts(prefix: string, side: nat, ext: string): seq<string> {
    if side == 0 then [prefix, ext] else [prefix, SizeText(side), ext]
  }

  lemma NameIsJoin(prefix: string, side: nat, ext: string)
    ensures Join(NameParts(prefix, side, ext), '.') == OutputName(prefix, side, ext)
  {
    if side == 0 {
      Join2(prefix, ext, '.');
    } else {
      Join3(prefix, SizeText(side), ext, '.');
    }
  }

  /** A name splits on '.' into the prefix, the size part when there is one,
      and the extension; the size part reads back as the side. */
  lemma OutputNameReadsBack(prefix: string, side: nat, ext: string)
    requires Free(prefix, '.') && Free(ext, '.')
    ensures side == 0 ==> Split(OutputName(prefix, side, ext), '.') == [prefix, ext]
    ensures side > 0 ==> Split(OutputName(prefix, side, ext), '.') == [prefix, SizeText(side), ext]
    ensures side > 0 ==> ParseInt(Split(OutputName(prefix, side, ext), '.')[1]) == Some(side)
  {
    NameIsJoin(prefix, side, ext);
    if side == 0 {
      NamePartsSplit(prefix, ext);
    } else {
      SizeTextParses(side);
      NamePartsSplit3(prefix, SizeText(side), ext);
    }
  }

  lemma NamePartsSplit(prefix: string, ext: string)
    requires Free(prefix, '.') && Free(ext, '.')
    ensures Split(Join([prefix, ext], '.'), '.') == [prefix, ext]
  {
    SplitJoin([prefix, ext], '.');
  }

  lemma NamePartsSplit3(prefix: string, size: string, ext: string)
    requires Free(prefix, '.') && Free(ext, '.') && Free(size, '.')
    ensures Split(Join([prefix, size, ext], '.'), '.') == [prefix, size, ext]
  {
    SplitJoin([prefix, size, ext], '.');
  }

  /** The outputs are named after their input: the prefix of an output name
      is the prefix of the file it was made from, whatever the size. */
  lemma PrefixOfOutputName(file: string, side: nat, ext: string)
    requires |ext| > 0 && Free(ext, '.') && Free(ext, '/')
    ensures Prefix(OutputName(Prefix(file), side, ext)) == Prefix(file)
  {
    var prefix := Prefix(file);
    var name := OutputName(prefix, side, ext);
    var parts := NameParts(prefix, side, ext);
    NameIsJoin(prefix, side, ext);
    JoinFree(parts, '.', '/');
    assert name[|name| - 1] == ext[|ext| - 1];
    assert TrimSlashes(name) == name;
    SplitFree(name, '/');
    assert Basename(name) == name;
    OutputNameReadsBack(prefix, side, ext);
  }
}
