/** The small pieces of JavaScript semantics the scripts rely on: `undefined`,
    the string coercion of property keys, String.prototype.split/join and
    startsWith, Number.parseInt with radix 10, and the decimal text of a
    non-negative integer. */
module Js {

  /** An element of a Uint8Array. */
  type Byte = x: int | 0 <= x < 256

  /** A value that may be `undefined`. */
  datatype Option<+T> = None | Some(value: T)

  /** String(v) for a string-or-undefined value; this is also the key under
      which `obj[v]` stores or finds a property. */
  function ToJsString(v: Option<string>): (s: string)
    ensures v.Some? ==> s == v.value
    ensures v.None? ==> s == "undefined"
  {
    match v
    case Some(t) => t
    case None => "undefined"
  }

  /** `fields[k]`: the k-th element of an array, or `undefined` past its end. */
  function At(fields: seq<string>, k: nat): (f: Option<string>)
    ensures f.Some? <==> k < |fields|
    ensures f.Some? ==> f.value == fields[k]
  {
    if k < |fields| then Some(fields[k]) else None
  }

  /** s.startsWith(p) */
  predicate StartsWith(s: string, p: string) {
    |p| <= |s| && s[..|p|] == p
  }

  // ---------------------------------------------------------------------
  // String.prototype.split with a one-character separator, and Array.join
  // ---------------------------------------------------------------------

  /** s.split(sep): the pieces between occurrences of `sep`; never empty
      ("".split(sep) is [""]). Defined from the left so that appending one
      character to `s` either extends the last piece or opens a new one. */
  function Split(s: string, sep: char): (r: seq<string>)
    ensures |r| >= 1
  {
    if |s| == 0 then [""]
    else
      var r0 := Split(s[..|s| - 1], sep);
      var c := s[|s| - 1];
      if c == sep then r0 + [""]
      else r0[..|r0| - 1] + [r0[|r0| - 1] + [c]]
  }

  /** parts.join(sep) */
  function Join(parts: seq<string>, sep: char): string {
    if |parts| == 0 then ""
    else if |parts| == 1 then parts[0]
    else Join(parts[..|parts| - 1], sep) + [sep] + parts[|parts| - 1]
  }

  /** Number of occurrences of `c` in `s`. */
  function Count(s: string, c: char): nat {
    if |s| == 0 then 0
    else Count(s[..|s| - 1], c) + (if s[|s| - 1] == c then 1 else 0)
  }

  predicate Free(s: string, c: char) {
    forall i :: 0 <= i < |s| ==> s[i] != c
  }

  lemma {:induction false} CountFree(s: string, c: char)
    ensures Count(s, c) == 0 <==> Free(s, c)
  {
    if |s| > 0 {
      CountFree(s[..|s| - 1], c);
      if Free(s[..|s| - 1], c) && s[|s| - 1] != c {
        assert forall i :: 0 <= i < |s| - 1 ==> s[i] == s[..|s| - 1][i];
      }
    }
  }

  /** Splitting on `sep` yields one more piece than there are separators,
      and no piece contains the separator. */
  lemma {:induction false} SplitShape(s: string, sep: char)
    ensures |Split(s, sep)| == Count(s, sep) + 1
    ensures forall k :: 0 <= k < |Split(s, sep)| ==> Free(Split(s, sep)[k], sep)
  {
    if |s| > 0 {
      SplitShape(s[..|s| - 1], sep);
    }
  }

  /** Joining the pieces of a split gives back the original string. */
  lemma {:induction false} JoinSplit(s: string, sep: char)
    ensures Join(Split(s, sep), sep) == s
  {
    if |s| > 0 {
      var init := s[..|s| - 1];
      var c := s[|s| - 1];
      var r0 := Split(init, sep);
      JoinSplit(init, sep);
      assert s == init + [c];
      if c == sep {
        JoinSnoc(r0, "", sep);
      } else {
        JoinExtendLast(r0, [c], sep);
      }
    }
  }

  lemma JoinSnoc(parts: seq<string>, last: string, sep: char)
    requires |parts| >= 1
    ensures Join(parts + [last], sep) == Join(parts, sep) + [sep] + last
  {
    assert (parts + [last])[..|parts|] == parts;
  }

  /** Extending the last part extends the joined text by the same amount. */
  lemma JoinExtendLast(parts: seq<string>, t: string, sep: char)
    requires |parts| >= 1
    ensures var m := |parts| - 1;
      Join(parts[..m] + [parts[m] + t], sep) == Join(parts, sep) + t
  {
    var m := |parts| - 1;
    var q := parts[..m] + [parts[m] + t];
    if m > 0 {
      assert q[..m] == parts[..m];
      assert Join(q, sep) == Join(parts[..m], sep) + [sep] + (parts[m] + t);
      assert Join(parts, sep) == Join(parts[..m], sep) + [sep] + parts[m];
    }
  }

  /** Splitting a join gives back the parts, when no part holds the separator. */
  lemma {:induction false} SplitJoin(parts: seq<string>, sep: char)
    requires |parts| >= 1
    requires forall k :: 0 <= k < |parts| ==> Free(parts[k], sep)
    ensures Split(Join(parts, sep), sep) == parts
  {
    var m := |parts| - 1;
    var last := parts[m];
    if m == 0 {
      SplitAppendFree("", last, sep);
      assert "" + last == last;
      assert ExtendLast([""], last) == [last];
    } else {
      var init := parts[..m];
      SplitJoin(init, sep);
      var p0 := Join(init, sep);
      var prefix := p0 + [sep];
      assert prefix[..|prefix| - 1] == p0;
      assert Split(prefix, sep) == init + [""];
      SplitAppendFree(prefix, last, sep);
      assert Join(parts, sep) == prefix + last;
      assert ExtendLast(init + [""], last) == parts by {
        assert (init + [""])[..m] == init;
        assert "" + last == last;
        assert parts == init + [last];
      }
    }
  }

  /** A join of parts that avoid `c` avoids `c`, when the separator is not `c`. */
  lemma {:induction false} JoinFree(parts: seq<string>, sep: char, c: char)
    requires sep != c
    requires forall k :: 0 <= k < |parts| ==> Free(parts[k], c)
    ensures Free(Join(parts, sep), c)
  {
    if |parts| > 1 {
      JoinFree(parts[..|parts| - 1], sep, c);
    }
  }

  lemma Join2(a: string, b: string, sep: char)
    ensures Join([a, b], sep) == a + [sep] + b
  {
    assert [a, b][..1] == [a];
  }

  lemma Join3(a: string, b: string, c: string, sep: char)
    ensures Join([a, b, c], sep) == a + [sep] + b + [sep] + c
  {
    assert [a, b, c][..2] == [a, b];
    Join2(a, b, sep);
  }

  lemma FreeConcat(a: string, b: string, c: char)
    ensures Free(a + b, c) <==> Free(a, c) && Free(b, c)
  {
    if Free(a + b, c) {
      assert forall i :: 0 <= i < |b| ==> b[i] == (a + b)[|a| + i];
      assert forall i :: 0 <= i < |a| ==> a[i] == (a + b)[i];
    }
    if Free(a, c) && Free(b, c) {
      forall i | 0 <= i < |a + b|
        ensures (a + b)[i] != c
      {
        if i >= |a| {
          assert (a + b)[i] == b[i - |a|];
        }
      }
    }
  }

  /** A string without the separator splits into itself alone. */
  lemma SplitFree(s: string, sep: char)
    requires Free(s, sep)
    ensures Split(s, sep) == [s]
  {
    SplitAppendFree("", s, sep);
    assert "" + s == s;
  }

  /** The first piece of a split is where the string starts. */
  lemma {:induction false} SplitFirst(s: string, sep: char)
    ensures StartsWith(s, Split(s, sep)[0])
  {
    if |s| > 0 {
      var init := s[..|s| - 1];
      SplitFirst(init, sep);
      var r0 := Split(init, sep);
      if |r0| == 1 && s[|s| - 1] != sep {
        SplitShape(init, sep);
        CountFree(init, sep);
        SplitFree(init, sep);
        assert Split(s, sep)[0] == init + [s[|s| - 1]] == s;
      } else {
        assert Split(s, sep)[0] == r0[0];
        assert s[..|r0[0]|] == init[..|r0[0]|];
      }
    }
  }

  /** The first piece runs up to the first separator: it is the whole text
      when there is a single piece, and otherwise it is followed by `sep`. */
  lemma {:induction false} SplitFirstStops(s: string, sep: char)
    ensures var r := Split(s, sep);
      (|r| == 1 ==> r[0] == s) && (|r| > 1 ==> |r[0]| < |s| && s[|r[0]|] == sep)
  {
    if |s| > 0 {
      var init := s[..|s| - 1];
      var c := s[|s| - 1];
      SplitFirstStops(init, sep);
      var r0 := Split(init, sep);
      var r := Split(s, sep);
      if c == sep {
        assert r == r0 + [""];
        assert r[0] == r0[0] && |r| > 1;
        if |r0| > 1 {
          assert s[|r0[0]|] == init[|r0[0]|];
        }
      } else {
        assert r == r0[..|r0| - 1] + [r0[|r0| - 1] + [c]];
        if |r0| == 1 {
          assert r[0] == init + [c] == s;
        } else {
          assert r[0] == r0[0];
          assert s[|r0[0]|] == init[|r0[0]|];
        }
      }
    }
  }

  /** The last piece is a suffix of the text, preceded by `sep` unless it is
      the whole text. */
  lemma {:induction false} SplitLastFollows(s: string, sep: char)
    ensures var last := Split(s, sep)[|Split(s, sep)| - 1];
      |last| <= |s| && s[|s| - |last|..] == last && (|last| == |s| || s[|s| - |last| - 1] == sep)
  {
    if |s| > 0 {
      var init := s[..|s| - 1];
      SplitLastFollows(init, sep);
      var r0 := Split(init, sep);
      var l0 := r0[|r0| - 1];
      var c := s[|s| - 1];
      var r := Split(s, sep);
      if c == sep {
        assert r == r0 + [""];
      } else {
        assert r == r0[..|r0| - 1] + [l0 + [c]];
        assert r[|r| - 1] == l0 + [c];
        assert s == init + [c];
        assert s[|s| - |l0| - 1..] == init[|init| - |l0|..] + [c];
        if |l0| < |init| {
          assert s[|s| - |l0| - 2] == init[|init| - |l0| - 1];
        }
      }
    }
  }

  /** The pieces with text appended to the last one. */
  function ExtendLast(r: seq<string>, t: string): (r': seq<string>)
    requires |r| >= 1
    ensures |r'| == |r|
  {
    r[..|r| - 1] + [r[|r| - 1] + t]
  }

  lemma ExtendLastTwice(r: seq<string>, t0: string, c: char)
    requires |r| >= 1
    ensures ExtendLast(ExtendLast(r, t0), [c]) == ExtendLast(r, t0 + [c])
  {
    var m := |r| - 1;
    var r1 := ExtendLast(r, t0);
    assert r1[..m] == r[..m] && r1[m] == r[m] + t0;
    assert (r[m] + t0) + [c] == r[m] + (t0 + [c]);
  }

  /** One more character that is not the separator extends the last piece. */
  lemma SplitSnoc(u: string, c: char, sep: char)
    requires c != sep
    ensures Split(u + [c], sep) == ExtendLast(Split(u, sep), [c])
  {
    assert (u + [c])[..|u|] == u;
  }

  /** Appending separator-free text only extends the last piece. */
  lemma {:induction false} SplitAppendFree(s: string, t: string, sep: char)
    requires Free(t, sep)
    ensures Split(s + t, sep) == ExtendLast(Split(s, sep), t)
  {
    if |t| > 0 {
      var t0 := t[..|t| - 1];
      var c := t[|t| - 1];
      assert t == t0 + [c];
      assert Free(t0, sep);
      SplitAppendFree(s, t0, sep);
      SplitSnoc(s + t0, c, sep);
      ExtendLastTwice(Split(s, sep), t0, c);
      assert (s + t0) + [c] == s + t;
    } else {
      var r := Split(s, sep);
      assert s + t == s;
      assert r[|r| - 1] + t == r[|r| - 1];
      assert r[..|r| - 1] + [r[|r| - 1]] == r;
    }
  }

  // ---------------------------------------------------------------------
  // Number.parseInt(s, 10)
  // ---------------------------------------------------------------------

  /** The white-space and line-terminator characters parseInt skips before
      the number: tab, vertical tab, form feed, the BOM, the line terminators
      and the Unicode space separators (category Zs). */
  predicate IsJsSpace(c: char) {
    c == ' ' || c == '\t' || c == '\n' || c == '\r' || c == '\U{B}' || c == '\U{C}'
    || c == '\U{A0}' || c == '\U{FEFF}' || c == '\U{2028}' || c == '\U{2029}'
    || c == '\U{1680}' || '\U{2000}' <= c <= '\U{200A}' || c == '\U{202F}' || c == '\U{205F}'
    || c == '\U{3000}'
  }

  predicate IsDigit(c: char) {
    '0' <= c <= '9'
  }

  function TrimStart(s: string): (t: string)
    ensures |t| <= |s| && t == s[|s| - |t|..]
    ensures |t| > 0 ==> !IsJsSpace(t[0])
  {
    if |s| > 0 && IsJsSpace(s[0]) then TrimStart(s[1..]) else s
  }

  /** Length of the longest run of decimal digits at the start of `s`. */
  function DigitRun(s: string): (k: nat)
    ensures k <= |s|
    ensures forall i :: 0 <= i < k ==> IsDigit(s[i])
    ensures k < |s| ==> !IsDigit(s[k])
  {
    if |s| > 0 && IsDigit(s[0]) then 1 + DigitRun(s[1..]) else 0
  }

  /** The value of a string of decimal digits, most significant first. */
  function DigitsValue(d: string): nat
    requires forall i :: 0 <= i < |d| ==> IsDigit(d[i])
  {
    if |d| == 0 then 0
    else
      var last := d[|d| - 1];
      assert IsDigit(last);
      DigitsValue(d[..|d| - 1]) * 10 + (last as int - '0' as int)
  }

  /** Number.parseInt(s, 10): skip leading white space, read an optional
      sign and then as many decimal digits as follow; NaN (None) when there
      are none. Trailing text is ignored. */
  function ParseInt(s: string): (n: Option<int>)
    ensures |s| == 0 ==> n.None?
    ensures |s| > 0 && IsDigit(s[0]) ==> n.Some? && n.value >= 0
  {
    var t := TrimStart(s);
    var signed := |t| > 0 && (t[0] == '-' || t[0] == '+');
    var u := if signed then t[1..] else t;
    var k := DigitRun(u);
    if k == 0 then None
    else
      var v: int := DigitsValue(u[..k]);
      if signed && t[0] == '-' then Some(-v) else Some(v)
  }

  /** A text that starts with '-' parses as NaN or as a number <= 0. */
  lemma ParseIntOfMinus(s: string)
    requires |s| > 0 && s[0] == '-'
    ensures ParseInt(s).Some? ==> ParseInt(s).value <= 0
  {
    assert TrimStart(s) == s;
  }

  // ---------------------------------------------------------------------
  // The decimal text of a non-negative integer (template literals, join)
  // ---------------------------------------------------------------------

  function DigitChar(d: nat): (c: char)
    requires d < 10
    ensures IsDigit(c) && c as int - '0' as int == d
  {
    ('0' as int + d) as char
  }

  /** `${n}` for a non-negative integer n. */
  function NumberText(n: nat): (s: string)
    ensures |s| >= 1
    ensures forall i :: 0 <= i < |s| ==> IsDigit(s[i])
  {
    if n < 10 then [DigitChar(n)] else NumberText(n / 10) + [DigitChar(n % 10)]
  }

  /** The digits written for n read back as n. */
  lemma {:induction false} DigitsValueOfNumberText(n: nat)
    ensures DigitsValue(NumberText(n)) == n
  {
    var s := NumberText(n);
    if n >= 10 {
      DigitsValueOfNumberText(n / 10);
      assert s[..|s| - 1] == NumberText(n / 10);
    }
  }

  /** Number.parseInt reads back exactly the number whose text was written,
      whatever non-digit text follows it. */
  lemma ParseIntNumberText(n: nat, rest: string)
    requires |rest| == 0 || !IsDigit(rest[0])
    ensures ParseInt(NumberText(n) + rest) == Some(n)
  {
    var d := NumberText(n);
    var s := d + rest;
    assert s[0] == d[0];
    ParseIntOfDigits(s);
    DigitRunThen(d, rest);
    assert s[..|d|] == d;
    DigitsValueOfNumberText(n);
  }

  /** parseInt of text that starts with a digit is the value of its
      leading run of digits. */
  lemma ParseIntOfDigits(s: string)
    requires |s| > 0 && IsDigit(s[0])
    ensures ParseInt(s) == Some(DigitsValue(s[..DigitRun(s)]))
  {
    assert !IsJsSpace(s[0]);
    assert TrimStart(s) == s;
  }

  lemma {:induction false} DigitRunThen(d: string, rest: string)
    requires forall i :: 0 <= i < |d| ==> IsDigit(d[i])
    requires |rest| == 0 || !IsDigit(rest[0])
    ensures DigitRun(d + rest) == |d|
  {
    if |d| > 0 {
      assert (d + rest)[1..] == d[1..] + rest;
      DigitRunThen(d[1..], rest);
    } else {
      assert d + rest == rest;
    }
  }
}
