/** Python's `str` operations that the scripts rely on: `in` (substring test),
    `split(sep)`, `strip()`, `readlines()` and the `%d` conversion. */
module Str {

  datatype Option<+T> = None | Some(value: T)

  /** `needle` occurs in `hay` starting at position `i`. */
  predicate OccursAt(hay: string, needle: string, i: int)
  {
    0 <= i && i + |needle| <= |hay| && hay[i..i + |needle|] == needle
  }

  /** Python's `needle in hay` for two strings. */
  predicate Contains(hay: string, needle: string)
  {
    exists i | 0 <= i <= |hay| :: OccursAt(hay, needle, i)
  }

  /** An occurrence in a part is an occurrence in the whole. */
  lemma ContainsInConcat(a: string, b: string, c: string, needle: string)
    requires Contains(b, needle)
    ensures Contains(a + b + c, needle)
  {
    var i :| 0 <= i <= |b| && OccursAt(b, needle, i);
    assert (a + b + c)[|a| + i..|a| + i + |needle|] == b[i..i + |needle|];
    assert OccursAt(a + b + c, needle, |a| + i);
  }

  lemma ContainsPrefix(a: string, b: string, needle: string)
    requires Contains(a, needle)
    ensures Contains(a + b, needle)
  {
    var i :| 0 <= i <= |a| && OccursAt(a, needle, i);
    assert (a + b)[i..i + |needle|] == a[i..i + |needle|];
    assert OccursAt(a + b, needle, i);
  }

  lemma ContainsSuffix(a: string, b: string, needle: string)
    requires Contains(b, needle)
    ensures Contains(a + b, needle)
  {
    var i :| 0 <= i <= |b| && OccursAt(b, needle, i);
    assert (a + b)[|a| + i..|a| + i + |needle|] == b[i..i + |needle|];
    assert OccursAt(a + b, needle, |a| + i);
  }

  lemma ContainsSelf(s: string)
    ensures Contains(s, s)
  {
    assert OccursAt(s, s, 0);
  }

  /** The pieces of Python's `s.split([sep])`: every occurrence of `sep` cuts, so the
      result has one more piece than `s` has `sep`s, and empty pieces are kept. */
  function Split(s: string, sep: char): (r: seq<string>)
    ensures |r| >= 1
    ensures forall k :: 0 <= k < |r| ==> sep !in r[k]
  {
    if s == [] then [[]]
    else if s[0] == sep then [[]] + Split(s[1..], sep)
    else
      var rest := Split(s[1..], sep);
      [[s[0]] + rest[0]] + rest[1..]
  }

  /** `sep.join(pieces)`. */
  function JoinWith(pieces: seq<string>, sep: char): string
    requires |pieces| >= 1
  {
    if |pieces| == 1 then pieces[0] else pieces[0] + [sep] + JoinWith(pieces[1..], sep)
  }

  /** Splitting loses nothing: joining the pieces back gives the original string. */
  lemma {:induction false} SplitJoin(s: string, sep: char)
    ensures JoinWith(Split(s, sep), sep) == s
  {
    if s == [] {
    } else if s[0] == sep {
      SplitJoin(s[1..], sep);
      assert Split(s, sep)[1..] == Split(s[1..], sep);
    } else {
      var rest := Split(s[1..], sep);
      SplitJoin(s[1..], sep);
      var r := Split(s, sep);
      assert r[1..] == rest[1..];
      if |rest| == 1 {
        assert JoinWith(r, sep) == [s[0]] + rest[0];
      } else {
        assert JoinWith(rest, sep) == rest[0] + [sep] + JoinWith(rest[1..], sep);
        assert JoinWith(r, sep) == [s[0]] + rest[0] + [sep] + JoinWith(rest[1..], sep);
      }
    }
  }

  /** A string without the separator is not cut. */
  lemma {:induction false} SplitNoSep(s: string, sep: char)
    requires sep !in s
    ensures Split(s, sep) == [s]
  {
    if s != [] {
      SplitNoSep(s[1..], sep);
      assert [s[0]] + s[1..] == s;
    }
  }

  /** A separator-free prefix followed by the separator becomes the first piece. */
  lemma {:induction false} SplitAfterFirst(a: string, sep: char, b: string)
    requires sep !in a
    ensures Split(a + [sep] + b, sep) == [a] + Split(b, sep)
  {
    if a == [] {
      assert a + [sep] + b == [sep] + b;
      assert ([sep] + b)[1..] == b;
    } else {
      var s := a + [sep] + b;
      assert s[0] == a[0];
      assert s[1..] == a[1..] + [sep] + b;
      SplitAfterFirst(a[1..], sep, b);
      assert [a[0]] + a[1..] == a;
    }
  }

  /** Joining separator-free pieces and splitting again gives the pieces back. */
  lemma {:induction false} JoinSplit(pieces: seq<string>, sep: char)
    requires |pieces| >= 1 && forall k :: 0 <= k < |pieces| ==> sep !in pieces[k]
    ensures Split(JoinWith(pieces, sep), sep) == pieces
  {
    if |pieces| == 1 {
      SplitNoSep(pieces[0], sep);
    } else {
      var rest := pieces[1..];
      assert forall k :: 0 <= k < |rest| ==> rest[k] == pieces[k + 1];
      JoinSplit(rest, sep);
      SplitAfterFirst(pieces[0], sep, JoinWith(rest, sep));
      assert [pieces[0]] + rest == pieces;
    }
  }

  /** No element occurs twice. */
  predicate NoRepeats(s: seq<string>)
  {
    forall i, j :: 0 <= i < j < |s| ==> s[i] != s[j]
  }

  lemma NoRepeatsTail(s: seq<string>)
    requires s != [] && NoRepeats(s)
    ensures NoRepeats(s[1..]) && s[0] !in s[1..]
  {
    forall i, j | 0 <= i < j < |s[1..]| ensures s[1..][i] != s[1..][j] {
      assert s[1..][i] == s[i + 1] && s[1..][j] == s[j + 1];
    }
    forall j | 0 <= j < |s[1..]| ensures s[1..][j] != s[0] {
      assert s[1..][j] == s[j + 1];
    }
  }

  /** Python's `str.isspace()` for one character (the characters `str.strip()` removes). */
  predicate IsSpace(c: char)
  {
    c == ' ' || ('\t' <= c <= '\r') || ('\U{1C}' <= c <= '\U{1F}')
    || c == '\U{85}' || c == '\U{A0}' || c == '\U{1680}' || ('\U{2000}' <= c <= '\U{200A}')
    || c == '\U{2028}' || c == '\U{2029}' || c == '\U{202F}' || c == '\U{205F}' || c == '\U{3000}'
  }

  /** The number of whitespace characters `s` starts with. */
  function LeadSpace(s: string): (n: nat)
    ensures n <= |s|
    ensures forall k :: 0 <= k < n ==> IsSpace(s[k])
    ensures n == |s| || !IsSpace(s[n])
  {
    if s != [] && IsSpace(s[0]) then 1 + LeadSpace(s[1..]) else 0
  }

  /** Where the run of whitespace that `s` ends with begins. */
  function TrailSpace(s: string): (n: nat)
    ensures n <= |s|
    ensures forall k :: n <= k < |s| ==> IsSpace(s[k])
    ensures n == 0 || !IsSpace(s[n - 1])
  {
    if s != [] && IsSpace(s[|s| - 1]) then TrailSpace(s[..|s| - 1]) else |s|
  }

  /** `s.lstrip()`: the leading whitespace removed, and nothing else. */
  function StripLeft(s: string): (r: string)
    ensures |r| <= |s| && r == s[|s| - |r|..]
    ensures forall k :: 0 <= k < |s| - |r| ==> IsSpace(s[k])
    ensures r == [] || !IsSpace(r[0])
  {
    s[LeadSpace(s)..]
  }

  /** `s.rstrip()`: the trailing whitespace removed, and nothing else. */
  function StripRight(s: string): (r: string)
    ensures |r| <= |s| && r == s[..|r|]
    ensures forall k :: |r| <= k < |s| ==> IsSpace(s[k])
    ensures r == [] || !IsSpace(r[|r| - 1])
  {
    s[..TrailSpace(s)]
  }

  /** Neither end of `s` is whitespace. */
  predicate Stripped(s: string)
  {
    s == [] || (!IsSpace(s[0]) && !IsSpace(s[|s| - 1]))
  }

  /** Python's `s.strip()`: whitespace removed from both ends, and nothing else. The
      result is the piece of `s` that starts after the leading whitespace, what follows
      it is whitespace, and neither of its ends is. */
  function Strip(s: string): (r: string)
    ensures var lead := |s| - |StripLeft(s)|;
      && lead + |r| <= |s| && s[lead..lead + |r|] == r
      && (forall k :: 0 <= k < lead ==> IsSpace(s[k]))
      && (forall k :: lead + |r| <= k < |s| ==> IsSpace(s[k]))
    ensures Stripped(r)
  {
    var l := StripLeft(s);
    var r := StripRight(l);
    StripShape(s, l, r);
    r
  }

  /** A suffix `l` of `s` that does not start with whitespace, and a prefix `r` of `l`
      followed by whitespace only and not ending with whitespace: `r` sits in `s` at
      `|s| - |l|`, only whitespace follows it there, and it is stripped. */
  lemma {:induction false} StripShape(s: string, l: string, r: string)
    requires |l| <= |s| && l == s[|s| - |l|..] && (l == [] || !IsSpace(l[0]))
    requires |r| <= |l| && r == l[..|r|] && (r == [] || !IsSpace(r[|r| - 1]))
    requires forall k :: |r| <= k < |l| ==> IsSpace(l[k])
    ensures var lead := |s| - |l|;
      && lead + |r| <= |s| && s[lead..lead + |r|] == r
      && (forall k :: lead + |r| <= k < |s| ==> IsSpace(s[k]))
    ensures Stripped(r)
  {
    var lead := |s| - |l|;
    assert s[lead..lead + |r|] == l[..|r|];
    forall k | lead + |r| <= k < |s| ensures IsSpace(s[k]) {
      assert s[k] == l[k - lead];
    }
    if r != [] {
      assert r[0] == l[0];
    }
  }

  /** A string that is already stripped is kept by `strip()`. */
  lemma StripStripped(s: string)
    requires Stripped(s)
    ensures Strip(s) == s
  {
  }

  /** Every character of `strip()`'s result comes from its argument. */
  lemma StripFrom(s: string, c: char)
    requires c in Strip(s)
    ensures c in s
  {
    var r := Strip(s);
    var lead := |s| - |StripLeft(s)|;
    var i :| 0 <= i < |r| && r[i] == c;
    assert s[lead + i] == r[i];
  }

  /** `strip()` of an id padded with whitespace on either side is the id. */
  lemma {:induction false} StripPadded(pre: string, id: string, post: string)
    requires forall k :: 0 <= k < |pre| ==> IsSpace(pre[k])
    requires forall k :: 0 <= k < |post| ==> IsSpace(post[k])
    requires Stripped(id)
    ensures Strip(pre + id + post) == id
  {
    var s := pre + id + post;
    var r := Strip(s);
    var lead := |s| - |StripLeft(s)|;
    forall k | 0 <= k < |pre| ensures IsSpace(s[k]) {
      assert s[k] == pre[k];
    }
    forall k | |pre| + |id| <= k < |s| ensures IsSpace(s[k]) {
      assert s[k] == post[k - |pre| - |id|];
    }
    if id != [] {
      assert s[|pre|] == id[0];
      assert s[|pre| + |id| - 1] == id[|id| - 1];
      assert lead <= |pre|;
      assert StripLeft(s)[0] == s[lead];
      assert lead == |pre|;
      assert |r| >= |id|;
      assert r[|r| - 1] == s[lead + |r| - 1];
      assert |r| == |id|;
      assert s[|pre|..|pre| + |id|] == id;
    }
  }

  /** Length of the first line of `s`, its '\n' included (Python's `readlines` keeps it). */
  function LineEnd(s: string): (e: nat)
    requires s != []
    ensures 0 < e <= |s|
    ensures e == |s| || s[e - 1] == '\n'
    ensures forall j :: 0 <= j < e - 1 ==> s[j] != '\n'
  {
    if s[0] == '\n' || |s| == 1 then 1 else 1 + LineEnd(s[1..])
  }

  /** Python's `f.readlines()` on a file whose content is `s`: every piece but possibly
      the last ends with '\n', and the pieces put together are `s` (ReadLinesConcat). */
  function ReadLines(s: string): seq<string>
    decreases |s|
  {
    if s == [] then [] else
      var e := LineEnd(s);
      [s[..e]] + ReadLines(s[e..])
  }

  /** `"".join(pieces)`. */
  function Concat(pieces: seq<string>): string
  {
    if pieces == [] then [] else pieces[0] + Concat(pieces[1..])
  }

  /** Put together, the lines that `readlines()` gives are the file. */
  lemma {:induction false} ReadLinesConcat(s: string)
    ensures Concat(ReadLines(s)) == s
    decreases |s|
  {
    if s != [] {
      var e := LineEnd(s);
      var lines, rest := ReadLines(s), ReadLines(s[e..]);
      assert lines == [s[..e]] + rest;
      assert lines[0] == s[..e] && lines[1..] == rest;
      ReadLinesConcat(s[e..]);
      assert Concat(lines) == s[..e] + s[e..];
      SliceJoin(s, e);
    }
  }

  lemma SliceJoin(s: string, e: nat)
    requires e <= |s|
    ensures s[..e] + s[e..] == s
  {
  }

  /** Line `k` of `readlines()` is nonempty, holds a '\n' only as its last character, and
      ends with one unless it is the last line. */
  lemma {:induction false} ReadLinesLine(s: string, k: nat)
    requires k < |ReadLines(s)|
    ensures var line := ReadLines(s)[k];
      && line != []
      && (forall j :: 0 <= j < |line| - 1 ==> line[j] != '\n')
      && (k < |ReadLines(s)| - 1 ==> line[|line| - 1] == '\n')
    decreases |s|
  {
    var e := LineEnd(s);
    var rest := ReadLines(s[e..]);
    assert |ReadLines(s)| == 1 + |rest|;
    if k == 0 {
      assert ReadLines(s)[0] == s[..e];
      assert k < |rest| ==> s[e..] != [];
    } else {
      ReadLinesLine(s[e..], k - 1);
      assert ReadLines(s)[k] == rest[k - 1];
    }
  }

  /** A needle without '\n' that occurs in the file occurs in one of its lines:
      a line ends at a '\n', which the needle cannot straddle. */
  lemma {:induction false} ContainsInSomeLine(s: string, needle: string)
    requires s != [] && Contains(s, needle) && '\n' !in needle
    ensures exists k :: 0 <= k < |ReadLines(s)| && Contains(ReadLines(s)[k], needle)
    decreases |s|
  {
    var i :| 0 <= i <= |s| && OccursAt(s, needle, i);
    var e := LineEnd(s);
    var lines := ReadLines(s);
    assert lines[0] == s[..e];
    forall j | i <= j < i + |needle| ensures s[j] != '\n' {
      assert s[j] == needle[j - i];
    }
    if i + |needle| <= e {
      assert s[..e][i..i + |needle|] == s[i..i + |needle|];
      assert OccursAt(lines[0], needle, i);
    } else if i < e {
      assert false;
    } else {
      var rest := s[e..];
      OccursAfter(s, needle, i, e);
      ContainsInSomeLine(rest, needle);
      var k :| 0 <= k < |ReadLines(rest)| && Contains(ReadLines(rest)[k], needle);
      assert lines[k + 1] == ReadLines(rest)[k];
    }
  }

  /** An occurrence at or after `e` is an occurrence in `s[e..]`. */
  lemma OccursAfter(s: string, needle: string, i: int, e: nat)
    requires OccursAt(s, needle, i) && e <= i
    ensures OccursAt(s[e..], needle, i - e) && Contains(s[e..], needle)
    ensures i + |needle| > e ==> s[e..] != []
  {
    assert s[e..][i - e..i - e + |needle|] == s[i..i + |needle|];
    assert OccursAt(s[e..], needle, i - e);
  }

  /** Every line read from the file is a piece of it. */
  lemma {:induction false} LineContainedInFile(s: string, k: nat, needle: string)
    requires k < |ReadLines(s)| && Contains(ReadLines(s)[k], needle)
    ensures Contains(s, needle)
    decreases |s|
  {
    var e := LineEnd(s);
    var line, rest := s[..e], s[e..];
    SliceJoin(s, e);
    if k == 0 {
      assert ReadLines(s)[0] == line;
      ContainsInConcat([], line, rest, needle);
      assert [] + line == line;
    } else {
      assert ReadLines(s)[k] == ReadLines(rest)[k - 1];
      LineContainedInFile(rest, k - 1, needle);
      ContainsInConcat(line, rest, [], needle);
      assert line + rest + [] == line + rest;
    }
  }

  function DigitChar(d: nat): (c: char)
    requires d < 10
    ensures '0' <= c <= '9'
  {
    "0123456789"[d]
  }

  function DigitValue(c: char): nat
    requires '0' <= c <= '9'
  {
    c as nat - '0' as nat
  }

  predicate AllDigits(s: string)
  {
    forall k :: 0 <= k < |s| ==> '0' <= s[k] <= '9'
  }

  /** Decimal digits of `n`, most significant first, no leading zero: Python's `'%d' % n`. */
  function NatToString(n: nat): (r: string)
    ensures |r| >= 1 && AllDigits(r)
  {
    if n < 10 then [DigitChar(n)] else NatToString(n / 10) + [DigitChar(n % 10)]
  }

  /** Python's `'%d' % n` for any integer (IntToStringDigits says what it spells). */
  function IntToString(n: int): string
  {
    if n < 0 then "-" + NatToString(-n) else NatToString(n)
  }

  /** `'%d' % n` starts with a '-' exactly for a negative number, and the digits after it
      read back as the magnitude of the number. */
  lemma IntToStringDigits(n: int)
    ensures var r := IntToString(n);
      && |r| >= 1 && (r[0] == '-' <==> n < 0)
      && var digits := if n < 0 then r[1..] else r;
         AllDigits(digits) && ParseNat(digits) == if n < 0 then -n else n
  {
    var m: nat := if n < 0 then -n else n;
    NatStringRoundTrip(m);
    var d := NatToString(m);
    assert d[0] in d;
    if n < 0 {
      assert IntToString(n)[1..] == d;
    }
  }

  /** The number a string of decimal digits denotes (Python's `int(s)` on digits). */
  function ParseNat(s: string): nat
    requires AllDigits(s)
  {
    if s == [] then 0 else 10 * ParseNat(s[..|s| - 1]) + DigitValue(s[|s| - 1])
  }

  lemma DigitRoundTrip(d: nat)
    requires d < 10
    ensures DigitValue(DigitChar(d)) == d
  {
  }

  /** Printing a number in decimal and reading it back gives the number. */
  lemma {:induction false} NatStringRoundTrip(n: nat)
    ensures ParseNat(NatToString(n)) == n
  {
    var r := NatToString(n);
    if n < 10 {
      DigitRoundTrip(n);
      assert r[..0] == [];
    } else {
      NatStringRoundTrip(n / 10);
      DigitRoundTrip(n % 10);
      assert r[..|r| - 1] == NatToString(n / 10);
    }
  }

  /** Position of the first `c` in `s`, if any (Python's `s.find(c)`, and `list.index`
      when `c` is known to occur). */
  function IndexOf<T(==)>(s: seq<T>, c: T): (r: Option<nat>)
    ensures r.None? ==> c !in s
    ensures r.Some? ==> r.value < |s| && s[r.value] == c && c !in s[..r.value]
  {
    if s == [] then None
    else if s[0] == c then Some(0)
    else match IndexOf(s[1..], c)
      case None => None
      case Some(k) => Some(k + 1)
  }
}
