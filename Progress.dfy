/** `logthat`, the progress formatter every message of the downloader goes through. */
module Progress {
  import opened Str

  /** The line `logthat(content, total, index)` prints (without its newline):
      `"<index+1>/<total> <content>"` when both are given, the bare `content` otherwise. */
  function LogLine(content: string, total: Option<int>, index: Option<int>): (r: string)
    ensures total.None? || index.None? ==> r == content
    ensures |r| >= |content| && r[|r| - |content|..] == content
  {
    if total.Some? && index.Some? then
      IntToString(index.value + 1) + "/" + IntToString(total.value) + " " + content
    else content
  }

  /** Reads a progress line back: the digits before the first '/', the digits up to the
      next ' ', and the rest as the message. */
  function ParseLogLine(s: string): Option<(nat, nat, string)>
  {
    match IndexOf(s, '/')
    case None => None
    case Some(slash) =>
      var pos, rest := s[..slash], s[slash + 1..];
      match IndexOf(rest, ' ')
      case None => None
      case Some(space) =>
        var tot, msg := rest[..space], rest[space + 1..];
        if pos != [] && AllDigits(pos) && tot != [] && AllDigits(tot)
        then Some((ParseNat(pos), ParseNat(tot), msg))
        else None
  }

  /** Finding `c` in `a + [c] + b` when `a` has no `c` stops at the end of `a`. */
  lemma {:induction false} IndexOfAfter(a: string, c: char, b: string)
    requires c !in a
    ensures IndexOf(a + [c] + b, c) == Some(|a|)
  {
    if a != [] {
      assert (a + [c] + b)[1..] == a[1..] + [c] + b;
      IndexOfAfter(a[1..], c, b);
    }
  }

  lemma DigitsHaveNo(s: string, c: char)
    requires AllDigits(s) && !('0' <= c <= '9')
    ensures c !in s
  {
  }

  /** A line made of two nonempty digit strings, '/', ' ' and a message parses back into
      those numbers and that message. */
  lemma ParseFields(p: string, t: string, content: string)
    requires p != [] && AllDigits(p) && t != [] && AllDigits(t)
    ensures ParseLogLine(p + "/" + t + " " + content) == Some((ParseNat(p), ParseNat(t), content))
  {
    var s := p + "/" + t + " " + content;
    DigitsHaveNo(p, '/');
    DigitsHaveNo(t, ' ');
    assert s == p + ['/'] + (t + " " + content);
    IndexOfAfter(p, '/', t + " " + content);
    assert s[..|p|] == p;
    var rest := s[|p| + 1..];
    assert rest == t + [' '] + content;
    IndexOfAfter(t, ' ', content);
    assert rest[..|t|] == t;
    assert rest[|t| + 1..] == content;
  }

  /** A positioned progress line is unambiguous: position, total and message can be read
      back from it, whatever the message holds. */
  lemma ProgressRoundTrip(content: string, total: int, index: int)
    requires index + 1 >= 0 && total >= 0
    ensures ParseLogLine(LogLine(content, Some(total), Some(index))) == Some((index + 1, total, content))
  {
    var p, t := NatToString(index + 1), NatToString(total);
    assert IntToString(index + 1) == p && IntToString(total) == t;
    assert LogLine(content, Some(total), Some(index)) == p + "/" + t + " " + content;
    ParseFields(p, t, content);
    NatStringRoundTrip(index + 1);
    NatStringRoundTrip(total);
  }
}
