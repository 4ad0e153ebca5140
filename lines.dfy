/**
 * The line discipline of java.io.BufferedReader.readLine, over the
 * characters a reader has not consumed yet. A line ends at a line feed,
 * a carriage return, a carriage return followed by a line feed, or the
 * end of the stream; the terminator is consumed but not returned.
 */
module LineReader {
  import opened Errors
  import opened Text

  predicate IsTerminator(c: char)
  {
    c == '\n' || c == '\r'
  }

  /** s holds no line terminator. */
  predicate Plain(s: string)
  {
    forall i :: 0 <= i < |s| ==> !IsTerminator(s[i])
  }

  /** The terminators readLine accepts after a line. */
  predicate IsLineEnd(t: string)
  {
    t == "\n" || t == "\r" || t == "\r\n"
  }

  /** Number of characters before the first terminator of s. */
  function LineLength(s: string): (k: nat)
    ensures k <= |s|
    ensures forall i :: 0 <= i < k ==> !IsTerminator(s[i])
    ensures k < |s| ==> IsTerminator(s[k])
  {
    if |s| == 0 || IsTerminator(s[0]) then 0 else 1 + LineLength(s[1..])
  }

  /** A line as readLine returns it, and how many characters the call consumed. */
  datatype Line = Line(text: string, used: nat)

  /** One readLine over s: None (Java's null) exactly at the end of the stream. */
  function NextLine(s: string): (r: Option<Line>)
    ensures r.None? <==> |s| == 0
    ensures r.Some? ==> 0 < r.value.used <= |s|
    ensures r.Some? ==> |r.value.text| <= r.value.used && r.value.text == s[..|r.value.text|]
    ensures r.Some? ==> Plain(r.value.text)
    ensures r.Some? ==> r.value.used == |r.value.text| == |s| || IsLineEnd(s[|r.value.text|..r.value.used])
    ensures r.Some? && s[|r.value.text|..r.value.used] == "\r" ==> r.value.used == |s| || s[r.value.used] != '\n'
  {
    if |s| == 0 then None
    else
      var k := LineLength(s);
      var used :=
        if k == |s| then k
        else if s[k] == '\r' && k + 1 < |s| && s[k + 1] == '\n' then k + 2
        else k + 1;
      assert used > k ==> s[k..used] == if used == k + 2 then "\r\n" else [s[k]];
      Some(Line(s[..k], used))
  }

  /**
   * The lines successive readLine calls return until the end of the
   * stream: none exactly for an empty text, none holding a terminator,
   * and never more lines than characters.
   */
  function Lines(s: string): (r: seq<string>)
    ensures r == [] <==> |s| == 0
    ensures |r| <= |s|
    ensures forall k :: 0 <= k < |r| ==> Plain(r[k])
    decreases |s|
  {
    match NextLine(s)
    case None => []
    case Some(l) => [l.text] + Lines(s[l.used..])
  }

  /** Strings appended one after another, as a StringBuilder does. */
  function Concat(parts: seq<string>): string
  {
    if |parts| == 0 then "" else parts[0] + Concat(parts[1..])
  }

  lemma ConcatCons(p: string, parts: seq<string>)
    ensures Concat([p] + parts) == p + Concat(parts)
  {
    assert ([p] + parts)[1..] == parts;
  }

  lemma AppendLine(acc: string, line: string, rest: seq<string>, total: string)
    requires acc + Concat([line] + rest) == total
    ensures (acc + line) + Concat(rest) == total
  {
    ConcatCons(line, rest);
  }

  /** s with every line feed and carriage return removed. */
  function StripTerminators(s: string): string
  {
    if |s| == 0 then ""
    else (if IsTerminator(s[0]) then "" else [s[0]]) + StripTerminators(s[1..])
  }

  lemma {:induction false} StripAppend(a: string, b: string)
    ensures StripTerminators(a + b) == StripTerminators(a) + StripTerminators(b)
  {
    if |a| == 0 {
      assert a + b == b;
    } else {
      assert (a + b)[0] == a[0] && (a + b)[1..] == a[1..] + b;
      StripAppend(a[1..], b);
    }
  }

  lemma {:induction false} StripPlain(s: string)
    requires Plain(s)
    ensures StripTerminators(s) == s
  {
    if |s| > 0 {
      StripPlain(s[1..]);
    }
  }

  /** A plain line and its terminator, stripped, leave just the line. */
  lemma StripLine(text: string, t: string, rest: string)
    requires Plain(text) && (t == "" || IsLineEnd(t))
    ensures StripTerminators(text + t + rest) == text + StripTerminators(rest)
  {
    var x := text + t;
    assert StripTerminators(x + rest) == StripTerminators(x) + StripTerminators(rest) by {
      StripAppend(x, rest);
    }
    assert StripTerminators(x) == text by {
      StripAppend(text, t);
      StripPlain(text);
      if t != "" {
        StripLineEnd(t);
      }
    }
  }

  /** Cutting s after a plain prefix and a line end it strips. */
  lemma StripAt(s: string, k: nat, used: nat)
    requires k <= used <= |s| && Plain(s[..k])
    requires used == k || IsLineEnd(s[k..used])
    ensures StripTerminators(s) == s[..k] + StripTerminators(s[used..])
  {
    assert s == s[..k] + s[k..used] + s[used..];
    StripLine(s[..k], s[k..used], s[used..]);
  }

  /** Stripping s leaves its first line, then the stripped text after it. */
  lemma StripFirstLine(s: string)
    requires |s| > 0
    ensures var l := NextLine(s).value;
      StripTerminators(s) == l.text + StripTerminators(s[l.used..])
  {
    var l := NextLine(s).value;
    StripAt(s, |l.text|, l.used);
  }

  /** The lines of a non-empty s: its first line, then the lines after it. */
  lemma LinesUnfold(s: string)
    requires |s| > 0
    ensures var l := NextLine(s).value;
      Concat(Lines(s)) == l.text + Concat(Lines(s[l.used..]))
  {
    var l := NextLine(s).value;
    ConcatCons(l.text, Lines(s[l.used..]));
  }

  /**
   * Joining the lines of s with no separator, as readContent does, is the
   * same as deleting every terminator character from s.
   */
  lemma {:induction false} ConcatLinesStripsTerminators(s: string)
    ensures Concat(Lines(s)) == StripTerminators(s)
    decreases |s|
  {
    if |s| > 0 {
      var l := NextLine(s).value;
      LinesUnfold(s);
      StripFirstLine(s);
      ConcatLinesStripsTerminators(s[l.used..]);
    }
  }

  lemma StripLineEnd(t: string)
    requires IsLineEnd(t)
    ensures StripTerminators(t) == ""
  {
    assert t[1..] == [] || t[1..] == "\n";
  }

  /** A line that takes all of s ended with a lone carriage return exactly when s ends with one. */
  lemma NextLineEndsWithCR(s: string)
    requires |s| > 0
    ensures var l := NextLine(s).value;
      l.used == |s| ==> (s[|s| - 1] == '\r' <==> s[|l.text|..l.used] == "\r")
  {
    var l := NextLine(s).value;
    if l.used == |s| && l.used == |l.text| {
      assert !IsTerminator(l.text[|s| - 1]);
    }
  }

  /** The line at the front of a line followed by a line feed. */
  lemma NextLineOfTerminated(a: string, rest: string)
    requires Plain(a)
    ensures NextLine(a + "\n" + rest) == Some(Line(a, |a| + 1))
  {
    var s := a + "\n" + rest;
    var k := LineLength(s);
    assert s[|a|] == '\n';
    assert k == |a|;
    assert s[..|a|] == a;
  }

  /**
   * Lines written one per writeLine call (each followed by a line feed)
   * are read back one per readLine call, provided none holds a terminator.
   */
  lemma {:induction false} LinesOfTerminated(ls: seq<string>)
    requires forall k :: 0 <= k < |ls| ==> Plain(ls[k])
    ensures Lines(JoinTrailing(ls, '\n')) == ls
  {
    if |ls| > 0 {
      var rest := JoinTrailing(ls[1..], '\n');
      NextLineOfTerminated(ls[0], rest);
      assert (ls[0] + "\n" + rest)[|ls[0]| + 1..] == rest;
      LinesOfTerminated(ls[1..]);
    }
  }
}
