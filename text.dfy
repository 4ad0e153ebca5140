/**
 * The java.lang.String operations the handle relies on: contains, a
 * one-character replace, split on a literal one-character delimiter,
 * and the two ways of joining segments back together.
 */
module Text {

  /** needle occurs in hay at offset i. */
  ghost predicate OccursAt(hay: string, needle: string, i: int)
  {
    0 <= i && i + |needle| <= |hay| && hay[i..i + |needle|] == needle
  }

  /** String.contains: needle is a substring of hay. */
  function Contains(hay: string, needle: string): (b: bool)
    ensures b <==> exists i :: OccursAt(hay, needle, i)
    decreases |hay|
  {
    if |needle| > |hay| then
      assert forall i :: !OccursAt(hay, needle, i);
      false
    else if hay[..|needle|] == needle then
      assert OccursAt(hay, needle, 0);
      true
    else
      assert !OccursAt(hay, needle, 0) by {
        assert hay[0..|needle|] == hay[..|needle|];
      }
      OccursInTail(hay, needle);
      Contains(hay[1..], needle)
  }

  /** Without a match at offset 0, hay holds needle iff its tail does. */
  lemma OccursInTail(hay: string, needle: string)
    requires |hay| >= 1 && !OccursAt(hay, needle, 0)
    ensures (exists i :: OccursAt(hay, needle, i)) <==> (exists j :: OccursAt(hay[1..], needle, j))
  {
    OccursShift(hay, needle);
    if exists i :: OccursAt(hay, needle, i) {
      var i :| OccursAt(hay, needle, i);
      assert OccursAt(hay[1..], needle, i - 1);
    }
    if exists j :: OccursAt(hay[1..], needle, j) {
      var j :| OccursAt(hay[1..], needle, j);
      assert OccursAt(hay, needle, j + 1);
    }
  }

  /** An occurrence past offset 0 is an occurrence in the tail, one place earlier. */
  lemma OccursShift(hay: string, needle: string)
    requires |hay| >= 1
    ensures forall i :: 1 <= i ==> (OccursAt(hay, needle, i) <==> OccursAt(hay[1..], needle, i - 1))
  {
    forall i | 1 <= i
      ensures OccursAt(hay, needle, i) <==> OccursAt(hay[1..], needle, i - 1)
    {
      if i + |needle| <= |hay| {
        assert hay[1..][i - 1..i - 1 + |needle|] == hay[i..i + |needle|];
      }
    }
  }

  /** For a one-letter needle, containment is membership of the letter. */
  lemma ContainsLetter(hay: string, c: char)
    ensures Contains(hay, [c]) <==> c in hay
  {
    if c in hay {
      var i :| 0 <= i < |hay| && hay[i] == c;
      assert hay[i..i + 1] == [c];
      assert OccursAt(hay, [c], i);
    } else {
      forall i ensures !OccursAt(hay, [c], i) {
        if 0 <= i < |hay| {
          assert hay[i..i + 1][0] == hay[i];
        }
      }
    }
  }

  /** String.replace with one-character target and replacement. */
  function ReplaceChar(s: string, from: char, to: char): (r: string)
    ensures |r| == |s|
    ensures forall i :: 0 <= i < |s| ==> r[i] == if s[i] == from then to else s[i]
  {
    seq(|s|, i requires 0 <= i < |s| => if s[i] == from then to else s[i])
  }

  /** Segments joined with d between consecutive ones (the inverse of splitting). */
  function JoinWith(parts: seq<string>, d: char): string
  {
    if |parts| == 0 then ""
    else if |parts| == 1 then parts[0]
    else parts[0] + [d] + JoinWith(parts[1..], d)
  }

  /** Segments each followed by d, as a StringBuilder loop appends them. */
  function JoinTrailing(parts: seq<string>, d: char): string
  {
    if |parts| == 0 then "" else parts[0] + [d] + JoinTrailing(parts[1..], d)
  }

  /** Appending one more segment to a join appends d and the segment. */
  lemma {:induction false} JoinWithSnoc(parts: seq<string>, p: string, d: char)
    requires |parts| >= 1
    ensures JoinWith(parts + [p], d) == JoinWith(parts, d) + [d] + p
  {
    if |parts| > 1 {
      assert (parts + [p])[1..] == parts[1..] + [p];
      JoinWithSnoc(parts[1..], p, d);
    }
  }

  /** Appending one more segment to a trailing join appends it and d. */
  lemma {:induction false} JoinTrailingSnoc(parts: seq<string>, p: string, d: char)
    ensures JoinTrailing(parts + [p], d) == JoinTrailing(parts, d) + p + [d]
  {
    if |parts| > 0 {
      assert (parts + [p])[1..] == parts[1..] + [p];
      JoinTrailingSnoc(parts[1..], p, d);
    }
  }

  /** No segment holds c. */
  predicate Avoids(parts: seq<string>, c: char)
  {
    forall k :: 0 <= k < |parts| ==> c !in parts[k]
  }

  /**
   * Every segment between delimiters, empty ones included. Splitting then
   * joining with the same delimiter gives the input back.
   */
  function SplitOn(s: string, d: char): (parts: seq<string>)
    ensures |parts| >= 1
    ensures Avoids(parts, d)
    ensures JoinWith(parts, d) == s
    decreases |s|
  {
    if |s| == 0 then [""]
    else
      var rest := SplitOn(s[1..], d);
      if s[0] == d then
        assert JoinWith([""] + rest, d) == [d] + JoinWith(rest, d) by {
          assert ([""] + rest)[1..] == rest;
        }
        [""] + rest
      else
        var parts := [[s[0]] + rest[0]] + rest[1..];
        assert JoinWith(parts, d) == [s[0]] + JoinWith(rest, d) by {
          if |rest| > 1 {
            assert parts[1..] == rest[1..];
          }
        }
        parts
  }

  /** Removes the empty segments at the end, as String.split(regex) does. */
  function DropTrailingEmpty(parts: seq<string>): (r: seq<string>)
    ensures |r| <= |parts| && r == parts[..|r|]
    ensures forall k :: |r| <= k < |parts| ==> parts[k] == ""
    ensures |r| > 0 ==> r[|r| - 1] != ""
  {
    if |parts| > 0 && parts[|parts| - 1] == "" then DropTrailingEmpty(parts[..|parts| - 1]) else parts
  }

  /** Every character of s is d. */
  predicate AllChar(s: string, d: char)
  {
    forall i :: 0 <= i < |s| ==> s[i] == d
  }

  /** A run of k delimiters. */
  function Delims(k: nat, d: char): string
  {
    seq(k, _ => d)
  }

  /** The empty segments dropped at the end are a run of delimiters at the end of the join. */
  lemma {:induction false} DropTrailingJoin(parts: seq<string>, d: char)
    requires |parts| >= 1
    ensures var r := DropTrailingEmpty(parts);
      JoinWith(parts, d) == JoinWith(r, d) + Delims(if |r| == 0 then |parts| - 1 else |parts| - |r|, d)
    decreases |parts|
  {
    var m := |parts|;
    if parts[m - 1] == "" && m > 1 {
      var front := parts[..m - 1];
      var r := DropTrailingEmpty(front);
      var k := if |r| == 0 then m - 2 else m - 1 - |r|;
      DropTrailingJoin(front, d);
      JoinEmptyLast(parts, d);
      DelimsSnoc(JoinWith(r, d), k, d);
    } else {
      assert Delims(0, d) == "";
    }
  }

  /** An empty last segment adds one delimiter to the join. */
  lemma JoinEmptyLast(parts: seq<string>, d: char)
    requires |parts| >= 2 && parts[|parts| - 1] == ""
    ensures JoinWith(parts, d) == JoinWith(parts[..|parts| - 1], d) + [d]
  {
    assert parts == parts[..|parts| - 1] + [""];
    JoinWithSnoc(parts[..|parts| - 1], "", d);
  }

  /** One more delimiter at the end of a run. */
  lemma DelimsSnoc(j: string, k: nat, d: char)
    ensures j + Delims(k, d) + [d] == j + Delims(k + 1, d)
  {
    assert Delims(k, d) + [d] == Delims(k + 1, d);
  }

  /**
   * String.split with a one-character literal delimiter: an input without
   * the delimiter comes back whole (even the empty string); otherwise the
   * segments, none ending the list empty, which joined back give the input
   * less a run of delimiters at its end.
   */
  function JavaSplit(s: string, d: char): (r: seq<string>)
    ensures d !in s ==> r == [s]
    ensures Avoids(r, d)
    ensures d in s ==> |r| == 0 || r[|r| - 1] != ""
    ensures d in s ==> exists k: nat :: JoinWith(r, d) + Delims(k, d) == s
  {
    if d !in s then [s]
    else
      var parts := SplitOn(s, d);
      var r := DropTrailingEmpty(parts);
      DropTrailingJoin(parts, d);
      assert Avoids(r, d) by {
        assert forall k :: 0 <= k < |r| ==> r[k] == parts[k];
      }
      r
  }

  /** Every segment of the split is empty exactly when s is made of delimiters only. */
  lemma {:induction false} SplitOnAllEmpty(s: string, d: char)
    ensures (forall k :: 0 <= k < |SplitOn(s, d)| ==> SplitOn(s, d)[k] == "") <==> AllChar(s, d)
    decreases |s|
  {
    if |s| > 0 {
      var rest := SplitOn(s[1..], d);
      SplitOnAllEmpty(s[1..], d);
      if s[0] == d {
        assert SplitOn(s, d) == [""] + rest;
        assert AllChar(s, d) <==> AllChar(s[1..], d) by {
          assert forall i :: 1 <= i < |s| ==> s[i] == s[1..][i - 1];
        }
      } else {
        assert SplitOn(s, d)[0] != "";
      }
    }
  }

  /** String.split returns no segment at all exactly for a non-empty run of delimiters. */
  lemma SplitEmpty(s: string, d: char)
    ensures JavaSplit(s, d) == [] <==> |s| > 0 && AllChar(s, d)
  {
    if d in s {
      var parts := SplitOn(s, d);
      var r := DropTrailingEmpty(parts);
      SplitOnAllEmpty(s, d);
      assert JavaSplit(s, d) == r;
      if |r| > 0 {
        assert parts[|r| - 1] != "";
        assert !AllChar(s, d);
      } else {
        assert forall k :: 0 <= k < |parts| ==> parts[k] == "";
        assert AllChar(s, d) && |s| > 0;
      }
    } else if |s| > 0 {
      assert s[0] in s;
    }
  }
}
