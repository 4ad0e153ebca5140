/**
 * RwMode: the three-letter mode alphabet. Each constant carries a final
 * one-letter string, read back by getValue().
 */
module Modes {
  import opened Errors

  datatype RwMode = Read | Write | Append {

    /** getValue(): the string handed to the enum constructor. */
    function Value(): (s: string)
      ensures |s| == 1
      ensures ModeOfLetter(s[0]) == Some(this)
    {
      match this
      case Read => "r"
      case Write => "w"
      case Append => "a"
    }
  }

  /** The mode whose value is the one-letter string [c], if any. */
  function ModeOfLetter(c: char): (m: Option<RwMode>)
    ensures m.Some? <==> c in "rwa"
  {
    if c == 'r' then Some(Read)
    else if c == 'w' then Some(Write)
    else if c == 'a' then Some(Append)
    else None
  }

  /**
   * The values are pairwise distinct one-letter strings, so testing a mode
   * string for one of them says nothing about the others.
   */
  lemma ValuesDistinct(m: RwMode, n: RwMode)
    ensures m.Value() == n.Value() <==> m == n
    ensures |m.Value()| == 1
  {
    if m.Value() == n.Value() {
      assert ModeOfLetter(m.Value()[0]) == ModeOfLetter(n.Value()[0]);
    }
  }
}
