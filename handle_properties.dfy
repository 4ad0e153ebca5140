/**
 * What the handle's transitions guarantee: the streams the constructor
 * opens for a mode string, the conflict between 'w' and 'a', read-back
 * of what was written, the finality of close, and the behaviour of
 * enableModes.
 */
module HandleProperties {
  import opened Errors
  import opened Modes
  import opened Text
  import opened LineReader
  import opened DirCreation
  import opened Handle

  /** Testing a mode string for a mode's value is testing it for the mode's letter. */
  lemma LetterTests(mode: string)
    ensures Contains(mode, Read.Value()) == ('r' in mode)
    ensures Contains(mode, Write.Value()) == ('w' in mode)
    ensures Contains(mode, Append.Value()) == ('a' in mode)
  {
    ContainsLetter(mode, 'r');
    ContainsLetter(mode, 'w');
    ContainsLetter(mode, 'a');
  }

  /**
   * After a construction that succeeds, an input stream exists iff the
   * mode holds 'r', an output stream iff it holds 'w' or 'a' (never both),
   * appending iff 'a'; the file exists if it did or a stream was opened,
   * and 'w' empties it. Construction succeeds iff the file can be prepared
   * when 'r' is asked for and 'w' and 'a' are not both present.
   */
  lemma ConstructedStreams(routine: Routine, mode: string, abs: string, sep: char, fs: FsAnswers, file: Option<string>)
    ensures var r, created := ConstructSpec(routine, mode, abs, sep, fs, file), Prepare(routine, file.Some?, abs, sep, fs).status;
      r.status == Done <==> ('r' in mode ==> created == Done) && !('w' in mode && 'a' in mode)
    ensures var r := ConstructSpec(routine, mode, abs, sep, fs, file);
      r.status == Done ==>
        r.state.hasInput == ('r' in mode) &&
        r.state.hasOutput == ('w' in mode || 'a' in mode) &&
        r.state.appending == ('a' in mode) &&
        r.state.fileExists == (file.Some? || 'r' in mode || 'w' in mode || 'a' in mode) &&
        !r.state.inputClosed && !r.state.outputClosed && r.state.pos == 0 &&
        r.state.contents == if 'w' in mode || file.None? then [] else file.value
  {
    LetterTests(mode);
  }

  /**
   * How construction fails: a file that cannot be prepared for 'r' stops
   * it before any stream is opened; 'w' with 'a' is refused after the
   * input stream for 'r' has been opened, and that stream is left open.
   */
  lemma ConstructFailures(routine: Routine, mode: string, abs: string, sep: char, fs: FsAnswers, file: Option<string>)
    ensures var r, created := ConstructSpec(routine, mode, abs, sep, fs, file), Prepare(routine, file.Some?, abs, sep, fs).status;
      'r' in mode && created.Failed? ==> r == Step(Unopened(file), created)
    ensures var r, created := ConstructSpec(routine, mode, abs, sep, fs, file), Prepare(routine, file.Some?, abs, sep, fs).status;
      ('r' in mode ==> created == Done) && 'w' in mode && 'a' in mode ==>
        r.status == Failed(UnsupportedMode) && !r.state.hasOutput &&
        r.state.hasInput == ('r' in mode) && !r.state.inputClosed
  {
    LetterTests(mode);
  }

  /** A letter other than 'r', 'w' and 'a' anywhere in the mode string changes nothing. */
  lemma ConstructIgnoresOtherLetters(routine: Routine, m1: string, c: char, m2: string, abs: string, sep: char, fs: FsAnswers, file: Option<string>)
    requires c !in "rwa"
    ensures ConstructSpec(routine, m1 + [c] + m2, abs, sep, fs, file) == ConstructSpec(routine, m1 + m2, abs, sep, fs, file)
  {
    var with, without := m1 + [c] + m2, m1 + m2;
    LetterTests(with);
    LetterTests(without);
    forall x | x in "rwa" ensures (x in with) == (x in without) {
      assert x in with <==> x in m1 || x == c || x in m2;
    }
    assert "rwa"[0] == 'r' && "rwa"[1] == 'w' && "rwa"[2] == 'a';
  }

  /**
   * As written, a mode with 'r' on a missing file whose directory exists
   * fails with a creation error and leaves the handle without a stream.
   */
  lemma ReadRefusedInExistingDirectory(mode: string, abs: string, sep: char, fs: FsAnswers)
    requires 'r' in mode && DirectoryString(abs, sep).Some?
    requires MkdirsContract(fs) && fs.dirExists
    ensures ConstructSpec(AsWritten, mode, abs, sep, fs, None) == Step(Unopened(None), Failed(CreateError))
  {
    LetterTests(mode);
    ExistingDirectoryBlocksCreation(abs, sep, fs);
  }

  /**
   * With the intended creation routine, a mode with 'r' on a missing file
   * whose directory exists opens an input stream on the new, empty file.
   */
  lemma ReadOnMissingFileInExistingDirectory(mode: string, abs: string, sep: char, fs: FsAnswers)
    requires 'r' in mode && DirectoryString(abs, sep).Some?
    requires MkdirsContract(fs) && fs.dirExists && fs.createNewFile
    ensures var r := ConstructSpec(Intended, mode, abs, sep, fs, None);
      r.state.hasInput && r.state.fileExists && r.state.contents == [] && r.state.pos == 0 && !r.state.inputClosed
  {
    LetterTests(mode);
    ExistingDirectoryAllowsCreation(abs, sep, fs);
  }

  // ---------------------------------------------------------------------
  // Reading back what was written

  /**
   * A line written at the end of the file is the next line read, except
   * for an empty line right after a line that ended the text with '\r':
   * its line feed completes that "\r\n", the reader skips it and finds
   * no line.
   */
  lemma WriteLineThenReadLine(st: HandleState, text: string)
    requires st.Valid() && InputError(st).None? && OutputError(st).None?
    requires st.pos == |st.contents|
    requires Plain(text)
    ensures var w := WriteLineSpec(st, text);
      w.status == Done &&
      ReadLineSpec(w.state).result == (if st.skipLF && text == "" then Ok(None) else Ok(Some(text))) &&
      ReadLineSpec(w.state).state.Remaining() == []
  {
    var w := WriteLineSpec(st, text);
    assert w.state.Remaining() == text + "\n" + "";
    ReaderProgress(w.state);
    if !(st.skipLF && text == "") {
      assert w.state.Unread() == text + "\n" + "" by {
        if text != "" {
          assert !IsTerminator(text[0]);
        }
      }
      NextLineOfTerminated(text, "");
      AfterLine(w.state, Line(text, |text| + 1));
    }
  }

  /** Text written at the end of the file is read back whole, less its terminators. */
  lemma WriteThenReadContent(st: HandleState, text: string)
    requires st.Valid() && InputError(st).None? && OutputError(st).None?
    requires st.pos == |st.contents|
    ensures var w := WriteSpec(st, text);
      w.status == Done && ReadContentSpec(w.state).result == Ok(StripTerminators(text))
  {
    var w := WriteSpec(st, text);
    assert w.state.Remaining() == text;
  }

  /**
   * A file opened with "w" exists once opened, so enabling reading later
   * creates nothing and reads back what was written.
   */
  lemma WrittenFileIsReadable(routine: Routine, abs: string, sep: char, fs: FsAnswers, file: Option<string>, text: string)
    ensures var c := ConstructSpec(routine, "w", abs, sep, fs, file);
      var w := WriteSpec(c.state, text);
      var e := EnableReadSpec(w.state, routine, abs, sep, fs);
      c.status == Done && w.status == Done && e.status == Done &&
      ReadContentSpec(e.state).result == Ok(StripTerminators(text))
  {
    LetterTests("w");
    var c := ConstructSpec(routine, "w", abs, sep, fs, file);
    assert c.state.contents == [];
  }

  /** Lines of a file written with writeLine come back as they were, in order. */
  lemma ReadContentOfWrittenLines(st: HandleState, ls: seq<string>)
    requires st.Valid() && InputError(st).None? && st.Remaining() == JoinTrailing(ls, '\n')
    requires forall k :: 0 <= k < |ls| ==> Plain(ls[k])
    ensures ReadContentSpec(st).result == Ok(Concat(ls))
  {
    LinesOfTerminated(ls);
    ConcatLinesStripsTerminators(st.Remaining());
  }

  // ---------------------------------------------------------------------
  // Close

  /**
   * close is final: closing again changes nothing, and enabling a mode
   * that was enabled before the close does not reopen it.
   */
  lemma CloseIsFinal(st: HandleState, routine: Routine, abs: string, sep: char, fs: FsAnswers, appendable: bool)
    requires st.Valid()
    ensures CloseSpec(CloseSpec(st)) == CloseSpec(st)
    ensures st.hasInput ==> EnableReadSpec(CloseSpec(st), routine, abs, sep, fs) == Step(CloseSpec(st), Done)
    ensures st.hasOutput ==> EnableWriteSpec(CloseSpec(st), appendable) == CloseSpec(st)
  {
  }

  // ---------------------------------------------------------------------
  // enableModes

  /** Every mode listed is READ. */
  predicate AllRead(modes: seq<RwMode>)
  {
    forall k :: 0 <= k < |modes| ==> modes[k] == Read
  }

  /** The first mode of the list that enables writing, if any. */
  function FirstWriteMode(modes: seq<RwMode>): (m: Option<RwMode>)
    ensures m.Some? ==> m.value != Read && m.value in modes
    ensures m.Some? ==> exists i :: 0 <= i < |modes| && modes[i] == m.value && AllRead(modes[..i])
    ensures m.None? <==> AllRead(modes)
  {
    if |modes| == 0 then None
    else if modes[0] != Read then Some(modes[0])
    else
      var m := FirstWriteMode(modes[1..]);
      if m.Some? then FirstAfterRead(modes, m.value); m else m
  }

  /** A mode that comes first after only READs still does with one more READ in front. */
  lemma FirstAfterRead(modes: seq<RwMode>, m: RwMode)
    requires |modes| > 0 && modes[0] == Read
    requires exists i :: 0 <= i < |modes[1..]| && modes[1..][i] == m && AllRead(modes[1..][..i])
    ensures exists i :: 0 <= i < |modes| && modes[i] == m && AllRead(modes[..i])
  {
    var i :| 0 <= i < |modes[1..]| && modes[1..][i] == m && AllRead(modes[1..][..i]);
    assert modes[..i + 1] == [modes[0]] + modes[1..][..i];
    assert modes[i + 1] == m;
  }

  /**
   * enableModes never raises the 'w'/'a' conflict: it fails only when a
   * READ has to create the file and cannot, and then with that failure.
   */
  lemma {:induction false} EnableModesFailsOnlyOnCreation(st: HandleState, modes: seq<RwMode>, routine: Routine, abs: string, sep: char, fs: FsAnswers)
    requires st.Valid()
    ensures var r := EnableModesSpec(st, modes, routine, abs, sep, fs);
      r.status.Failed? ==> Read in modes && !st.hasInput && r.status == Prepare(routine, st.fileExists, abs, sep, fs).status
    ensures var r := EnableModesSpec(st, modes, routine, abs, sep, fs);
      r.status.Failed? ==> r.state == st
    ensures EnableModesSpec(st, modes, routine, abs, sep, fs).status != Failed(UnsupportedMode)
    decreases |modes|
  {
    if |modes| > 0 {
      var s := EnableOne(st, modes[0], routine, abs, sep, fs);
      if s.status.Done? {
        EnableModesFailsOnlyOnCreation(s.state, modes[1..], routine, abs, sep, fs);
        assert forall m :: m in modes[1..] ==> m in modes;
        assert s.state.hasInput == (st.hasInput || modes[0] == Read);
      }
    }
  }

  /**
   * After enableModes succeeds, the file exists if any mode was listed,
   * every mode listed is enabled, the first write-type mode decides append
   * versus truncate when no output stream existed (an existing one is kept
   * as it was), and nothing else changes.
   */
  lemma {:induction false} EnableModesEnables(st: HandleState, modes: seq<RwMode>, routine: Routine, abs: string, sep: char, fs: FsAnswers)
    requires st.Valid()
    ensures var r := EnableModesSpec(st, modes, routine, abs, sep, fs);
      var w := FirstWriteMode(modes);
      r.status == Done ==> r.state == st.(
        fileExists := st.fileExists || |modes| > 0,
        hasInput := st.hasInput || Read in modes,
        hasOutput := st.hasOutput || w.Some?,
        appending := if !st.hasOutput && w.Some? then w.value == Append else st.appending,
        contents := if !st.hasOutput && w == Some(Write) then [] else st.contents)
    decreases |modes|
  {
    if |modes| > 0 {
      var s := EnableOne(st, modes[0], routine, abs, sep, fs);
      if s.status.Done? {
        EnableModesEnables(s.state, modes[1..], routine, abs, sep, fs);
        assert Read in modes <==> modes[0] == Read || Read in modes[1..];
        if modes[0] == Read {
          assert s.state == st.(fileExists := true, hasInput := true);
        } else if st.hasOutput {
          assert s.state == st;
        } else {
          assert FirstWriteMode(modes) == Some(modes[0]);
        }
      }
    }
  }

  /** With every mode of the list already enabled, enableModes changes nothing. */
  lemma {:induction false} EnableModesOnEnabled(st: HandleState, modes: seq<RwMode>, routine: Routine, abs: string, sep: char, fs: FsAnswers)
    requires st.Valid()
    requires Read in modes ==> st.hasInput
    requires FirstWriteMode(modes).Some? ==> st.hasOutput
    ensures EnableModesSpec(st, modes, routine, abs, sep, fs) == Step(st, Done)
    decreases |modes|
  {
    if |modes| > 0 {
      assert forall m :: m in modes[1..] ==> m in modes;
      EnableModesOnEnabled(st, modes[1..], routine, abs, sep, fs);
    }
  }

  /** enableModes is idempotent: a second call with the same modes is a no-op. */
  lemma EnableModesIdempotent(st: HandleState, modes: seq<RwMode>, routine: Routine, abs: string, sep: char, fs: FsAnswers)
    requires st.Valid()
    ensures var r := EnableModesSpec(st, modes, routine, abs, sep, fs);
      r.status == Done ==> EnableModesSpec(r.state, modes, routine, abs, sep, fs) == r
  {
    var r := EnableModesSpec(st, modes, routine, abs, sep, fs);
    if r.status == Done {
      EnableModesEnables(st, modes, routine, abs, sep, fs);
      EnableModesOnEnabled(r.state, modes, routine, abs, sep, fs);
    }
  }
}
