/**
 * The state of an RwFile handle as a value, and each of its operations as
 * a transition on that value. The class in module RwFiles is proved to
 * follow these transitions; the lemmas here state what they guarantee.
 *
 * The file is abstracted to whether it exists and its characters, and
 * the input stream to an offset into them. A stream field of the Java class is either null or
 * holds a stream; close() closes the streams but never sets the fields
 * back to null, so a closed stream still counts as present.
 */
module Handle {
  import opened Errors
  import opened Modes
  import opened Text
  import opened LineReader
  import opened DirCreation

  datatype HandleState = HandleState(
    fileExists: bool,    // the file is on disk
    hasInput: bool,      // inputStream (and its reader) is not null
    hasOutput: bool,     // outputStream (and its writer) is not null
    appending: bool,     // the output stream was opened in append mode
    inputClosed: bool,   // close() has closed the input stream
    outputClosed: bool,  // close() has closed the output stream
    contents: string,    // the characters of the file
    pos: nat,            // offset of the input stream into the file
    skipLF: bool)        // the reader's last line ended with a '\r' at the very end of the text
  {
    ghost predicate Valid()
    {
      (!fileExists ==> contents == [] && !hasInput && !hasOutput) &&
      (!hasInput ==> !inputClosed && pos == 0 && !skipLF) &&
      (!hasOutput ==> !outputClosed && !appending)
    }

    /** What the input stream has not read yet; nothing once a truncation left it past the end. */
    function Remaining(): string
    {
      if pos <= |contents| then contents[pos..] else []
    }

    /**
     * What the next readLine reads: the unread text, less a '\n' that
     * completes a "\r\n" whose '\r' ended the line read last.
     */
    function Unread(): string
    {
      var rem := Remaining();
      if skipLF && |rem| > 0 && rem[0] == '\n' then rem[1..] else rem
    }

    /** Whether the reader owes a '\n' once it has read up to the end of the text. */
    function SkipLFAtEnd(): bool
    {
      var rem := Remaining();
      if rem == [] then skipLF else rem[|rem| - 1] == '\r'
    }
  }

  /**
   * The handle right after `file = new File(path)`, on a file that holds
   * the given text or is missing (None): no stream yet.
   */
  function Unopened(file: Option<string>): (st: HandleState)
    ensures st.Valid() && !st.hasInput && !st.hasOutput
    ensures st.fileExists == file.Some? && st.contents == if file.Some? then file.value else []
  {
    HandleState(file.Some?, false, false, false, false, false, if file.Some? then file.value else [], 0, false)
  }

  /** A void operation's new state and outcome. */
  datatype Step = Step(state: HandleState, status: Status)

  /** A value-returning operation's new state and result. */
  datatype Reply<T> = Reply(state: HandleState, result: Result<T>)

  // ---------------------------------------------------------------------
  // Mode gating

  /** requireInputStreamNonNull: fails exactly when there is no input stream. */
  function RequireInput(st: HandleState): (s: Status)
    ensures s.Failed? <==> !st.hasInput
    ensures s.Failed? ==> s.error == UnsupportedMode
  {
    if !st.hasInput then Failed(UnsupportedMode) else Done
  }

  /** requireOutputStreamNonNull: fails exactly when there is no output stream. */
  function RequireOutput(st: HandleState): (s: Status)
    ensures s.Failed? <==> !st.hasOutput
    ensures s.Failed? ==> s.error == UnsupportedMode
  {
    if !st.hasOutput then Failed(UnsupportedMode) else Done
  }

  /** Why a read fails: no input stream, or one that close() has closed. */
  function InputError(st: HandleState): (e: Option<RwError>)
    ensures e == Some(UnsupportedMode) <==> !st.hasInput
    ensures e.None? <==> st.hasInput && !st.inputClosed
    ensures st.hasInput && st.inputClosed ==> e == Some(StreamClosed)
  {
    if !st.hasInput then Some(UnsupportedMode)
    else if st.inputClosed then Some(StreamClosed)
    else None
  }

  /** Why a write fails: no output stream, or one that close() has closed. */
  function OutputError(st: HandleState): (e: Option<RwError>)
    ensures e == Some(UnsupportedMode) <==> !st.hasOutput
    ensures e.None? <==> st.hasOutput && !st.outputClosed
    ensures st.hasOutput && st.outputClosed ==> e == Some(StreamClosed)
  {
    if !st.hasOutput then Some(UnsupportedMode)
    else if st.outputClosed then Some(StreamClosed)
    else None
  }

  // ---------------------------------------------------------------------
  // Reading

  /**
   * readOne: the next unit of the input stream as an int, -1 at the end
   * of the stream. Fails, changing nothing, exactly when reading is not
   * possible. It reads the stream itself, not through the reader, so it
   * leaves the reader's pending line feed alone.
   */
  function ReadOneSpec(st: HandleState): (r: Reply<int>)
    ensures r.result.Err? <==> InputError(st).Some?
    ensures r.result.Err? ==> r.result.error == InputError(st).value && r.state == st
    ensures r.result.Ok? ==> (r.result.value == -1 <==> st.Remaining() == [])
    ensures r.result.Ok? && st.Remaining() != [] ==>
      r.result.value == st.Remaining()[0] as int && r.state.Remaining() == st.Remaining()[1..]
    ensures r.result.Ok? ==> r.state == st.(pos := if st.Remaining() == [] then st.pos else st.pos + 1)
  {
    match InputError(st)
    case Some(e) => Reply(st, Err(e))
    case None =>
      if st.Remaining() == [] then Reply(st, Ok(-1))
      else Reply(st.(pos := st.pos + 1), Ok(st.Remaining()[0] as int))
  }

  /** readOneChar: readOne cast to char, so the end of the stream reads as U+FFFF. */
  function ReadOneCharSpec(st: HandleState): (r: Reply<char>)
    ensures r.result.Err? <==> InputError(st).Some?
    ensures r.result.Err? ==> r.result.error == InputError(st).value
    ensures r.result.Ok? ==> r.result.value == if st.Remaining() == [] then '\U{FFFF}' else st.Remaining()[0]
    ensures r.state == ReadOneSpec(st).state
  {
    var one := ReadOneSpec(st);
    match one.result
    case Err(e) => Reply(one.state, Err(e))
    case Ok(v) => Reply(one.state, Ok(if v == -1 then '\U{FFFF}' else st.Remaining()[0]))
  }

  /**
   * BufferedReader.readLine on the input stream (no mode check of its
   * own). A line that ends with '\r' leaves the reader owing a '\n':
   * when the next character is one, the next call skips it. A "\r\n"
   * already in the text is taken whole, so the debt only lasts when the
   * '\r' was the last character, until text is written after it.
   */
  function ReaderReadLine(st: HandleState): (r: Reply<Option<string>>)
    requires st.hasInput
    ensures r.result.Err? <==> st.inputClosed
    ensures r.result.Err? ==> r.result.error == StreamClosed && r.state == st
    ensures r.result.Ok? ==> r.state == st.(pos := r.state.pos, skipLF := r.state.skipLF)
    ensures r.result.Ok? ==> (r.result.value.None? <==> st.Unread() == [])
  {
    if st.inputClosed then Reply(st, Err(StreamClosed))
    else
      var skip := Skip(st);
      var u := st.Unread();
      match NextLine(u)
      case None =>
        var st' := st.(pos := st.pos + skip, skipLF := st.skipLF && st.Remaining() == []);
        NoLine(st);
        Reply(st', Ok(None))
      case Some(l) =>
        var st' := st.(pos := st.pos + skip + l.used, skipLF := l.used == |u| && u[|l.text|..l.used] == "\r");
        AfterLine(st, l);
        Reply(st', Ok(Some(l.text)))
  }

  /**
   * A readLine that succeeds moves the stream forward, by at least one
   * character when it returns a line and to the end when it returns None,
   * and keeps what the reader will owe once at the end of the text.
   */
  lemma ReaderProgress(st: HandleState)
    requires st.hasInput && !st.inputClosed
    ensures var r := ReaderReadLine(st);
      && r.state.pos + |r.state.Remaining()| == st.pos + |st.Remaining()|
      && (r.result.value.None? ==> r.state.Remaining() == [])
      && (r.result.value.Some? ==> |r.state.Remaining()| < |st.Remaining()|)
      && r.state.SkipLFAtEnd() == st.SkipLFAtEnd()
      && (r.state.Remaining() != [] ==> !r.state.skipLF)
  {
    match NextLine(st.Unread())
    case None =>
    case Some(l) => AfterLine(st, l);
  }

  /**
   * The line readLine returns is the first of the lines left to read, and
   * the ones after it are what is left to read afterwards.
   */
  lemma ReaderLines(st: HandleState)
    requires st.hasInput && !st.inputClosed
    ensures var r := ReaderReadLine(st);
      Lines(st.Unread()) == (if r.result.value.Some? then [r.result.value.value] else []) + Lines(r.state.Unread())
  {
    var u := st.Unread();
    match NextLine(u)
    case None =>
      var st' := st.(pos := st.pos + Skip(st), skipLF := st.skipLF && st.Remaining() == []);
      assert ReaderReadLine(st) == Reply(st', Ok(None));
      assert Lines(st.Unread()) == [] && Lines(st'.Unread()) == [] by {
        NoLine(st);
      }
    case Some(l) =>
      var st' := st.(pos := st.pos + Skip(st) + l.used, skipLF := l.used == |u| && u[|l.text|..l.used] == "\r");
      assert ReaderReadLine(st) == Reply(st', Ok(Some(l.text)));
      assert Lines(u) == [l.text] + Lines(st'.Unread()) by {
        AfterLine(st, l);
      }
  }

  /** How many characters the reader skips before its next line: the '\n' it owes, if that comes next. */
  function Skip(st: HandleState): (k: nat)
    ensures k <= |st.Remaining()| && k <= 1 && st.Unread() == st.Remaining()[k..]
  {
    var rem := st.Remaining();
    if st.skipLF && |rem| > 0 && rem[0] == '\n' then 1 else 0
  }

  /** With nothing left to read but a '\n' owed, the reader skips it and stays at the end. */
  lemma NoLine(st: HandleState)
    requires st.Unread() == []
    ensures var st' := st.(pos := st.pos + Skip(st), skipLF := st.skipLF && st.Remaining() == []);
      st'.Remaining() == [] && st'.Unread() == [] && st'.SkipLFAtEnd() == st.SkipLFAtEnd() &&
      Lines(st.Unread()) == [] && Lines(st'.Unread()) == []
  {
  }

  /** The state after a line is read: what is left unread, and what is owed at the end, follow from the line. */
  lemma AfterLine(st: HandleState, l: Line)
    requires NextLine(st.Unread()) == Some(l)
    ensures var u := st.Unread();
      var st' := st.(pos := st.pos + Skip(st) + l.used, skipLF := l.used == |u| && u[|l.text|..l.used] == "\r");
      st'.Remaining() == u[l.used..] && st'.Unread() == u[l.used..] &&
      st'.SkipLFAtEnd() == st.SkipLFAtEnd() &&
      (st'.Remaining() != [] ==> !st'.skipLF) &&
      Lines(u) == [l.text] + Lines(st'.Unread())
  {
    var u := st.Unread();
    var st' := st.(pos := st.pos + Skip(st) + l.used, skipLF := l.used == |u| && u[|l.text|..l.used] == "\r");
    assert st'.Remaining() == u[l.used..] && st'.Unread() == u[l.used..] by {
      AfterLineRest(st, l);
    }
    assert st'.SkipLFAtEnd() == st.SkipLFAtEnd() && (st'.Remaining() != [] ==> !st'.skipLF) by {
      NextLineEndsWithCR(u);
      AfterLineOwed(st, l);
    }
  }

  /** What is left to read after a line is what follows it. */
  lemma AfterLineRest(st: HandleState, l: Line)
    requires 0 < l.used <= |st.Unread()| && |l.text| <= l.used
    ensures var u := st.Unread();
      var st' := st.(pos := st.pos + Skip(st) + l.used, skipLF := l.used == |u| && u[|l.text|..l.used] == "\r");
      st'.Remaining() == u[l.used..] && st'.Unread() == u[l.used..]
  {
    var u := st.Unread();
    var k := Skip(st);
    var p := st.pos + k + l.used;
    assert st.pos <= |st.contents| && p <= |st.contents|;
    assert u[l.used..] == st.contents[p..];
  }

  /** After a line the reader owes a '\n' only at the end of the text, and exactly when it owed one there before. */
  lemma AfterLineOwed(st: HandleState, l: Line)
    requires 0 < l.used <= |st.Unread()| && |l.text| <= l.used
    requires l.used == |st.Unread()| ==>
      (st.Unread()[l.used - 1] == '\r' <==> st.Unread()[|l.text|..l.used] == "\r")
    ensures var u := st.Unread();
      var st' := st.(pos := st.pos + Skip(st) + l.used, skipLF := l.used == |u| && u[|l.text|..l.used] == "\r");
      st'.SkipLFAtEnd() == st.SkipLFAtEnd() && (st'.Remaining() != [] ==> !st'.skipLF)
  {
    var u := st.Unread();
    var rem := st.Remaining();
    var st' := st.(pos := st.pos + Skip(st) + l.used, skipLF := l.used == |u| && u[|l.text|..l.used] == "\r");
    AfterLineRest(st, l);
    assert rem[|rem| - 1] == u[|u| - 1];
    if l.used == |u| {
      assert st'.Remaining() == [];
    } else {
      assert st'.Remaining()[|st'.Remaining()| - 1] == u[|u| - 1];
    }
  }

  /**
   * readLine: the next line without its terminator, None (Java's null) at
   * the end of the stream; the line returned is the first of the lines
   * left, and the others stay unread.
   */
  function ReadLineSpec(st: HandleState): (r: Reply<Option<string>>)
    ensures r.result.Err? <==> InputError(st).Some?
    ensures r.result.Err? ==> r.result.error == InputError(st).value && r.state == st
    ensures r.result.Ok? ==> r.state == st.(pos := r.state.pos, skipLF := r.state.skipLF)
    ensures r.result.Ok? ==> (r.result.value.None? <==> st.Unread() == [])
    ensures r.result.Ok? ==>
      Lines(st.Unread()) == (if r.result.value.Some? then [r.result.value.value] else []) + Lines(r.state.Unread())
  {
    match RequireInput(st)
    case Failed(e) => Reply(st, Err(e))
    case Done =>
      if st.inputClosed then ReaderReadLine(st)
      else ReaderLines(st); ReaderReadLine(st)
  }

  /**
   * readContent: every remaining line, joined with no separator, which is
   * the remaining text with its line feeds and carriage returns deleted;
   * the stream is left at its end.
   */
  function ReadContentSpec(st: HandleState): (r: Reply<string>)
    ensures r.result.Err? <==> InputError(st).Some?
    ensures r.result.Err? ==> r.result.error == InputError(st).value && r.state == st
    ensures r.result.Ok? ==> r.result.value == StripTerminators(st.Remaining())
    ensures r.result.Ok? ==> r.state == st.(pos := st.pos + |st.Remaining()|, skipLF := st.SkipLFAtEnd())
  {
    match InputError(st)
    case Some(e) => Reply(st, Err(e))
    case None =>
      ConcatLinesStripsTerminators(st.Unread());
      StripSkipped(st);
      Reply(st.(pos := st.pos + |st.Remaining()|, skipLF := st.SkipLFAtEnd()), Ok(Concat(Lines(st.Unread()))))
  }

  /** The '\n' a reader skips would have been stripped anyway. */
  lemma StripSkipped(st: HandleState)
    ensures StripTerminators(st.Unread()) == StripTerminators(st.Remaining())
  {
    var rem := st.Remaining();
    if st.skipLF && |rem| > 0 && rem[0] == '\n' {
      assert rem == "\n" + rem[1..];
      StripAppend("\n", rem[1..]);
    }
  }

  // ---------------------------------------------------------------------
  // Writing

  /**
   * write: appends exactly text to the file (flushed at once); fails,
   * changing nothing, exactly when writing is not possible.
   */
  function WriteSpec(st: HandleState, text: string): (r: Step)
    ensures r.status.Failed? <==> OutputError(st).Some?
    ensures r.status.Failed? ==> r.status.error == OutputError(st).value && r.state == st
    ensures r.status.Done? ==> r.state == st.(contents := st.contents + text)
  {
    match OutputError(st)
    case Some(e) => Step(st, Failed(e))
    case None => Step(st.(contents := st.contents + text), Done)
  }

  /** writeLine: appends text and one line feed, with the same gating as write. */
  function WriteLineSpec(st: HandleState, text: string): (r: Step)
    ensures r.status.Failed? <==> OutputError(st).Some?
    ensures r.status.Failed? ==> r.status.error == OutputError(st).value && r.state == st
    ensures r.status.Done? ==> r.state == st.(contents := st.contents + text + "\n")
  {
    WriteSpec(st, text + "\n")
  }

  // ---------------------------------------------------------------------
  // Closing

  /**
   * close: closes the streams that exist and leaves the fields set, so
   * both modes still count as enabled: every later read or write fails,
   * with StreamClosed where the stream existed.
   */
  function CloseSpec(st: HandleState): (r: HandleState)
    requires st.Valid()
    ensures r.Valid()
    ensures r.hasInput == st.hasInput && r.hasOutput == st.hasOutput
    ensures r.contents == st.contents && r.pos == st.pos && r.appending == st.appending
    ensures r.fileExists == st.fileExists && r.skipLF == st.skipLF
    ensures InputError(r) == Some(if st.hasInput then StreamClosed else UnsupportedMode)
    ensures OutputError(r) == Some(if st.hasOutput then StreamClosed else UnsupportedMode)
  {
    st.(inputClosed := st.inputClosed || st.hasInput, outputClosed := st.outputClosed || st.hasOutput)
  }

  // ---------------------------------------------------------------------
  // Enabling modes

  /**
   * enableRead: nothing when an input stream exists; otherwise make sure
   * the file exists, with the routine chosen, and open a stream at its
   * start (a file just created is empty).
   */
  function EnableReadSpec(st: HandleState, routine: Routine, abs: string, sep: char, fs: FsAnswers): (r: Step)
    requires st.Valid()
    ensures r.state.Valid()
    ensures st.hasInput ==> r == Step(st, Done)
    ensures r.status == (if st.hasInput then Done else Prepare(routine, st.fileExists, abs, sep, fs).status)
    ensures r.status.Failed? ==> r.state == st
    ensures r.status.Done? && !st.hasInput ==> r.state == st.(fileExists := true, hasInput := true, pos := 0)
    ensures r.status.Done? ==> r.state.hasInput && r.state.Remaining() == (if st.hasInput then st.Remaining() else st.contents)
  {
    if st.hasInput then Step(st, Done)
    else
      var c := Prepare(routine, st.fileExists, abs, sep, fs);
      if c.status.Failed? then Step(st, c.status)
      else Step(st.(fileExists := true, hasInput := true, pos := 0), Done)
  }

  /**
   * enableWrite: nothing when an output stream exists; otherwise open one
   * that appends to or truncates the file, creating it if missing.
   */
  function EnableWriteSpec(st: HandleState, appendable: bool): (r: HandleState)
    requires st.Valid()
    ensures r.Valid() && r.hasOutput && r.fileExists
    ensures st.hasOutput ==> r == st
    ensures !st.hasOutput ==>
      r == st.(fileExists := true, hasOutput := true, appending := appendable, contents := if appendable then st.contents else [])
  {
    if st.hasOutput then st
    else st.(fileExists := true, hasOutput := true, appending := appendable, contents := if appendable then st.contents else [])
  }

  /** One mode of enableModes: READ enables reading, anything else writing. */
  function EnableOne(st: HandleState, m: RwMode, routine: Routine, abs: string, sep: char, fs: FsAnswers): (r: Step)
    requires st.Valid()
    ensures r.state.Valid()
    ensures r.status.Failed? ==> m == Read && !st.hasInput && r.state == st
    ensures r.status.Done? ==> r.state.fileExists && (if m == Read then r.state.hasInput else r.state.hasOutput)
    ensures m != Read ==> r.status == Done && (!st.hasOutput ==> r.state.appending == (m == Append))
  {
    if m == Read then EnableReadSpec(st, routine, abs, sep, fs)
    else Step(EnableWriteSpec(st, m == Append), Done)
  }

  /** enableModes: each mode in turn, stopping at the first failure. */
  function EnableModesSpec(st: HandleState, modes: seq<RwMode>, routine: Routine, abs: string, sep: char, fs: FsAnswers): (r: Step)
    requires st.Valid()
    ensures r.state.Valid()
    decreases |modes|
  {
    if |modes| == 0 then Step(st, Done)
    else
      var s := EnableOne(st, modes[0], routine, abs, sep, fs);
      if s.status.Failed? then s else EnableModesSpec(s.state, modes[1..], routine, abs, sep, fs)
  }

  // ---------------------------------------------------------------------
  // Construction

  /**
   * The constructor: an 'r' in the mode string opens the input stream
   * first; then 'w' together with 'a' is refused, 'w' alone truncates and
   * 'a' alone appends. Each letter is tested by String.contains.
   */
  function ConstructSpec(routine: Routine, mode: string, abs: string, sep: char, fs: FsAnswers, file: Option<string>): (r: Step)
    ensures r.state.Valid()
  {
    var st := Unopened(file);
    var afterRead := if Contains(mode, Read.Value()) then EnableReadSpec(st, routine, abs, sep, fs) else Step(st, Done);
    if afterRead.status.Failed? then afterRead
    else if Contains(mode, Write.Value()) && Contains(mode, Append.Value()) then
      Step(afterRead.state, Failed(UnsupportedMode))
    else if Contains(mode, Write.Value()) then Step(EnableWriteSpec(afterRead.state, false), Done)
    else if Contains(mode, Append.Value()) then Step(EnableWriteSpec(afterRead.state, true), Done)
    else afterRead
  }
}
