/**
 * RwFile, the file handle: a class whose fields say which streams exist,
 * whether close() has closed them, how the output stream was opened, the
 * file's characters, the input stream's offset and whether its reader
 * owes a line feed. Every method is proved
 * to follow the matching transition of module Handle.
 *
 * java.io.File only supplies the path here; whether the file exists is a
 * field, and the platform's other answers (the absolute path,
 * File.separator, exists on the directory, mkdirs, createNewFile) are
 * inputs, as is the choice of createFileAndDirs routine.
 */
module RwFiles {
  import opened Errors
  import opened Modes
  import opened Text
  import opened LineReader
  import opened DirCreation
  import opened Handle

  class RwFile {
    const path: string
    const absolutePath: string
    const separator: char

    var fileExists: bool
    var hasInput: bool
    var hasOutput: bool
    var appending: bool
    var inputClosed: bool
    var outputClosed: bool
    var contents: string
    var pos: nat
    var skipLF: bool

    /** The handle's state as a value. */
    function State(): HandleState
      reads this
    {
      HandleState(fileExists, hasInput, hasOutput, appending, inputClosed, outputClosed, contents, pos, skipLF)
    }

    ghost predicate Valid()
      reads this
    {
      State().Valid()
    }

    /** `file = new File(path)`, before any stream is opened. */
    constructor (path: string, absolutePath: string, separator: char, file: Option<string>)
      ensures this.path == path && this.absolutePath == absolutePath && this.separator == separator
      ensures Valid() && State() == Unopened(file)
    {
      this.path := path;
      this.absolutePath := absolutePath;
      this.separator := separator;
      hasInput, hasOutput, appending := false, false, false;
      inputClosed, outputClosed := false, false;
      fileExists := file.Some?;
      contents, pos, skipLF := if file.Some? then file.value else [], 0, false;
    }

    /**
     * The Java constructor RwFile(path, mode). A failed construction is
     * reported in status together with the object as far as it got (in
     * Java the object is lost, with whatever stream it had opened).
     */
    static method Create(routine: Routine, path: string, mode: string, absolutePath: string, separator: char, fs: FsAnswers, file: Option<string>)
      returns (h: RwFile, status: Status)
      ensures fresh(h) && h.path == path && h.absolutePath == absolutePath && h.separator == separator
      ensures h.Valid() && Step(h.State(), status) == ConstructSpec(routine, mode, absolutePath, separator, fs, file)
    {
      h := new RwFile(path, absolutePath, separator, file);
      status := Done;
      if Contains(mode, RwMode.Read.Value()) {
        // createFileAndDirs and a new input stream: enableRead on a handle without one
        status := h.EnableRead(routine, fs);
        if status.Failed? {
          return;
        }
      }
      if Contains(mode, RwMode.Write.Value()) && Contains(mode, RwMode.Append.Value()) {
        status := Failed(UnsupportedMode);
      } else if Contains(mode, RwMode.Write.Value()) {
        h.EnableWrite(false);
      } else if Contains(mode, RwMode.Append.Value()) {
        h.EnableWrite(true);
      }
    }

    /** open(path, mode): a null argument is refused before anything is touched. */
    static method Open(routine: Routine, path: Option<string>, mode: Option<string>, absolutePath: string, separator: char, fs: FsAnswers, file: Option<string>)
      returns (h: RwFile?, status: Status)
      ensures path.None? || mode.None? ==> h == null && status == Failed(ConstructError)
      ensures path.Some? && mode.Some? ==>
        h != null && fresh(h) && h.path == path.value && h.Valid() &&
        Step(h.State(), status) == ConstructSpec(routine, mode.value, absolutePath, separator, fs, file)
    {
      if path.None? || mode.None? {
        return null, Failed(ConstructError);
      }
      h, status := Create(routine, path.value, mode.value, absolutePath, separator, fs, file);
    }

    /**
     * createFileAndDirs: as written, a false mkdirs always fails; as
     * intended, only when the directory is missing.
     */
    method CreateFileAndDirs(routine: Routine, fs: FsAnswers) returns (c: Creation)
      ensures c == Prepare(routine, fileExists, absolutePath, separator, fs)
    {
      if fileExists {
        return Creation(None, false, Done);
      }
      var paths := JavaSplit(ReplaceChar(absolutePath, separator, '/'), '/');
      if |paths| == 0 {
        return Creation(None, false, Failed(NegativeArraySize));
      }
      paths := paths[..|paths| - 1];
      var dirs := BuildDirString(paths, separator);
      var refused := if routine == AsWritten then !fs.mkdirs else !fs.dirExists && !fs.mkdirs;
      if refused {
        return Creation(Some(dirs), false, Failed(CreateError));
      }
      if !fs.createNewFile {
        return Creation(Some(dirs), true, Failed(CreateError));
      }
      return Creation(Some(dirs), true, Done);
    }

    /** requireInputStreamNonNull */
    method RequireInputStreamNonNull() returns (s: Status)
      ensures s == RequireInput(State())
    {
      s := if !hasInput then Failed(UnsupportedMode) else Done;
    }

    /** requireOutputStreamNonNull */
    method RequireOutputStreamNonNull() returns (s: Status)
      ensures s == RequireOutput(State())
    {
      s := if !hasOutput then Failed(UnsupportedMode) else Done;
    }

    /** readOne */
    method ReadOne() returns (r: Result<int>)
      requires Valid()
      modifies this`pos
      ensures Valid() && Reply(State(), r) == ReadOneSpec(old(State()))
    {
      var gate := RequireInputStreamNonNull();
      if gate.Failed? {
        return Err(gate.error);
      }
      if inputClosed {
        return Err(StreamClosed);
      }
      if pos >= |contents| {
        return Ok(-1);
      }
      r := Ok(contents[pos] as int);
      pos := pos + 1;
    }

    /** readOneChar: readOne cast to char. */
    method ReadOneChar() returns (r: Result<char>)
      requires Valid()
      modifies this`pos
      ensures Valid() && Reply(State(), r) == ReadOneCharSpec(old(State()))
    {
      var one := ReadOne();
      match one
      case Err(e) => r := Err(e);
      case Ok(v) =>
        r := Ok(if v == -1 then '\U{FFFF}' else contents[pos - 1]);
    }

    /**
     * reader.readLine(): the next line of the buffered reader, after the
     * line feed it owes if that comes first.
     */
    method ReaderReadLineStep() returns (r: Result<Option<string>>)
      requires Valid() && hasInput
      modifies this`pos, this`skipLF
      ensures Valid() && Reply(State(), r) == ReaderReadLine(old(State()))
    {
      if inputClosed {
        return Err(StreamClosed);
      }
      var rest := if pos <= |contents| then contents[pos..] else [];
      var skip := if skipLF && |rest| > 0 && rest[0] == '\n' then 1 else 0;
      var unread := rest[skip..];
      assert skip == Skip(State()) && unread == State().Unread();
      match NextLine(unread)
      case None =>
        pos := pos + skip;
        skipLF := skipLF && rest == [];
        r := Ok(None);
      case Some(l) =>
        pos := pos + skip + l.used;
        skipLF := l.used == |unread| && unread[|l.text|..l.used] == "\r";
        r := Ok(Some(l.text));
    }

    /** readLine */
    method ReadLine() returns (r: Result<Option<string>>)
      requires Valid()
      modifies this`pos, this`skipLF
      ensures Valid() && Reply(State(), r) == ReadLineSpec(old(State()))
    {
      var gate := RequireInputStreamNonNull();
      if gate.Failed? {
        return Err(gate.error);
      }
      r := ReaderReadLineStep();
    }

    /** readContent: every line the reader returns, appended until it returns null. */
    method ReadContent() returns (r: Result<string>)
      requires Valid()
      modifies this`pos, this`skipLF
      ensures Valid() && Reply(State(), r) == ReadContentSpec(old(State()))
    {
      var gate := RequireInputStreamNonNull();
      if gate.Failed? {
        return Err(gate.error);
      }
      r := AppendLines();
    }

    /** The loop of readContent: `while ((line = reader.readLine()) != null)` append it. */
    method AppendLines() returns (r: Result<string>)
      requires Valid() && hasInput
      modifies this`pos, this`skipLF
      ensures Valid() && Reply(State(), r) == ReadContentSpec(old(State()))
    {
      ghost var s0 := State();
      var line := ReaderReadLineStep();
      if line.Err? {
        return Err(line.error);
      }
      ReadingStarts(s0, line, State());
      var content := "";
      while line.value.Some?
        invariant Valid() && Reading(s0, State(), line, content)
        decreases |State().Remaining()| + if line.value.Some? then 1 else 0
      {
        ghost var before := State();
        var next := ReaderReadLineStep();
        ReadingStep(s0, before, line, content, next, State());
        content, line := content + line.value.value, next;
      }
      ContentRead(s0, State(), content);
      r := Ok(content);
    }

    /** write: the text goes to the file and is flushed. */
    method Write(text: string) returns (status: Status)
      requires Valid()
      modifies this`contents
      ensures Valid() && Step(State(), status) == WriteSpec(old(State()), text)
    {
      status := RequireOutputStreamNonNull();
      if status.Failed? {
        return;
      }
      if outputClosed {
        return Failed(StreamClosed);
      }
      contents := contents + text;
    }

    /** writeLine: the text and a line feed go to the file and are flushed. */
    method WriteLine(text: string) returns (status: Status)
      requires Valid()
      modifies this`contents
      ensures Valid() && Step(State(), status) == WriteLineSpec(old(State()), text)
    {
      status := RequireOutputStreamNonNull();
      if status.Failed? {
        return;
      }
      if outputClosed {
        return Failed(StreamClosed);
      }
      contents := contents + text + "\n";
    }

    /** closeInputStream: closes the input stream if there is one; the field stays set. */
    method CloseInputStream()
      requires Valid()
      modifies this`inputClosed
      ensures Valid() && State() == old(State()).(inputClosed := old(inputClosed) || hasInput)
    {
      if hasInput {
        inputClosed := true;
      }
    }

    /** closeOutputStream: closes the output stream if there is one; the field stays set. */
    method CloseOutputStream()
      requires Valid()
      modifies this`outputClosed
      ensures Valid() && State() == old(State()).(outputClosed := old(outputClosed) || hasOutput)
    {
      if hasOutput {
        outputClosed := true;
      }
    }

    /** close */
    method Close()
      requires Valid()
      modifies this
      ensures Valid() && State() == CloseSpec(old(State()))
    {
      CloseInputStream();
      CloseOutputStream();
    }

    /** enableRead */
    method EnableRead(routine: Routine, fs: FsAnswers) returns (status: Status)
      requires Valid()
      modifies this
      ensures Valid() && Step(State(), status) == EnableReadSpec(old(State()), routine, absolutePath, separator, fs)
    {
      status := Done;
      if !hasInput {
        var c := CreateFileAndDirs(routine, fs);
        if c.status.Failed? {
          return c.status;
        }
        fileExists, hasInput, pos := true, true, 0;
      }
    }

    /** enableWrite */
    method EnableWrite(appendable: bool)
      requires Valid()
      modifies this
      ensures Valid() && State() == EnableWriteSpec(old(State()), appendable)
    {
      if !hasOutput {
        fileExists, hasOutput, appending := true, true, appendable;
        if !appendable {
          contents := [];
        }
      }
    }

    /** enableModes: READ enables reading, any other mode writing (appending for APPEND). */
    method EnableModes(modes: seq<RwMode>, routine: Routine, fs: FsAnswers) returns (status: Status)
      requires Valid()
      modifies this
      ensures Valid() && Step(State(), status) == EnableModesSpec(old(State()), modes, routine, absolutePath, separator, fs)
    {
      status := Done;
      for i := 0 to |modes|
        invariant Valid() && status == Done
        invariant EnableModesSpec(old(State()), modes, routine, absolutePath, separator, fs)
               == EnableModesSpec(State(), modes[i..], routine, absolutePath, separator, fs)
      {
        assert modes[i..][1..] == modes[i + 1..];
        if modes[i] == Read {
          status := EnableRead(routine, fs);
          if status.Failed? {
            return;
          }
        } else {
          EnableWrite(modes[i] == Append);
        }
      }
      assert modes[|modes|..] == [];
    }
  }

  /** The lines readContent has still to append: the one in hand, then those unread. */
  ghost function Pending(line: Result<Option<string>>, st: HandleState): seq<string>
  {
    (if line.Ok? && line.value.Some? then [line.value.value] else []) + Lines(st.Unread())
  }

  /**
   * The invariant of the readContent loop, from the state s0 it started
   * in: only the stream has moved, what it passed is in content and the
   * line in hand, and the rest is still to read.
   */
  ghost predicate Reading(s0: HandleState, st: HandleState, line: Result<Option<string>>, content: string)
  {
    && line.Ok? && st.hasInput && !st.inputClosed
    && st == s0.(pos := st.pos, skipLF := st.skipLF)
    && st.pos + |st.Remaining()| == s0.pos + |s0.Remaining()|
    && (line.value.None? ==> st.Remaining() == [])
    && st.SkipLFAtEnd() == s0.SkipLFAtEnd()
    && content + Concat(Pending(line, st)) == Concat(Lines(s0.Unread()))
  }

  /** The first readLine of readContent sets up the loop invariant. */
  lemma ReadingStarts(s0: HandleState, line: Result<Option<string>>, st: HandleState)
    requires s0.hasInput && line.Ok? && Reply(st, line) == ReaderReadLine(s0)
    ensures Reading(s0, st, line, "")
  {
    ReaderProgress(s0);
    ReaderLines(s0);
  }

  /** One turn of the readContent loop keeps its invariant and moves the stream on. */
  lemma ReadingStep(s0: HandleState, before: HandleState, line: Result<Option<string>>, content: string,
                    next: Result<Option<string>>, after: HandleState)
    requires Reading(s0, before, line, content) && line.value.Some?
    requires Reply(after, next) == ReaderReadLine(before)
    ensures Reading(s0, after, next, content + line.value.value)
    ensures |after.Remaining()| + (if next.value.Some? then 1 else 0) < |before.Remaining()| + 1
  {
    ReaderProgress(before);
    ReaderLines(before);
    AppendLine(content, line.value.value, Lines(before.Unread()), Concat(Lines(s0.Unread())));
  }

  /**
   * The readContent loop ends with every remaining line appended, the
   * stream at its end and the reader owing what it owes there.
   */
  lemma ContentRead(s0: HandleState, s1: HandleState, content: string)
    requires Reading(s0, s1, Ok(None), content)
    ensures Reply(s1, Ok(content)) == ReadContentSpec(s0)
  {
    assert Lines(s1.Unread()) == [] && Pending(Ok(None), s1) == [];
    assert content == Concat(Lines(s0.Unread()));
  }
}
