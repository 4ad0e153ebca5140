# RwFile handle, modelled in Dafny

RwFile is a small Java wrapper around a text file. It is opened with a mode
string made of the letters `r` (read), `w` (write, truncating) and `a`
(write, appending). It reads one unit, one line or the whole remaining
content. It writes strings or lines. Modes can be enabled later with
`enableRead`, `enableWrite` and `enableModes`, and `close` releases both
streams. Before it opens a file for reading, `createFileAndDirs` makes
sure the file and its parent directories exist.

This project models that handle as a state machine:

- `Errors`: the exceptions as one error datatype, plus `Status`, `Result` and `Option`.
- `Modes`: the `RwMode` enum and its one-letter values.
- `Text`: the Java string operations the handle relies on. These are
  `String.contains`, `String.replace`, `String.split` with its dropping of
  trailing empty strings, and joining.
- `LineReader`: `BufferedReader.readLine` as a function over the characters
  still unread. A line ends at `\n`, `\r` or `\r\n`.
- `DirCreation`: `createFileAndDirs`, meaning the directory string it
  builds and how the platform's answers decide the outcome.
- `Handle`: the handle's state as a value (`HandleState`) and every public
  operation as a transition on that value.
- `HandleProperties`: what the transitions guarantee.
- `RwFiles`: the class `RwFile`. Its fields are the state and its methods
  update them in place. Each method is proved to follow the matching
  transition of `Handle`.

The file is abstracted to whether it exists (`fileExists`) and its
characters (`contents`). The input stream is abstracted to an offset into
them (`pos`). Opening an output stream creates a missing file, and a file
prepared for reading exists afterwards, so later operations see it. A Java stream field is either
null or holds a stream. `close` closes the streams but never sets the
fields back to null, so the model keeps `hasInput`/`hasOutput` and adds
`inputClosed`/`outputClosed`. The buffered reader keeps one piece of
memory across calls, and so does the model (`skipLF`): after a line that
ended with `\r`, a `\n` that comes next completes a `\r\n` and is skipped
by the next `readLine`. A `\r\n` already in the file is consumed whole, so
the flag only lasts when the `\r` was the last character read, until more
text is written after it.

`createFileAndDirs` is modelled twice: `CreationAsWritten` is the code as
written, and `CreationIntended` makes directories only when they are
missing (see Findings). Every operation that prepares the file (the
constructor, `open`, `enableRead`, `enableModes`) takes a `Routine`
choosing between them. With `AsWritten` the model is the code as it
stands, and `HandleProperties.ReadRefusedInExistingDirectory` shows the
failure. With `Intended` it is the code as corrected, and
`HandleProperties.ReadOnMissingFileInExistingDirectory` shows the fix.

Where the code and its documentation disagree, the model follows the code:

- A second `close` is harmless. Java's streams and buffered readers and
  writers accept a repeated close, and the fields are never cleared.
  `HandleProperties.CloseIsFinal` states it.
- Opening a missing file for reading does not always create it. Under
  `File.mkdirs`'s contract, the code as written refuses when the directory
  already exists.

## Model

| member | source | states |
|---|---|---|
| Modes.RwMode.Value | src/main/java/com/hzy/rwfile/RwMode.java:11-42 | each mode's value is one character, and that character maps back to the same mode, so the three values are the letters r, w and a |
| Modes.ModeOfLetter | src/main/java/com/hzy/rwfile/RwMode.java:11-19 | a character names a mode exactly when it is one of r, w and a |
| Modes.ValuesDistinct | src/main/java/com/hzy/rwfile/RwMode.java:11-19 | two modes have the same value only if they are the same mode |
| Text.Contains | src/main/java/com/hzy/rwfile/RwFile.java:70-80 | String.contains holds exactly when the needle occurs at some index of the haystack |
| Text.ContainsLetter | src/main/java/com/hzy/rwfile/RwFile.java:70-80 | containment of a one-letter string is membership of that letter |
| Text.ReplaceChar | src/main/java/com/hzy/rwfile/RwFile.java:115 | String.replace keeps the length and swaps exactly the occurrences of one character |
| Text.SplitOn | src/main/java/com/hzy/rwfile/RwFile.java:115 | splitting gives at least one segment, no segment holds the delimiter, and joining the segments with the delimiter gives the input back |
| Text.DropTrailingEmpty | src/main/java/com/hzy/rwfile/RwFile.java:115 | the result is a prefix of the segments, everything dropped is empty, and the last segment kept is non-empty |
| Text.SplitOnAllEmpty | src/main/java/com/hzy/rwfile/RwFile.java:115 | every segment is empty exactly when the input consists of delimiters only |
| Text.JavaSplit | src/main/java/com/hzy/rwfile/RwFile.java:115 | String.split gives the input whole when it lacks the delimiter; otherwise segments free of the delimiter, never ending with an empty one, that joined back give the input less a run of delimiters at its end |
| Text.DropTrailingJoin | src/main/java/com/hzy/rwfile/RwFile.java:115 | the empty segments dropped at the end are exactly a run of delimiters at the end of the join |
| Text.SplitEmpty | src/main/java/com/hzy/rwfile/RwFile.java:115-116 | String.split returns no segment exactly for a non-empty run of delimiters, the one input where Arrays.copyOf gets length -1 |
| LineReader.NextLine | src/main/java/com/hzy/rwfile/RwFile.java:176-179 | readLine gives nothing exactly at the end of the text; otherwise it gives a prefix free of terminators and consumes it plus one line end, and a `\r` is never left with its `\n` unread |
| LineReader.Lines | src/main/java/com/hzy/rwfile/RwFile.java:162-164 | readLine called until it gives null yields no line exactly for an empty text, never a line holding a terminator, and at most one line per character |
| LineReader.ConcatLinesStripsTerminators | src/main/java/com/hzy/rwfile/RwFile.java:158-166 | joining every line of a text with no separator gives the text with all its `\n` and `\r` deleted |
| LineReader.NextLineOfTerminated | src/main/java/com/hzy/rwfile/RwFile.java:201-205 | a line written as text plus `\n` is read back as exactly that text, and the rest stays unread |
| LineReader.LinesOfTerminated | src/main/java/com/hzy/rwfile/RwFile.java:201-205 | lines written one by one with writeLine split back into the same lines in the same order |
| DirCreation.BuildDirString | src/main/java/com/hzy/rwfile/RwFile.java:117-120 | the loop appends every segment followed by the separator |
| DirCreation.DirectoryString | src/main/java/com/hzy/rwfile/RwFile.java:115-120 | no directory string can be built exactly when the normalised path is a non-empty run of `/`; for a path with a `/` that does not end in one, the directory string is, once normalised, the path up to and including its last `/` |
| DirCreation.DirectoryOfSegments | src/main/java/com/hzy/rwfile/RwFile.java:115-120 | under the same condition the directory string is the segments before the last, each followed by the separator |
| DirCreation.CreationAsWritten | src/main/java/com/hzy/rwfile/RwFile.java:111-124 | as written: nothing is done for an existing file; otherwise the routine builds the directory string, calls createNewFile only after mkdirs answers true, and succeeds exactly when both answer true |
| DirCreation.CreationIntended | src/main/java/com/hzy/rwfile/RwFile.java:111-124 | as intended: the same routine, except that mkdirs answering false is a failure only when the directory is missing |
| DirCreation.CorrectionOnlyForExistingDirectory | src/main/java/com/hzy/rwfile/RwFile.java:121-123 | the two routines agree whenever the directory is missing |
| DirCreation.ExistingDirectoryBlocksCreation | src/main/java/com/hzy/rwfile/RwFile.java:121-123 | as written, a missing file in an existing directory fails with a creation error and createNewFile is never called |
| DirCreation.ExistingDirectoryAllowsCreation | src/main/java/com/hzy/rwfile/RwFile.java:121-123 | as intended, a missing file in an existing directory is created whenever createNewFile succeeds |
| Handle.Unopened | src/main/java/com/hzy/rwfile/RwFile.java:69 | a handle before any stream has neither stream, and the file exists with its text exactly when one is given |
| Handle.RequireInput | src/main/java/com/hzy/rwfile/RwFile.java:251-255 | fails, with the unsupported-mode error, exactly when there is no input stream |
| Handle.RequireOutput | src/main/java/com/hzy/rwfile/RwFile.java:263-267 | fails, with the unsupported-mode error, exactly when there is no output stream |
| Handle.InputError | src/main/java/com/hzy/rwfile/RwFile.java:251-255 | reading is refused as unsupported exactly without an input stream, as closed when the input stream exists but is closed, and is possible exactly with an input stream that is not closed |
| Handle.OutputError | src/main/java/com/hzy/rwfile/RwFile.java:263-267 | writing is refused as unsupported exactly without an output stream, as closed when the output stream exists but is closed, and is possible exactly with an output stream that is not closed |
| Handle.ReadOneSpec | src/main/java/com/hzy/rwfile/RwFile.java:133-136 | fails, changing nothing, exactly when reading is impossible; otherwise gives -1 exactly at the end, else the next character's code, and the only change is the offset moving past that character |
| Handle.ReadOneCharSpec | src/main/java/com/hzy/rwfile/RwFile.java:146-148 | the same as readOne cast to char: it fails with readOne's error, otherwise gives the next character, or U+FFFF at the end, leaving the state readOne leaves |
| Handle.ReaderReadLine | src/main/java/com/hzy/rwfile/RwFile.java:178 | on a closed stream it fails and changes nothing; otherwise only the offset and the owed line feed change, and nothing is returned exactly when nothing is left to read once a line feed owed after a carriage return is skipped |
| Handle.ReaderLines | src/main/java/com/hzy/rwfile/RwFile.java:178 | the line a successful readLine returns is the first of the lines still to read, and the ones after it are what is left to read afterwards |
| Handle.ReaderProgress | src/main/java/com/hzy/rwfile/RwFile.java:178 | a successful readLine moves the stream forward, by at least one character when it returns a line and to the end when it returns null; a line feed stays owed only at the end of the text, and what is owed there does not change |
| Handle.ReadLineSpec | src/main/java/com/hzy/rwfile/RwFile.java:176-179 | fails, changing nothing, exactly when reading is impossible; otherwise only the offset and the owed line feed change, and it gives the first line still to read, the rest staying unread, or null exactly when nothing is left to read |
| Handle.ReadContentSpec | src/main/java/com/hzy/rwfile/RwFile.java:158-166 | fails, changing nothing, exactly when reading is impossible; otherwise gives the remaining text without its line terminators and leaves the stream at its end, owing a line feed exactly when the text left ended with a carriage return (or, with nothing left, when it owed one already), changing nothing else |
| Handle.WriteSpec | src/main/java/com/hzy/rwfile/RwFile.java:189-193 | fails, changing nothing, exactly when writing is impossible; otherwise appends exactly the text and changes nothing else |
| Handle.WriteLineSpec | src/main/java/com/hzy/rwfile/RwFile.java:201-205 | fails with the same error as write, changing nothing, exactly when writing is impossible; otherwise the file grows by the text and one line feed and nothing else changes |
| Handle.CloseSpec | src/main/java/com/hzy/rwfile/RwFile.java:213-244 | close keeps both stream fields, the file's existence and all data, the offset and the owed line feed included, and afterwards every read and every write fails, as closed where the stream existed and as unsupported where it did not |
| Handle.EnableReadSpec | src/main/java/com/hzy/rwfile/RwFile.java:275-281 | with an input stream it is a no-op; otherwise it succeeds exactly when the chosen creation routine does, changing nothing on failure, and on success the file exists and an input stream is open at its start, nothing else changing |
| Handle.EnableWriteSpec | src/main/java/com/hzy/rwfile/RwFile.java:289-294 | with an output stream it is a no-op; otherwise it opens one that appends or truncates the file, as asked, creating a missing file, and nothing else changes |
| Handle.EnableOne | src/main/java/com/hzy/rwfile/RwFile.java:305-309 | one mode of enableModes: only READ can fail, and then on a handle without an input stream and changing nothing; on success the file exists and READ leaves an input stream, any other mode an output stream, a new one opened in append mode exactly for APPEND |
| Handle.EnableModesSpec | src/main/java/com/hzy/rwfile/RwFile.java:303-311 | applying the modes in order keeps the state well formed |
| Handle.ConstructSpec | src/main/java/com/hzy/rwfile/RwFile.java:68-84 | the constructor's outcome is a well-formed state |
| HandleProperties.LetterTests | src/main/java/com/hzy/rwfile/RwFile.java:70-80 | testing the mode string for a mode's value is testing it for that mode's letter |
| HandleProperties.ConstructedStreams | src/main/java/com/hzy/rwfile/RwFile.java:70-83 | construction succeeds exactly when the chosen routine can prepare the file for r and w and a are not both present. On success there is an input stream exactly for r, an output stream exactly for w or a, appending exactly for a; the file exists if it did or any stream was opened, and it is empty after w or if it was missing, otherwise it keeps its text |
| HandleProperties.ConstructFailures | src/main/java/com/hzy/rwfile/RwFile.java:70-76 | a file that cannot be prepared for r stops construction before any stream is opened; w with a is refused after the input stream for r has been opened, and that stream is left open |
| HandleProperties.ConstructIgnoresOtherLetters | src/main/java/com/hzy/rwfile/RwFile.java:70-83 | inserting any character other than r, w and a anywhere in the mode string changes nothing |
| HandleProperties.ReadRefusedInExistingDirectory | src/main/java/com/hzy/rwfile/RwFile.java:70-74 | as written, r on a missing file in an existing directory fails with a creation error before any stream is opened |
| HandleProperties.ReadOnMissingFileInExistingDirectory | src/main/java/com/hzy/rwfile/RwFile.java:70-74 | with the intended creation routine, r on a missing file in an existing directory opens an input stream on the new, empty file |
| HandleProperties.WriteLineThenReadLine | src/main/java/com/hzy/rwfile/RwFile.java:176-205 | a line written at the end of the file is the next line read, and nothing is left after it; the exception is an empty line right after a line that ended the text with a carriage return, whose line feed the reader skips, so it reads null |
| HandleProperties.WriteThenReadContent | src/main/java/com/hzy/rwfile/RwFile.java:158-193 | text written at the end of the file is read back whole by readContent, less its terminators |
| HandleProperties.WrittenFileIsReadable | src/main/java/com/hzy/rwfile/RwFile.java:275-281 | a file opened with w exists, so a later enableRead creates nothing and readContent gives back what was written, less its terminators |
| HandleProperties.ReadContentOfWrittenLines | src/main/java/com/hzy/rwfile/RwFile.java:158-166 | a file of terminated lines reads back as those lines joined with no separator |
| HandleProperties.CloseIsFinal | src/main/java/com/hzy/rwfile/RwFile.java:213-294 | a second close changes nothing, and enabling a mode that was enabled before the close does not reopen it |
| HandleProperties.FirstWriteMode | src/main/java/com/hzy/rwfile/RwFile.java:303-311 | the first write-type mode of a list is not READ, is in the list with only READs before it, and there is none exactly when every mode is READ |
| HandleProperties.EnableModesFailsOnlyOnCreation | src/main/java/com/hzy/rwfile/RwFile.java:303-311 | enableModes never raises the w/a conflict; it fails only when a READ has to prepare the file and cannot, then with that failure and changing nothing |
| HandleProperties.EnableModesEnables | src/main/java/com/hzy/rwfile/RwFile.java:303-311 | after success the whole new state is known: the file exists if any mode was listed, reading is enabled if it was or READ is listed, writing if it was or a write-type mode is listed, a new output stream appends or truncates as the first write-type mode says (truncating empties the file), and the offset, the closed flags and the owed line feed are unchanged |
| HandleProperties.EnableModesOnEnabled | src/main/java/com/hzy/rwfile/RwFile.java:303-311 | when every listed mode is already enabled, enableModes changes nothing |
| HandleProperties.EnableModesIdempotent | src/main/java/com/hzy/rwfile/RwFile.java:303-311 | a second enableModes with the same modes is a no-op |
| RwFiles.RwFile.constructor | src/main/java/com/hzy/rwfile/RwFile.java:69 | the new object holds its path and has no stream |
| RwFiles.RwFile.Create | src/main/java/com/hzy/rwfile/RwFile.java:68-84 | the constructor moves the new object to the state, and returns the status, that ConstructSpec gives |
| RwFiles.RwFile.Open | src/main/java/com/hzy/rwfile/RwFile.java:97-102 | a null path or mode fails with the construct error and no object; otherwise it constructs as the constructor does |
| RwFiles.RwFile.CreateFileAndDirs | src/main/java/com/hzy/rwfile/RwFile.java:111-124 | the routine, with its segment loop, produces the outcome of the routine chosen: CreationAsWritten or CreationIntended |
| RwFiles.RwFile.RequireInputStreamNonNull | src/main/java/com/hzy/rwfile/RwFile.java:251-255 | answers as RequireInput on the current state |
| RwFiles.RwFile.RequireOutputStreamNonNull | src/main/java/com/hzy/rwfile/RwFile.java:263-267 | answers as RequireOutput on the current state |
| RwFiles.RwFile.ReadOne | src/main/java/com/hzy/rwfile/RwFile.java:133-136 | result and new state are those of ReadOneSpec |
| RwFiles.RwFile.ReadOneChar | src/main/java/com/hzy/rwfile/RwFile.java:146-148 | result and new state are those of ReadOneCharSpec |
| RwFiles.RwFile.ReaderReadLineStep | src/main/java/com/hzy/rwfile/RwFile.java:178 | result and new state are those of ReaderReadLine |
| RwFiles.RwFile.ReadLine | src/main/java/com/hzy/rwfile/RwFile.java:176-179 | result and new state are those of ReadLineSpec |
| RwFiles.RwFile.ReadContent | src/main/java/com/hzy/rwfile/RwFile.java:158-166 | result and new state are those of ReadContentSpec |
| RwFiles.RwFile.AppendLines | src/main/java/com/hzy/rwfile/RwFile.java:160-165 | the readLine loop, appending every line to a builder, yields the remaining text without terminators and ends at the end of the stream |
| RwFiles.RwFile.Write | src/main/java/com/hzy/rwfile/RwFile.java:189-193 | status and new state are those of WriteSpec |
| RwFiles.RwFile.WriteLine | src/main/java/com/hzy/rwfile/RwFile.java:201-205 | status and new state are those of WriteLineSpec |
| RwFiles.RwFile.CloseInputStream | src/main/java/com/hzy/rwfile/RwFile.java:225-230 | closes the input stream if there is one and changes nothing else |
| RwFiles.RwFile.CloseOutputStream | src/main/java/com/hzy/rwfile/RwFile.java:239-244 | closes the output stream if there is one and changes nothing else |
| RwFiles.RwFile.Close | src/main/java/com/hzy/rwfile/RwFile.java:213-216 | the new state is that of CloseSpec |
| RwFiles.RwFile.EnableRead | src/main/java/com/hzy/rwfile/RwFile.java:275-281 | status and new state are those of EnableReadSpec |
| RwFiles.RwFile.EnableWrite | src/main/java/com/hzy/rwfile/RwFile.java:289-294 | the new state is that of EnableWriteSpec |
| RwFiles.RwFile.EnableModes | src/main/java/com/hzy/rwfile/RwFile.java:303-311 | the loop over the modes reaches the status and state of EnableModesSpec |

## Left out

- Stream I/O: the byte streams, the buffered reader and writer, flushing and charset decoding are not modelled. The file is a sequence of characters, and `readOne` returns the next character's code rather than a byte.
- Mixing readOne with readLine/readContent: in Java the buffered reader reads ahead of the raw stream, so the two kinds of read interleave unpredictably. The model gives both one shared offset.
- IOExceptions from the Java library are not modelled. Examples are a FileOutputStream on a path that cannot be opened and a failure inside close. The stream classes are not part of this model.
- A closed stream fails reads and writes with one `StreamClosed` error, standing for the IOException that a closed BufferedReader, BufferedWriter or FileInputStream raises.
- The constructor RwFile(path, mode) given a null argument fails on the null dereference. Only `open`'s explicit null check is modelled.
- `enableModes` with a null array or a null entry is not modelled. The modes are a sequence of `RwMode`, and a null entry would act as WRITE.
- RwFiles.RwFile.Create: when construction fails, it returns the object as far as it got. In Java the object is lost along with any stream it had opened.
- The platform's answers are inputs rather than being computed: `exists` on the directory, `mkdirs`, `createNewFile`, the absolute path and `File.separator`. `MkdirsContract` states the one property of `mkdirs` the findings rely on. Whether the file exists is given when the handle is made (a missing file has no text) and then tracked by the handle; changes made to the file by other programs are not modelled.
- Truncation under an open reader: a file truncated while an input stream is open leaves the offset past the end, and the model then reads the end of the stream. In Java the buffered reader goes on returning the characters it had already buffered, which the model does not capture.
- Null text: the model's text is never null. In Java `write(null)` fails inside BufferedWriter.write on the null reference, and `writeLine(null)` writes "null" and a line feed through string concatenation.
- The getters that expose the raw Java objects have no behaviour of their own and are not modelled, and neither is the wording of exception messages. The exception classes become one error datatype.
- Handle.EnableModesSpec and Handle.ConstructSpec state only that the state stays well formed. What they do is stated by the HandleProperties lemmas that cite the same lines.

## Findings

| source | as written | input that shows it | evidently intended | confidence | as-written member | corrected member |
|---|---|---|---|---|---|---|
| src/main/java/com/hzy/rwfile/RwFile.java:121-123 | `!mkdirs() \|\| !createNewFile()` treats mkdirs answering false as a failure, but File.mkdirs answers false when the directory already exists | mode "r" on a missing file `/tmp/x.txt` whose directory `/tmp/` exists: mkdirs answers false, createNewFile is never called, and RwFileCreateException is thrown | fail on mkdirs only when the directory is missing, then create the file | not executed | DirCreation.ExistingDirectoryBlocksCreation | DirCreation.ExistingDirectoryAllowsCreation |
