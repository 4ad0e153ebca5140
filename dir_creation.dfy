/**
 * createFileAndDirs: when the target file is missing, rebuild its parent
 * directory path from the absolute path, create the directories, then
 * create the empty file.
 *
 * Whether the file exists is part of the handle's state and is passed in;
 * the platform's other answers (File.exists on the directory, File.mkdirs,
 * File.createNewFile) are inputs; File.separator is the parameter sep.
 *
 * CreationAsWritten is the routine as the source has it; CreationIntended
 * makes the directories only when they are missing (see
 * ExistingDirectoryBlocksCreation for why). The handle is modelled with
 * either, chosen by a Routine.
 */
module DirCreation {
  import opened Errors
  import opened Text

  /** What the filesystem answers about the directory and the new file. */
  datatype FsAnswers = FsAnswers(dirExists: bool, mkdirs: bool, createNewFile: bool)

  /**
   * File.mkdirs answers true only when it created the directory, so never
   * for a directory that is already there.
   */
  predicate MkdirsContract(fs: FsAnswers)
  {
    fs.dirExists ==> !fs.mkdirs
  }

  /**
   * What one run of the routine does: the directory string it builds
   * (None when it builds none), whether createNewFile is called, and how
   * the run ends.
   */
  datatype Creation = Creation(dirs: Option<string>, createAttempted: bool, status: Status)

  /**
   * The parent directory string built from an absolute path: separators
   * turned into '/', split on '/', the last segment dropped, and every
   * remaining segment written back followed by sep. None when the split
   * leaves no segment at all (Arrays.copyOf would be asked for length -1),
   * which happens exactly when the normalised path is a non-empty run of
   * '/' (a filesystem root). For a normalised path that holds a '/' and
   * does not end with one, the directory string is, up to the separator
   * used, the prefix of the path through its last '/': the final segment
   * is what is removed.
   */
  function DirectoryString(abs: string, sep: char): (r: Option<string>)
    ensures r.None? <==> var n := ReplaceChar(abs, sep, '/'); |n| > 0 && AllChar(n, '/')
    ensures var n := ReplaceChar(abs, sep, '/');
      '/' in n && n[|n| - 1] != '/' ==> r.Some? && IsParentPrefix(n, r.value, sep)
  {
    var n := ReplaceChar(abs, sep, '/');
    var parts := JavaSplit(n, '/');
    SplitEmpty(n, '/');
    if |parts| == 0 then None
    else
      var dir := JoinTrailing(parts[..|parts| - 1], sep);
      assert '/' in n && n[|n| - 1] != '/' ==> IsParentPrefix(n, dir, sep) by {
        if '/' in n && n[|n| - 1] != '/' {
          SegmentsAvoidSeparator(abs, sep);
          ParentOfSegments(n, sep);
          SplitKeepsAll(n);
        }
      }
      Some(dir)
  }

  /** The StringBuilder loop: each segment appended, then the separator. */
  method BuildDirString(parts: seq<string>, sep: char) returns (s: string)
    ensures s == JoinTrailing(parts, sep)
  {
    s := "";
    for i := 0 to |parts|
      invariant s == JoinTrailing(parts[..i], sep)
    {
      JoinTrailingSnoc(parts[..i], parts[i], sep);
      assert parts[..i + 1] == parts[..i] + [parts[i]];
      s := s + parts[i] + [sep];
    }
    assert parts[..|parts|] == parts;
  }

  /**
   * The routine as written: nothing to do when the file exists; otherwise
   * it fails when mkdirs answers false (and then never asks createNewFile,
   * the || short-circuits) or when createNewFile answers false.
   */
  function CreationAsWritten(fileExists: bool, abs: string, sep: char, fs: FsAnswers): (c: Creation)
    ensures fileExists ==> c == Creation(None, false, Done)
    ensures !fileExists ==> c.dirs == DirectoryString(abs, sep)
    ensures c.createAttempted <==> !fileExists && c.dirs.Some? && fs.mkdirs
    ensures c.status == Done <==> fileExists || (c.dirs.Some? && fs.mkdirs && fs.createNewFile)
    ensures c.status.Failed? && c.dirs.Some? ==> c.status.error == CreateError
    ensures c.status.Failed? && c.dirs.None? ==> c.status.error == NegativeArraySize
  {
    if fileExists then Creation(None, false, Done)
    else
      match DirectoryString(abs, sep)
      case None => Creation(None, false, Failed(NegativeArraySize))
      case Some(d) =>
        if !fs.mkdirs then Creation(Some(d), false, Failed(CreateError))
        else if !fs.createNewFile then Creation(Some(d), true, Failed(CreateError))
        else Creation(Some(d), true, Done)
  }

  /**
   * The routine as intended: as written, except that a false mkdirs is a
   * failure only when the directory is missing.
   */
  function CreationIntended(fileExists: bool, abs: string, sep: char, fs: FsAnswers): (c: Creation)
    ensures fileExists ==> c == Creation(None, false, Done)
    ensures !fileExists ==> c.dirs == DirectoryString(abs, sep)
    ensures c.createAttempted <==> !fileExists && c.dirs.Some? && (fs.dirExists || fs.mkdirs)
    ensures c.status == Done <==> fileExists || (c.dirs.Some? && (fs.dirExists || fs.mkdirs) && fs.createNewFile)
    ensures c.status.Failed? && c.dirs.Some? ==> c.status.error == CreateError
    ensures c.status.Failed? && c.dirs.None? ==> c.status.error == NegativeArraySize
  {
    if fileExists then Creation(None, false, Done)
    else
      match DirectoryString(abs, sep)
      case None => Creation(None, false, Failed(NegativeArraySize))
      case Some(d) =>
        if !fs.dirExists && !fs.mkdirs then Creation(Some(d), false, Failed(CreateError))
        else if !fs.createNewFile then Creation(Some(d), true, Failed(CreateError))
        else Creation(Some(d), true, Done)
  }

  /** Which createFileAndDirs the handle runs. */
  datatype Routine = AsWritten | Intended

  /** createFileAndDirs as the routine chosen runs it. */
  function Prepare(routine: Routine, fileExists: bool, abs: string, sep: char, fs: FsAnswers): Creation
  {
    if routine == AsWritten then CreationAsWritten(fileExists, abs, sep, fs)
    else CreationIntended(fileExists, abs, sep, fs)
  }

  // ---------------------------------------------------------------------
  // The directory string is the parent of the normalised path.

  lemma {:induction false} JoinTrailingThenLast(parts: seq<string>, p: string, d: char)
    ensures JoinTrailing(parts, d) + p == JoinWith(parts + [p], d)
  {
    if |parts| > 0 {
      assert (parts + [p])[1..] == parts[1..] + [p];
      JoinTrailingThenLast(parts[1..], p, d);
    } else {
      assert parts + [p] == [p];
    }
  }

  /** A character absent from the input is absent from every segment. */
  lemma {:induction false} SplitOnAvoids(s: string, d: char, x: char)
    requires x !in s
    ensures Avoids(SplitOn(s, d), x)
    decreases |s|
  {
    if |s| > 0 {
      assert forall c :: c in s[1..] ==> c in s;
      SplitOnAvoids(s[1..], d, x);
    }
  }

  /** The last segment is empty exactly when the input ends with d (or is empty). */
  lemma SplitLastNonEmpty(s: string, d: char)
    requires |s| > 0 && s[|s| - 1] != d
    ensures var parts := SplitOn(s, d); parts[|parts| - 1] != ""
  {
    var parts := SplitOn(s, d);
    var m := |parts|;
    if m > 1 {
      assert parts == parts[..m - 1] + [parts[m - 1]];
      JoinWithSnoc(parts[..m - 1], parts[m - 1], d);
    }
  }

  /** Separators replaced by sep in a trailing join read back as '/'. */
  lemma {:induction false} ReplaceJoinTrailing(parts: seq<string>, sep: char)
    requires Avoids(parts, sep)
    ensures ReplaceChar(JoinTrailing(parts, sep), sep, '/') == JoinTrailing(parts, '/')
  {
    if |parts| > 0 {
      ReplaceJoinTrailing(parts[1..], sep);
      var head := parts[0] + [sep];
      var tail := JoinTrailing(parts[1..], sep);
      var r := ReplaceChar(head + tail, sep, '/');
      assert r == parts[0] + ['/'] + ReplaceChar(tail, sep, '/') by {
        assert forall i :: 0 <= i < |parts[0]| ==> parts[0][i] in parts[0];
      }
    }
  }

  /** A path with a '/' that does not end with one keeps every segment of its split, at least two. */
  lemma SplitKeepsAll(n: string)
    requires '/' in n && n[|n| - 1] != '/'
    ensures JavaSplit(n, '/') == SplitOn(n, '/') && |SplitOn(n, '/')| >= 2
  {
    var parts := SplitOn(n, '/');
    SplitLastNonEmpty(n, '/');
  }

  /** Joining all segments but the last, each followed by d, gives the prefix through the last d. */
  lemma JoinedFront(parts: seq<string>, d: char)
    requires |parts| >= 2
    ensures var m, r := |parts|, JoinTrailing(parts[..|parts| - 1], d);
      JoinWith(parts, d) == r + parts[m - 1] && 0 < |r| && r[|r| - 1] == d
  {
    var m := |parts|;
    var front, last := parts[..m - 1], parts[m - 1];
    assert parts == front + [last];
    JoinTrailingThenLast(front, last, d);
    assert front == front[..m - 2] + [front[m - 2]];
    JoinTrailingSnoc(front[..m - 2], front[m - 2], d);
  }

  /** Segments of a normalised path never hold the platform separator. */
  lemma SegmentsAvoidSeparator(abs: string, sep: char)
    ensures Avoids(SplitOn(ReplaceChar(abs, sep, '/'), '/'), sep)
  {
    var n := ReplaceChar(abs, sep, '/');
    if sep != '/' {
      assert sep !in n;
      SplitOnAvoids(n, '/', sep);
    }
  }

  /** A prefix r' through a '/', followed by a non-empty last segment without one. */
  lemma PrefixThroughLastSlash(n: string, r: string, r': string, last: string, sep: char)
    requires n == r' + last && '/' !in last && last != ""
    requires 0 < |r'| && r'[|r'| - 1] == '/' && ReplaceChar(r, sep, '/') == r'
    ensures 0 < |r| < |n| && ReplaceChar(r, sep, '/') == n[..|r|] && n[|r| - 1] == '/' && '/' !in n[|r|..]
  {
    assert n[..|r'|] == r' && n[|r'|..] == last;
  }

  /**
   * r, read with '/' for sep, is the prefix of n through its last '/', and
   * the part of n after it is a non-empty final segment.
   */
  predicate IsParentPrefix(n: string, r: string, sep: char)
  {
    0 < |r| < |n| && ReplaceChar(r, sep, '/') == n[..|r|] && n[|r| - 1] == '/' && '/' !in n[|r|..]
  }

  /** Segments joined back into n: all but the last, joined with sep, are n's parent prefix. */
  lemma ParentOfParts(n: string, parts: seq<string>, sep: char)
    requires |parts| >= 2 && JoinWith(parts, '/') == n && parts[|parts| - 1] != ""
    requires Avoids(parts, '/') && Avoids(parts, sep)
    ensures IsParentPrefix(n, JoinTrailing(parts[..|parts| - 1], sep), sep)
  {
    var m := |parts|;
    var front := parts[..m - 1];
    ReplaceJoinTrailing(front, sep);
    JoinedFront(parts, '/');
    PrefixThroughLastSlash(n, JoinTrailing(front, sep), JoinTrailing(front, '/'), parts[m - 1], sep);
  }

  /** The trailing join of all segments but the last is the prefix of n through its last '/'. */
  lemma ParentOfSegments(n: string, sep: char)
    requires '/' in n && n[|n| - 1] != '/'
    requires Avoids(SplitOn(n, '/'), sep)
    ensures var parts := SplitOn(n, '/');
      |parts| >= 2 && IsParentPrefix(n, JoinTrailing(parts[..|parts| - 1], sep), sep)
  {
    SplitKeepsAll(n);
    SplitLastNonEmpty(n, '/');
    ParentOfParts(n, SplitOn(n, '/'), sep);
  }

  /** When the split keeps every segment, the directory string joins all but the last. */
  lemma DirectoryOfSegments(abs: string, sep: char)
    requires var n := ReplaceChar(abs, sep, '/'); '/' in n && n[|n| - 1] != '/'
    ensures var parts := SplitOn(ReplaceChar(abs, sep, '/'), '/');
      |parts| >= 2 && DirectoryString(abs, sep) == Some(JoinTrailing(parts[..|parts| - 1], sep))
  {
    SplitKeepsAll(ReplaceChar(abs, sep, '/'));
  }

  // ---------------------------------------------------------------------
  // mkdirs under java.io.File's contract.

  /** The correction changes nothing where the directory is missing. */
  lemma CorrectionOnlyForExistingDirectory(fileExists: bool, abs: string, sep: char, fs: FsAnswers)
    requires !fs.dirExists
    ensures CreationIntended(fileExists, abs, sep, fs) == CreationAsWritten(fileExists, abs, sep, fs)
  {
  }

  /**
   * As written, a missing file whose directory already exists is never
   * created: mkdirs answers false, so the routine fails without calling
   * createNewFile.
   */
  lemma ExistingDirectoryBlocksCreation(abs: string, sep: char, fs: FsAnswers)
    requires MkdirsContract(fs) && fs.dirExists
    requires DirectoryString(abs, sep).Some?
    ensures CreationAsWritten(false, abs, sep, fs) == Creation(DirectoryString(abs, sep), false, Failed(CreateError))
  {
  }

  /**
   * As intended, a missing file whose directory already exists is
   * created whenever createNewFile succeeds.
   */
  lemma ExistingDirectoryAllowsCreation(abs: string, sep: char, fs: FsAnswers)
    requires MkdirsContract(fs) && fs.dirExists && fs.createNewFile
    requires DirectoryString(abs, sep).Some?
    ensures CreationIntended(false, abs, sep, fs) == Creation(DirectoryString(abs, sep), true, Done)
  {
  }
}
