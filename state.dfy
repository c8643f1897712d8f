/** The pure parts of state restoration (daemon/daemon/state.go): which
    directory names can be blob ids, finding the state file in a blob
    directory, reading the state line out of it, and how such a line parses
    back into a blob. */
module State {
  import opened Wrappers
  import opened Strings
  import Blobs

  // ---------------------------------------------------------------------
  // Decimal ids

  predicate IsDigit(c: char)
  {
    '0' <= c <= '9'
  }

  predicate AllDigits(s: string)
  {
    forall i :: 0 <= i < |s| ==> IsDigit(s[i])
  }

  /** The value of a string of decimal digits. */
  function DigitsValue(s: string): nat
    requires AllDigits(s)
  {
    if s == [] then 0 else DigitsValue(s[..|s| - 1]) * 10 + (s[|s| - 1] as int - '0' as int)
  }

  const MaxUint16: nat := 0xFFFF

  /** `strconv.ParseUint(s, 10, 16)`: a non-empty string of decimal digits
      (no sign, no underscore) whose value fits in 16 bits. Leading zeros are
      accepted. */
  function ParseUint16(s: string): (r: Option<nat>)
    ensures r.Some? ==> s != "" && AllDigits(s)
    ensures r.Some? ==> r.value == DigitsValue(s) <= MaxUint16
  {
    if s != "" && AllDigits(s) && DigitsValue(s) <= MaxUint16 then Some(DigitsValue(s)) else None
  }

  function Digit(d: nat): char
    requires d < 10
  {
    ('0' as int + d) as char
  }

  /** `strconv.Itoa` on a non-negative number: its shortest decimal form. */
  function Itoa(n: nat): (s: string)
    ensures s != "" && AllDigits(s) && DigitsValue(s) == n
    ensures s[0] == '0' ==> s == "0"
  {
    if n < 10 then [Digit(n)]
    else
      var p := Itoa(n / 10);
      var s := p + [Digit(n % 10)];
      assert s[..|s| - 1] == p;
      s
  }

  /** The directory of every 16-bit id parses back to that id. */
  lemma ItoaRoundTrip(n: nat)
    requires n <= MaxUint16
    ensures ParseUint16(Itoa(n)) == Some(n)
  {
  }

  /** A zero in front of a digit string does not change its value. */
  lemma {:induction false} LeadingZeroKeepsValue(s: string)
    requires AllDigits(s)
    ensures AllDigits("0" + s) && DigitsValue("0" + s) == DigitsValue(s)
    decreases |s|
  {
    if s == [] {
      assert ("0" + s)[..0] == "";
    } else {
      var init := s[..|s| - 1];
      LeadingZeroKeepsValue(init);
      assert ("0" + s)[..|"0" + s| - 1] == "0" + init;
    }
  }

  /** Every 16-bit id also has a directory name with a leading zero: it
      parses to that id, yet it is not the name `Itoa` gives any id, so the
      directory `cleanUp` removes for a blob is never that one. */
  lemma LeadingZeroNotCanonical(n: nat)
    requires n <= MaxUint16
    ensures ParseUint16("0" + Itoa(n)) == Some(n)
    ensures forall m: nat :: Itoa(m) != "0" + Itoa(n)
  {
    LeadingZeroKeepsValue(Itoa(n));
    assert ("0" + Itoa(n))[0] == '0' && |"0" + Itoa(n)| >= 2;
  }

  // ---------------------------------------------------------------------
  // Directory listings

  /** A directory entry (`os.FileInfo`): its name and whether it is a
      directory. */
  datatype FileInfo = FileInfo(name: string, isDir: bool)

  /** An entry that may hold a blob: a directory named by a 16-bit id. */
  predicate IsBlobDir(f: FileInfo)
  {
    f.isDir && ParseUint16(f.name).Some?
  }

  /** `FilterBlobDir`: the names of the entries that are directories named
      by a 16-bit decimal id, in listing order. */
  function FilterBlobDir(files: seq<FileInfo>): (names: seq<string>)
    ensures |names| <= |files|
  {
    if files == [] then []
    else
      var f := files[|files| - 1];
      FilterBlobDir(files[..|files| - 1]) + (if IsBlobDir(f) then [f.name] else [])
  }

  /** Every blob directory of the listing is kept, and every kept name is
      that of a blob directory, so it parses as a 16-bit id. */
  lemma {:induction false} FilterBlobDirMembers(files: seq<FileInfo>)
    ensures forall i :: 0 <= i < |files| && IsBlobDir(files[i]) ==> files[i].name in FilterBlobDir(files)
    ensures forall n :: n in FilterBlobDir(files) ==>
      exists i :: 0 <= i < |files| && IsBlobDir(files[i]) && files[i].name == n
    ensures forall n :: n in FilterBlobDir(files) ==> ParseUint16(n).Some?
    decreases |files|
  {
    if files != [] {
      var init := files[..|files| - 1];
      FilterBlobDirMembers(init);
      assert forall i :: 0 <= i < |init| ==> init[i] == files[i];
    }
  }

  /** Filtering a listing made of two parts filters each part and keeps them
      in order: no entry is moved or repeated. */
  lemma {:induction false} FilterBlobDirAppend(a: seq<FileInfo>, b: seq<FileInfo>)
    ensures FilterBlobDir(a + b) == FilterBlobDir(a) + FilterBlobDir(b)
    decreases |b|
  {
    if b != [] {
      FilterBlobDirAppend(a, b[..|b| - 1]);
      assert (a + b)[..|a + b| - 1] == a + b[..|b| - 1];
    } else {
      assert a + b == a;
    }
  }

  /** A single entry is kept exactly when it is a blob directory. */
  lemma FilterBlobDirOne(f: FileInfo)
    ensures FilterBlobDir([f]) == if IsBlobDir(f) then [f.name] else []
  {
    assert [f][..0] == [];
  }

  /** The directory `cleanUp` removes for a blob, `Itoa(id)`, is one that
      `FilterBlobDir` keeps. */
  lemma BlobDirIsKept(id: nat)
    requires id <= MaxUint16
    ensures FilterBlobDir([FileInfo(Itoa(id), true)]) == [Itoa(id)]
  {
    FilterBlobDirOne(FileInfo(Itoa(id), true));
  }

  /** `filepath.Join(base, name)` for a plain name (path cleaning is not
      modelled). */
  function JoinPath(base: string, name: string): (path: string)
    ensures base == "" ==> path == name
    ensures base != "" ==> |path| == |base| + 1 + |name| && path[..|base|] == base && path[|base|] == '/'
    ensures |name| <= |path| && path[|path| - |name|..] == name
  {
    if base == "" then name else base + "/" + name
  }

  /** `FindBlobStateFile`: the path of the first entry called
      `stateFileName`, or "" when there is none. */
  function FindBlobStateFile(basePath: string, files: seq<FileInfo>, stateFileName: string): (path: string)
    ensures (exists i :: 0 <= i < |files| && files[i].name == stateFileName) ==> path == JoinPath(basePath, stateFileName)
    ensures (forall i :: 0 <= i < |files| ==> files[i].name != stateFileName) ==> path == ""
  {
    if files == [] then ""
    else if files[0].name == stateFileName then JoinPath(basePath, files[0].name)
    else
      var r := FindBlobStateFile(basePath, files[1..], stateFileName);
      assert forall i :: 1 <= i < |files| ==> files[i] == files[1..][i - 1];
      r
  }

  /** With a non-empty file name, the search yields "" exactly when no entry
      has that name. */
  lemma FindBlobStateFileEmpty(basePath: string, files: seq<FileInfo>, stateFileName: string)
    requires stateFileName != ""
    ensures FindBlobStateFile(basePath, files, stateFileName) == ""
        <==> forall i :: 0 <= i < |files| ==> files[i].name != stateFileName
  {
  }

  // ---------------------------------------------------------------------
  // Reading the state line

  /** Position of the first newline. */
  function NextNewline(s: string): (r: Option<nat>)
    ensures r.Some? ==> r.value < |s| && s[r.value] == '\n' && '\n' !in s[..r.value]
    ensures r.None? ==> '\n' !in s
  {
    if s == [] then None
    else if s[0] == '\n' then Some(0)
    else match NextNewline(s[1..])
      case None => None
      case Some(j) =>
        assert s[..j + 1] == [s[0]] + s[1..][..j];
        Some(j + 1)
  }

  /** The complete lines of `s`, each with its newline, as successive
      `ReadString('\n')` calls return them before end of file. A final piece
      without a newline is not a complete line. */
  function Lines(s: string): (ls: seq<string>)
    decreases |s|
  {
    match NextNewline(s)
    case None => []
    case Some(j) => [s[..j + 1]] + Lines(s[j + 1..])
  }

  /** Each complete line ends with its newline and holds no other. */
  lemma {:induction false} LinesComplete(s: string)
    ensures forall k :: 0 <= k < |Lines(s)| ==>
      |Lines(s)[k]| > 0 && Lines(s)[k][|Lines(s)[k]| - 1] == '\n' && '\n' !in Lines(s)[k][..|Lines(s)[k]| - 1]
    decreases |s|
  {
    match NextNewline(s)
    case None =>
    case Some(j) =>
      var rest := s[j + 1..];
      LinesComplete(rest);
      var line := s[..j + 1];
      assert line[..|line| - 1] == s[..j];
      assert Lines(s) == [line] + Lines(rest);
  }

  /** The complete lines, put back together, are a prefix of `s`, and what
      remains holds no newline. */
  lemma {:induction false} LinesCoverPrefix(s: string)
    ensures Join(Lines(s), "") <= s
    ensures '\n' !in s[|Join(Lines(s), "")|..]
    decreases |s|
  {
    match NextNewline(s)
    case None =>
    case Some(j) =>
      var rest := s[j + 1..];
      LinesCoverPrefix(rest);
      assert Lines(s) == [s[..j + 1]] + Lines(rest);
      assert Join(Lines(s), "") == s[..j + 1] + Join(Lines(rest), "");
      assert s == s[..j + 1] + rest;
  }

  /** Index of the first line containing `prefix`. */
  function FirstMatch(ls: seq<string>, prefix: string): (r: Option<nat>)
    ensures r.Some? ==> r.value < |ls| && Contains(ls[r.value], prefix)
                        && forall k :: 0 <= k < r.value ==> !Contains(ls[k], prefix)
    ensures r.None? ==> forall k :: 0 <= k < |ls| ==> !Contains(ls[k], prefix)
  {
    if ls == [] then None
    else if Contains(ls[0], prefix) then Some(0)
    else match FirstMatch(ls[1..], prefix)
      case None => None
      case Some(j) => Some(j + 1)
  }

  /** The line `ReadStateFile` returns for a file with content `content`. */
  function StateLine(content: string, prefix: string): string
  {
    var ls := Lines(content);
    match FirstMatch(ls, prefix)
    case None => ""
    case Some(k) => ls[k]
  }

  /** What the state line is: "" exactly when no complete line contains the
      prefix; otherwise the first complete line containing it, newline
      included. */
  lemma StateLineIsFirstMatchingLine(content: string, prefix: string)
    ensures StateLine(content, prefix) == ""
        <==> forall k :: 0 <= k < |Lines(content)| ==> !Contains(Lines(content)[k], prefix)
    ensures StateLine(content, prefix) != "" ==>
      exists k :: 0 <= k < |Lines(content)| && Lines(content)[k] == StateLine(content, prefix)
        && Contains(Lines(content)[k], prefix)
        && forall j :: 0 <= j < k ==> !Contains(Lines(content)[j], prefix)
  {
    var ls := Lines(content);
    var m := FirstMatch(ls, prefix);
    LinesComplete(content);
    if m.Some? {
      assert StateLine(content, prefix) == ls[m.value];
      assert |ls[m.value]| > 0;
      assert Contains(ls[m.value], prefix);
      assert Lines(content)[m.value] == ls[m.value];
    }
  }

  /** A file without any newline yields "", whatever it contains. */
  lemma UnterminatedLineIgnored(content: string, prefix: string)
    requires '\n' !in content
    ensures StateLine(content, prefix) == ""
  {
  }

  /** One `ReadString('\n')` step: at end of file the state line is "";
      a complete line containing the prefix is the state line; any other
      complete line can be skipped. */
  lemma StateLineStep(content: string, prefix: string)
    ensures NextNewline(content).None? ==> StateLine(content, prefix) == ""
    ensures NextNewline(content).Some? ==>
      var j := NextNewline(content).value;
      if Contains(content[..j + 1], prefix) then StateLine(content, prefix) == content[..j + 1]
      else StateLine(content, prefix) == StateLine(content[j + 1..], prefix)
  {
    match NextNewline(content)
    case None =>
    case Some(j) =>
      var ls := Lines(content);
      assert ls == [content[..j + 1]] + Lines(content[j + 1..]);
      assert ls[1..] == Lines(content[j + 1..]);
  }

  /** Why reading the state file failed. */
  datatype IoError = OpenFailed(path: string)

  /** `ReadStateFile`: opens the file at `path` in the directory map `files`
      and reads it line by line; returns the first complete line containing
      `prefix`, or "" without error at end of file. */
  method ReadStateFile(path: string, files: map<string, string>, prefix: string) returns (r: Result<string, IoError>)
    ensures path !in files ==> r == Err(OpenFailed(path))
    ensures path in files ==> r == Ok(StateLine(files[path], prefix))
  {
    if path !in files {
      return Err(OpenFailed(path));
    }
    var rest := files[path];
    while true
      invariant StateLine(files[path], prefix) == StateLine(rest, prefix)
      decreases |rest|
    {
      StateLineStep(rest, prefix);
      var nl := NextNewline(rest);
      if nl.None? {
        return Ok("");
      }
      var line := rest[..nl.value + 1];
      if Contains(line, prefix) {
        return Ok(line);
      }
      rest := rest[nl.value + 1..];
    }
  }

  // ---------------------------------------------------------------------
  // The state line, end to end

  /** A state file whose first line is `prefix + version + ":" + enc` yields
      that line from `ReadStateFile`, and `ParseBlob` hands `enc` plus the
      line's newline to the decoder; so whenever the decoder inverts the
      encoder on such input (a base64 decoder skips newlines), the blob comes
      back unchanged. */
  lemma {:induction false} StateFileRoundTrip<T>(prefix: string, version: string, enc: string, rest: string,
                                                 decode: string -> Option<T>, b: T)
    requires ':' !in prefix + version && ':' !in enc
    requires '\n' !in prefix + version + enc
    requires decode(enc + "\n") == Some(b)
    ensures var line := prefix + version + ":" + enc + "\n";
      && StateLine(line + rest, prefix) == line
      && Blobs.ParseBlob(StateLine(line + rest, prefix), decode) == Ok(b)
  {
    var line := prefix + version + ":" + enc + "\n";
    var content := line + rest;
    var head := prefix + version + ":" + enc;
    assert line == head + "\n";
    assert '\n' !in head by {
      assert head == (prefix + version) + ":" + enc;
      assert forall c :: c in head ==> c in prefix + version + enc || c == ':';
    }
    assert content[..|head|] == head && content[|head|] == '\n';
    assert NextNewline(content) == Some(|head|) by {
      NextNewlineAt(content, |head|);
    }
    assert content[..|head| + 1] == line;
    assert Contains(line, prefix) by {
      assert prefix <= line;
    }
    assert Lines(content)[0] == line;
    assert FirstMatch(Lines(content), prefix) == Some(0);
    assert line == (prefix + version) + [':'] + (enc + "\n");
    Blobs.ParseBlobHandsPayload(prefix + version, enc + "\n", decode);
  }

  /** The first newline is at `j` when `s[j]` is a newline and none comes
      before it. */
  lemma {:induction false} NextNewlineAt(s: string, j: nat)
    requires j < |s| && s[j] == '\n' && '\n' !in s[..j]
    ensures NextNewline(s) == Some(j)
  {
    if j > 0 {
      assert s[0] in s[..j];
      assert s[1..][..j - 1] == s[1..j];
      assert forall c :: c in s[1..j] ==> c in s[..j];
      NextNewlineAt(s[1..], j - 1);
    }
  }
}
