/**
 * The string arithmetic of the jar URL connection and what resolving a URL
 * yields, as functions: finding `!/`, cutting the part of the URL below the
 * root jar, the container URL, the descent through nested jars, the connect
 * step and the advisory accessors. Module JarConnections is proved to follow
 * these; the lemmas here state what they guarantee.
 */
module JarUrlSpecs {

  import opened Failures
  import opened UrlEncoding
  import opened EntryNameCodec
  import opened Archives

  /** A URL, reduced to what the resolver reads of it: `getFile()`. */
  datatype Url = Url(file: string)

  /** The permission object: `new FilePermission(path, actions)`. */
  datatype Permission = FilePermission(path: string, actions: string)

  // ---------------------------------------------------------------------------
  // String operations

  /** The separator `!/` starts at `k`. */
  predicate IsSeparatorAt(s: string, k: int)
  {
    0 <= k && k + 1 < |s| && s[k] == '!' && s[k + 1] == '/'
  }

  predicate NoSeparator(s: string)
  {
    forall k :: 0 <= k < |s| ==> !IsSeparatorAt(s, k)
  }

  /** `s.indexOf("!/", from)`: the first separator at or after `from`, or -1. */
  function IndexOfSeparator(s: string, from: nat): (p: int)
    requires from <= |s|
    ensures p == -1 || (from <= p && IsSeparatorAt(s, p))
    decreases |s| - from
  {
    if from + 1 >= |s| then -1
    else if s[from] == '!' && s[from + 1] == '/' then from
    else IndexOfSeparator(s, from + 1)
  }

  /** The separator found is the first from `from` on; when none is found there is none at all. */
  lemma {:induction false} IndexOfSeparatorFirst(s: string, from: nat)
    requires from <= |s|
    ensures var p := IndexOfSeparator(s, from);
            forall k :: from <= k && (p == -1 || k < p) ==> !IsSeparatorAt(s, k)
    decreases |s| - from
  {
    if from + 1 < |s| && !(s[from] == '!' && s[from + 1] == '/') {
      IndexOfSeparatorFirst(s, from + 1);
    }
  }

  /** `s.startsWith(prefix, offset)`. */
  predicate StartsWithAt(s: string, prefix: string, offset: int)
  {
    0 <= offset && offset + |prefix| <= |s| && s[offset..offset + |prefix|] == prefix
  }

  /** `s.endsWith(suffix)`. */
  predicate EndsWith(s: string, suffix: string)
  {
    |suffix| <= |s| && s[|s| - |suffix|..] == suffix
  }

  /**
   * `extractFullSpec(url, pathFromRoot)`: null when the URL's file has no `!/`
   * or the jar's path from the root does not start at the first one; otherwise
   * what follows that path and one more separator. `substring` raises when the
   * path ends the file or is followed by a single character.
   */
  function ExtractFullSpec(url: Url, pathFromRoot: string): (r: Result<Option<string>>)
    ensures r.Ok? && r.value.Some? ==>
              var sep := IndexOfSeparator(url.file, 0);
              sep >= 0 && StartsWithAt(url.file, pathFromRoot, sep)
              && sep + 2 + |pathFromRoot| <= |url.file|
              && url.file == url.file[..sep + 2 + |pathFromRoot|] + r.value.value
    ensures r == Ok(None) <==>
              IndexOfSeparator(url.file, 0) < 0 || !StartsWithAt(url.file, pathFromRoot, IndexOfSeparator(url.file, 0))
  {
    var file := url.file;
    var separatorIndex := IndexOfSeparator(file, 0);
    if separatorIndex < 0 || !StartsWithAt(file, pathFromRoot, separatorIndex) then Ok(None)
    else
      var specIndex := separatorIndex + 2 + |pathFromRoot|;
      if specIndex > |file| then Err(IndexOutOfBounds(specIndex, |file|))
      else Ok(Some(file[specIndex..]))
  }

  /**
   * `buildJarFileUrl()` on the jar's URL file: one trailing `!/` is dropped, and
   * the result gets the `jar:` scheme exactly when another `!/` remains.
   */
  function BuildJarFileUrl(urlFile: string): (u: string)
  {
    var spec := if EndsWith(urlFile, "!/") then urlFile[..|urlFile| - 2] else urlFile;
    if IndexOfSeparator(spec, 0) == -1 then spec else "jar:" + spec
  }

  // ---------------------------------------------------------------------------
  // The fast-exceptions flag

  /** `Boolean.TRUE.equals(useFastExceptions.get())`: only a flag set to true selects fast mode. */
  predicate UseFastExceptions(flag: Option<bool>)
  {
    flag == Some(true)
  }

  /** `setUseFastExceptions(value)`: the flag afterwards. */
  function SetUseFastExceptions(value: bool): (flag: Option<bool>)
    ensures UseFastExceptions(flag) == value
    ensures flag.Some?
  {
    Some(value)
  }

  /** `throwFileNotFound(entry, jarFile)`: the shared exception in fast mode, else one naming both. */
  function FileNotFound(fast: bool, entry: string, jarFile: JarFile): (f: Failure)
    ensures fast <==> f == SharedFileNotFound
    ensures !fast ==> f.Message() == Some("JAR entry " + entry + " not found in " + jarFile.name)
  {
    if fast then SharedFileNotFound else EntryNotFound(entry, jarFile.name)
  }

  // ---------------------------------------------------------------------------
  // Resolution

  /**
   * `JarEntryName.get(spec, beginIndex)`: the empty name past the end, else the
   * decoded rest. A rest without '%' is the name as it stands; only a rest with
   * a '%' can fail, and then with the malformed-escape exception.
   */
  function EntryNameOf(p: Platform, spec: string, beginIndex: nat): (r: Result<string>)
    ensures |spec| <= beginIndex ==> r == Ok([])
    ensures |spec| > beginIndex && '%' !in spec[beginIndex..] ==> r == Ok(spec[beginIndex..])
    ensures r.Err? ==> |spec| > beginIndex && '%' in spec[beginIndex..] && r.failure.InvalidEncodedSequence?
    ensures r == Ok([]) ==> |spec| <= beginIndex || '%' in spec[beginIndex..]
  {
    if |spec| <= beginIndex then Ok([]) else DecodedName(p, spec[beginIndex..])
  }

  /** What `get(url, jarFile)` returns. */
  datatype Resolution =
      /** the shared NOT_FOUND_CONNECTION */
    | NotFoundConnection
      /** a new connection with this URL, jar file (null when None) and entry name */
    | Connection(url: Option<Url>, jarFile: Option<JarFile>, entryName: string)
      /** the exception raised instead */
    | Raised(failure: Failure)

  /** `notFound(jarFile, name)`. */
  function NotFound(fast: bool, jarFile: Option<JarFile>, name: string): Resolution
  {
    if fast then NotFoundConnection else Connection(None, jarFile, name)
  }

  /** The last step of `get`: in fast mode a named entry must already be present. */
  function Terminal(fast: bool, url: Url, current: JarFile, name: string): Resolution
  {
    if fast && name != [] && !ContainsEntry(current, name) then NotFoundConnection
    else Connection(Some(url), Some(current), name)
  }

  /**
   * The loop of `get` from `index` on, `current` being the jar reached so far:
   * while a separator lies at a position above 0, the segment before it names
   * an entry of `current` whose nested jar is the next level.
   */
  function Descend(p: Platform, fast: bool, url: Url, current: JarFile, spec: string, index: nat): Resolution
    requires index <= |spec|
    decreases |spec| - index
  {
    var separator := IndexOfSeparator(spec, index);
    if separator > 0 then
      match EntryNameOf(p, spec[index..separator], 0)
      case Err(f) => Raised(f)
      case Ok(name) =>
        if GetEntry(current, name).None? then NotFound(fast, Some(current), name)
        else
          match GetNestedJarFile(current, name)
          case Err(f) => Raised(f)
          case Ok(next) => Descend(p, fast, url, next, spec, separator + 2)
    else
      match EntryNameOf(p, spec, index)
      case Err(f) => Raised(f)
      case Ok(name) => Terminal(fast, url, current, name)
  }

  /** `get(url, jarFile)` under the thread's flag. */
  function Resolve(p: Platform, flag: Option<bool>, url: Url, root: JarFile): Resolution
  {
    var fast := UseFastExceptions(flag);
    match ExtractFullSpec(url, root.pathFromRoot)
    case Err(f) => Raised(f)
    case Ok(None) => if fast then NotFoundConnection else Connection(Some(url), None, [])
    case Ok(Some(spec)) => Descend(p, fast, url, root, spec, 0)
  }

  // ---------------------------------------------------------------------------
  // A reference for the descent: walking a list of entry names

  /** The segments written out, each followed by `!/`. */
  function JoinedPath(path: seq<string>): string
  {
    if path == [] then [] else path[0] + "!/" + JoinedPath(path[1..])
  }

  /** A segment that needs no decoding and holds no separator. */
  predicate PlainSegment(s: string)
  {
    s != [] && NoSeparator(s) && '%' !in s
  }

  /** Look each name up in the current level and step into its nested jar, left to right. */
  function Walk(fast: bool, url: Url, current: JarFile, path: seq<string>, terminal: string): Resolution
    decreases |path|
  {
    if path == [] then Terminal(fast, url, current, terminal)
    else if path[0] !in current.entries then NotFound(fast, Some(current), path[0])
    else if path[0] !in current.nested then Raised(NestedJarUnavailable(path[0]))
    else Walk(fast, url, current.nested[path[0]], path[1..], terminal)
  }

  // ---------------------------------------------------------------------------
  // The connect step

  /** What `connect()` reads and writes: the cached entry is held by its record. */
  datatype ConnectionState = ConnectionState(
    jarFile: Option<JarFile>,
    entryName: string,
    entry: Option<CentralDirectoryFileHeader>,
    connected: bool,
    lookups: nat)

  /** Connecting succeeds exactly when there is a jar file and the name is empty, cached or present. */
  predicate CanConnect(jarFile: Option<JarFile>, name: string, cached: bool)
  {
    jarFile.Some? && (name == [] || cached || name in jarFile.value.entries)
  }

  /**
   * `connect()`: fails with the shared exception without a jar file; looks the
   * entry up only for a non-empty name with nothing cached; sets `connected`
   * only on success, and a failure changes nothing but the lookup count.
   */
  function Connect(s: ConnectionState, fast: bool): (r: (ConnectionState, Outcome))
    ensures r.1.Pass? <==> CanConnect(s.jarFile, s.entryName, s.entry.Some?)
    ensures r.1.Pass? ==> r.0.connected && r.0.jarFile == s.jarFile && r.0.entryName == s.entryName
    ensures r.1.Pass? && s.entryName != [] && s.entry.None? ==> r.0.entry == Some(s.jarFile.value.entries[s.entryName])
    ensures s.entry.Some? || s.entryName == [] ==> r.0.entry == s.entry
    ensures r.1.Fail? ==> r.0 == s.(lookups := r.0.lookups)
    ensures s.jarFile.None? ==> r.1 == Fail(SharedFileNotFound)
    ensures s.jarFile.Some? && r.1.Fail? ==> r.1.failure == FileNotFound(fast, s.entryName, s.jarFile.value)
    ensures r.0.lookups == s.lookups + (if s.jarFile.Some? && s.entryName != [] && s.entry.None? then 1 else 0)
  {
    if s.jarFile.None? then (s, Fail(SharedFileNotFound))
    else if s.entryName != [] && s.entry.None? then
      var found := GetEntry(s.jarFile.value, s.entryName);
      var looked := s.(lookups := s.lookups + 1);
      if found.None? then (looked, Fail(FileNotFound(fast, s.entryName, s.jarFile.value)))
      else (looked.(entry := found, connected := true), Pass)
    else (s.(connected := true), Pass)
  }

  /**
   * What `getInputStream()` hands out: the nested jar's own bytes (read once)
   * for the empty name, else the stream of the connected entry.
   */
  datatype InputStream =
    | ArchiveData(jarFile: JarFile)
    | EntryData(jarFile: JarFile, entryName: string)

  /**
   * `getInputStream()`: without a jar file the shared exception; the empty
   * name on a direct jar file names nothing to read; otherwise it connects
   * and opens the jar's data or the connected entry.
   */
  function OpenStream(s: ConnectionState, fast: bool): (r: (ConnectionState, Result<InputStream>))
    ensures s.jarFile.None? ==> r == (s, Err(SharedFileNotFound))
    ensures s.jarFile.Some? && s.entryName == [] && s.jarFile.value.kind == Direct ==>
              r == (s, Err(NoEntryNameSpecified))
    ensures r.1.Ok? <==> CanConnect(s.jarFile, s.entryName, s.entry.Some?)
                         && !(s.entryName == [] && s.jarFile.value.kind == Direct)
    ensures r.1.Ok? ==> r.0 == Connect(s, fast).0
    ensures r.1.Ok? && s.entryName == [] ==> r.1.value == ArchiveData(s.jarFile.value)
    ensures r.1.Ok? && s.entryName != [] ==> r.1.value == EntryData(s.jarFile.value, s.entryName)
  {
    if s.jarFile.None? then (s, Err(SharedFileNotFound))
    else if s.entryName == [] && s.jarFile.value.kind == Direct then (s, Err(NoEntryNameSpecified))
    else
      var (t, o) := Connect(s, fast);
      if o.Fail? then (t, Err(o.failure))
      else if s.entryName == [] then (t, Ok(ArchiveData(s.jarFile.value)))
      else (t, Ok(EntryData(s.jarFile.value, s.entryName)))
  }

  /** The state of a connection `get` has just made. */
  function Fresh(jarFile: Option<JarFile>, entryName: string): ConnectionState
  {
    ConnectionState(jarFile, entryName, None, false, 0)
  }

  // ---------------------------------------------------------------------------
  // The advisory accessors

  /** Java's `(int)` cast of a `long`: the low 32 bits as a signed number. */
  function ToInt(x: int): (r: int)
    ensures IsInt(r)
    ensures IsInt(x) ==> r == x
    ensures (x - r) % 0x1_0000_0000 == 0
  {
    var m := x % 0x1_0000_0000;
    if m > IntMax then m - 0x1_0000_0000 else m
  }

  /** `getContentLength()` from the long value: -1 above Integer.MAX_VALUE, else the cast. */
  function ContentLength(length: int): (n: int)
    ensures IsInt(n)
    ensures length > IntMax ==> n == -1
    ensures IntMin <= length <= IntMax ==> n == length
  {
    if length > IntMax then -1 else ToInt(length)
  }

  /**
   * `getContentLengthLong()`: -1 without a jar file, the jar's size for the
   * empty name, the entry's size cut to an `int` when it is found, else -1.
   */
  function ContentLengthLong(jarFile: Option<JarFile>, name: string): (n: int)
    ensures jarFile.None? ==> n == -1
    ensures jarFile.Some? && name == [] ==> n == jarFile.value.size
    ensures jarFile.Some? && name != [] && name !in jarFile.value.entries ==> n == -1
    ensures jarFile.Some? && name != [] && name in jarFile.value.entries ==>
              IsInt(n) && (jarFile.value.entries[name].size - n) % 0x1_0000_0000 == 0
  {
    if jarFile.None? then -1
    else if name == [] then jarFile.value.size
    else if name in jarFile.value.entries then ToInt(jarFile.value.entries[name].size)
    else -1
  }

  /** `getLastModified()`: 0 without a jar file, for the empty name or a missing entry; else its time. */
  function LastModified(jarFile: Option<JarFile>, name: string): (t: int)
    ensures jarFile.None? || name == [] ==> t == 0
    ensures jarFile.Some? && name != [] && name !in jarFile.value.entries ==> t == 0
    ensures jarFile.Some? && name != [] && name in jarFile.value.entries ==> t == jarFile.value.entries[name].time
  {
    if jarFile.None? || name == [] then 0
    else if name in jarFile.value.entries then jarFile.value.entries[name].time
    else 0
  }

  /** `getPermission()`'s value: read access to the root jar's file, whatever the nesting. */
  function PermissionFor(j: JarFile): Permission
  {
    FilePermission(j.rootFilePath, "read")
  }
}
