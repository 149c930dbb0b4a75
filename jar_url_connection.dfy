/**
 * The jar URL connection as objects: the decoded entry name with its cached
 * content type, the shared constants made once when the class is loaded, and
 * the connection with its lazily filled fields. Every method is proved to
 * follow the functions of JarUrlSpecs and EntryNameCodec.
 */
module JarConnections {

  import opened Failures
  import opened UrlEncoding
  import opened EntryNameCodec
  import opened Archives
  import opened JarEntries
  import opened JarUrlSpecs

  /** The byte buffer `write` appends to. */
  class ByteArrayOutputStream {
    var bytes: seq<Byte>

    constructor ()
      ensures bytes == []
    {
      bytes := [];
    }

    /** `write(int)`: appends one byte. */
    method Write(b: Byte)
      modifies this
      ensures bytes == old(bytes) + [b]
    {
      bytes := bytes + [b];
    }
  }

  /** `JarURLConnection.JarEntryName`: a decoded name and the content type computed for it at most once. */
  class JarEntryName {
    const platform: Platform
    const name: string
    var contentType: Option<string>

    /** A cached content type is the one the name deduces. */
    ghost predicate Valid()
      reads this
    {
      contentType.Some? ==> contentType.value == DeducedContentType(platform, name)
    }

    /** A name whose decoding is done; no content type is cached yet. */
    constructor FromDecoded(platform: Platform, name: string)
      ensures this.platform == platform && this.name == name && contentType.None?
      ensures Valid()
    {
      this.platform := platform;
      this.name := name;
      contentType := None;
    }

    /**
     * `JarEntryName(spec)`: decodes the spec, and raises the decoder's
     * exception instead of making a name when the spec is malformed.
     */
    static method Create(p: Platform, spec: string) returns (r: Result<JarEntryName>)
      ensures r.Ok? <==> DecodedName(p, spec).Ok?
      ensures r.Err? ==> r.failure == DecodedName(p, spec).failure
      ensures r.Ok? ==>
                fresh(r.value) && r.value.Valid() && r.value.contentType.None?
                && r.value.platform == p && r.value.name == DecodedName(p, spec).value
    {
      var decoded := Decode(p, spec);
      if decoded.Err? {
        r := Err(decoded.failure);
      } else {
        var n := new JarEntryName.FromDecoded(p, decoded.value);
        r := Ok(n);
      }
    }

    /**
     * `decode(source)`: the source itself when it is empty or holds no '%',
     * else the bytes `write` collects, as text.
     */
    static method Decode(p: Platform, source: string) returns (r: Result<string>)
      ensures r == DecodedName(p, source)
    {
      if source == [] || '%' !in source {
        return Ok(source);
      }
      var bos := new ByteArrayOutputStream();
      var o := Write(source, bos);
      if o.Fail? {
        r := Err(o.failure);
      } else {
        assert [] + Decoded(source).value == Decoded(source).value;
        r := Ok(p.asciiBytesToString(bos.bytes));
      }
    }

    /**
     * `write(source, outputStream)`: appends the bytes of the source, read
     * left to right, or stops with the decoder's exception. A character above
     * 127 is URL-encoded and the encoding is written in its place.
     */
    static method Write(source: string, output: ByteArrayOutputStream) returns (o: Outcome)
      modifies output
      ensures Prepend(old(output.bytes), Decoded(source)) == if o.Pass? then Ok(output.bytes) else Err(o.failure)
      decreases if IsAscii(source) then 0 else 1
    {
      ghost var start := output.bytes;
      var length := |source|;
      var i := 0;
      assert source[0..] == source;
      while i < length
        invariant 0 <= i <= length
        invariant Prepend(start, Decoded(source)) == Prepend(output.bytes, Decoded(source[i..]))
        decreases length - i
      {
        var c := source[i];
        DecodedAt(source, i);
        if c as int > 127 {
          assert !IsAsciiChar(source[i]);
          var encoded := UrlEncodeChar(c);
          DecodedUrlEncodedChar(c);
          ghost var before := output.bytes;
          var sub := Write(encoded, output);
          assert output.bytes == before + JavaUnitBytes(c);
          PrependPrepend(before, JavaUnitBytes(c), Decoded(source[i + 1..]));
        } else {
          var b: Byte := c as int as Byte;
          if c == '%' {
            if i + 2 >= length {
              return Fail(InvalidEncodedSequence(source[i..]));
            }
            var d := DecodeEscapeSequence(source, i);
            if d.Err? {
              return Fail(d.failure);
            }
            b := d.value;
            i := i + 2;
          }
          ghost var before := output.bytes;
          output.Write(b);
          PrependPrepend(before, [b], Decoded(source[i + 1..]));
        }
        i := i + 1;
      }
      assert source[i..] == [] && output.bytes + [] == output.bytes;
      o := Pass;
    }

    /**
     * `get(spec, beginIndex)`: the shared empty name when nothing is left,
     * else a new name for the decoded rest.
     */
    static method Get(statics: Statics, spec: string, beginIndex: nat) returns (r: Result<JarEntryName>)
      requires statics.Valid()
      ensures |spec| <= beginIndex ==> r == Ok(statics.emptyJarEntryName)
      ensures r.Ok? <==> EntryNameOf(statics.platform, spec, beginIndex).Ok?
      ensures r.Err? ==> r.failure == EntryNameOf(statics.platform, spec, beginIndex).failure
      ensures r.Ok? ==>
                r.value.platform == statics.platform && r.value.Valid()
                && r.value.name == EntryNameOf(statics.platform, spec, beginIndex).value
      ensures |spec| > beginIndex && r.Ok? ==> fresh(r.value) && r.value.contentType.None?
    {
      if |spec| <= beginIndex {
        return Ok(statics.emptyJarEntryName);
      }
      r := Create(statics.platform, spec[beginIndex..]);
    }

    /** `getContentType()`: deduced on the first call, then the cached value. */
    method GetContentType() returns (t: string)
      requires Valid()
      modifies this`contentType
      ensures Valid() && contentType == Some(t)
      ensures t == DeducedContentType(platform, name)
      ensures old(contentType).Some? ==> contentType == old(contentType)
    {
      if contentType.None? {
        contentType := Some(DeducedContentType(platform, name));
      }
      t := contentType.value;
    }
  }

  /** The class's shared constants, made once: the empty name and the not-found connection. */
  class Statics {
    const platform: Platform
    const emptyJarEntryName: JarEntryName
    const notFoundConnection: JarURLConnection

    /**
     * The empty name is empty; the not-found connection has no URL, no jar
     * file and no name, and was made before any flag was set, so by the
     * detailed path of `notFound(null, null)`.
     */
    ghost predicate Valid()
      reads this, emptyJarEntryName, notFoundConnection, notFoundConnection.jarEntry
    {
      && emptyJarEntryName.name == [] && emptyJarEntryName.platform == platform && emptyJarEntryName.Valid()
      && notFoundConnection.url.None? && notFoundConnection.jarFile.None?
      && notFoundConnection.jarEntryName == null
      && notFoundConnection.Valid()
    }

    constructor (p: Platform)
      ensures platform == p && Valid()
      ensures emptyJarEntryName.contentType.None? && !notFoundConnection.connected
    {
      platform := p;
      emptyJarEntryName := new JarEntryName.FromDecoded(p, []);
      notFoundConnection := new JarURLConnection(None, None, null);
    }
  }

  /** What `getContent()` returns: the jar file itself for the empty name, else the content handler's object. */
  datatype Content = JarFileContent(jarFile: JarFile) | HandlerContent(entryName: string)

  class JarURLConnection {
    const url: Option<Url>
    const jarFile: Option<JarFile>
    const jarEntryName: JarEntryName?
    var permission: Option<Permission>
    var jarFileUrl: Option<string>
    var jarEntry: JarEntry?
    var connected: bool
    /** How many times `connect()` has looked the entry up. */
    ghost var lookups: nat

    /** A connection with a jar file has a name; jarFile and name are fixed at construction. */
    predicate Wired()
    {
      jarFile.Some? ==> jarEntryName != null
    }

    /** The name, with null read as the empty name (only the jar-less not-found connection has none). */
    function EntryName(): string
    {
      if jarEntryName == null then [] else jarEntryName.name
    }

    /**
     * The caches hold what they stand for: the looked-up entry is the record
     * of the non-empty name, `connected` means connecting succeeded, the
     * permission and the container URL are those of the jar file.
     */
    ghost predicate Valid()
      reads this, jarEntryName, jarEntry
    {
      && Wired()
      && (jarEntryName != null ==> jarEntryName.Valid())
      && (jarEntry != null ==>
            && jarFile.Some? && EntryName() != [] && EntryName() in jarFile.value.entries
            && jarEntry.jarFile == jarFile.value && jarEntry.header == jarFile.value.entries[EntryName()]
            && jarEntry.Valid())
      && (connected ==> jarFile.Some? && (EntryName() == [] || jarEntry != null))
      && (permission.Some? ==> jarFile.Some? && permission.value == PermissionFor(jarFile.value))
      && (jarFileUrl.Some? ==> jarFile.Some? && jarFileUrl.value == BuildJarFileUrl(jarFile.value.urlFile))
    }

    /** The part of the object `connect()` reads and writes. */
    ghost function State(): ConnectionState
      reads this
    {
      ConnectionState(jarFile, EntryName(), if jarEntry == null then None else Some(jarEntry.header), connected, lookups)
    }

    /** `JarURLConnection(url, jarFile, jarEntryName)`: nothing cached, not connected. */
    constructor (url: Option<Url>, jarFile: Option<JarFile>, jarEntryName: JarEntryName?)
      requires jarFile.Some? ==> jarEntryName != null
      requires jarEntryName != null ==> jarEntryName.Valid()
      ensures this.url == url && this.jarFile == jarFile && this.jarEntryName == jarEntryName
      ensures permission.None? && jarFileUrl.None? && jarEntry == null && !connected && lookups == 0
      ensures Valid()
    {
      this.url := url;
      this.jarFile := jarFile;
      this.jarEntryName := jarEntryName;
      permission := None;
      jarFileUrl := None;
      jarEntry := null;
      connected := false;
      lookups := 0;
    }

    /** `connect()`, under the thread's exception flag. */
    method Connect(flag: Option<bool>) returns (o: Outcome)
      requires Valid()
      modifies this`jarEntry, this`connected, this`lookups
      ensures Valid()
      ensures (State(), o) == JarUrlSpecs.Connect(old(State()), UseFastExceptions(flag))
      ensures jarEntry != old(jarEntry) ==> fresh(jarEntry)
    {
      if jarFile.None? {
        return Fail(SharedFileNotFound);
      }
      if EntryName() != [] && jarEntry == null {
        var name := GetEntryName();
        jarEntry := JarEntries.GetJarEntry(jarFile.value, name.value);
        lookups := lookups + 1;
        if jarEntry == null {
          return Fail(FileNotFound(UseFastExceptions(flag), EntryName(), jarFile.value));
        }
      }
      connected := true;
      o := Pass;
    }

    /** `getJarFile()`: the jar file once connecting succeeds. */
    method GetJarFile(flag: Option<bool>) returns (r: Result<JarFile>)
      requires Valid()
      modifies this`jarEntry, this`connected, this`lookups
      ensures Valid()
      ensures var (s, o) := JarUrlSpecs.Connect(old(State()), UseFastExceptions(flag));
              State() == s && (o.Fail? ==> r == Err(o.failure)) && (o.Pass? ==> r == Ok(jarFile.value))
      ensures jarEntry != old(jarEntry) ==> fresh(jarEntry)
    {
      var o := Connect(flag);
      if o.Fail? {
        return Err(o.failure);
      }
      r := Ok(jarFile.value);
    }

    /** `getJarFileURL()`: the container URL, built on the first call and cached. */
    method GetJarFileUrl() returns (r: Result<string>)
      requires Valid()
      modifies this`jarFileUrl
      ensures Valid()
      ensures jarFile.None? ==> r == Err(SharedNotFoundState) && jarFileUrl == old(jarFileUrl)
      ensures jarFile.Some? ==> r == Ok(BuildJarFileUrl(jarFile.value.urlFile)) && jarFileUrl == Some(r.value)
    {
      if jarFile.None? {
        return Err(SharedNotFoundState);
      }
      if jarFileUrl.None? {
        jarFileUrl := Some(BuildJarFileUrl(jarFile.value.urlFile));
      }
      r := Ok(jarFileUrl.value);
    }

    /** `getJarEntry()`: null for no name or the empty name; otherwise it connects and gives the entry. */
    method GetJarEntry(flag: Option<bool>) returns (r: Result<JarEntry?>)
      requires Valid()
      modifies this`jarEntry, this`connected, this`lookups
      ensures Valid()
      ensures EntryName() == [] ==> r == Ok(null) && State() == old(State())
      ensures EntryName() != [] ==>
                var (s, o) := JarUrlSpecs.Connect(old(State()), UseFastExceptions(flag));
                State() == s && (o.Fail? ==> r == Err(o.failure)) && (o.Pass? ==> r == Ok(jarEntry))
      ensures r.Ok? && r.value != null ==>
                jarFile.Some? && r.value.header == jarFile.value.entries[EntryName()] && r.value.CopiedFromHeader()
      ensures jarEntry != old(jarEntry) ==> fresh(jarEntry)
    {
      if jarEntryName == null || jarEntryName.name == [] {
        return Ok(null);
      }
      var o := Connect(flag);
      if o.Fail? {
        return Err(o.failure);
      }
      r := Ok(jarEntry);
    }

    /** `getEntryName()`: the decoded name, or the shared state exception without a jar file. */
    function GetEntryName(): (r: Result<string>)
      requires Wired()
      ensures r.Err? <==> jarFile.None?
      ensures r.Err? ==> r.failure == SharedNotFoundState
      ensures r.Ok? ==> r.value == jarEntryName.name
    {
      if jarFile.None? then Err(SharedNotFoundState) else Ok(jarEntryName.name)
    }

    /** `getInputStream()`: as OpenStream describes it. */
    method GetInputStream(flag: Option<bool>) returns (r: Result<InputStream>)
      requires Valid()
      modifies this`jarEntry, this`connected, this`lookups
      ensures Valid()
      ensures (State(), r) == OpenStream(old(State()), UseFastExceptions(flag))
      ensures jarEntry != old(jarEntry) ==> fresh(jarEntry)
    {
      if jarFile.None? {
        return Err(SharedFileNotFound);
      }
      if EntryName() == [] && jarFile.value.kind == Direct {
        return Err(NoEntryNameSpecified);
      }
      var o := Connect(flag);
      if o.Fail? {
        return Err(o.failure);
      }
      if EntryName() == [] {
        r := Ok(ArchiveData(jarFile.value));
      } else {
        r := Ok(EntryData(jarFile.value, EntryName()));
      }
    }

    /**
     * `getContentLengthLong()`: never raises; connects only for a non-empty
     * name, and reads a failed connect as -1.
     */
    method GetContentLengthLong(flag: Option<bool>) returns (n: int)
      requires Valid()
      modifies this`jarEntry, this`connected, this`lookups
      ensures Valid()
      ensures n == ContentLengthLong(jarFile, EntryName())
      ensures jarFile.None? || EntryName() == [] ==> State() == old(State())
      ensures jarFile.Some? && EntryName() != [] ==>
                State() == JarUrlSpecs.Connect(old(State()), UseFastExceptions(flag)).0
      ensures jarEntry != old(jarEntry) ==> fresh(jarEntry)
    {
      if jarFile.None? {
        return -1;
      }
      if EntryName() == [] {
        return jarFile.value.size;
      }
      var entry := GetJarEntry(flag);
      if entry.Err? || entry.value == null {
        return -1;
      }
      n := ToInt(entry.value.size);
    }

    /** `getContentLength()`: the long value, or -1 when it does not fit an `int`. */
    method GetContentLength(flag: Option<bool>) returns (n: int)
      requires Valid()
      modifies this`jarEntry, this`connected, this`lookups
      ensures Valid()
      ensures n == ContentLength(ContentLengthLong(jarFile, EntryName()))
      ensures jarFile.None? || EntryName() == [] ==> State() == old(State())
      ensures jarFile.Some? && EntryName() != [] ==>
                State() == JarUrlSpecs.Connect(old(State()), UseFastExceptions(flag)).0
      ensures jarEntry != old(jarEntry) ==> fresh(jarEntry)
    {
      var length := GetContentLengthLong(flag);
      if length > IntMax {
        return -1;
      }
      n := ToInt(length);
    }

    /** `getContent()`: connects, then the jar file for the empty name, else the content handler's object. */
    method GetContent(flag: Option<bool>) returns (r: Result<Content>)
      requires Valid()
      modifies this`jarEntry, this`connected, this`lookups
      ensures Valid()
      ensures var (s, o) := JarUrlSpecs.Connect(old(State()), UseFastExceptions(flag));
              && State() == s
              && (o.Fail? ==> r == Err(o.failure))
              && (o.Pass? && EntryName() == [] ==> r == Ok(JarFileContent(jarFile.value)))
              && (o.Pass? && EntryName() != [] ==> r == Ok(HandlerContent(EntryName())))
      ensures jarEntry != old(jarEntry) ==> fresh(jarEntry)
    {
      var o := Connect(flag);
      if o.Fail? {
        return Err(o.failure);
      }
      if EntryName() == [] {
        r := Ok(JarFileContent(jarFile.value));
      } else {
        r := Ok(HandlerContent(EntryName()));
      }
    }

    /** `getContentType()`: null without a name, else the name's cached content type. */
    method GetContentType() returns (t: Option<string>)
      requires Valid()
      modifies jarEntryName
      ensures Valid()
      ensures jarEntryName == null ==> t.None?
      ensures jarEntryName != null ==> t == Some(DeducedContentType(jarEntryName.platform, jarEntryName.name))
      ensures jarEntryName != null ==> jarEntryName.contentType == t
      ensures jarEntryName != null && old(jarEntryName.contentType).Some? ==>
                jarEntryName.contentType == old(jarEntryName.contentType)
    {
      if jarEntryName == null {
        return None;
      }
      var c := jarEntryName.GetContentType();
      t := Some(c);
    }

    /** `getPermission()`: read access to the root jar's file, made on the first call and cached. */
    method GetPermission() returns (r: Result<Permission>)
      requires Valid()
      modifies this`permission
      ensures Valid()
      ensures jarFile.None? ==> r == Err(SharedFileNotFound) && permission == old(permission)
      ensures jarFile.Some? ==> r == Ok(PermissionFor(jarFile.value)) && permission == Some(r.value)
    {
      if jarFile.None? {
        return Err(SharedFileNotFound);
      }
      if permission.None? {
        permission := Some(PermissionFor(jarFile.value));
      }
      r := Ok(permission.value);
    }

    /** `getLastModified()`: never raises; 0 unless a non-empty name's entry is found. */
    method GetLastModified(flag: Option<bool>) returns (t: int)
      requires Valid()
      modifies this`jarEntry, this`connected, this`lookups
      ensures Valid()
      ensures t == LastModified(jarFile, EntryName())
      ensures jarFile.None? || EntryName() == [] ==> State() == old(State())
      ensures jarFile.Some? && EntryName() != [] ==>
                State() == JarUrlSpecs.Connect(old(State()), UseFastExceptions(flag)).0
      ensures jarEntry != old(jarEntry) ==> fresh(jarEntry)
    {
      if jarFile.None? || EntryName() == [] {
        return 0;
      }
      var entry := GetJarEntry(flag);
      if entry.Err? || entry.value == null {
        return 0;
      }
      t := entry.value.time;
    }
  }

  /** `notFound(jarFile, jarEntryName)`: the shared connection in fast mode, else a new one without a URL. */
  method NotFound(statics: Statics, flag: Option<bool>, jarFile: Option<JarFile>, jarEntryName: JarEntryName?)
    returns (c: JarURLConnection)
    requires statics.Valid()
    requires jarFile.Some? ==> jarEntryName != null
    requires jarEntryName != null ==> jarEntryName.Valid()
    ensures UseFastExceptions(flag) ==> c == statics.notFoundConnection
    ensures !UseFastExceptions(flag) ==>
              fresh(c) && c.url.None? && c.jarFile == jarFile && c.jarEntryName == jarEntryName
              && c.Valid() && !c.connected
  {
    if UseFastExceptions(flag) {
      return statics.notFoundConnection;
    }
    c := new JarURLConnection(None, jarFile, jarEntryName);
  }

  /**
   * `get(url, jarFile)`: walks the nested jars the URL names below `root` and
   * returns what Resolve describes: the shared not-found connection exactly
   * where Resolve says so, else a new connection to the jar and name reached,
   * or the exception.
   */
  method Get(statics: Statics, flag: Option<bool>, url: Url, root: JarFile) returns (r: Result<JarURLConnection>)
    requires statics.Valid()
    ensures statics.Valid()
    ensures var res := Resolve(statics.platform, flag, url, root);
            && (r.Err? <==> res.Raised?)
            && (r.Err? ==> r.failure == res.failure)
            && (res.NotFoundConnection? ==> r == Ok(statics.notFoundConnection))
            && (res.Connection? ==>
                  && r.Ok? && fresh(r.value) && r.value.Valid() && !r.value.connected
                  && r.value.url == res.url && r.value.jarFile == res.jarFile
                  && r.value.jarEntryName != null && r.value.EntryName() == res.entryName)
  {
    var extracted := ExtractFullSpec(url, root.pathFromRoot);
    if extracted.Err? {
      return Err(extracted.failure);
    }
    if extracted.value.None? {
      if UseFastExceptions(flag) {
        return Ok(statics.notFoundConnection);
      }
      var c := new JarURLConnection(Some(url), None, statics.emptyJarEntryName);
      return Ok(c);
    }
    r := Descent(statics, flag, url, root, extracted.value.value);
  }

  /**
   * The loop of `get` over the spec after the jar's own path, from `root`
   * down: the result is what Descend describes from position 0.
   */
  method Descent(statics: Statics, flag: Option<bool>, url: Url, root: JarFile, spec: string)
    returns (r: Result<JarURLConnection>)
    requires statics.Valid()
    ensures statics.Valid()
    ensures var res := Descend(statics.platform, UseFastExceptions(flag), url, root, spec, 0);
            && (r.Err? <==> res.Raised?)
            && (r.Err? ==> r.failure == res.failure)
            && (res.NotFoundConnection? ==> r == Ok(statics.notFoundConnection))
            && (res.Connection? ==>
                  && r.Ok? && fresh(r.value) && r.value.Valid() && !r.value.connected
                  && r.value.url == res.url && r.value.jarFile == res.jarFile
                  && r.value.jarEntryName != null && r.value.EntryName() == res.entryName)
  {
    var fast := UseFastExceptions(flag);
    var index := 0;
    var current := root;
    var separator := IndexOfSeparator(spec, index);
    while separator > 0
      invariant 0 <= index <= |spec|
      invariant separator == IndexOfSeparator(spec, index)
      invariant Descend(statics.platform, fast, url, current, spec, index) == Descend(statics.platform, fast, url, root, spec, 0)
      decreases |spec| - index
    {
      var entryName := JarEntryName.Get(statics, spec[index..separator], 0);
      if entryName.Err? {
        return Err(entryName.failure);
      }
      var jarEntry := JarEntries.GetJarEntry(current, entryName.value.name);
      if jarEntry == null {
        var c := NotFound(statics, flag, Some(current), entryName.value);
        return Ok(c);
      }
      var next := GetNestedJarFile(current, entryName.value.name);
      if next.Err? {
        return Err(next.failure);
      }
      current := next.value;
      index := separator + 2;
      separator := IndexOfSeparator(spec, index);
    }
    var jarEntryName := JarEntryName.Get(statics, spec, index);
    if jarEntryName.Err? {
      return Err(jarEntryName.failure);
    }
    if fast && jarEntryName.value.name != [] && !ContainsEntry(current, jarEntryName.value.name) {
      return Ok(statics.notFoundConnection);
    }
    var c := new JarURLConnection(Some(url), Some(current), jarEntryName.value);
    r := Ok(c);
  }
}
