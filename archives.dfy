/**
 * The jar files the resolver walks, as an immutable tree: each level lists the
 * central-directory headers of its entries and the nested jar files some of
 * those entries hold. Reading the ZIP format, inflating entries and verifying
 * signatures happen outside this model; their results are fields here.
 */
module Archives {

  import opened Failures
  import opened UrlEncoding

  /** The values a central-directory record supplies for one entry. */
  datatype CentralDirectoryFileHeader = CentralDirectoryFileHeader(
    name: string,
    compressedSize: int,
    compressionMethod: int,
    crc: int,
    size: int,
    extra: seq<Byte>,
    comment: string,
    time: int,
    localHeaderOffset: int)

  /** How a jar file is held: a file of its own, a directory inside a jar, or a jar stored inside a jar. */
  datatype JarFileType = Direct | NestedDirectory | NestedJar

  datatype Certificate = Certificate(encoded: seq<Byte>)

  datatype CodeSigner = CodeSigner(signerCertPath: seq<Certificate>)

  /** What the JDK's verifying jar reader reports for one entry (either part may be null). */
  datatype EntrySignature = EntrySignature(
    certificates: Option<seq<Certificate>>,
    codeSigners: Option<seq<CodeSigner>>)

  type Attributes = map<string, string>

  /** A manifest: its main section and one attribute section per entry name. */
  datatype Manifest = Manifest(mainAttributes: Attributes, entries: map<string, Attributes>)

  /**
   * One jar file. `urlFile` is `getUrl().getFile()`, `size` what `size()`
   * returns, `rootFilePath` the path of the file the outermost jar is read
   * from, `pathFromRoot` the nesting path (`""` for the outermost jar).
   */
  datatype JarFile = JarFile(
    name: string,
    urlFile: string,
    kind: JarFileType,
    size: int,
    rootFilePath: string,
    pathFromRoot: string,
    entries: map<string, CentralDirectoryFileHeader>,
    nested: map<string, JarFile>,
    manifest: Option<Manifest>,
    signed: bool,
    signatures: map<string, EntrySignature>)

  const IntMin: int := -0x8000_0000
  const IntMax: int := 0x7FFF_FFFF

  /** Java's `int` range. */
  predicate IsInt(x: int)
  {
    IntMin <= x <= IntMax
  }

  /**
   * The shape every jar file has: headers are filed under their own names,
   * nested jars belong to entries, are not direct files, and are read from the
   * same root file with the nesting path extended by `!/` and the entry name.
   */
  ghost predicate WellFormed(j: JarFile)
    decreases j
  {
    && IsInt(j.size)
    && (forall n :: n in j.entries ==> j.entries[n].name == n)
    && j.nested.Keys <= j.entries.Keys
    && forall n :: n in j.nested ==>
         && j.nested[n].kind != Direct
         && j.nested[n].rootFilePath == j.rootFilePath
         && j.nested[n].pathFromRoot == j.pathFromRoot + "!/" + n
         && WellFormed(j.nested[n])
  }

  /** `getJarEntry(name)` at the level of the directory: the header, or null. */
  function GetEntry(j: JarFile, name: string): (h: Option<CentralDirectoryFileHeader>)
    ensures h.Some? <==> name in j.entries
    ensures h.Some? ==> h.value == j.entries[name]
  {
    if name in j.entries then Some(j.entries[name]) else None
  }

  /** `containsEntry(name)`. */
  predicate ContainsEntry(j: JarFile, name: string)
  {
    name in j.entries
  }

  /** `getNestedJarFile(entry)`: the jar the entry holds, or the IOException when it holds none. */
  function GetNestedJarFile(j: JarFile, name: string): (r: Result<JarFile>)
    ensures r.Ok? <==> name in j.nested
    ensures r.Ok? ==> r.value == j.nested[name]
    ensures r.Err? ==> r.failure == NestedJarUnavailable(name)
  {
    if name in j.nested then Ok(j.nested[name]) else Err(NestedJarUnavailable(name))
  }

  /** What setting up the certificates reports for an entry: its record, or nothing when it has none. */
  function SignatureOf(j: JarFile, name: string): (s: EntrySignature)
    ensures name !in j.signatures ==> s == EntrySignature(None, None)
  {
    if name in j.signatures then j.signatures[name] else EntrySignature(None, None)
  }

  /** A nested jar of a well-formed jar is well-formed and shares its root file. */
  lemma NestedWellFormed(j: JarFile, name: string)
    requires WellFormed(j) && name in j.nested
    ensures WellFormed(j.nested[name]) && j.nested[name].rootFilePath == j.rootFilePath
    ensures name in j.entries && j.nested[name].kind != Direct
  {
  }
}
