/**
 * One entry of one jar level: the header fields, copied when the entry is
 * built, and the certificates and code signers, filled in only when asked for
 * and only when the jar is signed.
 */
module JarEntries {

  import opened Failures
  import opened UrlEncoding
  import opened Archives

  class JarEntry {
    const jarFile: JarFile
    /** The central-directory record the entry was built from. */
    ghost const header: CentralDirectoryFileHeader
    const name: string
    const localHeaderOffset: int
    const compressedSize: int
    const compressionMethod: int
    const crc: int
    const size: int
    const extra: seq<Byte>
    const comment: string
    const time: int
    var certificates: Option<seq<Certificate>>
    var codeSigners: Option<seq<CodeSigner>>
    /** How many times setupEntryCertificates has run for this entry. */
    ghost var setups: nat

    /** Every header field holds what the record gave, unchanged. */
    ghost predicate CopiedFromHeader()
    {
      && name == header.name
      && localHeaderOffset == header.localHeaderOffset
      && compressedSize == header.compressedSize
      && compressionMethod == header.compressionMethod
      && crc == header.crc
      && size == header.size
      && extra == header.extra
      && comment == header.comment
      && time == header.time
    }

    /**
     * The header fields are the record's, and the certificate fields are
     * either still unset or both hold what the verifier reported for this entry.
     */
    ghost predicate Valid()
      reads this
    {
      && CopiedFromHeader()
      && ((certificates.None? && codeSigners.None?)
          || (name in jarFile.signatures && certificates == SignatureOf(jarFile, name).certificates
              && codeSigners == SignatureOf(jarFile, name).codeSigners))
    }

    /**
     * `JarEntry(jarFile, header)`: the name and every header field are copied
     * from the record (the source sets the size twice, to the same value).
     */
    constructor (jarFile: JarFile, header: CentralDirectoryFileHeader)
      ensures this.jarFile == jarFile && this.header == header
      ensures Valid()
      ensures certificates.None? && codeSigners.None? && setups == 0
    {
      this.jarFile := jarFile;
      this.header := header;
      name := header.name;
      localHeaderOffset := header.localHeaderOffset;
      compressedSize := header.compressedSize;
      compressionMethod := header.compressionMethod;
      crc := header.crc;
      size := header.size;
      extra := header.extra;
      comment := header.comment;
      time := header.time;
      certificates := None;
      codeSigners := None;
      setups := 0;
    }

    /** `hasName(prefix, suffix)`: the name is exactly `prefix + suffix`, tested without building it. */
    function HasName(prefix: string, suffix: string): (b: bool)
      ensures b <==> name == prefix + suffix
    {
      var matches := |name| == |prefix| + |suffix|
                     && prefix <= name
                     && name[|name| - |suffix|..] == suffix;
      assert matches ==> name == prefix + suffix by {
        if matches {
          assert name == name[..|prefix|] + name[|prefix|..];
        }
      }
      matches
    }

    /** `getLocalHeaderOffset()`: the offset in this entry's own jar level, as the record gave it. */
    function GetLocalHeaderOffset(): (offset: int)
      requires CopiedFromHeader()
      ensures offset == header.localHeaderOffset
    {
      localHeaderOffset
    }

    /** `getAttributes()`: null without a manifest, else the manifest's section for exactly this name. */
    function GetAttributes(): (a: Option<Attributes>)
      ensures a.Some? <==> jarFile.manifest.Some? && name in jarFile.manifest.value.entries
      ensures a.Some? ==> a.value == jarFile.manifest.value.entries[name]
    {
      match jarFile.manifest
      case None => None
      case Some(m) => if name in m.entries then Some(m.entries[name]) else None
    }

    /** `setCertificates(entry)`: both fields are taken from the same verified entry. */
    method SetCertificates(entry: EntrySignature)
      modifies this`certificates, this`codeSigners
      ensures certificates == entry.certificates && codeSigners == entry.codeSigners
    {
      certificates := entry.certificates;
      codeSigners := entry.codeSigners;
    }

    /**
     * `getCertificates()`: runs the certificate setup only for a signed jar and
     * only while no certificates are cached; a signed jar's entry then reports
     * what the verifier found for it.
     */
    method GetCertificates() returns (c: Option<seq<Certificate>>)
      requires Valid()
      modifies this`certificates, this`codeSigners, this`setups
      ensures Valid() && c == certificates
      ensures setups == old(setups) + (if jarFile.signed && old(certificates).None? then 1 else 0)
      ensures !jarFile.signed ==> certificates == old(certificates) && codeSigners == old(codeSigners)
      ensures jarFile.signed ==> c == SignatureOf(jarFile, name).certificates
      ensures jarFile.signed && old(certificates).None? && name in jarFile.signatures ==>
                codeSigners == SignatureOf(jarFile, name).codeSigners
      ensures old(certificates).Some? ==> certificates == old(certificates) && codeSigners == old(codeSigners)
    {
      if jarFile.signed && certificates.None? {
        SetupEntryCertificates(this);
      }
      c := certificates;
    }

    /** `getCodeSigners()`: the same lazy rule, keyed on the code signers. */
    method GetCodeSigners() returns (s: Option<seq<CodeSigner>>)
      requires Valid()
      modifies this`certificates, this`codeSigners, this`setups
      ensures Valid() && s == codeSigners
      ensures setups == old(setups) + (if jarFile.signed && old(codeSigners).None? then 1 else 0)
      ensures !jarFile.signed ==> certificates == old(certificates) && codeSigners == old(codeSigners)
      ensures jarFile.signed ==> s == SignatureOf(jarFile, name).codeSigners
      ensures jarFile.signed && old(codeSigners).None? && name in jarFile.signatures ==>
                certificates == SignatureOf(jarFile, name).certificates
      ensures old(codeSigners).Some? ==> certificates == old(certificates) && codeSigners == old(codeSigners)
    {
      if jarFile.signed && codeSigners.None? {
        SetupEntryCertificates(this);
      }
      s := codeSigners;
    }
  }

  /**
   * `JarFile.setupEntryCertificates(entry)`: the verifier reads the jar and,
   * when it meets an entry of this name, hands its certificates and signers to
   * `setCertificates`.
   */
  method SetupEntryCertificates(e: JarEntry)
    requires e.Valid()
    modifies e`certificates, e`codeSigners, e`setups
    ensures e.Valid() && e.setups == old(e.setups) + 1
    ensures e.name in e.jarFile.signatures ==>
              e.certificates == SignatureOf(e.jarFile, e.name).certificates
              && e.codeSigners == SignatureOf(e.jarFile, e.name).codeSigners
    ensures e.name !in e.jarFile.signatures ==>
              e.certificates == old(e.certificates) && e.codeSigners == old(e.codeSigners)
  {
    if e.name in e.jarFile.signatures {
      e.SetCertificates(e.jarFile.signatures[e.name]);
    }
    e.setups := e.setups + 1;
  }

  /** `JarFile.getJarEntry(name)`: a new entry built from the record of that name, or null. */
  method GetJarEntry(j: JarFile, name: string) returns (e: JarEntry?)
    ensures e == null <==> name !in j.entries
    ensures e != null ==> fresh(e) && e.Valid() && e.jarFile == j && e.header == j.entries[name]
    ensures e != null ==> e.certificates.None? && e.codeSigners.None? && e.setups == 0
  {
    if name in j.entries {
      e := new JarEntry(j, j.entries[name]);
    } else {
      e := null;
    }
  }
}
