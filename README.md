# Nested-jar URL resolution, modelled in Dafny

This project models the nested-jar URL resolver of `com.uncle.controller.loader.jar`. The resolver takes a URL such as `jar:file:app.jar!/lib/inner.jar!/a/b.txt` and finds the jar it names. It starts at the outermost jar and walks nested jar files left to right, one `!/`-separated segment at a time. What it hands out is a `JarURLConnection` to the jar reached, with the final segment as the entry name.

The model covers these parts:

- **The entry-name decoder** (`JarEntryName`). It undoes `%XY` escapes, as in section 2.1 of RFC 3986. A character above 127 is first URL-encoded, and the bytes of that encoding are used: its UTF-8 bytes (section 3 of RFC 3629) for a character of the Basic Multilingual Plane, and two `?` bytes for a supplementary one, whose two UTF-16 units are encoded one at a time. The bytes are collected in a buffer, and the content type is computed at most once and cached.
- **Spec extraction** (`extractFullSpec`). It cuts off the part of the URL below the outermost jar.
- **The descent loop** of `get`.
- **The exceptions.** For a missing entry, fast mode returns the shared not-found connection and raises the shared `FileNotFoundException`. Detailed mode builds a new connection instead, and a new exception that names the entry and the jar (lines 136-142 and 249-255 of `JarURLConnection.java`). A connection without a jar file raises the shared exceptions in both modes.
- **The connection's state.** This is `connected`, the looked-up `JarEntry`, the cached permission and the cached container URL.
- **The container URL** (`buildJarFileUrl`).
- **The advisory accessors:** content length, last-modified time, content type and permission.
- **`JarEntry`.** Its fields are copied from the central-directory record. It has a `hasName` test, and its certificates and code signers are filled in lazily.

## Layout

| file | module | contents |
|---|---|---|
| failures.dfy | `Failures` | `Option`, `Result`, `Outcome`, and the exceptions the code raises |
| url_encoding.dfy | `UrlEncoding` | bytes, hex digits, UTF-8, and `URLEncoder.encode` for one character |
| entry_name_codec.dfy | `EntryNameCodec` | what `write` collects and what `decode` returns, as functions; the decoder's lemmas |
| archives.dfy | `Archives` | jar files as an immutable tree of entries and nested jars |
| jar_entry.dfy | `JarEntries` | class `JarEntry` |
| jar_url_specs.dfy | `JarUrlSpecs` | string operations, `get` as the function `Resolve`, the connect step, the accessors' values |
| jar_url_properties.dfy | `JarUrlProperties` | lemmas about resolution, the two exception modes, connecting and container URLs |
| jar_url_connection.dfy | `JarConnections` | classes `JarEntryName`, `Statics` (the class's static fields) and `JarURLConnection` |

## Modelling choices

- **Java strings and bytes.** A Java `String` is a Dafny `string`, a sequence of Unicode scalar values. A byte is `Byte`, an `int` newtype with the range 0..255. `ByteArrayOutputStream.write(int)` stores values in this range.
- **The thread-local flag.** `useFastExceptions` is a `ThreadLocal<Boolean>`, modelled as a parameter `flag: Option<bool>`:
  - `None` is the unset value.
  - Fast mode holds exactly when the flag is `Some(true)`, since `Boolean.TRUE.equals(null)` is false.
  - `SetUseFastExceptions` gives the flag's new value.
- **The static fields** `EMPTY_JAR_ENTRY_NAME` and `NOT_FOUND_CONNECTION` are the constant fields of one `Statics` object.
  - `NOT_FOUND_CONNECTION` is built while no flag is set, so `notFound(null, null)` takes its detailed branch. The shared connection therefore has no URL, no jar file and no name.
  - `Get` returns that object itself, so identity can be stated.
  - `FILE_NOT_FOUND_EXCEPTION` is the failure `SharedFileNotFound`, and `NOT_FOUND_CONNECTION_EXCEPTION` is `SharedNotFoundState`.
- **Collaborators outside the core.** `AsciiBytes.toString` and `URLConnection.guessContentTypeFromName` are functions held in a `Platform` value. Nothing is assumed about them.
- **`URLEncoder.encode` for one character** has the documented body:
  - `a-z A-Z 0-9 . - * _` stay as they are;
  - a space becomes `+`;
  - anything else becomes the upper-case escapes of its UTF-8 bytes; the encoder sees the UTF-16 units of a supplementary character one at a time, and each lone unit encodes as the byte `?`.
- **Jar files** form a tree of values: headers by name, nested jar files by entry name, size, kind, root file path, path from the root, manifest and signatures.
  - `getJarEntry`, `getNestedJarFile` and `containsEntry` are lookups in that tree.
  - `WellFormed` states the shape a jar file has.

The model follows the code in these behaviours, which a reader might not expect:

- **Detailed mode does not fail.** For a missing nested entry, detailed-mode `get` raises nothing. It returns a connection without a URL, and only `connect()` on it fails.
  - When the missing segment is empty, even `connect()` succeeds. An example is the URL `app.jar!/lib.jar!/!/x`: the connection is to the nested jar as a whole. `EmptySegmentConnectsToContainer` states this case.
  - So the two modes do not always agree on whether connecting succeeds. `DescendModes` states exactly where they differ.
- **The single-use whole-jar stream.** `getInputStream()` raises "no entry name specified" for the empty name on a *direct* jar file. It hands out the single-use whole-jar stream only for a nested jar.
- **Spec extraction can raise.** `extractFullSpec` does not check that `!/` follows the jar's path from the root. It skips any two characters there. When the path ends the URL, or is followed by a single character, `substring` raises. See `ExtractFullSpecSkipsAnyPair` and `ExtractFullSpecOverrun`.

## Model

| member | source | states |
|---|---|---|
| UrlEncoding.HexDigit | src/main/java/com/uncle/controller/loader/jar/JarURLConnection.java:301-303 | `Character.digit(c, 16)` gives a value in 0..15 for a hex digit and -1 exactly for any other character |
| UrlEncoding.Utf8RoundTrip | src/main/java/com/uncle/controller/loader/jar/JarURLConnection.java:281 | the UTF-8 bytes the encoder produces for a character read back, with an independent reader, as that character's code point |
| UrlEncoding.JavaUnitBytes | src/main/java/com/uncle/controller/loader/jar/JarURLConnection.java:278-283 | a character of the Basic Multilingual Plane contributes its UTF-8 bytes; a supplementary character is two UTF-16 units, each encoded alone as the substitute byte `?` |
| UrlEncoding.PercentEncode | src/main/java/com/uncle/controller/loader/jar/JarURLConnection.java:281 | three ASCII characters per byte |
| UrlEncoding.UrlEncodeChar | src/main/java/com/uncle/controller/loader/jar/JarURLConnection.java:281-283 | the URL-encoded form of a character is ASCII, so the recursive `write` on it never meets a character above 127; a reserved character becomes the escapes of its bytes |
| EntryNameCodec.EscapedValue | src/main/java/com/uncle/controller/loader/jar/JarURLConnection.java:306 | `(hi << 4) + lo` is a byte whose high and low nibbles are the two digits |
| EntryNameCodec.DecodeEscapeSequence | src/main/java/com/uncle/controller/loader/jar/JarURLConnection.java:300-307 | succeeds iff both followers are hex digits, with value `16*hi + lo`; otherwise raises naming the input from the '%' on |
| EntryNameCodec.DecodedName | src/main/java/com/uncle/controller/loader/jar/JarURLConnection.java:265-273 | the empty input or an input without '%' is returned unchanged; otherwise success iff the bytes decode, giving their text; every failure is the malformed-escape exception |
| EntryNameCodec.DeducedContentType | src/main/java/com/uncle/controller/loader/jar/JarURLConnection.java:325-330 | `x-java/jar` for the empty name, else the guessed type, else `content/unknown` |
| EntryNameCodec.DecodedFailsWithEscape | src/main/java/com/uncle/controller/loader/jar/JarURLConnection.java:288-291 | every decoding failure is the invalid-encoded-sequence exception |
| EntryNameCodec.DecodedWithoutEscapes | src/main/java/com/uncle/controller/loader/jar/JarURLConnection.java:287-296 | an input without '%' never fails, and each ASCII character contributes exactly its own code |
| EntryNameCodec.DecodedEscape | src/main/java/com/uncle/controller/loader/jar/JarURLConnection.java:288-295 | `%XY` with hex digits contributes one byte `16*X + Y` and decoding resumes three characters on |
| EntryNameCodec.DecodedMalformedEscape | src/main/java/com/uncle/controller/loader/jar/JarURLConnection.java:288-291 | a '%' with fewer than two followers, or with a non-hex follower, raises with the rest of the input |
| EntryNameCodec.DecodedConcat | src/main/java/com/uncle/controller/loader/jar/JarURLConnection.java:277-297 | decoding runs left to right: a prefix that decodes contributes its bytes, then the rest decodes or fails on its own |
| EntryNameCodec.DecodedAnyByte | src/main/java/com/uncle/controller/loader/jar/JarURLConnection.java:292-295 | every byte 0..255, escaped in upper or lower case, decodes to itself |
| EntryNameCodec.DecodedPercentEncode | src/main/java/com/uncle/controller/loader/jar/JarURLConnection.java:288-295 | decoding inverts percent-encoding for every byte string |
| EntryNameCodec.DecodedUrlEncodedChar | src/main/java/com/uncle/controller/loader/jar/JarURLConnection.java:279-283 | the bytes a character above 127 contributes are what its URL-encoded form decodes to, its UTF-8 bytes in the Basic Multilingual Plane |
| EntryNameCodec.Decoded | src/main/java/com/uncle/controller/loader/jar/JarURLConnection.java:275-298 | the bytes `write` appends, as a definition: a character above 127 gives its URL-encoded form's bytes, `%XY` one byte, any other character its code, a short or non-hex escape the exception with the rest; its properties are the `Decoded…` lemmas and `JarEntryName.Write` |
| EntryNameCodec.DecodedAt | src/main/java/com/uncle/controller/loader/jar/JarURLConnection.java:277-297 | decoding from a position is decided by the character there, branch by branch as in the loop body |
| Archives.GetEntry | src/main/java/com/uncle/controller/loader/jar/JarURLConnection.java:215 | the entry's record when the name is listed at this level, else null |
| Archives.GetNestedJarFile | src/main/java/com/uncle/controller/loader/jar/JarURLConnection.java:219 | the nested jar of the entry, or the I/O exception when the entry holds none |
| Archives.NestedWellFormed | src/main/java/com/uncle/controller/loader/jar/JarURLConnection.java:183 | a nested jar of a well-formed jar is well-formed, is not direct and is read from the same root file |
| JarEntries.JarEntry.constructor | src/main/java/com/uncle/controller/loader/jar/JarEntry.java:24-36 | the name and every header field are copied from the record; no certificates yet |
| JarEntries.JarEntry.HasName | src/main/java/com/uncle/controller/loader/jar/JarEntry.java:39-42 | length, prefix and suffix match iff the name equals `prefix + suffix` |
| JarEntries.JarEntry.GetLocalHeaderOffset | src/main/java/com/uncle/controller/loader/jar/JarEntry.java:77-80 | the record's local header offset, unchanged |
| JarEntries.JarEntry.GetAttributes | src/main/java/com/uncle/controller/loader/jar/JarEntry.java:49-54 | null without a manifest; otherwise the manifest's section for exactly this name |
| JarEntries.JarEntry.SetCertificates | src/main/java/com/uncle/controller/loader/jar/JarEntry.java:72-75 | both fields are taken from the same verified entry |
| JarEntries.JarEntry.GetCertificates | src/main/java/com/uncle/controller/loader/jar/JarEntry.java:56-62 | the setup runs once for a signed jar while no certificates are cached and never for an unsigned one; a signed jar's entry reports the verifier's certificates |
| JarEntries.JarEntry.GetCodeSigners | src/main/java/com/uncle/controller/loader/jar/JarEntry.java:64-70 | the same lazy rule keyed on the code signers |
| JarEntries.SetupEntryCertificates | src/main/java/com/uncle/controller/loader/jar/JarEntry.java:59 | the owning jar hands the entry its own certificates and signers, or leaves both unset |
| JarEntries.GetJarEntry | src/main/java/com/uncle/controller/loader/jar/JarURLConnection.java:61 | null iff the name is not listed; otherwise a new entry built from that name's record |
| JarUrlSpecs.BuildJarFileUrl | src/main/java/com/uncle/controller/loader/jar/JarURLConnection.java:87-100 | as a definition on the URL file string: one trailing `!/` dropped, then `jar:` prefixed iff a separator remains; `BuildJarFileUrlOfRoot` and `BuildJarFileUrlOfNested` state its values |
| JarUrlSpecs.IndexOfSeparator | src/main/java/com/uncle/controller/loader/jar/JarURLConnection.java:213 | `indexOf("!/", from)` is -1 or the position of a separator at or after `from` |
| JarUrlSpecs.IndexOfSeparatorFirst | src/main/java/com/uncle/controller/loader/jar/JarURLConnection.java:213 | no separator lies between `from` and the position found, and none at all from `from` on when -1 is found |
| JarUrlSpecs.ExtractFullSpec | src/main/java/com/uncle/controller/loader/jar/JarURLConnection.java:231-239 | null iff there is no `!/` or the path from the root does not start at the first one; otherwise the URL is that prefix followed by the result |
| JarUrlSpecs.SetUseFastExceptions | src/main/java/com/uncle/controller/loader/jar/JarURLConnection.java:201-203 | afterwards fast mode holds iff the value was true |
| JarUrlSpecs.FileNotFound | src/main/java/com/uncle/controller/loader/jar/JarURLConnection.java:136-142 | the shared exception iff in fast mode, else one naming the entry and the jar |
| JarUrlSpecs.EntryNameOf | src/main/java/com/uncle/controller/loader/jar/JarURLConnection.java:336-341 | the empty name when nothing is left after the index; a rest without '%' is the name unchanged; only a rest with a '%' can fail, and only with the malformed-escape exception; a non-empty rest gives the empty name only if it holds a '%' |
| JarUrlSpecs.NotFound | src/main/java/com/uncle/controller/loader/jar/JarURLConnection.java:249-255 | as a definition: the shared connection in fast mode, else a connection without a URL to the given jar and name; `JarConnections.NotFound` is proved to follow it |
| JarUrlSpecs.Terminal | src/main/java/com/uncle/controller/loader/jar/JarURLConnection.java:222-228 | as a definition: in fast mode a non-empty name the jar does not list gives the shared connection, otherwise a connection with the URL, the jar and the name |
| JarUrlSpecs.Descend | src/main/java/com/uncle/controller/loader/jar/JarURLConnection.java:211-228 | as a definition of the loop from an index: a separator at a position above 0 closes a segment naming the next nested jar, a missing entry ends in `NotFound`, the remainder ends in `Terminal`; `DescendFollowsPath`, `DescendModes`, `DescendKeepsRoot` and `JarConnections.Descent` carry its properties |
| JarUrlSpecs.Resolve | src/main/java/com/uncle/controller/loader/jar/JarURLConnection.java:205-229 | as a definition of `get`: an unrooted URL gives the shared connection in fast mode or a jar-less connection, otherwise `Descend` from the start of the extracted spec; `ResolveFollowsPath`, `ResolveModes`, `ResolveKeepsRoot`, `ResolveUnrooted` and `JarConnections.Get` carry its properties |
| JarUrlSpecs.Connect | src/main/java/com/uncle/controller/loader/jar/JarURLConnection.java:55-67 | success iff there is a jar file and the name is empty, cached or listed; success sets `connected` and caches the record; failure changes nothing but the lookup count; one lookup only for a non-empty uncached name |
| JarUrlSpecs.OpenStream | src/main/java/com/uncle/controller/loader/jar/JarURLConnection.java:118-134 | the shared exception without a jar file, "no entry name specified" for the empty name on a direct jar, else a connect and the jar's data or the entry's stream |
| JarUrlSpecs.ToInt | src/main/java/com/uncle/controller/loader/jar/JarURLConnection.java:161 | Java's `(int)` cast: an `int`, equal to the input modulo 2^32, the input itself when it fits |
| JarUrlSpecs.ContentLength | src/main/java/com/uncle/controller/loader/jar/JarURLConnection.java:144-150 | -1 above `Integer.MAX_VALUE`, the value itself within the `int` range |
| JarUrlSpecs.ContentLengthLong | src/main/java/com/uncle/controller/loader/jar/JarURLConnection.java:152-165 | -1 without a jar file or for a missing entry, the jar's size for the empty name, the entry's size cut to an `int` |
| JarUrlSpecs.LastModified | src/main/java/com/uncle/controller/loader/jar/JarURLConnection.java:188-199 | 0 without a jar file, for the empty name or a missing entry, else the entry's time |
| JarUrlSpecs.PermissionFor | src/main/java/com/uncle/controller/loader/jar/JarURLConnection.java:183 | as a definition: read access to the root file's path; `ResolveKeepsRoot` shows every connection `get` makes has the outer jar's permission |
| JarUrlProperties.ExtractFullSpecComposed | src/main/java/com/uncle/controller/loader/jar/JarURLConnection.java:231-239 | root name, path from the root, `!/` and a rest give exactly the rest |
| JarUrlProperties.ExtractFullSpecSkipsAnyPair | src/main/java/com/uncle/controller/loader/jar/JarURLConnection.java:237-238 | any two characters after a nested jar's path are taken for the separator |
| JarUrlProperties.ExtractFullSpecOverrun | src/main/java/com/uncle/controller/loader/jar/JarURLConnection.java:237-238 | a URL ending at the nested path, or one character after it, makes `substring` raise |
| JarUrlProperties.ExtractFullSpecUnrooted | src/main/java/com/uncle/controller/loader/jar/JarURLConnection.java:233-236 | a URL without a separator gives null |
| JarUrlProperties.DescendFollowsPath | src/main/java/com/uncle/controller/loader/jar/JarURLConnection.java:211-228 | over plain segments the loop equals Walk: each segment is looked up in the current level, its nested jar is the next level, the remainder is the terminal name |
| JarUrlProperties.ResolveFollowsPath | src/main/java/com/uncle/controller/loader/jar/JarURLConnection.java:205-228 | the whole of `get` on such a URL, from the outermost or a nested jar, equals Walk |
| JarUrlProperties.DescendLeadingSeparator | src/main/java/com/uncle/controller/loader/jar/JarURLConnection.java:213-222 | a `!/` at position 0 stops the descent at once; the whole spec is the terminal name |
| JarUrlProperties.DescendModes | src/main/java/com/uncle/controller/loader/jar/JarURLConnection.java:213-228 | the same exceptions in both modes; fast mode's connections are detailed mode's; the shared connection exactly where detailed mode's connection has no URL or cannot connect; detailed mode never returns the shared connection |
| JarUrlProperties.ResolveModes | src/main/java/com/uncle/controller/loader/jar/JarURLConnection.java:205-229 | the same agreement for the whole of `get`, an unset flag counting as detailed |
| JarUrlProperties.EmptySegmentConnectsToContainer | src/main/java/com/uncle/controller/loader/jar/JarURLConnection.java:213-218 | an empty nested segment: fast mode gives the shared connection, detailed mode a connection to the nested jar that connects |
| JarUrlProperties.DescendKeepsRoot | src/main/java/com/uncle/controller/loader/jar/JarURLConnection.java:213-221 | every connection made is to a well-formed jar with the root's file |
| JarUrlProperties.ResolveKeepsRoot | src/main/java/com/uncle/controller/loader/jar/JarURLConnection.java:177-186 | the permission of any connection `get` makes is read access to the outer jar's file |
| JarUrlProperties.ResolveUnrooted | src/main/java/com/uncle/controller/loader/jar/JarURLConnection.java:207-210 | an unrooted URL: the shared connection in fast mode, else a connection without a jar file, whose connect raises the shared exception |
| JarUrlProperties.ConnectIdempotent | src/main/java/com/uncle/controller/loader/jar/JarURLConnection.java:55-67 | after a successful connect, another succeeds, changes nothing and looks nothing up |
| JarUrlProperties.ConnectModes | src/main/java/com/uncle/controller/loader/jar/JarURLConnection.java:136-142 | the flag changes only what a failure carries, not the state or success |
| JarUrlProperties.BuildJarFileUrlOfRoot | src/main/java/com/uncle/controller/loader/jar/JarURLConnection.java:87-100 | on the string form of the URL only: a URL file without separators, with or without a trailing `!/`, gives itself |
| JarUrlProperties.BuildJarFileUrlOfNested | src/main/java/com/uncle/controller/loader/jar/JarURLConnection.java:87-100 | on the string form of the URL only: a URL file made of a separator-free root, a nesting path and a trailing `!/` gives `jar:`, the root and the nesting path |
| JarUrlProperties.ContentLengthNotNarrowed | src/main/java/com/uncle/controller/loader/jar/JarURLConnection.java:144-165 | on a well-formed jar the -1 branch of `getContentLength` is never taken |
| JarConnections.JarEntryName.Create | src/main/java/com/uncle/controller/loader/jar/JarURLConnection.java:261-263 | a new name holding the decoded spec, or the decoder's exception |
| JarConnections.JarEntryName.Decode | src/main/java/com/uncle/controller/loader/jar/JarURLConnection.java:265-273 | the method computes exactly `DecodedName` |
| JarConnections.JarEntryName.Write | src/main/java/com/uncle/controller/loader/jar/JarURLConnection.java:275-298 | the buffer gains exactly the bytes `Decoded` gives, or the call fails with its exception |
| JarConnections.JarEntryName.Get | src/main/java/com/uncle/controller/loader/jar/JarURLConnection.java:332-341 | the shared empty name iff nothing is left; otherwise a new name for the decoded rest, or the exception |
| JarConnections.JarEntryName.GetContentType | src/main/java/com/uncle/controller/loader/jar/JarURLConnection.java:318-323 | the deduced type, computed on the first call and then kept |
| JarConnections.Statics.constructor | src/main/java/com/uncle/controller/loader/jar/JarURLConnection.java:37-39 | the shared empty name is empty; the shared connection has no URL, jar file or name |
| JarConnections.JarURLConnection.constructor | src/main/java/com/uncle/controller/loader/jar/JarURLConnection.java:46-52 | the URL, jar file and name as given; nothing cached, not connected |
| JarConnections.JarURLConnection.Connect | src/main/java/com/uncle/controller/loader/jar/JarURLConnection.java:55-67 | state and outcome are exactly `JarUrlSpecs.Connect` of the old state |
| JarConnections.JarURLConnection.GetJarFile | src/main/java/com/uncle/controller/loader/jar/JarURLConnection.java:69-74 | connects, then the jar file, or the connect's exception |
| JarConnections.JarURLConnection.GetJarFileUrl | src/main/java/com/uncle/controller/loader/jar/JarURLConnection.java:76-85 | the shared state exception without a jar file, else `buildJarFileUrl()`, built once and cached |
| JarConnections.JarURLConnection.GetJarEntry | src/main/java/com/uncle/controller/loader/jar/JarURLConnection.java:102-109 | null for no name or the empty name without connecting; otherwise a connect and the entry of that name |
| JarConnections.JarURLConnection.GetEntryName | src/main/java/com/uncle/controller/loader/jar/JarURLConnection.java:111-116 | the shared state exception iff there is no jar file, else the decoded name |
| JarConnections.JarURLConnection.GetInputStream | src/main/java/com/uncle/controller/loader/jar/JarURLConnection.java:118-134 | state and result are exactly `OpenStream` of the old state |
| JarConnections.JarURLConnection.GetContentLengthLong | src/main/java/com/uncle/controller/loader/jar/JarURLConnection.java:152-165 | never raises; the value is `ContentLengthLong`; it connects only for a non-empty name |
| JarConnections.JarURLConnection.GetContentLength | src/main/java/com/uncle/controller/loader/jar/JarURLConnection.java:144-150 | never raises; the long value narrowed as `ContentLength` says; the state is unchanged without a jar file or for the empty name, else it is the state `Connect` leaves |
| JarConnections.JarURLConnection.GetContent | src/main/java/com/uncle/controller/loader/jar/JarURLConnection.java:167-171 | connects, then the jar file for the empty name, else the content handler's object |
| JarConnections.JarURLConnection.GetContentType | src/main/java/com/uncle/controller/loader/jar/JarURLConnection.java:173-175 | null without a name, else the name's deduced content type, which is then cached in the name and kept if it was already cached |
| JarConnections.JarURLConnection.GetPermission | src/main/java/com/uncle/controller/loader/jar/JarURLConnection.java:177-186 | the shared exception without a jar file, else read access to the root jar's file, made once and cached |
| JarConnections.JarURLConnection.GetLastModified | src/main/java/com/uncle/controller/loader/jar/JarURLConnection.java:188-199 | never raises; the value is `LastModified`; it connects only for a non-empty name |
| JarConnections.NotFound | src/main/java/com/uncle/controller/loader/jar/JarURLConnection.java:249-255 | the shared connection in fast mode, else a new connection without a URL to the given jar and name |
| JarConnections.Get | src/main/java/com/uncle/controller/loader/jar/JarURLConnection.java:205-229 | the result is what `Resolve` describes: the same exception, the shared connection itself, or a new unconnected connection with Resolve's URL, jar file and name |
| JarConnections.Descent | src/main/java/com/uncle/controller/loader/jar/JarURLConnection.java:211-228 | the loop and the last step of `get` give what `Descend` describes from the start of the spec: the same exception, the shared connection itself, or a new unconnected connection with its URL, jar file and name |

## Left out

- UrlEncoding.HexDigit: accepts only the ASCII digits `0-9 a-f A-F`. `Character.digit(c, 16)` also accepts other Unicode decimal digits and the full-width Latin letters, so `DecodeEscapeSequence` and `Decoded` reject escapes that the code would accept.
- JarUrlSpecs.EntryNameOf: for a rest holding a '%' the name is `AsciiBytes.toString` of the decoded bytes, and nothing is assumed about that function, so the model does not promise that such a rest gives a non-empty name.
- UrlEncoding.JavaUnitBytes: a Dafny string cannot hold a lone UTF-16 surrogate, so such names are not modelled. String lengths count Unicode scalar values, not UTF-16 units. Indices into a URL holding supplementary characters therefore differ from Java's.
- JarConnections.JarURLConnection.GetInputStream: the null check on the opened stream (lines 130-132) is not modelled. The model's `JarFile.getInputStream` and `getData()` always give a stream.
- JarConnections.JarURLConnection.GetContent: `super.getContent()` is the content-handler machinery of `java.net.URLConnection`. It is represented by the opaque value `HandlerContent`.
- URL objects are reduced to the string `getFile()` returns, and the container URL to its string form:
  - `URLStreamHandler`, `EMPTY_JAR_URL` and the `super(EMPTY_JAR_URL)` call are not modelled;
  - so is the `MalformedURLException` that `new URL` could raise and that is turned into `IllegalStateException` (lines 21-35, 94-98).
- `JarEntry.getUrl()` (JarEntry.java:44-47) builds a `java.net.URL`, which is not modelled.
- The `JarFile` class is not part of this model. Its lookups are operations on the immutable jar tree, and `getNestedJarFile` raises only when the entry holds no nested jar.
  - ZIP parsing, inflating, `RandomAccessData` and the `ONCE` access policy are not modelled.
  - Signature verification is not modelled; its result is the `signatures` field.
- `AsciiBytes.toString` and `URLConnection.guessContentTypeFromName` are functions in `Platform` about which nothing is assumed.
- `FilePermission` is a value holding a path and actions. Security checks are not modelled.
- The checks of the `ZipEntry` setters the `JarEntry` constructor calls are not modelled: `setMethod` rejects a method other than STORED or DEFLATED, `setSize` a negative size, `setCrc` a value outside 0..0xFFFFFFFF and `setExtra` more than 0xFFFF bytes, each with `IllegalArgumentException`; `setTime` converts to DOS time. Values are copied as the record gives them.
- The exceptions are values of `Failure`. A new `FileNotFoundException` in detailed mode is a new value, but object identity of exceptions is not modelled. Only the two shared exceptions are distinguished from the rest.
- `UnsupportedEncodingException` for "UTF-8" (lines 284-286) cannot occur and is not modelled.
- The catch of `IOException` in `getContentLengthLong` and `getLastModified` covers the failures the model knows: a failed connect.
- Each thread's own `ThreadLocal` value is an explicit parameter. Concurrent use of one connection is not modelled.
- `JarConnections.JarURLConnection` carries a ghost lookup counter (`lookups`), which the code does not have. It is there so the contracts can say when the entry is looked up.
- The rest of the repository is not modelled:
  - `SocketNioServerTest.java` is a network server with selectors and a thread pool;
  - `DistributedRedisLock.java` wraps a distributed-lock client;
  - `Increment.java` is a thread demo.
