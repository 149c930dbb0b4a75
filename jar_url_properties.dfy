/**
 * What resolving a jar URL guarantees: the first `!/` is found where the root
 * file's name ends, the descent looks each segment up level by level, both
 * exception modes agree except where the detailed mode hands out a connection
 * that has no URL or cannot connect, the root file is kept, and the container
 * URL and the connect step behave as the connection's callers rely on.
 */
module JarUrlProperties {

  import opened Failures
  import opened EntryNameCodec
  import opened Archives
  import opened JarUrlSpecs

  // ---------------------------------------------------------------------------
  // Finding the separator

  /** The first separator after `from` is the one with none before it. */
  lemma {:induction false} IndexOfSeparatorIs(s: string, from: nat, p: int)
    requires from <= p && from <= |s| && IsSeparatorAt(s, p)
    requires forall k :: from <= k < p ==> !IsSeparatorAt(s, k)
    ensures IndexOfSeparator(s, from) == p
    decreases p - from
  {
    if from < p {
      assert !IsSeparatorAt(s, from);
      IndexOfSeparatorIs(s, from + 1, p);
    }
  }

  /** The text from `index` on is a segment without separators, `!/`, and more. */
  lemma SeparatorAfterSegment(spec: string, index: nat, seg: string, rest: string)
    requires index <= |spec| && spec[index..] == seg + "!/" + rest
    requires NoSeparator(seg)
    ensures IndexOfSeparator(spec, index) == index + |seg|
    ensures spec[index..index + |seg|] == seg && spec[index + |seg| + 2..] == rest
  {
    SegmentCharacters(spec, index, seg, rest);
    forall k | index <= k < index + |seg|
      ensures !IsSeparatorAt(spec, k)
    {
      if k + 1 < index + |seg| {
        assert !IsSeparatorAt(seg, k - index);
      }
    }
    IndexOfSeparatorIs(spec, index, index + |seg|);
  }

  /** Where each character of a segment, its separator and the rest lie in the spec. */
  lemma SegmentCharacters(spec: string, index: nat, seg: string, rest: string)
    requires index <= |spec| && spec[index..] == seg + "!/" + rest
    ensures |spec| == index + |seg| + 2 + |rest|
    ensures forall j :: 0 <= j < |seg| ==> spec[index + j] == seg[j]
    ensures spec[index + |seg|] == '!' && spec[index + |seg| + 1] == '/'
    ensures spec[index..index + |seg|] == seg && spec[index + |seg| + 2..] == rest
  {
    var t := spec[index..];
    assert forall j :: 0 <= j < |t| ==> spec[index + j] == t[j];
    assert t[|seg|] == '!' && t[|seg| + 1] == '/';
    assert spec[index..index + |seg|] == t[..|seg|];
    assert spec[index + |seg| + 2..] == t[|seg| + 2..];
  }

  /** No separator from `index` on: the search gives -1. */
  lemma NoSeparatorAfter(spec: string, index: nat, t: string)
    requires index <= |spec| && spec[index..] == t && NoSeparator(t)
    ensures IndexOfSeparator(spec, index) == -1
  {
    forall k | index <= k
      ensures !IsSeparatorAt(spec, k)
    {
      if IsSeparatorAt(spec, k) {
        assert t[k - index] == spec[k] && t[k - index + 1] == spec[k + 1];
        assert IsSeparatorAt(t, k - index);
      }
    }
  }

  /** A root file name without separators followed by `!/`: the first separator is where the name ends. */
  lemma FirstSeparatorAt(root: string, t: string)
    requires NoSeparator(root) && StartsWithAt(t, "!/", 0)
    ensures IndexOfSeparator(root + t, 0) == |root|
  {
    assert t == "!/" + t[2..];
    assert (root + t)[0..] == root + "!/" + t[2..];
    SeparatorAfterSegment(root + t, 0, root, t[2..]);
  }

  // ---------------------------------------------------------------------------
  // Cutting the spec

  /**
   * A URL made of a root file name, the jar's path from the root (empty or
   * starting with `!/`), `!/` and the rest yields exactly the rest.
   */
  lemma ExtractFullSpecComposed(root: string, pathFromRoot: string, rest: string)
    requires NoSeparator(root)
    requires pathFromRoot == [] || StartsWithAt(pathFromRoot, "!/", 0)
    ensures ExtractFullSpec(Url(root + pathFromRoot + "!/" + rest), pathFromRoot) == Ok(Some(rest))
  {
    var t := ComposedParts(root, pathFromRoot, rest);
    FirstSeparatorAt(root, t);
  }

  /** The parts of `root + pathFromRoot + "!/" + rest`, as the spec extraction slices them. */
  lemma ComposedParts(root: string, pathFromRoot: string, rest: string) returns (t: string)
    requires pathFromRoot == [] || StartsWithAt(pathFromRoot, "!/", 0)
    ensures root + pathFromRoot + "!/" + rest == root + t && StartsWithAt(t, "!/", 0)
    ensures StartsWithAt(root + pathFromRoot + "!/" + rest, pathFromRoot, |root|)
    ensures (root + pathFromRoot + "!/" + rest)[|root| + 2 + |pathFromRoot|..] == rest
  {
    var file := root + pathFromRoot + "!/" + rest;
    t := pathFromRoot + "!/" + rest;
    assert file == root + t;
    assert StartsWithAt(t, "!/", 0) by {
      if pathFromRoot == [] { assert t == "!/" + rest; } else { assert t[..2] == pathFromRoot[..2]; }
    }
    assert file[|root|..|root| + |pathFromRoot|] == pathFromRoot;
    assert file[|root| + 2 + |pathFromRoot|..] == rest;
  }

  /**
   * After a nested jar's path the two characters are skipped unchecked: any
   * pair, not only `!/`, is taken for the separator.
   */
  lemma ExtractFullSpecSkipsAnyPair(root: string, pathFromRoot: string, x: char, y: char, rest: string)
    requires NoSeparator(root) && StartsWithAt(pathFromRoot, "!/", 0)
    ensures ExtractFullSpec(Url(root + pathFromRoot + [x, y] + rest), pathFromRoot) == Ok(Some(rest))
  {
    var file := root + pathFromRoot + [x, y] + rest;
    var t := pathFromRoot + [x, y] + rest;
    assert file == root + t;
    assert t[..2] == pathFromRoot[..2];
    FirstSeparatorAt(root, t);
    assert file[|root|..|root| + |pathFromRoot|] == pathFromRoot;
    assert file[|root| + 2 + |pathFromRoot|..] == rest;
  }

  /**
   * A URL ending with the nested jar's path, or with one character after it,
   * makes the substring raise instead of yielding a spec.
   */
  lemma ExtractFullSpecOverrun(root: string, pathFromRoot: string, tail: string)
    requires NoSeparator(root) && StartsWithAt(pathFromRoot, "!/", 0) && |tail| <= 1
    ensures ExtractFullSpec(Url(root + pathFromRoot + tail), pathFromRoot)
         == Err(IndexOutOfBounds(|root| + 2 + |pathFromRoot|, |root| + |pathFromRoot| + |tail|))
  {
    var file := root + pathFromRoot + tail;
    var t := pathFromRoot + tail;
    assert file == root + t;
    assert t[..2] == pathFromRoot[..2];
    FirstSeparatorAt(root, t);
    assert file[|root|..|root| + |pathFromRoot|] == pathFromRoot;
  }

  /** A URL whose file has no separator belongs to no jar: null, in either mode. */
  lemma ExtractFullSpecUnrooted(url: Url, pathFromRoot: string)
    requires NoSeparator(url.file)
    ensures ExtractFullSpec(url, pathFromRoot) == Ok(None)
  {
    NoSeparatorAfter(url.file, 0, url.file);
  }

  // ---------------------------------------------------------------------------
  // The descent

  /** Every segment of the path is plain. */
  predicate AllPlain(path: seq<string>)
    decreases |path|
  {
    path == [] || (PlainSegment(path[0]) && AllPlain(path[1..]))
  }

  /** Plain at every index means plain segment by segment. */
  lemma {:induction false} AllPlainOf(path: seq<string>)
    requires forall i :: 0 <= i < |path| ==> PlainSegment(path[i])
    ensures AllPlain(path)
    decreases |path|
  {
    if path != [] {
      assert forall i :: 0 <= i < |path[1..]| ==> PlainSegment(path[1..][i]) by {
        forall i | 0 <= i < |path[1..]| ensures PlainSegment(path[1..][i]) { assert path[1..][i] == path[i + 1]; }
      }
      AllPlainOf(path[1..]);
    }
  }

  /** The joined path, then the terminal name, is the first segment, `!/`, and the remainder. */
  lemma JoinedPathCons(path: seq<string>, terminal: string)
    requires path != []
    ensures JoinedPath(path) + terminal == path[0] + "!/" + (JoinedPath(path[1..]) + terminal)
  {
  }

  /**
   * What the loop of `get` finds in the spec, level by level: from `index` on,
   * the first separator lies above 0 and the text before it decodes to the
   * next segment, until no separator is left and the rest decodes to the
   * terminal name.
   */
  predicate Layout(p: Platform, spec: string, index: nat, path: seq<string>, terminal: string)
    decreases |path|
  {
    index <= |spec| &&
    var separator := IndexOfSeparator(spec, index);
    if path == [] then separator == -1 && EntryNameOf(p, spec, index) == Ok(terminal)
    else
      && separator > 0
      && EntryNameOf(p, spec[index..separator], 0) == Ok(path[0])
      && Layout(p, spec, separator + 2, path[1..], terminal)
  }

  /** A spec spelled as the joined plain segments and a plain terminal name has that layout. */
  lemma {:induction false} LayoutOfJoinedPath(p: Platform, spec: string, index: nat, path: seq<string>, terminal: string)
    requires index <= |spec| && spec[index..] == JoinedPath(path) + terminal
    requires AllPlain(path) && NoSeparator(terminal) && '%' !in terminal
    ensures Layout(p, spec, index, path, terminal)
    decreases |path|
  {
    if path == [] {
      assert JoinedPath(path) + terminal == terminal;
      LayoutEnd(p, spec, index, terminal);
    } else {
      JoinedPathCons(path, terminal);
      SegmentName(p, spec, index, path[0], JoinedPath(path[1..]) + terminal);
      LayoutOfJoinedPath(p, spec, index + |path[0]| + 2, path[1..], terminal);
    }
  }

  /** A plain terminal name from `index` on: no separator is found and the name is kept as it is. */
  lemma LayoutEnd(p: Platform, spec: string, index: nat, terminal: string)
    requires index <= |spec| && spec[index..] == terminal && NoSeparator(terminal) && '%' !in terminal
    ensures Layout(p, spec, index, [], terminal)
  {
    NoSeparatorAfter(spec, index, terminal);
  }

  /** A plain segment from `index` on, then `!/`: the loop finds the separator after it and keeps its name. */
  lemma SegmentName(p: Platform, spec: string, index: nat, seg: string, rest: string)
    requires index <= |spec| && spec[index..] == seg + "!/" + rest && PlainSegment(seg)
    ensures IndexOfSeparator(spec, index) == index + |seg| > 0
    ensures EntryNameOf(p, spec[index..index + |seg|], 0) == Ok(seg)
    ensures spec[index + |seg| + 2..] == rest
  {
    SeparatorAfterSegment(spec, index, seg, rest);
    assert seg[0..] == seg;
  }

  /** On a spec with that layout the loop of `get` does what Walk does. */
  lemma {:induction false} DescendFollowsLayout(p: Platform, fast: bool, url: Url, current: JarFile,
                                                spec: string, index: nat, path: seq<string>, terminal: string)
    requires Layout(p, spec, index, path, terminal)
    ensures Descend(p, fast, url, current, spec, index) == Walk(fast, url, current, path, terminal)
    decreases |path|
  {
    if path != [] && path[0] in current.entries && path[0] in current.nested {
      var after := IndexOfSeparator(spec, index) + 2;
      DescendFollowsLayout(p, fast, url, current.nested[path[0]], spec, after, path[1..], terminal);
    }
  }

  /**
   * On a spec of plain segments, each followed by `!/`, and a terminal name
   * without escapes or separators, the loop of `get` does what Walk does: it
   * looks every segment up in turn and steps into its nested jar.
   */
  lemma DescendFollowsPath(p: Platform, fast: bool, url: Url, current: JarFile,
                           spec: string, index: nat, path: seq<string>, terminal: string)
    requires index <= |spec| && spec[index..] == JoinedPath(path) + terminal
    requires forall i :: 0 <= i < |path| ==> PlainSegment(path[i])
    requires NoSeparator(terminal) && '%' !in terminal
    ensures Descend(p, fast, url, current, spec, index) == Walk(fast, url, current, path, terminal)
  {
    AllPlainOf(path);
    LayoutOfJoinedPath(p, spec, index, path, terminal);
    DescendFollowsLayout(p, fast, url, current, spec, index, path, terminal);
  }

  /** The loop of `get` at a separator above 0 whose segment needs no decoding. */
  lemma DescendStep(p: Platform, fast: bool, url: Url, current: JarFile, spec: string, index: nat, seg: string)
    requires index <= |spec| && IndexOfSeparator(spec, index) == index + |seg| > 0
    requires spec[index..index + |seg|] == seg && (seg == [] || '%' !in seg)
    ensures Descend(p, fast, url, current, spec, index) ==
              if seg !in current.entries then NotFound(fast, Some(current), seg)
              else if seg !in current.nested then Raised(NestedJarUnavailable(seg))
              else Descend(p, fast, url, current.nested[seg], spec, index + |seg| + 2)
  {
    assert EntryNameOf(p, spec[index..index + |seg|], 0) == Ok(seg) by {
      if seg != [] { assert seg[0..] == seg; }
    }
  }

  /**
   * For the outermost jar, or a nested jar reached by its own path, `get`
   * resolves a URL of plain segments as Walk does from that jar.
   */
  lemma ResolveFollowsPath(p: Platform, flag: Option<bool>, jar: JarFile, root: string,
                           path: seq<string>, terminal: string)
    requires NoSeparator(root)
    requires jar.pathFromRoot == [] || StartsWithAt(jar.pathFromRoot, "!/", 0)
    requires forall i :: 0 <= i < |path| ==> PlainSegment(path[i])
    requires NoSeparator(terminal) && '%' !in terminal
    ensures var url := Url(root + jar.pathFromRoot + "!/" + JoinedPath(path) + terminal);
            Resolve(p, flag, url, jar) == Walk(UseFastExceptions(flag), url, jar, path, terminal)
  {
    var rest := JoinedPath(path) + terminal;
    var url := Url(root + jar.pathFromRoot + "!/" + JoinedPath(path) + terminal);
    assert url.file == root + jar.pathFromRoot + "!/" + rest;
    ExtractFullSpecComposed(root, jar.pathFromRoot, rest);
    ResolveRooted(p, flag, url, jar, rest);
    DescendFollowsPath(p, UseFastExceptions(flag), url, jar, rest, 0, path, terminal);
  }

  /** Once the spec is cut, `get` is the loop started at its first character. */
  lemma ResolveRooted(p: Platform, flag: Option<bool>, url: Url, root: JarFile, spec: string)
    requires ExtractFullSpec(url, root.pathFromRoot) == Ok(Some(spec))
    ensures Resolve(p, flag, url, root) == Descend(p, UseFastExceptions(flag), url, root, spec, 0)
  {
  }

  /** A separator at the very start of the spec does not count: the whole spec is the entry name. */
  lemma DescendLeadingSeparator(p: Platform, fast: bool, url: Url, current: JarFile, spec: string)
    requires IsSeparatorAt(spec, 0)
    ensures DecodedName(p, spec).Err? ==> Descend(p, fast, url, current, spec, 0) == Raised(DecodedName(p, spec).failure)
    ensures DecodedName(p, spec).Ok? ==>
              Descend(p, fast, url, current, spec, 0) == Terminal(fast, url, current, DecodedName(p, spec).value)
  {
    IndexOfSeparatorIs(spec, 0, 0);
    assert spec[0..] == spec;
  }

  // ---------------------------------------------------------------------------
  // The two exception modes

  /** A connection that has no URL of its own, or whose `connect()` cannot succeed. */
  predicate NoUrlOrUnconnectable(r: Resolution)
  {
    r.Connection? && !(r.url.Some? && CanConnect(r.jarFile, r.entryName, false))
  }

  /** How the outcome of one mode determines the other's (fast first, detailed second). */
  predicate ModesAgree(f: Resolution, d: Resolution)
  {
    && (f.Raised? <==> d.Raised?)
    && (f.Raised? ==> f == d)
    && !d.NotFoundConnection?
    && (f.Connection? ==> f == d)
    && (f.NotFoundConnection? <==> NoUrlOrUnconnectable(d))
  }

  /**
   * The descent in fast mode and in detailed mode: the same exceptions, the
   * same connections wherever fast mode makes one, and the shared not-found
   * connection exactly where detailed mode makes a connection that has no URL
   * or cannot connect; such a connection, when it has no URL, names an entry
   * its jar lacks.
   */
  lemma {:induction false} DescendModes(p: Platform, url: Url, current: JarFile, spec: string, index: nat)
    requires index <= |spec|
    ensures ModesAgree(Descend(p, true, url, current, spec, index), Descend(p, false, url, current, spec, index))
    ensures var d := Descend(p, false, url, current, spec, index);
            d.Connection? && d.url.None? ==> d.jarFile.Some? && d.entryName !in d.jarFile.value.entries
    decreases |spec| - index
  {
    var separator := IndexOfSeparator(spec, index);
    if separator > 0 {
      match EntryNameOf(p, spec[index..separator], 0)
      case Err(f) =>
      case Ok(name) =>
        if GetEntry(current, name).Some? {
          match GetNestedJarFile(current, name)
          case Err(f) =>
          case Ok(next) => DescendModes(p, url, next, spec, separator + 2);
        }
    }
  }

  /** The same for the whole of `get`, whatever the flag of detailed mode holds. */
  lemma ResolveModes(p: Platform, fastFlag: Option<bool>, detailedFlag: Option<bool>, url: Url, root: JarFile)
    requires UseFastExceptions(fastFlag) && !UseFastExceptions(detailedFlag)
    ensures ModesAgree(Resolve(p, fastFlag, url, root), Resolve(p, detailedFlag, url, root))
  {
    match ExtractFullSpec(url, root.pathFromRoot)
    case Err(f) =>
    case Ok(None) =>
    case Ok(Some(spec)) => DescendModes(p, url, root, spec, 0);
  }

  /**
   * The case where the modes disagree on connecting: an empty segment below
   * the root jar is looked up as the empty name, which no jar lists; fast mode
   * returns the shared not-found connection, detailed mode a connection to the
   * nested jar itself, whose `connect()` succeeds.
   */
  lemma EmptySegmentConnectsToContainer(p: Platform, root: JarFile, rootFile: string, name: string,
                                        tail: string)
    requires NoSeparator(rootFile) && PlainSegment(name) && root.pathFromRoot == []
    requires name in root.entries && name in root.nested && [] !in root.nested[name].entries
    ensures var url := Url(rootFile + "!/" + name + "!/!/" + tail);
            && Resolve(p, Some(true), url, root) == NotFoundConnection
            && Resolve(p, None, url, root) == Connection(None, Some(root.nested[name]), [])
            && Connect(Fresh(Some(root.nested[name]), []), false).1 == Pass
  {
    var url := Url(rootFile + "!/" + name + "!/!/" + tail);
    var rest := EmptySegmentSpec(rootFile, name, tail);
    forall fast: bool
      ensures Descend(p, fast, url, root, rest, 0) == NotFound(fast, Some(root.nested[name]), [])
    {
      DescendStep(p, fast, url, root, rest, 0, name);
      DescendStep(p, fast, url, root.nested[name], rest, |name| + 2, []);
    }
    ResolveRooted(p, Some(true), url, root, rest);
    ResolveRooted(p, None, url, root, rest);
  }

  /** The spec of such a URL: the name, a separator, and at once another separator. */
  lemma EmptySegmentSpec(rootFile: string, name: string, tail: string) returns (rest: string)
    requires NoSeparator(rootFile) && PlainSegment(name)
    ensures ExtractFullSpec(Url(rootFile + "!/" + name + "!/!/" + tail), []) == Ok(Some(rest))
    ensures |name| + 2 <= |rest|
    ensures IndexOfSeparator(rest, 0) == |name| > 0 && rest[0..|name|] == name
    ensures IndexOfSeparator(rest, |name| + 2) == |name| + 2 && rest[|name| + 2..|name| + 2] == []
  {
    rest := name + "!/" + ("!/" + tail);
    EmptySegmentUrl(rootFile, name, tail, rest);
    assert rest[0..] == rest;
    SeparatorAfterSegment(rest, 0, name, "!/" + tail);
    SeparatorFirst(rest, |name| + 2, tail);
  }

  /** Such a URL, split where its spec begins. */
  lemma EmptySegmentUrl(rootFile: string, name: string, tail: string, rest: string)
    requires NoSeparator(rootFile) && rest == name + "!/" + ("!/" + tail)
    ensures ExtractFullSpec(Url(rootFile + "!/" + name + "!/!/" + tail), []) == Ok(Some(rest))
  {
    assert rootFile + "!/" + name + "!/!/" + tail == rootFile + [] + "!/" + rest;
    ExtractFullSpecComposed(rootFile, [], rest);
  }

  /** A separator right at `index`. */
  lemma SeparatorFirst(spec: string, index: nat, tail: string)
    requires index <= |spec| && spec[index..] == "!/" + tail
    ensures IndexOfSeparator(spec, index) == index && spec[index..index] == []
  {
    assert spec[index] == spec[index..][0] && spec[index + 1] == spec[index..][1];
  }

  /** Every connection the descent makes stays in the root file and on a well-formed jar. */
  lemma {:induction false} DescendKeepsRoot(p: Platform, fast: bool, url: Url, current: JarFile,
                                            spec: string, index: nat)
    requires index <= |spec| && WellFormed(current)
    ensures var r := Descend(p, fast, url, current, spec, index);
            r.Connection? && r.jarFile.Some? ==>
              WellFormed(r.jarFile.value) && r.jarFile.value.rootFilePath == current.rootFilePath
    decreases |spec| - index
  {
    var name := DescendUnfolds(p, fast, url, current, spec, index);
    if name.Some? {
      NestedWellFormed(current, name.value);
      DescendKeepsRoot(p, fast, url, current.nested[name.value], spec, IndexOfSeparator(spec, index) + 2);
    }
  }

  /**
   * One iteration of the loop of `get`: either it steps into the nested jar of
   * an entry, or the result is final and holds no jar file but `current`.
   */
  lemma DescendUnfolds(p: Platform, fast: bool, url: Url, current: JarFile, spec: string, index: nat)
    returns (name: Option<string>)
    requires index <= |spec|
    ensures name.Some? ==>
              && IndexOfSeparator(spec, index) > 0 && name.value in current.nested
              && Descend(p, fast, url, current, spec, index) ==
                 Descend(p, fast, url, current.nested[name.value], spec, IndexOfSeparator(spec, index) + 2)
    ensures name.None? ==>
              var r := Descend(p, fast, url, current, spec, index);
              r.Connection? && r.jarFile.Some? ==> r.jarFile.value == current
  {
    var separator := IndexOfSeparator(spec, index);
    name := None;
    if separator > 0 {
      var n := EntryNameOf(p, spec[index..separator], 0);
      if n.Ok? && n.value in current.entries && n.value in current.nested {
        name := Some(n.value);
      }
    }
  }

  /** Whatever `get` returns for a well-formed jar asks permission to read that jar's root file. */
  lemma ResolveKeepsRoot(p: Platform, flag: Option<bool>, url: Url, root: JarFile)
    requires WellFormed(root)
    ensures var r := Resolve(p, flag, url, root);
            r.Connection? && r.jarFile.Some? ==> PermissionFor(r.jarFile.value) == PermissionFor(root)
  {
    match ExtractFullSpec(url, root.pathFromRoot)
    case Err(f) =>
    case Ok(None) =>
    case Ok(Some(spec)) => DescendKeepsRoot(p, UseFastExceptions(flag), url, root, spec, 0);
  }

  /** A URL outside every jar: the shared connection in fast mode, else one without a jar file. */
  lemma ResolveUnrooted(p: Platform, flag: Option<bool>, url: Url, root: JarFile)
    requires NoSeparator(url.file)
    ensures Resolve(p, flag, url, root) ==
              if UseFastExceptions(flag) then NotFoundConnection else Connection(Some(url), None, [])
    ensures Connect(Fresh(None, []), UseFastExceptions(flag)).1 == Fail(SharedFileNotFound)
  {
    ExtractFullSpecUnrooted(url, root.pathFromRoot);
  }

  // ---------------------------------------------------------------------------
  // Connecting

  /** A second `connect()` after a successful one succeeds at once, changing nothing and looking nothing up. */
  lemma ConnectIdempotent(s: ConnectionState, fast: bool, again: bool)
    requires Connect(s, fast).1 == Pass
    ensures Connect(Connect(s, fast).0, again) == (Connect(s, fast).0, Pass)
  {
  }

  /** The flag decides only what a failure carries: states and success are the same in both modes. */
  lemma ConnectModes(s: ConnectionState)
    ensures Connect(s, true).0 == Connect(s, false).0
    ensures Connect(s, true).1.Pass? == Connect(s, false).1.Pass?
  {
  }

  // ---------------------------------------------------------------------------
  // The container URL and the advisory values

  /** The outermost jar: its container URL is the root file's own URL, with or without the trailing `!/`. */
  lemma BuildJarFileUrlOfRoot(root: string)
    requires NoSeparator(root)
    ensures BuildJarFileUrl(root + "!/") == root
    ensures BuildJarFileUrl(root) == root
  {
    assert (root + "!/")[..|root|] == root;
    NoSeparatorAfter(root, 0, root);
    if EndsWith(root, "!/") {
      assert IsSeparatorAt(root, |root| - 2);
    }
  }

  /** A nested jar: the container URL is a `jar:` URL naming the root file and the nesting path. */
  lemma BuildJarFileUrlOfNested(root: string, pathFromRoot: string)
    requires NoSeparator(root) && StartsWithAt(pathFromRoot, "!/", 0)
    ensures BuildJarFileUrl(root + pathFromRoot + "!/") == "jar:" + root + pathFromRoot
  {
    var u := root + pathFromRoot + "!/";
    assert u[..|u| - 2] == root + pathFromRoot;
    assert pathFromRoot[..2] == (pathFromRoot + [])[..2];
    FirstSeparatorAt(root, pathFromRoot);
  }

  /**
   * `getContentLength()` never takes its -1 branch on a well-formed jar:
   * every value `getContentLengthLong()` returns already fits an `int`.
   */
  lemma ContentLengthNotNarrowed(jarFile: Option<JarFile>, name: string)
    requires jarFile.Some? ==> WellFormed(jarFile.value)
    ensures IsInt(ContentLengthLong(jarFile, name))
    ensures ContentLength(ContentLengthLong(jarFile, name)) == ContentLengthLong(jarFile, name)
  {
  }
}
