/** What the upload and delete pipeline of `VideoStorageService` guarantees, and where it falls short. */
module StorageProperties {
  import opened Wrappers
  import opened Strings
  import opened Paths
  import opened Errors
  import opened Storage

  /** Prefix matching: appending codec parameters to an accepted content type keeps it accepted. */
  lemma VideoTypeAcceptsParameters(contentType: string, parameters: string)
    requires IsVideoFile(contentType)
    ensures IsVideoFile(contentType + parameters)
  {
    var i :| 0 <= i < |VideoTypes| && VideoTypes[i] <= contentType;
    assert VideoTypes[i] <= contentType + parameters;
  }

  /** Declared types that pass: codec parameters, and unlisted subtypes that merely start with a listed one. */
  lemma VideoTypesAccepted()
    ensures IsVideoFile("video/quicktime")
    ensures IsVideoFile("video/mp4; codecs=avc1")
    ensures IsVideoFile("video/mpeg4-generic")
  {
    assert IsVideoFile("video/quicktime") by {
      assert VideoTypes[2] <= "video/quicktime";
    }
    assert IsVideoFile("video/mp4") by {
      assert VideoTypes[0] <= "video/mp4";
    }
    VideoTypeAcceptsParameters("video/mp4", "; codecs=avc1");
    assert IsVideoFile("video/mpeg") by {
      assert VideoTypes[1] <= "video/mpeg";
    }
    VideoTypeAcceptsParameters("video/mpeg", "4-generic");
  }

  /** Declared types that are refused: other top-level types, other letter case, unlisted video subtypes. */
  lemma VideoTypesRefused()
    ensures !IsVideoFile("application/pdf")
    ensures !IsVideoFile("Video/MP4")
    ensures !IsVideoFile("video/ogg")
  {
    assert "application/pdf"[0] != 'v';
    assert "Video/MP4"[0] != 'v';
    forall i | 0 <= i < |VideoTypes| ensures !(VideoTypes[i] <= "video/ogg") {
      assert VideoTypes[i][6] != 'o';
    }
  }

  /** The extension is exactly the text after the last dot. */
  lemma {:induction false} ExtensionAfterLastDot(base: string, ext: string)
    requires '.' !in ext
    ensures ExtensionOf(Some(base + "." + ext)) == ext
  {
    var s := base + "." + ext;
    assert s[|s| - |ext| - 1] == '.';
    assert s[|s| - |ext|..] == ext;
  }

  /** The stored name keeps the original name's extension: reading it back gives the same text. */
  lemma ExtensionKept(token: string, originalFilename: Option<string>)
    ensures ExtensionOf(Some(UniqueFilename(token, originalFilename))) == ExtensionOf(originalFilename)
  {
    var ext := ExtensionOf(originalFilename);
    assert UniqueFilename(token, originalFilename) == token + "." + ext;
    ExtensionAfterLastDot(token, ext);
  }

  /**
   * What the containment results below need of the random token: some text, with no
   * separator, no dot and no NUL. UUID text is such a token.
   */
  predicate SafeToken(token: string) {
    token != "" && '/' !in token && '.' !in token && '\0' !in token
  }

  lemma UuidIsSafe(token: string)
    requires IsUuid(token)
    ensures SafeToken(token)
  {
    forall i | 0 <= i < |token| ensures token[i] != '/' && token[i] != '.' && token[i] != '\0' {
      if !(i == 8 || i == 13 || i == 18 || i == 23) {
        assert token[i] in "0123456789abcdef";
      }
    }
  }

  /** A name with no separator splits into the names of its parts around a separator. */
  lemma SegmentsAroundSeparator(first: string, rest: string)
    requires first != "" && '/' !in first
    ensures Segments(first + "/" + rest) == [first] + Segments(rest)
  {
    SegmentsOfName(first);
    SegmentsJoin(first, rest);
  }

  /** The names of a dot-free text are all plain. */
  lemma DotFreeNamesArePlain(s: string)
    requires '.' !in s
    ensures forall k :: 0 <= k < |Segments(s)| ==> Plain(Segments(s)[k])
  {
    var names := Segments(s);
    SegmentsChars(s);
    forall k | 0 <= k < |names| ensures Plain(names[k]) {
      assert '.' !in names[k];
    }
  }

  /** "<token>.<ext>" with a separator-free extension is one plain, relative name. */
  lemma SingleNameShape(token: string, ext: string)
    requires SafeToken(token) && '/' !in ext
    ensures var name := token + "." + ext;
      !Parse(name).absolute && Segments(name) == [name] && Plain(name)
  {
    var name := token + "." + ext;
    assert name[0] == token[0];
    SegmentsOfName(name);
  }

  /** "<token>.<ext>" with a dot-free extension holding a separator at `i` splits into plain names there. */
  lemma SplitNameShape(token: string, ext: string, i: nat)
    requires SafeToken(token) && '.' !in ext
    requires i < |ext| && ext[i] == '/' && '/' !in ext[..i]
    ensures var name := token + "." + ext;
      !Parse(name).absolute && |Segments(name)| >= 1 &&
      forall k :: 0 <= k < |Segments(name)| ==> Plain(Segments(name)[k])
  {
    var name := token + "." + ext;
    assert name[0] == token[0];
    var first := token + "." + ext[..i];
    assert name == first + "/" + ext[i + 1..];
    assert first[0] == token[0];
    assert '.' !in ext[i + 1..] by {
      assert ext == ext[..i + 1] + ext[i + 1..];
    }
    SegmentsAroundSeparator(first, ext[i + 1..]);
    DotFreeNamesArePlain(ext[i + 1..]);
  }

  /**
   * A name built from a safe token is relative and every one of its names is plain: the first
   * holds the token, and the others come from the extension, which has no dot.
   * An extension without a separator gives a single name.
   */
  lemma UploadNameShape(token: string, originalFilename: Option<string>)
    requires SafeToken(token)
    ensures var name := UniqueFilename(token, originalFilename);
      !Parse(name).absolute && |Segments(name)| >= 1 &&
      (forall k :: 0 <= k < |Segments(name)| ==> Plain(Segments(name)[k])) &&
      ('/' !in ExtensionOf(originalFilename) ==> Segments(name) == [name])
  {
    var ext := ExtensionOf(originalFilename);
    match IndexOf(ext, '/')
    case None =>
      SingleNameShape(token, ext);
    case Some(i) =>
      SplitNameShape(token, ext, i);
  }

  /**
   * For a plain single-name file name the check passes exactly when the configured root is
   * already normal, and the destination is then that name directly under the absolute root.
   * The root is never normalised, so "." names (or ".." names in an absolute root) make
   * every store fail.
   */
  lemma PlainNameContainment(root: Path, name: string, cwd: seq<string>)
    requires Parse(name) == Path(false, [name]) && Plain(name)
    ensures CheckContainment(root, name, cwd).Success? <==> IsNormal(root) && '\0' !in name
    ensures IsNormal(root) && '\0' !in name ==>
      CheckContainment(root, name, cwd).value == Path(true, ToAbsolute(root, cwd).segments + [name])
  {
    if '\0' !in name {
      var normal := Normalize(root);
      NormalThenName(root, name);
      ToAbsoluteAppend(normal, [name], cwd);
      LastNameUnderRoot(ToAbsolute(normal, cwd).segments, [name]);
      ToAbsoluteInjective(normal, root, cwd);
    }
  }

  /** Resolving a plain single name against the root and normalising appends it to the normalised root. */
  lemma NormalThenName(root: Path, name: string)
    requires Parse(name) == Path(false, [name]) && Plain(name)
    ensures Normalize(Resolve(root, Parse(name))) == Path(root.absolute, Normalize(root).segments + [name])
  {
    NormFromAppend(root.absolute, [], root.segments, [name]);
    NormFromPlain(root.absolute, Normalize(root).segments, [name]);
  }

  /** Two paths of the same kind are equal exactly when their absolute forms are. */
  lemma ToAbsoluteInjective(p: Path, q: Path, cwd: seq<string>)
    requires p.absolute == q.absolute
    ensures ToAbsolute(p, cwd) == ToAbsolute(q, cwd) <==> p == q
  {
    if !p.absolute && ToAbsolute(p, cwd) == ToAbsolute(q, cwd) {
      assert p.segments == ToAbsolute(p, cwd).segments[|cwd|..];
    }
  }

  /**
   * Under a normal root, a relative name made of plain names passes the check exactly
   * when it is one name: a second name, even one that only a separator introduces, is refused.
   */
  lemma NormalRootContainment(root: Path, name: string, cwd: seq<string>)
    requires IsNormal(root)
    requires !Parse(name).absolute
    requires forall k :: 0 <= k < |Segments(name)| ==> Plain(Segments(name)[k])
    ensures CheckContainment(root, name, cwd).Success? <==> |Segments(name)| == 1 && '\0' !in name
  {
    if '\0' !in name {
      var base := ToAbsolute(root, cwd).segments;
      NormalRootDestination(root, name, cwd);
      LastNameUnderRoot(base, Parse(name).segments);
    }
  }

  /** Under a normal root, a relative name of plain names lands at its names after the absolute root. */
  lemma NormalRootDestination(root: Path, name: string, cwd: seq<string>)
    requires IsNormal(root)
    requires !Parse(name).absolute
    requires forall k :: 0 <= k < |Segments(name)| ==> Plain(Segments(name)[k])
    ensures Destination(root, name, cwd) == Path(true, ToAbsolute(root, cwd).segments + Parse(name).segments)
  {
    var names := Parse(name).segments;
    PlainUnderNormalRoot(root, names);
    assert Resolve(root, Parse(name)) == Path(root.absolute, root.segments + names);
    ToAbsoluteAppend(root, names, cwd);
  }

  /** Making `root` followed by more names absolute puts the names after the absolute root. */
  lemma ToAbsoluteAppend(root: Path, names: seq<string>, cwd: seq<string>)
    ensures ToAbsolute(Path(root.absolute, root.segments + names), cwd) == Path(true, ToAbsolute(root, cwd).segments + names)
  {
    if !root.absolute {
      assert cwd + (root.segments + names) == (cwd + root.segments) + names;
    }
  }

  /** Appending plain names to a normal path keeps it normal. */
  lemma PlainUnderNormalRoot(root: Path, names: seq<string>)
    requires IsNormal(root)
    requires forall k :: 0 <= k < |names| ==> Plain(names[k])
    ensures Normalize(Path(root.absolute, root.segments + names)) == Path(root.absolute, root.segments + names)
  {
    NormFromAppend(root.absolute, [], root.segments, names);
    NormFromPlain(root.absolute, root.segments, names);
  }

  /** The absolute path `base + names` has parent `base` exactly when `names` is one name. */
  lemma LastNameUnderRoot(base: seq<string>, names: seq<string>)
    ensures Parent(Path(true, base + names)) == Some(Path(true, base)) <==> |names| == 1
  {
    var full := base + names;
    if |names| > 0 {
      assert full[..|full| - 1] == base + names[..|names| - 1];
    } else {
      assert full == base;
    }
  }

  /**
   * The check on the names the service actually generates: under a normal root it passes
   * exactly for single-name file names; and when the extension holds no separator it passes
   * exactly when the root is normal, storing the file directly under the root.
   */
  lemma UploadContainment(root: Path, token: string, originalFilename: Option<string>, cwd: seq<string>)
    requires SafeToken(token)
    ensures var name := UniqueFilename(token, originalFilename);
      IsNormal(root) ==> (CheckContainment(root, name, cwd).Success? <==> |Segments(name)| == 1 && '\0' !in name)
    ensures var name := UniqueFilename(token, originalFilename);
      '/' !in ExtensionOf(originalFilename) ==>
        (CheckContainment(root, name, cwd).Success? <==> IsNormal(root) && '\0' !in name) &&
        (IsNormal(root) && '\0' !in name ==>
          CheckContainment(root, name, cwd).value == Path(true, ToAbsolute(root, cwd).segments + [name]))
  {
    var name := UniqueFilename(token, originalFilename);
    UploadNameShape(token, originalFilename);
    if IsNormal(root) {
      NormalRootContainment(root, name, cwd);
    }
    if '/' !in ExtensionOf(originalFilename) {
      assert Plain(Segments(name)[0]);
      PlainNameContainment(root, name, cwd);
    }
  }

  /**
   * Passing the check does not mean the stored name is free of separators: an original
   * name ending in a separator ("clip.mov/") yields "<token>.mov/", which the check accepts
   * unless the extension holds NUL.
   */
  lemma TrailingSeparatorPasses(root: Path, token: string, base: string, ext: string, cwd: seq<string>)
    requires SafeToken(token) && IsNormal(root)
    requires ext != "" && '.' !in ext && '/' !in ext
    ensures var name := UniqueFilename(token, Some(base + "." + ext + "/"));
      '/' in name && (CheckContainment(root, name, cwd).Success? <==> '\0' !in ext)
  {
    TrailingSeparatorNul(token, base, ext);
    TrailingSeparatorName(token, base, ext);
    UploadContainment(root, token, Some(base + "." + ext + "/"), cwd);
  }

  /** The stored name "<token>.<ext>/" holds NUL exactly when the extension does. */
  lemma TrailingSeparatorNul(token: string, base: string, ext: string)
    requires SafeToken(token) && '.' !in ext
    ensures '\0' in UniqueFilename(token, Some(base + "." + ext + "/")) <==> '\0' in ext
  {
    assert base + "." + ext + "/" == base + "." + (ext + "/");
    ExtensionAfterLastDot(base, ext + "/");
    var name := UniqueFilename(token, Some(base + "." + ext + "/"));
    assert name == token + "." + ext + "/";
  }

  /** The stored name for an original name with a trailing separator is one segment ending in '/'. */
  lemma TrailingSeparatorName(token: string, base: string, ext: string)
    requires SafeToken(token)
    requires ext != "" && '.' !in ext && '/' !in ext
    ensures var name := UniqueFilename(token, Some(base + "." + ext + "/"));
      '/' in name && |Segments(name)| == 1
  {
    assert base + "." + ext + "/" == base + "." + (ext + "/");
    ExtensionAfterLastDot(base, ext + "/");
    var name := UniqueFilename(token, Some(base + "." + ext + "/"));
    var first := token + "." + ext;
    assert name == first + "/" + "";
    assert name[|name| - 1] == '/';
    NoSeparatorAround(token, ext);
    SegmentsOfName(first);
    SegmentsJoin(first, "");
  }

  /** Joining two separator-free texts with a dot gives a separator-free text. */
  lemma NoSeparatorAround(token: string, ext: string)
    requires '/' !in token && '/' !in ext
    ensures '/' !in token + "." + ext
  {
    var joined := token + "." + ext;
    forall j | 0 <= j < |joined| ensures joined[j] != '/' {
      if j < |token| {
        assert joined[j] == token[j];
      } else if j > |token| {
        assert joined[j] == ext[j - |token| - 1];
      }
    }
  }

  /**
   * Uploading then deleting by the saved file name: the first delete removes exactly the file
   * the upload wrote, a second delete of the same name finds nothing and reports false.
   */
  lemma UploadThenDeleteTwice(root: Path, cwd: seq<string>, files: map<Path, seq<byte>>, records: seq<StoredVideo>,
                              file: MultipartFile, env: StoreEnv)
    requires StoreOutcome(root, cwd, files, records, file, env).0.Success?
    ensures var o := StoreOutcome(root, cwd, files, records, file, env);
      var name := o.0.value.filename.value;
      var first := DeleteOutcome(root, cwd, o.1, name, false);
      var second := DeleteOutcome(root, cwd, first.1, name, false);
      first.0 == Success(true) && first.1 == o.1 - {Location(root, name, cwd)} &&
      o.1[Location(root, name, cwd)] == file.content &&
      second.0 == Success(false) && second.1 == first.1
  {
  }

  /**
   * `deleteVideo` has no containment check: under an absolute normal root "/a/.../d",
   * the name "../x" deletes "/a/.../x" outside the root, a name the store would refuse.
   */
  lemma DeleteEscapesRoot(root: Path, x: string, cwd: seq<string>)
    requires root.absolute && IsNormal(root) && |root.segments| > 0
    requires x != "" && '/' !in x && Plain(x)
    ensures Location(root, "../" + x, cwd) == Path(true, root.segments[..|root.segments| - 1] + [x])
    ensures CheckContainment(root, "../" + x, cwd).Failure?
  {
    var r := root.segments;
    var escaped := r[..|r| - 1] + [x];
    UpOneName(x);
    var resolved := Resolve(root, Parse("../" + x));
    assert resolved == Path(true, r + ["..", x]);
    ParentThenName(r, x);
    assert Normalize(resolved) == Path(true, escaped);
    assert Destination(root, "../" + x, cwd) == Path(true, escaped);
    LastNameUnderRoot(r[..|r| - 1], [x]);
    assert Parent(Path(true, escaped)) != Some(Path(true, r));
    NormFromClean(true, [], r);
    PlainNamesAreNormal(escaped);
  }

  /** "../x" is the relative path of the two names ".." and "x". */
  lemma UpOneName(x: string)
    requires x != "" && '/' !in x
    ensures Parse("../" + x) == Path(false, ["..", x])
  {
    assert "../" + x == ".." + "/" + x;
    SegmentsOfName("..");
    SegmentsOfName(x);
    SegmentsJoin("..", x);
  }

  /** Under a normal absolute path, ".." then a plain name replaces the last name. */
  lemma ParentThenName(r: seq<string>, x: string)
    requires NormFrom(true, [], r) == r && |r| > 0 && Plain(x)
    ensures NormFrom(true, [], r + ["..", x]) == r[..|r| - 1] + [x]
  {
    NormFromAppend(true, [], r, ["..", x]);
    NormFromClean(true, [], r);
    assert r[|r| - 1] in r;
    var up := NormFrom(true, r, [".."]);
    UpThenName(r, up, x);
  }

  /** The two steps of ParentThenName, on the already-normal prefix. */
  lemma UpThenName(r: seq<string>, up: seq<string>, x: string)
    requires |r| > 0 && r[|r| - 1] != ".." && Plain(x)
    requires up == NormFrom(true, r, [".."])
    ensures up == r[..|r| - 1]
    ensures NormFrom(true, r, ["..", x]) == r[..|r| - 1] + [x]
  {
    assert [".."][..0] == [];
    assert up == Step(true, r, "..");
    assert ["..", x][..1] == [".."];
    assert NormFrom(true, r, ["..", x]) == Step(true, up, x);
  }

  /** An absolute path of plain names is normal. */
  lemma PlainNamesAreNormal(names: seq<string>)
    requires forall k :: 0 <= k < |names| ==> Plain(names[k])
    ensures Normalize(Path(true, names)) == Path(true, names)
  {
    NormFromPlain(true, [], names);
    assert [] + names == names;
  }

  /** An empty upload is refused with the "select a file" text whatever its declared type. */
  lemma EmptyCheckedFirst(file: MultipartFile)
    requires file.IsEmpty() && file.contentType.Some? && IsVideoFile(file.contentType.value)
    ensures Validate(file) == Fail(BadRequest(EmptyFileMessage))
    ensures Handle(Validate(file).error) == ErrorEntity(BAD_REQUEST, CustomErrorDetails(EmptyFileMessage))
  {
  }

  /**
   * An extension holding NUL makes `resolve` throw `InvalidPathException`, which no
   * `IOException` handler catches: nothing is written or saved.
   */
  lemma NulExtensionRefused(root: Path, cwd: seq<string>, files: map<Path, seq<byte>>, records: seq<StoredVideo>,
                            file: MultipartFile, env: StoreEnv)
    requires '\0' in ExtensionOf(file.originalFilename)
    ensures var name := UniqueFilename(env.token, file.originalFilename);
      StoreOutcome(root, cwd, files, records, file, env) == (Failure(InvalidPath(name)), files, records)
  {
    var name := UniqueFilename(env.token, file.originalFilename);
    NulExtensionInName(env.token, file.originalFilename);
    assert CheckContainment(root, name, cwd) == Failure(InvalidPath(name));
  }

  /** `InvalidPathException` has no handler of its own: the generic one answers 500 with its message. */
  lemma InvalidPathUnhandled(input: string)
    ensures Handle(InvalidPath(input)) ==
      ErrorEntity(INTERNAL_SERVER_ERROR, CustomErrorDetails((NulReason + ": " + input) + UnhandledSuffix))
  {
    UnhandledBody(InvalidPath(input));
  }

  /** A NUL in the extension is a NUL in the generated name. */
  lemma NulExtensionInName(token: string, originalFilename: Option<string>)
    requires '\0' in ExtensionOf(originalFilename)
    ensures '\0' in UniqueFilename(token, originalFilename)
  {
    assert UniqueFilename(token, originalFilename) == token + "." + ExtensionOf(originalFilename);
  }

  /** Every failure of an upload reaches the client as 400 (validation) or 500 (storage). */
  lemma UploadFailureStatus(root: Path, cwd: seq<string>, files: map<Path, seq<byte>>, records: seq<StoredVideo>,
                            file: MultipartFile, env: StoreEnv)
    requires env.saveError.Some? ==> env.saveError.value.IO? || env.saveError.value.Other?
    ensures Validate(file).Fail? ==> Handle(Validate(file).error).status == BAD_REQUEST
    ensures var o := StoreOutcome(root, cwd, files, records, file, env);
      o.0.Failure? ==> Handle(o.0.error).status == INTERNAL_SERVER_ERROR
  {
    var o := StoreOutcome(root, cwd, files, records, file, env);
    if o.0.Failure? {
      StoreErrorKinds(root, cwd, files, records, file, env);
      StatusClasses(o.0.error);
    }
  }

  /** A failed store throws a storage error, the invalid-path exception, or an unhandled one. */
  lemma StoreErrorKinds(root: Path, cwd: seq<string>, files: map<Path, seq<byte>>, records: seq<StoredVideo>,
                        file: MultipartFile, env: StoreEnv)
    requires env.saveError.Some? ==> env.saveError.value.IO? || env.saveError.value.Other?
    ensures var o := StoreOutcome(root, cwd, files, records, file, env);
      o.0.Failure? ==> o.0.error.InternalServerError? || o.0.error.IllegalArgument? || o.0.error.Other?
  {
    var name := UniqueFilename(env.token, file.originalFilename);
    var check := CheckContainment(root, name, cwd);
    if check.Success? && env.copyError.None? && env.saveError.Some? {
      var e := StoreFailure(env.saveError.value);
      assert e.InternalServerError? || e.Other?;
    }
  }
}
