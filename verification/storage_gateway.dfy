/**
 * The dynamic local-file route `GET /data/{bucket}/{file_path}` of the
 * service: normalise the requested path, reject traversal, find the
 * registered LOCAL endpoint for the bucket, choose the bucket directory,
 * check that the resolved file lies under the resolved bucket directory,
 * and serve it with a media type chosen from its suffix.
 *
 * The filesystem (`Path.resolve`, `exists`, `is_file`) and the suffix-to-MIME
 * table are not modelled; they are fields of `Host`, applied to path strings.
 */
module StorageGateway {
  import opened Wrappers
  import opened PosixPath

  /** The kind of a storage endpoint; only `Local` endpoints are served here. */
  datatype Provider = Local | Remote(kind: string)

  /** A registered storage endpoint, in registry order. */
  datatype Endpoint = Endpoint(id: nat, provider: Provider, bucketName: string, rootPath: string)

  /**
   * What the handler reads from its surroundings: the configured data
   * directory and the filesystem and MIME oracles. `resolve` gives the string
   * of the resolved path, or `None` when resolving raises.
   */
  datatype Host = Host(
    dataPath: string,
    resolve: string -> Option<string>,
    pathExists: string -> bool,
    isFile: string -> bool,
    mimeType: string -> string)

  /** The handler's answer: a file to stream, or an HTTP error. */
  datatype Response =
    | FileResponse(path: string, mediaType: string)
    | HttpError(status: int, detail: string)

  const InvalidPath: string := "Invalid path"
  const BucketNotFound: string := "Storage bucket not found"
  const FileNotFound: string := "File not found"

  function StatusOf(r: Response): int {
    if r.FileResponse? then 200 else r.status
  }

  // ---------------------------------------------------------------------------
  // Step 1: normalise and reject
  // ---------------------------------------------------------------------------

  /** `os.path.normpath(file_path).lstrip("/")`: never rooted. */
  function Normalize(filePath: string): (r: string)
    ensures !IsAbs(r)
  {
    LStripSlashes(NormPath(filePath))
  }

  /** The substring test `".." in s`. */
  predicate HasDotDot(s: string) {
    exists i | 0 <= i < |s| - 1 :: s[i] == '.' && s[i + 1] == '.'
  }

  /** The guard of the handler: a ".." anywhere, or a leading '/'. */
  predicate PathRejected(normalized: string) {
    HasDotDot(normalized) || IsAbs(normalized)
  }

  /**
   * What `Normalize` leaves: "." for an empty relative result, "" for a
   * bare root, and otherwise the collapsed names joined with '/'.
   */
  lemma NormalizeShape(p: string)
    ensures Collapsed(NormStack(p), InitialSlashes(p) > 0)
    ensures NormStack(p) == [] && InitialSlashes(p) == 0 ==> Normalize(p) == "."
    ensures NormStack(p) == [] && InitialSlashes(p) > 0 ==> Normalize(p) == ""
    ensures NormStack(p) != [] ==> Normalize(p) == Join(NormStack(p))
  {
    var root := InitialSlashes(p);
    var st := NormStack(p);
    NormPathCollapsed(p);
    if st != [] {
      JoinHead(st);
      assert NormPath(p) == Slashes(root) + Join(st);
      LStripRoot(root, Join(st));
    } else if root > 0 {
      assert NormPath(p) == Slashes(root) + "";
      LStripRoot(root, "");
    }
  }

  /**
   * After normalisation no empty or "." name is left: the result is ".", "",
   * or names joined with '/' in which every ".." comes before any other name.
   */
  lemma NormalizedNames(p: string)
    ensures var q := Normalize(p); q == "" || q == "." || Collapsed(Split(q), false)
  {
    NormalizeShape(p);
    var st := NormStack(p);
    if st != [] {
      SplitJoin(st);
    }
  }

  /** A relative path already in normal form is left alone by `Normalize`. */
  lemma NormalizeFixesNormalForm(st: seq<string>)
    requires st != []
    requires Collapsed(st, false)
    ensures Normalize(Join(st)) == Join(st)
  {
    NormPathFixesNormalForm(st);
    JoinHead(st);
  }

  /**
   * Normalising twice is normalising once, except for a bare root: "/"
   * normalises to "", and "" normalises to ".".
   */
  lemma NormalizeIdempotent(p: string)
    requires Normalize(p) != ""
    ensures Normalize(Normalize(p)) == Normalize(p)
  {
    NormalizeShape(p);
    var st := NormStack(p);
    if st == [] {
      assert Normalize(p) == ".";
      SplitName(".");
      assert Split(".") == ["."];
      assert NormStack(".") == [];
      assert NormPath(".") == ".";
    } else {
      NormalizeFixesNormalForm(st);
    }
  }

  /** The pathlib names of a normalised path are the stack `normpath` built. */
  lemma NormalizedParts(p: string)
    ensures Parts(Normalize(p)) == NormStack(p)
  {
    NormalizeShape(p);
    NoNames();
    PartsOfJoin(NormStack(p));
  }

  /**
   * The exception to idempotence: a bare root normalises to "", which the
   * guard accepts, and "" normalises to ".".
   */
  lemma BareRootNormalizesToEmpty()
    ensures Normalize("/") == ""
    ensures !PathRejected("")
    ensures Normalize("") == "."
  {
    assert "/" == [Sep] + "";
    SplitSlash("");
    assert Split("/") == ["", ""];
    assert NormStack("/") == [] by {
      assert ["", ""][1..] == [""];
    }
    NormalizeShape("/");
    assert NormStack("") == [];
    NormalizeShape("");
  }

  /** An accepted, normalised path names no parent directory: its pathlib names contain no "..". */
  lemma AcceptedPathHasNoParentName(p: string)
    requires !PathRejected(Normalize(p))
    ensures forall k | 0 <= k < |Parts(Normalize(p))| :: Parts(Normalize(p))[k] != ".."
  {
    NormalizedParts(p);
    NormalizeShape(p);
    var st := NormStack(p);
    var q := Normalize(p);
    if st != [] {
      JoinStartsWithFirst(st);
      assert st[0] == ".." ==> q[0] == '.' && q[1] == '.';
    }
  }

  /**
   * The guard is a substring test, not a name test: any single file name
   * holding ".." (such as "a..b.jpg") is rejected.
   */
  lemma DottedFileNameRejected(name: string)
    requires IsName(name)
    requires HasDotDot(name)
    ensures Normalize(name) == name
    ensures PathRejected(Normalize(name))
  {
    NormalizeFixesNormalForm([name]);
    assert Join([name]) == name;
  }

  // ---------------------------------------------------------------------------
  // Step 2: find the bucket
  // ---------------------------------------------------------------------------

  predicate IsLocalMatch(ep: Endpoint, bucket: string) {
    ep.provider == Local && ep.bucketName == bucket
  }

  /** The index of the first LOCAL endpoint named `bucket`, in registry order. */
  function FindLocalEndpoint(endpoints: seq<Endpoint>, bucket: string): (r: Option<nat>)
    ensures r.Some? ==> && r.value < |endpoints|
                        && IsLocalMatch(endpoints[r.value], bucket)
                        && forall j | 0 <= j < r.value :: !IsLocalMatch(endpoints[j], bucket)
    ensures r.None? ==> forall j | 0 <= j < |endpoints| :: !IsLocalMatch(endpoints[j], bucket)
    decreases |endpoints|
  {
    if |endpoints| == 0 then None
    else if IsLocalMatch(endpoints[0], bucket) then Some(0)
    else match FindLocalEndpoint(endpoints[1..], bucket)
      case None => None
      case Some(i) => Some(i + 1)
  }

  /** An endpoint whose provider is not LOCAL is never selected, whatever its name. */
  lemma NonLocalNeverSelected(endpoints: seq<Endpoint>, bucket: string, i: nat)
    requires i < |endpoints| && endpoints[i].provider != Local
    ensures FindLocalEndpoint(endpoints, bucket) != Some(i)
  {
  }

  // ---------------------------------------------------------------------------
  // Step 3: the bucket directory and the requested file
  // ---------------------------------------------------------------------------

  /**
   * `Path(bucket)` for an absolute bucket, else `data_path / bucket`; the
   * endpoint's stored root path plays no part.
   */
  function BasePath(dataPath: string, bucket: string): (r: string)
    ensures IsAbs(bucket) ==> InitialSlashes(r) == InitialSlashes(bucket) && Parts(r) == Parts(bucket)
    ensures !IsAbs(bucket) ==> InitialSlashes(r) == InitialSlashes(dataPath) && Parts(r) == Parts(dataPath) + Parts(bucket)
    ensures PurePathStr(r) == r
  {
    if IsAbs(bucket) then
      PartsAreNames(bucket);
      ParseFormat(InitialSlashes(bucket), Parts(bucket));
      PurePathStr(bucket)
    else
      JoinPathParts(dataPath, bucket);
      PurePathStrIdempotent(PosixJoin(dataPath, bucket));
      PurePathStr(PosixJoin(dataPath, bucket))
  }

  /** `base_path / normalized_path`. */
  function FullPath(base: string, normalized: string): string {
    JoinPath(base, normalized)
  }

  /**
   * Without symbolic links an accepted path cannot leave the bucket: the
   * requested file has the bucket directory's root and names, followed only
   * by names that are not "..".
   */
  lemma LexicallyInsideBase(dataPath: string, bucket: string, filePath: string)
    requires !PathRejected(Normalize(filePath))
    ensures InitialSlashes(FullPath(BasePath(dataPath, bucket), Normalize(filePath))) == InitialSlashes(BasePath(dataPath, bucket))
    ensures Parts(FullPath(BasePath(dataPath, bucket), Normalize(filePath))) == Parts(BasePath(dataPath, bucket)) + Parts(Normalize(filePath))
    ensures forall k | 0 <= k < |Parts(Normalize(filePath))| :: Parts(Normalize(filePath))[k] != ".."
  {
    JoinPathParts(BasePath(dataPath, bucket), Normalize(filePath));
    AcceptedPathHasNoParentName(filePath);
  }

  /** A request for "" or "." names the bucket directory itself. */
  lemma EmptyRequestIsBase(base: string, normalized: string)
    requires PurePathStr(base) == base
    requires normalized == "" || normalized == "."
    ensures FullPath(base, normalized) == base
  {
    PosixJoinRoot(base, normalized);
    PosixJoinNames(base, normalized);
    NoNames();
    assert Parts(base) + [] == Parts(base);
  }

  // ---------------------------------------------------------------------------
  // The handler
  // ---------------------------------------------------------------------------

  /**
   * `serve_local_file(bucket, file_path)` against the registry `endpoints`.
   * The 403 for a resolved path outside the bucket is raised inside the
   * `try` whose `except Exception` turns it into a 400, so the handler never
   * answers 403.
   */
  function Serve(endpoints: seq<Endpoint>, host: Host, bucket: string, filePath: string): (r: Response)
    ensures r.HttpError? ==> r.status == 400 || r.status == 404
    ensures r.FileResponse? ==> && host.pathExists(r.path) && host.isFile(r.path)
                                && r.mediaType == host.mimeType(Suffix(r.path))
  {
    var normalized := Normalize(filePath);
    if PathRejected(normalized) then HttpError(400, InvalidPath)
    else if FindLocalEndpoint(endpoints, bucket).None? then HttpError(404, BucketNotFound)
    else
      var base := BasePath(host.dataPath, bucket);
      var full := FullPath(base, normalized);
      match (host.resolve(full), host.resolve(base))
      case (Some(fullResolved), Some(baseResolved)) =>
        if !(baseResolved <= fullResolved) then HttpError(400, InvalidPath)
        else if !host.pathExists(fullResolved) || !host.isFile(fullResolved) then HttpError(404, FileNotFound)
        else FileResponse(fullResolved, host.mimeType(Suffix(fullResolved)))
      case _ => HttpError(400, InvalidPath)
  }

  /** The resolved bucket directory is a character prefix of the resolved file. */
  predicate ResolvesInside(host: Host, base: string, full: string) {
    && host.resolve(full).Some?
    && host.resolve(base).Some?
    && host.resolve(base).value <= host.resolve(full).value
  }

  /** The handler answers 200, 400 or 404, never 403. */
  lemma NeverForbidden(endpoints: seq<Endpoint>, host: Host, bucket: string, filePath: string)
    ensures StatusOf(Serve(endpoints, host, bucket, filePath)) in {200, 400, 404}
    ensures StatusOf(Serve(endpoints, host, bucket, filePath)) != 403
  {
  }

  /**
   * Path validation comes before any registry access: a rejected path is a
   * 400 whatever the bucket, registered or not, and whatever the filesystem.
   */
  lemma InvalidPathIs400(endpoints: seq<Endpoint>, host: Host, bucket: string, filePath: string)
    requires PathRejected(Normalize(filePath))
    ensures Serve(endpoints, host, bucket, filePath) == HttpError(400, InvalidPath)
  {
  }

  /** A valid path for a bucket with no LOCAL endpoint of that name is a 404. */
  lemma UnknownBucketIs404(endpoints: seq<Endpoint>, host: Host, bucket: string, filePath: string)
    requires !PathRejected(Normalize(filePath))
    requires forall j | 0 <= j < |endpoints| :: endpoints[j].provider != Local || endpoints[j].bucketName != bucket
    ensures Serve(endpoints, host, bucket, filePath) == HttpError(404, BucketNotFound)
  {
  }

  /** The stored root path of an endpoint is never consulted. */
  lemma RootPathNeverConsulted(e1: seq<Endpoint>, e2: seq<Endpoint>, host: Host, bucket: string, filePath: string)
    requires |e1| == |e2|
    requires forall j | 0 <= j < |e1| :: e1[j].provider == e2[j].provider && e1[j].bucketName == e2[j].bucketName
    ensures Serve(e1, host, bucket, filePath) == Serve(e2, host, bucket, filePath)
  {
    var f1 := FindLocalEndpoint(e1, bucket);
    var f2 := FindLocalEndpoint(e2, bucket);
    assert f1.Some? <==> f2.Some? by {
      if f1.Some? {
        assert IsLocalMatch(e2[f1.value], bucket);
      }
      if f2.Some? {
        assert IsLocalMatch(e1[f2.value], bucket);
      }
    }
  }

  /**
   * The outcome is a file exactly when the path is accepted, a LOCAL endpoint
   * is registered for the bucket, both paths resolve with the bucket
   * directory a prefix of the file, and the file exists and is a regular
   * file; it is then that resolved file with the media type of its suffix.
   */
  lemma ServedExactlyWhenChecksPass(endpoints: seq<Endpoint>, host: Host, bucket: string, filePath: string)
    ensures var q := Normalize(filePath);
            var base := BasePath(host.dataPath, bucket);
            var full := FullPath(base, q);
            var r := Serve(endpoints, host, bucket, filePath);
            && (r.FileResponse? <==>
                  && !PathRejected(q)
                  && (exists i | 0 <= i < |endpoints| :: IsLocalMatch(endpoints[i], bucket))
                  && ResolvesInside(host, base, full)
                  && host.pathExists(host.resolve(full).value)
                  && host.isFile(host.resolve(full).value))
            && (r.FileResponse? ==> r == FileResponse(host.resolve(full).value, host.mimeType(Suffix(host.resolve(full).value))))
  {
    var found := FindLocalEndpoint(endpoints, bucket);
    if found.Some? {
      assert IsLocalMatch(endpoints[found.value], bucket);
    }
  }

  /**
   * Once the path is accepted and the bucket found, a failed containment
   * check or a resolve that raises gives 400 (never 403).
   */
  lemma EscapeIs400(endpoints: seq<Endpoint>, host: Host, bucket: string, filePath: string)
    requires !PathRejected(Normalize(filePath))
    requires FindLocalEndpoint(endpoints, bucket).Some?
    requires !ResolvesInside(host, BasePath(host.dataPath, bucket), FullPath(BasePath(host.dataPath, bucket), Normalize(filePath)))
    ensures Serve(endpoints, host, bucket, filePath) == HttpError(400, InvalidPath)
  {
  }

  /**
   * A contained target that does not exist, or is not a regular file, is
   * a 404 "File not found".
   */
  lemma FileNotFoundIs404(endpoints: seq<Endpoint>, host: Host, bucket: string, filePath: string)
    requires !PathRejected(Normalize(filePath))
    requires FindLocalEndpoint(endpoints, bucket).Some?
    ensures var base := BasePath(host.dataPath, bucket);
            var full := FullPath(base, Normalize(filePath));
            ResolvesInside(host, base, full)
              && (!host.pathExists(host.resolve(full).value) || !host.isFile(host.resolve(full).value))
            ==> Serve(endpoints, host, bucket, filePath) == HttpError(404, FileNotFound)
  {
  }

  /**
   * A request naming the bucket directory itself never fails the containment
   * check: when that directory resolves, the answer is the directory (if the
   * filesystem says it is a regular file) or a 404, never a 400.
   */
  lemma BucketDirectoryNeverEscapes(endpoints: seq<Endpoint>, host: Host, bucket: string, filePath: string)
    requires FindLocalEndpoint(endpoints, bucket).Some?
    requires host.resolve(BasePath(host.dataPath, bucket)).Some?
    ensures Normalize(filePath) == "" || Normalize(filePath) == "." ==>
              StatusOf(Serve(endpoints, host, bucket, filePath)) in {200, 404}
  {
    var q := Normalize(filePath);
    if q == "" || q == "." {
      assert !HasDotDot(q);
      assert !PathRejected(q);
      var base := BasePath(host.dataPath, bucket);
      EmptyRequestIsBase(base, q);
      var b := host.resolve(base).value;
      assert host.resolve(FullPath(base, q)) == Some(b);
      assert b <= b;
    }
  }

  /**
   * The containment check compares characters, not names: a sibling
   * directory sharing the bucket directory's name as a prefix passes it.
   */
  lemma SiblingDirectoryPasses(endpoints: seq<Endpoint>, host: Host, bucket: string, filePath: string)
    requires !PathRejected(Normalize(filePath))
    requires FindLocalEndpoint(endpoints, bucket).Some?
    requires host.resolve(BasePath(host.dataPath, bucket)) == Some("/d/photos")
    requires host.resolve(FullPath(BasePath(host.dataPath, bucket), Normalize(filePath))) == Some("/d/photos2/x")
    requires host.pathExists("/d/photos2/x") && host.isFile("/d/photos2/x")
    ensures Serve(endpoints, host, bucket, filePath) == FileResponse("/d/photos2/x", host.mimeType(""))
  {
    SiblingFileHasNoSuffix();
    assert "/d/photos" <= "/d/photos2/x";
  }

  /** The file "/d/photos2/x" has no suffix, so its media type is looked up for "". */
  lemma SiblingFileHasNoSuffix()
    ensures Suffix("/d/photos2/x") == ""
  {
    var parts := ["d", "photos2", "x"];
    assert parts[2..] == ["x"];
    assert parts[1..] == ["photos2", "x"];
    assert Join(parts[1..]) == "photos2/x";
    assert Format(1, parts) == "/d/photos2/x";
    ParseFormat(1, parts);
    assert Name("/d/photos2/x") == "x";
    assert LastDot("x") == -1 by {
      assert "x"[..0] == "";
    }
  }

  /** A parent-directory traversal such as "../../etc/passwd" is a 400. */
  lemma TraversalIs400(endpoints: seq<Endpoint>, host: Host, bucket: string)
    ensures Serve(endpoints, host, bucket, "../../etc/passwd") == HttpError(400, InvalidPath)
  {
    TraversalIsNormal();
    var q := "../../etc/passwd";
    assert q[0] == '.' && q[1] == '.';
    assert HasDotDot(q);
  }

  /** "../../etc/passwd" is already in normal form. */
  lemma TraversalIsNormal()
    ensures Normalize("../../etc/passwd") == "../../etc/passwd"
  {
    var st := ["..", "..", "etc", "passwd"];
    assert st[3..] == ["passwd"];
    assert st[2..] == ["etc", "passwd"];
    assert st[1..] == ["..", "etc", "passwd"];
    assert Join(st[2..]) == "etc/passwd";
    assert Join(st[1..]) == "../etc/passwd";
    assert Join(st) == "../../etc/passwd";
    assert Collapsed(st, false);
    NormalizeFixesNormalForm(st);
  }

  /** "a..b.jpg" is an ordinary file name, yet it is refused with 400. */
  lemma DottedNameIs400(endpoints: seq<Endpoint>, host: Host, bucket: string)
    ensures Serve(endpoints, host, bucket, "a..b.jpg") == HttpError(400, InvalidPath)
  {
    assert "a..b.jpg"[1] == '.' && "a..b.jpg"[2] == '.';
    DottedFileNameRejected("a..b.jpg");
  }

  /** The media type of "/data/photos/a.jpg" is looked up for ".jpg". */
  lemma JpegSuffix()
    ensures Suffix("/data/photos/a.jpg") == ".jpg"
  {
    JpegName();
    JpegLastDot();
    assert "a.jpg"[1..] == ".jpg";
  }

  /** The name of "/data/photos/a.jpg" is "a.jpg". */
  lemma JpegName()
    ensures Name("/data/photos/a.jpg") == "a.jpg"
  {
    var parts := ["data", "photos", "a.jpg"];
    assert parts[2..] == ["a.jpg"];
    assert Join(parts[2..]) == "a.jpg";
    assert parts[1..] == ["photos", "a.jpg"];
    assert Join(parts[1..]) == "photos/a.jpg";
    assert Format(1, parts) == "/data/photos/a.jpg";
    ParseFormat(1, parts);
  }

  /** The last '.' of "a.jpg" is at index 1. */
  lemma JpegLastDot()
    ensures LastDot("a.jpg") == 1
  {
    assert "a.jpg"[..4] == "a.jp";
    assert "a.jp"[..3] == "a.j";
    assert "a.j"[..2] == "a.";
    assert LastDot("a.") == 1;
    assert LastDot("a.j") == 1;
  }
}
