# ImgTag start-up recovery and local file route, in Dafny

This project models two pieces of `src/imgtag/main.py` of the ImgTag media-tagging service:

- **The local file route** `GET /data/{bucket}/{file_path}` (`serve_local_file`). The route
  normalises the requested path with `os.path.normpath` and then `lstrip("/")`. It rejects any
  path holding `..` or a leading `/` with 400. It then takes the first registered endpoint whose
  provider is LOCAL and whose bucket name equals `bucket`, or answers 404. The bucket directory
  is the bucket itself when the bucket is absolute, otherwise `data_path / bucket`. Both the
  directory and the requested file are resolved. The resolved directory string must be a
  character prefix of the resolved file string, otherwise the answer is 400. A file that exists
  and is a regular file is served with the media type of its suffix; anything else is a 404.
- **Start-up task recovery** (the recovery block of `lifespan`). From the unfinished task records
  it counts the records the generic queue manages and the `storage_sync` records. It dispatches
  one sync job per `storage_sync` record, in list order. It starts the generic queue once when
  that queue has any work.

Files:

- `posix_path.dfy` (`PosixPath`) holds the Python path semantics the route relies on. It covers
  `str.split("/")`, `"/".join` and POSIX `os.path.normpath`. It also covers `lstrip("/")`,
  `posixpath.join`, and `pathlib`'s parsing, `str()`, `name` and `suffix`, following Python 3.12.
  A root keeps exactly two leading slashes as two; three or more become one.
- `storage_gateway.dfy` (`StorageGateway`) holds the route, `Serve`, and its properties. The
  filesystem and the MIME table are fields of `Host`: `resolve` (`None` when it raises),
  `pathExists`, `isFile` and `mimeType`, applied to path strings.
- `task_recovery.dfy` (`TaskRecovery`) holds recovery as a pure function from the snapshot of
  unfinished records to the trace of launched actions. Each action is either
  `DispatchSync(id)` or `StartQueue`.
- `wrappers.dfy` (`Wrappers`) holds `Option`.

The model follows what the code does, including where it does less than its own comments say:

- The escape check raises `HTTPException(403, "Access denied")` at line 296. That raise is inside
  the `try` of line 292, whose `except Exception` at line 297 turns it into a 400 "Invalid path".
  The route therefore never answers 403 (`NeverForbidden`, `EscapeIs400`). Exceptions raised outside
  that `try` become server errors, which are not modelled (see "Left out").
- The path is checked (lines 264-266) before the registry is read (lines 269-280). An invalid path
  is therefore a 400 even for an unregistered bucket (`InvalidPathIs400`).
- The comment at line 291 promises that the file stays inside `base_path`. The test at line 295
  compares strings by character prefix, so a sibling such as `/d/photos2/x` passes against
  `/d/photos` (`SiblingDirectoryPasses`).
- The comments at lines 247 and 262-263 say the normalisation prevents directory traversal. The
  guard at line 265 tests for the substring `..`, so it also refuses ordinary names such as
  `a..b.jpg` (`DottedFileNameRejected`, `DottedNameIs400`).

## Model

| member | source | states |
|---|---|---|
| `PosixPath.SplitJoin` | src/imgtag/main.py:264 | Pieces without a `/` joined with `/` split back into the same pieces. |
| `PosixPath.JoinSplit` | src/imgtag/main.py:264 | Splitting a path on `/` and joining the pieces again gives back the original string. |
| `PosixPath.SplitAppend` | src/imgtag/main.py:264 | Splitting `x + "/" + y` gives the pieces of `x` followed by the pieces of `y`. |
| `PosixPath.SplitPiecesHaveNoSep` | src/imgtag/main.py:264 | No piece produced by splitting on `/` contains a `/`, so the pieces `normpath` and `pathlib` keep are all single names. |
| `PosixPath.IsAbs` | src/imgtag/main.py:284 | `os.path.isabs` and `startswith("/")`: a leading `/`. `NormPathKeepsRoot` and `StorageGateway.Normalize` state how normalisation acts on it. |
| `PosixPath.InitialSlashes` | src/imgtag/main.py:264 | The root width `normpath` and `pathlib` keep: two for exactly two leading slashes, one for one or three or more. `ParseFormat` states that parsing recovers it. |
| `PosixPath.Split` | src/imgtag/main.py:264 | `str.split("/")` always returns at least one piece, also for the empty string. |
| `PosixPath.Join` | src/imgtag/main.py:264 | `"/".join`; `SplitJoin` and `JoinSplit` state that it is the inverse of `Split`. |
| `PosixPath.CollapseKeepsCollapsed` | src/imgtag/main.py:264 | Every step of `normpath`'s collapsing loop keeps the stack made of names only (no empty or `.` name), with every `..` ahead of every other name, and with no `..` at all under a root. |
| `PosixPath.Collapse` | src/imgtag/main.py:264 | The loop of `os.path.normpath` over the pieces; its invariant is `CollapseKeepsCollapsed` and its fixed points are `CollapseFixesCollapsed`. |
| `PosixPath.NormStack` | src/imgtag/main.py:264 | The names `normpath` keeps below the root; `NormPathCollapsed` states they form a collapsed stack. |
| `PosixPath.NormPath` | src/imgtag/main.py:264 | `os.path.normpath` never returns the empty string: an empty result is written `.`. |
| `PosixPath.NormPathKeepsRoot` | src/imgtag/main.py:264 | `os.path.normpath` keeps an absolute path absolute and a relative path relative. |
| `PosixPath.CollapseFixesCollapsed` | src/imgtag/main.py:264 | A relative list of names that is already collapsed passes through `normpath`'s loop unchanged. |
| `PosixPath.NormPathFixesNormalForm` | src/imgtag/main.py:264 | `normpath` leaves a relative path that is already in normal form unchanged. |
| `PosixPath.LStripSlashes` | src/imgtag/main.py:264 | The result of `lstrip("/")` never starts with `/`. |
| `PosixPath.LStripRemovesLeadingSlashes` | src/imgtag/main.py:264 | `lstrip("/")` removes only a prefix made of slashes and keeps the rest of the string as it was. |
| `PosixPath.ParseFormat` | src/imgtag/main.py:284-289 | Parsing a path written as a root and names gives back that root and those names. |
| `PosixPath.PurePathStr` | src/imgtag/main.py:284-289 | `str()` of a `pathlib` path; `ParseFormat` and `PurePathStrIdempotent` state that it prints the parsed root and names back canonically. |
| `PosixPath.Parts` | src/imgtag/main.py:284-289 | The names `pathlib` parses out of a path; `PartsAreNames` states they are all single non-trivial names and `ParseFormat` that they are recovered from a formatted path. |
| `PosixPath.PosixJoin` | src/imgtag/main.py:287-289 | `posixpath.join` of two segments; `PosixJoinRoot` and `PosixJoinNames` state the root and names of the result for a relative second segment. |
| `PosixPath.JoinPath` | src/imgtag/main.py:287-289 | The `/` operator of `pathlib`; `JoinPathParts` states its result. |
| `PosixPath.PurePathStrIdempotent` | src/imgtag/main.py:284-289 | The `str()` of a `pathlib` path is already canonical: parsing and printing it again changes nothing. |
| `PosixPath.JoinPathParts` | src/imgtag/main.py:287-289 | `Path(a) / b` for a relative `b` keeps the root of `a` and appends the names of `b` after the names of `a`. |
| `PosixPath.SuffixShape` | src/imgtag/main.py:307 | A non-empty suffix is a proper tail of the file name. It starts with the name's last `.`, has at least one more character and holds no other `.`. |
| `PosixPath.LastDot` | src/imgtag/main.py:307 | `rfind(".")`: -1 or the index of a `.` with no `.` after it. |
| `PosixPath.Name` | src/imgtag/main.py:307 | `Path.name`, the last parsed name; `SuffixShape` and `SuffixPresent` state how the suffix is cut from it. |
| `PosixPath.Suffix` | src/imgtag/main.py:307 | `Path.suffix` is empty or starts with `.` and holds at least one more character. |
| `PosixPath.SuffixPresent` | src/imgtag/main.py:307 | The suffix is non-empty exactly when the name has a `.` that is neither its first nor its last character and no `.` after it. |
| `StorageGateway.Normalize` | src/imgtag/main.py:264-265 | The normalised path never starts with `/`, so the `startswith("/")` half of the guard can never fire. |
| `StorageGateway.NormalizeShape` | src/imgtag/main.py:264 | The normalised path is `.` for an empty relative result, `""` for a bare root, and otherwise the collapsed names joined with `/`. |
| `StorageGateway.NormalizedNames` | src/imgtag/main.py:264 | No empty or `.` segment is left after normalisation, and every `..` comes before any other name. |
| `StorageGateway.NormalizeIdempotent` | src/imgtag/main.py:264 | Normalising an already normalised path returns it unchanged, except that `""` (from a bare root) becomes `.`. |
| `StorageGateway.BareRootNormalizesToEmpty` | src/imgtag/main.py:264-268 | The bare root `/` normalises to `""`, which passes the 400 guard, and `""` normalises to `.`, so normalisation is not idempotent on that one input. |
| `StorageGateway.NormalizedParts` | src/imgtag/main.py:264 | The names `pathlib` sees in the normalised path are exactly the names `normpath` kept. |
| `StorageGateway.AcceptedPathHasNoParentName` | src/imgtag/main.py:264-266 | A path that passes the guard has no `..` among its names. |
| `StorageGateway.DottedFileNameRejected` | src/imgtag/main.py:265-266 | A single file name holding `..` anywhere, such as `a..b.jpg`, survives normalisation unchanged and is rejected by the guard. |
| `StorageGateway.DottedNameIs400` | src/imgtag/main.py:265-266 | The request path `a..b.jpg` is answered 400 for every bucket and registry. |
| `StorageGateway.TraversalIs400` | src/imgtag/main.py:264-266 | The request path `../../etc/passwd` is answered 400 for every bucket and registry. |
| `StorageGateway.TraversalIsNormal` | src/imgtag/main.py:264 | `../../etc/passwd` is already in normal form: neither `normpath` nor the slash stripping changes it. |
| `StorageGateway.InvalidPathIs400` | src/imgtag/main.py:264-270 | A path rejected by the guard is answered 400 before any registry access, whatever the bucket (registered or not) and whatever the filesystem. |
| `StorageGateway.PathRejected` | src/imgtag/main.py:265-266 | The guard; `AcceptedPathHasNoParentName` and `DottedFileNameRejected` state what it lets through and what it refuses. |
| `StorageGateway.HasDotDot` | src/imgtag/main.py:265 | `".." in s`; `DottedFileNameRejected` states that it also refuses names that merely contain `..`, and `AcceptedPathHasNoParentName` that without it no `..` name remains. |
| `StorageGateway.FindLocalEndpoint` | src/imgtag/main.py:273-277 | The chosen endpoint, if any, is LOCAL, carries the requested bucket name, and comes first in registry order among such endpoints. No choice means no such endpoint exists. |
| `StorageGateway.NonLocalNeverSelected` | src/imgtag/main.py:275 | An endpoint whose provider is not LOCAL is never selected, even when its bucket name matches. |
| `StorageGateway.UnknownBucketIs404` | src/imgtag/main.py:279-280 | An accepted path for a bucket with no LOCAL endpoint of that name is answered 404 "Storage bucket not found". |
| `StorageGateway.RootPathNeverConsulted` | src/imgtag/main.py:282-287 | Two registries that agree on every endpoint's provider and bucket name give the same answer, whatever their stored root paths. |
| `StorageGateway.BasePath` | src/imgtag/main.py:283-287 | An absolute bucket is its own directory. A relative bucket's directory has the data path's root and the data path's names followed by the bucket's names. The result is a canonical `pathlib` string. |
| `StorageGateway.LexicallyInsideBase` | src/imgtag/main.py:287-289 | Before symbolic links are resolved, the requested file has the bucket directory's root and names, followed only by names that are not `..`. |
| `StorageGateway.FullPath` | src/imgtag/main.py:289 | `base_path / normalized_path`; `LexicallyInsideBase` and `EmptyRequestIsBase` state where it lies relative to the bucket directory. |
| `StorageGateway.EmptyRequestIsBase` | src/imgtag/main.py:289 | Joining `""` or `.` onto the bucket directory gives the bucket directory itself. |
| `StorageGateway.BucketDirectoryNeverEscapes` | src/imgtag/main.py:289-302 | A request naming the bucket directory itself never fails the containment check: once the directory resolves, the answer is 200 or 404. |
| `StorageGateway.NeverForbidden` | src/imgtag/main.py:292-298 | The route's own answers are only 200, 400 or 404. The 403 raised at line 296 is caught and turned into a 400. |
| `StorageGateway.EscapeIs400` | src/imgtag/main.py:292-298 | With an accepted path and a registered bucket, a resolve that raises or a resolved file outside the resolved directory is answered 400. |
| `StorageGateway.SiblingDirectoryPasses` | src/imgtag/main.py:295 | Containment is a character-prefix test: a file resolving to `/d/photos2/x` under a directory resolving to `/d/photos` is served. |
| `StorageGateway.SiblingFileHasNoSuffix` | src/imgtag/main.py:307 | The name `x` of `/d/photos2/x` has no suffix. |
| `StorageGateway.ServedExactlyWhenChecksPass` | src/imgtag/main.py:264-308 | A file is served exactly when the path is accepted, a LOCAL endpoint exists for the bucket, both paths resolve with the directory a prefix of the file, and the file exists and is a regular file. The response is then that resolved file, with the media type of its suffix. |
| `StorageGateway.Serve` | src/imgtag/main.py:249-308 | The route's own error answers are only 400 or 404. A served file exists and is a regular file, and its media type is the one looked up for its suffix. |
| `StorageGateway.FileNotFoundIs404` | src/imgtag/main.py:300-302 | With an accepted path, a registered bucket and a resolved file inside the resolved directory, a file that does not exist or is not a regular file is answered 404 "File not found". |
| `StorageGateway.JpegSuffix` | src/imgtag/main.py:307-313 | The media type of `/data/photos/a.jpg` is looked up for the suffix `.jpg`. |
| `TaskRecovery.Count` | src/imgtag/main.py:162-163 | A count never exceeds the number of records, and it is positive exactly when some record qualifies. |
| `TaskRecovery.AnalysisCount` | src/imgtag/main.py:162 | `analysis_count`; through `Count` it is positive exactly when some record has a queue-managed type, which `QueueStartedExactlyOnce` turns into the single queue start. |
| `TaskRecovery.SyncCount` | src/imgtag/main.py:163 | `sync_count`; `DispatchCountIsSyncCount` states that it equals the number of sync dispatches. |
| `TaskRecovery.DispatchCountIsSyncCount` | src/imgtag/main.py:163-168 | The number of sync dispatches equals `sync_count`, the number of `storage_sync` records. |
| `TaskRecovery.DispatchesPerId` | src/imgtag/main.py:166-168 | Each id is dispatched once per `storage_sync` record carrying it: no deduplication, and no dispatch for a record of any other type. |
| `TaskRecovery.SyncDispatches` | src/imgtag/main.py:166-168 | The loop launches only sync dispatches. |
| `TaskRecovery.RecoverDispatchesPerId` | src/imgtag/main.py:153-181 | In the whole recovery trace, each id is dispatched once per `storage_sync` record carrying it, with no deduplication. |
| `TaskRecovery.DispatchesInListOrder` | src/imgtag/main.py:166-168 | Dispatches follow list order: a record appended at the end is dispatched after all the others. |
| `TaskRecovery.QueueStartedExactlyOnce` | src/imgtag/main.py:162-173 | `start_processing` is launched exactly once when at least one record has a queue-managed type, whatever their number, and never otherwise. |
| `TaskRecovery.Recover` | src/imgtag/main.py:153-181 | A ledger read that raises launches nothing. Every action except possibly the last is a sync dispatch, so the queue start follows all dispatches. |
| `TaskRecovery.OtherTypesIgnored` | src/imgtag/main.py:158-179 | Inserting a record whose type is neither `storage_sync` nor queue-managed, anywhere in the list, changes no action. |
| `TaskRecovery.OtherTypesIgnoredByDispatch` | src/imgtag/main.py:166-168 | Inserting a record of a type other than `storage_sync` anywhere in the list leaves the sync dispatches unchanged. |
| `TaskRecovery.NothingToRecover` | src/imgtag/main.py:153-181 | An empty ledger launches nothing, and neither does a ledger read that raises. |
| `TaskRecovery.SingleSyncRecord` | src/imgtag/main.py:158-179 | A single `storage_sync` record with id `7` is dispatched exactly once, and the queue is not started. |

## Left out

- `run_migrations_sync` (main.py:40-101): it probes for `alembic.ini`, runs a subprocess under a timeout and logs the result. All of this is I/O.
- The rest of `lifespan` (main.py:105-150, 183-194): upload-path logging, the temp-file sweep, `ensure_defaults`, `config_cache.preload`, `init_default_admin`, `schedule_daily_backup` and `close_db`. They call modules that are not part of this model.
- Concurrency: `asyncio.create_task` is modelled as an action appended to a trace. The launched coroutines and their interleaving are not modelled.
- Logging, including the counts that are only logged (`sync_count` at line 177).
- Recovery errors: only a failing ledger read is modelled, and it produces no actions. An exception raised while launching a dispatch midway through the loop (which would leave a prefix of the trace) is not modelled.
- `Path.resolve`, `Path.exists`, `Path.is_file` and `get_mime_type` are uninterpreted fields of `Host`. Their filesystem semantics (symbolic links, the working directory) are not modelled, and neither is `StorageProvider` beyond LOCAL versus other providers.
- `imgtag.core.storage_constants`, `imgtag.core.config` (`settings.get_data_path()` becomes the `dataPath` string) and the repositories are not part of this model.
- StorageGateway.NeverForbidden: states the route's own answers only. Exceptions raised outside the `try` of lines 292-298 reach the framework as a server error, which is not modelled. These are `full_path.exists()` and `full_path.is_file()` at line 301 (they re-raise errors such as a permission error), `settings.get_data_path()` at line 283 and `get_mime_type` at line 313.
- StorageGateway.Serve: `Host.pathExists`, `Host.isFile` and `Host.mimeType` are total, so the server errors listed for `NeverForbidden` have no counterpart in the model.
- Database failures inside `serve_local_file` (an exception from `get_all`, which reaches the framework as a server error) are not modelled. Neither is `FileResponse` streaming.
- Framework glue: FastAPI app construction, CORS, the exception-to-JSON handlers, router inclusion, the SPA fallback route (main.py:315-349) and `uvicorn` start-up. None of it contains decision logic.
- Route matching: the model accepts any `bucket` string, including ones holding `/`, which the framework's `{bucket}` segment would not deliver.
- `pathlib` is modelled as in Python 3.12. Older versions parse each joined segment separately, which gives the same names on POSIX.
