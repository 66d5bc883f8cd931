# Structure-from-motion upload API, modelled in Dafny

The repository offers one HTTP endpoint, `POST /sfm`, and a small
command-line client that posts a directory of images to it.

- The endpoint (`api.py`) does these steps in order:
  1. It checks three configuration keys against the tables of the vision library.
  2. It creates a temporary workspace with `images/` and `outputs/`.
  3. It saves every uploaded image there.
  4. It runs five vision stages in a fixed order: retrieval features, retrieval pairs, local features, matching and reconstruction.
  5. It zips the reconstruction directory and answers with the archive.

  A bad key gives a 400 answer, and any exception gives a 500 answer. The workspace is removed on every exit.
- The client (`post_images.py`) lists a directory and keeps the regular files whose lower-cased name ends in `.jpg`, `.jpeg` or `.png`. It then builds the list of multipart parts, one per copy and image, and renames the copies when more than one is asked for.

The model has these modules:

| module | file | what it holds |
|---|---|---|
| `Wrappers` | `wrappers.dfy` | `Option` |
| `Text` | `text.dfy` | decimal rendering of naturals and its inverse, ASCII lower-casing, suffix test |
| `Files` | `files.dfy` | the disk as a map from path (a sequence of components) to bytes plus a set of directories; removal of a tree |
| `Config` | `config.dfy` | configuration tables, the three request keys, the ordered key check |
| `Ingest` | `ingest.dfy` | the name an upload is stored under and the files that saving the uploads leaves |
| `Stages` | `stages.dfy` | the vision stages as arbitrary functions of their arguments and of the disk, that return or raise; the stage chain as a function (`Pipeline`) |
| `Archive` | `archive.dfy` | the walk over the reconstruction directory that fills the archive |
| `Endpoint` | `endpoint.dfy` | class `Host`, whose fields are the disk; `SfmEndpoint` is one request |
| `Client` | `client.dfy` | the image filter, `os.path.splitext`, the upload name, and the nested loops that build the part list |

The handler is a method over the mutable disk (`Host.files`, `Host.dirs`). It also returns the trace of stage calls it made, as `Step` values. The `Host` methods are each specified against a function on values:
- `Pipeline` specifies `RunPipeline`;
- `Saved` specifies `SaveImages`;
- `Prune` specifies `RemoveTree`;
- `ArchiveOf` specifies `CollectEntries`.

The properties of the handler are proved about those functions. On the client side, `Uploads` specifies `BuildFiles`, which keeps the two nested loops of the source.

Cases the handler does not guard, and what the model does with them:
- **Zero images.** Over HTTP this case does not reach the handler: `File(...)` (api.py:18) makes the field required, and the framework answers 422 first. The model's `uploads == []` is the handler called directly. The stages then run with a pair count of `min(5, 0) = 0` (`Stages.NumMatched`).
- **Empty reconstruction directory.** It still yields status 200 with an empty archive. `os.walk` of a missing directory yields nothing.
- **Same-named uploads.** They overwrite each other, and only the last payload stays (`Ingest.LastUploadWins`).
- **Missing `"output"` entry.** A feature configuration without it raises `KeyError` at the matching call. The answer is then a 500 whose message is `'output'`, and the matching stage does not run.
- **Non-positive `multiply`.** The part list has `Copies(multiply) * len(image_files)` parts. That is zero for a non-positive `multiply`, because `range` of such a value is empty.

## Model

| member | source | states |
|---|---|---|
| Config.Validate | api.py:39-59 | the keys are checked in the order retrieval, feature, matcher; the result is `None` exactly when all three are in their tables; each field is reported exactly when it is the first bad one; the rejection names the field, the value and the right table (`extract_features.confs` for the first two, `match_features.confs` for the matcher) |
| Config.LaterKeysNotExamined | api.py:39-59 | while the retrieval key is bad, changing the feature and matcher keys does not change the answer; while the feature key is the first bad one, changing the matcher key does not change it |
| Endpoint.Host.SfmEndpoint | api.py:37-117 | a bad key gives `400` with `"<field> '<value>' not found in <table>"`, no stage call and an unchanged disk; with good keys, the three lookups are defined (api.py:78-80); the stage calls are those of `Pipeline` on the disk after ingestion; the workspace is removed afterwards on every path; a raising stage gives `500` with `"Internal server error: " + message`; a zip path that cannot be opened gives the matching `OSError` text in a 500; otherwise the answer streams `pack(archive)` as `application/zip` with disposition `attachment; filename=sfm_output.zip`, and `archive` is exactly the files below `sfm_colmap` |
| Endpoint.Host.CreateWorkspace | api.py:62-66 | the disk gains the workspace, `images/` and `outputs/` directories and nothing else |
| Endpoint.Host.SaveImages | api.py:71-75 | after the loop the disk holds the old files updated by `Saved` of all uploads, in order; the directories are unchanged |
| Endpoint.Host.WriteFile | api.py:74-75 | writing where the parent is a directory and the path is not one sets that path to the data and changes nothing else |
| Endpoint.Host.TryWriteFile | api.py:97 | opening for writing succeeds exactly when `CanWrite` holds; on success only that path changes, on failure nothing |
| Endpoint.Host.RunStage | api.py:83-93 | one stage call: its outcome is the stage function applied to the current disk, and the disk becomes the disk the stage leaves |
| Endpoint.Host.RunPipeline | api.py:77-93 | the stage calls, their outcomes and the final disk are those of `Pipeline` on the disk before the first stage |
| Endpoint.Host.RemoveTree | api.py:62 | the disk becomes `Prune` of the old disk at the workspace root |
| Stages.Pipeline | api.py:83-93 | one to five stage calls in the order retrieval extraction, pair generation, feature extraction, matching, reconstruction; each stage runs on the disk the previous one left; every stage but the last returned; the arguments are threaded as the source does (the retrieval path to pair generation, `feature_conf["output"]` to matching, the feature and match paths to reconstruction); there is no error exactly when all five returned; a raising stage ends the chain with its message; a missing `"output"` entry ends it after three stages with `'output'` |
| Stages.NumMatched | api.py:85 | the pair count is at most 5 and at most the number of images, equals one of the two, and equals the number of images when there are at most 5 |
| Ingest.StoredName | api.py:72 | the stored name is never empty |
| Ingest.StoredNameParts | api.py:72 | a named upload keeps its name; an unnamed or empty-named one is stored as `image_` + digits + `.jpg`, and the digits read back as the clock reading |
| Ingest.LastUploadWins | api.py:71-75 | the file of an upload holds its payload when no later upload has the same name, so later same-named uploads overwrite earlier ones |
| Ingest.OnlyUploadedNames | api.py:71-75 | every saved path is the images directory joined with the stored name of some upload |
| Ingest.SavedInsideDir | api.py:73 | every saved path lies directly inside the images directory |
| Files.Prune | api.py:62 | after removing the workspace nothing is left at or below it, every file and directory outside it is kept with its content, and nothing new appears |
| Files.PruneAfterWrite | api.py:96-112 | writing the zip inside the workspace and then removing the workspace leaves the same disk as removing it without the write |
| Archive.CollectEntries | api.py:97-101 | the archive holds every file below `sfm_dir` once, named by its path relative to `sfm_dir.parent`, with its content, and nothing else |
| Archive.EntryNamesStartWithTop | api.py:101 | every entry name has at least two components and starts with `sfm_colmap` |
| Client.SelectImages | post_images.py:8-13 | each name is kept as often as it is listed when it is a regular file with an image suffix, and dropped otherwise; the result is no longer than the listing |
| Client.SelectImagesKeepsOrder | post_images.py:8-13 | the filter keeps the listing's order: the selection of a concatenation is the concatenation of the selections |
| Client.SelectImagesSingle | post_images.py:8-13 | a single entry is kept exactly when it is a regular file with an image suffix |
| Client.SelectImagesDistinct | post_images.py:8-13 | a listing without repeats gives a selection without repeats, all of whose names pass the filter |
| Client.PostImagesToApi | post_images.py:6-27 | nothing is built exactly when no listed name passes the filter; otherwise the parts are `Uploads` of the selection over `range(multiply)` |
| Client.BuildFiles | post_images.py:18-27 | the nested loops append exactly `Uploads(dir, images, multiply, Copies(multiply))` |
| Client.AppendRound | post_images.py:19-27 | one pass of the inner loop appends the part of every image, in order, for the current copy |
| Client.UploadsLength | post_images.py:18-27 | the list has one part per copy and image: `rounds * len(image_files)` |
| Client.UploadsAt | post_images.py:18-27 | the part at position `k` is image `k % n` in copy `k / n`: ordered by copy first and by position in the selection second |
| Client.LastDot | post_images.py:23 | the index of the last dot, or -1 when there is none |
| Client.SplitExt | post_images.py:23 | stem and extension concatenate back to the name; the extension is empty or one leading dot followed by no other dot; it is non-empty exactly when some non-dot character precedes the last dot |
| Client.NoRenamingForSingleCopy | post_images.py:18-27 | with `multiply <= 1` the list has `len(image_files)` parts (none when `multiply <= 0`), and part `k` is image `k` under its own name, opened from `os.path.join(images_dir, image_files[k])` |
| Client.SplitExtOfRenamed | post_images.py:22-25 | with `multiply > 1`, `splitext` of the upload name gives back the image's own extension, and its stem is the image's stem followed by `_copy` and the decimal copy index |
| Client.RenamedKeepsImageExtension | post_images.py:22-25 | with `multiply > 1` a renamed image whose last dot follows a non-dot character still passes the image filter |
| Client.DotOnlyStemLosesExtension | post_images.py:23 | `.png` passes the filter but its second-round name `.png_copy0` does not, since `splitext` gives it no extension |
| Client.SendNameInjective | post_images.py:21-26 | with `multiply > 1`, two images and copy indices with the same upload name are the same image and index |
| Client.UploadNamesDistinct | post_images.py:21-27 | when the selected names are distinct image names, all upload names in the list are distinct, for every `multiply` |
| Client.PostedNamesDistinct | post_images.py:8-27 | for a directory listing without repeats, the posted part list never holds two parts with the same name |
| Text.Decimal | post_images.py:23 | the decimal form of the copy index is non-empty, all digits, has no leading zero, and is one digit exactly for numbers below 10 |
| Text.ParseDecimalInvertsDecimal | post_images.py:23 | reading the decimal form back gives the number |
| Text.DecimalInjective | post_images.py:23 | different copy indices have different decimal forms |
| Client.FilterIgnoresCase | post_images.py:12 | the filter ignores letter case: a name passes exactly when it ends in `.jpg`, `.jpeg` or `.png` written in any mix of ASCII upper and lower case |
| Text.LowerEndsWithAnyCase | post_images.py:12 | for a suffix of dots and lower-case letters, the lower-cased name ends with it exactly when the name ends with it in some mix of letter case |

## Left out

- The FastAPI application, routing, multipart parsing and the `await img.read()` of each upload are not modelled. An upload is given as its optional filename and its bytes.
- The vision library is not modelled. Each of its four entry points is an arbitrary function of its arguments and of the disk, which returns a path or raises with a message (`Stages.Vision`). The configuration tables are parameters.
- `tempfile.TemporaryDirectory` is not modelled. Its fresh directory is the parameter `L.tmp`, and the handler requires that nothing exists at or below it.
- `time.time()` is not modelled. The millisecond reading while upload `k` is saved is the parameter `clock(k)`.
- The traversal order of `os.walk` is not modelled. The walk takes the remaining files in an unspecified order, so every order is covered.
- DEFLATE compression and the zip byte layout are not modelled. The archive bytes are `pack(entries)` for a parameter `pack`. Reading the zip back returns exactly the bytes written.
- Entry names are not joined into a `/`-separated string. They are kept as the component sequence relative to `sfm_dir.parent`.
- Ingest.StoredName: an upload filename is one path component. A name containing `/`, a name `.` or `..`, and an absolute name are not modelled. In the source these change where `images_dir / filename` points: `images_dir / "/x"` is `/x`, and `"../../x"` climbs out of the temporary directory. Such a file is written outside the workspace, so the removal of the workspace (api.py:62) never deletes it. Other such names make the write fail in the source before any stage runs, with a 500 carrying the `OSError` text (api.py:73-75, 113-117): `sub/x.jpg` without an `images/sub/` directory raises `[Errno 2]`, and `.` or `..` name a directory and raise `[Errno 21]`. The model stores each of these as one component and runs the pipeline.
- I/O errors are not modelled for `mkdir`, for writing an image, for `zipf.write` reading each reconstruction file and writing it into the archive (api.py:100-101), for reading the zip back, for streaming the response body, or for removing the tree. For an image whose name is one path component, which is all the model admits, these fail only for reasons outside the disk model, such as permissions or a full disk. Only the open of the zip path is modelled as failing, when its parent is not a directory or the path is a directory.
- Endpoint.WriteError: only the `Errno 21` and `Errno 2` texts are produced. `Errno 20`, for a parent that is a regular file, is reported as `Errno 2`.
- Text.Lower: only ASCII letters are lower-cased; Unicode case mapping is not modelled.
- A `Files.Tree` is not required to hold the parent directory of every file. A stage may therefore leave a file below `sfm_colmap` that no directory chain reaches, and `Archive.CollectEntries` collects it, where `os.walk` (api.py:98) would not find it. A real filesystem cannot hold such a file.
- Client.SplitExt: a name is assumed to contain no `/`. `os.listdir` never returns one, so the separator rule of `splitext` is not needed.
- Client.RenamedKeepsImageExtension: holds only when a non-dot character precedes the last dot. For names such as `.png`, `splitext` finds no extension, and the renamed copy `.png_copy0` loses the image suffix (`Client.DotOnlyStemLosesExtension`).
- Client.PostImagesToApi: the opened file handles are not modelled. A part records the path it was opened from, and a failing `open` is not modelled.
- `requests.post`, the `print` calls and the command-line entry point that parses `sys.argv` are not modelled.
- The defaults of the three query parameters (api.py:19-21) are not modelled. The three keys are a parameter of the handler.
- Concurrency between requests is not modelled. Each request is independent, and the handler is sequential.
