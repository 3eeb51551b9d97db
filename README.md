# NoteLens YOLO — detection-to-OCR request pipeline

NoteLens YOLO is a small web service. A client uploads an image, or names one
by URL. The service checks that the OCR server ("server 2") is healthy and
gives the request an id of the form `No_<n>_file`. It then stores the image
in a temporary file and runs YOLOv5 text detection on it. Detection writes
one crop directory per category under `yolov5/runs/detect/<id>/crops`. The
service posts each category's crops to the OCR server and gathers the texts
into a dictionary: category → (file name → text), with the file names in
sorted order. Finally it removes the request's working folders.

This project models the service's logic and proves properties of it:

- the health decision;
- the id counter and the per-request folder layout;
- the OCR aggregation loop, covering which categories are posted, how the
  replies are decoded, re-ordered and compared with what was sent, and
  which directories get removed on each exit path;
- the order of steps in the two handlers.

Every outside effect is an input to the model:

- the health reply;
- whether detection and the download succeed;
- the listing of the crops root;
- the OCR server's reply for each post, given as a function of the posted
  category and its file names.

Removals, posts and temp-file handling are recorded in an effect log, in
the order they happen.

Modules:

- `Wrappers`: `Option` and `Result`.
- `StringOrder`: the code-point order Python's `sorted` uses on `str`.
- `Decimal`: `str(n)` for naturals.
- `OrderedDict`: a Python `dict` as a sequence of pairs in insertion order,
  covering lookup, assignment and rebuilding in sorted key order.
- `YoloService`: `is_server2_healthy`, `save_temp_file`'s path and
  `send_cropped_images_to_ocr`. The last is written both as a method with
  loops and as the function `Dispatch` that specifies it.
- `DispatchProperties`: what `Dispatch` guarantees on each exit path, plus
  two worked scenarios.
- `YoloRouter`: the `Temp_id` counter, the workspace paths, the status codes
  and the `/yolo` and `/yolo-from-url` handlers.

## What stays on disk on each exit path

The code removes the request's working folder only when the dispatch
completes. The model follows the code:

- **Every post succeeds.** Each category directory is removed right after
  its post. Then `yolov5/runs/detect/<id>` is removed
  (app/service/yoloService.py:103-115).
- **An OCR post fails.** The exception leaves the loop through the
  `finally` block, which removes that category's directory. Later
  categories are not visited, and `yolov5/runs/detect/<id>` stays
  (app/service/yoloService.py:103-115).
- **The crops root is missing.** `iterdir()` raises before any post or
  removal, and `yolov5/runs/detect/<id>` stays
  (app/service/yoloService.py:54).
- **Detection fails.** The handler stops before `os.remove`, so the
  temporary image stays (app/router/yoloRouter.py:63-67, 105-108).

The health check does not always return a boolean. A 200 reply whose body
is not a JSON object raises, because only `httpx.RequestError` is caught.
The handler then fails with a 500 (app/service/yoloService.py:34-39).

## Model

| member | source | states |
|---|---|---|
| StringOrder.Below | app/service/yoloService.py:85 | Python's `<` on `str`, which `sorted` uses: lexicographic by code point, with a proper prefix before the longer string |
| StringOrder.BelowIrreflexive | app/service/yoloService.py:85 | No string sorts before itself under code-point order |
| StringOrder.BelowTransitive | app/service/yoloService.py:85 | Code-point order on strings is transitive |
| StringOrder.BelowAsymmetric | app/service/yoloService.py:85 | Two strings are never each below the other |
| StringOrder.BelowTotal | app/service/yoloService.py:85 | Of two different strings, one sorts before the other, so `sorted` on distinct keys has one answer |
| Decimal.DigitChar | app/router/yoloRouter.py:44 | The character written for a digit is '0'..'9' and stands for that digit |
| Decimal.NatToString | app/router/yoloRouter.py:44 | `str(n)` is a non-empty run of digits with a leading '0' exactly when n is 0 |
| Decimal.ParseNatToString | app/router/yoloRouter.py:44 | Reading back the decimal text of n gives n |
| Decimal.NatToStringInjective | app/router/yoloRouter.py:44 | Different counter values have different decimal texts |
| OrderedDict.Get | app/service/yoloService.py:86 | `d[k]` is absent exactly when k is not a key; when present, (k, value) is an entry of d |
| OrderedDict.Put | app/service/yoloService.py:100 | After `d[k] = v`, k maps to v and every other key is unchanged; a new key is appended at the end |
| OrderedDict.PutKeySet | app/service/yoloService.py:100 | Assignment adds exactly k to the key set |
| OrderedDict.PutUnique | app/service/yoloService.py:100 | Assignment keeps keys unique |
| OrderedDict.GetUnique | app/service/yoloService.py:86 | In a dict with unique keys, an entry (k, v) means `d[k]` is v |
| OrderedDict.MultisetKeySet | app/service/yoloService.py:85-86 | Two dicts with the same entries as a multiset have the same key set |
| OrderedDict.Insert | app/service/yoloService.py:85-86 | Inserting one entry into a sorted run adds exactly that entry |
| OrderedDict.SortByKey | app/service/yoloService.py:85-86 | Rebuilding in sorted key order keeps exactly the same entries |
| OrderedDict.InsertAscending | app/service/yoloService.py:85-86 | Inserting a new key into a strictly ascending run keeps it strictly ascending |
| OrderedDict.SortByKeyAscending | app/service/yoloService.py:85-86 | The rebuilt dict's keys are strictly ascending when the original keys are unique |
| OrderedDict.AscendingUnique | app/service/yoloService.py:86 | Strictly ascending keys are unique |
| OrderedDict.SortByKeyFaithful | app/service/yoloService.py:85-86 | `{key: texts[key] for key in sorted(texts.keys())}` has strictly ascending keys, the same key set and length, and the same text for every file name |
| YoloService.IsServer2Healthy | app/service/yoloService.py:29-40 | Healthy exactly for a 200 whose JSON object has "status" equal to "ok". A request error or another status is unhealthy. A 200 with a non-object body raises: a JSON decode error exactly when it is not JSON |
| YoloService.TempFilePath | app/service/yoloService.py:42-43 | The upload is saved as "temp_", then the id, then ".jpg" |
| YoloService.IsJpg | app/service/yoloService.py:62 | The `*.jpg` pattern: a name matches when it ends in ".jpg" |
| YoloService.Jpgs | app/service/yoloService.py:62 | `glob("*.jpg")` keeps exactly the names ending in ".jpg" and nothing else |
| YoloService.GlobJpgs | app/service/yoloService.py:62-65 | The loop that builds the list of sent files collects exactly the `*.jpg` names, in order |
| YoloService.DecodeReply | app/service/yoloService.py:77-82 | A reply decodes to a dict exactly when it is a 2xx response whose body is a JSON object, and then it is that object. A non-2xx status is an HTTP status error carrying its code |
| YoloService.Missing | app/service/yoloService.py:90-92 | A file name is missing exactly when it was sent and is not a key of the reply |
| YoloService.Dispatchable | app/service/yoloService.py:55-73 | An entry is posted exactly when it is a directory and at least one of its names ends in ".jpg"; non-directories and image-less directories are skipped |
| YoloService.Reply | app/service/yoloService.py:80-82 | One category's post: its `*.jpg` names go to the OCR server under the category's path, and the reply is decoded as `raise_for_status` and `json()` do |
| YoloService.Visit | app/service/yoloService.py:55-110 | One pass of the loop. A skipped entry changes nothing. Otherwise its `*.jpg` names are posted and its directory removed. A reply that fails to decode records the failure. A decoded reply stores the category's texts sorted by key, under its name, and appends its report |
| YoloService.Walk | app/service/yoloService.py:54-110 | The loop over the listing in order, stopping at the first failed post |
| YoloService.Dispatch | app/service/yoloService.py:49-117 | The whole call. A missing crops root fails before any effect. A failed post ends in an upstream error with no final removal. Otherwise the collected dict is returned after `remove_folder_path` is removed, if it exists |
| YoloService.SendCroppedImagesToOcr | app/service/yoloService.py:49-117 | The loop's result, reports and effect log are exactly those of `Dispatch` |
| YoloService.WalkStep | app/service/yoloService.py:54-110 | When no post has failed yet, visiting one more entry is one more step of the walk |
| YoloService.WalkStopped | app/service/yoloService.py:103-110 | After a failed post, the remaining entries change nothing: the exception ends the loop |
| DispatchProperties.Dispatched | app/service/yoloService.py:54-73 | The categories posted are entries of the listing that are directories holding at least one `*.jpg` |
| DispatchProperties.CleanupLog | app/service/yoloService.py:103-110 | Each posted category contributes its post and its removal: two effects apiece |
| DispatchProperties.CleanupLogPaired | app/service/yoloService.py:103-110 | Every post is followed at once by the removal of the same directory. Every removal is of a direct child of the crops root. Every posted category's directory is removed |
| DispatchProperties.CleanupLogRemovesChildren | app/service/yoloService.py:108-109 | The per-category cleanup removes no path that is not one level below the crops root |
| DispatchProperties.CleanupLogStepKinds | app/service/yoloService.py:77-110 | The per-category loop does nothing but post and remove |
| DispatchProperties.DispatchedContains | app/service/yoloService.py:54-73 | Every directory in the listing that holds a `*.jpg` is among the categories posted |
| DispatchProperties.WalkOk | app/service/yoloService.py:54-110 | When every post succeeds, the effect log is the cleanup log of the posted categories, and there is one report per posted category, in listing order, with its sent and missing names |
| DispatchProperties.WalkOkData | app/service/yoloService.py:100 | When every post succeeds and names are distinct, the k-th stored category is the k-th posted one, holding its reply re-ordered by key |
| DispatchProperties.FailingEntry | app/service/yoloService.py:77-110 | A failed walk has an entry whose post failed |
| DispatchProperties.WalkFailed | app/service/yoloService.py:77-110 | A failed walk stops at the first posted category whose reply did not decode. Its effect log is the cleanup of every category up to and including that one |
| DispatchProperties.DispatchSucceedsIff | app/service/yoloService.py:49-117 | The call returns normally exactly when the crops root exists and every posted category's reply decodes |
| DispatchProperties.DispatchOnSuccess | app/service/yoloService.py:54-117 | On normal return, every category directory holding a `*.jpg` was posted once and removed right after, and the removal folder is removed last. Each category has its report. With distinct names, each stored category is in visiting order and holds its reply with strictly ascending keys, the same key set and the same texts. Non-directories and image-less directories get no key |
| DispatchProperties.DispatchOnUpstreamError | app/service/yoloService.py:77-115 | When a post fails, the error names the first posted category whose reply did not decode, and every earlier post succeeded. The log ends with that category's removal, and the removal folder is not removed |
| DispatchProperties.PartialLossScenario | app/service/yoloService.py:54-117 | Three crops are posted and text comes back for two: both are stored in name order, the third is reported missing, and the call still succeeds with full cleanup |
| DispatchProperties.TimeoutScenario | app/service/yoloService.py:77-115 | A timed-out post aborts the call after removing its own directory; the second category is never posted and the removal folder stays |
| YoloRouter.FileId | app/router/yoloRouter.py:44 | The id for n is "No_", then `str(n)`, then "_file" |
| YoloRouter.FileIdInjective | app/router/yoloRouter.py:42-44 | Different counter values give different ids |
| YoloRouter.TempId.constructor | app/router/yoloRouter.py:40-41 | A new counter starts at 0, having issued nothing |
| YoloRouter.TempId.GetId | app/router/yoloRouter.py:42-44 | `get_id` increases the counter by exactly one and returns the id of the new value, which was never issued before |
| YoloRouter.IssuedDistinct | app/router/yoloRouter.py:42-44 | All ids one counter issues are pairwise distinct |
| YoloRouter.FirstId | app/router/yoloRouter.py:40-44 | A fresh counter's first id is "No_1_file" |
| YoloRouter.DetectDir | app/router/yoloRouter.py:72 | `yolov5/runs/detect/<id>`: the folder removed after dispatch |
| YoloRouter.CropsDir | app/router/yoloRouter.py:71 | `yolov5/runs/detect/<id>/crops`: the root whose category directories are posted |
| YoloRouter.WorkspaceLayout | app/router/yoloRouter.py:71-72 | The crops root and every category directory under it lie inside the folder removed after dispatch |
| YoloRouter.WorkspacesDisjoint | app/router/yoloRouter.py:71-72 | Different counter values give different request folders, and no path under one of them (the folder itself, its crops root, a category directory) is a path under the other |
| YoloRouter.LastSegment | app/router/yoloRouter.py:98 | `url.split('/')[-1]` is the suffix of the URL after its last '/' and holds no '/' |
| YoloRouter.StatusCode | app/router/yoloRouter.py:93 | A failed download is a 400; every other failure ends in a 500. The handlers' contracts tie this to what they return |
| YoloRouter.DispatchFor | app/router/yoloRouter.py:71-73 | The handlers' call of the dispatch: the crops root and removal folder of the request's id. The removal folder is taken to exist, because the crops root inside it was listed |
| YoloRouter.HealthGate | app/router/yoloRouter.py:53-55 | The request passes the gate exactly when the health reply is a 200 with "status" equal to "ok". Every refusal, raised or not, is a 500 |
| YoloRouter.AfterIdIssued | app/router/yoloRouter.py:59-73 | The steps after the id is issued: save, then detect. A failed detection stops there. Otherwise the image is removed, then the crops are dispatched into the request's workspace, whose effects follow |
| YoloRouter.AfterIdIssuedStatus | app/router/yoloRouter.py:63-73 | Once the id is issued, every failure of the remaining steps (detection or dispatch) is a 500, never the download's 400 |
| YoloRouter.ProcessImage | app/router/yoloRouter.py:53-73 | A health check that fails or raises leaves the counter unchanged and does nothing else. Otherwise exactly one id is issued, and the upload is saved, detected, removed and dispatched in the request's workspace. Every failure is a 500 |
| YoloRouter.ProcessImageFromUrl | app/router/yoloRouter.py:81-114 | As `/yolo`, except that the download comes after the id is issued: a failed download is a 400 that spends the id and touches no file. The image is saved under "temp_" and the URL's last segment. The reply is a 400 exactly when the health gate passes and the download fails |
| YoloRouter.DetectAndDispatch | app/router/yoloRouter.py:63-73 | The steps after the id, in order: save, detect, remove the image, dispatch into the request's workspace |
| YoloRouter.CropsMissingEffects | app/service/yoloService.py:54 | With no crops root, the dispatch fails before any effect |
| YoloRouter.CleanupInsideWorkspace | app/router/yoloRouter.py:71-72 | Per-category removals in the router's layout all lie inside the request's folder |
| YoloRouter.DispatchOkEffects | app/router/yoloRouter.py:112-114 | A dispatch that returns normally removes only paths inside the request's folder, and removes that folder last |
| YoloRouter.DispatchUpstreamEffects | app/router/yoloRouter.py:112-114 | A dispatch stopped by an OCR failure removes only paths inside the request's folder and leaves that folder itself in place |
| YoloRouter.HandlerEffects | app/router/yoloRouter.py:63-73 | Save comes first and detection second. On failed detection the image is not removed. Otherwise it is removed before anything is posted. Apart from the temporary image, every directory removed lies inside the request's folder, and the folder itself is removed exactly when the request succeeds |

## Left out

- Real HTTP (httpx, requests), multipart encoding, timeouts and JSON parsing. Each reply is an input: a request error, a timeout or a response with a status and an already-classified body.
- The YOLOv5 `detection.run` call and its crop writing. Detection is a success flag; its output is the crops listing given to the dispatch.
- File and directory I/O: `open`/`close`, writing the temporary image, `shutil.rmtree`, `os.remove`. Saves, removals and posts are entries of the effect log; open file handles are not modelled.
- The `glob("*.jpg")` filter is modelled on the names a directory holds. Only the `.jpg` suffix is checked: a sub-directory whose name ends in ".jpg" is treated like a file, and the glob's hidden-file and case rules are not modelled.
- `open(file_path)` failing at line 63 is not modelled; opening a listed crop always succeeds.
- The `os.path.exists` test before each category removal (app/service/yoloService.py:108) is taken as always true, because the directory was just listed. The test before the final removal is the `removeFolderExists` input, and the handlers pass true because the crops root inside it was listed.
- JSON values that are not strings, and duplicate keys in a reply. A decoded OCR reply is a dict from file name to text with unique keys.
- DispatchProperties.DispatchOnSuccess: the claims about stored categories assume that no two listed entries share a name, which holds for a real directory listing but is not derived from the model.
- YoloService.Jpgs: states which names are kept, not that their order is the listing order; `GlobJpgs` and `Dispatch` still use the listing order.
- `/yolo_clova` (app/router/yoloRouter.py:118-137) and `send_cropped_images_to_clovaOCR`: the latter's body is not part of this model.
- The commented-out older dispatch code (app/service/yoloService.py:119-199), which never runs.
- main.py: startup, model warm-up and clearing of old run folders, all I/O.
- Logging, `async`/`await` scheduling, and concurrent requests sharing the global `temp_id`. The counter is a sequential object.
- The Windows path patch (app/router/yoloRouter.py:16-19).
