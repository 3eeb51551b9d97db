/**
 * The decision and aggregation logic of YOLOv5Service (app/service/yoloService.py):
 * the upstream health decision, the temporary image name, and the batch OCR
 * dispatch over the per-category crop directories. Network replies and the
 * directory listing are inputs; the files the service opens, posts and
 * deletes are recorded as a sequence of effects.
 */
module YoloService {
  import opened Wrappers
  import opened OrderedDict

  /** A filesystem path as its components (`Path("a") / "b"` is ["a", "b"]). */
  type Path = seq<string>

  // ---------------------------------------------------------------- health

  /** The value of the "status" member of a JSON object. */
  datatype JsonScalar = JString(s: string) | JOther

  /** What `response.json()` makes of a health reply body. */
  datatype HealthBody =
    | HealthNotJson
    | HealthNotObject
    | HealthObject(status: Option<JsonScalar>)

  /** The outcome of `client.get(health_url, timeout=5)`; a timeout is a request error. */
  datatype HealthReply = RequestError | HealthResponse(statusCode: int, body: HealthBody)

  /** Exceptions that escape `is_server2_healthy` (they are not `httpx.RequestError`). */
  datatype HealthError = JsonDecodeError | NoGetAttribute

  /**
   * `is_server2_healthy`: healthy exactly when the reply is a 200 whose JSON
   * object has "status" equal to "ok". A request error or any other status
   * is unhealthy without the body being read; a 200 whose body is not JSON,
   * or is JSON but not an object, raises.
   */
  function IsServer2Healthy(reply: HealthReply): (h: Result<bool, HealthError>)
    ensures h == Ok(true) <==>
      reply.HealthResponse? && reply.statusCode == 200 && reply.body == HealthObject(Some(JString("ok")))
    ensures h.Err? <==> reply.HealthResponse? && reply.statusCode == 200 && !reply.body.HealthObject?
    ensures h.Err? ==> (h.error == JsonDecodeError <==> reply.body.HealthNotJson?)
  {
    match reply
    case RequestError => Ok(false)
    case HealthResponse(code, body) =>
      if code != 200 then Ok(false)
      else
        match body
        case HealthNotJson => Err(JsonDecodeError)
        case HealthNotObject => Err(NoGetAttribute)
        case HealthObject(status) => Ok(status == Some(JString("ok")))
  }

  // ---------------------------------------------------------------- temp file

  /** `save_temp_file`: the name the uploaded image is written under. */
  function TempFilePath(fileId: string): (p: string)
    ensures |p| == |fileId| + 9
    ensures p[..5] == "temp_" && p[5..5 + |fileId|] == fileId && p[5 + |fileId|..] == ".jpg"
  {
    "temp_" + fileId + ".jpg"
  }

  // ---------------------------------------------------------------- OCR dispatch

  /** One entry of `dir_path.iterdir()`; `files` lists a directory's file names. */
  datatype Entry = Entry(name: string, isDir: bool, files: seq<string>)

  /** What `response.json()` makes of an OCR reply body. */
  datatype OcrBody = OcrNotJson | OcrNotObject | TextObject(texts: TextDict)

  /** The outcome of `client.post(url=ocr_url, files=files_data, timeout=45)`. */
  datatype OcrReply = TimedOut | RequestFailed | OcrResponse(statusCode: int, body: OcrBody)

  /** Exceptions that abort the dispatch after an OCR post. */
  datatype OcrError = Timeout | Transport | HttpStatus(code: int) | InvalidJson | NoKeysAttribute

  /** Side effects of the service, in the order they happen. */
  datatype Effect =
    | TempSaved(file: string)
    | DetectionRan(image: string, fileId: string)
    | TempRemoved(file: string)
    | Posted(category: Path, files: seq<string>)
    | Deleted(path: Path)

  /** The per-category log line: what was sent and which sent files came back without text. */
  datatype Report = Report(category: string, sent: seq<string>, missing: set<string>)

  /** Category name to its OCR texts, both in insertion order. */
  type Categorized = seq<(string, seq<(string, string)>)>

  datatype DispatchError = CropsMissing | Upstream(category: string, error: OcrError)

  /** The return value (or raised error) of one dispatch, its log and its effects. */
  datatype Run = Run(result: Result<Categorized, DispatchError>, reports: seq<Report>, effects: seq<Effect>)

  /** Whether `glob("*.jpg")` matches a file name. */
  predicate IsJpg(name: string) {
    |name| >= 4 && name[|name| - 4..] == ".jpg"
  }

  /** `category_dir.glob("*.jpg")`, in listing order. */
  function Jpgs(files: seq<string>): (r: seq<string>)
    ensures forall f :: f in r <==> f in files && IsJpg(f)
    ensures |r| <= |files|
  {
    if files == [] then []
    else
      var last := files[|files| - 1];
      assert files == files[..|files| - 1] + [last];
      Jpgs(files[..|files| - 1]) + (if IsJpg(last) then [last] else [])
  }

  /** `response.raise_for_status()` followed by `response.json()` and `.keys()`. */
  function DecodeReply(reply: OcrReply): (r: Result<TextDict, OcrError>)
    ensures r.Ok? <==>
      reply.OcrResponse? && 200 <= reply.statusCode < 300 && reply.body.TextObject?
    ensures r.Ok? ==> r.value == reply.body.texts
    ensures r.Err? && reply.OcrResponse? && !(200 <= reply.statusCode < 300) ==>
      r.error == HttpStatus(reply.statusCode)
  {
    match reply
    case TimedOut => Err(Timeout)
    case RequestFailed => Err(Transport)
    case OcrResponse(code, body) =>
      if !(200 <= code < 300) then Err(HttpStatus(code))
      else
        match body
        case OcrNotJson => Err(InvalidJson)
        case OcrNotObject => Err(NoKeysAttribute)
        case TextObject(texts) => Ok(texts)
  }

  /** `set(sent_file_names) - set(received_file_names)`. */
  function Missing(sent: seq<string>, received: TextDict): (m: set<string>)
    ensures forall f :: f in m <==> f in sent && Get(received, f).None?
  {
    (set f | f in sent) - KeySet(received)
  }

  /** A category directory the service posts: a directory holding at least one `*.jpg`. */
  predicate Dispatchable(e: Entry)
    ensures Dispatchable(e) <==> e.isDir && exists f | f in e.files :: IsJpg(f)
  {
    assert forall f | f in e.files && IsJpg(f) :: f in Jpgs(e.files);
    assert Jpgs(e.files) != [] ==> Jpgs(e.files)[0] in Jpgs(e.files);
    e.isDir && Jpgs(e.files) != []
  }

  /** The decoded OCR reply for a category's images. */
  function Reply(dirPath: Path, e: Entry, ocr: (Path, seq<string>) -> OcrReply): Result<TextDict, OcrError> {
    DecodeReply(ocr(dirPath + [e.name], Jpgs(e.files)))
  }

  /** The state of the dispatch loop after some entries. */
  datatype Walked = Walked(
    data: Categorized,
    reports: seq<Report>,
    effects: seq<Effect>,
    failure: Option<(string, OcrError)>)

  /** One iteration of the loop over `dir_path.iterdir()`. */
  function Visit(dirPath: Path, acc: Walked, e: Entry, ocr: (Path, seq<string>) -> OcrReply): Walked {
    var sent := Jpgs(e.files);
    if !e.isDir || sent == [] then acc
    else
      var category := dirPath + [e.name];
      var effects := acc.effects + [Posted(category, sent), Deleted(category)];
      match DecodeReply(ocr(category, sent))
      case Err(err) => Walked(acc.data, acc.reports, effects, Some((e.name, err)))
      case Ok(texts) =>
        Walked(
          Put(acc.data, e.name, SortByKey(texts)),
          acc.reports + [Report(e.name, sent, Missing(sent, texts))],
          effects,
          None)
  }

  /** The loop run over a listing, stopping at the first failed post. */
  function Walk(dirPath: Path, es: seq<Entry>, ocr: (Path, seq<string>) -> OcrReply): Walked
    decreases |es|
  {
    if es == [] then Walked([], [], [], None)
    else
      var before := Walk(dirPath, es[..|es| - 1], ocr);
      if before.failure.Some? then before else Visit(dirPath, before, es[|es| - 1], ocr)
  }

  /**
   * `send_cropped_images_to_ocr` as a function: `listing` is None when
   * `dir_path` does not exist, and `removeFolderExists` is what
   * `os.path.exists(remove_folder_path)` answers after the loop.
   */
  function Dispatch(
    dirPath: Path, removeFolder: Path, listing: Option<seq<Entry>>, removeFolderExists: bool,
    ocr: (Path, seq<string>) -> OcrReply): Run
  {
    match listing
    case None => Run(Err(CropsMissing), [], [])
    case Some(es) =>
      var w := Walk(dirPath, es, ocr);
      match w.failure
      case Some(f) => Run(Err(Upstream(f.0, f.1)), w.reports, w.effects)
      case None =>
        Run(Ok(w.data), w.reports, w.effects + if removeFolderExists then [Deleted(removeFolder)] else [])
  }

  /** Lines 62-65: the `*.jpg` names of one category directory, in listing order. */
  method GlobJpgs(files: seq<string>) returns (sent: seq<string>)
    ensures sent == Jpgs(files)
  {
    sent := [];
    var j := 0;
    while j < |files|
      invariant 0 <= j <= |files|
      invariant sent == Jpgs(files[..j])
    {
      assert files[..j + 1][..j] == files[..j];
      if IsJpg(files[j]) {
        sent := sent + [files[j]];
      }
      j := j + 1;
    }
    assert files[..j] == files;
  }

  /**
   * `send_cropped_images_to_ocr`, step by step: for every category directory
   * gather its `*.jpg` names, post them, sort the reply, compute the missing
   * names, store the result, and delete the directory whatever the reply;
   * finally delete `remove_folder_path`.
   */
  method SendCroppedImagesToOcr(
    dirPath: Path, removeFolder: Path, listing: Option<seq<Entry>>, removeFolderExists: bool,
    ocr: (Path, seq<string>) -> OcrReply)
    returns (run: Run)
    ensures run == Dispatch(dirPath, removeFolder, listing, removeFolderExists, ocr)
  {
    if listing.None? {
      return Run(Err(CropsMissing), [], []);
    }
    var entries := listing.value;
    var categorized: Categorized := [];
    var reports: seq<Report> := [];
    var effects: seq<Effect> := [];
    var i := 0;
    while i < |entries|
      invariant 0 <= i <= |entries|
      invariant Walk(dirPath, entries[..i], ocr) == Walked(categorized, reports, effects, None)
    {
      ghost var before := Walked(categorized, reports, effects, None);
      var e := entries[i];
      WalkStep(dirPath, entries, i, ocr);
      if e.isDir {
        var sent := GlobJpgs(e.files);
        if sent != [] {
          var category := dirPath + [e.name];
          effects := effects + [Posted(category, sent)];
          var reply := DecodeReply(ocr(category, sent));
          // the `finally` clause: the category directory goes in both outcomes
          effects := effects + [Deleted(category)];
          if reply.Err? {
            assert Visit(dirPath, before, e, ocr) == Walked(categorized, reports, effects, Some((e.name, reply.error)));
            WalkStopped(dirPath, entries, i + 1, ocr);
            return Run(Err(Upstream(e.name, reply.error)), reports, effects);
          }
          var texts := reply.value;
          reports := reports + [Report(e.name, sent, Missing(sent, texts))];
          categorized := Put(categorized, e.name, SortByKey(texts));
        }
      }
      assert Visit(dirPath, before, e, ocr) == Walked(categorized, reports, effects, None);
      i := i + 1;
    }
    assert entries[..i] == entries;
    run := Run(Ok(categorized), reports, effects + if removeFolderExists then [Deleted(removeFolder)] else []);
  }

  lemma WalkStep(dirPath: Path, es: seq<Entry>, i: nat, ocr: (Path, seq<string>) -> OcrReply)
    requires i < |es| && Walk(dirPath, es[..i], ocr).failure.None?
    ensures Walk(dirPath, es[..i + 1], ocr) == Visit(dirPath, Walk(dirPath, es[..i], ocr), es[i], ocr)
  {
    assert es[..i + 1][..i] == es[..i];
  }

  /** Once a post has failed, the remaining entries are not visited. */
  lemma {:induction false} WalkStopped(dirPath: Path, es: seq<Entry>, i: nat, ocr: (Path, seq<string>) -> OcrReply)
    requires i <= |es| && Walk(dirPath, es[..i], ocr).failure.Some?
    ensures Walk(dirPath, es, ocr) == Walk(dirPath, es[..i], ocr)
    decreases |es| - i
  {
    if i == |es| {
      assert es[..i] == es;
    } else {
      var init := es[..|es| - 1];
      assert init[..i] == es[..i];
      WalkStopped(dirPath, init, i, ocr);
    }
  }
}
