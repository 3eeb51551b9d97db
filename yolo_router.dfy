/**
 * The request handling of app/router/yoloRouter.py: the `Temp_id` request-id
 * counter, the per-request workspace layout, and the order of steps in the
 * `/yolo` and `/yolo-from-url` handlers. Replies of the upstream services,
 * whether detection and download succeed, and the crops listing are inputs.
 */
module YoloRouter {
  import opened Wrappers
  import opened Decimal
  import opened YoloService
  import opened DispatchProperties

  /** `f"No_{n}_file"`. */
  function FileId(n: nat): (s: string)
    ensures |s| == |NatToString(n)| + 8
    ensures s[..3] == "No_" && s[3..|s| - 5] == NatToString(n) && s[|s| - 5..] == "_file"
  {
    "No_" + NatToString(n) + "_file"
  }

  /** Different counter values give different ids. */
  lemma FileIdInjective(a: nat, b: nat)
    requires FileId(a) == FileId(b)
    ensures a == b
  {
    NatToStringInjective(a, b);
  }

  /** The request-id generator `Temp_id`. */
  class TempId {
    var id: nat
    /** Every id handed out so far, oldest first. */
    ghost var issued: seq<string>

    ghost predicate Valid()
      reads this
    {
      |issued| == id && forall k | 0 <= k < |issued| :: issued[k] == FileId(k + 1)
    }

    constructor ()
      ensures Valid() && id == 0 && issued == []
    {
      id := 0;
      issued := [];
    }

    /** `get_id`: advance the counter by one and name the new value. */
    method GetId() returns (s: string)
      requires Valid()
      modifies this
      ensures Valid()
      ensures id == old(id) + 1 && s == FileId(id)
      ensures issued == old(issued) + [s]
      ensures s !in old(issued)
    {
      id := id + 1;
      s := FileId(id);
      forall k | 0 <= k < |issued| ensures issued[k] != s {
        if issued[k] == s {
          FileIdInjective(k + 1, id);
        }
      }
      issued := issued + [s];
    }
  }

  /** No id is handed out twice by one generator. */
  lemma IssuedDistinct(t: TempId)
    requires t.Valid()
    ensures forall i, j | 0 <= i < j < |t.issued| :: t.issued[i] != t.issued[j]
  {
    forall i, j | 0 <= i < j < |t.issued| ensures t.issued[i] != t.issued[j] {
      if t.issued[i] == t.issued[j] {
        FileIdInjective(i + 1, j + 1);
      }
    }
  }

  /** A fresh generator's first id is "No_1_file". */
  method FirstId() returns (s: string)
    ensures s == "No_1_file"
  {
    var t := new TempId();
    s := t.GetId();
    assert NatToString(1) == "1";
  }

  /** `Path("yolov5") / "runs" / "detect" / file_id`: the folder removed after dispatch. */
  function DetectDir(fileId: string): Path {
    ["yolov5", "runs", "detect", fileId]
  }

  /** `DetectDir(file_id) / "crops"`: the root of the per-category crop directories. */
  function CropsDir(fileId: string): Path {
    DetectDir(fileId) + ["crops"]
  }

  /**
   * The crops root and every category directory under it lie strictly
   * inside the folder removed after dispatch, and the folders of two
   * different counter values are disjoint.
   */
  lemma WorkspaceLayout(fileId: string, name: string)
    ensures CropsDir(fileId)[..4] == DetectDir(fileId) && |CropsDir(fileId)| == 5
    ensures (CropsDir(fileId) + [name])[..4] == DetectDir(fileId)
  {
  }

  lemma WorkspacesDisjoint(a: nat, b: nat)
    requires a != b
    ensures DetectDir(FileId(a)) != DetectDir(FileId(b))
    ensures forall p: Path, q: Path | |p| >= 4 && p[..4] == DetectDir(FileId(a)) && |q| >= 4 && q[..4] == DetectDir(FileId(b)) ::
      p != q
  {
    if FileId(a) == FileId(b) {
      FileIdInjective(a, b);
    }
    forall p: Path, q: Path | |p| >= 4 && p[..4] == DetectDir(FileId(a)) && |q| >= 4 && q[..4] == DetectDir(FileId(b))
      ensures p != q
    {
      assert p[3] == FileId(a) && q[3] == FileId(b);
    }
  }

  /** `image_url.split('/')[-1]`: the text after the last '/', or all of it. */
  function LastSegment(url: string): (r: string)
    ensures '/' !in r
    ensures |r| <= |url| && r == url[|url| - |r|..]
    ensures |r| < |url| ==> url[|url| - |r| - 1] == '/'
  {
    if url == [] || url[|url| - 1] == '/' then []
    else LastSegment(url[..|url| - 1]) + [url[|url| - 1]]
  }

  /** Why a handler did not return a result. */
  datatype Failure =
    | Unhealthy
    | HealthCheckRaised(error: HealthError)
    | DownloadFailed
    | DetectionFailed
    | DispatchFailed(reason: DispatchError)

  /** The HTTP status the caller sees: the download error is raised as a 400, everything else ends in a 500. */
  function StatusCode(f: Failure): (code: int)
    ensures code == 400 <==> f.DownloadFailed?
    ensures code == 500 <==> !f.DownloadFailed?
  {
    if f.DownloadFailed? then 400 else 500
  }

  /** The dispatch as the handlers call it, for the workspace of `fileId`. */
  function DispatchFor(fileId: string, crops: Option<seq<Entry>>, ocr: (Path, seq<string>) -> OcrReply): Run {
    // The crops root was listed inside DetectDir(fileId), so that folder exists at line 113.
    Dispatch(CropsDir(fileId), DetectDir(fileId), crops, true, ocr)
  }

  function AsResponse(r: Result<Categorized, DispatchError>): Result<Categorized, Failure> {
    match r
    case Ok(data) => Ok(data)
    case Err(e) => Err(DispatchFailed(e))
  }

  /**
   * Lines 62-73 and 104-114, shared by both handlers: detection on the
   * temporary image, its removal once detection has returned, then dispatch.
   */
  function AfterIdIssued(
    fileId: string, temp: string, detectionOk: bool, crops: Option<seq<Entry>>,
    ocr: (Path, seq<string>) -> OcrReply): (Result<Categorized, Failure>, seq<Effect>)
  {
    if !detectionOk then (Err(DetectionFailed), [TempSaved(temp), DetectionRan(temp, fileId)])
    else
      var run := DispatchFor(fileId, crops, ocr);
      (AsResponse(run.result), [TempSaved(temp), DetectionRan(temp, fileId), TempRemoved(temp)] + run.effects)
  }

  /** The health gate both handlers open with, as the failure it raises. */
  function HealthGate(health: HealthReply): (gate: Option<Failure>)
    ensures gate.None? <==> health.HealthResponse? && health.statusCode == 200
                            && health.body == HealthObject(Some(JString("ok")))
    ensures gate.Some? ==> StatusCode(gate.value) == 500
  {
    match IsServer2Healthy(health)
    case Err(e) => Some(HealthCheckRaised(e))
    case Ok(false) => Some(Unhealthy)
    case Ok(true) => None
  }

  /**
   * `/yolo`: check the upstream, take an id, save the upload, detect, remove
   * the upload, dispatch. An unhealthy upstream leaves the counter as it was.
   */
  method ProcessImage(
    counter: TempId, health: HealthReply, detectionOk: bool, crops: Option<seq<Entry>>,
    ocr: (Path, seq<string>) -> OcrReply)
    returns (response: Result<Categorized, Failure>, effects: seq<Effect>)
    requires counter.Valid()
    modifies counter
    ensures counter.Valid()
    ensures HealthGate(health).Some? ==>
      response == Err(HealthGate(health).value) && effects == [] && unchanged(counter)
    ensures HealthGate(health).None? ==>
      && counter.id == old(counter.id) + 1
      && counter.issued == old(counter.issued) + [FileId(counter.id)]
      && (response, effects) ==
           AfterIdIssued(FileId(counter.id), TempFilePath(FileId(counter.id)), detectionOk, crops, ocr)
    ensures response.Err? ==> StatusCode(response.error) == 500
  {
    var healthy := IsServer2Healthy(health);
    if healthy != Ok(true) {
      return Err(HealthGate(health).value), [];
    }
    var fileId := counter.GetId();
    response, effects := DetectAndDispatch(fileId, TempFilePath(fileId), detectionOk, crops, ocr);
    AfterIdIssuedStatus(fileId, TempFilePath(fileId), detectionOk, crops, ocr);
  }

  /**
   * `/yolo-from-url`: check the upstream, take an id, download the image
   * (a failed download is a 400 and the id is spent), save it under the
   * URL's last segment, detect, remove it, dispatch.
   */
  method ProcessImageFromUrl(
    counter: TempId, health: HealthReply, imageUrl: string, downloadOk: bool, detectionOk: bool,
    crops: Option<seq<Entry>>, ocr: (Path, seq<string>) -> OcrReply)
    returns (response: Result<Categorized, Failure>, effects: seq<Effect>)
    requires counter.Valid()
    modifies counter
    ensures counter.Valid()
    ensures HealthGate(health).Some? ==>
      response == Err(HealthGate(health).value) && effects == [] && unchanged(counter)
    ensures HealthGate(health).None? ==>
      && counter.id == old(counter.id) + 1
      && counter.issued == old(counter.issued) + [FileId(counter.id)]
      && (!downloadOk ==> response == Err(DownloadFailed) && effects == [])
      && (downloadOk ==>
            (response, effects) ==
              AfterIdIssued(FileId(counter.id), "temp_" + LastSegment(imageUrl), detectionOk, crops, ocr))
    ensures response.Err? && StatusCode(response.error) == 400 <==> HealthGate(health).None? && !downloadOk
  {
    var healthy := IsServer2Healthy(health);
    if healthy != Ok(true) {
      return Err(HealthGate(health).value), [];
    }
    var fileId := counter.GetId();
    if !downloadOk {
      return Err(DownloadFailed), [];
    }
    response, effects := DetectAndDispatch(fileId, "temp_" + LastSegment(imageUrl), detectionOk, crops, ocr);
    AfterIdIssuedStatus(fileId, "temp_" + LastSegment(imageUrl), detectionOk, crops, ocr);
  }

  /** The steps after the id is issued, run in order: save, detect, remove the image, dispatch. */
  method DetectAndDispatch(
    fileId: string, temp: string, detectionOk: bool, crops: Option<seq<Entry>>,
    ocr: (Path, seq<string>) -> OcrReply)
    returns (response: Result<Categorized, Failure>, effects: seq<Effect>)
    ensures (response, effects) == AfterIdIssued(fileId, temp, detectionOk, crops, ocr)
  {
    effects := [TempSaved(temp), DetectionRan(temp, fileId)];
    if !detectionOk {
      return Err(DetectionFailed), effects;
    }
    var run := SendCroppedImagesToOcr(CropsDir(fileId), DetectDir(fileId), crops, true, ocr);
    assert run == DispatchFor(fileId, crops, ocr);
    effects := [TempSaved(temp), DetectionRan(temp, fileId), TempRemoved(temp)] + run.effects;
    response := AsResponse(run.result);
  }

  /** Once the id is issued, every failure of the remaining steps ends in a 500. */
  lemma AfterIdIssuedStatus(
    fileId: string, temp: string, detectionOk: bool, crops: Option<seq<Entry>>,
    ocr: (Path, seq<string>) -> OcrReply)
    ensures var response := AfterIdIssued(fileId, temp, detectionOk, crops, ocr).0;
      response.Err? ==> StatusCode(response.error) == 500 && !response.error.DownloadFailed?
  {
  }

  /** What the dispatch does in the router's layout when the crops root is missing. */
  lemma CropsMissingEffects(fileId: string, crops: Option<seq<Entry>>, ocr: (Path, seq<string>) -> OcrReply)
    requires crops.None?
    ensures DispatchFor(fileId, crops, ocr).effects == []
    ensures DispatchFor(fileId, crops, ocr).result == Err(CropsMissing)
  {
  }

  /** The removals of a cleanup log under the crops root all lie inside the request's folder. */
  lemma CleanupInsideWorkspace(fileId: string, ds: seq<Entry>)
    ensures var log := CleanupLog(CropsDir(fileId), ds);
      forall f | f in log :: f.Posted? || (f.Deleted? && |f.path| == 6 && f.path[..4] == DetectDir(fileId))
  {
    var dirPath := CropsDir(fileId);
    var log := CleanupLog(dirPath, ds);
    CleanupLogStepKinds(dirPath, ds);
    CleanupLogPaired(dirPath, ds);
    forall f | f in log && f.Deleted? ensures |f.path| == 6 && f.path[..4] == DetectDir(fileId) {
      var i :| 0 <= i < |log| && log[i] == f;
      assert f.path[..5] == dirPath;
      assert f.path[..4] == f.path[..5][..4];
    }
  }

  /** A dispatch that returns normally ends by removing the request's folder, and removes nothing outside it. */
  lemma DispatchOkEffects(fileId: string, crops: Option<seq<Entry>>, ocr: (Path, seq<string>) -> OcrReply)
    requires DispatchFor(fileId, crops, ocr).result.Ok?
    ensures var fx := DispatchFor(fileId, crops, ocr).effects;
      && |fx| > 0 && fx[|fx| - 1] == Deleted(DetectDir(fileId))
      && forall f | f in fx :: f.Posted? || (f.Deleted? && |f.path| >= 4 && f.path[..4] == DetectDir(fileId))
  {
    DispatchOnSuccess(CropsDir(fileId), DetectDir(fileId), crops, true, ocr);
    CleanupInsideWorkspace(fileId, Dispatched(crops.value));
  }

  /** A dispatch stopped by an upstream error leaves the request's folder in place. */
  lemma DispatchUpstreamEffects(fileId: string, crops: Option<seq<Entry>>, ocr: (Path, seq<string>) -> OcrReply)
    requires DispatchFor(fileId, crops, ocr).result.Err?
    requires DispatchFor(fileId, crops, ocr).result.error.Upstream?
    ensures var fx := DispatchFor(fileId, crops, ocr).effects;
      && Deleted(DetectDir(fileId)) !in fx
      && forall f | f in fx :: f.Posted? || (f.Deleted? && |f.path| >= 4 && f.path[..4] == DetectDir(fileId))
  {
    var j := DispatchOnUpstreamError(CropsDir(fileId), DetectDir(fileId), crops, true, ocr);
    CleanupInsideWorkspace(fileId, Dispatched(crops.value[..j]) + [crops.value[j]]);
  }

  /**
   * In both handlers the temporary image is removed only after detection has
   * returned and before anything is posted; when detection fails it is left
   * behind. Every directory removed lies inside the request's own folder,
   * and that folder itself is removed exactly when the request succeeds.
   */
  lemma HandlerEffects(
    fileId: string, temp: string, detectionOk: bool, crops: Option<seq<Entry>>,
    ocr: (Path, seq<string>) -> OcrReply)
    ensures var (response, effects) := AfterIdIssued(fileId, temp, detectionOk, crops, ocr);
      && |effects| >= 2 && effects[..2] == [TempSaved(temp), DetectionRan(temp, fileId)]
      && (!detectionOk ==> |effects| == 2 && response == Err(DetectionFailed))
      && (detectionOk ==> |effects| >= 3 && effects[2] == TempRemoved(temp)
                           && forall f | f in effects[3..] :: f.Posted? || f.Deleted?)
    ensures var (response, effects) := AfterIdIssued(fileId, temp, detectionOk, crops, ocr);
      forall f | f in effects && f.Deleted? :: |f.path| >= 4 && f.path[..4] == DetectDir(fileId)
    ensures var (response, effects) := AfterIdIssued(fileId, temp, detectionOk, crops, ocr);
      Deleted(DetectDir(fileId)) in effects <==> response.Ok?
  {
    if detectionOk {
      var run := DispatchFor(fileId, crops, ocr);
      var effects := [TempSaved(temp), DetectionRan(temp, fileId), TempRemoved(temp)] + run.effects;
      assert effects[3..] == run.effects;
      if crops.None? {
        CropsMissingEffects(fileId, crops, ocr);
      } else if run.result.Ok? {
        DispatchOkEffects(fileId, crops, ocr);
      } else {
        DispatchUpstreamEffects(fileId, crops, ocr);
      }
    }
  }
}
