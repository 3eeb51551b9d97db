/**
 * What `send_cropped_images_to_ocr` promises, proved about its specification
 * `YoloService.Dispatch`: which categories are posted, what is stored for
 * each, what is logged as missing, and what is deleted on each exit path.
 */
module DispatchProperties {
  import opened Wrappers
  import opened StringOrder
  import opened OrderedDict
  import opened YoloService

  /** The entries the loop posts, in listing order. */
  function Dispatched(es: seq<Entry>): (ds: seq<Entry>)
    ensures forall e | e in ds :: e in es && Dispatchable(e)
    ensures |ds| <= |es|
  {
    if es == [] then []
    else
      var last := es[|es| - 1];
      Dispatched(es[..|es| - 1]) + if Dispatchable(last) then [last] else []
  }

  /** One post and one directory removal per posted category, in order. */
  function CleanupLog(dirPath: Path, ds: seq<Entry>): (log: seq<Effect>)
    ensures |log| == 2 * |ds|
  {
    if ds == [] then []
    else
      var last := ds[|ds| - 1];
      var category := dirPath + [last.name];
      CleanupLog(dirPath, ds[..|ds| - 1]) + [Posted(category, Jpgs(last.files)), Deleted(category)]
  }

  /** A directory listing never holds two entries of the same name. */
  predicate DistinctNames(es: seq<Entry>) {
    forall i, j | 0 <= i < j < |es| :: es[i].name != es[j].name
  }

  /** The report logged for a category whose post succeeded. */
  function ExpectedReport(dirPath: Path, e: Entry, ocr: (Path, seq<string>) -> OcrReply): Report
    requires Reply(dirPath, e, ocr).Ok?
  {
    Report(e.name, Jpgs(e.files), Missing(Jpgs(e.files), Reply(dirPath, e, ocr).value))
  }

  /**
   * Every post in a cleanup log is followed at once by the removal of the
   * same directory, and everything removed is a direct child of `dirPath`.
   */
  lemma {:induction false} CleanupLogPaired(dirPath: Path, ds: seq<Entry>)
    ensures var log := CleanupLog(dirPath, ds);
      forall i | 0 <= i < |log| && log[i].Posted? :: i + 1 < |log| && log[i + 1] == Deleted(log[i].category)
    ensures var log := CleanupLog(dirPath, ds);
      forall i | 0 <= i < |log| && log[i].Deleted? ::
        |log[i].path| == |dirPath| + 1 && log[i].path[..|dirPath|] == dirPath
    ensures var log := CleanupLog(dirPath, ds);
      forall e | e in ds :: Deleted(dirPath + [e.name]) in log
  {
    if ds != [] {
      var init := ds[..|ds| - 1];
      CleanupLogPaired(dirPath, init);
      assert ds == init + [ds[|ds| - 1]];
    }
  }

  /** An entry the loop skips leaves its state as it was. */
  lemma VisitSkipped(dirPath: Path, acc: Walked, e: Entry, ocr: (Path, seq<string>) -> OcrReply)
    requires !Dispatchable(e)
    ensures Visit(dirPath, acc, e, ocr) == acc
  {
  }

  /** A posted entry whose reply decodes is stored, reported and removed. */
  lemma VisitPosted(dirPath: Path, acc: Walked, e: Entry, ocr: (Path, seq<string>) -> OcrReply)
    requires Dispatchable(e) && Reply(dirPath, e, ocr).Ok?
    ensures Visit(dirPath, acc, e, ocr) == Walked(
      Put(acc.data, e.name, SortByKey(Reply(dirPath, e, ocr).value)),
      acc.reports + [ExpectedReport(dirPath, e, ocr)],
      acc.effects + [Posted(dirPath + [e.name], Jpgs(e.files)), Deleted(dirPath + [e.name])],
      None)
  {
  }

  /** A posted entry whose reply is an error stops the loop after removing its directory. */
  lemma VisitFailed(dirPath: Path, acc: Walked, e: Entry, ocr: (Path, seq<string>) -> OcrReply)
    requires Dispatchable(e) && Reply(dirPath, e, ocr).Err?
    ensures Visit(dirPath, acc, e, ocr) == Walked(
      acc.data,
      acc.reports,
      acc.effects + [Posted(dirPath + [e.name], Jpgs(e.files)), Deleted(dirPath + [e.name])],
      Some((e.name, Reply(dirPath, e, ocr).error)))
  {
  }

  /** A visit that leaves no failure behind either skipped the entry or got a decoded reply. */
  lemma VisitUnfailed(dirPath: Path, acc: Walked, e: Entry, ocr: (Path, seq<string>) -> OcrReply)
    requires acc.failure.None? && Visit(dirPath, acc, e, ocr).failure.None?
    ensures Dispatchable(e) ==> Reply(dirPath, e, ocr).Ok?
  {
  }

  /** A visit that leaves a failure behind posted the entry and got an error. */
  lemma VisitFailedOnlyIfPosted(dirPath: Path, acc: Walked, e: Entry, ocr: (Path, seq<string>) -> OcrReply)
    requires acc.failure.None? && Visit(dirPath, acc, e, ocr).failure.Some?
    ensures Dispatchable(e) && Reply(dirPath, e, ocr).Err?
  {
  }

  lemma WalkLast(dirPath: Path, es: seq<Entry>, ocr: (Path, seq<string>) -> OcrReply)
    requires es != [] && Walk(dirPath, es[..|es| - 1], ocr).failure.None?
    ensures Walk(dirPath, es, ocr) == Visit(dirPath, Walk(dirPath, es[..|es| - 1], ocr), es[|es| - 1], ocr)
  {
  }

  lemma DispatchedLast(es: seq<Entry>)
    requires es != []
    ensures Dispatched(es) == Dispatched(es[..|es| - 1]) + if Dispatchable(es[|es| - 1]) then [es[|es| - 1]] else []
  {
  }

  lemma CleanupLogLast(dirPath: Path, ds: seq<Entry>, e: Entry)
    ensures CleanupLog(dirPath, ds + [e]) ==
      CleanupLog(dirPath, ds) + [Posted(dirPath + [e.name], Jpgs(e.files)), Deleted(dirPath + [e.name])]
  {
    assert (ds + [e])[..|ds|] == ds;
  }

  /** A cleanup log removes nothing but direct children of `dirPath`. */
  lemma {:induction false} CleanupLogRemovesChildren(dirPath: Path, ds: seq<Entry>, p: Path)
    requires |p| != |dirPath| + 1
    ensures Deleted(p) !in CleanupLog(dirPath, ds)
  {
    if ds != [] {
      CleanupLogRemovesChildren(dirPath, ds[..|ds| - 1], p);
    }
  }

  /** A cleanup log holds only posts and removals. */
  lemma {:induction false} CleanupLogStepKinds(dirPath: Path, ds: seq<Entry>)
    ensures forall f | f in CleanupLog(dirPath, ds) :: f.Posted? || f.Deleted?
  {
    if ds != [] {
      CleanupLogStepKinds(dirPath, ds[..|ds| - 1]);
    }
  }

  lemma {:induction false} WalkOk(dirPath: Path, es: seq<Entry>, ocr: (Path, seq<string>) -> OcrReply)
    requires Walk(dirPath, es, ocr).failure.None?
    ensures var w := Walk(dirPath, es, ocr); var ds := Dispatched(es);
      && w.effects == CleanupLog(dirPath, ds)
      && |w.reports| == |ds|
      && (forall k | 0 <= k < |ds| ::
            Reply(dirPath, ds[k], ocr).Ok? && w.reports[k] == ExpectedReport(dirPath, ds[k], ocr))
  {
    if es != [] {
      var init := es[..|es| - 1];
      var e := es[|es| - 1];
      var w0 := Walk(dirPath, init, ocr);
      assert w0.failure.None?;
      WalkLast(dirPath, es, ocr);
      WalkOk(dirPath, init, ocr);
      DispatchedLast(es);
      var ds := Dispatched(init);
      VisitUnfailed(dirPath, w0, e, ocr);
      if Dispatchable(e) {
        VisitPosted(dirPath, w0, e, ocr);
        CleanupLogLast(dirPath, ds, e);
        var w := Walk(dirPath, es, ocr);
        var ds' := ds + [e];
        assert w.reports == w0.reports + [ExpectedReport(dirPath, e, ocr)];
        forall k | 0 <= k < |ds'|
          ensures Reply(dirPath, ds'[k], ocr).Ok? && w.reports[k] == ExpectedReport(dirPath, ds'[k], ocr)
        {
          if k < |ds| {
            assert ds'[k] == ds[k] && w.reports[k] == w0.reports[k];
          }
        }
      } else {
        VisitSkipped(dirPath, w0, e, ocr);
        assert Dispatched(es) == ds;
      }
    }
  }

  lemma {:induction false} WalkOkData(dirPath: Path, es: seq<Entry>, ocr: (Path, seq<string>) -> OcrReply)
    requires Walk(dirPath, es, ocr).failure.None? && DistinctNames(es)
    ensures var w := Walk(dirPath, es, ocr); var ds := Dispatched(es);
      && |w.data| == |ds|
      && (forall k | 0 <= k < |ds| ::
            Reply(dirPath, ds[k], ocr).Ok? && w.data[k] == (ds[k].name, SortByKey(Reply(dirPath, ds[k], ocr).value)))
  {
    if es != [] {
      var init := es[..|es| - 1];
      var e := es[|es| - 1];
      var w0 := Walk(dirPath, init, ocr);
      assert w0.failure.None?;
      assert DistinctNames(init);
      WalkLast(dirPath, es, ocr);
      WalkOkData(dirPath, init, ocr);
      DispatchedLast(es);
      var ds := Dispatched(init);
      VisitUnfailed(dirPath, w0, e, ocr);
      if Dispatchable(e) {
        VisitPosted(dirPath, w0, e, ocr);
        NameNotYetStored(es, w0.data);
      } else {
        VisitSkipped(dirPath, w0, e, ocr);
        assert Dispatched(es) == ds;
      }
    }
  }

  /** With distinct names, the last entry's name is not among those stored for the earlier ones. */
  lemma NameNotYetStored(es: seq<Entry>, data: Categorized)
    requires es != [] && DistinctNames(es)
    requires |data| == |Dispatched(es[..|es| - 1])|
    requires forall k | 0 <= k < |data| :: data[k].0 == Dispatched(es[..|es| - 1])[k].name
    ensures es[|es| - 1].name !in KeySet(data)
  {
    var init := es[..|es| - 1];
    var ds := Dispatched(init);
    forall p | p in data ensures p.0 != es[|es| - 1].name {
      var k :| 0 <= k < |data| && data[k] == p;
      assert ds[k] in init;
      var m :| 0 <= m < |init| && init[m] == ds[k];
      assert es[m] == ds[k];
    }
  }

  /** The failing post, when there is one: the entry at which the loop stopped. */
  lemma {:induction false} FailingEntry(dirPath: Path, es: seq<Entry>, ocr: (Path, seq<string>) -> OcrReply)
    returns (j: nat)
    requires Walk(dirPath, es, ocr).failure.Some?
    ensures j < |es|
    ensures Walk(dirPath, es[..j], ocr).failure.None?
    ensures Walk(dirPath, es[..j + 1], ocr).failure.Some?
  {
    var init := es[..|es| - 1];
    if Walk(dirPath, init, ocr).failure.Some? {
      j := FailingEntry(dirPath, init, ocr);
      assert init[..j] == es[..j] && init[..j + 1] == es[..j + 1];
    } else {
      j := |es| - 1;
      assert es[..j] == init && es[..j + 1] == es;
    }
  }

  /**
   * When the loop stops, the stopping entry is the first posted category
   * whose reply is an error, and the effects are the cleanup log of the
   * categories posted up to and including it.
   */
  lemma WalkFailed(dirPath: Path, es: seq<Entry>, ocr: (Path, seq<string>) -> OcrReply)
    returns (j: nat)
    requires Walk(dirPath, es, ocr).failure.Some?
    ensures j < |es| && Dispatchable(es[j])
    ensures Walk(dirPath, es[..j], ocr).failure.None?
    ensures Reply(dirPath, es[j], ocr).Err?
    ensures Walk(dirPath, es, ocr).failure == Some((es[j].name, Reply(dirPath, es[j], ocr).error))
    ensures Walk(dirPath, es, ocr).effects == CleanupLog(dirPath, Dispatched(es[..j]) + [es[j]])
  {
    j := FailingEntry(dirPath, es, ocr);
    var upto := es[..j + 1];
    assert upto[..j] == es[..j] && upto[j] == es[j];
    WalkStopped(dirPath, es, j + 1, ocr);
    var w0 := Walk(dirPath, es[..j], ocr);
    WalkLast(dirPath, upto, ocr);
    WalkOk(dirPath, es[..j], ocr);
    VisitFailedOnlyIfPosted(dirPath, w0, es[j], ocr);
    VisitFailed(dirPath, w0, es[j], ocr);
    CleanupLogLast(dirPath, Dispatched(es[..j]), es[j]);
  }

  lemma {:induction false} DispatchedContains(es: seq<Entry>, j: nat)
    requires j < |es| && Dispatchable(es[j])
    ensures es[j] in Dispatched(es)
  {
    DispatchedLast(es);
    if j < |es| - 1 {
      DispatchedContains(es[..|es| - 1], j);
    }
  }

  /**
   * The dispatch returns normally exactly when the crops root exists and
   * every posted category's reply decodes; any failed post aborts it.
   */
  lemma DispatchSucceedsIff(
    dirPath: Path, removeFolder: Path, listing: Option<seq<Entry>>, removeFolderExists: bool,
    ocr: (Path, seq<string>) -> OcrReply)
    ensures Dispatch(dirPath, removeFolder, listing, removeFolderExists, ocr).result.Ok? <==>
      listing.Some? && forall e | e in Dispatched(listing.value) :: Reply(dirPath, e, ocr).Ok?
  {
    if listing.Some? {
      var es := listing.value;
      if Walk(dirPath, es, ocr).failure.None? {
        WalkOk(dirPath, es, ocr);
      } else {
        var j := WalkFailed(dirPath, es, ocr);
        DispatchedContains(es, j);
      }
    }
  }

  /**
   * On normal return: every category directory holding a `*.jpg` was posted
   * once, in listing order, and removed right after its post; the removal
   * folder is removed last; each posted category has its report; and (names
   * in a listing being distinct) each category's stored texts are its reply
   * re-ordered by strictly ascending file name, with the same names and texts.
   */
  lemma DispatchOnSuccess(
    dirPath: Path, removeFolder: Path, listing: Option<seq<Entry>>, removeFolderExists: bool,
    ocr: (Path, seq<string>) -> OcrReply)
    requires Dispatch(dirPath, removeFolder, listing, removeFolderExists, ocr).result.Ok?
    ensures listing.Some?
    ensures var run := Dispatch(dirPath, removeFolder, listing, removeFolderExists, ocr);
      var ds := Dispatched(listing.value);
      && run.effects == CleanupLog(dirPath, ds) + (if removeFolderExists then [Deleted(removeFolder)] else [])
      && |run.reports| == |ds|
      && (forall k | 0 <= k < |ds| ::
            Reply(dirPath, ds[k], ocr).Ok? && run.reports[k] == ExpectedReport(dirPath, ds[k], ocr))
    ensures var run := Dispatch(dirPath, removeFolder, listing, removeFolderExists, ocr);
      var ds := Dispatched(listing.value);
      DistinctNames(listing.value) ==>
      && |run.result.value| == |ds|
      && (forall k | 0 <= k < |ds| ::
            && run.result.value[k].0 == ds[k].name
            && run.reports[k].category == ds[k].name
            && StrictlyAscending(run.result.value[k].1)
            && KeySet(run.result.value[k].1) == KeySet(Reply(dirPath, ds[k], ocr).value)
            && (forall f :: Get(run.result.value[k].1, f) == Get(Reply(dirPath, ds[k], ocr).value, f)))
  {
    var es := listing.value;
    var ds := Dispatched(es);
    WalkOk(dirPath, es, ocr);
    if DistinctNames(es) {
      WalkOkData(dirPath, es, ocr);
      forall k | 0 <= k < |ds|
        ensures StrictlyAscending(SortByKey(Reply(dirPath, ds[k], ocr).value))
        ensures KeySet(SortByKey(Reply(dirPath, ds[k], ocr).value)) == KeySet(Reply(dirPath, ds[k], ocr).value)
        ensures forall f :: Get(SortByKey(Reply(dirPath, ds[k], ocr).value), f) == Get(Reply(dirPath, ds[k], ocr).value, f)
      {
        SortByKeyFaithful(Reply(dirPath, ds[k], ocr).value);
      }
    }
  }

  /**
   * When a post fails the error propagates: the failing category is the
   * `j`-th entry, every category posted up to and including it was removed
   * right after its post, nothing after it was posted, and the removal
   * folder is left in place.
   */
  lemma DispatchOnUpstreamError(
    dirPath: Path, removeFolder: Path, listing: Option<seq<Entry>>, removeFolderExists: bool,
    ocr: (Path, seq<string>) -> OcrReply)
    returns (j: nat)
    requires Dispatch(dirPath, removeFolder, listing, removeFolderExists, ocr).result.Err?
    requires Dispatch(dirPath, removeFolder, listing, removeFolderExists, ocr).result.error.Upstream?
    ensures listing.Some? && j < |listing.value|
    ensures var run := Dispatch(dirPath, removeFolder, listing, removeFolderExists, ocr);
      var es := listing.value;
      && Dispatchable(es[j])
      && Reply(dirPath, es[j], ocr).Err?
      && run.result.error == Upstream(es[j].name, Reply(dirPath, es[j], ocr).error)
      && (forall e | e in Dispatched(es[..j]) :: Reply(dirPath, e, ocr).Ok?)
      && run.effects == CleanupLog(dirPath, Dispatched(es[..j]) + [es[j]])
      && run.effects[|run.effects| - 1] == Deleted(dirPath + [es[j].name])
      && (|removeFolder| != |dirPath| + 1 ==> Deleted(removeFolder) !in run.effects)
  {
    var es := listing.value;
    j := WalkFailed(dirPath, es, ocr);
    WalkOk(dirPath, es[..j], ocr);
    CleanupLogLast(dirPath, Dispatched(es[..j]), es[j]);
    if |removeFolder| != |dirPath| + 1 {
      CleanupLogRemovesChildren(dirPath, Dispatched(es[..j]) + [es[j]], removeFolder);
    }
  }

  /** An OCR server that answers every post with text for two of the names. */
  function PartialOracle(category: Path, files: seq<string>): OcrReply {
    OcrResponse(200, TextObject([("b.jpg", "KIM"), ("a.jpg", "ABC-123")]))
  }

  /** An OCR server that never answers in time. */
  function SilentOracle(category: Path, files: seq<string>): OcrReply {
    TimedOut
  }

  lemma WalkSingle(dirPath: Path, e: Entry, ocr: (Path, seq<string>) -> OcrReply)
    ensures Walk(dirPath, [e], ocr) == Visit(dirPath, Walked([], [], [], None), e, ocr)
  {
    assert [e][..0] == [];
  }

  /**
   * Three crops of one category are posted and text comes back for two of
   * them, out of order: the category holds the two texts in name order, the
   * third name is reported missing, and the call still returns normally.
   */
  lemma PartialLossScenario()
    ensures
      Dispatch(["crops"], ["run"], Some([Entry("id_card", true, ["b.jpg", "a.jpg", "c.jpg", "labels.txt"])]), true, PartialOracle) ==
        Run(
          Ok([("id_card", [("a.jpg", "ABC-123"), ("b.jpg", "KIM")])]),
          [Report("id_card", ["b.jpg", "a.jpg", "c.jpg"], {"c.jpg"})],
          [Posted(["crops", "id_card"], ["b.jpg", "a.jpg", "c.jpg"]), Deleted(["crops", "id_card"]), Deleted(["run"])])
  {
    var e := Entry("id_card", true, ["b.jpg", "a.jpg", "c.jpg", "labels.txt"]);
    var fx := [Posted(["crops", "id_card"], ["b.jpg", "a.jpg", "c.jpg"]), Deleted(["crops", "id_card"])];
    ScenarioWalk();
    DispatchCompleted(["crops"], ["run"], [e], PartialOracle);
    assert fx + [Deleted(["run"])] ==
      [Posted(["crops", "id_card"], ["b.jpg", "a.jpg", "c.jpg"]), Deleted(["crops", "id_card"]), Deleted(["run"])];
  }

  lemma DispatchCompleted(dirPath: Path, removeFolder: Path, es: seq<Entry>, ocr: (Path, seq<string>) -> OcrReply)
    requires Walk(dirPath, es, ocr).failure.None?
    ensures var w := Walk(dirPath, es, ocr);
      Dispatch(dirPath, removeFolder, Some(es), true, ocr) == Run(Ok(w.data), w.reports, w.effects + [Deleted(removeFolder)])
  {
  }

  lemma ScenarioWalk()
    ensures Walk(["crops"], [Entry("id_card", true, ["b.jpg", "a.jpg", "c.jpg", "labels.txt"])], PartialOracle) ==
      Walked(
        [("id_card", [("a.jpg", "ABC-123"), ("b.jpg", "KIM")])],
        [Report("id_card", ["b.jpg", "a.jpg", "c.jpg"], {"c.jpg"})],
        [Posted(["crops", "id_card"], ["b.jpg", "a.jpg", "c.jpg"]), Deleted(["crops", "id_card"])],
        None)
  {
    var e := Entry("id_card", true, ["b.jpg", "a.jpg", "c.jpg", "labels.txt"]);
    var sent := ["b.jpg", "a.jpg", "c.jpg"];
    ScenarioGlob();
    ScenarioReply();
    ScenarioSort();
    ScenarioMissing();
    ScenarioStore();
    WalkSingle(["crops"], e, PartialOracle);
    VisitPosted(["crops"], Walked([], [], [], None), e, PartialOracle);
    assert ["crops"] + [e.name] == ["crops", "id_card"];
    var none: seq<Effect> := [];
    var fx := [Posted(["crops", "id_card"], sent), Deleted(["crops", "id_card"])];
    assert none + fx == fx;
    var noReports: seq<Report> := [];
    var report := Report("id_card", sent, {"c.jpg"});
    assert ExpectedReport(["crops"], e, PartialOracle) == report;
    assert noReports + [report] == [report];
  }

  lemma ScenarioReply()
    ensures Reply(["crops"], Entry("id_card", true, ["b.jpg", "a.jpg", "c.jpg", "labels.txt"]), PartialOracle)
      == Ok([("b.jpg", "KIM"), ("a.jpg", "ABC-123")])
  {
  }

  lemma ScenarioStore()
    ensures Put([], "id_card", [("a.jpg", "ABC-123"), ("b.jpg", "KIM")]) == [("id_card", [("a.jpg", "ABC-123"), ("b.jpg", "KIM")])]
  {
  }

  lemma ScenarioGlob()
    ensures Jpgs(["b.jpg", "a.jpg", "c.jpg", "labels.txt"]) == ["b.jpg", "a.jpg", "c.jpg"]
  {
    var files := ["b.jpg", "a.jpg", "c.jpg", "labels.txt"];
    assert IsJpg("b.jpg") && IsJpg("a.jpg") && IsJpg("c.jpg") && !IsJpg("labels.txt") by {
      assert "b.jpg"[1..] == ".jpg" && "a.jpg"[1..] == ".jpg" && "c.jpg"[1..] == ".jpg";
      assert "labels.txt"[6..] == ".txt";
    }
    assert Jpgs(files[..1]) == ["b.jpg"] by {
      assert files[..1][..0] == [];
    }
    assert Jpgs(files[..2]) == ["b.jpg", "a.jpg"] by {
      assert files[..2][..1] == files[..1];
    }
    assert Jpgs(files[..3]) == ["b.jpg", "a.jpg", "c.jpg"] by {
      assert files[..3][..2] == files[..2];
    }
    assert files[..3] == files[..|files| - 1];
  }

  lemma ScenarioSort()
    ensures SortByKey([("b.jpg", "KIM"), ("a.jpg", "ABC-123")]) == [("a.jpg", "ABC-123"), ("b.jpg", "KIM")]
  {
    var texts := [("b.jpg", "KIM"), ("a.jpg", "ABC-123")];
    assert texts[1..] == [("a.jpg", "ABC-123")] && texts[1..][1..] == [];
    assert !Below("b.jpg", "a.jpg");
  }

  lemma ScenarioMissing()
    ensures Missing(["b.jpg", "a.jpg", "c.jpg"], [("b.jpg", "KIM"), ("a.jpg", "ABC-123")]) == {"c.jpg"}
  {
    var texts: TextDict := [("b.jpg", "KIM"), ("a.jpg", "ABC-123")];
    assert KeySet(texts) == {"b.jpg", "a.jpg"};
  }

  /** A post that times out aborts the call; its directory is removed, the removal folder is not. */
  lemma TimeoutScenario()
    ensures
      Dispatch(["crops"], ["run"], Some([Entry("name", true, ["x.jpg"]), Entry("date", true, ["y.jpg"])]), true, SilentOracle) ==
        Run(Err(Upstream("name", Timeout)), [], [Posted(["crops", "name"], ["x.jpg"]), Deleted(["crops", "name"])])
  {
    var e := Entry("name", true, ["x.jpg"]);
    var es := [e, Entry("date", true, ["y.jpg"])];
    TimeoutWalk();
    assert es[..1] == [e];
    WalkStopped(["crops"], es, 1, SilentOracle);
  }

  lemma TimeoutWalk()
    ensures Walk(["crops"], [Entry("name", true, ["x.jpg"])], SilentOracle) ==
      Walked([], [], [Posted(["crops", "name"], ["x.jpg"]), Deleted(["crops", "name"])], Some(("name", Timeout)))
  {
    var e := Entry("name", true, ["x.jpg"]);
    assert Jpgs(["x.jpg"]) == ["x.jpg"] by {
      assert "x.jpg"[1..] == ".jpg";
      assert ["x.jpg"][..0] == [];
    }
    WalkSingle(["crops"], e, SilentOracle);
    VisitFailed(["crops"], Walked([], [], [], None), e, SilentOracle);
    assert Reply(["crops"], e, SilentOracle).error == Timeout;
    assert ["crops"] + [e.name] == ["crops", "name"];
    var none: seq<Effect> := [];
    var fx := [Posted(["crops", "name"], ["x.jpg"]), Deleted(["crops", "name"])];
    assert none + fx == fx;
  }
}
