/** The fetch script. `download_image` makes its checks on the URL before any
    request, writes the response body to a file chunk by chunk and removes
    the file again when its header is not an image's; `main` skips
    submissions already listed,
    survives the `ValueError` of one submission, and at the end copies every
    file left in its temporary directory to the image directory.

    Files are a map from path to contents, threaded through the methods. The
    MIME guesser, the HTTP client and the header sniffer are parameters; what
    would go out over the network is returned as the list of URLs requested. */
module ImageDownload {
  import opened Base
  import PosixPath

  type Url = string
  type Path = string

  /** What the script asks of code outside it. */
  datatype Env = Env(
    // `mimetypes.guess_type(url)[0]`
    guessType: Url -> Option<string>,
    // what `requests.get(url)` gives: the chunks `iter_content()` yields, or how it raised
    get: Url -> Response,
    // `imghdr.what` on a file holding these bytes
    sniff: Bytes -> Option<string>)

  /** How `requests.get` ends. Some of its exceptions (a URL without a
      scheme, an unsupported scheme, a malformed URL or header) are
      subclasses of `ValueError`; the others are not. */
  datatype Response =
    | Body(chunks: seq<Bytes>)
    | RaisedValueError
    | RaisedOther

  /** The `ValueError`s a call of `download_image` can end with: its own
      three, and one raised by the request. */
  datatype ValueError =
    | UrlRequired
    | MimeNotImage(url: Url)
    | RequestRejected(url: Url)
    | HeaderNotImage(file: Path)

  /** How one call of `download_image` ends. */
  datatype Outcome =
    | Saved(data: Bytes)        // returned; the file holds `data`
    | Invalid(err: ValueError)  // raised `ValueError`
    | RequestFailed(url: Url)   // the request raised something that is not a `ValueError`

  /** The hosting provider whose links get a forced extension, and that extension. */
  const ImgurMarker: string := "imgur"
  const ForcedExtension: string := ".jpg"

  /** The URL actually guessed at and requested. */
  function ForceExtension(url: Url): Url {
    if Contains(url, ImgurMarker) then url + ForcedExtension else url
  }

  /** `mime_type and 'image' in mime_type` */
  predicate IsImageType(mime: Option<string>) {
    mime.Some? && Contains(mime.value, "image")
  }

  /** The checks `download_image` makes before it issues any request. */
  predicate PassesPreChecks(url: Url, env: Env) {
    url != "" && IsImageType(env.guessType(ForceExtension(url)))
  }

  /** The requests one call issues: one GET, only after the checks pass. */
  function Requested(url: Url, env: Env): seq<Url> {
    if PassesPreChecks(url, env) then [ForceExtension(url)] else []
  }

  /** The bytes a file holds after the chunks are written one by one. */
  function Concat(chunks: seq<Bytes>): Bytes {
    if chunks == [] then [] else Concat(chunks[..|chunks| - 1]) + chunks[|chunks| - 1]
  }

  /** How `download_image(url, filename)` ends. */
  function DownloadOutcome(url: Url, filename: Path, env: Env): Outcome {
    if url == "" then Invalid(UrlRequired)
    else
      var target := ForceExtension(url);
      if !IsImageType(env.guessType(target)) then Invalid(MimeNotImage(target))
      else match env.get(target)
        case RaisedValueError => Invalid(RequestRejected(target))
        case RaisedOther => RequestFailed(target)
        case Body(chunks) =>
          if Truthy(env.sniff(Concat(chunks))) then Saved(Concat(chunks))
          else Invalid(HeaderNotImage(filename))
  }

  /** The files after a call of `download_image` that wrote to `filename`. */
  function AfterDownload(files: map<Path, Bytes>, filename: Path, outcome: Outcome): map<Path, Bytes> {
    match outcome
    case Saved(data) => files[filename := data]
    case Invalid(HeaderNotImage(_)) => files - {filename}
    case _ => files
  }

  /** The forced extension keeps the URL as a prefix, keeps the marker, and
      lands at the end exactly for marked URLs. */
  lemma ForceExtensionShape(url: Url)
    ensures |url| <= |ForceExtension(url)| && ForceExtension(url)[..|url|] == url
    ensures Contains(ForceExtension(url), ImgurMarker) <==> Contains(url, ImgurMarker)
    ensures Contains(url, ImgurMarker) ==> ForceExtension(url) == url + ".jpg"
    ensures !Contains(url, ImgurMarker) ==> ForceExtension(url) == url
  {
    if Contains(url, ImgurMarker) {
      var u := url + ForcedExtension;
      var i :| OccursAt(url, ImgurMarker, i);
      assert u[i..i + |ImgurMarker|] == url[i..i + |ImgurMarker|];
      assert OccursAt(u, ImgurMarker, i);
    }
  }

  /** `download_image(url, filename)` over the files `files`. */
  method DownloadImage(url: Url, filename: Path, env: Env, files: map<Path, Bytes>)
    returns (outcome: Outcome, requested: seq<Url>, files': map<Path, Bytes>)
    ensures outcome == DownloadOutcome(url, filename, env)
    ensures requested == Requested(url, env)
    ensures files' == AfterDownload(files, filename, outcome)
    ensures url == "" ==> outcome == Invalid(UrlRequired) && requested == [] && files' == files
    ensures !PassesPreChecks(url, env) ==> outcome.Invalid? && requested == [] && files' == files
    ensures requested != [] ==> requested == [ForceExtension(url)] && IsImageType(env.guessType(requested[0]))
    ensures outcome.Saved? ==> Truthy(env.sniff(outcome.data)) && filename in files' && files'[filename] == outcome.data
    ensures outcome == Invalid(HeaderNotImage(filename)) ==> filename !in files'
    ensures !outcome.Saved? && filename in files' ==> filename in files && files'[filename] == files[filename]
    ensures outcome.RequestFailed? <==> PassesPreChecks(url, env) && env.get(ForceExtension(url)).RaisedOther?
    ensures outcome == Invalid(RequestRejected(ForceExtension(url))) <==>
      PassesPreChecks(url, env) && env.get(ForceExtension(url)).RaisedValueError?
  {
    files' := files;
    requested := [];
    if url == "" {
      outcome := Invalid(UrlRequired);
      return;
    }
    var target := url;
    if Contains(url, ImgurMarker) {
      target := url + ForcedExtension;
    }
    var mimeType := env.guessType(target);
    if !IsImageType(mimeType) {
      outcome := Invalid(MimeNotImage(target));
      return;
    }
    requested := [target];
    var response := env.get(target);
    if response.RaisedValueError? {
      outcome := Invalid(RequestRejected(target));
      return;
    }
    if response.RaisedOther? {
      outcome := RequestFailed(target);
      return;
    }
    var chunks := response.chunks;
    files' := files'[filename := []];
    var i := 0;
    while i < |chunks|
      invariant 0 <= i <= |chunks|
      invariant files' == files[filename := Concat(chunks[..i])]
    {
      assert chunks[..i + 1][..i] == chunks[..i];
      files' := files'[filename := files'[filename] + chunks[i]];
      i := i + 1;
    }
    assert chunks[..|chunks|] == chunks;
    if !Truthy(env.sniff(files'[filename])) {
      files' := files' - {filename};
      outcome := Invalid(HeaderNotImage(filename));
      return;
    }
    outcome := Saved(files'[filename]);
  }

  /** What `main` did with one submission. */
  datatype Step =
    | AlreadyProcessed(fullname: FullName)
    | Attempted(fullname: FullName, requested: seq<Url>, outcome: Outcome)

  /** The full-name is on the quarantine list or on the safe list. */
  predicate Listed(fullname: FullName, quarantine: seq<string>, safe: seq<string>) {
    fullname in quarantine || fullname in safe
  }

  /** The step `main` takes for submission `s`: skip it when listed, otherwise
      download its URL to the file named by its full-name in `tmpDir`. */
  predicate StepFor(step: Step, s: Submission, quarantine: seq<string>, safe: seq<string>, env: Env, tmpDir: Path) {
    if Listed(s.fullname, quarantine, safe) then step == AlreadyProcessed(s.fullname)
    else
      var file := PosixPath.Join(tmpDir, s.fullname);
      step == Attempted(s.fullname, Requested(s.url, env), DownloadOutcome(s.url, file, env))
  }

  /** A step whose error is not a `ValueError`, which ends the run. */
  predicate Aborts(step: Step) {
    step.Attempted? && step.outcome.RequestFailed?
  }

  /** Only a request that raises something other than a `ValueError` ends
      the loop: a listed submission, a rejected URL, a request that raises a
      `ValueError` and a header that is not an image's all let it go on. */
  lemma AbortingStep(step: Step, s: Submission, quarantine: seq<string>, safe: seq<string>, env: Env, tmpDir: Path)
    requires StepFor(step, s, quarantine, safe, env, tmpDir)
    ensures Aborts(step) <==>
      && !Listed(s.fullname, quarantine, safe)
      && PassesPreChecks(s.url, env)
      && env.get(ForceExtension(s.url)).RaisedOther?
  {
  }

  predicate EndedEarly(report: seq<Step>) {
    |report| > 0 && Aborts(report[|report| - 1])
  }

  predicate DistinctSubmissions(subs: seq<Submission>) {
    forall i, j :: 0 <= i < j < |subs| ==> subs[i].fullname != subs[j].fullname
  }

  predicate DistinctSteps(report: seq<Step>) {
    forall i, j :: 0 <= i < j < |report| ==> report[i].fullname != report[j].fullname
  }

  predicate SavedStep(step: Step) {
    step.Attempted? && step.outcome.Saved?
  }

  /** The contents of the temporary directory after the steps of `report`. */
  function TempFiles(report: seq<Step>, tmpDir: Path): map<Path, Bytes> {
    if report == [] then map[]
    else
      var files := TempFiles(report[..|report| - 1], tmpDir);
      match report[|report| - 1]
      case AlreadyProcessed(_) => files
      case Attempted(fullname, _, outcome) =>
        AfterDownload(files, PosixPath.Join(tmpDir, fullname), outcome)
  }

  /** Where the copy loop puts the temporary file `entry`: the image
      directory joined with the entry's basename. */
  function CopyTarget(entry: Path, imageDir: Path): Path {
    PosixPath.Join(imageDir, PosixPath.Basename(entry))
  }

  /** The paths the copy loop writes in `imageDir`: one per entry of the
      temporary directory, under the entry's basename. */
  function CopyTargets(entries: set<Path>, imageDir: Path): set<Path> {
    set p | p in entries :: CopyTarget(p, imageDir)
  }

  /** Every file in the temporary directory was saved by some step, under
      that step's full-name. */
  lemma {:induction false} TempFilesOnlySaved(report: seq<Step>, tmpDir: Path, p: Path)
    requires p in TempFiles(report, tmpDir)
    ensures exists i :: (0 <= i < |report| && SavedStep(report[i])
      && p == PosixPath.Join(tmpDir, report[i].fullname)
      && TempFiles(report, tmpDir)[p] == report[i].outcome.data)
  {
    var n := |report| - 1;
    var prefix := report[..n];
    var last := report[n];
    if last.Attempted? && last.outcome.Saved? && p == PosixPath.Join(tmpDir, last.fullname) {
      assert SavedStep(report[n]);
    } else {
      assert p in TempFiles(prefix, tmpDir);
      TempFilesOnlySaved(prefix, tmpDir, p);
      var i :| 0 <= i < |prefix| && SavedStep(prefix[i])
        && p == PosixPath.Join(tmpDir, prefix[i].fullname)
        && TempFiles(prefix, tmpDir)[p] == prefix[i].outcome.data;
      assert report[i] == prefix[i];
    }
  }

  /** With distinct full-names, every saved step leaves its file behind. */
  lemma {:induction false} TempFilesKeepSaved(report: seq<Step>, tmpDir: Path, i: int)
    requires DistinctSteps(report)
    requires 0 <= i < |report| && SavedStep(report[i])
    ensures PosixPath.Join(tmpDir, report[i].fullname) in TempFiles(report, tmpDir)
    ensures TempFiles(report, tmpDir)[PosixPath.Join(tmpDir, report[i].fullname)] == report[i].outcome.data
  {
    var n := |report| - 1;
    var prefix := report[..n];
    if i < n {
      assert prefix[i] == report[i];
      TempFilesKeepSaved(prefix, tmpDir, i);
      var last := report[n];
      if last.Attempted? {
        if PosixPath.Join(tmpDir, last.fullname) == PosixPath.Join(tmpDir, report[i].fullname) {
          PosixPath.JoinInjective(tmpDir, last.fullname, report[i].fullname);
        }
      }
    }
  }

  /** Every file in the temporary directory sits directly in it. */
  lemma TempFilesInDir(report: seq<Step>, tmpDir: Path, p: Path)
    requires p in TempFiles(report, tmpDir)
    ensures PosixPath.Join(tmpDir, PosixPath.Basename(p)) == p
    ensures IsFullName(PosixPath.Basename(p))
  {
    TempFilesOnlySaved(report, tmpDir, p);
    var i :| 0 <= i < |report| && SavedStep(report[i]) && p == PosixPath.Join(tmpDir, report[i].fullname);
    PosixPath.BasenameJoin(tmpDir, report[i].fullname);
  }

  /** No two files of `files` share a basename. */
  predicate DistinctBasenames(files: map<Path, Bytes>) {
    forall p, q :: p in files && q in files && p != q ==> PosixPath.Basename(p) != PosixPath.Basename(q)
  }

  /** The download loop of `main` over the newest submissions `subs`, into
      the temporary directory `tmpDir`, which starts empty. */
  method DownloadAll(subs: seq<Submission>, quarantine: seq<string>, safe: seq<string>, env: Env, tmpDir: Path)
    returns (report: seq<Step>, tmp: map<Path, Bytes>)
    ensures |report| <= |subs|
    ensures forall i :: 0 <= i < |report| ==> StepFor(report[i], subs[i], quarantine, safe, env, tmpDir)
    ensures forall i :: 0 <= i < |report| ==> report[i].fullname == subs[i].fullname
    ensures forall i :: 0 <= i < |report| - 1 ==> !Aborts(report[i])
    ensures |report| < |subs| ==> EndedEarly(report)
    ensures tmp == TempFiles(report, tmpDir)
  {
    report := [];
    tmp := map[];
    var i := 0;
    while i < |subs|
      invariant 0 <= i <= |subs| && |report| == i
      invariant forall k :: 0 <= k < i ==> StepFor(report[k], subs[k], quarantine, safe, env, tmpDir)
      invariant forall k :: 0 <= k < i ==> report[k].fullname == subs[k].fullname
      invariant forall k :: 0 <= k < i ==> !Aborts(report[k])
      invariant tmp == TempFiles(report, tmpDir)
    {
      var s := subs[i];
      if s.fullname in quarantine || s.fullname in safe {
        report := report + [AlreadyProcessed(s.fullname)];
      } else {
        var outFile := PosixPath.Join(tmpDir, s.fullname);
        var outcome, requested;
        outcome, requested, tmp := DownloadImage(s.url, outFile, env, tmp);
        report := report + [Attempted(s.fullname, requested, outcome)];
        if outcome.RequestFailed? {
          assert report[..i] == report[..|report| - 1];
          return;
        }
      }
      assert report[..i] == report[..|report| - 1];
      i := i + 1;
    }
  }

  /** Step of the copy loop: one more entry adds its one target. */
  lemma CopyTargetsAdd(entries: set<Path>, p: Path, imageDir: Path)
    ensures CopyTargets(entries + {p}, imageDir) == CopyTargets(entries, imageDir) + {CopyTarget(p, imageDir)}
  {
  }

  /** Step of the copy loop: moving an entry from `left` to `done` keeps them complementary. */
  lemma MoveToDone(entries: set<Path>, left: set<Path>, done: set<Path>, p: Path)
    requires left <= entries && done == entries - left && p in left
    ensures left - {p} <= entries && done + {p} == entries - (left - {p})
  {
  }

  /** Entry `p` of the temporary directory has been copied into the image
      directory under its basename. */
  predicate CopiedTo(p: Path, tmp: map<Path, Bytes>, images: map<Path, Bytes>, imageDir: Path)
    requires p in tmp
  {
    && CopyTarget(p, imageDir) in images
    && images[CopyTarget(p, imageDir)] == tmp[p]
  }

  /** Two entries of one directory are copied to two different paths. */
  lemma DistinctEntriesDistinctTargets(tmp: map<Path, Bytes>, imageDir: Path, p: Path, q: Path)
    requires DistinctBasenames(tmp) && p in tmp && q in tmp && p != q
    ensures CopyTarget(p, imageDir) != CopyTarget(q, imageDir)
  {
    if CopyTarget(p, imageDir) == CopyTarget(q, imageDir) {
      PosixPath.JoinInjective(imageDir, PosixPath.Basename(p), PosixPath.Basename(q));
      assert false;
    }
  }

  /** One turn of the copy loop leaves the entries copied before in place. */
  lemma CopyStepCopied(tmp: map<Path, Bytes>, imageDir: Path,
                       current: map<Path, Bytes>, done: set<Path>, entry: Path)
    requires DistinctBasenames(tmp) && done <= tmp.Keys && entry in tmp && entry !in done
    requires forall p :: p in done ==> CopiedTo(p, tmp, current, imageDir)
    ensures
      var next := current[CopyTarget(entry, imageDir) := tmp[entry]];
      forall p :: p in done + {entry} ==> CopiedTo(p, tmp, next, imageDir)
  {
    var name := PosixPath.Basename(entry);
    var outPath := PosixPath.Join(imageDir, name);
    var next := current[outPath := tmp[entry]];
    forall p | p in done + {entry} ensures CopiedTo(p, tmp, next, imageDir) {
      if p != entry {
        assert CopiedTo(p, tmp, current, imageDir);
        DistinctEntriesDistinctTargets(tmp, imageDir, p, entry);
      }
    }
  }

  /** The copy loop of `main`: each file of the temporary directory is
      copied into `imageDir` under its basename. (The source lists entry
      names and joins each back onto the temporary directory, which gives
      the file's own path again; see `TempFilesInDir`.) */
  method CopyOut(tmp: map<Path, Bytes>, imageDir: Path, images: map<Path, Bytes>)
    returns (images': map<Path, Bytes>)
    requires DistinctBasenames(tmp)
    ensures images'.Keys == images.Keys + CopyTargets(tmp.Keys, imageDir)
    ensures forall p :: p in tmp ==> CopiedTo(p, tmp, images', imageDir)
    ensures forall q :: q in images && q !in CopyTargets(tmp.Keys, imageDir) ==> images'[q] == images[q]
  {
    images' := images;
    var left, done := tmp.Keys, {};
    ghost var targets := {};
    while left != {}
      invariant left <= tmp.Keys && done == tmp.Keys - left
      invariant targets == CopyTargets(done, imageDir)
      invariant images'.Keys == images.Keys + targets
      invariant forall p :: p in done ==> CopiedTo(p, tmp, images', imageDir)
      invariant forall q :: q in images && q !in targets ==> images'[q] == images[q]
      decreases left
    {
      var entry :| entry in left;
      var outPath := PosixPath.Join(imageDir, PosixPath.Basename(entry));
      CopyStepCopied(tmp, imageDir, images', done, entry);
      CopyTargetsAdd(done, entry, imageDir);
      MoveToDone(tmp.Keys, left, done, entry);
      images' := images'[outPath := tmp[entry]];
      targets := targets + {outPath};
      left, done := left - {entry}, done + {entry};
    }
  }

  /** `main`: the download loop over the newest submissions `subs`, then,
      unless a request raised, the copy of the temporary directory `tmpDir`
      (fresh and empty) into `imageDir`, whose files were `images`. */
  method FetchSubmissions(subs: seq<Submission>, quarantine: seq<string>, safe: seq<string>,
                          env: Env, tmpDir: Path, imageDir: Path, images: map<Path, Bytes>)
    returns (report: seq<Step>, images': map<Path, Bytes>)
    ensures |report| <= |subs|
    ensures forall i :: 0 <= i < |report| ==> StepFor(report[i], subs[i], quarantine, safe, env, tmpDir)
    ensures forall i :: 0 <= i < |report| - 1 ==> !Aborts(report[i])
    ensures |report| < |subs| ==> EndedEarly(report)
    ensures EndedEarly(report) ==> images' == images
    ensures !EndedEarly(report) ==> images'.Keys == images.Keys + CopyTargets(TempFiles(report, tmpDir).Keys, imageDir)
    ensures !EndedEarly(report) ==>
      forall p :: p in TempFiles(report, tmpDir) ==> CopiedTo(p, TempFiles(report, tmpDir), images', imageDir)
    ensures !EndedEarly(report) ==>
      forall q :: q in images && q !in CopyTargets(TempFiles(report, tmpDir).Keys, imageDir) ==> images'[q] == images[q]
    ensures !EndedEarly(report) && DistinctSubmissions(subs) ==>
      forall i :: 0 <= i < |report| && SavedStep(report[i]) ==>
        && PosixPath.Join(imageDir, subs[i].fullname) in images'
        && images'[PosixPath.Join(imageDir, subs[i].fullname)] == report[i].outcome.data
  {
    var tmp;
    report, tmp := DownloadAll(subs, quarantine, safe, env, tmpDir);
    if EndedEarly(report) {
      images' := images;
      return;
    }
    forall p, q | p in tmp && q in tmp && p != q ensures PosixPath.Basename(p) != PosixPath.Basename(q) {
      TempFilesInDir(report, tmpDir, p);
      TempFilesInDir(report, tmpDir, q);
    }
    images' := CopyOut(tmp, imageDir, images);
    if DistinctSubmissions(subs) {
      assert DistinctSteps(report);
      forall k | 0 <= k < |report| && SavedStep(report[k])
        ensures PosixPath.Join(imageDir, subs[k].fullname) in images'
        ensures images'[PosixPath.Join(imageDir, subs[k].fullname)] == report[k].outcome.data
      {
        TempFilesKeepSaved(report, tmpDir, k);
        PosixPath.BasenameJoin(tmpDir, subs[k].fullname);
        assert CopiedTo(PosixPath.Join(tmpDir, subs[k].fullname), tmp, images', imageDir);
      }
    }
  }
}
