/** The quarantine script. It reads every `*.result` file the classifier
    wrote, takes the score after a fixed-width prefix, and collects the
    full-names scored strictly above the threshold that are not already on
    the quarantine list, in the order the files are visited. If it collected
    any, it looks them up, marks each one not approved by a moderator as NSFW
    and removes it, and sends one alert listing their permalinks.

    The result files arrive as (path, text) pairs in `glob` order; Python's
    `float` is the parameter `parse` (`None` where it raises); the API's
    answer to the lookup is the parameter `info`; every call made to the API
    is returned as an `Action`, in order. */
module Quarantine {
  import opened Base
  import PosixPath

  type Path = string

  /** The literal the classifier writes before the score; the script skips
      its length without checking it. */
  const ScorePrefix: string := "NSFW score:   "
  const ScoreOffset: nat := |ScorePrefix|

  /** A `*.result` file: its path and its text. */
  datatype ResultFile = ResultFile(path: Path, text: string)

  /** `result[val_idx:]`: Python's slice gives the empty string on short text. */
  function ScoreText(text: string): string {
    if |text| <= ScoreOffset then "" else text[ScoreOffset..]
  }

  /** `os.path.splitext(os.path.basename(path))[0]` */
  function FullNameOf(path: Path): string {
    PosixPath.SplitextRoot(PosixPath.Basename(path))
  }

  /** How the scan of the result files ends: the batch to quarantine, or the
      file whose score `float` rejected (which ends the whole run). */
  datatype Selection = Batch(fullnames: seq<string>) | BadScore(file: Path)

  /** The file's score parses and is strictly above the threshold. */
  predicate AboveThreshold(r: ResultFile, threshold: real, parse: string -> Option<real>) {
    Parses(r, parse) && parse(ScoreText(r.text)).value > threshold
  }

  /** The file puts its full-name into the batch. */
  predicate Qualifies(r: ResultFile, already: seq<string>, threshold: real, parse: string -> Option<real>) {
    AboveThreshold(r, threshold, parse) && FullNameOf(r.path) !in already
  }

  /** `float` accepts the file's score. */
  predicate Parses(r: ResultFile, parse: string -> Option<real>) {
    parse(ScoreText(r.text)).Some?
  }

  /** The scan of the result files (the loop over the `glob`), file by file. */
  function Selected(results: seq<ResultFile>, already: seq<string>, threshold: real,
                    parse: string -> Option<real>): Selection
  {
    if results == [] then Batch([])
    else
      var r := results[|results| - 1];
      match Selected(results[..|results| - 1], already, threshold, parse)
      case BadScore(file) => BadScore(file)
      case Batch(batch) =>
        if !Parses(r, parse) then BadScore(r.path)
        else if Qualifies(r, already, threshold, parse) then Batch(batch + [FullNameOf(r.path)])
        else Batch(batch)
  }

  /** The indices of the files that qualify, in file order. */
  function QualifyingIndices(results: seq<ResultFile>, already: seq<string>, threshold: real,
                             parse: string -> Option<real>): seq<nat>
  {
    if results == [] then []
    else
      var n := |results| - 1;
      var prefix := QualifyingIndices(results[..n], already, threshold, parse);
      if Qualifies(results[n], already, threshold, parse) then prefix + [n] else prefix
  }

  /** Every listed index is a file that qualifies, and the indices increase. */
  lemma {:induction false} QualifyingIndicesSound(results: seq<ResultFile>, already: seq<string>, threshold: real,
                                                  parse: string -> Option<real>)
    ensures forall k :: 0 <= k < |QualifyingIndices(results, already, threshold, parse)| ==>
      && QualifyingIndices(results, already, threshold, parse)[k] < |results|
      && Qualifies(results[QualifyingIndices(results, already, threshold, parse)[k]], already, threshold, parse)
    ensures forall k, l :: 0 <= k < l < |QualifyingIndices(results, already, threshold, parse)| ==>
      QualifyingIndices(results, already, threshold, parse)[k] < QualifyingIndices(results, already, threshold, parse)[l]
  {
    if results != [] {
      var n := |results| - 1;
      var prefix := QualifyingIndices(results[..n], already, threshold, parse);
      QualifyingIndicesSound(results[..n], already, threshold, parse);
      forall k | 0 <= k < |prefix|
        ensures prefix[k] < n && Qualifies(results[prefix[k]], already, threshold, parse)
      {
        assert results[..n][prefix[k]] == results[prefix[k]];
      }
    }
  }

  /** Every qualifying file has its index listed. */
  lemma {:induction false} QualifyingIndicesComplete(results: seq<ResultFile>, already: seq<string>, threshold: real,
                                                     parse: string -> Option<real>, i: nat)
    requires i < |results| && Qualifies(results[i], already, threshold, parse)
    ensures i in QualifyingIndices(results, already, threshold, parse)
  {
    var n := |results| - 1;
    if i < n {
      assert results[..n][i] == results[i];
      QualifyingIndicesComplete(results[..n], already, threshold, parse, i);
    }
  }

  /** Once some prefix of the files holds a bad score, the whole scan ends
      with that same file. */
  lemma {:induction false} BadScoreSticks(results: seq<ResultFile>, j: nat, already: seq<string>,
                                          threshold: real, parse: string -> Option<real>)
    requires j <= |results|
    requires Selected(results[..j], already, threshold, parse).BadScore?
    ensures Selected(results, already, threshold, parse) == Selected(results[..j], already, threshold, parse)
    decreases |results| - j
  {
    if j < |results| {
      assert results[..j + 1][..j] == results[..j];
      BadScoreSticks(results, j + 1, already, threshold, parse);
    } else {
      assert results[..j] == results;
    }
  }

  /** The scan ends in `BadScore` exactly when some score does not parse, and
      then it names the first such file. */
  lemma {:induction false} SelectedBadScore(results: seq<ResultFile>, already: seq<string>,
                                            threshold: real, parse: string -> Option<real>)
    ensures Selected(results, already, threshold, parse).BadScore?
      <==> exists i :: 0 <= i < |results| && !Parses(results[i], parse)
    ensures Selected(results, already, threshold, parse).BadScore? ==>
      exists i :: (0 <= i < |results| && !Parses(results[i], parse)
        && results[i].path == Selected(results, already, threshold, parse).file
        && forall j :: 0 <= j < i ==> Parses(results[j], parse))
  {
    if results != [] {
      var n := |results| - 1;
      var prefix := results[..n];
      SelectedBadScore(prefix, already, threshold, parse);
      assert forall i :: 0 <= i < n ==> prefix[i] == results[i];
    }
  }

  /** When the scan succeeds, the batch is the full-names of the qualifying
      files, in file order: those strictly above the threshold and not
      already quarantined. */
  lemma {:induction false} SelectedInFileOrder(results: seq<ResultFile>, already: seq<string>,
                                               threshold: real, parse: string -> Option<real>)
    requires Selected(results, already, threshold, parse).Batch?
    ensures
      var batch := Selected(results, already, threshold, parse).fullnames;
      var idx := QualifyingIndices(results, already, threshold, parse);
      && |batch| == |idx|
      && forall k :: 0 <= k < |batch| ==> idx[k] < |results| && batch[k] == FullNameOf(results[idx[k]].path)
  {
    if results != [] {
      var n := |results| - 1;
      var prefix := results[..n];
      SelectedInFileOrder(prefix, already, threshold, parse);
      var batch := Selected(prefix, already, threshold, parse).fullnames;
      var idx := QualifyingIndices(prefix, already, threshold, parse);
      forall k | 0 <= k < |batch| ensures idx[k] < n && prefix[idx[k]] == results[idx[k]] {
      }
    }
  }

  /** A full-name is in the batch exactly when one of the files names it,
      scores strictly above the threshold, and it is not already quarantined. */
  lemma BatchMembers(results: seq<ResultFile>, already: seq<string>, threshold: real,
                     parse: string -> Option<real>, x: string)
    requires Selected(results, already, threshold, parse).Batch?
    ensures x in Selected(results, already, threshold, parse).fullnames <==>
      exists i :: 0 <= i < |results| && Qualifies(results[i], already, threshold, parse) && FullNameOf(results[i].path) == x
    ensures x in Selected(results, already, threshold, parse).fullnames ==> x !in already
  {
    var batch := Selected(results, already, threshold, parse).fullnames;
    var idx := QualifyingIndices(results, already, threshold, parse);
    SelectedInFileOrder(results, already, threshold, parse);
    QualifyingIndicesSound(results, already, threshold, parse);
    if x in batch {
      var k :| 0 <= k < |batch| && batch[k] == x;
      assert Qualifies(results[idx[k]], already, threshold, parse);
    }
    if exists i :: 0 <= i < |results| && Qualifies(results[i], already, threshold, parse) && FullNameOf(results[i].path) == x {
      var i :| 0 <= i < |results| && Qualifies(results[i], already, threshold, parse) && FullNameOf(results[i].path) == x;
      QualifyingIndicesComplete(results, already, threshold, parse, i);
      var k :| 0 <= k < |idx| && idx[k] == i;
      assert batch[k] == x;
    }
  }

  /** The scan loop of `main`. */
  method SelectBatch(results: seq<ResultFile>, already: seq<string>, threshold: real,
                     parse: string -> Option<real>) returns (selection: Selection)
    ensures selection == Selected(results, already, threshold, parse)
    ensures selection.Batch? ==> forall x :: x in selection.fullnames ==> x !in already
  {
    var quarantine: seq<string> := [];
    var i := 0;
    while i < |results|
      invariant 0 <= i <= |results|
      invariant Selected(results[..i], already, threshold, parse) == Batch(quarantine)
      invariant forall x :: x in quarantine ==> x !in already
    {
      var r := results[i];
      assert results[..i + 1][..i] == results[..i];
      var nsfwProb := parse(ScoreText(r.text));
      if nsfwProb.None? {
        selection := BadScore(r.path);
        BadScoreSticks(results, i + 1, already, threshold, parse);
        return;
      }
      if nsfwProb.value > threshold {
        var fullname := FullNameOf(r.path);
        if fullname !in already {
          quarantine := quarantine + [fullname];
        }
      }
      i := i + 1;
    }
    assert results[..i] == results;
    selection := Batch(quarantine);
  }

  /** A call the script makes to the reddit API. */
  datatype Action =
    | Lookup(fullnames: seq<string>)
    | MarkNsfw(fullname: FullName)
    | Remove(fullname: FullName)
    | SendMessage(subject: string, body: string)

  const AlertSubject: string := "SFWBot Quarantine Alert"
  const AlertIntro: string := "The following submissions were quarantined for being possibly NSFW. If approved, a submission will be removed from the quarantine and will not be quarantined again."

  predicate Approved(s: Submission) {
    s.approvedBy.Some?
  }

  /** The submissions the moderation loop acts on, in order. */
  function Pending(subs: seq<Submission>): (pending: seq<Submission>)
    ensures forall s :: s in pending <==> s in subs && !Approved(s)
  {
    if subs == [] then []
    else
      var n := |subs| - 1;
      var rest := Pending(subs[..n]);
      assert subs == subs[..n] + [subs[n]];
      if Approved(subs[n]) then rest else rest + [subs[n]]
  }

  /** The calls the moderation loop makes: `nsfw` then `remove` for each
      submission no moderator approved. */
  function ModerationCalls(subs: seq<Submission>): seq<Action> {
    if subs == [] then []
    else
      var n := |subs| - 1;
      var s := subs[n];
      ModerationCalls(subs[..n]) + (if Approved(s) then [] else [MarkNsfw(s.fullname), Remove(s.fullname)])
  }

  /** The permalinks the moderation loop collects. */
  function Permalinks(subs: seq<Submission>): seq<string> {
    if subs == [] then []
    else
      var n := |subs| - 1;
      Permalinks(subs[..n]) + (if Approved(subs[n]) then [] else [subs[n].permalink])
  }

  /** `'\n'.join(f'* {pl}' for pl in permalinks)` */
  function BulletList(permalinks: seq<string>): string {
    if permalinks == [] then ""
    else if |permalinks| == 1 then "* " + permalinks[0]
    else BulletList(permalinks[..|permalinks| - 1]) + "\n" + "* " + permalinks[|permalinks| - 1]
  }

  /** `s.split('\n')`: the pieces between newlines, in order. */
  function Lines(s: string): (lines: seq<string>)
    ensures |lines| >= 1
  {
    match PosixPath.LastIndexOf(s, '\n')
    case None => [s]
    case Some(i) => Lines(s[..i]) + [s[i + 1..]]
  }

  /** A line without a newline, appended after a newline, becomes one more line. */
  lemma LinesSnoc(front: string, last: string)
    requires '\n' !in last
    ensures Lines(front + "\n" + last) == Lines(front) + [last]
  {
    var s := (front + "\n") + last;
    PosixPath.LastIndexOfAppend(front + "\n", last, '\n');
    assert PosixPath.LastIndexOf(front + "\n", '\n') == Some(|front|);
    assert s[..|front|] == front;
    assert s[|front| + 1..] == last;
  }

  /** The bullet list reads back, line by line, as one `* <permalink>` per
      permalink, as long as no permalink holds a newline. */
  lemma {:induction false} BulletListLines(permalinks: seq<string>)
    requires permalinks != []
    requires forall k :: 0 <= k < |permalinks| ==> '\n' !in permalinks[k]
    ensures |Lines(BulletList(permalinks))| == |permalinks|
    ensures forall k :: 0 <= k < |permalinks| ==> Lines(BulletList(permalinks))[k] == "* " + permalinks[k]
  {
    var n := |permalinks| - 1;
    if n == 0 {
      BulletListSingle(permalinks[0]);
      assert permalinks == [permalinks[0]];
    } else {
      var prefix := permalinks[..n];
      BulletListLines(prefix);
      BulletListSnoc(prefix, permalinks[n]);
      assert permalinks == prefix + [permalinks[n]];
      LinesExtend(Lines(BulletList(prefix)), prefix, permalinks[n]);
    }
  }

  /** A single permalink gives a single line. */
  lemma BulletListSingle(permalink: string)
    requires '\n' !in permalink
    ensures Lines(BulletList([permalink])) == ["* " + permalink]
  {
    BulletHasNoNewline(permalink);
    assert PosixPath.LastIndexOf("* " + permalink, '\n') == None;
  }

  /** Lines that match the permalinks one by one still do with one more of each. */
  lemma LinesExtend(lines: seq<string>, permalinks: seq<string>, permalink: string)
    requires |lines| == |permalinks|
    requires forall k :: 0 <= k < |permalinks| ==> lines[k] == "* " + permalinks[k]
    ensures forall k :: 0 <= k < |permalinks| + 1 ==> (lines + ["* " + permalink])[k] == "* " + (permalinks + [permalink])[k]
  {
  }

  /** One more permalink adds one more line and leaves the earlier lines alone. */
  lemma BulletListSnoc(prefix: seq<string>, permalink: string)
    requires prefix != []
    requires '\n' !in permalink
    ensures Lines(BulletList(prefix + [permalink])) == Lines(BulletList(prefix)) + ["* " + permalink]
  {
    var all := prefix + [permalink];
    assert all[..|all| - 1] == prefix;
    assert BulletList(all) == BulletList(prefix) + "\n" + "* " + permalink;
    assert BulletList(prefix) + "\n" + "* " + permalink == BulletList(prefix) + "\n" + ("* " + permalink);
    BulletHasNoNewline(permalink);
    LinesSnoc(BulletList(prefix), "* " + permalink);
  }

  lemma BulletHasNoNewline(permalink: string)
    requires '\n' !in permalink
    ensures '\n' !in "* " + permalink
  {
    var line := "* " + permalink;
    forall j | 0 <= j < |line| ensures line[j] != '\n' {
      if j >= 2 { assert line[j] == permalink[j - 2]; }
    }
  }

  /** The alert's body: the fixed text, a blank line, then one bullet per permalink. */
  function AlertBody(permalinks: seq<string>): string {
    AlertIntro + "\n\n" + BulletList(permalinks)
  }

  /** The alert, sent only when some permalink was collected. */
  function Alert(permalinks: seq<string>): seq<Action> {
    if permalinks == [] then [] else [SendMessage(AlertSubject, AlertBody(permalinks))]
  }

  /** Everything after the scan: nothing for an empty batch; otherwise the
      lookup, the moderation calls and the alert. */
  function ModerationPlan(batch: seq<string>, info: seq<string> -> seq<Submission>): seq<Action> {
    if batch == [] then []
    else
      var subs := info(batch);
      [Lookup(batch)] + ModerationCalls(subs) + Alert(Permalinks(subs))
  }

  /** The moderation calls come in pairs, `nsfw` then `remove`, one pair per
      pending submission in order, and the permalinks are those of the same
      submissions. */
  lemma {:induction false} ModerationFollowsPending(subs: seq<Submission>)
    ensures |ModerationCalls(subs)| == 2 * |Pending(subs)|
    ensures forall k :: 0 <= k < |Pending(subs)| ==>
      && ModerationCalls(subs)[2 * k] == MarkNsfw(Pending(subs)[k].fullname)
      && ModerationCalls(subs)[2 * k + 1] == Remove(Pending(subs)[k].fullname)
    ensures |Permalinks(subs)| == |Pending(subs)|
    ensures forall k :: 0 <= k < |Pending(subs)| ==> Permalinks(subs)[k] == Pending(subs)[k].permalink
  {
    if subs != [] {
      ModerationFollowsPending(subs[..|subs| - 1]);
    }
  }

  /** The moderation call at position `j`. */
  lemma CallAt(subs: seq<Submission>, j: nat)
    requires j < |ModerationCalls(subs)|
    ensures |ModerationCalls(subs)| == 2 * |Pending(subs)|
    ensures ModerationCalls(subs)[j] ==
      if j % 2 == 0 then MarkNsfw(Pending(subs)[j / 2].fullname) else Remove(Pending(subs)[j / 2].fullname)
  {
    ModerationFollowsPending(subs);
    var k := j / 2;
    assert j == 2 * k || j == 2 * k + 1;
  }

  /** A submission is marked NSFW, and removed, exactly when it was returned
      by the lookup and not approved by a moderator. */
  lemma ModeratedIffPending(subs: seq<Submission>, fullname: FullName)
    ensures MarkNsfw(fullname) in ModerationCalls(subs) <==> exists s :: s in subs && !Approved(s) && s.fullname == fullname
    ensures Remove(fullname) in ModerationCalls(subs) <==> exists s :: s in subs && !Approved(s) && s.fullname == fullname
  {
    var calls := ModerationCalls(subs);
    var pending := Pending(subs);
    if MarkNsfw(fullname) in calls {
      var j :| 0 <= j < |calls| && calls[j] == MarkNsfw(fullname);
      CallAt(subs, j);
      assert pending[j / 2] in pending;
    }
    if Remove(fullname) in calls {
      var j :| 0 <= j < |calls| && calls[j] == Remove(fullname);
      CallAt(subs, j);
      assert pending[j / 2] in pending;
    }
    if exists s :: s in subs && !Approved(s) && s.fullname == fullname {
      var s :| s in subs && !Approved(s) && s.fullname == fullname;
      assert s in pending;
      var k :| 0 <= k < |pending| && pending[k] == s;
      ModerationFollowsPending(subs);
      assert calls[2 * k] == MarkNsfw(fullname);
      assert calls[2 * k + 1] == Remove(fullname);
    }
  }

  /** The alert goes out exactly when some looked-up submission is not approved. */
  lemma AlertIffPending(subs: seq<Submission>)
    ensures Alert(Permalinks(subs)) != [] <==> exists s :: s in subs && !Approved(s)
  {
    ModerationFollowsPending(subs);
    if exists s :: s in subs && !Approved(s) {
      var s :| s in subs && !Approved(s);
      assert s in Pending(subs);
    } else {
      assert Pending(subs) == [];
    }
  }

  /** The alert is one message with the fixed subject whose body is the fixed
      text, a blank line, and then one `* <permalink>` line per submission
      not approved, in the order the lookup returned them (provided no
      permalink holds a newline). */
  lemma AlertListsPending(subs: seq<Submission>)
    requires exists s :: s in subs && !Approved(s)
    requires forall s :: s in subs ==> '\n' !in s.permalink
    ensures |Alert(Permalinks(subs))| == 1
    ensures Alert(Permalinks(subs))[0].SendMessage? && Alert(Permalinks(subs))[0].subject == AlertSubject
    ensures
      var body := Alert(Permalinks(subs))[0].body;
      var intro := |AlertIntro| + 2;
      && intro <= |body| && body[..intro] == AlertIntro + "\n\n"
      && |Lines(body[intro..])| == |Pending(subs)|
      && forall k :: 0 <= k < |Pending(subs)| ==> Lines(body[intro..])[k] == "* " + Pending(subs)[k].permalink
  {
    var pending := Pending(subs);
    var permalinks := Permalinks(subs);
    AlertIffPending(subs);
    ModerationFollowsPending(subs);
    forall k | 0 <= k < |permalinks| ensures '\n' !in permalinks[k] {
      assert pending[k] in pending;
    }
    BulletListLines(permalinks);
    var body := AlertBody(permalinks);
    assert body == (AlertIntro + "\n\n") + BulletList(permalinks);
    assert body[..|AlertIntro| + 2] == AlertIntro + "\n\n";
    assert body[|AlertIntro| + 2..] == BulletList(permalinks);
  }

  /** The moderation block of `main`, for the batch the scan produced. */
  method Moderate(batch: seq<string>, info: seq<string> -> seq<Submission>) returns (actions: seq<Action>)
    ensures actions == ModerationPlan(batch, info)
    ensures batch == [] <==> actions == []
    ensures batch != [] ==> actions[0] == Lookup(batch)
  {
    actions := [];
    if batch == [] {
      return;
    }
    var submissions := info(batch);
    actions := [Lookup(batch)];
    var permalinks: seq<string> := [];
    var i := 0;
    while i < |submissions|
      invariant 0 <= i <= |submissions|
      invariant actions == [Lookup(batch)] + ModerationCalls(submissions[..i])
      invariant permalinks == Permalinks(submissions[..i])
    {
      var s := submissions[i];
      assert submissions[..i + 1][..i] == submissions[..i];
      if Approved(s) {
        i := i + 1;
        continue;
      }
      actions := actions + [MarkNsfw(s.fullname)];
      actions := actions + [Remove(s.fullname)];
      permalinks := permalinks + [s.permalink];
      i := i + 1;
    }
    assert submissions[..i] == submissions;
    if permalinks != [] {
      var message := AlertBody(permalinks);
      actions := actions + [SendMessage(AlertSubject, message)];
    }
  }

  /** How a run of `main` ends. */
  datatype Run =
    | Aborted(file: Path)                 // `float` raised on this file's score
    | Completed(actions: seq<Action>)

  /** `main`: the scan, then the moderation block. */
  method QuarantineRun(results: seq<ResultFile>, already: seq<string>, threshold: real,
                       parse: string -> Option<real>, info: seq<string> -> seq<Submission>)
    returns (run: Run)
    ensures run.Aborted? <==> exists i :: 0 <= i < |results| && !Parses(results[i], parse)
    ensures match Selected(results, already, threshold, parse)
      case BadScore(file) => run == Aborted(file)
      case Batch(batch) => run == Completed(ModerationPlan(batch, info))
  {
    SelectedBadScore(results, already, threshold, parse);
    var selection := SelectBatch(results, already, threshold, parse);
    if selection.BadScore? {
      run := Aborted(selection.file);
      return;
    }
    var actions := Moderate(selection.fullnames, info);
    run := Completed(actions);
  }

  /** When no score is above the threshold, the run makes no API call at all. */
  lemma {:induction false} NothingAboveThresholdNoCalls(results: seq<ResultFile>, already: seq<string>,
                                                        threshold: real, parse: string -> Option<real>,
                                                        info: seq<string> -> seq<Submission>)
    requires forall i :: 0 <= i < |results| ==> Parses(results[i], parse)
    requires forall i :: 0 <= i < |results| ==> !AboveThreshold(results[i], threshold, parse)
    ensures Selected(results, already, threshold, parse) == Batch([])
    ensures ModerationPlan(Selected(results, already, threshold, parse).fullnames, info) == []
  {
    if results != [] {
      var n := |results| - 1;
      assert forall i :: 0 <= i < n ==> results[..n][i] == results[i];
      assert forall i :: 0 <= i < n ==> Parses(results[..n][i], parse) && !AboveThreshold(results[..n][i], threshold, parse);
      NothingAboveThresholdNoCalls(results[..n], already, threshold, parse, info);
    }
  }

  /** A full-name on the quarantine list is never marked or removed again,
      provided the lookup returns only submissions it was asked for. */
  lemma AlreadyQuarantinedUntouched(results: seq<ResultFile>, already: seq<string>, threshold: real,
                                    parse: string -> Option<real>, info: seq<string> -> seq<Submission>,
                                    fullname: FullName)
    requires Selected(results, already, threshold, parse).Batch?
    requires forall b, s :: s in info(b) ==> s.fullname in b
    requires fullname in already
    ensures MarkNsfw(fullname) !in ModerationPlan(Selected(results, already, threshold, parse).fullnames, info)
    ensures Remove(fullname) !in ModerationPlan(Selected(results, already, threshold, parse).fullnames, info)
  {
    var batch := Selected(results, already, threshold, parse).fullnames;
    BatchMembers(results, already, threshold, parse, fullname);
    if batch != [] {
      var subs := info(batch);
      ModeratedIffPending(subs, fullname);
      var plan := ModerationPlan(batch, info);
      assert plan == [Lookup(batch)] + ModerationCalls(subs) + Alert(Permalinks(subs));
    }
  }

  /** The score is read from offset 14, right after the classifier's prefix. */
  lemma ScoreAfterPrefix(value: string)
    ensures ScoreOffset == 14
    ensures ScoreText(ScorePrefix + value) == value
  {
    assert (ScorePrefix + value)[ScoreOffset..] == value;
  }

  /** Two files scored 0.42 and 0.10 against the threshold 0.3: only the
      first is batched; against a threshold equal to its score, neither is. */
  lemma ThresholdExample(dir: string, a: FullName, b: FullName, parse: string -> Option<real>)
    requires parse("0.42") == Some(0.42) && parse("0.10") == Some(0.10)
    ensures
      var results := [ResultFile(PosixPath.Join(dir, a + ".result"), ScorePrefix + "0.42"),
                      ResultFile(PosixPath.Join(dir, b + ".result"), ScorePrefix + "0.10")];
      && Selected(results, [], 0.3, parse) == Batch([a])
      && Selected(results, [], 0.42, parse) == Batch([])
      && Selected(results, [a], 0.3, parse) == Batch([])
  {
    var results := [ResultFile(PosixPath.Join(dir, a + ".result"), ScorePrefix + "0.42"),
                    ResultFile(PosixPath.Join(dir, b + ".result"), ScorePrefix + "0.10")];
    var r0 := results[0];
    var r1 := results[1];
    PosixPath.ResultFileNamesSubmission(dir, a);
    assert FullNameOf(r0.path) == a;
    ScoreAfterPrefix("0.42");
    ScoreAfterPrefix("0.10");
    assert parse(ScoreText(r0.text)) == Some(0.42);
    assert parse(ScoreText(r1.text)) == Some(0.10);
    assert results[..1] == [r0];
    assert [r0][..0] == [];
    assert Qualifies(r0, [], 0.3, parse);
    assert Selected([r0][..0], [], 0.3, parse) == Batch([]);
    assert [] + [FullNameOf(r0.path)] == [a];
    assert Selected([r0], [], 0.3, parse) == Batch([a]);
    assert Selected([r0], [], 0.42, parse) == Batch([]);
    assert Selected([r0], [a], 0.3, parse) == Batch([]);
  }
}
