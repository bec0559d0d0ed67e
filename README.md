# sfwbot, modelled in Dafny

sfwbot keeps a subreddit safe for work with two scripts that run one after the other, with an external classifier between them.

- **The fetch script** (`image_download/image_download.py`) lists the newest submissions and skips those whose full-name is already on the quarantine list or the safe list. For each other submission it downloads the linked image into a temporary directory, naming the file after the submission's full-name. It then copies every file left in the temporary directory into the image directory.
  - `download_image` rejects an empty URL.
  - It appends `.jpg` to imgur links.
  - It rejects a URL whose guessed MIME type is not an image, before any request.
  - It writes the response body to the file chunk by chunk.
  - It deletes the file again when the file's header does not sniff as an image.
  - A `ValueError` from one submission is caught, and the loop goes on.
- **The quarantine script** (`quarantine/quarantine.py`) reads every `*.result` file the classifier wrote and parses the score that follows the fixed 14-character prefix `NSFW score:   `. It collects, in file order, the full-names scored strictly above the threshold that are not already on the quarantine list. If it collected any, it looks them up, and then:
  - it skips each submission a moderator approved;
  - it marks each other submission NSFW and removes it;
  - it sends the moderators one alert listing the permalinks, but only when at least one was collected.

Both scripts are modelled on values.

- A directory's files are a `map<Path, Bytes>` that the methods take and return.
- Whatever would leave the process is returned as data:
  - the URLs requested;
  - for the quarantine script, the list of `Action`s it would send to the reddit API, in order.
- Library code whose source is not part of this model is a parameter. This covers `mimetypes.guess_type`, `requests.get`, `imghdr.what`, Python's `float` and the API's `info` lookup.
- Paths use a model of POSIX `os.path.join`, `basename` and `splitext`, so that naming facts are proved rather than assumed. Examples:
  - a file named by a full-name is copied under the same name;
  - `<fullname>.result` names the submission again.

Files:

- `base.dfy` — `Option`, bytes, Python's substring test on strings, full-names and submissions.
- `posix_path.dfy` — `rfind`, `os.path.join`, `basename` and the root half of `splitext`.
- `image_download.dfy` — the fetch script.
- `quarantine.dfy` — the quarantine script.

Three behaviours of the code are worth stating outright:

- **The quarantine list is never updated.** `quarantine/quarantine.py` only reads `quarantine.json` and never writes it, so the model's list is an input that nothing changes.
- **The safe list is not consulted by the quarantine script.** It checks only the quarantine list, so a safe-listed full-name can still be batched. `Quarantine.BatchMembers` states exactly which names can be batched.
- **Only `ValueError` is caught in the fetch loop.** A request exception that is itself a `ValueError` is caught like the script's own errors, and the loop goes on. Examples are a URL without a scheme and an invalid URL. Any other request exception ends the run, and the copy loop never runs. In the model these are the `RequestRejected` error and the `RequestFailed` outcome; after the latter, `FetchSubmissions` leaves the image directory unchanged.

## Model

| member | source | states |
|---|---|---|
| Base.Contains | image_download/image_download.py:43 | Python's `sub in s`: true exactly when `sub` occurs in `s` at some index |
| PosixPath.LastIndexOf | quarantine/quarantine.py:45 | `rfind`: `None` exactly when the character is absent; otherwise the index holds it and nothing after it does |
| PosixPath.BasenameJoin | image_download/image_download.py:101-104 | a name without `/` joined onto a directory is what `basename` returns for the joined path |
| PosixPath.JoinInjective | image_download/image_download.py:96 | two different full-names joined onto one directory never give the same path |
| PosixPath.SplitextRootOfResult | quarantine/quarantine.py:45 | the root of `splitext` on `<fullname>.result` is the full-name |
| PosixPath.ResultFileNamesSubmission | quarantine/quarantine.py:45 | the basename of a result file written beside the images, with its extension removed, is the submission's full-name |
| ImageDownload.ForceExtensionShape | image_download/image_download.py:43-45 | an imgur URL becomes the URL plus `.jpg`; any other URL is guessed at unchanged; the original URL is always a prefix |
| ImageDownload.DownloadImage | image_download/image_download.py:27-54 | an empty URL raises `ValueError` before any guess or request; a failed MIME guess raises `ValueError` without a GET; a request exception that is a `ValueError` ends the call as one, any other ends it as a request failure, and neither leaves a file; a GET goes only to the rewritten URL and only after an image guess; a saved file holds the concatenated chunks and sniffed as an image; a header failure leaves no file behind; no failed call leaves a new or changed file |
| ImageDownload.TempFilesOnlySaved | image_download/image_download.py:95-97 | every file in the temporary directory was saved by some attempted submission, under that submission's full-name, holding its data |
| ImageDownload.TempFilesKeepSaved | image_download/image_download.py:95-100 | with distinct full-names, every saved download is still in the temporary directory at the end of the loop, with its data |
| ImageDownload.TempFilesInDir | image_download/image_download.py:101-102 | every file in the temporary directory lies directly in it, so joining its basename back onto the directory gives its own path, and that basename is a full-name |
| ImageDownload.DistinctEntriesDistinctTargets | image_download/image_download.py:104 | two files of the temporary directory are copied to two different paths |
| ImageDownload.AbortingStep | image_download/image_download.py:92-100 | a step ends the loop exactly when the submission is not listed, its URL passes the checks, and the request raises something that is not a `ValueError` |
| ImageDownload.DownloadAll | image_download/image_download.py:90-100 | the step for each submission in order: listed submissions are skipped with no request; others are downloaded to the temporary directory under their full-name; a `ValueError` does not stop the loop; only a request exception that is not a `ValueError` ends it early; the temporary directory is what the steps left |
| ImageDownload.CopyOut | image_download/image_download.py:101-105 | every temporary file is copied into the image directory under its basename with its contents; no other path is created; files not overwritten keep their contents |
| ImageDownload.FetchSubmissions | image_download/image_download.py:73-105 | the whole fetch run: the loop's steps; after an aborting request the image directory is unchanged; otherwise each saved image is in the image directory under its submission's full-name, and nothing else there changes |
| Quarantine.QualifyingIndicesSound | quarantine/quarantine.py:40-47 | the reference definition of the batch lists only indices of files that qualify (score parsed, strictly above the threshold, not already quarantined), strictly increasing |
| Quarantine.QualifyingIndicesComplete | quarantine/quarantine.py:44-47 | every file that qualifies has its index listed |
| Quarantine.BadScoreSticks | quarantine/quarantine.py:43 | once a score fails to parse, the scan ends with that file whatever follows it |
| Quarantine.SelectedBadScore | quarantine/quarantine.py:40-43 | the scan aborts exactly when some score does not parse, and it names the first such file |
| Quarantine.SelectedInFileOrder | quarantine/quarantine.py:40-47 | the batch is the full-names of the qualifying files in the order the files are visited |
| Quarantine.BatchMembers | quarantine/quarantine.py:44-47 | a full-name is batched exactly when some file names it, its score is strictly above the threshold and it is not already quarantined; nothing already quarantined is batched |
| Quarantine.SelectBatch | quarantine/quarantine.py:38-47 | the scan loop computes the specified selection and never adds a name already on the quarantine list |
| Quarantine.ScoreAfterPrefix | quarantine/quarantine.py:39-43 | the score is read from offset 14, right after the classifier's prefix |
| Quarantine.ThresholdExample | quarantine/quarantine.py:43-47 | 0.42 against a threshold of 0.3 is batched and 0.10 is not; a score equal to the threshold is not batched; an already quarantined name is not batched |
| Quarantine.Pending | quarantine/quarantine.py:52-55 | the submissions acted on are exactly those returned and not approved |
| Quarantine.ModerationFollowsPending | quarantine/quarantine.py:52-59 | one `nsfw` call then one `remove` call per unapproved submission, in order, and the permalinks are theirs in the same order |
| Quarantine.ModeratedIffPending | quarantine/quarantine.py:53-58 | a full-name is marked NSFW, and removed, exactly when the lookup returned it and no moderator approved it |
| Quarantine.AlertIffPending | quarantine/quarantine.py:60 | the alert is sent exactly when some returned submission is not approved |
| Quarantine.BulletListLines | quarantine/quarantine.py:63 | the bullet list splits back into one `* <permalink>` line per permalink, in order |
| Quarantine.AlertListsPending | quarantine/quarantine.py:60-65 | the alert is one message with the fixed subject; its body is the fixed text, a blank line, then one bullet per unapproved submission's permalink, in order |
| Quarantine.Moderate | quarantine/quarantine.py:49-67 | an empty batch makes no API call at all; otherwise the first call is the lookup of the batch, followed by the moderation calls and the alert |
| Quarantine.QuarantineRun | quarantine/quarantine.py:34-67 | the whole quarantine run: it aborts exactly when a score does not parse; otherwise it makes the moderation calls for the selected batch |
| Quarantine.NothingAboveThresholdNoCalls | quarantine/quarantine.py:44-49 | when no score is above the threshold, the batch is empty and no lookup, moderation call or message is made |
| Quarantine.AlreadyQuarantinedUntouched | quarantine/quarantine.py:46-58 | a full-name on the quarantine list is never marked NSFW or removed, provided the lookup returns only what it was asked for |

## Left out

- Argument parsing, `configparser`, logging, the API client's construction, and the reading of `quarantine.json` and `safe.json`. The lists arrive as sequences of strings, and the threshold as a `real`.
- The MIME guesser, the HTTP client, the header sniffer, Python's `float` and the API's `info` lookup are parameters. Their own behaviour is not modelled. In particular, the `get` parameter decides whether a failing request raises a `ValueError` or another exception.
- `float` is a parameter that returns `Option<real>`, with `None` when it raises. NaN, infinities and IEEE rounding are not modelled, and the comparison with the threshold is on reals.
- Every file operation and every moderation call is assumed to return. This covers `open`, `write`, `read`, `os.remove`, `store_file`, `mod.nsfw`, `mod.remove` and `subreddit.message`. In the scripts, an exception from any of them goes uncaught and ends the run part-way; the model does not capture those partial runs. The model's only early ends are an uncaught request exception in the fetch script and a score `float` rejects in the quarantine script. Examples of runs the model does not describe:
  - `mod.remove` raises after `mod.nsfw` succeeded, so later submissions are not moderated and no alert is sent (`Quarantine.ModerationPlan` always lists every pair and the alert).
  - The image directory does not exist, so the first copy raises (`ImageDownload.CopyOut` always copies every file).
  - A result file that is not valid UTF-8 makes its `read` raise (`Quarantine.ResultFile` carries the text as already read).
- `requests.get` is called without `stream=True`, so it reads the whole body before it returns, and a transfer error is raised before the file is opened. The model's `get` likewise returns every chunk or raises.
- `hasattr(submission, 'approved_by')` is modelled as the submission carrying an `approvedBy` value. How the API client decides that attribute is not modelled.
- The order of `glob.glob` and `os.listdir` is not modelled.
  - Result files arrive as a sequence in the order the scan visits them.
  - The copy loop picks the temporary files in an unspecified order. This is safe because their basenames are distinct.
- Deleting the temporary directory at the end of the run is not modelled, and neither are the file handles opened and closed around each read and write.
- Full-names are assumed to be non-empty, to contain no `/` and not to start with `.`, as reddit's `t3_…` identifiers do. The model relies on nothing else about them.
- The submission limit passed to the listing is not modelled. The model takes the listing's result as a sequence.
- `store_file` and `shutil.copyfileobj` are modelled as assigning the whole contents to the target path.
- `read_config` is never called by either script and is not modelled.
- Quarantine.AlreadyQuarantinedUntouched: assumes that the lookup returns only submissions it was asked for. Without that assumption the script's own code gives no guarantee.
- Quarantine.BulletListLines: assumes that permalinks contain no newline. Otherwise a line split cannot tell one permalink from two.
- Quarantine.AlertListsPending: assumes, for the same reason, that no unapproved submission's permalink contains a newline.
- ImageDownload.FetchSubmissions: states where each saved image ends up only for distinct full-names. A repeated full-name overwrites the earlier download.
