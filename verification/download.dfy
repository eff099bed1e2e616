/** The retrieval side of the `Download` class: `get_result`,
    `get_captions` and `get_captions_batch`. The downloader, the file
    system and the caption parser are parameters (`Env`); what the class
    itself decides — the status check, the options it mutates, which
    results the batch keeps — is modelled here. */
module Download {
  import opened Wrappers
  import opened Options
  import Captions

  const BaseUrl: string := "http://www.youtube.com/watch"

  /** What the downloader's `download` call did: it returned a status code
      (0 for success), or it raised one of the errors `get_result` tells
      apart. */
  datatype DownloadOutcome =
    | Finished(status: int)
    | RaisedDownloadError
    | RaisedExtractorError
    | RaisedOther

  /** Why retrieving one video's captions failed. */
  datatype Error =
    | DownloadFailed          // `DownloadException` for a download error
    | ExtractionFailed        // `DownloadException` for an extractor error
    | UnknownFailure          // `DownloadException` for anything else
    | BadStatus(status: int)  // the exception `get_captions` raises on a non-zero status
    | LanguagesNotIterable    // the `TypeError` of unpacking `subtitleslangs`
    | OutputUnreadable        // opening, reading or parsing the subtitle file raised

  /** The collaborators the class calls: `quote` encodes the video id as a
      query value, `download` runs the downloader with the options on the
      URL, and `cues` reads and parses the subtitle file named by the video
      id and the language into printed cues, `None` when that raised. The
      file's contents are whatever the downloader wrote with the options it
      was given, so `cues` receives those same options. */
  datatype Env = Env(
    quote: string -> string,
    download: (Opts, string) -> DownloadOutcome,
    cues: (Opts, string, string) -> Option<seq<string>>)

  /** A step that may have changed the options and may have failed. */
  datatype Attempt<T> = Attempt(opts: Opts, result: Result<T, Error>)

  /** `get_url_from_video_id`: the watch URL with the encoded id as its
      `v` query parameter. */
  function VideoUrl(env: Env, videoId: string): (url: string)
    ensures |url| == |BaseUrl| + 3 + |env.quote(videoId)|
    ensures url[..|BaseUrl| + 3] == BaseUrl + "?v="
    ensures url[|BaseUrl| + 3..] == env.quote(videoId)
  {
    BaseUrl + "?v=" + env.quote(videoId)
  }

  /** The `except` clauses of `get_result`: a returned status passes
      through, each raised error becomes its own `DownloadException`. */
  function StatusOf(outcome: DownloadOutcome): (r: Result<int, Error>)
    ensures r.Success? <==> outcome.Finished?
    ensures outcome.Finished? ==> r.value == outcome.status
  {
    match outcome
    case Finished(status) => Success(status)
    case RaisedDownloadError => Failure(DownloadFailed)
    case RaisedExtractorError => Failure(ExtractionFailed)
    case RaisedOther => Failure(UnknownFailure)
  }

  /** `get_result`: append the language to the options in place, then run
      the downloader with them. The options change even when the download
      then fails. */
  function GetResult(opts: Opts, videoId: string, language: string, env: Env): (a: Attempt<int>)
    ensures AddLanguage(opts, language).None? ==>
      a.opts == opts && a.result == Failure(LanguagesNotIterable)
    ensures AddLanguage(opts, language).Some? ==>
      && a.opts == AddLanguage(opts, language).value
      && (a.result.Success? <==> env.download(a.opts, VideoUrl(env, videoId)).Finished?)
      && (a.result.Success? ==> a.result.value == env.download(a.opts, VideoUrl(env, videoId)).status)
  {
    match AddLanguage(opts, language)
    case None => Attempt(opts, Failure(LanguagesNotIterable))
    case Some(o) => Attempt(o, StatusOf(env.download(o, VideoUrl(env, videoId))))
  }

  /** `get_captions`: any non-zero status is an error; on status 0 the
      stored subtitle file is parsed and normalised. */
  function GetCaptions(opts: Opts, videoId: string, language: string, env: Env): (a: Attempt<string>)
    ensures a.opts == GetResult(opts, videoId, language, env).opts
    ensures a.result.Success? <==>
      && GetResult(opts, videoId, language, env).result == Success(0)
      && env.cues(a.opts, videoId, language).Some?
    ensures a.result.Success? ==>
      a.result.value == Captions.Normalize(env.cues(a.opts, videoId, language).value)
    ensures GetResult(opts, videoId, language, env).result.Success? ==>
      var status := GetResult(opts, videoId, language, env).result.value;
      status != 0 ==> a.result == Failure(BadStatus(status))
  {
    var r := GetResult(opts, videoId, language, env);
    match r.result
    case Failure(e) => Attempt(r.opts, Failure(e))
    case Success(status) =>
      if status != 0 then Attempt(r.opts, Failure(BadStatus(status)))
      else match env.cues(r.opts, videoId, language)
        case None => Attempt(r.opts, Failure(OutputUnreadable))
        case Some(cues) => Attempt(r.opts, Success(Captions.Normalize(cues)))
  }

  /** The options and the collected captions of a batch. */
  datatype Batch = Batch(opts: Opts, captions: map<string, string>)

  /** The loop of `get_captions_batch`: retrieve each id in turn, threading
      the options, record a success under its id and skip a failure. */
  function Fold(opts: Opts, ids: seq<string>, language: string, env: Env, acc: map<string, string>): (b: Batch)
    ensures acc.Keys <= b.captions.Keys
    ensures b.captions.Keys <= acc.Keys + set k | k in ids
    decreases |ids|
  {
    if |ids| == 0 then Batch(opts, acc)
    else
      var a := GetCaptions(opts, ids[0], language, env);
      var acc' := if a.result.Success? then acc[ids[0] := a.result.value] else acc;
      Fold(a.opts, ids[1..], language, env, acc')
  }

  /** `get_captions_batch`: an empty list returns an empty map at once;
      otherwise the loop starts from an empty map. */
  function GetCaptionsBatch(opts: Opts, ids: seq<string>, language: string, env: Env): (b: Batch)
    ensures |ids| == 0 ==> b == Batch(opts, map[])
  {
    if |ids| == 0 then Batch(opts, map[]) else Fold(opts, ids, language, env, map[])
  }

  /** The per-id results of a batch, in order, each computed with the
      options left behind by the ids before it. */
  function Outcomes(opts: Opts, ids: seq<string>, language: string, env: Env): (rs: seq<Result<string, Error>>)
    ensures |rs| == |ids|
    decreases |ids|
  {
    if |ids| == 0 then []
    else
      var a := GetCaptions(opts, ids[0], language, env);
      [a.result] + Outcomes(a.opts, ids[1..], language, env)
  }

  /** Some retrieval of `k` succeeded. */
  predicate Succeeded(ids: seq<string>, rs: seq<Result<string, Error>>, k: string) {
    exists i :: 0 <= i < |ids| && i < |rs| && ids[i] == k && rs[i].Success?
  }

  /** The `i`-th retrieval is the last successful one of `k`. */
  predicate LastSuccess(ids: seq<string>, rs: seq<Result<string, Error>>, k: string, i: int) {
    && 0 <= i < |ids| && i < |rs| && ids[i] == k && rs[i].Success?
    && forall j :: i < j < |ids| && j < |rs| && ids[j] == k ==> rs[j].Failure?
  }

  /** Success somewhere in a list of attempts is success at its head or
      somewhere in its tail. */
  lemma SucceededCons(ids: seq<string>, rs: seq<Result<string, Error>>, k: string)
    requires |ids| > 0 && |rs| == |ids|
    ensures Succeeded(ids, rs, k) <==>
      (ids[0] == k && rs[0].Success?) || Succeeded(ids[1..], rs[1..], k)
  {
    if Succeeded(ids, rs, k) {
      var i :| 0 <= i < |ids| && i < |rs| && ids[i] == k && rs[i].Success?;
      if i > 0 {
        assert ids[1..][i - 1] == k && rs[1..][i - 1] == rs[i];
      }
    }
    if Succeeded(ids[1..], rs[1..], k) {
      var i :| 0 <= i < |ids[1..]| && i < |rs[1..]| && ids[1..][i] == k && rs[1..][i].Success?;
      assert ids[i + 1] == k && rs[i + 1] == rs[1..][i];
    }
  }

  /** The last success of `k` lies in the tail, one position earlier, unless
      it is the head, in which case the tail has no success of `k`. */
  lemma LastSuccessCons(ids: seq<string>, rs: seq<Result<string, Error>>, k: string, i: int)
    requires |ids| > 0 && |rs| == |ids|
    requires LastSuccess(ids, rs, k, i)
    ensures i > 0 ==> LastSuccess(ids[1..], rs[1..], k, i - 1)
    ensures i == 0 ==> !Succeeded(ids[1..], rs[1..], k)
  {
    forall j | 0 <= j < |ids[1..]| && ids[1..][j] == k && i <= j
      ensures rs[1..][j].Failure?
    {
      assert ids[j + 1] == k && rs[j + 1] == rs[1..][j];
    }
  }

  /** What the loop leaves behind, started from `acc` over `ids` whose
      retrievals gave `rs`: the starting keys plus the ids that succeeded,
      each id mapped to its last success, every other starting entry kept. */
  ghost predicate Records(ids: seq<string>, rs: seq<Result<string, Error>>, acc: map<string, string>, m: map<string, string>) {
    && (forall k :: k in m <==> k in acc || Succeeded(ids, rs, k))
    && (forall k, i :: LastSuccess(ids, rs, k, i) ==> k in m && m[k] == rs[i].value)
    && (forall k :: k in acc && !Succeeded(ids, rs, k) ==> m[k] == acc[k])
  }

  /** Recording the head's success and then what the tail records gives
      what the whole list records. */
  lemma RecordsCons(ids: seq<string>, rs: seq<Result<string, Error>>, acc: map<string, string>,
                    acc': map<string, string>, m: map<string, string>)
    requires |ids| > 0 && |rs| == |ids|
    requires acc' == if rs[0].Success? then acc[ids[0] := rs[0].value] else acc
    requires Records(ids[1..], rs[1..], acc', m)
    ensures Records(ids, rs, acc, m)
  {
    forall k
      ensures k in m <==> k in acc || Succeeded(ids, rs, k)
      ensures k in acc && !Succeeded(ids, rs, k) ==> m[k] == acc[k]
    {
      SucceededCons(ids, rs, k);
    }
    forall k, i | LastSuccess(ids, rs, k, i)
      ensures k in m && m[k] == rs[i].value
    {
      LastSuccessCons(ids, rs, k, i);
    }
  }

  /** The loop keeps every entry it starts with unless a later success for
      the same id replaces it; it adds exactly the ids that succeeded, each
      with the value of its last success. */
  lemma {:induction false} FoldSpec(opts: Opts, ids: seq<string>, language: string, env: Env, acc: map<string, string>)
    ensures Records(ids, Outcomes(opts, ids, language, env), acc, Fold(opts, ids, language, env, acc).captions)
    decreases |ids|
  {
    if |ids| > 0 {
      var a := GetCaptions(opts, ids[0], language, env);
      var acc' := if a.result.Success? then acc[ids[0] := a.result.value] else acc;
      FoldSpec(a.opts, ids[1..], language, env, acc');
      var rs := Outcomes(opts, ids, language, env);
      assert rs[0] == a.result && rs[1..] == Outcomes(a.opts, ids[1..], language, env);
      RecordsCons(ids, rs, acc, acc', Fold(opts, ids, language, env, acc).captions);
    }
  }

  /** The batch maps exactly the ids whose retrieval succeeded, each to the
      captions of its last successful retrieval; a later failure for a
      repeated id never removes an entry made earlier. */
  lemma BatchSpec(opts: Opts, ids: seq<string>, language: string, env: Env)
    ensures var m := GetCaptionsBatch(opts, ids, language, env).captions;
      var rs := Outcomes(opts, ids, language, env);
      && (forall k :: k in m <==> Succeeded(ids, rs, k))
      && (forall k, i :: LastSuccess(ids, rs, k, i) ==> k in m && m[k] == rs[i].value)
  {
    FoldSpec(opts, ids, language, env, map[]);
  }

  /** When every retrieval fails the batch is empty, not an error. */
  lemma AllFailedBatchIsEmpty(opts: Opts, ids: seq<string>, language: string, env: Env)
    requires forall i :: 0 <= i < |ids| ==> Outcomes(opts, ids, language, env)[i].Failure?
    ensures GetCaptionsBatch(opts, ids, language, env).captions == map[]
  {
    BatchSpec(opts, ids, language, env);
  }

  /** A map that records exactly the last successes of three distinct ids,
      the second of which failed, maps the first and the third. */
  lemma RecordsFirstAndThird(ids: seq<string>, rs: seq<Result<string, Error>>, m: map<string, string>)
    requires |ids| == 3 && |rs| == 3 && ids[0] != ids[1] && ids[1] != ids[2] && ids[0] != ids[2]
    requires rs[0].Success? && rs[1].Failure? && rs[2].Success?
    requires forall k :: k in m <==> Succeeded(ids, rs, k)
    requires forall k, i :: LastSuccess(ids, rs, k, i) ==> k in m && m[k] == rs[i].value
    ensures m.Keys == {ids[0], ids[2]}
    ensures m[ids[0]] == rs[0].value && m[ids[2]] == rs[2].value
  {
    assert LastSuccess(ids, rs, ids[0], 0);
    assert LastSuccess(ids, rs, ids[2], 2);
    forall k | k in m ensures k == ids[0] || k == ids[2] {
      var i :| 0 <= i < |ids| && i < |rs| && ids[i] == k && rs[i].Success?;
    }
  }

  /** Three distinct ids of which only the second fails: the batch maps the
      first and the third and nothing else. */
  lemma MiddleFailureSkipped(opts: Opts, ids: seq<string>, language: string, env: Env)
    requires |ids| == 3 && ids[0] != ids[1] && ids[1] != ids[2] && ids[0] != ids[2]
    requires var rs := Outcomes(opts, ids, language, env);
      rs[0].Success? && rs[1].Failure? && rs[2].Success?
    ensures var m := GetCaptionsBatch(opts, ids, language, env).captions;
      var rs := Outcomes(opts, ids, language, env);
      && m.Keys == {ids[0], ids[2]}
      && m[ids[0]] == rs[0].value && m[ids[2]] == rs[2].value
  {
    BatchSpec(opts, ids, language, env);
    RecordsFirstAndThird(ids, Outcomes(opts, ids, language, env), GetCaptionsBatch(opts, ids, language, env).captions);
  }

  /** Every retrieval in the loop appends the language first, so a batch of
      `n` ids with a non-empty language leaves the earlier requested
      languages followed by `n` copies of it, whether or not the
      retrievals succeeded. */
  lemma {:induction false} FoldAppendsLanguage(opts: Opts, ids: seq<string>, language: string, env: Env, acc: map<string, string>)
    requires language != ""
    requires RequestedLanguages(opts).Some?
    ensures AddLanguageTimes(opts, language, |ids|).Some?
    ensures Fold(opts, ids, language, env, acc).opts == AddLanguageTimes(opts, language, |ids|).value
    decreases |ids|
  {
    if |ids| > 0 {
      var o := AddLanguage(opts, language).value;
      assert GetCaptions(opts, ids[0], language, env).opts == o;
      assert RequestedLanguages(o).Some?;
      var acc' := if GetCaptions(opts, ids[0], language, env).result.Success?
        then acc[ids[0] := GetCaptions(opts, ids[0], language, env).result.value] else acc;
      FoldAppendsLanguage(o, ids[1..], language, env, acc');
    }
  }

  /** The options `get_captions_batch` leaves behind: one more copy of the
      language in `subtitleslangs` per id, every other key as it was. */
  lemma BatchAppendsLanguage(opts: Opts, ids: seq<string>, language: string, env: Env, langs: seq<string>)
    requires language != "" && |ids| > 0
    requires RequestedLanguages(opts) == Some(langs)
    ensures var o := GetCaptionsBatch(opts, ids, language, env).opts;
      && o.Keys == opts.Keys + {SubtitlesLangs}
      && o[SubtitlesLangs] == TextList(langs + Repeat(language, |ids|))
      && (forall k :: k in opts && k != SubtitlesLangs ==> o[k] == opts[k])
  {
    FoldAppendsLanguage(opts, ids, language, env, map[]);
    AddLanguageAccumulates(opts, language, |ids|, langs);
  }

  /** The `for`/`try`/`continue` loop of `get_captions_batch` over the
      ids, with the options it mutates carried along. */
  method GetCaptionsBatchLoop(opts: Opts, ids: seq<string>, language: string, env: Env)
    returns (newOpts: Opts, captions: map<string, string>)
    ensures Batch(newOpts, captions) == GetCaptionsBatch(opts, ids, language, env)
  {
    newOpts, captions := opts, map[];
    if |ids| == 0 {
      return;
    }
    var i := 0;
    while i < |ids|
      invariant 0 <= i <= |ids|
      invariant Fold(newOpts, ids[i..], language, env, captions) == Fold(opts, ids, language, env, map[])
    {
      assert ids[i..][1..] == ids[i + 1..];
      var attempt := GetCaptions(newOpts, ids[i], language, env);
      if attempt.result.Success? {
        captions := captions[ids[i] := attempt.result.value];
      }
      newOpts := attempt.opts;
      i := i + 1;
    }
  }
}
