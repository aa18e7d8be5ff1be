/** The required-field checks of the two POST endpoints: `/fetch_formats`
    needs a URL, `/download` a URL and a format id, and the download type
    defaults to "video". */
module Requests {
  import opened Base
  import opened Hooks

  /** An endpoint's decision on a request body. */
  datatype Outcome<T> = Accepted(value: T) | Rejected(code: nat, error: string)

  /** A string field is missing, null or empty: Python's `not value`. */
  predicate Falsy(v: Option<string>) {
    v.None? || v.value == ""
  }

  /** `/fetch_formats`: the URL to look up, or 400 when it is falsy. */
  function FetchRequest(url: Option<string>): (r: Outcome<string>)
    ensures r.Rejected? <==> Falsy(url)
    ensures r.Rejected? ==> r == Rejected(400, "URL is required")
    ensures r.Accepted? ==> r.value == url.value
  {
    if Falsy(url) then Rejected(400, "URL is required") else Accepted(url.value)
  }

  /** The job a `/download` request starts. */
  datatype DownloadJob = DownloadJob(url: string, formatId: string, downloadType: string)

  /** `/download`: 400 when the URL or the format id is falsy; otherwise the
      job, with the download type defaulting to "video" when absent. */
  function DownloadRequest(url: Option<string>, formatId: Option<string>, downloadType: Option<string>)
    : (r: Outcome<DownloadJob>)
    ensures r.Rejected? <==> Falsy(url) || Falsy(formatId)
    ensures r.Rejected? ==> r == Rejected(400, "URL and format are required")
    ensures r.Accepted? ==>
              && r.value.url == url.value && r.value.formatId == formatId.value
              && r.value.downloadType == downloadType.GetOr("video")
  {
    if Falsy(url) || Falsy(formatId) then Rejected(400, "URL and format are required")
    else Accepted(DownloadJob(url.value, formatId.value, downloadType.GetOr("video")))
  }

  /** A request that names no type is downloaded as video: it is converted
      to MP3 only when its format id mentions mp3. */
  lemma UntypedRequestIsVideo(url: string, formatId: string)
    ensures var r := DownloadRequest(Some(url), Some(formatId), None);
            && (r.Accepted? <==> url != "" && formatId != "")
            && (r.Accepted? ==>
                  (DownloadSelection(r.value.downloadType, r.value.formatId) == ExtractMp3 <==>
                   HasInfix(Lower(formatId), "mp3")))
  {
  }
}
