/** The downloader's side of a running download: the progress snapshots
    `progress_hook` hands to the callback, the error snapshot `download`
    reports, and the format selection of `get_download_options`. */
module Hooks {
  import opened Base
  import opened Sizes
  import opened Records

  /** The dictionary the extraction library passes to a progress hook. Byte
      counts and the ETA are integers, the speed a number of bytes per
      second; every key but `status` may be absent. */
  datatype HookEvent = HookEvent(
    status: string,
    totalBytes: Option<int>,
    totalBytesEstimate: Option<int>,
    downloadedBytes: Option<int>,
    speed: Option<real>,
    eta: Option<int>,
    filename: Option<string>)

  /** `d.get('total_bytes') or d.get('total_bytes_estimate', 0)`. */
  function TotalBytes(d: HookEvent): (t: int)
    ensures d.totalBytes.Some? && d.totalBytes.value != 0 ==> t == d.totalBytes.value
    ensures (d.totalBytes.None? || d.totalBytes.value == 0) ==> t == d.totalBytesEstimate.GetOr(0)
  {
    if d.totalBytes.Some? && d.totalBytes.value != 0 then d.totalBytes.value
    else d.totalBytesEstimate.GetOr(0)
  }

  /** The percentage done, before rounding: 0 while the total is unknown. */
  function PercentDone(d: HookEvent): (p: real)
    ensures TotalBytes(d) <= 0 ==> p == 0.0
  {
    var total := TotalBytes(d);
    if total > 0 then d.downloadedBytes.GetOr(0) as real / total as real * 100.0 else 0.0
  }

  /** With a positive total, the percentage times the total is 100 times the
      downloaded bytes. */
  lemma PercentScale(d: HookEvent)
    requires 0 < TotalBytes(d)
    ensures PercentDone(d) * TotalBytes(d) as real == d.downloadedBytes.GetOr(0) as real * 100.0
  {
  }

  lemma ScaleMonotone(a: real, b: real, t: real)
    requires 0.0 < t
    ensures a <= b <==> a * t <= b * t
  {
  }

  /** Whatever has been downloaded, up to the total, is between 0 and 100
      percent of it, and 100 exactly when everything is there. */
  lemma PercentBounds(d: HookEvent)
    requires 0 < TotalBytes(d)
    requires 0 <= d.downloadedBytes.GetOr(0) <= TotalBytes(d)
    ensures 0.0 <= PercentDone(d) <= 100.0
    ensures PercentDone(d) == 100.0 <==> d.downloadedBytes.GetOr(0) == TotalBytes(d)
  {
    var t, p := TotalBytes(d) as real, PercentDone(d);
    PercentScale(d);
    ScaleMonotone(0.0, p, t);
    ScaleMonotone(p, 100.0, t);
    ScaleMonotone(100.0, p, t);
  }

  /** `str(n)` for an integer. */
  function IntText(n: int): (r: string)
    ensures n >= 0 ==> r == Digits(n)
    ensures n < 0 ==> r == "-" + Digits(-n)
  {
    if n < 0 then "-" + Digits(-n) else Digits(n)
  }

  /** The speed field: megabytes per second to one decimal, or "0 MB/s" when
      the speed is absent or zero. */
  function SpeedLabel(speed: Option<real>): (r: Label)
    ensures r.Literal? <==> speed.None? || speed.value == 0.0
    ensures r.Literal? ==> r.text == "0 MB/s"
    ensures r.OneDecimal? ==> r.unit == " MB/s"
  {
    if speed.Some? && speed.value != 0.0 then OneDecimal(speed.value / 1024.0 / 1024.0, " MB/s")
    else Literal("0 MB/s")
  }

  /** The speed is shown in mebibytes per second. */
  lemma SpeedScale(speed: Option<real>)
    requires SpeedLabel(speed).OneDecimal?
    ensures SpeedLabel(speed).amount * 1048576.0 == speed.value
  {
  }

  /** The eta field: "<eta> seconds", or "Unknown" when absent or zero. */
  function EtaText(eta: Option<int>): (r: string)
    ensures eta.None? || eta.value == 0 ==> r == "Unknown"
    ensures eta.Some? && eta.value > 0 ==> r == Digits(eta.value) + " seconds"
    ensures eta.Some? && eta.value < 0 ==> r == "-" + Digits(-eta.value) + " seconds"
  {
    if eta.Some? && eta.value != 0 then IntText(eta.value) + " seconds" else "Unknown"
  }

  /** The fields every progress snapshot carries. */
  const SnapshotFields: set<Field> := {Status, Percent, Speed, Eta, Filesize, Filename, Message}

  /** A progress snapshot with the given field values. */
  function Snapshot(status: string, percent: real, speed: Label, eta: string, filesize: Label,
                    filename: string, message: string): (r: Record)
    ensures r.Keys == SnapshotFields && WellTyped(r)
    ensures HasText(r, Status, status) && HasText(r, Message, message)
    ensures HasText(r, Filename, filename) && HasText(r, Eta, eta)
    ensures r[Percent] == Number(percent)
    ensures r[Speed] == Text(speed) && r[Filesize] == Text(filesize)
  {
    map[Status := Str(status), Percent := Number(percent), Speed := Text(speed),
        Eta := Str(eta), Filesize := Text(filesize), Filename := Str(filename),
        Message := Str(message)]
  }

  /** The snapshot for a "downloading" event. */
  function DownloadingSnapshot(d: HookEvent): (r: Record)
    ensures r.Keys == SnapshotFields && WellTyped(r)
    ensures HasText(r, Status, "downloading") && HasText(r, Message, "Downloading...")
    ensures r[Filename] == Str(Basename(d.filename.GetOr("")))
    ensures r[Percent] == Number(PercentDone(d))
    ensures r[Speed] == Text(SpeedLabel(d.speed))
    ensures r[Eta] == Str(EtaText(d.eta))
    ensures r[Filesize] == Text(FilesizeLabel(Some(TotalBytes(d))))
  {
    Snapshot("downloading", PercentDone(d), SpeedLabel(d.speed), EtaText(d.eta),
             FilesizeLabel(Some(TotalBytes(d))), Basename(d.filename.GetOr("")), "Downloading...")
  }

  /** The snapshot for a "finished" event: the file is complete and about to
      be post-processed. */
  function FinishedSnapshot(d: HookEvent): (r: Record)
    ensures r.Keys == SnapshotFields && WellTyped(r)
    ensures HasText(r, Status, "processing") && HasText(r, Message, "Processing file...")
    ensures r[Filename] == Str(Basename(d.filename.GetOr("")))
    ensures r[Percent] == Number(100.0)
    ensures HasText(r, Speed, "0 MB/s") && HasText(r, Eta, "0 seconds")
    ensures r[Filesize] == Text(FilesizeLabel(Some(d.totalBytes.GetOr(0))))
  {
    Snapshot("processing", 100.0, Literal("0 MB/s"), "0 seconds",
             FilesizeLabel(Some(d.totalBytes.GetOr(0))), Basename(d.filename.GetOr("")), "Processing file...")
  }

  /** What `progress_hook(d, callback)` passes to the callback, or None when
      it calls nothing (a status other than "downloading" and "finished"). */
  function ProgressSnapshot(d: HookEvent): (r: Option<Record>)
    ensures r.Some? <==> d.status == "downloading" || d.status == "finished"
    ensures d.status == "downloading" ==> r == Some(DownloadingSnapshot(d))
    ensures d.status == "finished" ==> r == Some(FinishedSnapshot(d))
  {
    if d.status == "downloading" then Some(DownloadingSnapshot(d))
    else if d.status == "finished" then Some(FinishedSnapshot(d))
    else None
  }

  /** What `download` passes to the callback when the download raises. */
  function FailureSnapshot(error: string): (r: Record)
    ensures r.Keys == {Status, Message} && WellTyped(r)
    ensures HasText(r, Status, "error")
    ensures HasText(r, Message, "Download failed: " + error)
  {
    map[Status := Str("error"), Message := Str("Download failed: " + error)]
  }

  /** A progress snapshot never carries `start_time` or `filepath`. */
  lemma SnapshotsLeaveTimesAndPaths(d: HookEvent, error: string)
    ensures ProgressSnapshot(d).Some? ==>
              StartTime !in ProgressSnapshot(d).value && Filepath !in ProgressSnapshot(d).value
              && WellTyped(ProgressSnapshot(d).value)
    ensures StartTime !in FailureSnapshot(error) && Filepath !in FailureSnapshot(error)
  {
    assert StartTime !in SnapshotFields && Filepath !in SnapshotFields;
  }

  // ---------------------------------------------------------------------
  // Format selection

  /** The options `get_download_options` adds for the chosen format. */
  datatype Selection =
    | ExtractMp3      // format "bestaudio/best", then FFmpegExtractAudio to mp3 at quality 192
    | Merge(format: string)   // the given format, merged into mp4
    | Exact(format: string)   // the given format as it is

  /** The test `download_type == 'audio' or 'mp3' in format_id.lower()`, which
      `download` also uses to decide on the MP3 conversion. */
  predicate WantsMp3(downloadType: string, formatId: string) {
    downloadType == "audio" || HasInfix(Lower(formatId), "mp3")
  }

  /** The format branch of `get_download_options`. */
  function DownloadSelection(downloadType: string, formatId: string): (r: Selection)
    ensures r == ExtractMp3 <==> WantsMp3(downloadType, formatId)
    ensures r.Merge? <==> !WantsMp3(downloadType, formatId) && '+' in formatId
    ensures r.Merge? || r.Exact? ==> r.format == formatId
  {
    if WantsMp3(downloadType, formatId) then ExtractMp3
    else if '+' in formatId then Merge(formatId)
    else Exact(formatId)
  }

  /** The value of the `format` option. */
  function FormatOption(s: Selection): string {
    match s
    case ExtractMp3 => "bestaudio/best"
    case Merge(f) => f
    case Exact(f) => f
  }

  /** An audio download always fetches the best audio and converts it. */
  lemma AudioAlwaysConverts(formatId: string)
    ensures DownloadSelection("audio", formatId) == ExtractMp3
    ensures FormatOption(DownloadSelection("audio", formatId)) == "bestaudio/best"
  {
  }

  /** A synthesized `"<id>+bestaudio"` entry requested as video is merged
      into mp4 under its own id, unless its id mentions mp3. */
  lemma CombinedIdsMerge(id: string)
    ensures var sel := DownloadSelection("video", id + "+bestaudio");
            sel == ExtractMp3 || sel == Merge(id + "+bestaudio")
  {
    var s := id + "+bestaudio";
    assert s[|id|] == '+';
  }
}
