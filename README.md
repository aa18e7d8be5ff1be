# Media downloader: format catalog and job registry

This project is a Dafny model of the core of a small web application. The application downloads videos and audio from media sites. It has two parts.

**The downloader** (`downloader.py`) does the following:
- turns the format list that the extraction library reports for a video into the catalog shown to the user. Each raw descriptor is normalised. Storyboards are skipped. The filter keeps only usable entries. Up to three "video + best audio" pairings and two fixed sentinels are added. The list is then de-duplicated on `(resolution, type, quality)` and ranked.
- Small helpers: it cleans file names, renders durations and file sizes, builds progress snapshots for the job registry, and picks the format options for a download.

**The web application** (`app.py`) keeps a registry of download jobs. It maps each job id to a progress record. Several steps act on it:
- the download thread registers the job and merges progress snapshots into its record;
- the thread marks the job completed or failed;
- the endpoints read a record, decide whether the finished file may be served, and evict jobs older than an hour.

The two request checks of the POST endpoints are modelled too.

Layout, one module per file:

- `base.dfy` (`Base`): optional values, rendered labels, and the string operations the source relies on: ASCII `upper`/`lower`, decimal numerals, substring test, POSIX `basename`, `isspace`.
- `formats.dfy` (`Formats`): the raw descriptor, the catalog entry, the de-duplication key, the sort key, and the two sentinels.
- `ranking.dfy` (`Ranking`): de-duplication, and the stable descending sort as a specification. `DeduplicateAndSort` is the loop that the source runs.
- `sizes.dfy` (`Sizes`): the unit choice of `format_filesize`, with its loop.
- `catalog.dfy` (`Catalog`): `create_format_info`, `get_format_type`, `get_quality_value`, `is_valid_format`, `create_combined_formats` and `extract_formats`.
- `sanitize.dfy` (`Sanitize`): `sanitize_filename`.
- `clock.dfy` (`Clock`): `format_duration`, and a reader for its output.
- `records.dfy` (`Records`): the fields and values of a progress record.
- `hooks.dfy` (`Hooks`): the snapshots of `progress_hook`, the error snapshot of `download`, and the format branch of `get_download_options`.
- `registry.dfy` (`Registry`): the class `JobRegistry`, which holds `download_progress` as a `map`. Each block that the source runs under `download_lock` is one method. The blocks that change the registry have `modifies` and a postcondition that gives the whole new state. The two read-only blocks, the reads in `get_progress` and `download_file`, are methods without `modifies`.
- `requests.dfy` (`Requests`): the required-field checks of `/fetch_formats` and `/download`.

Where the code does something other than its comments or its intended behaviour suggest, the model follows the code:
- The comment "Skip very low quality audio" (downloader.py:180) suggests that only low-bitrate audio is dropped. But `create_format_info` never copies `abr`, so `is_valid_format` drops every audio-only entry (`Catalog.ValidIffVideoCapable`).
- The comment "Top 3 video formats" (downloader.py:194) suggests the three best videos. The pairings are made from the first three qualifying videos in input order instead (`Catalog.CombinedIgnoresLater`).
- The descending sort puts the "best audio" sentinel first (`Catalog.CatalogShape`).
- A writer does not check the status it replaces (`Registry.WritersIgnorePriorStatus`).
- A job is registered by its own thread. Until that happens, `/progress` reports it as unknown (`Registry.JobRegistry.GetProgress`, `Registry.JobRegistry.Register`).

## Model

| member | source | states |
|---|---|---|
| Base.Upper | downloader.py:152 | upper-casing keeps the length, maps each character, and leaves no lower-case ASCII letter |
| Base.Lower | downloader.py:346 | lower-casing keeps the length, maps each character, and leaves no upper-case ASCII letter |
| Base.HasInfix | downloader.py:346 | the substring test holds iff the text occurs at some position |
| Base.BasenameSuffix | app.py:124 | the base name is the suffix after the last '/', contains no '/', and is preceded by a '/' when shorter than the path |
| Base.DigitsRoundTrip | downloader.py:143 | the decimal numeral of a height reads back as that height |
| Sizes.UnitIndex | downloader.py:259-263 | the chosen unit is the first one below whose next power of 1024 the size lies, TB as the fallback |
| Sizes.FilesizeLabel | downloader.py:255-263 | "Unknown" iff the size is missing or zero; otherwise the amount is shown in the unit that `UnitIndex` picks |
| Sizes.FilesizeScale | downloader.py:258-263 | the shown amount times the unit's power of 1024 is the size; it is below 1024 except in TB, and at least 1 above bytes |
| Sizes.FormatFilesize | downloader.py:255-263 | the dividing loop yields exactly the label above |
| Ranking.DedupKeys | downloader.py:209-216 | the survivors have pairwise distinct keys, cover every key of the input, and are all input entries |
| Ranking.DedupKeepsFirst | downloader.py:212-216 | each survivor is the first input entry with its key |
| Ranking.DedupKeepsOrder | downloader.py:212-216 | survivors keep the order in which their keys first occur |
| Ranking.DedupKeepsUnique | downloader.py:212-216 | an entry whose key no other entry shares survives |
| Ranking.InsertCounts | downloader.py:219-222 | inserting adds exactly that entry (multiset) |
| Ranking.InsertSorted | downloader.py:219-222 | inserting into a descending list keeps it descending |
| Ranking.SortDesc | downloader.py:219-222 | the ranking is a permutation of its input and is non-increasing in `(0 if video else 1, quality)` |
| Ranking.SortDescStable | downloader.py:219-222 | entries with equal sort keys keep their input order |
| Ranking.SortKeepsDistinct | downloader.py:219-222 | sorting keeps keys pairwise distinct |
| Ranking.DeduplicateAndSort | downloader.py:207-224 | the loop and sort give the ranked de-duplication: distinct keys, sorted descending, same key set, only input entries |
| Catalog.QualityValue | downloader.py:226-241 | the quality value is never negative |
| Catalog.QualityFallback | downloader.py:226-241 | a non-zero ladder value wins whatever the height; any other label (off the ladder, such as "1080P60", or worth 0, such as "N/A") falls back to the height when it is non-zero, else 0 |
| Catalog.LadderAtHeight | downloader.py:228-235 | a `"<h>P"` label is worth h when the ladder names h, and 0 otherwise |
| Catalog.HeightOnlyQuality | downloader.py:139-158 | a descriptor with a height but no note is labelled `"<h>P"` and ranked by h |
| Catalog.FormatType | downloader.py:160-172 | the type is video-capable iff vcodec is not "none", and carries audio iff acodec is not "none" (a missing codec counts as present) |
| Catalog.CreateFormatInfo | downloader.py:139-158 | raises iff there is no id; skipped iff the id starts with "sb"; otherwise the record carries its stream flags |
| Catalog.CreateFormatInfoShape | downloader.py:139-158 | the id, extension (default mp4), type, size label, codec flags and the quality of the (height-completed) note are recorded, and the label is the upper-cased note, else `"<h>P"`, else "N/A", with no lower-case letter |
| Catalog.ValidIffVideoCapable | downloader.py:174-184 | the filter keeps exactly the video-capable entries and drops every audio-only one |
| Catalog.HdVideos | downloader.py:191 | the candidates for pairing are exactly the video-only entries of quality at least 720 |
| Catalog.Combined | downloader.py:186-205 | there are min(3, #candidates) pairings, the i-th built from the i-th candidate |
| Catalog.CombinedShape | downloader.py:194-203 | at most three pairings, each video+audio with quality at least 1720, size "Unknown", built from a qualifying input entry |
| Catalog.CombinedIgnoresLater | downloader.py:191-194 | once three candidates have been seen, later entries do not change the pairings |
| Catalog.CreateCombinedFormats | downloader.py:186-205 | the loop over `video_formats[:3]` yields exactly those pairings, at most three |
| Catalog.ExtractFormats | downloader.py:102-137 | the loop, pairings, sentinels and ranking yield the catalog of the input, or nothing when a descriptor raises |
| Catalog.Reconcile | downloader.py:112-137 | the steps after the loop rank the kept entries, their pairings and the sentinels |
| Catalog.KeptFailurePersists | downloader.py:107-110 | once a descriptor raised, the rest of the list does not matter |
| Catalog.KeptFailsIff | downloader.py:107-110 | extraction raises iff some descriptor has no id |
| Catalog.KeptSound | downloader.py:107-110 | every kept entry is video-capable, has an upper-case label, and is built from some descriptor |
| Catalog.KeptComplete | downloader.py:107-110 | every video-capable entry built from a descriptor is kept |
| Catalog.SentinelsUnique | downloader.py:117-134 | no other candidate shares a sentinel's key, since the sentinels' labels contain lower-case letters |
| Catalog.CatalogMembers | downloader.py:102-137 | both sentinels are in every catalog, and every other entry is video-capable |
| Catalog.CatalogShape | downloader.py:102-137 | the catalog has distinct keys, is sorted descending, holds both sentinels, starts with the "best audio" sentinel, and has only video-capable entries after it |
| Catalog.CatalogCoversCandidates | downloader.py:136-137 | the key of every kept entry, pairing and sentinel appears in the catalog |
| Sanitize.RemoveForbidden | downloader.py:21 | no forbidden character is left and nothing is added |
| Sanitize.RemoveForbiddenCounts | downloader.py:21 | each allowed character occurs as often as in the input, each forbidden one not at all |
| Sanitize.RemoveForbiddenAppend | downloader.py:21 | removal works piece by piece, so kept characters stay in order |
| Sanitize.Truncate | downloader.py:22-23 | the result is at most 100 long, is the first 100 characters of a longer name, and leaves a shorter one alone |
| Sanitize.Strip | downloader.py:24 | the result is no longer than the input and neither starts nor ends with whitespace |
| Sanitize.StripInfix | downloader.py:24 | the result is empty only for an all-whitespace input; otherwise it is the infix after the leading whitespace, and only whitespace follows it |
| Sanitize.SanitizeFilename | downloader.py:19-24 | the cleaned name has no forbidden character, is at most 100 long, and has no surrounding whitespace |
| Sanitize.SanitizeFixesClean | downloader.py:19-24 | a name that is already clean is returned unchanged |
| Sanitize.SanitizeIdempotent | downloader.py:19-24 | cleaning twice is cleaning once |
| Clock.Pad2 | downloader.py:251 | two-digit padding gives at least two digits, exactly two below 100, and reads back as the number |
| Clock.FormatDuration | downloader.py:243-253 | "Unknown" iff the duration is zero |
| Clock.DurationFields | downloader.py:247-253 | the hours field appears iff the duration is at least an hour; minutes and seconds are two digits below 60; the fields add up to the duration (to its remainder modulo an hour below one hour) |
| Clock.DurationRoundTrip | downloader.py:243-253 | reading the text back gives the duration for non-negative input, and its remainder modulo 3600 for negative input |
| Hooks.TotalBytes | downloader.py:268 | the total is `total_bytes` when truthy, else the estimate, else 0 |
| Hooks.PercentDone | downloader.py:271-273 | the percentage is 0 without a positive total |
| Hooks.PercentScale | downloader.py:271-273 | with a positive total, percentage times total is 100 times the downloaded bytes |
| Hooks.PercentBounds | downloader.py:271-273 | with downloaded bytes up to the total, the percentage is between 0 and 100, and is 100 iff everything is there |
| Hooks.SpeedLabel | downloader.py:281 | "0 MB/s" iff the speed is missing or zero; otherwise an amount in " MB/s" |
| Hooks.SpeedScale | downloader.py:281 | the amount shown is the speed divided by 1024 twice |
| Hooks.EtaText | downloader.py:282 | "Unknown" iff the ETA is missing or zero; otherwise the ETA's numeral followed by " seconds" |
| Hooks.DownloadingSnapshot | downloader.py:267-286 | the "downloading" snapshot has exactly the seven fields, is well typed, and holds the percentage, speed, ETA, size of the total and base name |
| Hooks.FinishedSnapshot | downloader.py:291-300 | the "finished" snapshot reports processing, 100 percent, zero speed and ETA, and the size of `total_bytes` |
| Hooks.ProgressSnapshot | downloader.py:265-303 | a snapshot is sent iff the status is "downloading" or "finished" |
| Hooks.FailureSnapshot | downloader.py:325-331 | the error snapshot sets only the status "error" and the failure message |
| Hooks.SnapshotsLeaveTimesAndPaths | downloader.py:278-300 | no snapshot carries `start_time` or `filepath`, and every snapshot is well typed |
| Hooks.DownloadSelection | downloader.py:346-366 | MP3 extraction iff the type is audio or the id mentions mp3; merge iff otherwise the id contains '+'; else the id as it is |
| Hooks.AudioAlwaysConverts | downloader.py:346-355 | an audio download always fetches "bestaudio/best" and converts it |
| Hooks.CombinedIdsMerge | downloader.py:356-361 | a `"<id>+bestaudio"` pairing requested as video is merged under its own id unless it mentions mp3 |
| Registry.InitialRecord | app.py:97-106 | a new job starts with status "starting", 0 percent, the fixed speed, ETA, size, file name and message, and `start_time` now |
| Registry.Merge | app.py:145 | `update` overwrites or adds the patch's keys and keeps every other key |
| Registry.Completed | app.py:121-126 | the success writer sets status, path, base name, message and 100 percent and keeps everything else |
| Registry.Failed | app.py:130-132 | a failure writer sets only the status "error" and the message |
| Registry.WritersIgnorePriorStatus | app.py:120-140 | success overwrites an earlier error, and an error overwrites an earlier success |
| Registry.Sweep | app.py:204-211 | eviction keeps exactly the unexpired jobs, unchanged |
| Registry.SweepTwice | app.py:201-211 | a second cleanup at the same time evicts nothing and changes nothing |
| Registry.FreshJobExpiry | app.py:206-207 | a job registered at t is evicted at now iff now - t > 3600 |
| Registry.MergeKeepsExpiry | app.py:142-145 | a progress update without `start_time` does not change when a job is evicted |
| Registry.WritersKeepExpiry | app.py:120-140 | the completion and error writers do not change when a job is evicted |
| Registry.JobRegistry.constructor | app.py:32 | the registry starts empty |
| Registry.JobRegistry.Register | app.py:96-106 | the job's record becomes the initial record; no other job changes |
| Registry.JobRegistry.UpdateProgress | app.py:142-145 | a registered job gets the snapshot merged in; an unknown id changes nothing; no other job changes |
| Registry.JobRegistry.MarkCompleted | app.py:120-126 | a registered job gets the success record; an evicted job changes nothing |
| Registry.JobRegistry.MarkFailed | app.py:129-132 | a registered job gets the error record; an evicted job changes nothing |
| Registry.JobRegistry.FinishDownload | app.py:120-134 | success iff the returned path is non-empty and exists, "file not found" otherwise |
| Registry.JobRegistry.RecordException | app.py:136-140 | the exception handler records "Error: " and the message |
| Registry.JobRegistry.GetProgress | app.py:161-168 | the job's record, or the "not found or expired" record, and nothing changes |
| Registry.JobRegistry.DownloadFile | app.py:170-183 | refused with 404 when there is no record or it is not completed, and when the path is missing, empty or absent from disk; otherwise the file is served under the recorded name or "download" |
| Registry.JobRegistry.CollectExpired | app.py:204-208 | the first loop collects each expired id exactly once |
| Registry.JobRegistry.DeleteAll | app.py:210-211 | given ids that are all present and each listed once (as `del` needs), the second loop deletes exactly those ids |
| Registry.JobRegistry.Cleanup | app.py:197-213 | the registry becomes the sweep of the old one, and the count is the number of expired jobs |
| Requests.FetchRequest | app.py:60-62 | 400 "URL is required" iff the URL is missing or empty; otherwise that URL is used |
| Requests.DownloadRequest | app.py:81-87 | 400 iff the URL or the format id is missing or empty; the type defaults to "video" |
| Requests.UntypedRequestIsVideo | app.py:84 | a request without a type is converted to MP3 iff its format id mentions mp3 |

## Left out

- Calls into the extraction library and ffmpeg are left out: `get_video_info`, the download itself, `convert_to_mp3`, and the site-specific options with their credentials (`get_extractor_opts`). The model starts from the format list that `extract_formats` receives, and from the path that `download` returns.
- Threads and `download_lock` are left out. Each locked block is one atomic method of `JobRegistry`. The thread body is the sequence `Register`, then `UpdateProgress` for each snapshot, then `FinishDownload` or `RecordException`. That sequence is not a method of its own.
- `time.time()` and `uuid.uuid4()` become parameters (`now`, `id`). Whether a file exists is a parameter too: a set of existing paths.
- Flask routing, `jsonify`, `send_file`, logging, environment loading and `get_downloads_folder` are left out. So are the 500 answers of the exception handlers, such as a request without a JSON body. The `/fetch_formats` answer after a failed lookup depends on the library and is left out.
- Floating-point rendering is left out. `Label.OneDecimal` keeps the exact amount in place of the one-decimal text.
- Hooks.DownloadingSnapshot: the percentage is the exact value; `round(percent, 1)` is not modelled.
- The options of `get_download_options` other than the format branch are left out: the output template, the hook list, and the quiet and warning flags.
- Sizes.FormatFilesize: sizes are integers. A fractional size from the library is not modelled.
- Clock.FormatDuration: durations are integers. For a fractional duration, Python's `:02d` raises; that case is not modelled.
- Formats.RawFormat: heights are natural numbers, and a JSON null is treated as an absent key. A null `format_id` still raises, as in Python. A null `format_note` is treated as missing. The entry is then labelled `"<h>P"` when the height is truthy and "N/A" otherwise; Python raises on `None.upper()` there. A null `ext` becomes "mp4"; Python stores None.
- Catalog.ExtractFormats: a JSON null `formats` list is treated as absent, so the catalog holds only the two sentinels. Python's `info.get('formats', [])` returns None for a null value, and the loop at downloader.py:107 raises a TypeError.
- Hooks.HookEvent: a JSON null is treated as an absent key. A null `total_bytes_estimate` gives a total of 0 and a null `filename` gives the base name ""; Python raises a TypeError on both (downloader.py:272, downloader.py:284).
- Base.Basename: splits only at '/', as POSIX `os.path.basename` does. On Windows, `os.path.basename` also splits at '\\'; that behaviour is not modelled.
- Base.Upper and Base.Lower: only ASCII letters are case-mapped. Python's Unicode case mapping of other letters is not modelled.
- Ranking.SortDesc: Python's Timsort is modelled by its specification, a stable sort in descending key order. The output of the two is the same.
- Registry.JobRegistry.CollectExpired: ids are taken from the key set in an unspecified order, not in dictionary insertion order. Only the order of the collected list differs; the new registry and the count do not.
- Registry.JobRegistry.Cleanup: returns the count; the reply text "Cleaned up n old entries" is not built.
- Records.Record: a record is a map. The key order of the JSON answer is not modelled.
- The list of audio-only formats that `create_combined_formats` builds and never uses is not modelled.
