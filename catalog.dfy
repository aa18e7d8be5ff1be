/** Format catalog reconciliation (`extract_formats` and the helpers it calls):
    raw descriptors are normalised one by one, filtered, joined by at most
    three synthesized "video + best audio" entries and two fixed sentinels,
    and then de-duplicated and ranked. */
module Catalog {
  import opened Base
  import opened Formats
  import opened Ranking
  import opened Sizes

  // ---------------------------------------------------------------------
  // Normalising one descriptor

  /** The quality ladder of `get_quality_value`. */
  const Ladder: map<string, int> := map[
    "144P" := 144, "240P" := 240, "360P" := 360, "480P" := 480,
    "720P" := 720, "1080P" := 1080, "1440P" := 1440, "2160P" := 2160,
    "4320P" := 4320, "BEST" := 10000, "N/A" := 0]

  /** `resolution_map.get(label, 0)`. */
  function LadderValue(key: string): int {
    if key in Ladder then Ladder[key] else 0
  }

  /** A Python value used as a condition: an absent or zero height is false. */
  predicate HasHeight(f: RawFormat) {
    f.height.Some? && f.height.value != 0
  }

  /** `format_note` after the fallback to `"<height>p"`. */
  function Note(f: RawFormat): string {
    var note := f.formatNote.GetOr("unknown");
    if note == "unknown" && HasHeight(f) then Digits(f.height.value) + "p" else note
  }

  /** `get_quality_value(note, format_dict)`: the ladder value of the
      upper-cased note when it is non-zero, else the height when there is one,
      else 0. */
  function QualityValue(note: string, height: Option<nat>): (q: int)
    ensures 0 <= q
  {
    var fromLadder := LadderValue(Upper(note));
    if fromLadder == 0 && height.Some? && height.value != 0 then height.value else fromLadder
  }

  /** A codec field counts as present unless it is literally "none". */
  predicate HasCodec(codec: Option<string>) {
    codec != Some("none")
  }

  /** `get_format_type`. */
  function FormatType(f: RawFormat): (k: Kind)
    ensures k.IsVideoCapable() <==> HasCodec(f.vcodec)
    ensures (k == VideoAudio || k == Audio) <==> HasCodec(f.acodec)
  {
    var hasVideo, hasAudio := HasCodec(f.vcodec), HasCodec(f.acodec);
    if hasVideo && hasAudio then VideoAudio
    else if hasVideo then Video
    else if hasAudio then Audio
    else Unknown
  }

  predicate StartsWith(s: string, prefix: string) {
    |prefix| <= |s| && s[..|prefix|] == prefix
  }

  /** What `create_format_info` does with one descriptor: build an entry,
      return None (storyboards), or raise KeyError (no `format_id`). */
  datatype Created = Made(entry: Entry) | Skipped | MissingId

  lemma HeightLabel(h: nat)
    ensures Upper(Digits(h) + "p") == Digits(h) + "P"
  {
    var s := Digits(h) + "p";
    assert forall i :: 0 <= i < |Digits(h)| ==> s[i] == Digits(h)[i];
  }

  lemma NoteLabel(f: RawFormat)
    ensures HasHeight(f) ==> Upper(Digits(f.height.value) + "p") == Digits(f.height.value) + "P"
    ensures HasHeight(f) ==> Digits(f.height.value) + "p" != "unknown"
  {
    if HasHeight(f) {
      var n := Digits(f.height.value) + "p";
      HeightLabel(f.height.value);
      assert n[|n| - 1] == 'p';
    }
  }

  /** `create_format_info`. A descriptor without `format_id` raises; one whose
      id starts with "sb" is a storyboard and dropped. Otherwise the label is
      the upper-cased note, else `"<height>P"`, else "N/A", and the codec
      flags are recorded beside the type. */
  function CreateFormatInfo(f: RawFormat): (r: Created)
    ensures r.MissingId? <==> f.formatId.None?
    ensures r.Skipped? <==> f.formatId.Some? && StartsWith(f.formatId.value, "sb")
    ensures r.Made? ==> r.entry.streams.Some?
  {
    var note := Note(f);
    if StartsWith(f.formatId.GetOr(""), "sb") then Skipped
    else if f.formatId.None? then MissingId
    else
      Made(Entry(
        f.formatId.value,
        f.ext.GetOr("mp4"),
        if note != "unknown" then Upper(note) else "N/A",
        FilesizeLabel(f.filesize),
        FormatType(f),
        QualityValue(note, f.height),
        Some(Streams(HasCodec(f.acodec), HasCodec(f.vcodec)))))
  }

  /** The fields of the record `create_format_info` builds: the id, the
      extension defaulting to mp4, the type, the size label, the two stream
      flags, the quality of the note, and a resolution label that is the upper-cased note, or the
      height label when the note is absent or "unknown". */
  lemma CreateFormatInfoShape(f: RawFormat)
    requires CreateFormatInfo(f).Made?
    ensures var e := CreateFormatInfo(f).entry;
            && e.formatId == f.formatId.value
            && e.ext == f.ext.GetOr("mp4")
            && e.kind == FormatType(f)
            && e.filesize == FilesizeLabel(f.filesize)
            && e.streams == Some(Streams(HasCodec(f.acodec), HasCodec(f.vcodec)))
            && NoLowerAscii(e.resolution)
            && e.quality == QualityValue(Note(f), f.height)
    ensures f.formatNote.Some? && f.formatNote.value != "unknown" ==>
              CreateFormatInfo(f).entry.resolution == Upper(f.formatNote.value)
    ensures f.formatNote.None? || f.formatNote.value == "unknown" ==>
              CreateFormatInfo(f).entry.resolution ==
                (if HasHeight(f) then Digits(f.height.value) + "P" else "N/A")
  {
    NoteLabel(f);
  }

  /** `format_info.get('abr', 0)`: the record `create_format_info` builds has
      no 'abr' key, so the lookup always yields its default. */
  const AbrLookup := 0

  /** `is_valid_format`, on a record built by `create_format_info`. */
  predicate IsValidFormat(e: Entry)
    requires e.streams.Some?
  {
    if !e.streams.value.hasVideo && !e.streams.value.hasAudio then false
    else if e.kind == Audio && AbrLookup < 50 then false
    else true
  }

  /** The filter keeps exactly the video-capable entries: the "unknown" ones
      for lack of any stream, and every audio-only one because the bitrate
      it tests is never copied into the record. */
  lemma ValidIffVideoCapable(f: RawFormat)
    requires CreateFormatInfo(f).Made?
    ensures IsValidFormat(CreateFormatInfo(f).entry) <==> CreateFormatInfo(f).entry.kind.IsVideoCapable()
    ensures CreateFormatInfo(f).entry.kind == Audio ==> !IsValidFormat(CreateFormatInfo(f).entry)
  {
    CreateFormatInfoShape(f);
  }

  /** A height-only descriptor (no note, or the note "unknown") is labelled
      and ranked by its height. */
  lemma HeightOnlyQuality(f: RawFormat)
    requires CreateFormatInfo(f).Made?
    requires f.formatNote.None? || f.formatNote == Some("unknown")
    requires HasHeight(f)
    ensures CreateFormatInfo(f).entry.resolution == Digits(f.height.value) + "P"
    ensures CreateFormatInfo(f).entry.quality == f.height.value
  {
    var h := f.height.value;
    CreateFormatInfoShape(f);
    HeightLabel(h);
    LadderAtHeight(h);
  }

  /** Two heights with the same `"<height>P"` label are equal. */
  lemma SameHeight(h: nat, n: nat)
    requires Digits(h) + "P" == Digits(n) + "P"
    ensures h == n
  {
    var a, b := Digits(h) + "P", Digits(n) + "P";
    assert a[..|a| - 1] == Digits(h) && b[..|b| - 1] == Digits(n);
    DigitsRoundTrip(h);
    DigitsRoundTrip(n);
  }

  /** The labels of the ladder's heights, in three groups. */
  lemma LowLabels()
    ensures Digits(144) + "P" == "144P"
    ensures Digits(240) + "P" == "240P"
    ensures Digits(360) + "P" == "360P"
  {
  }

  lemma MiddleLabels()
    ensures Digits(480) + "P" == "480P"
    ensures Digits(720) + "P" == "720P"
    ensures Digits(1080) + "P" == "1080P"
  {
  }

  lemma HighLabels()
    ensures Digits(1440) + "P" == "1440P"
    ensures Digits(2160) + "P" == "2160P"
    ensures Digits(4320) + "P" == "4320P"
  {
  }

  lemma OtherHeight(h: nat, n: nat)
    requires h != n
    ensures Digits(h) + "P" != Digits(n) + "P"
  {
    if Digits(h) + "P" == Digits(n) + "P" {
      SameHeight(h, n);
    }
  }

  /** The heights the ladder names. */
  const LadderHeights: set<nat> := {144, 240, 360, 480, 720, 1080, 1440, 2160, 4320}

  /** The ladder's labels. */
  lemma LadderKeys(k: string)
    ensures k in Ladder <==> k in {"144P", "240P", "360P", "480P", "720P", "1080P", "1440P", "2160P", "4320P", "BEST", "N/A"}
  {
  }

  lemma LadderOffHeights(h: nat)
    requires h !in LadderHeights
    ensures Digits(h) + "P" !in Ladder
  {
    var k := Digits(h) + "P";
    LadderKeys(k);
    LowLabels();
    MiddleLabels();
    HighLabels();
    OtherHeight(h, 144);
    OtherHeight(h, 240);
    OtherHeight(h, 360);
    OtherHeight(h, 480);
    OtherHeight(h, 720);
    OtherHeight(h, 1080);
    OtherHeight(h, 1440);
    OtherHeight(h, 2160);
    OtherHeight(h, 4320);
    assert k[|k| - 1] == 'P';
  }

  lemma LadderEntries()
    ensures "144P" in Ladder && Ladder["144P"] == 144
    ensures "240P" in Ladder && Ladder["240P"] == 240
    ensures "360P" in Ladder && Ladder["360P"] == 360
    ensures "480P" in Ladder && Ladder["480P"] == 480
    ensures "720P" in Ladder && Ladder["720P"] == 720
    ensures "1080P" in Ladder && Ladder["1080P"] == 1080
    ensures "1440P" in Ladder && Ladder["1440P"] == 1440
    ensures "2160P" in Ladder && Ladder["2160P"] == 2160
    ensures "4320P" in Ladder && Ladder["4320P"] == 4320
  {
  }

  lemma LowRungs(h: nat)
    requires h == 144 || h == 240 || h == 360
    ensures Digits(h) + "P" in Ladder && Ladder[Digits(h) + "P"] == h
  {
    var k := Digits(h) + "P";
    LadderEntries();
    if h == 144 {
      assert k == "144P" by { LowLabels(); }
    } else if h == 240 {
      assert k == "240P" by { LowLabels(); }
    } else {
      assert k == "360P" by { LowLabels(); }
    }
  }

  lemma MiddleRungs(h: nat)
    requires h == 480 || h == 720 || h == 1080
    ensures Digits(h) + "P" in Ladder && Ladder[Digits(h) + "P"] == h
  {
    var k := Digits(h) + "P";
    LadderEntries();
    if h == 480 {
      assert k == "480P" by { MiddleLabels(); }
    } else if h == 720 {
      assert k == "720P" by { MiddleLabels(); }
    } else {
      assert k == "1080P" by { MiddleLabels(); }
    }
  }

  lemma HighRungs(h: nat)
    requires h == 1440 || h == 2160 || h == 4320
    ensures Digits(h) + "P" in Ladder && Ladder[Digits(h) + "P"] == h
  {
    var k := Digits(h) + "P";
    LadderEntries();
    if h == 1440 {
      assert k == "1440P" by { HighLabels(); }
    } else if h == 2160 {
      assert k == "2160P" by { HighLabels(); }
    } else {
      assert k == "4320P" by { HighLabels(); }
    }
  }

  /** A `"<height>P"` label is worth that height when the ladder names it,
      and is off the ladder otherwise. */
  lemma LadderAtHeight(h: nat)
    ensures LadderValue(Digits(h) + "P") == (if h in LadderHeights then h else 0)
  {
    if h in {144, 240, 360} {
      LowRungs(h);
    } else if h in {480, 720, 1080} {
      MiddleRungs(h);
    } else if h in LadderHeights {
      HighRungs(h);
    } else {
      LadderOffHeights(h);
    }
  }

  /** A label that is on the ladder with a non-zero value is ranked by the
      ladder whatever the height; any other label (off the ladder, such as
      "1080P60" or "MEDIUM", or worth 0, such as "N/A") falls back to the
      height when there is one, and to 0 otherwise. */
  lemma QualityFallback(note: string, height: Option<nat>)
    ensures LadderValue(Upper(note)) != 0 ==> QualityValue(note, height) == LadderValue(Upper(note))
    ensures LadderValue(Upper(note)) == 0 ==>
              QualityValue(note, height) == (if height.Some? && height.value != 0 then height.value else 0)
    ensures Upper(note) == "N/A" || Upper(note) == "UNKNOWN" ==>
              QualityValue(note, height) == (if height.Some? then height.value else 0)
  {
  }

  // ---------------------------------------------------------------------
  // Combined entries

  predicate IsHdVideo(e: Entry) {
    e.kind == Video && e.quality >= 720
  }

  /** `[f for f in formats if f['type'] == 'video' and f['quality'] >= 720]`. */
  function HdVideos(s: seq<Entry>): (r: seq<Entry>)
    ensures forall e :: e in r <==> e in s && IsHdVideo(e)
    ensures |r| <= |s|
  {
    if s == [] then []
    else (if IsHdVideo(s[0]) then [s[0]] else []) + HdVideos(s[1..])
  }

  lemma {:induction false} HdVideosAppend(a: seq<Entry>, b: seq<Entry>)
    ensures HdVideos(a + b) == HdVideos(a) + HdVideos(b)
  {
    if a == [] {
      assert a + b == b;
    } else {
      assert (a + b)[0] == a[0] && (a + b)[1..] == a[1..] + b;
      HdVideosAppend(a[1..], b);
    }
  }

  /** The entry synthesized for one video-only format. */
  function CombineWith(v: Entry): Entry {
    Entry(v.formatId + "+bestaudio", "mp4", v.resolution + " (+AUDIO)",
          Literal("Unknown"), VideoAudio, v.quality + 1000, None)
  }

  function Min(a: int, b: int): int { if a < b then a else b }

  /** The entries `create_combined_formats` returns. */
  function Combined(s: seq<Entry>): (r: seq<Entry>)
    ensures |r| == Min(3, |HdVideos(s)|)
    ensures forall i :: 0 <= i < |r| ==> r[i] == CombineWith(HdVideos(s)[i])
  {
    var top := HdVideos(s)[..Min(3, |HdVideos(s)|)];
    seq(|top|, i requires 0 <= i < |top| => CombineWith(top[i]))
  }

  /** At most three combined entries; each is a video+audio pairing of a
      video-only entry of at least 720, with the quality raised by 1000. */
  lemma CombinedShape(s: seq<Entry>)
    ensures |Combined(s)| <= 3
    ensures forall c :: c in Combined(s) ==>
              && c.kind == VideoAudio && c.quality >= 1720 && c.filesize == Literal("Unknown")
              && exists v :: v in s && IsHdVideo(v) && c == CombineWith(v)
  {
    var r, hd := Combined(s), HdVideos(s);
    forall c | c in r
      ensures c.kind == VideoAudio && c.quality >= 1720
      ensures exists v :: v in s && IsHdVideo(v) && c == CombineWith(v)
    {
      var i :| 0 <= i < |r| && r[i] == c;
      assert hd[i] in hd;
    }
  }

  /** The pairings come from the first three qualifying entries in input
      order: once three have been seen, later entries, however good, change
      nothing. */
  lemma CombinedIgnoresLater(p: seq<Entry>, q: seq<Entry>)
    requires |HdVideos(p)| >= 3
    ensures Combined(p + q) == Combined(p)
  {
    HdVideosAppend(p, q);
    var a, b := Combined(p + q), Combined(p);
    assert |a| == 3 == |b|;
    forall i | 0 <= i < 3 ensures a[i] == b[i] {
      assert HdVideos(p + q)[i] == HdVideos(p)[i];
    }
  }

  /** `create_combined_formats`, with its loop over `video_formats[:3]`. The
      list of audio-only formats the function also builds is never used and
      is not modelled. */
  method CreateCombinedFormats(formats: seq<Entry>) returns (combined: seq<Entry>)
    ensures combined == Combined(formats)
    ensures |combined| <= 3
  {
    combined := [];
    var videoFormats := HdVideos(formats);
    var top := videoFormats[..Min(3, |videoFormats|)];
    for i := 0 to |top|
      invariant |combined| == i
      invariant forall j :: 0 <= j < i ==> combined[j] == CombineWith(videoFormats[j])
    {
      assert top[i] in videoFormats;
      if top[i].quality >= 720 {
        combined := combined + [CombineWith(top[i])];
      }
    }
  }

  // ---------------------------------------------------------------------
  // The whole reconciliation

  /** One turn of the first loop of `extract_formats`: a descriptor without
      an id raises, a storyboard or an invalid entry is passed over, a valid
      entry is appended. */
  function KeptStep(prev: Option<seq<Entry>>, f: RawFormat): Option<seq<Entry>> {
    match prev
    case None => None
    case Some(kept) =>
      match CreateFormatInfo(f)
      case MissingId => None
      case Skipped => Some(kept)
      case Made(e) => Some(if IsValidFormat(e) then kept + [e] else kept)
  }

  /** The entries the first loop of `extract_formats` keeps from the raw
      list, or None when a descriptor raised. */
  function Kept(raws: seq<RawFormat>): Option<seq<Entry>> {
    if raws == [] then Some([])
    else KeptStep(Kept(raws[..|raws| - 1]), raws[|raws| - 1])
  }

  lemma KeptPrefix(raws: seq<RawFormat>, i: nat)
    requires i < |raws|
    ensures Kept(raws[..i + 1]) == KeptStep(Kept(raws[..i]), raws[i])
  {
    assert raws[..i + 1][..i] == raws[..i];
  }

  /** The list that goes into de-duplication. */
  function Candidates(kept: seq<Entry>): seq<Entry> {
    kept + Combined(kept) + [AudioSentinel, BestSentinel]
  }

  /** What `extract_formats(info)` returns when given `info.get('formats')`;
      None when it raises. */
  function CatalogOf(formats: Option<seq<RawFormat>>): Option<seq<Entry>> {
    match Kept(formats.GetOr([]))
    case None => None
    case Some(kept) => Some(SortDesc(Dedup(Candidates(kept))))
  }

  /** `extract_formats`: the loop over the raw descriptors, the combined
      entries, the two sentinels, then de-duplication and ranking. */
  method ExtractFormats(formats: Option<seq<RawFormat>>) returns (r: Option<seq<Entry>>)
    ensures r == CatalogOf(formats)
  {
    var raws := formats.GetOr([]);
    var kept: seq<Entry> := [];
    for i := 0 to |raws|
      invariant Kept(raws[..i]) == Some(kept)
    {
      KeptPrefix(raws, i);
      var info := CreateFormatInfo(raws[i]);
      if info.MissingId? {
        KeptFailurePersists(raws, i + 1);
        return None;
      }
      if info.Made? && IsValidFormat(info.entry) {
        kept := kept + [info.entry];
      }
    }
    assert raws[..|raws|] == raws;
    var catalog := Reconcile(kept);
    return Some(catalog);
  }

  /** The part of `extract_formats` after the loop. */
  method Reconcile(kept: seq<Entry>) returns (catalog: seq<Entry>)
    ensures catalog == SortDesc(Dedup(Candidates(kept)))
  {
    var combined := CreateCombinedFormats(kept);
    var all := kept + combined;
    all := all + [AudioSentinel];
    all := all + [BestSentinel];
    assert all == Candidates(kept);
    catalog := DeduplicateAndSort(all);
  }

  lemma {:induction false} KeptFailurePersists(raws: seq<RawFormat>, n: nat)
    requires n <= |raws| && Kept(raws[..n]) == None
    ensures Kept(raws) == None
    decreases |raws| - n
  {
    if n < |raws| {
      KeptPrefix(raws, n);
      KeptFailurePersists(raws, n + 1);
    } else {
      assert raws[..n] == raws;
    }
  }

  /** `extract_formats` raises exactly when some descriptor has no id. */
  lemma {:induction false} KeptFailsIff(raws: seq<RawFormat>)
    ensures Kept(raws).None? <==> exists i :: 0 <= i < |raws| && raws[i].formatId.None?
  {
    if raws != [] {
      var p, x := raws[..|raws| - 1], raws[|raws| - 1];
      KeptFailsIff(p);
      assert forall i :: 0 <= i < |p| ==> p[i] == raws[i];
      assert Kept(raws) == KeptStep(Kept(p), x);
      if (exists i :: 0 <= i < |raws| && raws[i].formatId.None?) && Kept(p).Some? {
        var i :| 0 <= i < |raws| && raws[i].formatId.None?;
        assert i == |p|;
      }
    }
  }

  /** `e` is the entry `create_format_info` builds from some descriptor. */
  predicate BuiltFrom(raws: seq<RawFormat>, e: Entry) {
    exists i :: 0 <= i < |raws| && CreateFormatInfo(raws[i]) == Made(e)
  }

  /** One loop turn that does not raise keeps what was kept before and adds
      the new entry exactly when it is video-capable. */
  lemma KeptStepShape(kept: seq<Entry>, f: RawFormat)
    requires KeptStep(Some(kept), f).Some?
    ensures var now := KeptStep(Some(kept), f).value;
            if CreateFormatInfo(f).Made? && CreateFormatInfo(f).entry.kind.IsVideoCapable()
            then now == kept + [CreateFormatInfo(f).entry]
            else now == kept
  {
    if CreateFormatInfo(f).Made? {
      ValidIffVideoCapable(f);
    }
  }

  /** Everything the first loop keeps is a video-capable entry built from one
      of the descriptors. */
  lemma {:induction false} KeptSound(raws: seq<RawFormat>)
    requires Kept(raws).Some?
    ensures forall e :: e in Kept(raws).value ==>
              e.kind.IsVideoCapable() && NoLowerAscii(e.resolution) && BuiltFrom(raws, e)
  {
    if raws != [] {
      var p, x := raws[..|raws| - 1], raws[|raws| - 1];
      assert Kept(raws) == KeptStep(Kept(p), x);
      assert Kept(p).Some?;
      KeptSound(p);
      var prev := Kept(p).value;
      KeptStepShape(prev, x);
      forall e | e in Kept(raws).value
        ensures e.kind.IsVideoCapable() && NoLowerAscii(e.resolution) && BuiltFrom(raws, e)
      {
        if e in prev {
          var i :| 0 <= i < |p| && CreateFormatInfo(p[i]) == Made(e);
          assert raws[i] == p[i];
        } else {
          assert CreateFormatInfo(raws[|p|]) == Made(e);
          CreateFormatInfoShape(x);
        }
      }
    }
  }

  /** The last loop turn, when nothing raised: everything kept before it is
      still kept, and so is its entry when it is video-capable. */
  lemma KeptLast(raws: seq<RawFormat>)
    requires raws != [] && Kept(raws).Some?
    ensures var p, x := raws[..|raws| - 1], raws[|raws| - 1];
            && Kept(p).Some?
            && (forall e :: e in Kept(p).value ==> e in Kept(raws).value)
            && (CreateFormatInfo(x).Made? && CreateFormatInfo(x).entry.kind.IsVideoCapable() ==>
                  CreateFormatInfo(x).entry in Kept(raws).value)
  {
    var p, x := raws[..|raws| - 1], raws[|raws| - 1];
    assert Kept(raws) == KeptStep(Kept(p), x);
    KeptStepShape(Kept(p).value, x);
  }

  /** Every video-capable entry built from a descriptor is kept. */
  lemma {:induction false} KeptComplete(raws: seq<RawFormat>, i: nat)
    requires Kept(raws).Some?
    requires i < |raws| && CreateFormatInfo(raws[i]).Made?
    requires CreateFormatInfo(raws[i]).entry.kind.IsVideoCapable()
    ensures CreateFormatInfo(raws[i]).entry in Kept(raws).value
    decreases |raws|, 1
  {
    if i < |raws| - 1 {
      KeptCompleteBefore(raws, i);
    } else {
      KeptLast(raws);
    }
  }

  /** The induction step of `KeptComplete`, for a descriptor before the last. */
  lemma {:induction false} KeptCompleteBefore(raws: seq<RawFormat>, i: nat)
    requires Kept(raws).Some?
    requires i < |raws| - 1 && CreateFormatInfo(raws[i]).Made?
    requires CreateFormatInfo(raws[i]).entry.kind.IsVideoCapable()
    ensures CreateFormatInfo(raws[i]).entry in Kept(raws).value
    decreases |raws|, 0
  {
    var p := raws[..|raws| - 1];
    KeptLast(raws);
    assert raws[i] == p[i];
    KeptComplete(p, i);
  }

  /** Only the sentinels can be other than video-capable, and no label before
      the sentinels contains a lower-case letter. */
  lemma CandidatesShape(kept: seq<Entry>)
    requires forall e :: e in kept ==> e.kind.IsVideoCapable() && NoLowerAscii(e.resolution)
    ensures forall i :: 0 <= i < |Candidates(kept)| - 2 ==>
              Candidates(kept)[i].kind.IsVideoCapable() && NoLowerAscii(Candidates(kept)[i].resolution)
  {
    var c, comb := Candidates(kept), Combined(kept);
    var hd := HdVideos(kept);
    forall i | 0 <= i < |c| - 2
      ensures c[i].kind.IsVideoCapable() && NoLowerAscii(c[i].resolution)
    {
      if i < |kept| {
        assert c[i] == kept[i] && c[i] in kept;
      } else {
        var j := i - |kept|;
        assert c[i] == comb[j] == CombineWith(hd[j]);
        assert hd[j] in kept;
        var res := hd[j].resolution + " (+AUDIO)";
        assert forall m :: 0 <= m < |hd[j].resolution| ==> res[m] == hd[j].resolution[m];
      }
    }
  }

  /** The sentinels' labels contain lower-case letters, so no upper-cased raw
      or combined label can take their place in de-duplication. */
  lemma SentinelsUnique(kept: seq<Entry>)
    requires forall i :: 0 <= i < |Candidates(kept)| - 2 ==> NoLowerAscii(Candidates(kept)[i].resolution)
    ensures var c := Candidates(kept);
            && c[|c| - 2] == AudioSentinel && c[|c| - 1] == BestSentinel
            && (forall j :: 0 <= j < |c| && j != |c| - 2 ==> KeyOf(c[j]) != KeyOf(AudioSentinel))
            && (forall j :: 0 <= j < |c| && j != |c| - 1 ==> KeyOf(c[j]) != KeyOf(BestSentinel))
  {
    var c := Candidates(kept);
    assert IsLowerAscii(AudioSentinel.resolution[6]);
    assert IsLowerAscii(BestSentinel.resolution[7]);
  }

  /** The reconciliation keeps both sentinels, and everything else it keeps
      is video-capable, when the kept entries are. */
  lemma ReconciledMembers(kept: seq<Entry>)
    requires forall e :: e in kept ==> e.kind.IsVideoCapable() && NoLowerAscii(e.resolution)
    ensures var d := Dedup(Candidates(kept));
            && AudioSentinel in d && BestSentinel in d
            && forall e :: e in d && e != AudioSentinel ==> e.kind.IsVideoCapable()
  {
    var all := Candidates(kept);
    CandidatesShape(kept);
    assert AudioSentinel in Dedup(all) && BestSentinel in Dedup(all) by {
      SentinelsUnique(kept);
      DedupKeepsUnique(all, |all| - 2);
      DedupKeepsUnique(all, |all| - 1);
    }
    DedupKeys(all);
    forall e | e in Dedup(all) && e != AudioSentinel ensures e.kind.IsVideoCapable() {
      var j :| 0 <= j < |all| && all[j] == e;
    }
  }

  /** Both sentinels are in every catalog, and every other entry of it is
      video-capable. */
  lemma CatalogMembers(formats: Option<seq<RawFormat>>)
    requires CatalogOf(formats).Some?
    ensures var c := CatalogOf(formats).value;
            && AudioSentinel in c && BestSentinel in c
            && forall e :: e in c && e != AudioSentinel ==> e.kind.IsVideoCapable()
  {
    var raws := formats.GetOr([]);
    KeptSound(raws);
    var kept := Kept(raws).value;
    ReconciledMembers(kept);
    SortMembers(Dedup(Candidates(kept)));
  }

  /** The catalog `extract_formats` returns has pairwise distinct
      `(resolution, type, quality)` keys, is sorted in descending order of
      `(0 if 'video' in type else 1, quality)`, holds both sentinels, and
      starts with the "best audio" sentinel: it is the only entry that is not
      video-capable, and the reverse sort puts that group first. */
  lemma CatalogShape(formats: Option<seq<RawFormat>>)
    requires CatalogOf(formats).Some?
    ensures var c := CatalogOf(formats).value;
            && DistinctKeys(c) && SortedDesc(c)
            && AudioSentinel in c && BestSentinel in c
            && c[0] == AudioSentinel
            && forall i :: 0 < i < |c| ==> c[i].kind.IsVideoCapable()
  {
    var kept := Kept(formats.GetOr([])).value;
    var d := Dedup(Candidates(kept));
    DedupKeys(Candidates(kept));
    SortKeepsDistinct(d);
    var c := SortDesc(d);
    CatalogMembers(formats);
    AudioFirst(c);
  }

  /** In a descending sequence with distinct keys in which every entry but
      the "best audio" sentinel is video-capable, the sentinel comes first. */
  lemma AudioFirst(c: seq<Entry>)
    requires DistinctKeys(c) && SortedDesc(c) && AudioSentinel in c
    requires forall e :: e in c && e != AudioSentinel ==> e.kind.IsVideoCapable()
    ensures c[0] == AudioSentinel
    ensures forall i :: 0 < i < |c| ==> c[i].kind.IsVideoCapable()
  {
    var m :| 0 <= m < |c| && c[m] == AudioSentinel;
    FirstNotBelow(c, m);
    assert c[0] in c;
    forall i | 0 < i < |c| ensures c[i].kind.IsVideoCapable() {
      assert c[i] in c;
      assert KeyOf(c[0]) != KeyOf(c[i]);
    }
  }

  /** Nothing is lost but duplicates: every kept entry and every combined
      entry has its key in the catalog. */
  lemma CatalogCoversCandidates(formats: Option<seq<RawFormat>>)
    requires CatalogOf(formats).Some?
    ensures var kept := Kept(formats.GetOr([])).value;
            forall e :: e in Candidates(kept) ==> KeyOf(e) in KeySet(CatalogOf(formats).value)
  {
    var kept := Kept(formats.GetOr([])).value;
    var all := Candidates(kept);
    var d := Dedup(all);
    DedupKeys(all);
    SortMembers(d);
    assert KeySet(SortDesc(d)) == KeySet(d);
  }
}
