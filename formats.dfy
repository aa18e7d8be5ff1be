/** The two shapes a media format takes in the downloader: the raw descriptor
    handed over by the extraction library, and the catalog entry shown to the
    user. Also the two keys the catalog is reconciled by. */
module Formats {
  import opened Base

  /** One element of `info['formats']`. Every field is a dictionary key that
      may be absent (`None` here); a key present with a JSON null is not
      distinguished from an absent one. */
  datatype RawFormat = RawFormat(
    formatId: Option<string>,
    formatNote: Option<string>,
    height: Option<nat>,
    ext: Option<string>,
    filesize: Option<int>,
    vcodec: Option<string>,
    acodec: Option<string>)

  /** The `type` field of a catalog entry. */
  datatype Kind = VideoAudio | Video | Audio | Unknown {
    /** The string the program stores. */
    function Name(): string {
      match this
      case VideoAudio => "video+audio"
      case Video => "video"
      case Audio => "audio"
      case Unknown => "unknown"
    }

    /** `'video' in type`, the test the catalog ordering uses. */
    predicate IsVideoCapable() {
      VideoAudio? || Video?
    }
  }

  /** The `has_audio` / `has_video` flags: present only on entries built from a
      raw descriptor, absent from combined entries and sentinels. */
  datatype Streams = Streams(hasAudio: bool, hasVideo: bool)

  /** One catalog entry (the dictionaries the program builds). */
  datatype Entry = Entry(
    formatId: string,
    ext: string,
    resolution: string,
    filesize: Label,
    kind: Kind,
    quality: int,
    streams: Option<Streams>)

  /** The de-duplication key `(resolution, type, quality)`. */
  datatype DedupKey = DedupKey(resolution: string, kind: Kind, quality: int)

  function KeyOf(e: Entry): DedupKey {
    DedupKey(e.resolution, e.kind, e.quality)
  }

  /** First component of the sort key: `0 if 'video' in type else 1`. */
  function Group(e: Entry): int {
    if e.kind.IsVideoCapable() then 0 else 1
  }

  /** The sort key of `a` is strictly smaller than that of `b`, in Python's
      lexicographic order on the tuple `(Group, quality)`. */
  predicate KeyBelow(a: Entry, b: Entry) {
    Group(a) < Group(b) || (Group(a) == Group(b) && a.quality < b.quality)
  }

  /** The entry appended for "best audio, converted to MP3". */
  const AudioSentinel := Entry("bestaudio/best", "mp3", "MP3 (Best Quality)",
                               Literal("Unknown"), Audio, 1, None)

  /** The entry appended for "let the extractor pick the best". */
  const BestSentinel := Entry("best", "mp4", "BEST (Auto Select)",
                              Literal("Unknown"), VideoAudio, 10000, None)
}
