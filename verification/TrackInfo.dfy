module TrackInfo {
  /** A track_info.  date is what comments_get_date makes of the "date" comment, YYYYMMDD or -1, and
      numbers holds the comments that are integers. */
  datatype Track = Track(filename: string, comments: map<string, string>, numbers: map<string, int>, date: int,
                         duration: int)
  {
    /** A missing comment counts as an empty string. */
    function StrTag(key: string): string {
      if key in comments then comments[key] else ""
    }

    /** comments_get_int */
    function IntTag(key: string): int {
      if key in numbers then numbers[key] else -1
    }

    /** track_info_has_tag */
    predicate HasTag() {
      "artist" in comments || "album" in comments || "title" in comments
    }
  }

  predicate IsUrl(filename: string) {
    "http://" <= filename
  }
}
