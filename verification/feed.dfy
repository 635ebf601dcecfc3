/** Feed entries as the filter sees them, and the two fixed source lists. */
module Feed {
  import opened Text

  /** One feed entry: `title`, `summary`, `link`, and the title of its source
      (the empty string when the entry names no source title). */
  datatype Entry = Entry(title: string, summary: string, link: string, sourceTitle: string)

  /** Substrings that drop an entry when found in its source name or link. */
  const ExcludeSources: seq<string> := ["joongang", "chosun", "yonhap", "hani", "donga", "kbs", "seoul economy"]

  /** Markers of the outlets ranked first. */
  const MajorSources: seq<string> := ["nhk", "yahoo", "nikkei", "asahi", "yomiuri"]

  /** How many entries the digest keeps. */
  const MaxNews: nat := 10

  /** Ranks used by the sort: 0 for a major outlet, 1 otherwise. */
  type Priority = p: nat | p <= 1

  /** An accepted entry together with its rank. */
  datatype Ranked = Ranked(entry: Entry, priority: Priority)

  function SourceName(e: Entry): string {
    Lower(e.sourceTitle)
  }

  /** The lowercased link: the key under which duplicates are detected. */
  function LinkKey(e: Entry): string {
    Lower(e.link)
  }

  /** Some member of `markers` occurs in one of `texts`. */
  predicate AnyIn(markers: seq<string>, texts: seq<string>)
    decreases |markers|
  {
    markers != [] &&
    ((exists t :: t in texts && Contains(t, markers[0])) || AnyIn(markers[1..], texts))
  }

  lemma {:induction false} AnyInIff(markers: seq<string>, texts: seq<string>)
    ensures AnyIn(markers, texts) <==> exists m, t :: m in markers && t in texts && Contains(t, m)
    decreases |markers|
  {
    if markers != [] {
      AnyInIff(markers[1..], texts);
      if exists m, t :: m in markers && t in texts && Contains(t, m) {
        var m, t :| m in markers && t in texts && Contains(t, m);
        if m != markers[0] {
          assert m in markers[1..];
        }
      }
    }
  }

  /** `any(ex in source_name or ex in link for ex in EXCLUDE_SOURCES)`. */
  predicate Excluded(e: Entry) {
    AnyIn(ExcludeSources, [SourceName(e), LinkKey(e)])
  }

  /** `any(m in source_name for m in [...])` over the major outlets. */
  predicate IsMajor(e: Entry) {
    AnyIn(MajorSources, [SourceName(e)])
  }

  /** The two tests, as the script states them. */
  lemma ExcludedIff(e: Entry)
    ensures Excluded(e) <==>
      exists ex :: ex in ExcludeSources && (Contains(SourceName(e), ex) || Contains(LinkKey(e), ex))
    ensures IsMajor(e) <==> exists m :: m in MajorSources && Contains(SourceName(e), m)
  {
    AnyInIff(ExcludeSources, [SourceName(e), LinkKey(e)]);
    AnyInIff(MajorSources, [SourceName(e)]);
  }

  /** The rank: 0 exactly when one of the major-outlet markers occurs in the
      lowercased source name. */
  function PriorityOf(e: Entry): (p: Priority)
    ensures p == 0 <==> exists m :: m in MajorSources && Contains(SourceName(e), m)
  {
    ExcludedIff(e);
    if IsMajor(e) then 0 else 1
  }

  /** An entry from a source whose name contains "Yonhap", in any letter
      case, is dropped, whatever its link. */
  lemma YonhapExcluded(title: string, summary: string, link: string, source: string)
    requires Contains(Lower(source), "yonhap")
    ensures Excluded(Entry(title, summary, link, source))
  {
    ExcludedIff(Entry(title, summary, link, source));
    assert ExcludeSources[2] == "yonhap";
  }

  /** The source "Yonhap News" is one such name. */
  lemma YonhapNewsExcluded(title: string, summary: string, link: string)
    ensures Excluded(Entry(title, summary, link, "Yonhap News"))
  {
    assert Lower("Yonhap News")[..6] == "yonhap";
    YonhapExcluded(title, summary, link, "Yonhap News");
  }
}
