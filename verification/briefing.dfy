/** What `main` does with the selected entries before formatting them:
    stop when there are none, otherwise translate each title and each
    cleaned, shortened summary. */
module Briefing {
  import opened Wrappers
  import opened Html
  import opened Feed
  import opened Fetch

  /** A summary is cut to this many characters before translation. */
  const SummaryLimit: nat := 150

  /** The language every text is translated into. */
  const TargetLang: string := "KO"

  /** The translation service, seen from outside: given the credential, the
      text and the target language, it returns a translation or raises. */
  type Backend = (string, string, string) -> Result<string, string>

  /** A credential is configured: present and not empty. */
  predicate HasKey(key: Option<string>) {
    key.Some? && key.value != ""
  }

  /** `translate_text(text)`. */
  function TranslateText(text: string, key: Option<string>, backend: Backend): (r: string)
    ensures text == "" || !HasKey(key) ==> r == text
    ensures HasKey(key) && backend(key.value, text, TargetLang).Failure? ==> r == text
    ensures HasKey(key) && text != "" && backend(key.value, text, TargetLang).Success? ==>
      r == backend(key.value, text, TargetLang).value
    ensures r == text || (HasKey(key) && text != "" && backend(key.value, text, TargetLang) == Success(r))
  {
    if text == "" || !HasKey(key) then text
    else
      match backend(key.value, text, TargetLang)
      case Success(translated) => translated
      case Failure(_) => text
  }

  /** `clean_html(entry.summary)[:150]`: at most 150 characters, taken from
      the front of the cleaned summary. */
  function Summary(summaryHtml: string): (r: string)
    ensures |r| <= SummaryLimit
    ensures r <= CleanHtml(summaryHtml)
    ensures |r| == Min(SummaryLimit, |CleanHtml(summaryHtml)|)
  {
    var text := CleanHtml(summaryHtml);
    if |text| <= SummaryLimit then text else text[..SummaryLimit]
  }

  /** The translated parts of one digest block, and the original link. */
  datatype Item = Item(title: string, summary: string, link: string)

  function PrepareItem(e: Entry, key: Option<string>, backend: Backend): Item {
    Item(TranslateText(e.title, key, backend), TranslateText(Summary(e.summary), key, backend), e.link)
  }

  /** A title the service fails on is sent as it is; the summary handed to
      the service never exceeds 150 characters, and with no credential the
      cleaned, shortened summary is sent as it is. */
  lemma PrepareItemFallback(e: Entry, key: Option<string>, backend: Backend)
    ensures HasKey(key) && backend(key.value, e.title, TargetLang).Failure? ==>
      PrepareItem(e, key, backend).title == e.title
    ensures !HasKey(key) ==>
      PrepareItem(e, key, backend) == Item(e.title, Summary(e.summary), e.link)
    ensures !HasKey(key) ==> |PrepareItem(e, key, backend).summary| <= SummaryLimit
  {
  }

  /** The loop of `main` over the selected entries, one block per entry. */
  method PrepareItems(news: seq<Entry>, key: Option<string>, backend: Backend) returns (items: seq<Item>)
    ensures |items| == |news|
    ensures forall i :: 0 <= i < |news| ==> items[i] == PrepareItem(news[i], key, backend)
  {
    items := [];
    for i := 0 to |news|
      invariant |items| == i
      invariant forall k :: 0 <= k < i ==> items[k] == PrepareItem(news[k], key, backend)
    {
      var titleKo := TranslateText(news[i].title, key, backend);
      var summaryKo := TranslateText(Summary(news[i].summary), key, backend);
      items := items + [Item(titleKo, summaryKo, news[i].link)];
    }
  }

  /** `main` up to the message text: no digest at all when nothing survives
      the filter (which happens exactly when every entry is excluded),
      otherwise one prepared block per selected entry, in order. */
  method BuildDigest(allEntries: seq<Entry>, key: Option<string>, backend: Backend)
    returns (digest: Option<seq<Item>>)
    ensures digest.None? <==> AcceptedLinks(allEntries) == {}
    ensures digest.Some? ==>
      |digest.value| == |TopNews(allEntries)| &&
      forall i :: 0 <= i < |digest.value| ==> digest.value[i] == PrepareItem(TopNews(allEntries)[i], key, backend)
  {
    var news := FetchNews(allEntries);
    TopNewsLength(allEntries);
    if news == [] {
      return None;
    }
    var items := PrepareItems(news, key, backend);
    digest := Some(items);
  }
}
