/**
 * `extract_links_from_text`: every leftmost, non-overlapping, greedy match of
 * `https?://[^\s'"<>]+` (a hand-written scanner in place of `re.findall`),
 * then order-preserving de-duplication.
 */
module LinkExtractor {
  import opened Wrappers
  import opened Text
  import opened Lists

  /** The class `[^\s'"<>]`. */
  predicate IsUrlChar(c: char) {
    !IsSpace(c) && c != '\'' && c != '"' && c != '<' && c != '>'
  }

  /** The word `w` occurs in `text` at position `p`. */
  predicate StartsAt(text: string, p: nat, w: string) {
    p + |w| <= |text| && text[p..p + |w|] == w
  }

  /** Length of `https?://` at `i`: 8, 7, or 0 when neither scheme starts there. */
  function SchemeLen(text: string, i: nat): (n: nat)
    requires i <= |text|
    ensures n == 0 || n == 7 || n == 8
    ensures n == 8 <==> StartsAt(text, i, "https://")
    ensures n == 7 <==> StartsAt(text, i, "http://")
  {
    if i + 8 <= |text| && text[i..i + 8] == "https://" then
      assert text[i + 4] == text[i..i + 8][4];
      assert i + 7 <= |text| ==> text[i + 4] == text[i..i + 7][4];
      8
    else if i + 7 <= |text| && text[i..i + 7] == "http://" then 7
    else 0
  }

  /** Length of the longest run of URL characters from `k` (the greedy `[^\s'"<>]*`). */
  function UrlRun(text: string, k: nat): (n: nat)
    requires k <= |text|
    ensures k + n <= |text|
    ensures forall j :: k <= j < k + n ==> IsUrlChar(text[j])
    ensures k + n == |text| || !IsUrlChar(text[k + n])
    decreases |text| - k
  {
    if k < |text| && IsUrlChar(text[k]) then 1 + UrlRun(text, k + 1) else 0
  }

  /** End of the greedy match starting at `i`, if the pattern matches there. */
  function MatchEnd(text: string, i: nat): (e: Option<nat>)
    requires i <= |text|
    ensures e.Some? ==> i < e.value <= |text|
  {
    var m := SchemeLen(text, i);
    if m > 0 && UrlRun(text, i + m) > 0 then Some(i + m + UrlRun(text, i + m)) else None
  }

  datatype Span = Span(start: nat, end: nat)

  /** The match positions `re.findall` visits from `i` on: leftmost first, resuming after each match. */
  function Spans(text: string, i: nat): (spans: seq<Span>)
    requires i <= |text|
    ensures forall k :: 0 <= k < |spans| ==>
              i <= spans[k].start < spans[k].end <= |text| && MatchEnd(text, spans[k].start) == Some(spans[k].end)
    ensures forall k :: 0 <= k < |spans| - 1 ==> spans[k].end <= spans[k + 1].start
    decreases |text| - i
  {
    if i == |text| then []
    else match MatchEnd(text, i)
      case Some(e) => [Span(i, e)] + Spans(text, e)
      case None => Spans(text, i + 1)
  }

  /** `re.findall(r'https?://[^\s\'"<>]+', text)`. */
  function FindAll(text: string): (links: seq<string>)
    ensures |links| == |Spans(text, 0)|
    ensures forall k :: 0 <= k < |links| ==>
              links[k] == text[Spans(text, 0)[k].start..Spans(text, 0)[k].end]
  {
    var sp := Spans(text, 0);
    seq(|sp|, k requires 0 <= k < |sp| => text[sp[k].start..sp[k].end])
  }

  /** No match is skipped: every position where the pattern matches lies inside some span. */
  lemma {:induction false} SpansCover(text: string, i: nat, p: nat)
    requires i <= p < |text| && MatchEnd(text, p).Some?
    ensures exists k :: 0 <= k < |Spans(text, i)| && Spans(text, i)[k].start <= p < Spans(text, i)[k].end
    decreases |text| - i
  {
    var sp := Spans(text, i);
    match MatchEnd(text, i)
    case Some(e) =>
      if p < e {
        assert sp[0] == Span(i, e);
      } else if p < |text| {
        SpansCover(text, e, p);
        var k :| 0 <= k < |Spans(text, e)| && Spans(text, e)[k].start <= p < Spans(text, e)[k].end;
        assert sp[k + 1] == Spans(text, e)[k];
      }
    case None =>
      if p > i {
        SpansCover(text, i + 1, p);
      }
  }

  /** The text of one match: a scheme, then at least one URL character, all of them URL characters. */
  lemma MatchShape(text: string, s: nat, e: nat)
    requires s <= |text| && MatchEnd(text, s) == Some(e)
    ensures var link := text[s..e];
            (|link| > 7 && link[..7] == "http://") || (|link| > 8 && link[..8] == "https://")
    ensures forall c :: c in text[s..e] ==> IsUrlChar(c)
  {
    var m := SchemeLen(text, s);
    var link := text[s..e];
    assert link[..m] == text[s..s + m];
    var scheme := text[s..s + m];
    assert forall j :: 0 <= j < m ==> IsUrlChar(scheme[j]);
    forall j | 0 <= j < |link| ensures IsUrlChar(link[j]) {
      if j < m {
        assert link[j] == scheme[j];
      } else {
        assert link[j] == text[s + j];
      }
    }
  }

  /** Each link is an `http://` or `https://` URL made of URL characters, cut from the text at its span. */
  lemma LinkShape(text: string, k: nat)
    requires k < |FindAll(text)|
    ensures var link := FindAll(text)[k];
            (|link| > 7 && link[..7] == "http://") || (|link| > 8 && link[..8] == "https://")
    ensures forall c :: c in FindAll(text)[k] ==> IsUrlChar(c)
    ensures var s := Spans(text, 0)[k]; s.start < s.end <= |text| && FindAll(text)[k] == text[s.start..s.end]
  {
    var s := Spans(text, 0)[k];
    MatchShape(text, s.start, s.end);
  }

  /** Where neither scheme occurs from `i` on, the scan finds nothing. */
  lemma {:induction false} NoSchemeNoSpans(text: string, i: nat)
    requires i <= |text|
    requires forall p :: i <= p <= |text| ==> SchemeLen(text, p) == 0
    ensures Spans(text, i) == []
    decreases |text| - i
  {
    if i < |text| {
      NoSchemeNoSpans(text, i + 1);
    }
  }

  /** A text in which neither `http://` nor `https://` occurs has no links. */
  lemma NoSchemeNoLinks(text: string)
    requires forall p: nat :: !StartsAt(text, p, "http://") && !StartsAt(text, p, "https://")
    ensures FindAll(text) == []
  {
    NoSchemeNoSpans(text, 0);
  }

  /** The order-preserving de-duplication, element by element from the left. */
  function Dedup<T(==)>(xs: seq<T>): seq<T> {
    if xs == [] then []
    else
      var d := Dedup(xs[..|xs| - 1]);
      if xs[|xs| - 1] in d then d else d + [xs[|xs| - 1]]
  }

  /** De-duplication keeps each element once, loses none, and orders them by first occurrence. */
  lemma {:induction false} DedupSpec<T>(xs: seq<T>)
    ensures NoDuplicates(Dedup(xs))
    ensures forall x :: x in Dedup(xs) <==> x in xs
    ensures forall i, j :: 0 <= i < j < |Dedup(xs)| ==> IndexOf(xs, Dedup(xs)[i]) < IndexOf(xs, Dedup(xs)[j])
  {
    if xs != [] {
      var init := xs[..|xs| - 1];
      var last := xs[|xs| - 1];
      DedupSpec(init);
      assert xs == init + [last];
      var d := Dedup(init);
      forall y | y in init ensures IndexOf(xs, y) == IndexOf(init, y) {
        IndexOfPrefix(init, [last], y);
      }
      if last !in d {
        assert last !in init;
        assert IndexOf(xs, last) == |init|;
      }
    }
  }

  method ExtractLinksFromText(text: string) returns (out: seq<string>)
    ensures out == Dedup(FindAll(text))
    ensures NoDuplicates(out)
    ensures forall u :: u in out <==> u in FindAll(text)
  {
    var urls := FindAll(text);
    var seen: set<string> := {};
    out := [];
    for k := 0 to |urls|
      invariant out == Dedup(urls[..k])
      invariant forall u :: u in seen <==> u in out
    {
      assert urls[..k + 1][..k] == urls[..k];
      var u := urls[k];
      if u !in seen {
        seen := seen + {u};
        out := out + [u];
      }
    }
    assert urls[..|urls|] == urls;
    DedupSpec(urls);
  }
}
