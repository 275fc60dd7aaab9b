/**
 * `get_direct_url`: fetch a page and return the URL of its first
 * `window.open("...")` call, or the page URL itself on any failure.
 * The HTTP GET is an input: its outcome is a `Fetch`.
 */
module LinkResolver {
  import opened Wrappers

  /** The outcome of `requests.get(page_url, timeout=10)`. */
  datatype Fetch = Failed | Response(status: int, body: string)

  const OPEN_PREFIX: string := "window.open(\""
  const OPEN_SUFFIX: string := "\")"

  /** Declarative reading of `window\.open\("([^"]+)"\)` matching at `i` with capture `c`. */
  predicate IsMatchAt(body: string, i: nat, c: string) {
    var j := i + |OPEN_PREFIX|;
    j + |c| + |OPEN_SUFFIX| <= |body|
    && body[i..j] == OPEN_PREFIX
    && c != [] && '"' !in c
    && body[j..j + |c|] == c
    && body[j + |c|..j + |c| + |OPEN_SUFFIX|] == OPEN_SUFFIX
  }

  /** Length of the longest run of non-`"` characters starting at `k` (the greedy `[^"]*`). */
  function QuoteFreeRun(body: string, k: nat): (n: nat)
    requires k <= |body|
    ensures k + n <= |body|
    ensures forall j :: k <= j < k + n ==> body[j] != '"'
    ensures k + n == |body| || body[k + n] == '"'
    decreases |body| - k
  {
    if k < |body| && body[k] != '"' then 1 + QuoteFreeRun(body, k + 1) else 0
  }

  /** The capture of the pattern matched at `i`, if it matches there. */
  function MatchAt(body: string, i: nat): Option<string> {
    var j := i + |OPEN_PREFIX|;
    if j <= |body| && body[i..j] == OPEN_PREFIX then
      var e := j + QuoteFreeRun(body, j);
      if e > j && e + 1 < |body| && body[e + 1] == ')' then Some(body[j..e]) else None
    else None
  }

  /** The scanner and the declarative pattern agree at every position. */
  lemma MatchAtIsMatch(body: string, i: nat, c: string)
    ensures MatchAt(body, i) == Some(c) <==> IsMatchAt(body, i, c)
  {
    var j := i + |OPEN_PREFIX|;
    if IsMatchAt(body, i, c) {
      assert body[j + |c|] == OPEN_SUFFIX[0];
      assert QuoteFreeRun(body, j) == |c|;
    }
    if MatchAt(body, i) == Some(c) {
      var e := j + QuoteFreeRun(body, j);
      assert '"' !in c by {
        forall k | 0 <= k < |c| ensures c[k] != '"' {
          assert c[k] == body[j + k];
        }
      }
      assert body[j + |c|..j + |c| + 2] == [body[e], body[e + 1]];
    }
  }

  /** `re.search`: the leftmost position at or after `from` where the pattern matches. */
  function Leftmost(body: string, from: nat): (r: Option<nat>)
    ensures r.Some? ==> from <= r.value && MatchAt(body, r.value).Some?
    ensures forall k :: from <= k && (r.None? || k < r.value) ==> MatchAt(body, k).None?
    decreases |body| + 1 - from
  {
    if from > |body| then None
    else if MatchAt(body, from).Some? then Some(from)
    else Leftmost(body, from + 1)
  }

  function GetDirectUrl(pageUrl: string, fetch: Fetch): (url: string)
    ensures fetch.Failed? ==> url == pageUrl
    ensures fetch.Response? && fetch.status != 200 ==> url == pageUrl
  {
    match fetch
    case Failed => pageUrl
    case Response(status, body) =>
      if status != 200 then pageUrl
      else match Leftmost(body, 0)
        case Some(i) => MatchAt(body, i).value
        case None => pageUrl
  }

  /** A 200 page with no `window.open("...")` call leaves the URL unchanged. */
  lemma NoMatchKeepsUrl(pageUrl: string, body: string)
    requires forall i: nat, c: string :: !IsMatchAt(body, i, c)
    ensures GetDirectUrl(pageUrl, Response(200, body)) == pageUrl
  {
    var r := Leftmost(body, 0);
    if r.Some? {
      MatchAtIsMatch(body, r.value, MatchAt(body, r.value).value);
    }
  }

  /** On a 200 page the result is the capture of the leftmost match. */
  lemma LeftmostMatchWins(pageUrl: string, body: string, i: nat, c: string)
    requires IsMatchAt(body, i, c)
    requires forall k: nat, d: string :: k < i ==> !IsMatchAt(body, k, d)
    ensures GetDirectUrl(pageUrl, Response(200, body)) == c
  {
    MatchAtIsMatch(body, i, c);
    var r := Leftmost(body, 0);
    assert r.Some? && r.value <= i;
    if r.value < i {
      MatchAtIsMatch(body, r.value, MatchAt(body, r.value).value);
    }
  }

  /** A rewritten URL is a non-empty capture without `"`, found at some position of a 200 body. */
  lemma RewrittenUrlIsCapture(pageUrl: string, fetch: Fetch)
    requires GetDirectUrl(pageUrl, fetch) != pageUrl
    ensures fetch.Response? && fetch.status == 200
    ensures exists i: nat :: IsMatchAt(fetch.body, i, GetDirectUrl(pageUrl, fetch))
    ensures GetDirectUrl(pageUrl, fetch) != [] && '"' !in GetDirectUrl(pageUrl, fetch)
  {
    var r := Leftmost(fetch.body, 0);
    var i := r.value;
    MatchAtIsMatch(fetch.body, i, MatchAt(fetch.body, i).value);
  }

  /** A redirect page resolves to the URL inside its `window.open` call. */
  lemma ResolvesExamplePage()
    ensures GetDirectUrl("https://host/page",
                         Response(200, "go " + OPEN_PREFIX + "https://h.io/f" + OPEN_SUFFIX))
            == "https://h.io/f"
  {
    var lead := "go ";
    var c := "https://h.io/f";
    var body := lead + OPEN_PREFIX + c + OPEN_SUFFIX;
    assert body[3..16] == OPEN_PREFIX;
    assert body[16..16 + |c|] == c;
    assert body[16 + |c|..18 + |c|] == OPEN_SUFFIX;
    assert IsMatchAt(body, 3, c);
    forall k: nat, d: string | k < 3 ensures !IsMatchAt(body, k, d) {
      assert body[k] == lead[k];
    }
    LeftmostMatchWins("https://host/page", body, 3, c);
  }
}
