/** Remote and extension-less images: the `findall` scan for remote image
    links, the bounded download retries, the naming of a downloaded image, the
    rewrite of a note's remote links to local references, and the renaming of
    an image whose format was sniffed. HTTP, MIME guessing, MD5 and format
    sniffing are oracles. */
module Images {
  import opened Wrappers
  import opened Text
  import Paths
  import opened Issues
  import Attachments

  const RetryAttempts: nat := 3
  /** Seconds slept between two attempts. */
  const RetryDelay: nat := 2
  const DownloadTimeout: nat := 30
  const MaxDownloadSize: int := 100 * 1024 * 1024

  /** The directory, relative to a note, that local image references point into. */
  const ResourcesPrefix := "../_resources/"

  // ---------------------------------------------------------------------------
  // Scanning for remote image links: `!\[.*?\]\((https?://[^\s\)]+)(?:\s+"[^"]*")?\)`

  /** Length of the `https?://` scheme at `p`, or 0 when neither spelling is
      there. When an `s` follows `http`, the shorter spelling cannot match. */
  function SchemeLength(s: string, p: nat): (h: nat)
    ensures h == 0 || h == 7 || h == 8
    ensures h > 0 ==> p + h <= |s|
  {
    if p + 7 <= |s| && s[p] == 'h' && s[p + 1] == 't' && s[p + 2] == 't' && s[p + 3] == 'p' then
      if s[p + 4] == 's' then
        if p + 8 <= |s| && s[p + 5] == ':' && s[p + 6] == '/' && s[p + 7] == '/' then 8 else 0
      else if s[p + 4] == ':' && s[p + 5] == '/' && s[p + 6] == '/' then 7
      else 0
    else 0
  }

  /** The scheme length is 8 exactly where `https://` stands and 7 exactly where
      `http://` does. */
  lemma SchemeLengthSpells(s: string, p: nat)
    ensures SchemeLength(s, p) == 8 <==> OccursAt(s, "https://", p)
    ensures SchemeLength(s, p) == 7 <==> OccursAt(s, "http://", p)
  {
    if p + 8 <= |s| {
      var lit := "https://";
      SliceIsLiteral(s, p, lit);
      if SchemeLength(s, p) == 8 {
        forall k | 0 <= k < 8 ensures s[p + k] == lit[k] {
          assert k == 0 || k == 1 || k == 2 || k == 3 || k == 4 || k == 5 || k == 6 || k == 7;
        }
      }
      if OccursAt(s, lit, p) {
        assert s[p + 0] == lit[0] && s[p + 1] == lit[1] && s[p + 2] == lit[2] && s[p + 3] == lit[3];
        assert s[p + 4] == lit[4] && s[p + 5] == lit[5] && s[p + 6] == lit[6] && s[p + 7] == lit[7];
      }
    }
    if p + 7 <= |s| {
      var lit := "http://";
      SliceIsLiteral(s, p, lit);
      if SchemeLength(s, p) == 7 {
        forall k | 0 <= k < 7 ensures s[p + k] == lit[k] {
          assert k == 0 || k == 1 || k == 2 || k == 3 || k == 4 || k == 5 || k == 6;
        }
      }
      if OccursAt(s, lit, p) {
        assert s[p + 0] == lit[0] && s[p + 1] == lit[1] && s[p + 2] == lit[2] && s[p + 3] == lit[3];
        assert s[p + 4] == lit[4] && s[p + 5] == lit[5] && s[p + 6] == lit[6];
      }
    }
  }

  /** A slice equals a literal exactly when it agrees with it character by
      character. */
  lemma SliceIsLiteral(s: string, p: nat, lit: string)
    requires p + |lit| <= |s|
    ensures s[p..p + |lit|] == lit <==> forall k :: 0 <= k < |lit| ==> s[p + k] == lit[k]
  {
    if forall k :: 0 <= k < |lit| ==> s[p + k] == lit[k] {
      assert forall k :: 0 <= k < |lit| ==> s[p..p + |lit|][k] == lit[k];
    }
  }

  /** Whether `c` may stand in a URL of the pattern (`[^\s\)]`). */
  predicate IsUrlChar(c: char) {
    !IsSpace(c) && c != ')'
  }

  /** The end of the run of URL characters from `from`. */
  function UrlEnd(s: string, from: nat): (e: nat)
    requires from <= |s|
    ensures from <= e <= |s|
    ensures e < |s| ==> !IsUrlChar(s[e])
    ensures forall k :: from <= k < e ==> IsUrlChar(s[k])
    decreases |s| - from
  {
    if from == |s| || !IsUrlChar(s[from]) then from else UrlEnd(s, from + 1)
  }

  /** The end of the run of whitespace from `from`. */
  function SpaceEnd(s: string, from: nat): (e: nat)
    requires from <= |s|
    ensures from <= e <= |s|
    ensures e < |s| ==> !IsSpace(s[e])
    ensures forall k :: from <= k < e ==> IsSpace(s[k])
    decreases |s| - from
  {
    if from == |s| || !IsSpace(s[from]) then from else SpaceEnd(s, from + 1)
  }

  /** The first `"` at or after `from`, or `|s|`. */
  function QuoteEnd(s: string, from: nat): (e: nat)
    requires from <= |s|
    ensures from <= e <= |s|
    ensures e < |s| ==> s[e] == '"'
    ensures forall k :: from <= k < e ==> s[k] != '"'
    decreases |s| - from
  {
    if from == |s| || s[from] == '"' then from else QuoteEnd(s, from + 1)
  }

  /** Given that the URL ends at `e`, the end of the match after the optional
      `\s+"title"` and the closing `)`, or -1. The URL run is maximal, so `s[e]`
      is whitespace or `)`; backtracking into the URL can never let the rest
      match, because the rest must begin with whitespace or `)`. */
  function TailEnd(s: string, e: nat): (t: int)
    requires e <= |s|
    ensures t == -1 || (e < t <= |s| && s[t - 1] == ')')
    ensures e < |s| && s[e] == ')' ==> t == e + 1
    ensures t > e + 1 ==> IsSpace(s[e])
  {
    if e == |s| then -1
    else if s[e] == ')' then e + 1
    else if !IsSpace(s[e]) then -1
    else
      var w := SpaceEnd(s, e);
      if w == |s| || s[w] != '"' then -1
      else
        var q := QuoteEnd(s, w + 1);
        if q + 1 < |s| && s[q + 1] == ')' then q + 2 else -1
  }

  /** The `\s+"title"\)` form of the tail after a URL ending at `e`: spaces on
      `[e, w)`, the title's quotes at `w` and `q` with no quote between, and
      the closing `)` at `q + 1`. */
  predicate TitleTailAt(s: string, e: nat, w: nat, q: nat) {
    && e < w < q && q + 1 < |s|
    && (forall k :: e <= k < w ==> IsSpace(s[k]))
    && s[w] == '"' && (forall k :: w < k < q ==> s[k] != '"')
    && s[q] == '"' && s[q + 1] == ')'
  }

  /** A title tail is the one `TailEnd` finds. */
  lemma TitleTailUnique(s: string, e: nat, w: nat, q: nat)
    requires TitleTailAt(s, e, w, q)
    ensures w == SpaceEnd(s, e) && q == QuoteEnd(s, w + 1) && TailEnd(s, e) == q + 2
  {
    assert IsSpace(s[e]);
    var w' := SpaceEnd(s, e);
    assert w' == w by {
      assert !IsSpace(s[w]);
      assert w' < |s| ==> !IsSpace(s[w']);
    }
    var q' := QuoteEnd(s, w + 1);
    assert q' == q;
  }

  /** `TailEnd` matches `(\s+"[^"]*")?\)` exactly: `e + 1` for a bare `)`,
      the end of the title tail when there is one, and -1 when neither form is
      there. */
  lemma TailEndExact(s: string, e: nat)
    requires e <= |s|
    ensures TailEnd(s, e) == e + 1 <==> e < |s| && s[e] == ')'
    ensures TailEnd(s, e) > e + 1 ==> TitleTailAt(s, e, SpaceEnd(s, e), TailEnd(s, e) - 2)
    ensures forall w: nat, q: nat :: TitleTailAt(s, e, w, q) ==> TailEnd(s, e) == q + 2
    ensures TailEnd(s, e) == -1 <==>
      !(e < |s| && s[e] == ')') && forall w: nat, q: nat :: !TitleTailAt(s, e, w, q)
  {
    forall w: nat, q: nat | TitleTailAt(s, e, w, q) ensures TailEnd(s, e) == q + 2 {
      TitleTailUnique(s, e, w, q);
    }
  }

  /** The URL group and the rest of the pattern, tried at `p`: the end of the URL
      and the end of the match. */
  function UrlTail(s: string, p: nat): (r: Option<(nat, nat)>)
    requires p <= |s|
    ensures r.Some? ==> SchemeLength(s, p) > 0
    ensures r.Some? ==> p + SchemeLength(s, p) < r.value.0 < r.value.1 <= |s|
  {
    var h := SchemeLength(s, p);
    if h == 0 then None
    else
      var e := UrlEnd(s, p + h);
      if e == p + h then None
      else
        var t := TailEnd(s, e);
        if t < 0 then None else Some((e, t))
  }

  /** The label can end at `j`: `](` there, followed by a URL and the tail. */
  predicate UrlAt(s: string, j: nat) {
    j + 2 <= |s| && s[j] == ']' && s[j + 1] == '(' && UrlTail(s, j + 2).Some?
  }

  /** The lazy `.*?` of the label: the first `j` from `from` on the same line at
      which the rest of the pattern matches. */
  function LabelEnd(s: string, from: nat): (r: Option<nat>)
    requires from <= |s|
    ensures r.Some? ==> from <= r.value && UrlAt(s, r.value)
    decreases |s| - from
  {
    if from == |s| then None
    else if UrlAt(s, from) then Some(from)
    else if s[from] == '\n' then None
    else LabelEnd(s, from + 1)
  }

  /** No `j` in `[from, to)` lets the label end there. */
  predicate NoUrlBetween(s: string, from: nat, to: nat) {
    forall j :: from <= j < to ==> !UrlAt(s, j)
  }

  /** `LabelEnd` finds the least such `j`, and only on the line of `from`. */
  lemma {:induction false} LabelEndIsLeast(s: string, from: nat)
    requires from <= |s|
    ensures var r := LabelEnd(s, from);
      && (r.Some? ==> r.value < Attachments.NextNewline(s, from) && NoUrlBetween(s, from, r.value))
      && (r.None? ==> NoUrlBetween(s, from, Attachments.NextNewline(s, from)))
    decreases |s| - from
  {
    if from < |s| && !UrlAt(s, from) && s[from] != '\n' {
      LabelEndIsLeast(s, from + 1);
      assert Attachments.NextNewline(s, from) == Attachments.NextNewline(s, from + 1);
      assert LabelEnd(s, from) == LabelEnd(s, from + 1);
      var to := if LabelEnd(s, from).Some? then LabelEnd(s, from).value else Attachments.NextNewline(s, from);
      assert NoUrlBetween(s, from + 1, to);
      assert NoUrlBetween(s, from, to);
    }
  }

  /** A match of the remote-image pattern: the label ends at `labelEnd`, the URL
      group is `s[labelEnd + 2..urlEnd]`, and the match ends at `end`. */
  datatype RemoteMatch = RemoteMatch(labelEnd: nat, urlEnd: nat, end: nat)

  /** The match that starts at `i`, if any. */
  function RemoteMatchAt(s: string, i: nat): (r: Option<RemoteMatch>)
    ensures r.Some? ==> i + 2 <= r.value.labelEnd && r.value.labelEnd + 2 < r.value.urlEnd < r.value.end <= |s|
  {
    if i + 2 <= |s| && s[i] == '!' && s[i + 1] == '[' then
      match LabelEnd(s, i + 2)
      case None => None
      case Some(j) =>
        var tail := UrlTail(s, j + 2).value;
        Some(RemoteMatch(j, tail.0, tail.1))
    else None
  }

  /** A match starts with `![`, its label ends at the first place on the line
      where the rest of the pattern matches, and the URL and the tail are the
      ones `UrlTail` finds there. */
  lemma RemoteMatchFound(s: string, i: nat)
    requires RemoteMatchAt(s, i).Some?
    ensures var m := RemoteMatchAt(s, i).value;
      && i + 2 <= |s| && s[i] == '!' && s[i + 1] == '['
      && m.labelEnd < Attachments.NextNewline(s, i + 2) && UrlAt(s, m.labelEnd)
      && NoUrlBetween(s, i + 2, m.labelEnd)
      && UrlTail(s, m.labelEnd + 2) == Some((m.urlEnd, m.end))
  {
    assert i + 2 <= |s| && s[i] == '!' && s[i + 1] == '[';
    var j := LabelEnd(s, i + 2).value;
    LabelEndIsLeast(s, i + 2);
    assert RemoteMatchAt(s, i).value.labelEnd == j;
  }

  /** The URL and the tail of a match are the ones `UrlTail` finds after its
      label. */
  lemma RemoteMatchTail(s: string, i: nat)
    requires RemoteMatchAt(s, i).Some?
    ensures var m := RemoteMatchAt(s, i).value;
      UrlTail(s, m.labelEnd + 2) == Some((m.urlEnd, m.end))
  {
    assert i + 2 <= |s| && s[i] == '!' && s[i + 1] == '[';
    var j := LabelEnd(s, i + 2).value;
    assert RemoteMatchAt(s, i).value.labelEnd == j;
  }

  /** Where a text has `![`, no match starts there exactly when no place on the
      rest of the line lets the rest of the pattern match. */
  lemma RemoteMatchMissing(s: string, i: nat)
    requires i + 2 <= |s| && s[i] == '!' && s[i + 1] == '['
    ensures RemoteMatchAt(s, i).None? <==> NoUrlBetween(s, i + 2, Attachments.NextNewline(s, i + 2))
  {
    LabelEndIsLeast(s, i + 2);
    match LabelEnd(s, i + 2)
    case None =>
      assert RemoteMatchAt(s, i).None?;
    case Some(j) =>
      assert RemoteMatchAt(s, i).Some?;
      assert !NoUrlBetween(s, i + 2, Attachments.NextNewline(s, i + 2)) by {
        assert i + 2 <= j < Attachments.NextNewline(s, i + 2) && UrlAt(s, j);
      }
  }

  /** The URL group of a match. */
  function UrlOf(s: string, m: RemoteMatch): string
    requires m.labelEnd + 2 <= m.urlEnd <= |s|
  {
    s[m.labelEnd + 2..m.urlEnd]
  }

  /** `re.findall` of the pattern from `i`: the URL groups of the successive
      non-overlapping matches, left to right. */
  function RemoteUrls(s: string, i: nat): seq<string>
    decreases |s| - i
  {
    if i >= |s| then []
    else match RemoteMatchAt(s, i)
      case Some(m) => [UrlOf(s, m)] + RemoteUrls(s, m.end)
      case None => RemoteUrls(s, i + 1)
  }

  /** A URL the pattern can capture: an `http://` or `https://` scheme, at least
      one more character, and no whitespace and no `)` anywhere. */
  predicate IsRemoteUrl(u: string) {
    && ((StartsWith(u, "http://") && |u| > 7) || (StartsWith(u, "https://") && |u| > 8))
    && forall k :: 0 <= k < |u| ==> IsUrlChar(u[k])
  }

  /** The characters of both schemes may stand in a URL. */
  lemma SchemeIsUrl(scheme: string)
    requires scheme == "http://" || scheme == "https://"
    ensures forall k :: 0 <= k < |scheme| ==> IsUrlChar(scheme[k])
  {
  }

  /** The URL group that `UrlTail` delimits is a remote URL. */
  lemma UrlTailIsRemote(s: string, p: nat, e: nat, t: nat)
    requires p <= |s| && UrlTail(s, p) == Some((e, t))
    ensures IsRemoteUrl(s[p..e])
  {
    var h := SchemeLength(s, p);
    var u := s[p..e];
    var scheme := if h == 8 then "https://" else "http://";
    SchemeLengthSpells(s, p);
    assert s[p..p + h] == scheme;
    assert u[..h] == s[p..p + h];
    assert StartsWith(u, scheme);
    SchemeIsUrl(scheme);
    forall k | 0 <= k < |u| ensures IsUrlChar(u[k]) {
      if k < h {
        assert u[k] == scheme[k];
      } else {
        assert u[k] == s[p + k];
      }
    }
  }

  /** Every URL that `findall` returns is a remote URL. */
  lemma {:induction false} RemoteUrlsAreRemote(s: string, i: nat)
    ensures forall k :: 0 <= k < |RemoteUrls(s, i)| ==> IsRemoteUrl(RemoteUrls(s, i)[k])
    decreases |s| - i
  {
    if i < |s| {
      match RemoteMatchAt(s, i)
      case Some(m) =>
        var u := UrlOf(s, m);
        var rest := RemoteUrls(s, m.end);
        MatchUrlIsRemote(s, i);
        RemoteUrlsAreRemote(s, m.end);
        RemoteCons(u, rest);
        assert RemoteUrls(s, i) == [u] + rest;
      case None =>
        RemoteUrlsAreRemote(s, i + 1);
    }
  }

  lemma MatchUrlIsRemote(s: string, i: nat)
    requires RemoteMatchAt(s, i).Some?
    ensures IsRemoteUrl(UrlOf(s, RemoteMatchAt(s, i).value))
  {
    var m := RemoteMatchAt(s, i).value;
    RemoteMatchTail(s, i);
    UrlTailIsRemote(s, m.labelEnd + 2, m.urlEnd, m.end);
  }

  lemma RemoteCons(u: string, rest: seq<string>)
    requires IsRemoteUrl(u) && forall k :: 0 <= k < |rest| ==> IsRemoteUrl(rest[k])
    ensures forall k :: 0 <= k < |[u] + rest| ==> IsRemoteUrl(([u] + rest)[k])
  {
    forall k | 0 <= k < |[u] + rest| ensures IsRemoteUrl(([u] + rest)[k]) {
      if k > 0 {
        assert ([u] + rest)[k] == rest[k - 1];
      }
    }
  }

  /** Every URL that `findall` returns occurs in the text. */
  lemma {:induction false} RemoteUrlsOccur(s: string, i: nat)
    ensures forall k :: 0 <= k < |RemoteUrls(s, i)| ==> Contains(s, RemoteUrls(s, i)[k])
    decreases |s| - i
  {
    if i < |s| {
      match RemoteMatchAt(s, i)
      case Some(m) =>
        var u := UrlOf(s, m);
        var rest := RemoteUrls(s, m.end);
        SliceOccurs(s, m.labelEnd + 2, m.urlEnd);
        RemoteUrlsOccur(s, m.end);
        OccurCons(s, u, rest);
        assert RemoteUrls(s, i) == [u] + rest;
      case None =>
        RemoteUrlsOccur(s, i + 1);
    }
  }

  lemma SliceOccurs(s: string, lo: nat, hi: nat)
    requires lo <= hi <= |s|
    ensures Contains(s, s[lo..hi])
  {
    assert OccursAt(s, s[lo..hi], lo);
  }

  lemma OccurCons(s: string, u: string, rest: seq<string>)
    requires Contains(s, u) && forall k :: 0 <= k < |rest| ==> Contains(s, rest[k])
    ensures forall k :: 0 <= k < |[u] + rest| ==> Contains(s, ([u] + rest)[k])
  {
    forall k | 0 <= k < |[u] + rest| ensures Contains(s, ([u] + rest)[k]) {
      if k > 0 {
        assert ([u] + rest)[k] == rest[k - 1];
      }
    }
  }

  /** A text without `![` has no remote image links. */
  lemma {:induction false} NoImageSyntaxNoUrls(s: string, i: nat)
    requires forall k :: i <= k && k + 1 < |s| ==> !(s[k] == '!' && s[k + 1] == '[')
    ensures RemoteUrls(s, i) == []
    decreases |s| - i
  {
    if i < |s| {
      assert RemoteMatchAt(s, i).None?;
      NoImageSyntaxNoUrls(s, i + 1);
    }
  }

  // ---------------------------------------------------------------------------
  // Downloading

  /** The headers of a successful response that the converter reads, `None`
      being a header the server did not send, and whether its streamed body can
      be read in full: reading `response.content` can raise a
      `RequestException` of its own (a dropped connection, a broken chunked
      encoding). */
  datatype Response = Response(contentLength: Option<int>, contentType: Option<string>, bodyReadable: bool)

  /** One `session.get` followed by `raise_for_status`: a response, or a
      `RequestException` (a connection error, a timeout, an HTTP error status). */
  datatype Attempt = Received(response: Response) | Raised

  /** The outside world of a download: `fetch(url, a)` is the outcome of attempt
      `a` on `url`, `md5hex` is the hex MD5 digest of a URL's UTF-8 bytes, and
      `guessExtension` is `mimetypes.guess_extension`, with `""` for `None`. */
  datatype Web = Web(fetch: (string, nat) -> Attempt, md5hex: string -> string, guessExtension: string -> string)

  /** The first of the attempts `0..n` that received a response. */
  function FirstReceived(web: Web, url: string, n: nat): (r: Option<nat>)
    ensures r.Some? ==> r.value < n && web.fetch(url, r.value).Received?
    ensures forall a :: 0 <= a < n && (r.None? || a < r.value) ==> web.fetch(url, a).Raised?
  {
    if n == 0 then None
    else
      var earlier := FirstReceived(web, url, n - 1);
      if earlier.Some? then earlier
      else if web.fetch(url, n - 1).Received? then Some(n - 1)
      else None
  }

  /** What `download_image_with_retries` returns, or `None` when it re-raises. */
  function Fetch(web: Web, url: string): Option<Response> {
    match FirstReceived(web, url, RetryAttempts)
    case None => None
    case Some(a) => Some(web.fetch(url, a).response)
  }

  /** `download_image_with_retries`: up to `RetryAttempts` attempts, returning
      the first response; `sleeps` counts the `RetryDelay` pauses, which happen
      only between two attempts. */
  method DownloadWithRetries(web: Web, url: string) returns (response: Option<Response>, attempts: nat, sleeps: nat)
    ensures response == Fetch(web, url)
    ensures 1 <= attempts <= RetryAttempts && sleeps == attempts - 1
    ensures forall a :: 0 <= a < attempts - 1 ==> web.fetch(url, a).Raised?
    ensures response.Some? ==> web.fetch(url, attempts - 1) == Received(response.value)
    ensures response.None? ==> attempts == RetryAttempts && web.fetch(url, attempts - 1).Raised?
  {
    sleeps := 0;
    for attempt := 0 to RetryAttempts
      invariant FirstReceived(web, url, attempt).None?
      invariant sleeps == (if attempt < RetryAttempts then attempt else RetryAttempts - 1)
    {
      var outcome := web.fetch(url, attempt);
      if outcome.Received? {
        assert FirstReceived(web, url, RetryAttempts) == Some(attempt);
        return Some(outcome.response), attempt + 1, sleeps;
      }
      if attempt + 1 < RetryAttempts {
        sleeps := sleeps + 1;
      }
    }
    response, attempts := None, RetryAttempts;
  }

  /** `Content-Length` as the converter reads it, 0 when absent. */
  function DeclaredSize(r: Response): int {
    match r.contentLength
    case None => 0
    case Some(n) => n
  }

  /** `Content-Type`, `""` when absent. */
  function ContentType(r: Response): string {
    match r.contentType
    case None => ""
    case Some(t) => t
  }

  /** A single extension: a dot, then no further dot and no `/`. */
  predicate IsExtension(e: string) {
    |e| >= 1 && e[0] == '.' && '.' !in e[1..] && '/' !in e
  }

  /** The extension of a downloaded image: the MIME guess for the content type,
      else the URL's own extension, else `.jpg`. */
  function ImageExtension(web: Web, contentType: string, url: string): (ext: string)
    ensures ext != []
    ensures web.guessExtension(contentType) != [] ==> ext == web.guessExtension(contentType)
    ensures web.guessExtension(contentType) == [] ==> IsExtension(ext)
    ensures web.guessExtension(contentType) == [] && Paths.SplitExt(url).1 != [] ==> ext == Paths.SplitExt(url).1
    ensures web.guessExtension(contentType) == [] && Paths.SplitExt(url).1 == [] ==> ext == ".jpg"
  {
    var guessed := web.guessExtension(contentType);
    if guessed != [] then guessed
    else
      var fromUrl := Paths.SplitExt(url).1;
      if fromUrl != [] then fromUrl else ".jpg"
  }

  /** The name `download_and_save_image` saves the image under, or `None` when it
      raises a `RequestException`: every attempt failed, the declared size is
      over the limit, or the body could not be read. */
  function DownloadedName(web: Web, url: string): (r: Option<string>)
    ensures r.Some? <==> Fetch(web, url).Some? && DeclaredSize(Fetch(web, url).value) <= MaxDownloadSize
                         && Fetch(web, url).value.bodyReadable
    ensures r.Some? ==> r.value == web.md5hex(url) + ImageExtension(web, ContentType(Fetch(web, url).value), url)
  {
    match Fetch(web, url)
    case None => None
    case Some(response) =>
      if DeclaredSize(response) > MaxDownloadSize then None
      else if !response.bodyReadable then None
      else Some(web.md5hex(url) + ImageExtension(web, ContentType(response), url))
  }

  /** `download_and_save_image`; writing the body to `resourcesDir` is left
      out, reading it is the response's `bodyReadable`. */
  method DownloadAndSaveImage(web: Web, url: string) returns (name: Option<string>)
    ensures name == DownloadedName(web, url)
  {
    var response, _, _ := DownloadWithRetries(web, url);
    if response.None? {
      return None;
    }
    if DeclaredSize(response.value) > MaxDownloadSize {
      return None;
    }
    var ext := ImageExtension(web, ContentType(response.value), url);
    if !response.value.bodyReadable {
      return None;
    }
    name := Some(web.md5hex(url) + ext);
  }

  predicate IsHexDigit(c: char) {
    '0' <= c <= '9' || 'a' <= c <= 'f'
  }

  /** The shape of `hexdigest()` for MD5. */
  predicate IsHexDigest(h: string) {
    |h| == 32 && forall k :: 0 <= k < |h| ==> IsHexDigit(h[k])
  }

  /** When the digest oracle behaves like MD5 and the MIME guess, if any, is a
      single extension, the saved name splits back into the digest and the
      chosen extension. */
  lemma DownloadedNameSplits(web: Web, url: string, contentType: string)
    requires IsHexDigest(web.md5hex(url))
    requires web.guessExtension(contentType) == [] || IsExtension(web.guessExtension(contentType))
    ensures var ext := ImageExtension(web, contentType, url);
      Paths.SplitExt(web.md5hex(url) + ext) == (web.md5hex(url), ext)
  {
    var h := web.md5hex(url);
    assert h[0] != '.';
    assert '/' !in h by {
      forall k | 0 <= k < |h| ensures h[k] != '/' {
        assert IsHexDigit(h[k]);
      }
    }
    Paths.SplitExtOfAddedExtension(h, ImageExtension(web, contentType, url));
  }

  // ---------------------------------------------------------------------------
  // Rewriting a note's remote links

  function LocalReference(name: string): string {
    ResourcesPrefix + name
  }

  function FailureMessage(url: string): string {
    "Failed to download " + url
  }

  /** The state of `process_image_urls` between two URLs: the text so far, the
      success flag, and the issues recorded so far. */
  datatype UrlState = UrlState(content: string, success: bool, failures: seq<string>)

  /** One URL: a successful download replaces every occurrence of the URL by the
      local reference; a failed one records an issue and clears the flag. */
  function UrlStep(st: UrlState, web: Web, url: string): (r: UrlState)
    requires url != []
    ensures r.success <==> st.success && DownloadedName(web, url).Some?
    ensures st.failures <= r.failures
    ensures |r.failures| == |st.failures| + 1 <==> DownloadedName(web, url).None?
    ensures |r.failures| <= |st.failures| + 1
    ensures r.content == st.content <==>
      || DownloadedName(web, url).None?
      || !Contains(st.content, url)
      || url == LocalReference(DownloadedName(web, url).value)
  {
    match DownloadedName(web, url)
    case None => UrlState(st.content, false, st.failures + [FailureMessage(url)])
    case Some(name) =>
      ReplaceAllChanges(st.content, url, LocalReference(name));
      st.(content := ReplaceAll(st.content, url, LocalReference(name)))
  }

  predicate NonEmptyUrls(urls: seq<string>) {
    forall k :: 0 <= k < |urls| ==> urls[k] != []
  }

  /** The URLs `urls[index..]` processed in order from `st`. */
  function UrlsRun(st: UrlState, web: Web, urls: seq<string>, index: nat): UrlState
    requires NonEmptyUrls(urls)
    decreases |urls| - index
  {
    if index >= |urls| then st
    else UrlsRun(UrlStep(st, web, urls[index]), web, urls, index + 1)
  }

  /** The URLs among `urls[index..]` whose download fails, as issue messages. */
  function FailureMessages(web: Web, urls: seq<string>, index: nat): seq<string>
    decreases |urls| - index
  {
    if index >= |urls| then []
    else (if DownloadedName(web, urls[index]).None? then [FailureMessage(urls[index])] else [])
         + FailureMessages(web, urls, index + 1)
  }

  /** What `process_image_urls(content, …)` returns, with the issues it records. */
  function ProcessedUrls(content: string, web: Web): UrlState {
    RemoteUrlsAreRemote(content, 0);
    UrlsRun(UrlState(content, true, []), web, RemoteUrls(content, 0), 0)
  }

  /** The run records one issue per failed URL, in order. */
  lemma {:induction false} UrlsRunFailures(st: UrlState, web: Web, urls: seq<string>, index: nat)
    requires NonEmptyUrls(urls)
    ensures UrlsRun(st, web, urls, index).failures == st.failures + FailureMessages(web, urls, index)
    decreases |urls| - index
  {
    if index < |urls| {
      var next := UrlStep(st, web, urls[index]);
      UrlsRunFailures(next, web, urls, index + 1);
      var head := if DownloadedName(web, urls[index]).None? then [FailureMessage(urls[index])] else [];
      assert next.failures == st.failures + head;
      AppendAssoc(st.failures, head, FailureMessages(web, urls, index + 1));
    } else {
      assert st.failures + [] == st.failures;
    }
  }

  /** The run keeps the success flag exactly when no download failed. */
  lemma {:induction false} UrlsRunSuccess(st: UrlState, web: Web, urls: seq<string>, index: nat)
    requires NonEmptyUrls(urls)
    ensures UrlsRun(st, web, urls, index).success <==> st.success && FailureMessages(web, urls, index) == []
    decreases |urls| - index
  {
    if index < |urls| {
      var next := UrlStep(st, web, urls[index]);
      UrlsRunSuccess(next, web, urls, index + 1);
      var head := if DownloadedName(web, urls[index]).None? then [FailureMessage(urls[index])] else [];
      assert next.success <==> st.success && head == [];
      assert FailureMessages(web, urls, index) == head + FailureMessages(web, urls, index + 1);
    }
  }

  /** No issue is recorded exactly when every download succeeds. */
  lemma {:induction false} NoFailureMessages(web: Web, urls: seq<string>, index: nat)
    ensures FailureMessages(web, urls, index) == [] <==>
              forall k :: index <= k < |urls| ==> DownloadedName(web, urls[k]).Some?
    decreases |urls| - index
  {
    if index < |urls| {
      NoFailureMessages(web, urls, index + 1);
    }
  }

  /** `process_image_urls` reports success exactly when no issue was recorded,
      and exactly when every remote image in the note was downloaded. */
  lemma SuccessMeansNoIssue(content: string, web: Web, urls: seq<string>)
    requires NonEmptyUrls(urls)
    ensures var r := UrlsRun(UrlState(content, true, []), web, urls, 0);
      && (r.success <==> r.failures == [])
      && (r.success <==> forall k :: 0 <= k < |urls| ==> DownloadedName(web, urls[k]).Some?)
  {
    UrlsRunFailures(UrlState(content, true, []), web, urls, 0);
    UrlsRunSuccess(UrlState(content, true, []), web, urls, 0);
    NoFailureMessages(web, urls, 0);
  }

  /** The rewrites the successful downloads among `urls[index..]` ask for, in
      `findall` order: each such URL paired with its local reference. */
  function Rewrites(web: Web, urls: seq<string>, index: nat): (rws: seq<(string, string)>)
    requires NonEmptyUrls(urls)
    ensures forall k :: 0 <= k < |rws| ==> rws[k].0 != []
    decreases |urls| - index
  {
    if index >= |urls| then []
    else
      (match DownloadedName(web, urls[index])
       case None => []
       case Some(name) => [(urls[index], LocalReference(name))])
      + Rewrites(web, urls, index + 1)
  }

  /** `str.replace` applied for each pair of `rws` in turn. */
  function ApplyRewrites(s: string, rws: seq<(string, string)>): string
    requires forall k :: 0 <= k < |rws| ==> rws[k].0 != []
    decreases |rws|
  {
    if rws == [] then s else ApplyRewrites(ReplaceAll(s, rws[0].0, rws[0].1), rws[1..])
  }

  /** Every URL is either rewritten or reported: the rewrites and the failure
      messages together number the URLs. */
  lemma {:induction false} RewritesCount(web: Web, urls: seq<string>, index: nat)
    requires NonEmptyUrls(urls) && index <= |urls|
    ensures |Rewrites(web, urls, index)| + |FailureMessages(web, urls, index)| == |urls| - index
    decreases |urls| - index
  {
    if index < |urls| {
      RewritesCount(web, urls, index + 1);
    }
  }

  /** A rewrite is a downloaded URL of the list with the reference to the file
      it was saved under. */
  lemma {:induction false} RewritesAreDownloads(web: Web, urls: seq<string>, index: nat, k: nat)
    requires NonEmptyUrls(urls) && k < |Rewrites(web, urls, index)|
    ensures exists j :: index <= j < |urls| && DownloadedName(web, urls[j]).Some? &&
              Rewrites(web, urls, index)[k] == (urls[j], LocalReference(DownloadedName(web, urls[j]).value))
    decreases |urls| - index
  {
    var rws := Rewrites(web, urls, index);
    var head := match DownloadedName(web, urls[index])
                case None => []
                case Some(name) => [(urls[index], LocalReference(name))];
    assert rws == head + Rewrites(web, urls, index + 1);
    if k < |head| {
      assert rws[k] == head[0];
    } else {
      assert rws[k] == Rewrites(web, urls, index + 1)[k - |head|];
      RewritesAreDownloads(web, urls, index + 1, k - |head|);
    }
  }

  /** The text the run produces is the text it starts from with the rewrites
      of the successful downloads applied in order; failed URLs do not touch
      it. */
  lemma {:induction false} UrlsRunRewrites(st: UrlState, web: Web, urls: seq<string>, index: nat)
    requires NonEmptyUrls(urls)
    ensures UrlsRun(st, web, urls, index).content == ApplyRewrites(st.content, Rewrites(web, urls, index))
    decreases |urls| - index
  {
    if index < |urls| {
      var next := UrlStep(st, web, urls[index]);
      UrlsRunRewrites(next, web, urls, index + 1);
      var rest := Rewrites(web, urls, index + 1);
      match DownloadedName(web, urls[index])
      case None =>
        assert Rewrites(web, urls, index) == rest;
      case Some(name) =>
        var rws := Rewrites(web, urls, index);
        assert rws == [(urls[index], LocalReference(name))] + rest;
        assert rws[1..] == rest;
    }
  }

  /** The text `process_image_urls` returns: every occurrence of each
      downloaded URL replaced by its local reference, in `findall` order. */
  lemma ProcessedUrlsRewrites(content: string, web: Web)
    ensures NonEmptyUrls(RemoteUrls(content, 0))
    ensures ProcessedUrls(content, web).content == ApplyRewrites(content, Rewrites(web, RemoteUrls(content, 0), 0))
  {
    RemoteUrlsAreRemote(content, 0);
    UrlsRunRewrites(UrlState(content, true, []), web, RemoteUrls(content, 0), 0);
  }

  /** When every download fails the text comes back unchanged. */
  lemma {:induction false} AllFailedKeepsText(st: UrlState, web: Web, urls: seq<string>, index: nat)
    requires NonEmptyUrls(urls)
    requires forall k :: index <= k < |urls| ==> DownloadedName(web, urls[k]).None?
    ensures UrlsRun(st, web, urls, index).content == st.content
    decreases |urls| - index
  {
    if index < |urls| {
      AllFailedKeepsText(UrlStep(st, web, urls[index]), web, urls, index + 1);
    }
  }

  /** `process_image_urls`: download each remote image in `findall` order and
      rewrite its URL, recording a `files_with_download_issues` issue for each
      one that fails. */
  method ProcessImageUrls(content: string, web: Web, tracker: IssueTracker) returns (updated: string, success: bool)
    modifies tracker
    ensures var r := ProcessedUrls(content, web);
      && updated == r.content && success == r.success
      && tracker.Issues(FilesWithDownloadIssues) == old(tracker.Issues(FilesWithDownloadIssues)) + r.failures
    ensures forall kind :: kind != FilesWithDownloadIssues ==> tracker.Issues(kind) == old(tracker.Issues(kind))
  {
    var urls := RemoteUrls(content, 0);
    RemoteUrlsAreRemote(content, 0);
    updated, success := content, true;
    ghost var failures: seq<string> := [];
    for index := 0 to |urls|
      invariant UrlsRun(UrlState(updated, success, failures), web, urls, index) == ProcessedUrls(content, web)
      invariant tracker.Issues(FilesWithDownloadIssues) == old(tracker.Issues(FilesWithDownloadIssues)) + failures
      invariant forall kind :: kind != FilesWithDownloadIssues ==> tracker.Issues(kind) == old(tracker.Issues(kind))
    {
      var url := urls[index];
      var name := DownloadAndSaveImage(web, url);
      if name.Some? {
        updated := ReplaceAll(updated, url, LocalReference(name.value));
      } else {
        tracker.AddIssue(FilesWithDownloadIssues, FailureMessage(url));
        failures := failures + [FailureMessage(url)];
        success := false;
      }
    }
  }

  /** `process_markdown_file_for_images`: the text written back to the note, or
      `None` when it is left alone because a download failed. A note without
      remote images is written back unchanged. */
  method ProcessMarkdownFileForImages(content: string, web: Web, tracker: IssueTracker) returns (written: Option<string>)
    modifies tracker
    ensures var r := ProcessedUrls(content, web);
      && (written.Some? <==> r.success)
      && (written.Some? ==> written.value == r.content)
      && tracker.Issues(FilesWithDownloadIssues) == old(tracker.Issues(FilesWithDownloadIssues)) + r.failures
    ensures forall kind :: kind != FilesWithDownloadIssues ==> tracker.Issues(kind) == old(tracker.Issues(kind))
    ensures RemoteUrls(content, 0) == [] ==> written == Some(content)
  {
    var updated, success := ProcessImageUrls(content, web, tracker);
    if success {
      written := Some(updated);
    } else {
      written := None;
    }
  }

  // ---------------------------------------------------------------------------
  // Renaming images by their sniffed format

  /** What `Image.open` reports for a file: unreadable (`IOError`), or the
      format name it recognised, `""` standing for an empty name. */
  datatype Sniff = Unreadable | Format(name: string)

  function InvalidImageMessage(fileName: string): string {
    "Invalid image file in _resources: " + fileName
  }

  /** The new name of an image whose format was sniffed. */
  function RenamedImage(fileName: string, format: string): string {
    fileName + "." + Lower(format)
  }

  /** Lower-casing neither adds nor removes a given non-letter character. */
  lemma LowerKeepsAbsent(s: string, c: char)
    requires !('A' <= c <= 'Z') && !('a' <= c <= 'z') && c !in s
    ensures c !in Lower(s)
  {
  }

  /** A renamed image has the sniffed format as its extension, so the pass over
      extension-less files does not pick it up again. */
  lemma RenamedImageHasExtension(fileName: string, format: string)
    requires '/' !in fileName && Paths.HasNonDot(fileName, 0, |fileName|)
    requires '.' !in format && '/' !in format
    ensures Paths.SplitExt(RenamedImage(fileName, format)) == (fileName, "." + Lower(format))
  {
    LowerKeepsAbsent(format, '.');
    LowerKeepsAbsent(format, '/');
    var ext := "." + Lower(format);
    assert ext[1..] == Lower(format);
    assert '.' !in ext[1..];
    assert '/' !in ext;
    AppendAssoc(fileName, ".", Lower(format));
    assert RenamedImage(fileName, format) == fileName + ext;
    assert exists k :: 0 <= k < |fileName| && fileName[k] != '.';
    Paths.SplitExtOfAddedExtension(fileName, ext);
  }

  /** `process_image_file`: the new name of the file, or `None` when it keeps its
      name; an unreadable file records a `files_with_invalid_attachments` issue. */
  method ProcessImageFile(fileName: string, sniff: Sniff, tracker: IssueTracker) returns (renamed: Option<string>)
    modifies tracker
    ensures sniff.Unreadable? ==>
              && renamed.None?
              && tracker.Issues(FilesWithInvalidAttachments) ==
                   old(tracker.Issues(FilesWithInvalidAttachments)) + [InvalidImageMessage(fileName)]
    ensures sniff.Format? && sniff.name == [] ==> renamed.None?
    ensures sniff.Format? && sniff.name != [] ==> renamed == Some(RenamedImage(fileName, sniff.name))
    ensures forall kind :: kind != FilesWithInvalidAttachments || sniff.Format? ==>
              tracker.Issues(kind) == old(tracker.Issues(kind))
  {
    match sniff
    case Unreadable =>
      tracker.AddIssue(FilesWithInvalidAttachments, InvalidImageMessage(fileName));
      renamed := None;
    case Format(format) =>
      var fileType := Lower(format);
      if fileType != [] {
        renamed := Some(fileName + "." + fileType);
      } else {
        renamed := None;
      }
  }

  /** `update_markdown_references` for one note: the text to write back, or
      `None` when the note does not mention the old reference and is left alone. */
  function UpdateMarkdownReferences(content: string, oldName: string, newName: string): (r: Option<string>)
    ensures r.Some? <==> Contains(content, LocalReference(oldName)) && oldName != newName
    ensures r.Some? ==> r.value == ReplaceAll(content, LocalReference(oldName), LocalReference(newName))
  {
    var updated := ReplaceAll(content, LocalReference(oldName), LocalReference(newName));
    ReplaceAllChanges(content, LocalReference(oldName), LocalReference(newName));
    assert LocalReference(oldName) == LocalReference(newName) ==> oldName == newName by {
      if LocalReference(oldName) == LocalReference(newName) {
        assert oldName == LocalReference(oldName)[|ResourcesPrefix|..];
      }
    }
    if updated != content then Some(updated) else None
  }

  /** A renamed image's references are always rewritten in a note that has one. */
  lemma RenamedReferencesRewritten(content: string, fileName: string, format: string)
    requires Contains(content, LocalReference(fileName))
    ensures UpdateMarkdownReferences(content, fileName, RenamedImage(fileName, format)).Some?
  {
    assert |RenamedImage(fileName, format)| > |fileName|;
  }
}
