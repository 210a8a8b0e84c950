/** The attachment resolver (`process_attachments`, lines 387-413): one
    left-to-right pass of the pattern `\[.*?\]\((.*?)\)` over the note body,
    turning each link to a PDF into a numbered placeholder and each link to an
    image into an `<img>` tag, and listing both kinds of file in the order the
    links appear. */
module Attachments {
  import opened Wrappers
  import opened Text
  import Paths

  /** `supported_formats` (line 45); `tif` has no dot, so every name ending in
      `tif` counts. */
  const SupportedFormats: seq<string> := [".png", ".jpg", ".jpeg", ".gif", ".bmp", ".tiff", "tif", ".webp"]

  // ---------------------------------------------------------------------------
  // The regular expression

  /** The index of the first newline at or after `from`, or `|s|`: `.` matches
      anything before it. */
  function NextNewline(s: string, from: nat): (r: nat)
    requires from <= |s|
    ensures from <= r <= |s|
    ensures r < |s| ==> s[r] == '\n'
    ensures forall t :: from <= t < r ==> s[t] != '\n'
    decreases |s| - from
  {
    if from == |s| || s[from] == '\n' then from else NextNewline(s, from + 1)
  }

  /** The pattern can match `s[i..k + 1]` with its label ending at `j`: `[` at i,
      `](` at j, `)` at k, and no newline in between. */
  predicate IsLinkMatch(s: string, i: int, j: int, k: int) {
    0 <= i < j && i < |s| && j + 2 <= k < NextNewline(s, i + 1) &&
    s[i] == '[' && s[j] == ']' && s[j + 1] == '(' && s[k] == ')'
  }

  /** The first `)` in `s[from..end]`, or -1. */
  function FirstParen(s: string, from: nat, end: nat): (r: int)
    requires from <= end <= |s|
    ensures r < 0 ==> forall k :: from <= k < end ==> s[k] != ')'
    ensures r >= 0 ==> from <= r < end && s[r] == ')'
    ensures r >= 0 ==> forall k :: from <= k < r ==> s[k] != ')'
    decreases end - from
  {
    if from == end then -1
    else if s[from] == ')' then from
    else FirstParen(s, from + 1, end)
  }

  /** The lazy label `.*?`: the least label end `j' >= j` for which the rest of
      the pattern matches, with the lazy target `(.*?)` ending at the first
      `)` after it. */
  function FindClose(s: string, i: nat, j: nat): (r: Option<(nat, nat)>)
    requires i < j && i < |s| && s[i] == '[' && j <= NextNewline(s, i + 1)
    ensures r.Some? ==> j <= r.value.0 && IsLinkMatch(s, i, r.value.0, r.value.1)
    ensures r.Some? ==> forall j', k' :: j <= j' && IsLinkMatch(s, i, j', k') ==>
              r.value.0 < j' || (r.value.0 == j' && r.value.1 <= k')
    ensures r.None? ==> forall j', k' :: j <= j' ==> !IsLinkMatch(s, i, j', k')
    decreases |s| - j
  {
    var lineEnd := NextNewline(s, i + 1);
    if j + 2 >= lineEnd then None
    else if s[j] == ']' && s[j + 1] == '(' && FirstParen(s, j + 2, lineEnd) >= 0 then
      Some((j, FirstParen(s, j + 2, lineEnd)))
    else FindClose(s, i, j + 1)
  }

  /** A match: `[` at `start`, `](` at `close`, and the closing `)` just before
      `end`; the target is the text in the parentheses. */
  datatype Match = Match(start: nat, close: nat, end: nat)

  predicate IsMatchIn(s: string, m: Match) {
    IsLinkMatch(s, m.start, m.close, m.end - 1)
  }

  /** The match of the pattern that starts at `i`, if there is one; of all the
      ways the pattern could match there, the one with the shortest label and
      then the shortest target, as the lazy quantifiers choose. */
  function MatchAt(s: string, i: nat): (r: Option<Match>)
    ensures r.Some? ==> r.value.start == i && IsMatchIn(s, r.value)
  {
    if i < |s| && s[i] == '[' then
      match FindClose(s, i, i + 1)
      case None => None
      case Some(jk) => Some(Match(i, jk.0, jk.1 + 1))
    else None
  }

  /** The match `MatchAt` finds is the least one in (label end, closing
      parenthesis) order, and when it finds none no match starts at `i`. */
  lemma MatchAtIsFirst(s: string, i: nat)
    ensures var r := MatchAt(s, i);
      && (r.Some? ==> forall j, k :: IsLinkMatch(s, i, j, k) ==>
            r.value.close < j || (r.value.close == j && r.value.end - 1 <= k))
      && (r.None? ==> forall j, k :: !IsLinkMatch(s, i, j, k))
  {
    if i < |s| && s[i] == '[' {
      var jk := FindClose(s, i, i + 1);
      assert forall j, k :: IsLinkMatch(s, i, j, k) ==> i + 1 <= j;
    }
  }

  /** `match.group(1)`. */
  function Target(s: string, m: Match): string
    requires IsMatchIn(s, m)
  {
    s[m.close + 2..m.end - 1]
  }

  // ---------------------------------------------------------------------------
  // The scan: a decomposition of the body into unmatched characters and matches

  /** A piece of the body as the substitution sees it: a character at which no
      match starts, or a whole match given by its text and its target. */
  datatype Piece = Verbatim(c: char) | Link(source: string, target: string)

  /** The pieces `re.sub` sees from position `i` on: where no match starts the
      character is kept and the scan moves one on; after a match it resumes at
      the match's end. */
  function Pieces(s: string, i: nat): (ps: seq<Piece>)
    requires i <= |s|
    decreases |s| - i
  {
    if i == |s| then []
    else
      match MatchAt(s, i)
      case None => [Verbatim(s[i])] + Pieces(s, i + 1)
      case Some(m) => [Link(s[m.start..m.end], Target(s, m))] + Pieces(s, m.end)
  }

  /** The text a piece covers. */
  function SourceOf(p: Piece): string {
    match p
    case Verbatim(c) => [c]
    case Link(source, _) => source
  }

  function Sources(ps: seq<Piece>): string {
    if ps == [] then [] else SourceOf(ps[0]) + Sources(ps[1..])
  }

  /** The first piece at `i` covers `s[i..next]` for the position `next` where
      the scan goes on, and the rest are the pieces from there. */
  lemma PiecesHead(s: string, i: nat) returns (next: nat)
    requires i < |s|
    ensures i < next <= |s|
    ensures var ps := Pieces(s, i);
      |ps| > 0 && SourceOf(ps[0]) == s[i..next] && ps[1..] == Pieces(s, next)
  {
    next := if MatchAt(s, i).Some? then MatchAt(s, i).value.end else i + 1;
  }

  /** The pieces tile the text: read back in order they give the body from `i`
      on, so the matches are disjoint and everything between them is kept. */
  lemma {:induction false} PiecesTile(s: string, i: nat)
    requires i <= |s|
    ensures Sources(Pieces(s, i)) == s[i..]
    decreases |s| - i
  {
    if i < |s| {
      var next := PiecesHead(s, i);
      PiecesTile(s, next);
      SourcesCons(Pieces(s, i), s[i..next], s[next..]);
      SliceSplit(s, i, next);
    }
  }

  lemma SourcesCons(ps: seq<Piece>, head: string, tail: string)
    requires |ps| > 0 && SourceOf(ps[0]) == head && Sources(ps[1..]) == tail
    ensures Sources(ps) == head + tail
  {
  }

  // ---------------------------------------------------------------------------
  // Classification and replacement

  /** `file_name.lower().endswith(tuple(supported_formats))`. */
  predicate IsSupportedImage(name: string) {
    exists x :: 0 <= x < |SupportedFormats| && EndsWith(Lower(name), SupportedFormats[x])
  }

  /** What the callback makes of a piece: text it keeps, or a PDF or image
      file it lists. */
  datatype Item = Kept(text: string) | PdfLink(name: string) | ImageLink(name: string)

  /** The callback: the link's file is `os.path.basename(match.group(1))`; a
      PDF is tested for first, then the image formats, and any other link is
      kept as it was (lines 392-400). */
  function ItemOf(p: Piece): Item {
    match p
    case Verbatim(c) => Kept([c])
    case Link(source, target) =>
      var name := Paths.Basename(target);
      if EndsWith(Lower(name), ".pdf") then PdfLink(name)
      else if IsSupportedImage(name) then ImageLink(name)
      else Kept(source)
  }

  function Items(ps: seq<Piece>): (items: seq<Item>)
    ensures |items| == |ps|
  {
    if ps == [] then [] else [ItemOf(ps[0])] + Items(ps[1..])
  }

  /** `process_image_attachment`'s tag (line 408). */
  function ImageTag(resourcesDir: string, name: string): string {
    "<img src=\"" + Paths.Join(resourcesDir, name) + "\" alt=\"" + name + "\" title=\"" + name + "\">"
  }

  /** `process_pdf_attachment`'s placeholder for the PDF at index `k` (line 413). */
  function PdfPlaceholder(k: nat): (r: string)
    ensures StartsWith(r, "[[PDF_ATTACHMENT_") && EndsWith(r, "]]")
  {
    "[[PDF_ATTACHMENT_" + NatToString(k) + "]]"
  }

  /** Placeholders of different indices are different texts. */
  lemma PdfPlaceholderInjective(j: nat, k: nat)
    requires PdfPlaceholder(j) == PdfPlaceholder(k)
    ensures j == k
  {
    var a, b := NatToString(j), NatToString(k);
    var pre := "[[PDF_ATTACHMENT_";
    assert a == PdfPlaceholder(j)[|pre|..|pre| + |a|];
    assert b == PdfPlaceholder(k)[|pre|..|pre| + |b|];
    assert |a| == |b|;
    NatToStringInjective(j, k);
  }

  /** What the pass writes for one item, `pdfIndex` being the number of PDFs
      listed before it. */
  function Output(item: Item, pdfIndex: nat, resourcesDir: string): string {
    match item
    case Kept(text) => text
    case PdfLink(_) => PdfPlaceholder(pdfIndex)
    case ImageLink(name) => ImageTag(resourcesDir, name)
  }

  // ---------------------------------------------------------------------------
  // The pass

  /** The three results of `process_attachments`. */
  datatype Rewrite = Rewrite(text: string, images: seq<string>, pdfs: seq<string>)

  /** The state of the pass after handling one more item. */
  function Step(r: Rewrite, item: Item, resourcesDir: string): Rewrite {
    match item
    case Kept(text) => r.(text := r.text + text)
    case PdfLink(name) => Rewrite(r.text + PdfPlaceholder(|r.pdfs|), r.images, r.pdfs + [name])
    case ImageLink(name) => Rewrite(r.text + ImageTag(resourcesDir, name), r.images + [name], r.pdfs)
  }

  /** The pass continued from state `r` over `items`. */
  function Run(r: Rewrite, items: seq<Item>, resourcesDir: string): Rewrite
    decreases items
  {
    if items == [] then r else Run(Step(r, items[0], resourcesDir), items[1..], resourcesDir)
  }

  /** The result of the whole pass over `body`. */
  function ProcessedBody(body: string, resourcesDir: string): Rewrite {
    Run(Rewrite([], [], []), Items(Pieces(body, 0)), resourcesDir)
  }

  /** `process_attachments`: the substitution pass, with the two lists that its
      callback appends to. */
  method ProcessAttachments(body: string, resourcesDir: string)
    returns (processed: string, images: seq<string>, pdfs: seq<string>)
    ensures Rewrite(processed, images, pdfs) == ProcessedBody(body, resourcesDir)
  {
    processed, images, pdfs := [], [], [];
    var i := 0;
    while i < |body|
      invariant 0 <= i <= |body|
      invariant Run(Rewrite(processed, images, pdfs), Items(Pieces(body, i)), resourcesDir)
                == ProcessedBody(body, resourcesDir)
      decreases |body| - i
    {
      ghost var items := Items(Pieces(body, i));
      assert items == [items[0]] + items[1..];
      match MatchAt(body, i)
      case None =>
        assert items[1..] == Items(Pieces(body, i + 1));
        processed := processed + [body[i]];
        i := i + 1;
      case Some(m) =>
        assert items[1..] == Items(Pieces(body, m.end));
        var name := Paths.Basename(Target(body, m));
        if EndsWith(Lower(name), ".pdf") {
          pdfs := pdfs + [name];
          processed := processed + PdfPlaceholder(|pdfs| - 1);
        } else if IsSupportedImage(name) {
          images := images + [name];
          processed := processed + ImageTag(resourcesDir, name);
        } else {
          processed := processed + body[m.start..m.end];
        }
        i := m.end;
    }
  }

  // ---------------------------------------------------------------------------
  // What the pass computes

  /** The names of the image links among `items`, in order. */
  function ImageNames(items: seq<Item>): seq<string> {
    if items == [] then []
    else (if items[0].ImageLink? then [items[0].name] else []) + ImageNames(items[1..])
  }

  /** The names of the PDF links among `items`, in order. */
  function PdfNames(items: seq<Item>): seq<string> {
    if items == [] then []
    else (if items[0].PdfLink? then [items[0].name] else []) + PdfNames(items[1..])
  }

  /** What is written for each of `items`, the first PDF among them numbered
      `base`. */
  function Outputs(items: seq<Item>, base: nat, resourcesDir: string): (outs: seq<string>)
    ensures |outs| == |items|
  {
    if items == [] then []
    else
      [Output(items[0], base, resourcesDir)] +
      Outputs(items[1..], base + (if items[0].PdfLink? then 1 else 0), resourcesDir)
  }

  function Concat(parts: seq<string>): string {
    if parts == [] then [] else parts[0] + Concat(parts[1..])
  }

  /** The pass appends, to the state it starts from, the outputs of the items
      with PDFs numbered on from the ones already listed, the image names and
      the PDF names, each in order. */
  lemma {:induction false} RunAppends(r: Rewrite, items: seq<Item>, resourcesDir: string)
    ensures Run(r, items, resourcesDir) ==
            Rewrite(r.text + Concat(Outputs(items, |r.pdfs|, resourcesDir)),
                    r.images + ImageNames(items), r.pdfs + PdfNames(items))
    decreases items
  {
    if items != [] {
      var item, rest := items[0], items[1..];
      var r' := Step(r, item, resourcesDir);
      RunAppends(r', rest, resourcesDir);
      var out := Output(item, |r.pdfs|, resourcesDir);
      var imgs := if item.ImageLink? then [item.name] else [];
      var pdfs := if item.PdfLink? then [item.name] else [];
      assert r' == Rewrite(r.text + out, r.images + imgs, r.pdfs + pdfs);
      var outs := Outputs(rest, |r'.pdfs|, resourcesDir);
      assert Outputs(items, |r.pdfs|, resourcesDir) == [out] + outs;
      ConcatCons(out, outs);
      AppendAssoc(r.text, out, Concat(outs));
      AppendAssoc(r.images, imgs, ImageNames(rest));
      AppendAssoc(r.pdfs, pdfs, PdfNames(rest));
    }
  }

  lemma ConcatCons(head: string, parts: seq<string>)
    ensures Concat([head] + parts) == head + Concat(parts)
  {
    assert ([head] + parts)[1..] == parts;
  }

  /** The whole pass: the body rewritten piece by piece, with the image and PDF
      names in the order their links appear. */
  lemma ProcessedBodyParts(body: string, resourcesDir: string)
    ensures var items := Items(Pieces(body, 0));
      ProcessedBody(body, resourcesDir) ==
      Rewrite(Concat(Outputs(items, 0, resourcesDir)), ImageNames(items), PdfNames(items))
  {
    RunAppends(Rewrite([], [], []), Items(Pieces(body, 0)), resourcesDir);
  }

  /** The names listed for `a + b` are those for `a` followed by those for `b`. */
  lemma {:induction false} PdfNamesAppend(a: seq<Item>, b: seq<Item>)
    ensures PdfNames(a + b) == PdfNames(a) + PdfNames(b)
  {
    if a == [] {
      assert a + b == b;
    } else {
      PdfNamesAppend(a[1..], b);
      assert (a + b)[0] == a[0];
      assert (a + b)[1..] == a[1..] + b;
      var head := if a[0].PdfLink? then [a[0].name] else [];
      assert PdfNames(a + b) == head + PdfNames(a[1..] + b);
      AppendAssoc(head, PdfNames(a[1..]), PdfNames(b));
    }
  }

  lemma {:induction false} ImageNamesAppend(a: seq<Item>, b: seq<Item>)
    ensures ImageNames(a + b) == ImageNames(a) + ImageNames(b)
  {
    if a == [] {
      assert a + b == b;
    } else {
      ImageNamesAppend(a[1..], b);
      assert (a + b)[0] == a[0];
      assert (a + b)[1..] == a[1..] + b;
      var head := if a[0].ImageLink? then [a[0].name] else [];
      assert ImageNames(a + b) == head + ImageNames(a[1..] + b);
      AppendAssoc(head, ImageNames(a[1..]), ImageNames(b));
    }
  }

  lemma NamesSplit(items: seq<Item>, t: nat)
    requires t <= |items|
    ensures PdfNames(items) == PdfNames(items[..t]) + PdfNames(items[t..])
    ensures ImageNames(items) == ImageNames(items[..t]) + ImageNames(items[t..])
  {
    assert items[..t] + items[t..] == items;
    PdfNamesAppend(items[..t], items[t..]);
    ImageNamesAppend(items[..t], items[t..]);
  }

  /** Item `t` is written numbered on from the PDFs before it. */
  lemma {:induction false} OutputAt(items: seq<Item>, t: nat, base: nat, resourcesDir: string)
    requires t < |items|
    ensures Outputs(items, base, resourcesDir)[t] ==
            Output(items[t], base + |PdfNames(items[..t])|, resourcesDir)
  {
    if t > 0 {
      var step := if items[0].PdfLink? then 1 else 0;
      OutputAt(items[1..], t - 1, base + step, resourcesDir);
      assert items[..t][1..] == items[1..][..t - 1];
      assert |PdfNames(items[..t])| == step + |PdfNames(items[1..][..t - 1])|;
    }
  }

  /** Lockstep for PDFs: a PDF item with k PDF items before it is entry k of
      the PDF list, and it is written as placeholder k, so each placeholder
      names its own file. */
  lemma PdfLockstep(items: seq<Item>, t: nat, resourcesDir: string)
    requires t < |items| && items[t].PdfLink?
    ensures var k := |PdfNames(items[..t])|;
      && k < |PdfNames(items)| && PdfNames(items)[k] == items[t].name
      && Outputs(items, 0, resourcesDir)[t] == PdfPlaceholder(k)
  {
    NamesSplit(items, t);
    OutputAt(items, t, 0, resourcesDir);
    assert items[t..][0] == items[t];
  }

  /** Lockstep for images: an image item with k image items before it is entry
      k of the image list, and it is written as the tag for its own file. */
  lemma ImageLockstep(items: seq<Item>, t: nat, resourcesDir: string)
    requires t < |items| && items[t].ImageLink?
    ensures var k := |ImageNames(items[..t])|;
      && k < |ImageNames(items)| && ImageNames(items)[k] == items[t].name
      && Outputs(items, 0, resourcesDir)[t] == ImageTag(resourcesDir, items[t].name)
  {
    NamesSplit(items, t);
    OutputAt(items, t, 0, resourcesDir);
    assert items[t..][0] == items[t];
  }

  /** Every listed PDF name ends in `.pdf` in some case and every listed image
      name in a supported suffix without ending in `.pdf`; no name holds a `/`. */
  lemma {:induction false} ListedNamesClassified(ps: seq<Piece>)
    ensures forall n :: n in PdfNames(Items(ps)) ==> EndsWith(Lower(n), ".pdf") && '/' !in n
    ensures forall n :: n in ImageNames(Items(ps)) ==>
              !EndsWith(Lower(n), ".pdf") && IsSupportedImage(n) && '/' !in n
  {
    if ps != [] {
      ListedNamesClassified(ps[1..]);
      assert Items(ps)[1..] == Items(ps[1..]);
    }
  }

  /** A body in which no match starts anywhere comes back unchanged, with both
      lists empty. */
  lemma {:induction false} NoLinksNoChange(s: string, i: nat, resourcesDir: string)
    requires i <= |s|
    requires forall p :: i <= p < |s| ==> MatchAt(s, p).None?
    ensures Concat(Outputs(Items(Pieces(s, i)), 0, resourcesDir)) == s[i..]
    ensures ImageNames(Items(Pieces(s, i))) == [] && PdfNames(Items(Pieces(s, i))) == []
    decreases |s| - i
  {
    if i < |s| {
      NoLinksNoChange(s, i + 1, resourcesDir);
      var items := Items(Pieces(s, i));
      assert items[1..] == Items(Pieces(s, i + 1));
      assert s[i..] == [s[i]] + s[i + 1..];
    }
  }
}
