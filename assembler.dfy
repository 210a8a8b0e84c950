/** The document assembler: the HTML wrapper handed to the platform's HTML
    reader, the rich-text document it yields, the binding of image names to
    its attachments (`set_attachment_filenames`, lines 448-458), the embedding
    of PDFs at their placeholders (`embed_pdf_attachments`, lines 461-488) and
    the choice of the output path (lines 491-521). */
module Assembler {
  import opened Text
  import Paths
  import opened Issues
  import Attachments

  // ---------------------------------------------------------------------------
  // The HTML wrapper

  /** `ConversionConfig.custom_css` (lines 53-71), verbatim. */
  const CustomCss: string :=
    "\n" +
    "            <style>\n" +
    "            body { font-family: '-apple-system'; font-size: 12pt; }\n" +
    "            h1 { font-size: 24pt; font-weight: bold; }\n" +
    "            h2 { font-size: 18pt; font-weight: bold; }\n" +
    "            h3 { font-size: 16pt; font-weight: bold; }\n" +
    "            h4 { font-size: 14pt; font-weight: bold; }\n" +
    "            h5 { font-size: 12pt; font-weight: bold; }\n" +
    "            h6 { font-size: 12pt; font-weight: bold; }\n" +
    "            p { margin: 0 0 12pt 0; }\n" +
    "            strong, b { font-weight: bold; }\n" +
    "            em, i { font-style: italic; }\n" +
    "            ul, ol { margin: 0 0 12pt 24pt; }\n" +
    "            li { margin: 0 0 6pt 0; }\n" +
    "            blockquote { margin: 0 0 12pt 24pt; font-style: italic; color: #555; }\n" +
    "            code { font-family: Menlo; background-color: #f4f4f4; padding: 2px 4px; }\n" +
    "            pre { font-family: Menlo; background-color: #f4f4f4; padding: 6px; }\n" +
    "            </style>\n" +
    "        "

  const HtmlHead: string := "<html><head>" + CustomCss + "</head><body>"
  const HtmlTail: string := "</body></html>"

  /** `generate_html_content` (lines 416-421): a `.md` note goes through the
      markdown converter, any other file is taken as HTML already; either way
      the result is wrapped with the stylesheet. */
  function GenerateHtml(content: string, filePath: string, markdown: string -> string): (html: string)
    ensures StartsWith(html, HtmlHead) && EndsWith(html, HtmlTail)
  {
    var body := if EndsWith(filePath, ".md") then markdown(content) else content;
    HtmlHead + body + HtmlTail
  }

  /** The text between the wrapper's head and tail. */
  function HtmlBody(html: string): string
    requires |HtmlHead| + |HtmlTail| <= |html|
  {
    html[|HtmlHead|..|html| - |HtmlTail|]
  }

  /** The wrapper gives back the converted body, and a file not ending in `.md`
      is passed through unchanged. */
  lemma GenerateHtmlBody(content: string, filePath: string, markdown: string -> string)
    ensures var html := GenerateHtml(content, filePath, markdown);
      |HtmlHead| + |HtmlTail| <= |html| &&
      HtmlBody(html) == (if EndsWith(filePath, ".md") then markdown(content) else content)
  {
    var body := if EndsWith(filePath, ".md") then markdown(content) else content;
    var html := HtmlHead + body + HtmlTail;
    assert html[|HtmlHead|..|html| - |HtmlTail|] == body;
  }

  // ---------------------------------------------------------------------------
  // The rich-text document

  /** A text attachment: the file it wraps and the name the file is saved
      under in the package. */
  datatype Attachment = Attachment(file: string, preferredName: string)

  /** One element of the document: a character with its attributes (drawn
      from a set of styles), or an attachment. */
  datatype Elem = Ch(c: char, style: nat) | Obj(attachment: Attachment)

  /** The character an attachment shows in the document's plain text. */
  const AttachmentChar: char := '￼'

  function CharOf(e: Elem): char {
    if e.Ch? then e.c else AttachmentChar
  }

  /** The document's plain text (`mutableString()`). */
  function TextOf(doc: seq<Elem>): (t: string)
    ensures |t| == |doc|
  {
    if doc == [] then [] else [CharOf(doc[0])] + TextOf(doc[1..])
  }

  /** The plain text shows each element at its own index. */
  lemma {:induction false} TextOfAt(doc: seq<Elem>, i: nat)
    requires i < |doc|
    ensures TextOf(doc)[i] == CharOf(doc[i])
  {
    if i > 0 {
      TextOfAt(doc[1..], i - 1);
    }
  }

  /** The end of a run of characters of style `style` starting at `from`. */
  function StyleRunEnd(doc: seq<Elem>, from: nat, style: nat): (e: nat)
    requires from <= |doc|
    ensures from <= e <= |doc|
    ensures forall i :: from <= i < e ==> doc[i].Ch? && doc[i].style == style
    ensures e < |doc| ==> !(doc[e].Ch? && doc[e].style == style)
    decreases |doc| - from
  {
    if from < |doc| && doc[from].Ch? && doc[from].style == style then StyleRunEnd(doc, from + 1, style)
    else from
  }

  /** The end of the longest range of equal attributes starting at `pos`: an
      attachment is a range of its own, and a character's range runs on while
      the attributes stay the same. */
  function RunEnd(doc: seq<Elem>, pos: nat): (e: nat)
    requires pos < |doc|
    ensures pos < e <= |doc|
    ensures doc[pos].Obj? ==> e == pos + 1
    ensures doc[pos].Ch? ==> forall i :: pos <= i < e ==> doc[i].Ch?
  {
    if doc[pos].Obj? then pos + 1 else StyleRunEnd(doc, pos + 1, doc[pos].style)
  }

  /** The number of attachments in `doc`. */
  function AttachmentCount(doc: seq<Elem>): nat {
    if doc == [] then 0 else (if doc[0].Obj? then 1 else 0) + AttachmentCount(doc[1..])
  }

  /** The preferred names of the attachments in `doc`, in order. */
  function AttachmentNames(doc: seq<Elem>): (names: seq<string>)
    ensures |names| == AttachmentCount(doc)
  {
    if doc == [] then []
    else (if doc[0].Obj? then [doc[0].attachment.preferredName] else []) + AttachmentNames(doc[1..])
  }

  lemma {:induction false} AttachmentCountAppend(a: seq<Elem>, b: seq<Elem>)
    ensures AttachmentCount(a + b) == AttachmentCount(a) + AttachmentCount(b)
  {
    if a != [] {
      AttachmentCountAppend(a[1..], b);
      assert (a + b)[1..] == a[1..] + b;
    } else {
      assert a + b == b;
    }
  }

  lemma {:induction false} NoAttachmentsInText(s: seq<Elem>)
    requires forall i :: 0 <= i < |s| ==> s[i].Ch?
    ensures AttachmentCount(s) == 0
  {
    if s != [] {
      NoAttachmentsInText(s[1..]);
    }
  }

  /** The attributed string being converted, edited in place. */
  class RichText {
    var content: seq<Elem>

    constructor (content: seq<Elem>)
      ensures this.content == content
    {
      this.content := content;
    }

    /** `set_attachment_filenames`: visit the ranges of equal attributes in
        order, and give the k-th attachment met the k-th image name while
        there are names left. Returns the number of names used. */
    method SetAttachmentFilenames(names: seq<string>) returns (imageIndex: nat)
      modifies this
      ensures content == BindNames(old(content), names)
      ensures imageIndex == Min(AttachmentCount(old(content)), |names|)
    {
      var pos, length := 0, |content|;
      imageIndex := 0;
      while pos < length
        invariant pos <= length == |content|
        invariant content[pos..] == old(content)[pos..]
        invariant content[..pos] + BindFrom(content[pos..], names, imageIndex) == BindNames(old(content), names)
        invariant imageIndex == Min(AttachmentCount(old(content)[..pos]), |names|)
        decreases length - pos
      {
        var end := RunEnd(content, pos);
        BindLoopStep(old(content), content, names, imageIndex, pos);
        if content[pos].Obj? && imageIndex < |names| {
          content := content[pos := Named(content[pos], names[imageIndex])];
          imageIndex := imageIndex + 1;
        }
        pos := end;
      }
      assert old(content)[..pos] == old(content);
      assert content[pos..] == [];
      assert content[..pos] == content;
    }

    /** `embed_pdf_attachments`: for each listed PDF in index order, record an
        invalid attachment when its decoded file is missing or cannot be
        wrapped, else replace the first occurrence of its placeholder by an
        attachment for the file, or record a missing placeholder. */
    method EmbedPdfAttachments(pdfs: seq<string>, env: EmbedEnv, tracker: IssueTracker)
      modifies this, tracker
      ensures var r := EmbedAll(old(content), env, pdfs);
        && content == r.doc
        && tracker.Issues(FilesWithInvalidAttachments) == old(tracker.Issues(FilesWithInvalidAttachments)) + r.invalid
        && tracker.Issues(FilesWithAttachmentIssues) == old(tracker.Issues(FilesWithAttachmentIssues)) + r.missing
      ensures forall kind :: kind != FilesWithInvalidAttachments && kind != FilesWithAttachmentIssues ==>
                tracker.Issues(kind) == old(tracker.Issues(kind))
    {
      ghost var invalid: seq<string> := [];
      ghost var missing: seq<string> := [];
      for index := 0 to |pdfs|
        invariant EmbedRun(EmbedState(content, invalid, missing), env, pdfs, index) == EmbedAll(old(content), env, pdfs)
        invariant tracker.Issues(FilesWithInvalidAttachments) == old(tracker.Issues(FilesWithInvalidAttachments)) + invalid
        invariant tracker.Issues(FilesWithAttachmentIssues) == old(tracker.Issues(FilesWithAttachmentIssues)) + missing
        invariant forall kind :: kind != FilesWithInvalidAttachments && kind != FilesWithAttachmentIssues ==>
                    tracker.Issues(kind) == old(tracker.Issues(kind))
      {
        ghost var next := EmbedOne(EmbedState(content, invalid, missing), env, index, pdfs[index]);
        EmbedRunStep(EmbedState(content, invalid, missing), env, pdfs, index);
        var decoded := env.unquote(pdfs[index]);
        var pdfPath := Paths.Join(env.resourcesDir, decoded);
        if pdfPath !in env.existing || !env.canWrap(pdfPath) {
          tracker.AddIssue(FilesWithInvalidAttachments, InvalidPdfMessage(pdfPath));
          invalid := invalid + [InvalidPdfMessage(pdfPath)];
        } else {
          var placeholder := Attachments.PdfPlaceholder(index);
          var location := IndexOf(TextOf(content), placeholder, 0);
          if location >= 0 {
            content := content[..location] + [Obj(Attachment(pdfPath, decoded))] + content[location + |placeholder|..];
          } else {
            tracker.AddIssue(FilesWithAttachmentIssues, MissingPlaceholderMessage(placeholder));
            missing := missing + [MissingPlaceholderMessage(placeholder)];
          }
        }
        assert EmbedState(content, invalid, missing) == next;
      }
    }
  }

  function Min(a: nat, b: nat): nat {
    if a <= b then a else b
  }

  // ---------------------------------------------------------------------------
  // Binding image names

  /** The attachment `e` saved under `name`. */
  function Named(e: Elem, name: string): Elem
    requires e.Obj?
  {
    Obj(e.attachment.(preferredName := name))
  }

  /** `doc` with its attachments named from `names[k..]` in order, while names
      last. */
  function BindFrom(doc: seq<Elem>, names: seq<string>, k: nat): seq<Elem> {
    if doc == [] then []
    else if doc[0].Obj? && k < |names| then [Named(doc[0], names[k])] + BindFrom(doc[1..], names, k + 1)
    else [doc[0]] + BindFrom(doc[1..], names, k)
  }

  function BindNames(doc: seq<Elem>, names: seq<string>): seq<Elem> {
    BindFrom(doc, names, 0)
  }

  /** The loop of `set_attachment_filenames` keeps its invariant over one
      range: the document before `pos` is bound, from `pos` on it is still the
      original, and the names used are those of the attachments passed. */
  lemma BindLoopStep(orig: seq<Elem>, cur: seq<Elem>, names: seq<string>, k: nat, pos: nat)
    requires pos < |cur| == |orig| && cur[pos..] == orig[pos..]
    requires cur[..pos] + BindFrom(cur[pos..], names, k) == BindNames(orig, names)
    requires k == Min(AttachmentCount(orig[..pos]), |names|)
    ensures var end := RunEnd(cur, pos);
      var take := cur[pos].Obj? && k < |names|;
      var cur' := if take then cur[pos := Named(cur[pos], names[k])] else cur;
      var k' := if take then k + 1 else k;
      && cur'[end..] == orig[end..]
      && cur'[..end] + BindFrom(cur'[end..], names, k') == BindNames(orig, names)
      && k' == Min(AttachmentCount(orig[..end]), |names|)
  {
    var end := RunEnd(cur, pos);
    assert cur[pos..end] == orig[pos..end] by {
      assert cur[pos..end] == cur[pos..][..end - pos];
      assert orig[pos..end] == orig[pos..][..end - pos];
    }
    BindRun(cur, names, k, pos, end);
    AttachmentCountAppend(orig[..pos], orig[pos..end]);
    assert orig[..end] == orig[..pos] + orig[pos..end];
    if cur[pos].Ch? {
      NoAttachmentsInText(cur[pos..end]);
    }
    if cur[pos].Obj? && k < |names| {
      var cur' := cur[pos := Named(cur[pos], names[k])];
      assert cur'[..end] == cur[..pos] + [Named(cur[pos], names[k])];
      assert cur'[end..] == cur[end..];
    } else {
      assert cur[..end] == cur[..pos] + cur[pos..end];
    }
    assert cur[end..] == orig[end..] by {
      assert cur[end..] == cur[pos..][end - pos..];
      assert orig[end..] == orig[pos..][end - pos..];
    }
  }

  /** One range of the loop: an attachment takes the next name if one is left;
      a range of characters is kept. */
  lemma BindRun(s: seq<Elem>, names: seq<string>, k: nat, pos: nat, end: nat)
    requires pos < |s| && end == RunEnd(s, pos)
    ensures s[pos].Obj? && k < |names| ==>
      BindFrom(s[pos..], names, k) == [Named(s[pos], names[k])] + BindFrom(s[end..], names, k + 1)
    ensures !(s[pos].Obj? && k < |names|) ==>
      BindFrom(s[pos..], names, k) == s[pos..end] + BindFrom(s[end..], names, k)
  {
    assert s[pos..][1..] == s[pos + 1..];
    if s[pos].Ch? {
      BindKeepsText(s[pos..], names, k, end - pos);
      assert s[pos..][..end - pos] == s[pos..end];
      assert s[pos..][end - pos..] == s[end..];
    }
  }

  /** Characters before the first attachment are kept as they are. */
  lemma {:induction false} BindKeepsText(s: seq<Elem>, names: seq<string>, k: nat, j: nat)
    requires j <= |s| && forall i :: 0 <= i < j ==> s[i].Ch?
    ensures BindFrom(s, names, k) == s[..j] + BindFrom(s[j..], names, k)
  {
    if j > 0 {
      BindKeepsText(s[1..], names, k, j - 1);
      assert s[1..][..j - 1] == s[..j][1..];
      assert s[1..][j - 1..] == s[j..];
      assert s[..j] == [s[0]] + s[..j][1..];
    } else {
      assert s[j..] == s;
    }
  }

  /** Binding keeps every element in place: characters are untouched, and an
      attachment keeps its file and changes at most its name. */
  lemma {:induction false} BindKeepsShape(s: seq<Elem>, names: seq<string>, k: nat)
    ensures |BindFrom(s, names, k)| == |s|
    ensures forall i :: 0 <= i < |s| && s[i].Ch? ==> BindFrom(s, names, k)[i] == s[i]
    ensures forall i :: 0 <= i < |s| && s[i].Obj? ==>
              BindFrom(s, names, k)[i].Obj? && BindFrom(s, names, k)[i].attachment.file == s[i].attachment.file
  {
    if s != [] {
      BindKeepsShape(s[1..], names, if s[0].Obj? && k < |names| then k + 1 else k);
    }
  }

  /** `b` with its first entries replaced by those of `a`, as far as both go. */
  function Overlay<T>(a: seq<T>, b: seq<T>): (r: seq<T>)
    ensures |r| == |b|
  {
    if |b| == 0 then []
    else if |a| == 0 then b
    else [a[0]] + Overlay(a[1..], b[1..])
  }

  lemma {:induction false} OverlaySplice<T>(a: seq<T>, b: seq<T>)
    ensures var m := Min(|a|, |b|); Overlay(a, b) == a[..m] + b[m..]
  {
    if |b| > 0 && |a| > 0 {
      OverlaySplice(a[1..], b[1..]);
      OverlayStep(a, b, Min(|a|, |b|));
    } else if |b| == 0 {
      assert b[0..] == [];
    } else {
      assert b[0..] == b;
    }
  }

  /** One step of `OverlaySplice`: the splice of the tails, with the heads put back. */
  lemma OverlayStep<T>(a: seq<T>, b: seq<T>, m: nat)
    requires 0 < |a| && 0 < |b| && m == Min(|a|, |b|)
    requires Overlay(a[1..], b[1..]) == a[1..][..m - 1] + b[1..][m - 1..]
    ensures Overlay(a, b) == a[..m] + b[m..]
  {
    var front, back := a[1..][..m - 1], b[1..][m - 1..];
    assert Overlay(a, b) == [a[0]] + (front + back);
    HeadSlices(a, b, m);
    ConcatAssoc([a[0]], front, back);
  }

  lemma ConcatAssoc<T>(x: seq<T>, y: seq<T>, z: seq<T>)
    ensures x + (y + z) == (x + y) + z
  {
  }

  lemma HeadSlices<T>(a: seq<T>, b: seq<T>, m: nat)
    requires 0 < m <= |a| && m <= |b|
    ensures a[..m] == [a[0]] + a[1..][..m - 1] && b[m..] == b[1..][m - 1..]
  {
    assert forall k :: 0 < k < m ==> a[..m][k] == a[1..][..m - 1][k - 1];
  }

  /** The k-th attachment gets the k-th name: binding from name `k` lays the
      names from `k` on over the attachments' names, in order. */
  lemma {:induction false} BindOverlays(s: seq<Elem>, names: seq<string>, k: nat)
    requires k <= |names|
    ensures AttachmentNames(BindFrom(s, names, k)) == Overlay(names[k..], AttachmentNames(s))
  {
    if s != [] {
      var rest := s[1..];
      if s[0].Obj? && k < |names| {
        var bound := BindFrom(rest, names, k + 1);
        BindOverlays(rest, names, k + 1);
        assert ([Named(s[0], names[k])] + bound)[1..] == bound;
        assert names[k..][1..] == names[k + 1..];
        var own := [s[0].attachment.preferredName] + AttachmentNames(rest);
        assert AttachmentNames(s) == own && own[1..] == AttachmentNames(rest);
      } else {
        var bound := BindFrom(rest, names, k);
        BindOverlays(rest, names, k);
        assert ([s[0]] + bound)[1..] == bound;
        if s[0].Obj? {
          assert names[k..] == [];
          assert Overlay(names[k..], AttachmentNames(rest)) == AttachmentNames(rest);
          assert Overlay(names[k..], AttachmentNames(s)) == AttachmentNames(s);
          assert AttachmentNames(s) == [s[0].attachment.preferredName] + AttachmentNames(rest);
          assert AttachmentNames(BindFrom(s, names, k)) == [s[0].attachment.preferredName] + AttachmentNames(bound);
        } else {
          assert AttachmentNames(s) == AttachmentNames(rest);
          assert AttachmentNames(BindFrom(s, names, k)) == AttachmentNames(bound);
        }
      }
    }
  }

  /** The attachments are named, in order, by as many leading names as there
      are both attachments and names; the rest keep their names. */
  lemma BindAssignsInOrder(s: seq<Elem>, names: seq<string>)
    ensures var m := Min(AttachmentCount(s), |names|);
      AttachmentNames(BindNames(s, names)) == names[..m] + AttachmentNames(s)[m..]
  {
    BindOverlays(s, names, 0);
    assert names[0..] == names;
    OverlaySplice(names, AttachmentNames(s));
  }

  /** With at least as many names as attachments, the attachments are named
      exactly by the leading names. */
  lemma BindNamesAll(s: seq<Elem>, names: seq<string>)
    requires AttachmentCount(s) <= |names|
    ensures AttachmentNames(BindNames(s, names)) == names[..AttachmentCount(s)]
  {
    BindAssignsInOrder(s, names);
  }

  // ---------------------------------------------------------------------------
  // Embedding PDFs

  /** What the embedding consults: the resources directory, the paths that
      exist, the URL decoder, and whether a file wrapper can be made for a
      path. */
  datatype EmbedEnv = EmbedEnv(resourcesDir: string, existing: set<string>,
                               unquote: string -> string, canWrap: string -> bool)

  /** The document with the issues recorded so far. */
  datatype EmbedState = EmbedState(doc: seq<Elem>, invalid: seq<string>, missing: seq<string>)

  function InvalidPdfMessage(path: string): string {
    "Invalid PDF attachment in " + path
  }

  function MissingPlaceholderMessage(placeholder: string): string {
    "Missing placeholder " + placeholder + " in attributed string."
  }

  /** The handling of the PDF at `index`. */
  function EmbedOne(st: EmbedState, env: EmbedEnv, index: nat, fileName: string): EmbedState {
    var decoded := env.unquote(fileName);
    var path := Paths.Join(env.resourcesDir, decoded);
    if path !in env.existing || !env.canWrap(path) then
      st.(invalid := st.invalid + [InvalidPdfMessage(path)])
    else
      var placeholder := Attachments.PdfPlaceholder(index);
      var location := IndexOf(TextOf(st.doc), placeholder, 0);
      if location >= 0 then
        st.(doc := st.doc[..location] + [Obj(Attachment(path, decoded))] + st.doc[location + |placeholder|..])
      else
        st.(missing := st.missing + [MissingPlaceholderMessage(placeholder)])
  }

  /** The loop from `index` on. */
  function EmbedRun(st: EmbedState, env: EmbedEnv, pdfs: seq<string>, index: nat): EmbedState
    requires index <= |pdfs|
    decreases |pdfs| - index
  {
    if index == |pdfs| then st else EmbedRun(EmbedOne(st, env, index, pdfs[index]), env, pdfs, index + 1)
  }

  lemma EmbedRunStep(st: EmbedState, env: EmbedEnv, pdfs: seq<string>, index: nat)
    requires index < |pdfs|
    ensures EmbedRun(st, env, pdfs, index) == EmbedRun(EmbedOne(st, env, index, pdfs[index]), env, pdfs, index + 1)
  {
  }

  function EmbedAll(doc: seq<Elem>, env: EmbedEnv, pdfs: seq<string>): EmbedState {
    EmbedRun(EmbedState(doc, [], []), env, pdfs, 0)
  }

  /** A placeholder never shows an attachment's character. */
  lemma PlaceholderIsPlainText(k: nat)
    ensures AttachmentChar !in Attachments.PdfPlaceholder(k)
  {
    var digits := NatToString(k);
    var p := Attachments.PdfPlaceholder(k);
    forall i | 0 <= i < |p| ensures p[i] != AttachmentChar {
      if 17 <= i < 17 + |digits| {
        assert p[i] == digits[i - 17];
      }
    }
  }

  /** Where the plain text shows a placeholder, the document holds characters
      only. */
  lemma PlaceholderCoversText(doc: seq<Elem>, k: nat, location: nat)
    requires OccursAt(TextOf(doc), Attachments.PdfPlaceholder(k), location)
    ensures forall i :: location <= i < location + |Attachments.PdfPlaceholder(k)| ==> doc[i].Ch?
  {
    var p := Attachments.PdfPlaceholder(k);
    PlaceholderIsPlainText(k);
    forall i | location <= i < location + |p| ensures doc[i].Ch? {
      TextOfAt(doc, i);
      assert TextOf(doc)[i] == p[i - location];
    }
  }

  /** Which outcome a PDF has is decided by its checks: a path that does not
      exist or cannot be wrapped records an invalid-attachment issue with the
      document unchanged; a valid PDF whose placeholder is absent records a
      missing-placeholder issue with the document unchanged; otherwise one more
      attachment, for the decoded file under the decoded name, takes the place
      of the placeholder's first occurrence. */
  lemma EmbedOneOutcome(st: EmbedState, env: EmbedEnv, index: nat, fileName: string)
    ensures var r := EmbedOne(st, env, index, fileName);
      var decoded := env.unquote(fileName);
      var path := Paths.Join(env.resourcesDir, decoded);
      var valid := path in env.existing && env.canWrap(path);
      var placeholder := Attachments.PdfPlaceholder(index);
      && (!valid ==> r == st.(invalid := st.invalid + [InvalidPdfMessage(path)]))
      && (valid && !Contains(TextOf(st.doc), placeholder) ==>
            r == st.(missing := st.missing + [MissingPlaceholderMessage(placeholder)]))
      && (valid && Contains(TextOf(st.doc), placeholder) ==>
            r.invalid == st.invalid && r.missing == st.missing &&
            AttachmentCount(r.doc) == AttachmentCount(st.doc) + 1 &&
            exists location :: 0 <= location && OccursAt(TextOf(st.doc), placeholder, location) &&
              (forall i :: 0 <= i < location ==> !OccursAt(TextOf(st.doc), placeholder, i)) &&
              r.doc == st.doc[..location] + [Obj(Attachment(path, decoded))] + st.doc[location + |placeholder|..])
  {
    var decoded := env.unquote(fileName);
    var path := Paths.Join(env.resourcesDir, decoded);
    var placeholder := Attachments.PdfPlaceholder(index);
    if path in env.existing && env.canWrap(path) {
      var location := IndexOf(TextOf(st.doc), placeholder, 0);
      IndexOfContains(TextOf(st.doc), placeholder);
      if location >= 0 {
        var doc := st.doc;
        var end := location + |placeholder|;
        var e := Obj(Attachment(path, decoded));
        var r := EmbedOne(st, env, index, fileName);
        assert r == st.(doc := doc[..location] + [e] + doc[end..]);
        PlaceholderCoversText(doc, index, location);
        SpliceAddsOne(doc, location, end, e);
        assert OccursAt(TextOf(doc), placeholder, location);
        assert forall i :: 0 <= i < location ==> !OccursAt(TextOf(doc), placeholder, i);
        assert r.doc == doc[..location] + [Obj(Attachment(path, decoded))] + doc[location + |placeholder|..];
      } else {
        assert EmbedOne(st, env, index, fileName) == st.(missing := st.missing + [MissingPlaceholderMessage(placeholder)]);
      }
    } else {
      assert EmbedOne(st, env, index, fileName) == st.(invalid := st.invalid + [InvalidPdfMessage(path)]);
    }
  }

  /** Putting an attachment in place of a run of characters adds one
      attachment. */
  lemma SpliceAddsOne(doc: seq<Elem>, location: nat, end: nat, e: Elem)
    requires location <= end <= |doc| && e.Obj?
    requires forall i :: location <= i < end ==> doc[i].Ch?
    ensures AttachmentCount(doc[..location] + [e] + doc[end..]) == AttachmentCount(doc) + 1
  {
    var before, covered, after := doc[..location], doc[location..end], doc[end..];
    assert forall i :: 0 <= i < |covered| ==> covered[i] == doc[location + i];
    NoAttachmentsInText(covered);
    assert doc == before + covered + after;
    AttachmentCountAppend(before, covered);
    AttachmentCountAppend(before + covered, after);
    AttachmentCountAppend(before, [e]);
    AttachmentCountAppend(before + [e], after);
  }

  /** Every PDF is accounted for: the attachments added and the issues
      recorded add up to the number of PDFs. */
  lemma {:induction false} EmbedAccounts(st: EmbedState, env: EmbedEnv, pdfs: seq<string>, index: nat)
    requires index <= |pdfs|
    ensures var r := EmbedRun(st, env, pdfs, index);
      |r.invalid| + |r.missing| + AttachmentCount(r.doc) ==
      |st.invalid| + |st.missing| + AttachmentCount(st.doc) + (|pdfs| - index)
    decreases |pdfs| - index
  {
    if index < |pdfs| {
      EmbedOneOutcome(st, env, index, pdfs[index]);
      EmbedAccounts(EmbedOne(st, env, index, pdfs[index]), env, pdfs, index + 1);
    }
  }

  lemma EmbedAllAccounts(doc: seq<Elem>, env: EmbedEnv, pdfs: seq<string>)
    ensures var r := EmbedAll(doc, env, pdfs);
      |r.invalid| + |r.missing| + AttachmentCount(r.doc) == AttachmentCount(doc) + |pdfs|
  {
    EmbedAccounts(EmbedState(doc, [], []), env, pdfs, 0);
  }

  /** The invalid-attachment issues the PDFs from `index` on raise, in order:
      one for each PDF whose decoded file is missing or cannot be wrapped. */
  function InvalidMessages(env: EmbedEnv, pdfs: seq<string>, index: nat): seq<string>
    requires index <= |pdfs|
    decreases |pdfs| - index
  {
    if index == |pdfs| then []
    else
      var path := Paths.Join(env.resourcesDir, env.unquote(pdfs[index]));
      (if path !in env.existing || !env.canWrap(path) then [InvalidPdfMessage(path)] else [])
        + InvalidMessages(env, pdfs, index + 1)
  }

  /** The loop records exactly the invalid PDFs, whatever the document holds. */
  lemma {:induction false} EmbedRunInvalid(st: EmbedState, env: EmbedEnv, pdfs: seq<string>, index: nat)
    requires index <= |pdfs|
    ensures EmbedRun(st, env, pdfs, index).invalid == st.invalid + InvalidMessages(env, pdfs, index)
    decreases |pdfs| - index
  {
    if index < |pdfs| {
      var next := EmbedOne(st, env, index, pdfs[index]);
      var path := Paths.Join(env.resourcesDir, env.unquote(pdfs[index]));
      var own := if path !in env.existing || !env.canWrap(path) then [InvalidPdfMessage(path)] else [];
      assert next.invalid == st.invalid + own;
      EmbedRunInvalid(next, env, pdfs, index + 1);
      assert st.invalid + own + InvalidMessages(env, pdfs, index + 1)
          == st.invalid + (own + InvalidMessages(env, pdfs, index + 1));
    } else {
      assert st.invalid + [] == st.invalid;
    }
  }

  lemma EmbedAllInvalid(doc: seq<Elem>, env: EmbedEnv, pdfs: seq<string>)
    ensures EmbedAll(doc, env, pdfs).invalid == InvalidMessages(env, pdfs, 0)
  {
    EmbedRunInvalid(EmbedState(doc, [], []), env, pdfs, 0);
  }

  /** `create_mutable_attributed_string` (lines 424-429): the converted
      document, its attachments named from the image list, then the PDFs
      embedded; the image names are bound before any PDF attachment exists. */
  method CreateMutableAttributedString(converted: seq<Elem>, images: seq<string>, pdfs: seq<string>,
                                       env: EmbedEnv, tracker: IssueTracker)
    returns (text: RichText)
    modifies tracker
    ensures fresh(text)
    ensures var r := EmbedAll(BindNames(converted, images), env, pdfs);
      && text.content == r.doc
      && tracker.Issues(FilesWithInvalidAttachments) == old(tracker.Issues(FilesWithInvalidAttachments)) + r.invalid
      && tracker.Issues(FilesWithAttachmentIssues) == old(tracker.Issues(FilesWithAttachmentIssues)) + r.missing
    ensures forall kind :: kind != FilesWithInvalidAttachments && kind != FilesWithAttachmentIssues ==>
              tracker.Issues(kind) == old(tracker.Issues(kind))
  {
    text := new RichText(converted);
    var _ := text.SetAttachmentFilenames(images);
    text.EmbedPdfAttachments(pdfs, env, tracker);
  }

  // ---------------------------------------------------------------------------
  // The output path

  /** The package name: the note's file name without its extension, plus
      `.rtfd` (line 492); the note's title plays no part. */
  function OutputFileName(filePath: string): (name: string)
    ensures '/' !in name && EndsWith(name, ".rtfd")
  {
    var stem := Paths.Stem(filePath);
    var name := stem + ".rtfd";
    assert forall i :: 0 <= i < |name| ==> name[i] != '/' by {
      forall i | 0 <= i < |name| ensures name[i] != '/' {
        if i < |stem| { assert name[i] == stem[i]; }
      }
    }
    name
  }

  /** A note `stem.md` is saved as `stem.rtfd`. */
  lemma OutputFileNameOfNote(dir: string, stem: string)
    requires '/' !in stem && exists k :: 0 <= k < |stem| && stem[k] != '.'
    ensures OutputFileName(Paths.Join(dir, stem + ".md")) == stem + ".rtfd"
  {
    assert '/' !in stem + ".md" by {
      forall i | 0 <= i < |stem + ".md"| ensures (stem + ".md")[i] != '/' {
        if i < |stem| { assert (stem + ".md")[i] == stem[i]; }
      }
    }
    Paths.BasenameOfJoin(dir, stem + ".md");
    assert ".md"[1..] == "md";
    Paths.SplitExtOfAddedExtension(stem, ".md");
  }

  /** The k-th alternative `get_unique_output_path` tries. */
  function UniqueCandidate(outputPath: string, k: nat): string {
    var baseName := Paths.SplitExt(Paths.Basename(outputPath)).0;
    Paths.Join(Paths.Dirname(outputPath), baseName + "_" + NatToString(k) + ".rtfd")
  }

  /** Different suffixes give different candidates. */
  lemma UniqueCandidateInjective(outputPath: string, j: nat, k: nat)
    requires UniqueCandidate(outputPath, j) == UniqueCandidate(outputPath, k)
    ensures j == k
  {
    var dir := Paths.Dirname(outputPath);
    var baseName := Paths.SplitExt(Paths.Basename(outputPath)).0;
    var a := baseName + "_" + NatToString(j) + ".rtfd";
    var b := baseName + "_" + NatToString(k) + ".rtfd";
    assert a[0] != '/' && b[0] != '/' by {
      Paths.PrefixKeeps(baseName, Paths.SplitExt(Paths.Basename(outputPath)).1, '/');
      if baseName != [] {
        assert a[0] == baseName[0] && b[0] == baseName[0];
      }
    }
    var pre := if dir == [] || dir[|dir| - 1] == '/' then dir else dir + "/";
    assert Paths.Join(dir, a) == pre + a && Paths.Join(dir, b) == pre + b;
    assert a == (pre + a)[|pre|..] && b == (pre + b)[|pre|..];
    assert |a| == |b|;
    assert NatToString(j) == a[|baseName| + 1..|a| - 5];
    assert NatToString(k) == b[|baseName| + 1..|b| - 5];
    NatToStringInjective(j, k);
  }

  /** The values of `f` on `1..n`. */
  function ImageOf(f: nat -> string, n: nat): set<string> {
    set j | 1 <= j <= n :: f(j)
  }

  /** An injective `f` takes `n` different values on `1..n`. */
  lemma {:induction false} ImageOfSize(f: nat -> string, n: nat)
    requires forall i, j :: f(i) == f(j) ==> i == j
    ensures |ImageOf(f, n)| == n
  {
    if n > 0 {
      ImageOfSize(f, n - 1);
      assert ImageOf(f, n) == ImageOf(f, n - 1) + {f(n)};
      assert f(n) !in ImageOf(f, n - 1);
    } else {
      assert ImageOf(f, n) == {};
    }
  }

  /** The first `n` candidates. */
  function Candidates(outputPath: string, n: nat): set<string> {
    ImageOf(CandidateOf(outputPath), n)
  }

  function CandidateOf(outputPath: string): nat -> string {
    (k: nat) => UniqueCandidate(outputPath, k)
  }

  lemma CandidatesSize(outputPath: string, n: nat)
    ensures |Candidates(outputPath, n)| == n
  {
    var f := CandidateOf(outputPath);
    forall i, j | f(i) == f(j) ensures i == j {
      UniqueCandidateInjective(outputPath, i, j);
    }
    ImageOfSize(f, n);
  }

  /** `get_unique_output_path` (lines 513-521): the path itself when it is
      free, otherwise `<base>_<k>.rtfd` in the same directory for the least
      `k >= 1` that is free. */
  method GetUniqueOutputPath(outputPath: string, existing: set<string>) returns (unique: string)
    ensures unique !in existing
    ensures outputPath !in existing ==> unique == outputPath
    ensures outputPath in existing ==>
      exists k :: 1 <= k && unique == UniqueCandidate(outputPath, k) &&
        forall j :: 1 <= j < k ==> UniqueCandidate(outputPath, j) in existing
  {
    unique := outputPath;
    var suffix: nat := 1;
    ghost var tried: nat := 0;  // the suffix of the candidate in `unique`
    while unique in existing
      invariant suffix == tried + 1
      invariant tried == 0 ==> unique == outputPath
      invariant tried > 0 ==> outputPath in existing && unique == UniqueCandidate(outputPath, tried)
      invariant forall j :: 1 <= j < tried ==> UniqueCandidate(outputPath, j) in existing
      decreases |existing| - tried
    {
      CandidatesWithin(outputPath, tried, existing);
      unique := UniqueCandidate(outputPath, suffix);
      tried := suffix;
      suffix := suffix + 1;
    }
  }

  /** When the first `n` candidates are all taken, at least `n` paths exist. */
  lemma CandidatesWithin(outputPath: string, n: nat, existing: set<string>)
    requires forall j :: 1 <= j < n ==> UniqueCandidate(outputPath, j) in existing
    requires n > 0 ==> UniqueCandidate(outputPath, n) in existing
    ensures n <= |existing|
  {
    var c := Candidates(outputPath, n);
    forall x | x in c ensures x in existing {
      var j :| 1 <= j <= n && x == CandidateOf(outputPath)(j);
      if j == n { assert x == UniqueCandidate(outputPath, n); }
    }
    CandidatesSize(outputPath, n);
    assert existing == c + (existing - c);
  }

  /** The path `save_rtfd_file` writes to (lines 492-496): the package name in
      the output directory, made unique against the existing paths. */
  method RtfdOutputPath(outputDir: string, filePath: string, existing: set<string>) returns (path: string)
    ensures path !in existing
    ensures Paths.Join(outputDir, OutputFileName(filePath)) !in existing ==>
              path == Paths.Join(outputDir, OutputFileName(filePath))
    ensures Paths.Join(outputDir, OutputFileName(filePath)) in existing ==>
      exists k :: 1 <= k && path == UniqueCandidate(Paths.Join(outputDir, OutputFileName(filePath)), k) &&
        forall j :: 1 <= j < k ==> UniqueCandidate(Paths.Join(outputDir, OutputFileName(filePath)), j) in existing
  {
    path := GetUniqueOutputPath(Paths.Join(outputDir, OutputFileName(filePath)), existing);
  }
}
