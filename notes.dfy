/** The note parser: front matter, the displayed title, the heading inserted in
    front of a note that opens with an attachment, and the check that the
    front matter carries the dates the package is stamped with. */
module Notes {
  import opened Wrappers
  import opened Text
  import Paths
  import opened Issues

  /** `max_filename_length` (line 39): the longest accepted title. */
  const MaxFilenameLength: nat := 100

  // ---------------------------------------------------------------------------
  // Front matter (lines 374-384)

  /** The text between the opening `---` and the next `---`, and the text after
      that, as `file_content.split('---', 2)` gives them; `None` when the text
      does not open with `---`. */
  function FrontMatterParts(text: string): (r: Option<(string, string)>)
    ensures r.None? <==> !StartsWith(text, "---")
    ensures r.Some? ==> var p := IndexOf(text, "---", 3);
      && (p < 0 ==> r.value == (text[3..], ""))
      && (p >= 0 ==> 3 <= p && text == "---" + r.value.0 + "---" + r.value.1
                     && |r.value.0| == p - 3)
    ensures r.Some? ==> forall i :: 3 <= i < 3 + |r.value.0| ==> !OccursAt(text, "---", i)
  {
    if !StartsWith(text, "---") then None
    else
      var p := IndexOf(text, "---", 3);
      if p < 0 then Some((text[3..], ""))
      else
        assert text == text[..3] + text[3..p] + text[p..p + 3] + text[p + 3..];
        Some((text[3..p], text[p + 3..]))
  }

  /** What one line of the front-matter block contributes: the stripped text
      before its first `": "` and the stripped text after it. */
  function Entry(line: string): (e: Option<(string, string)>)
  {
    var q := IndexOf(line, ": ", 0);
    if q < 0 then None else Some((Strip(line[..q]), Strip(line[q + 2..])))
  }

  /** The mapping built from `lines` in order, a later key overwriting an
      earlier one. */
  function Entries(lines: seq<string>): map<string, string>
  {
    if lines == [] then map[]
    else
      var m := Entries(lines[..|lines| - 1]);
      match Entry(lines[|lines| - 1])
      case None => m
      case Some(kv) => m[kv.0 := kv.1]
  }

  /** One more line updates the mapping by its entry, if it has one. */
  lemma EntriesSnoc(lines: seq<string>, line: string)
    ensures Entries(lines + [line]) ==
      match Entry(line)
      case None => Entries(lines)
      case Some(kv) => Entries(lines)[kv.0 := kv.1]
  {
    assert (lines + [line])[..|lines|] == lines;
  }

  /** The keys of the mapping are exactly the keys of the lines that carry an
      entry. */
  lemma {:induction false} EntriesKeys(lines: seq<string>, key: string)
    ensures key in Entries(lines) <==> exists i :: 0 <= i < |lines| && KeyAt(lines[i], key)
  {
    if lines != [] {
      var init, last := lines[..|lines| - 1], lines[|lines| - 1];
      assert lines == init + [last];
      EntriesSnoc(init, last);
      EntriesKeys(init, key);
      assert key in Entries(lines) <==> key in Entries(init) || KeyAt(last, key);
      if key in Entries(lines) {
        if KeyAt(last, key) {
          assert KeyAt(lines[|lines| - 1], key);
        } else {
          var i :| 0 <= i < |init| && KeyAt(init[i], key);
          assert lines[i] == init[i];
        }
      } else {
        forall i | 0 <= i < |lines| ensures !KeyAt(lines[i], key) {
          if i < |init| { assert init[i] == lines[i]; }
        }
      }
    }
  }

  /** `line` carries an entry for `key`. */
  predicate KeyAt(line: string, key: string) {
    Entry(line).Some? && Entry(line).value.0 == key
  }

  /** A key's value is the value of the last line that carries that key. */
  lemma {:induction false} EntriesLastWins(lines: seq<string>, i: nat)
    requires i < |lines| && Entry(lines[i]).Some?
    requires forall j :: i < j < |lines| && Entry(lines[j]).Some? ==>
               Entry(lines[j]).value.0 != Entry(lines[i]).value.0
    ensures Entry(lines[i]).value.0 in Entries(lines)
    ensures Entries(lines)[Entry(lines[i]).value.0] == Entry(lines[i]).value.1
  {
    var kv := Entry(lines[i]).value;
    var last := |lines| - 1;
    var init := lines[..last];
    assert lines == init + [lines[last]];
    EntriesSnoc(init, lines[last]);
    if i < last {
      assert init[i] == lines[i];
      forall j | i < j < |init| && Entry(init[j]).Some?
        ensures Entry(init[j]).value.0 != Entry(init[i]).value.0
      {
        assert init[j] == lines[j];
      }
      EntriesLastWins(init, i);
      assert Entry(lines[last]).None? || Entry(lines[last]).value.0 != kv.0;
    }
  }

  /** The front-matter mapping of a note text (`extract_front_matter`, first
      result). */
  function FrontMatter(text: string): (fm: map<string, string>)
    ensures !StartsWith(text, "---") ==> fm == map[]
  {
    match FrontMatterParts(text)
    case None => map[]
    case Some(parts) => Entries(SplitLines(Strip(parts.0)))
  }

  /** The body of a note text (`extract_front_matter`, second result). */
  function Body(text: string): (body: string)
    ensures !StartsWith(text, "---") ==> body == text
    ensures StartsWith(text, "---") && !Contains(text[3..], "---") ==> body == ""
  {
    match FrontMatterParts(text)
    case None => text
    case Some(parts) =>
      if IndexOf(text, "---", 3) < 0 then
        assert !Contains(text[3..], "---") by {
          forall i | 0 <= i <= |text[3..]| - 3 ensures !OccursAt(text[3..], "---", i) {
            assert text[3..][i..i + 3] == text[3 + i..3 + i + 3];
            assert !OccursAt(text, "---", 3 + i);
          }
        }
        parts.1
      else
        assert OccursAt(text[3..], "---", IndexOf(text, "---", 3) - 3);
        parts.1
  }

  /** `extract_front_matter`: the mapping is filled line by line from the
      stripped block between the first two `---`. */
  method ExtractFrontMatter(text: string) returns (fm: map<string, string>, body: string)
    ensures fm == FrontMatter(text) && body == Body(text)
  {
    fm := map[];
    body := text;
    if StartsWith(text, "---") {
      var parts := FrontMatterParts(text).value;
      body := parts.1;
      fm := CollectEntries(SplitLines(Strip(parts.0)));
    }
  }

  /** The loop of `extract_front_matter` that fills the mapping. */
  method CollectEntries(lines: seq<string>) returns (fm: map<string, string>)
    ensures fm == Entries(lines)
  {
    fm := map[];
    var i := 0;
    while i < |lines|
      invariant 0 <= i <= |lines|
      invariant fm == Entries(lines[..i])
    {
      var line := lines[i];
      var q := IndexOf(line, ": ", 0);
      EntriesSnoc(lines[..i], line);
      assert lines[..i + 1] == lines[..i] + [line];
      if q >= 0 {
        fm := fm[Strip(line[..q]) := Strip(line[q + 2..])];
      }
      i := i + 1;
    }
    assert lines[..i] == lines;
  }

  // ---------------------------------------------------------------------------
  // Title validation and choice (lines 309-330, 355-362)

  /** A regular-expression `$` accepts position `e`: the end, or just before a
      final newline. */
  predicate DollarAt(s: string, e: int) {
    e == |s| || (0 <= e == |s| - 1 && s[e] == '\n')
  }

  /** `re.match(r'^<.*?>$', s)`. */
  predicate IsWholeTag(s: string) {
    |s| >= 2 && s[0] == '<' &&
    exists j :: 1 <= j < |s| && s[j] == '>' && NoNewline(s, 1, j) && DollarAt(s, j + 1)
  }

  /** `re.search(r'<[^>]+>', s)`. */
  predicate HasTag(s: string) {
    exists i, j :: 0 <= i && i + 1 < j < |s| && s[i] == '<' && s[j] == '>' &&
      forall k :: i < k < j ==> s[k] != '>'
  }

  /** The extensions of `\.(jpg|jpeg|png|gif|pdf|html?)$`. */
  const MediaExtensions: seq<string> := [".jpg", ".jpeg", ".png", ".gif", ".pdf", ".htm", ".html"]

  /** `re.search(r'\.(jpg|jpeg|png|gif|pdf|html?)$', s, re.IGNORECASE)`. */
  predicate HasMediaSuffix(s: string) {
    exists x, e :: 0 <= x < |MediaExtensions| && 0 <= e <= |s| && DollarAt(s, e) &&
      FoldMatchAt(s, e - |MediaExtensions[x]|, MediaExtensions[x])
  }

  /** `re.match(r'https?://', s)`. */
  predicate IsUrl(s: string) {
    StartsWith(s, "http://") || StartsWith(s, "https://")
  }

  /** `is_valid_title`. */
  predicate IsValidTitle(title: string) {
    var s := Strip(title);
    && s != []
    && s != "-" && s != ">" && s != ">-"
    && !IsWholeTag(s) && !HasTag(s)
    && !HasMediaSuffix(s)
    && !IsUrl(s)
    && |s| <= MaxFilenameLength
  }

  /** `determine_title`: the stripped front-matter title when it is valid,
      otherwise the note's file name without its extension. */
  function DetermineTitle(fm: map<string, string>, filePath: string): (title: string)
    ensures title == Paths.Stem(filePath) ||
            ("title" in fm && title == Strip(fm["title"]) && IsValidTitle(title))
    ensures "title" !in fm ==> title == Paths.Stem(filePath)
  {
    var extracted := Strip(if "title" in fm then fm["title"] else "");
    if IsValidTitle(extracted) then extracted else Paths.Stem(filePath)
  }

  /** A chosen front-matter title is itself a title that passes every check:
      it is non-empty and stripped, at most 100 characters long, no URL, no
      tag and no media file name. */
  lemma ChosenTitleIsClean(fm: map<string, string>, filePath: string)
    requires "title" in fm && IsValidTitle(Strip(fm["title"]))
    ensures var t := DetermineTitle(fm, filePath);
      && t == Strip(fm["title"]) && t != [] && Strip(t) == t
      && !IsSpace(t[0]) && !IsSpace(t[|t| - 1])
      && |t| <= MaxFilenameLength && !IsUrl(t) && !HasTag(t) && !HasMediaSuffix(t)
  {
    StripIdempotent(fm["title"]);
  }

  /** A note without a front-matter block is titled after its file. */
  lemma UntitledNoteUsesFileName(text: string, filePath: string)
    requires !StartsWith(text, "---")
    ensures DetermineTitle(FrontMatter(text), filePath) == Paths.Stem(filePath)
  {
  }

  /** A front-matter title that is a URL, names a media file, is blank or a
      placeholder, is or holds an HTML tag, or is longer than 100 characters
      is never used. */
  lemma RejectedTitleFallsBack(fm: map<string, string>, filePath: string)
    requires "title" in fm
    requires var s := Strip(fm["title"]);
      || IsUrl(s) || HasMediaSuffix(s) || s in {"", "-", ">", ">-"}
      || IsWholeTag(s) || HasTag(s) || |s| > MaxFilenameLength
    ensures DetermineTitle(fm, filePath) == Paths.Stem(filePath)
  {
    StripIdempotent(fm["title"]);
  }

  // ---------------------------------------------------------------------------
  // Title insertion (lines 365-371)

  /** Leading whitespace and `&nbsp;` markers: `(\s|&nbsp;)*` under
      `re.IGNORECASE`, read as a language. */
  predicate IsBlankRun(t: string)
    decreases |t|
  {
    t == [] || (IsSpace(t[0]) && IsBlankRun(t[1..])) ||
    (FoldMatchAt(t, 0, "&nbsp;") && IsBlankRun(t[6..]))
  }

  /** `re.sub(r'^(\s|&nbsp;)+', '', s, flags=re.IGNORECASE)`: the longest run of
      blanks at the start removed. */
  function StripLeadingBlank(s: string): (r: string)
    ensures |r| <= |s| && r == s[|s| - |r|..]
    decreases |s|
  {
    if s != [] && IsSpace(s[0]) then StripLeadingBlank(s[1..])
    else if FoldMatchAt(s, 0, "&nbsp;") then StripLeadingBlank(s[6..])
    else s
  }

  /** What is removed is a run of blanks. */
  lemma {:induction false} StripLeadingBlankRemovesBlanks(s: string)
    ensures IsBlankRun(s[..|s| - |StripLeadingBlank(s)|])
    decreases |s|
  {
    var r := StripLeadingBlank(s);
    var removed := s[..|s| - |r|];
    if s != [] && IsSpace(s[0]) {
      StripLeadingBlankRemovesBlanks(s[1..]);
      assert r == StripLeadingBlank(s[1..]);
      assert removed[1..] == s[1..][..|s[1..]| - |r|];
      assert removed[0] == s[0];
    } else if FoldMatchAt(s, 0, "&nbsp;") {
      StripLeadingBlankRemovesBlanks(s[6..]);
      assert r == StripLeadingBlank(s[6..]);
      assert removed[6..] == s[6..][..|s[6..]| - |r|];
      NbspKept(s, |removed|);
    } else {
      assert removed == [];
    }
  }

  /** A prefix of `s` that covers its opening `&nbsp;` opens with it too. */
  lemma NbspKept(s: string, n: nat)
    requires 6 <= n <= |s| && FoldMatchAt(s, 0, "&nbsp;")
    ensures FoldMatchAt(s[..n], 0, "&nbsp;")
  {
    assert forall k :: 0 <= k < 6 ==> s[..n][k] == s[k];
  }

  /** What is left opens with neither a blank nor `&nbsp;`. */
  lemma {:induction false} StripLeadingBlankLeavesText(s: string)
    ensures var r := StripLeadingBlank(s);
      !(r != [] && IsSpace(r[0])) && !FoldMatchAt(r, 0, "&nbsp;")
    decreases |s|
  {
    if s != [] && IsSpace(s[0]) {
      StripLeadingBlankLeavesText(s[1..]);
    } else if FoldMatchAt(s, 0, "&nbsp;") {
      StripLeadingBlankLeavesText(s[6..]);
    }
  }

  /** `<img[^>]*?>` at the start (case-insensitive). */
  predicate StartsWithImgTag(s: string) {
    FoldMatchAt(s, 0, "<img") && exists j :: 4 <= j < |s| && s[j] == '>'
  }

  /** `!\[.*?\]\(.*?\)` at the start. */
  predicate StartsWithImageSpan(s: string) {
    |s| >= 2 && s[0] == '!' && s[1] == '[' &&
    exists j, k :: 2 <= j && j + 2 <= k < |s| && s[j] == ']' && s[j + 1] == '(' &&
      s[k] == ')' && NoNewline(s, 2, k)
  }

  /** `\[[^\]]*\]\(.*?\.pdf\)` at the start (case-insensitive). */
  predicate StartsWithPdfLink(s: string) {
    |s| >= 1 && s[0] == '[' &&
    exists j, k :: 1 <= j && j + 2 <= k && k + 5 <= |s| && s[j] == ']' && (forall t :: 1 <= t < j ==> s[t] != ']') &&
      s[j + 1] == '(' && FoldMatchAt(s, k, ".pdf)") && NoNewline(s, j + 2, k)
  }

  /** `\[\s*!\[.*?\]\(.*?\)\]\(.*?\)` at the start. */
  predicate StartsWithLinkedImage(s: string) {
    |s| >= 1 && s[0] == '[' &&
    var p := 1 + LeadingSpaces(s[1..]);
    p + 1 < |s| && s[p] == '!' && s[p + 1] == '[' &&
    exists a, b, c :: p + 2 <= a && a + 2 <= b && b + 3 <= c < |s| &&
      s[a] == ']' && s[a + 1] == '(' && OccursAt(s, ")](", b) && s[c] == ')' &&
      NoNewline(s, p + 2, c)
  }

  /** The four shapes of the pattern at line 367. */
  predicate StartsWithAttachment(s: string) {
    StartsWithImgTag(s) || StartsWithImageSpan(s) || StartsWithPdfLink(s) || StartsWithLinkedImage(s)
  }

  /** `insert_title_if_needed`. */
  function InsertTitleIfNeeded(content: string, title: string): (r: string)
  {
    if StartsWithAttachment(StripLeadingBlank(content)) then title + "\n\n" + content else content
  }

  /** The result is the content itself or the title, a blank line and the
      content unchanged; the heading is added exactly when the content, its
      leading blanks removed, opens with an attachment. */
  lemma InsertTitleShape(content: string, title: string)
    ensures var r := InsertTitleIfNeeded(content, title);
      && (r == content || r == title + "\n\n" + content)
      && (r != content <==> StartsWithAttachment(StripLeadingBlank(content)))
      && (r != content ==> r[|title| + 2..] == content)
  {
    var r := InsertTitleIfNeeded(content, title);
    if StartsWithAttachment(StripLeadingBlank(content)) {
      assert |r| == |content| + |title| + 2;
    }
  }

  /** The leading blanks are removed exactly: a run of blanks in front of text
      that does not itself open with a blank is all that goes. */
  lemma {:induction false} StripLeadingBlankExact(b: string, t: string)
    requires IsBlankRun(b)
    requires !(t != [] && IsSpace(t[0])) && !FoldMatchAt(t, 0, "&nbsp;")
    ensures StripLeadingBlank(b + t) == t
    decreases |b|
  {
    if b == [] {
      assert b + t == t;
    } else if IsSpace(b[0]) {
      assert (b + t)[1..] == b[1..] + t;
      assert IsBlankRun(b[1..]) by {
        assert !FoldMatchAt(b, 0, "&nbsp;") by { assert b[0] != "&nbsp;"[0]; }
      }
      StripLeadingBlankExact(b[1..], t);
    } else {
      assert FoldMatchAt(b, 0, "&nbsp;") && IsBlankRun(b[6..]);
      assert forall k :: 0 <= k < 6 ==> (b + t)[k] == b[k];
      assert FoldMatchAt(b + t, 0, "&nbsp;");
      assert (b + t)[6..] == b[6..] + t;
      StripLeadingBlankExact(b[6..], t);
    }
  }

  /** A note whose first non-blank text is an attachment gets the heading,
      whatever blanks precede it. */
  lemma LeadingAttachmentGetsHeading(b: string, t: string, title: string)
    requires IsBlankRun(b) && StartsWithAttachment(t)
    ensures InsertTitleIfNeeded(b + t, title) == title + "\n\n" + b + t
  {
    assert t[0] == '<' || t[0] == '!' || t[0] == '[' by {
      if StartsWithImgTag(t) {
        assert "<img"[0] == '<';
        assert FoldMatchAt(t, 0, "<img");
      }
    }
    assert !FoldMatchAt(t, 0, "&nbsp;") by { assert "&nbsp;"[0] == '&'; }
    StripLeadingBlankExact(b, t);
  }

  /** A note whose first non-blank character is none of `<`, `!`, `[` is left
      alone. */
  lemma LeadingTextIsLeftAlone(b: string, t: string, title: string)
    requires IsBlankRun(b) && t != [] && t[0] !in "<![&" && !IsSpace(t[0])
    ensures InsertTitleIfNeeded(b + t, title) == b + t
  {
    assert "&nbsp;"[0] == '&' && "<img"[0] == '<';
    StripLeadingBlankExact(b, t);
  }

  // ---------------------------------------------------------------------------
  // File dates (lines 524-541)

  /** What applying the dates to the package came to: the attributes were set,
      the file manager refused them, or parsing or applying raised. */
  datatype DateOutcome = Applied | ApplyRefused | Raised(error: string)

  /** `set_file_dates`, with the date parsing and the file-manager call as the
      oracle `outcome`: a note whose front matter lacks `created` or `updated`
      is recorded as having invalid front matter; a failed attempt to apply them
      is a general issue. */
  method SetFileDates(fm: map<string, string>, filePath: string, outcome: DateOutcome,
                      tracker: IssueTracker)
    modifies tracker
    ensures !("created" in fm && "updated" in fm) ==>
      tracker.Issues(FilesWithInvalidFrontMatter) ==
        old(tracker.Issues(FilesWithInvalidFrontMatter)) + [filePath + ": Missing date in front matter"]
    ensures "created" in fm && "updated" in fm ==>
      tracker.Issues(FilesWithIssues) == old(tracker.Issues(FilesWithIssues)) +
        match outcome
        case Applied => []
        case ApplyRefused => [filePath + ": Failed to set file dates"]
        case Raised(e) => [filePath + ": Error setting file dates: " + e]
    ensures forall k :: k != FilesWithInvalidFrontMatter && k != FilesWithIssues ==>
      tracker.Issues(k) == old(tracker.Issues(k))
    ensures "created" in fm && "updated" in fm ==>
      tracker.Issues(FilesWithInvalidFrontMatter) == old(tracker.Issues(FilesWithInvalidFrontMatter))
    ensures !("created" in fm && "updated" in fm) ==>
      tracker.Issues(FilesWithIssues) == old(tracker.Issues(FilesWithIssues))
  {
    if "created" in fm && "updated" in fm {
      match outcome
      case Applied =>
      case ApplyRefused => tracker.AddIssue(FilesWithIssues, filePath + ": Failed to set file dates");
      case Raised(e) => tracker.AddIssue(FilesWithIssues, filePath + ": Error setting file dates: " + e);
    } else {
      tracker.AddIssue(FilesWithInvalidFrontMatter, filePath + ": Missing date in front matter");
    }
  }
}
