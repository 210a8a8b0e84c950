# Joplin-to-AppleNotes: a Dafny model of the per-note pipeline

`Joplin-to-AppleNotes.py` converts a Joplin Markdown export into Apple Notes
RTFD packages. This project models the script's deterministic core in Dafny 4.11
and proves properties of that model:

- reading a note's front matter and choosing its title (`Notes`);
- putting a heading in front of a note that opens with an attachment (`Notes`);
- rewriting `[label](target)` links into `<img>` tags and numbered PDF
  placeholders (`Attachments`);
- wrapping the HTML, binding image names to the attachments of the rendered
  document, embedding PDFs at their placeholders, and choosing a unique output
  path (`Assembler`);
- downloading remote images with retries, naming them, and rewriting their
  references, plus renaming sniffed attachments (`Images`);
- the issue tracker that every step reports to (`Issues`).

`Text` models the Python string operations the script relies on: `str.strip`,
`str.splitlines`, `str.replace`, `str.lower` and `re.IGNORECASE` folding. Its
substring search `IndexOf` stands for the searches inside
`str.split('---', 2)`, the `': ' in line` test, `str.replace` and
`NSString.rangeOfString_`. `Paths` models the parts of `posixpath` it uses: `basename`,
`dirname`, `splitext` and `join`. `Wrappers` holds `Option` and `Result`.

The regular expressions are modelled as scanners with their exact semantics:

- `.` stops at a newline.
- `*?` takes the least extent that lets the rest of the pattern match.
- `re.sub` and `re.findall` resume at a match's end, or one character later
  when nothing matches.

Steps that change state are imperative Dafny:

- `ConversionIssueTracker` is the class `Issues.IssueTracker`. It has seven
  `seq<string>` fields.
- The attributed string is the class `Assembler.RichText`. It holds a sequence
  of characters and attachments.
- `set_attachment_filenames`, `embed_pdf_attachments`,
  `get_unique_output_path`, `download_image_with_retries`,
  `process_attachments`, `process_image_urls` and the front-matter loop are
  methods with loops. `set_attachment_filenames`, `embed_pdf_attachments`,
  `process_attachments`, `process_image_urls` and the front-matter loop are
  proved equal to a specification function, and the
  properties are proved about that function. `get_unique_output_path` and
  `download_image_with_retries` are specified directly: their `ensures` state
  the properties themselves.

The outside world is passed in as parameters:

- **Downloads:** `Images.Web` bundles the per-attempt outcome of
  `session.get`, the MD5 hex digest and `mimetypes.guess_extension`.
- **PDF embedding:** `Assembler.EmbedEnv` holds the set of existing files,
  `unquote`, and whether a file wrapper can be made.
- **Rendering:** the markdown converter is a function parameter. The
  HTML-to-attributed-string conversion is the `converted` document handed to
  `CreateMutableAttributedString`.
- **Image sniffing:** the PIL result is `Images.Sniff`.
- **File dates:** the outcome of setting them is `Notes.DateOutcome`.
- **Existing paths:** the output paths that already exist are a `set<string>`.

Three behaviours of the code worth knowing:

- The PDF placeholder is `[[PDF_ATTACHMENT_k]]`, with brackets (line 413).
- The package is named after the note's file name, not its title (line 492).
- A note is rewritten whenever no download failed, including when it has no
  remote image at all (line 250).

## Model

| member | source | states |
|---|---|---|
| Issues.IssueTracker.constructor | Joplin-to-AppleNotes.py:75-82 | every one of the seven issue lists starts empty |
| Issues.IssueTracker.AddIssue | Joplin-to-AppleNotes.py:85-86 | the message is appended to the named list and every other list is unchanged |
| Text.StripTrims | Joplin-to-AppleNotes.py:378 | `strip` removes only whitespace, and only from the two ends |
| Text.StripIdempotent | Joplin-to-AppleNotes.py:356 | stripping an already stripped title changes nothing, so the validator sees what `determine_title` returns |
| Text.SplitLines | Joplin-to-AppleNotes.py:380 | the lines contain no line-break character, and there are no lines exactly when the block is empty |
| Text.LineBreaksCount | Joplin-to-AppleNotes.py:380 | every line has exactly one break after it |
| Text.LineBreaksAreBreaks | Joplin-to-AppleNotes.py:380 | every break is one line-break character or `\r\n`, and only the last line may end without one |
| Text.FirstPiece | Joplin-to-AppleNotes.py:380 | for a non-empty block, the first line with its break is non-empty and starts with the block's first character |
| Text.SplitLinesPinned | Joplin-to-AppleNotes.py:380 | a line that ends without a break is non-empty, and a lone `\r` break is never followed by `\n`: the next line together with its own break does not start with `\n` |
| Text.SplitLinesRoundTrip | Joplin-to-AppleNotes.py:380 | each line followed by the break that ended it gives back the block exactly, so every line is the slice between two breaks |
| Text.IndexOfContains | Joplin-to-AppleNotes.py:483 | a search finds a position exactly when the pattern occurs |
| Text.ReplaceAllChanges | Joplin-to-AppleNotes.py:230-232 | `replace` changes the text exactly when the pattern occurs and differs from its replacement |
| Text.ReplaceAllSame | Joplin-to-AppleNotes.py:230 | replacing a pattern by itself leaves the text as it was |
| Text.DecimalRoundTrip | Joplin-to-AppleNotes.py:413 | the decimal form of a counter reads back as that counter |
| Text.NatToStringInjective | Joplin-to-AppleNotes.py:413 | different counters have different decimal forms |
| Paths.SplitExt | Joplin-to-AppleNotes.py:357 | `splitext` splits a path into a root and an extension that is empty or one dot followed by neither dots nor slashes |
| Paths.SplitExtExtension | Joplin-to-AppleNotes.py:357 | the extension is non-empty only when a non-dot character of the last component comes before its dot, and empty only when every dot of the last component has nothing but dots before it in that component |
| Paths.Stem | Joplin-to-AppleNotes.py:357 | the file name without its extension contains no `/`, and the stem followed by the extension is the base name |
| Paths.BasenameOfJoin | Joplin-to-AppleNotes.py:394-395 | joining a plain name onto a directory and taking the basename gives the name back |
| Paths.SplitExtOfAddedExtension | Joplin-to-AppleNotes.py:212 | a stem with an added extension splits back into that stem and extension |
| Notes.FrontMatterParts | Joplin-to-AppleNotes.py:376-379 | the text is split only when it starts with `---`; the block runs up to the next `---` (there is none inside it), and the body is what follows, or empty when there is no second `---` |
| Notes.FrontMatter | Joplin-to-AppleNotes.py:374-384 | a text that does not start with `---` has no front matter |
| Notes.Body | Joplin-to-AppleNotes.py:374-384 | a text without `---` is its own body; the body is empty when the opening `---` is never closed |
| Notes.EntriesKeys | Joplin-to-AppleNotes.py:380-383 | a key is in the map exactly when some block line contains `": "` with that key, stripped, before its first `": "` |
| Notes.EntriesLastWins | Joplin-to-AppleNotes.py:380-383 | the value of a key is the one from the last line that carries it |
| Notes.ExtractFrontMatter | Joplin-to-AppleNotes.py:374-384 | returns the front-matter map and the body that the text defines |
| Notes.CollectEntries | Joplin-to-AppleNotes.py:380-383 | the line-by-line loop builds the map defined by the lines |
| Notes.DetermineTitle | Joplin-to-AppleNotes.py:355-362 | the title is the stripped front-matter title or the file name without its extension; a note without a `title` key gets its file name |
| Notes.ChosenTitleIsClean | Joplin-to-AppleNotes.py:309-330 | a chosen front-matter title is stripped and non-empty, at most 100 characters, no URL, has no tag and no media suffix |
| Notes.RejectedTitleFallsBack | Joplin-to-AppleNotes.py:309-330 | a title that is empty or a placeholder, is or contains an HTML tag, names a media file, is a URL or is longer than 100 characters is replaced by the file name |
| Notes.UntitledNoteUsesFileName | Joplin-to-AppleNotes.py:355-361 | a note without front matter is titled by its file name |
| Notes.StripLeadingBlankRemovesBlanks | Joplin-to-AppleNotes.py:366 | what the leading-blank removal drops is whitespace and case-insensitive `&nbsp;` only |
| Notes.StripLeadingBlankLeavesText | Joplin-to-AppleNotes.py:366 | the remaining text starts with neither whitespace nor `&nbsp;` |
| Notes.StripLeadingBlankExact | Joplin-to-AppleNotes.py:366 | a blank run in front of text that starts with neither is removed exactly |
| Notes.InsertTitleShape | Joplin-to-AppleNotes.py:365-371 | the result is the content or `title + "\n\n" +` the unstripped content, and the title is added exactly when the stripped content starts with an attachment |
| Notes.LeadingAttachmentGetsHeading | Joplin-to-AppleNotes.py:366-369 | a note whose first non-blank text is an attachment gets the heading |
| Notes.LeadingTextIsLeftAlone | Joplin-to-AppleNotes.py:366-371 | a note whose first non-blank character cannot start an attachment is left unchanged |
| Notes.SetFileDates | Joplin-to-AppleNotes.py:524-541 | a missing `created` or `updated` key is an invalid-front-matter issue; a refused or failed update is a general issue; no other list changes |
| Attachments.FindClose | Joplin-to-AppleNotes.py:390 | the lazy `](` and `)` are the first ones on the line that complete a match |
| Attachments.MatchAt | Joplin-to-AppleNotes.py:390 | a match found at a position starts there and is a `[label](target)` span of one line |
| Attachments.MatchAtIsFirst | Joplin-to-AppleNotes.py:390 | the match is the shortest one at its position, and no match is reported only when none exists |
| Attachments.PiecesTile | Joplin-to-AppleNotes.py:402 | the matches and the text between them make up the body exactly, left to right |
| Attachments.PdfPlaceholder | Joplin-to-AppleNotes.py:413 | a placeholder is `[[PDF_ATTACHMENT_` followed by `]]` |
| Attachments.PdfPlaceholderInjective | Joplin-to-AppleNotes.py:411-413 | distinct PDF indices give distinct placeholders |
| Attachments.ProcessAttachments | Joplin-to-AppleNotes.py:387-413 | the substitution pass returns the rewritten body and the image and PDF lists that the body defines |
| Attachments.RunAppends | Joplin-to-AppleNotes.py:402-413 | the pass appends the outputs and the names of its matches, in order, to what came before |
| Attachments.ProcessedBodyParts | Joplin-to-AppleNotes.py:387-403 | the body is the outputs of its pieces concatenated, and the lists hold the names of the PDF and image pieces in order |
| Attachments.PdfLockstep | Joplin-to-AppleNotes.py:396-413 | the k-th PDF link becomes `[[PDF_ATTACHMENT_k]]` and the k-th PDF list entry is its file name |
| Attachments.ImageLockstep | Joplin-to-AppleNotes.py:398-408 | the k-th image link becomes an `<img>` tag for its file and the k-th image list entry is its file name |
| Attachments.ListedNamesClassified | Joplin-to-AppleNotes.py:394-399 | every listed PDF name ends in `.pdf`, and every listed image name ends in a supported format but not `.pdf`; neither has a `/` |
| Attachments.NoLinksNoChange | Joplin-to-AppleNotes.py:400-403 | a body with no link is returned unchanged, with both lists empty |
| Assembler.GenerateHtml | Joplin-to-AppleNotes.py:416-421 | the HTML starts with the stylesheet head and ends with the closing tags |
| Assembler.GenerateHtmlBody | Joplin-to-AppleNotes.py:416-421 | the body is the converted markdown for a `.md` file and the content itself for any other file |
| Assembler.RunEnd | Joplin-to-AppleNotes.py:451-458 | the effective range starts at `pos` and is not empty, and it is one attachment or a run of characters, so `pos` strictly increases |
| Assembler.RichText.SetAttachmentFilenames | Joplin-to-AppleNotes.py:448-458 | the loop binds names to the document as defined, and returns the minimum of the attachment count and the number of names |
| Assembler.BindLoopStep | Joplin-to-AppleNotes.py:450-458 | one pass of the loop keeps what it has bound and advances the name index by one exactly at an attachment that gets a name |
| Assembler.BindKeepsShape | Joplin-to-AppleNotes.py:454-457 | binding keeps the document's length and characters, and changes only attachments' preferred names |
| Assembler.BindAssignsInOrder | Joplin-to-AppleNotes.py:455-457 | the k-th attachment gets the k-th name for every k below both counts; later attachments keep their names |
| Assembler.BindNamesAll | Joplin-to-AppleNotes.py:455-457 | with enough names, the attachments carry exactly the first names |
| Assembler.PlaceholderIsPlainText | Joplin-to-AppleNotes.py:482-483 | a placeholder never contains the attachment character, so a found one covers characters only |
| Assembler.PlaceholderCoversText | Joplin-to-AppleNotes.py:483-485 | every element under a found placeholder is a character |
| Assembler.EmbedOneOutcome | Joplin-to-AppleNotes.py:463-488 | a PDF whose decoded path is missing or cannot be wrapped adds one invalid-attachment issue and leaves the document; a valid PDF whose placeholder is absent adds one attachment issue and leaves the document; a valid PDF whose placeholder occurs replaces the first occurrence with one attachment carrying the decoded name, and adds no issue |
| Assembler.SpliceAddsOne | Joplin-to-AppleNotes.py:485 | replacing a run of characters with an attachment adds exactly one attachment |
| Assembler.EmbedRunInvalid | Joplin-to-AppleNotes.py:466-475 | the invalid-attachment issues are exactly those of the PDFs whose path is missing or cannot be wrapped, in list order, whatever the document holds |
| Assembler.EmbedAllInvalid | Joplin-to-AppleNotes.py:461-475 | the whole embedding records exactly the invalid PDFs' issues |
| Assembler.EmbedAllAccounts | Joplin-to-AppleNotes.py:461-488 | every PDF is either embedded as one new attachment or reported by exactly one issue |
| Assembler.RichText.EmbedPdfAttachments | Joplin-to-AppleNotes.py:461-488 | the loop leaves the document and the two issue lists as the embedding defines, and no other list changes |
| Assembler.CreateMutableAttributedString | Joplin-to-AppleNotes.py:424-428 | image names are bound before the PDFs are embedded, so PDFs never use an image name |
| Assembler.OutputFileName | Joplin-to-AppleNotes.py:492 | the package name is a plain name ending in `.rtfd` |
| Assembler.OutputFileNameOfNote | Joplin-to-AppleNotes.py:492 | a note `<stem>.md` gives the package `<stem>.rtfd` |
| Assembler.UniqueCandidateInjective | Joplin-to-AppleNotes.py:519 | different suffixes give different candidate paths |
| Assembler.CandidatesSize | Joplin-to-AppleNotes.py:517-520 | the first n candidates are n distinct paths |
| Assembler.CandidatesWithin | Joplin-to-AppleNotes.py:518-520 | only finitely many candidates can be taken, so the loop ends |
| Assembler.GetUniqueOutputPath | Joplin-to-AppleNotes.py:513-521 | the result never exists; a free path is returned unchanged; otherwise the result is `<base>_k.rtfd` for the least free k ≥ 1 |
| Assembler.RtfdOutputPath | Joplin-to-AppleNotes.py:491-496 | the package path never exists; it is the output directory joined with the note file's `<stem>.rtfd` when that is free, and otherwise `<stem>_k.rtfd` there for the least free k ≥ 1 |
| Images.SchemeLengthSpells | Joplin-to-AppleNotes.py:257 | the scheme is `https://` or `http://`, recognised exactly |
| Images.TailEnd | Joplin-to-AppleNotes.py:257 | the optional `"title"` part is taken only after whitespace, and the span ends with `)` |
| Images.TitleTailUnique | Joplin-to-AppleNotes.py:257 | a `\s+"[^"]*"\)` tail has its quotes at the end of the spaces and at the next `"`, so there is only one |
| Images.TailEndExact | Joplin-to-AppleNotes.py:257 | the tail ends right after a bare `)`, or after the `\s+"[^"]*"\)` title form when there is one, and there is no tail exactly when neither form follows the URL |
| Images.LabelEndIsLeast | Joplin-to-AppleNotes.py:257 | the lazy label ends at the first `](` on the line that is followed by a URL |
| Images.RemoteMatchFound | Joplin-to-AppleNotes.py:257-258 | a match starts with `![`, its label ends at the first `](` on that line that is followed by a URL, and the URL and optional title that follow complete the pattern |
| Images.RemoteMatchMissing | Joplin-to-AppleNotes.py:257-258 | after `![` there is no match exactly when no `](` on that line is followed by a URL that completes the pattern |
| Images.MatchUrlIsRemote | Joplin-to-AppleNotes.py:257 | a matched URL starts with `http://` or `https://` and contains no whitespace and no `)` |
| Images.RemoteUrlsAreRemote | Joplin-to-AppleNotes.py:257-258 | every URL found is an `http(s)://` URL without whitespace or `)` |
| Images.RemoteUrlsOccur | Joplin-to-AppleNotes.py:257-258 | every URL found occurs in the note |
| Images.NoImageSyntaxNoUrls | Joplin-to-AppleNotes.py:257-258 | a note without `![` has no remote URLs |
| Images.FirstReceived | Joplin-to-AppleNotes.py:290-294 | the response is the first attempt that received one, and every earlier attempt raised |
| Images.DownloadWithRetries | Joplin-to-AppleNotes.py:289-299 | at most 3 attempts, stopping at the first response; a sleep only between two attempts; it gives up only after 3 failures |
| Images.ImageExtension | Joplin-to-AppleNotes.py:276-280 | the extension is the content-type guess when there is one, else the URL's `splitext` extension when that is not empty, else `.jpg` |
| Images.DownloadedName | Joplin-to-AppleNotes.py:272-285 | a name exists exactly when a response came, its declared size is at most 100 MB and its body can be read; the name is the URL's MD5 hex digest followed by the chosen extension |
| Images.DownloadAndSaveImage | Joplin-to-AppleNotes.py:271-286 | returns the MD5-and-extension name exactly when the download succeeds, and nothing when no response came, the size is over the limit or the body cannot be read |
| Images.DownloadedNameSplits | Joplin-to-AppleNotes.py:276-281 | `splitext` splits the hex digest followed by the chosen extension back into the digest and that extension |
| Images.UrlStep | Joplin-to-AppleNotes.py:262-267 | the success flag stays set exactly when it was set and the URL downloaded; failures only grow, and by exactly one when the download fails; the text changes exactly when the URL downloaded, occurs in the text and differs from its local reference |
| Images.RewritesCount | Joplin-to-AppleNotes.py:261-267 | each URL gives one rewrite or one failure message, so together they number the URLs |
| Images.RewritesAreDownloads | Joplin-to-AppleNotes.py:263-264 | every rewrite replaces a URL of the list that downloaded by the reference to the name it was saved under |
| Images.UrlsRunRewrites | Joplin-to-AppleNotes.py:261-267 | the final text is the start text with the downloaded URLs' rewrites applied in `findall` order; failed URLs do not touch it |
| Images.ProcessedUrlsRewrites | Joplin-to-AppleNotes.py:256-268 | the text `process_image_urls` returns is the note with every occurrence of each downloaded URL replaced by its local reference, in `findall` order |
| Images.UrlsRunFailures | Joplin-to-AppleNotes.py:261-267 | the rewrite records one `Failed to download` issue per failed URL, in order |
| Images.UrlsRunSuccess | Joplin-to-AppleNotes.py:259-267 | the flag stays set exactly when it was set and no URL failed |
| Images.NoFailureMessages | Joplin-to-AppleNotes.py:261-267 | there are no failure messages exactly when every URL downloaded |
| Images.SuccessMeansNoIssue | Joplin-to-AppleNotes.py:259-268 | the pass succeeds exactly when it records no issue, and exactly when every URL downloads |
| Images.AllFailedKeepsText | Joplin-to-AppleNotes.py:261-268 | when every download fails, the text is unchanged |
| Images.ProcessImageUrls | Joplin-to-AppleNotes.py:256-268 | returns the rewritten text and flag of the pass over the found URLs and records its failures as download issues, and no other list changes |
| Images.ProcessMarkdownFileForImages | Joplin-to-AppleNotes.py:246-253 | the note is rewritten exactly when no download failed, and a note without remote images is rewritten with its own text |
| Images.RenamedImageHasExtension | Joplin-to-AppleNotes.py:212 | the renamed file splits into its old name and the lower-cased format, so it has an extension and is not renamed again |
| Images.ProcessImageFile | Joplin-to-AppleNotes.py:206-219 | an unreadable file adds one invalid-attachment issue and is not renamed; a file with an empty format is left alone; otherwise it is renamed `name.format` |
| Images.UpdateMarkdownReferences | Joplin-to-AppleNotes.py:230-236 | the note is written exactly when it references the old name and the name changed, and every reference is rewritten |
| Images.RenamedReferencesRewritten | Joplin-to-AppleNotes.py:212-216 | a note that references a renamed image is always rewritten |

## Left out

- I/O is left out. This covers reading and writing notes, `os.walk` and
  `os.listdir`, `os.rename`, `os.path.exists`, writing downloaded bytes and
  writing the RTFD package. Each appears as a parameter or an outcome, as
  listed above.
- The directory loops are left out: `fix_image_extensions`,
  `download_remote_images`, `update_markdown_references`' walk over all notes,
  and `process_folder_recursively`. Their bodies are modelled one file at a
  time.
- `process_file`'s exception handler (lines 343-345) is left out. So are
  `setup_directories`, `has_markdown_files`, `clean_output_directory`,
  `convert` and the `__main__` block. They are interactive or filesystem glue.
- `markdown.markdown`, the Cocoa HTML reader, `NSFileWrapper`,
  `NSTextAttachment`, RTFD serialisation, PIL, `requests`, `mimetypes`,
  `hashlib.md5`, `unquote` and `time.sleep` are platform or library code with
  no visible source. Each is an oracle parameter.
- `Images.DownloadWithRetries`: the pause between attempts is counted, not
  performed. `DownloadTimeout` is only a constant.
- The post-pass checks `check_for_large_attachments` and
  `check_for_attachment_png` are left out. So are `print_summary` and all
  logging. These are filesystem walks and output formatting.
- `Notes.SetFileDates`: `strptime` and the timezone-dependent `timestamp()`
  are folded into the `DateOutcome` oracle.
- `Images.DownloadedName`: a non-numeric `Content-Length` raises `ValueError`
  in `int(...)`. That escapes `process_image_urls`, and it is not modelled. The
  header is taken as an integer or absent.
- `Images.ProcessImageFile`: a PIL image whose `format` is `None` raises
  `AttributeError`, outside the `except IOError` clause, and it is not
  modelled. Neither is an `OSError` raised by `os.rename`, which that clause
  would catch.
- `Images.DownloadAndSaveImage`: reading the streamed body can raise a
  `RequestException`, which `process_image_urls` records as a failed download.
  Whether the read succeeds is the oracle flag `Response.bodyReadable`.
- `Images.ProcessImageUrls`: an `IOError` from opening or writing the image
  file (lines 283-284) is not caught by `process_image_urls`. It is not
  modelled.
- `Images.ProcessImageUrls`: the same URL found twice asks the oracles the
  same question twice, and gets the same answer both times.
- `Text.Lower` lowers ASCII letters only. For the suffix tests this is exact.
  Only two non-ASCII characters lower to an ASCII letter. LATIN CAPITAL LETTER
  I WITH DOT ABOVE (U+0130) lowers to `i` followed by U+0307, so that `i` is
  never the last character and no tested suffix can end there. KELVIN SIGN
  (U+212A) lowers to `k`, and no tested suffix contains `k`.
- `Assembler.RichText.SetAttachmentFilenames`: attachments are values in the
  document. So are their file wrappers. Two runs that share one wrapper object
  are not modelled.
- `Assembler.RichText.SetAttachmentFilenames`: lengths count elements, where
  `NSString` counts UTF-16 code units.
- `Assembler.RichText.SetAttachmentFilenames`: character runs are separated by
  a style value only. The attributes themselves are not modelled.
