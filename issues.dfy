/** The process-wide accumulator of conversion problems
    (`ConversionIssueTracker`): seven named lists of messages, appended to
    throughout the run and read once at the end. */
module Issues {

  /** The seven attribute names `add_issue` is called with. */
  datatype IssueKind =
    | FilesWithIssues              // general issues
    | FilesWithDownloadIssues      // image downloads that failed
    | FilesWithAttachmentIssues    // attachment problems, and whole-note failures
    | FilesWithInvalidFrontMatter  // missing dates in the front matter
    | FilesWithInvalidAttachments  // unreadable images and missing PDFs
    | RtfdFilesWithAttachmentPng   // packages holding the placeholder image
    | LargeAttachmentFiles         // packages holding a large attachment

  class IssueTracker {
    var filesWithIssues: seq<string>
    var filesWithDownloadIssues: seq<string>
    var filesWithAttachmentIssues: seq<string>
    var filesWithInvalidFrontMatter: seq<string>
    var filesWithInvalidAttachments: seq<string>
    var rtfdFilesWithAttachmentPng: seq<string>
    var largeAttachmentFiles: seq<string>

    /** The list that `kind` names. */
    function Issues(kind: IssueKind): seq<string>
      reads this
    {
      match kind
      case FilesWithIssues => filesWithIssues
      case FilesWithDownloadIssues => filesWithDownloadIssues
      case FilesWithAttachmentIssues => filesWithAttachmentIssues
      case FilesWithInvalidFrontMatter => filesWithInvalidFrontMatter
      case FilesWithInvalidAttachments => filesWithInvalidAttachments
      case RtfdFilesWithAttachmentPng => rtfdFilesWithAttachmentPng
      case LargeAttachmentFiles => largeAttachmentFiles
    }

    constructor ()
      ensures forall kind :: Issues(kind) == []
    {
      filesWithIssues := [];
      filesWithDownloadIssues := [];
      filesWithAttachmentIssues := [];
      filesWithInvalidFrontMatter := [];
      filesWithInvalidAttachments := [];
      rtfdFilesWithAttachmentPng := [];
      largeAttachmentFiles := [];
    }

    /** `add_issue`: append `message` to the list `kind` names; every other
        list keeps its contents. */
    method AddIssue(kind: IssueKind, message: string)
      modifies this
      ensures Issues(kind) == old(Issues(kind)) + [message]
      ensures forall other :: other != kind ==> Issues(other) == old(Issues(other))
    {
      match kind
      case FilesWithIssues => filesWithIssues := filesWithIssues + [message];
      case FilesWithDownloadIssues => filesWithDownloadIssues := filesWithDownloadIssues + [message];
      case FilesWithAttachmentIssues => filesWithAttachmentIssues := filesWithAttachmentIssues + [message];
      case FilesWithInvalidFrontMatter => filesWithInvalidFrontMatter := filesWithInvalidFrontMatter + [message];
      case FilesWithInvalidAttachments => filesWithInvalidAttachments := filesWithInvalidAttachments + [message];
      case RtfdFilesWithAttachmentPng => rtfdFilesWithAttachmentPng := rtfdFilesWithAttachmentPng + [message];
      case LargeAttachmentFiles => largeAttachmentFiles := largeAttachmentFiles + [message];
    }
  }
}
