/** The renderings of MarkDownUtils, which the report and the job call but
    whose source is not part of this model: each is a string function the
    caller supplies. */
module Markdown {
  import opened Wrappers
  import opened Sonar

  datatype MarkDown = MarkDown(
    /** globalIssue(severity, message, ruleKey, url, componentKey) */
    globalIssue: (Severity, string, string, Option<string>, string) -> string,
    /** inlineIssue(severity, message, ruleKey) */
    inlineIssue: (Severity, string, string) -> string,
    /** getImageMarkdownForSeverity(severity) */
    imageForSeverity: Severity -> string)
}
