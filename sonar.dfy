/** The values the analysis host hands to the plugin: severities, input files
    and issues. */
module Sonar {
  import opened Wrappers

  /** Issue severities, declared in the order of the host's Severity.ALL list. */
  datatype Severity = INFO | MINOR | MAJOR | CRITICAL | BLOCKER

  const ALL: seq<Severity> := [INFO, MINOR, MAJOR, CRITICAL, BLOCKER]

  /** Severity.ALL.indexOf(s): the counter slot of s. */
  function IndexOf(s: Severity): (i: nat)
    ensures i < |ALL| && ALL[i] == s
  {
    match s
    case INFO => 0
    case MINOR => 1
    case MAJOR => 2
    case CRITICAL => 3
    case BLOCKER => 4
  }

  /** severity.toLowerCase() */
  function LowerName(s: Severity): string {
    match s
    case INFO => "info"
    case MINOR => "minor"
    case MAJOR => "major"
    case CRITICAL => "critical"
    case BLOCKER => "blocker"
  }

  /** A file of the analysed project; `path` is its path relative to the Git
      root, which the facade obtains from the host's PathResolver. */
  datatype InputFile = InputFile(key: string, path: string)

  /** An issue reported by the analysis; `line` is absent for issues on a whole
      file, directory or project. */
  datatype Issue = Issue(
    componentKey: string,
    severity: Severity,
    message: string,
    ruleKey: string,
    line: Option<int>,
    isNew: bool)
}
