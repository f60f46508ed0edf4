/** BitBucketPluginConfiguration: the plugin's settings, read from the host's
    string-to-string settings map. */
module Configuration {
  import opened Wrappers
  import opened Text

  /** The number of issues outside the diff that the global report lists. */
  const MAX_GLOBAL_ISSUES: nat := 10

  // ---------------------------------------------------------------------------
  // Settings
  // ---------------------------------------------------------------------------

  /** The host's settings: a key is present or absent, and a present key has
      a text value. */
  type Settings = map<string, string>

  const BITBUCKET_REPO: string := "sonar.bitbucket.repository"
  const BITBUCKET_PULL_REQUEST: string := "sonar.bitbucket.pullRequest"
  /** The host's keys for the project's source links (CoreProperties). */
  const LINKS_SOURCES_DEV: string := "sonar.links.scm_dev"
  const LINKS_SOURCES: string := "sonar.links.scm"

  /** settings.getString(key): the value, or null when the key is absent. */
  function GetString(settings: Settings, key: string): (r: Option<string>)
    ensures r.Some? <==> key in settings
    ensures r.Some? ==> r.value == settings[key]
  {
    if key in settings then Some(settings[key]) else None
  }

  // ---------------------------------------------------------------------------
  // parseGitUrl: the patterns `.*@bitbucket\.com:(.*/.*)\.git` and
  // `https?://bitbucket\.com/(.*/.*)\.git`, matched against the whole text
  // ---------------------------------------------------------------------------

  const SSH_HOST: string := "@bitbucket.com:"
  const HTTP_PREFIX: string := "http://bitbucket.com/"
  const HTTPS_PREFIX: string := "https://bitbucket.com/"
  const GIT_SUFFIX: string := ".git"

  /** The text between positions lo and hi can be the capture `.*\/.*`. */
  predicate Capturable(s: string, lo: nat, hi: nat)
    requires lo <= hi <= |s|
  {
    '/' in s[lo..hi]
  }

  /** The SSH pattern matches s with its leading `.*` covering s[..k]. */
  predicate SshSplitAt(s: string, k: nat) {
    && k + |SSH_HOST| + |GIT_SUFFIX| <= |s|
    && NoLineTerminator(s)
    && s[k..k + |SSH_HOST|] == SSH_HOST
    && s[|s| - |GIT_SUFFIX|..] == GIT_SUFFIX
    && Capturable(s, k + |SSH_HOST|, |s| - |GIT_SUFFIX|)
  }

  /** The largest k below bound at which the SSH pattern splits s: the
      greedy leading `.*` tries the longest prefix first. */
  function LastSshSplit(s: string, bound: nat): (r: Option<nat>)
    ensures r.Some? ==> r.value < bound && SshSplitAt(s, r.value)
    ensures r.Some? ==> forall j | r.value < j < bound :: !SshSplitAt(s, j)
    ensures r.None? ==> forall j | 0 <= j < bound :: !SshSplitAt(s, j)
    decreases bound
  {
    if bound == 0 then None
    else if SshSplitAt(s, bound - 1) then Some(bound - 1)
    else LastSshSplit(s, bound - 1)
  }

  /** `https?://bitbucket\.com/(.*\/.*)\.git` with the given prefix matches s. */
  predicate HttpForm(s: string, prefix: string) {
    && |prefix| + |GIT_SUFFIX| <= |s|
    && NoLineTerminator(s)
    && s[..|prefix|] == prefix
    && s[|s| - |GIT_SUFFIX|..] == GIT_SUFFIX
    && Capturable(s, |prefix|, |s| - |GIT_SUFFIX|)
  }

  /** parseGitUrl(urlOrRepo): group 1 of the first pattern that matches, or
      null. */
  function ParseGitUrl(s: string): (r: Option<string>)
    ensures r.Some? ==> |r.value| + |GIT_SUFFIX| <= |s| && '/' in r.value
    ensures r.Some? ==> s[|s| - |GIT_SUFFIX| - |r.value|..] == r.value + GIT_SUFFIX
  {
    match LastSshSplit(s, |s|)
    case Some(k) => Some(s[k + |SSH_HOST|..|s| - |GIT_SUFFIX|])
    case None =>
      if HttpForm(s, HTTP_PREFIX) then Some(s[|HTTP_PREFIX|..|s| - |GIT_SUFFIX|])
      else if HttpForm(s, HTTPS_PREFIX) then Some(s[|HTTPS_PREFIX|..|s| - |GIT_SUFFIX|])
      else None
  }

  /** parseGitUrl is null exactly when neither pattern matches. */
  lemma ParseGitUrlNone(s: string)
    ensures ParseGitUrl(s).None? <==>
      (forall k | 0 <= k < |s| :: !SshSplitAt(s, k)) && !HttpForm(s, HTTP_PREFIX) && !HttpForm(s, HTTPS_PREFIX)
  {
    if ParseGitUrl(s).None? {
      assert LastSshSplit(s, |s|).None?;
    } else if LastSshSplit(s, |s|).None? {
      assert HttpForm(s, HTTP_PREFIX) || HttpForm(s, HTTPS_PREFIX);
    }
  }

  /** A text that does not end in ".git" names no repository. */
  lemma ParseGitUrlNeedsSuffix(s: string)
    requires |s| < |GIT_SUFFIX| || s[|s| - |GIT_SUFFIX|..] != GIT_SUFFIX
    ensures ParseGitUrl(s).None?
  {
    ParseGitUrlNone(s);
  }

  /** The SSH pattern needs an '@' where its leading `.*` ends. */
  lemma SshSplitHasAt(s: string, k: nat)
    requires SshSplitAt(s, k)
    ensures s[k] == '@'
  {
    assert s[k] == s[k..k + |SSH_HOST|][0];
  }

  lemma NoLineTerminatorConcat(a: string, b: string)
    requires NoLineTerminator(a) && NoLineTerminator(b)
    ensures NoLineTerminator(a + b)
  {
    forall i | 0 <= i < |a + b| ensures !IsLineTerminator((a + b)[i]) {
      if i >= |a| { assert (a + b)[i] == b[i - |a|]; }
    }
  }

  lemma NotInConcat(a: string, b: string, ch: char)
    requires ch !in a && ch !in b
    ensures ch !in a + b
  {
  }

  /** The constant parts of the patterns match no line terminator, and hold
      no '@' except where the SSH host begins. */
  lemma PatternTexts()
    ensures NoLineTerminator(SSH_HOST) && NoLineTerminator(GIT_SUFFIX)
    ensures NoLineTerminator(HTTP_PREFIX) && NoLineTerminator(HTTPS_PREFIX)
    ensures '@' !in SSH_HOST[1..] && '@' !in GIT_SUFFIX && '@' !in HTTP_PREFIX && '@' !in HTTPS_PREFIX
  {
  }

  /** p + "@bitbucket.com:" + g + ".git" splits after p. */
  lemma SshSplitAfter(p: string, g: string)
    requires NoLineTerminator(p) && NoLineTerminator(g) && '/' in g
    ensures SshSplitAt(p + SSH_HOST + g + GIT_SUFFIX, |p|)
    ensures (p + SSH_HOST + g + GIT_SUFFIX)[|p| + |SSH_HOST|..|p + SSH_HOST + g + GIT_SUFFIX| - |GIT_SUFFIX|] == g
  {
    var s := p + SSH_HOST + g + GIT_SUFFIX;
    var k := |p|;
    PatternTexts();
    assert s == p + (SSH_HOST + g + GIT_SUFFIX);
    assert s[k..k + |SSH_HOST|] == SSH_HOST;
    assert s[|s| - |GIT_SUFFIX|..] == GIT_SUFFIX;
    assert s[k + |SSH_HOST|..|s| - |GIT_SUFFIX|] == g;
    NoLineTerminatorConcat(p, SSH_HOST);
    NoLineTerminatorConcat(p + SSH_HOST, g);
    NoLineTerminatorConcat(p + SSH_HOST + g, GIT_SUFFIX);
  }

  /** Without an '@' in g, no split lies further right. */
  lemma SshNoLaterSplit(p: string, g: string)
    requires '@' !in g
    ensures forall j | |p| < j < |p + SSH_HOST + g + GIT_SUFFIX| :: !SshSplitAt(p + SSH_HOST + g + GIT_SUFFIX, j)
  {
    var s := p + SSH_HOST + g + GIT_SUFFIX;
    var k := |p|;
    var tail := SSH_HOST[1..] + g + GIT_SUFFIX;
    PatternTexts();
    NotInConcat(SSH_HOST[1..], g, '@');
    NotInConcat(SSH_HOST[1..] + g, GIT_SUFFIX, '@');
    assert s[k + 1..] == tail;
    forall j | k < j < |s| ensures !SshSplitAt(s, j) {
      if SshSplitAt(s, j) {
        SshSplitHasAt(s, j);
      }
    }
  }

  /** The SSH form: what follows the last "@bitbucket.com:" and precedes the
      closing ".git" is the repository. */
  lemma SshCapture(p: string, g: string)
    requires NoLineTerminator(p) && NoLineTerminator(g) && '/' in g && '@' !in g
    ensures ParseGitUrl(p + SSH_HOST + g + GIT_SUFFIX) == Some(g)
  {
    var s := p + SSH_HOST + g + GIT_SUFFIX;
    SshSplitAfter(p, g);
    SshNoLaterSplit(p, g);
    var r := LastSshSplit(s, |s|);
    assert r == Some(|p|);
  }

  /** The HTTP and HTTPS forms: what follows the host and precedes the closing
      ".git" is the repository. */
  lemma HttpCapture(prefix: string, g: string)
    requires prefix == HTTP_PREFIX || prefix == HTTPS_PREFIX
    requires NoLineTerminator(g) && '/' in g && '@' !in g
    ensures ParseGitUrl(prefix + g + GIT_SUFFIX) == Some(g)
  {
    var s := prefix + g + GIT_SUFFIX;
    PatternTexts();
    assert s[..|prefix|] == prefix;
    assert s[|s| - |GIT_SUFFIX|..] == GIT_SUFFIX;
    assert s[|prefix|..|s| - |GIT_SUFFIX|] == g;
    NoLineTerminatorConcat(prefix, g);
    NoLineTerminatorConcat(prefix + g, GIT_SUFFIX);
    NotInConcat(prefix, g, '@');
    NotInConcat(prefix + g, GIT_SUFFIX, '@');
    forall j | 0 <= j < |s| ensures !SshSplitAt(s, j) {
      if SshSplitAt(s, j) {
        SshSplitHasAt(s, j);
      }
    }
    assert LastSshSplit(s, |s|).None?;
    if prefix == HTTPS_PREFIX {
      assert s[..|HTTP_PREFIX|] != HTTP_PREFIX by {
        assert s[4] == s[..|prefix|][4];
        assert HTTPS_PREFIX[4] == 's' && HTTP_PREFIX[4] == ':';
      }
    }
  }

  // ---------------------------------------------------------------------------
  // repositoryRaw, repository and repositoryOwner
  // ---------------------------------------------------------------------------

  /** repositoryRaw(): the repository setting, parsed or verbatim; else the
      parsed developer source link; else the parsed source link; else null. */
  function RepositoryRaw(settings: Settings): (r: Option<string>)
    ensures BITBUCKET_REPO in settings ==> r.Some?
    ensures BITBUCKET_REPO in settings && ParseGitUrl(settings[BITBUCKET_REPO]).None? ==>
      r == Some(settings[BITBUCKET_REPO])
    ensures BITBUCKET_REPO !in settings ==>
      (r.Some? <==>
        || (LINKS_SOURCES_DEV in settings && ParseGitUrl(settings[LINKS_SOURCES_DEV]).Some?)
        || (LINKS_SOURCES in settings && ParseGitUrl(settings[LINKS_SOURCES]).Some?))
  {
    var fromRepo :=
      if BITBUCKET_REPO in settings then
        match ParseGitUrl(settings[BITBUCKET_REPO])
        case Some(repo) => Some(repo)
        case None => Some(settings[BITBUCKET_REPO])
      else None;
    var fromDev :=
      if fromRepo.None? && LINKS_SOURCES_DEV in settings then ParseGitUrl(settings[LINKS_SOURCES_DEV]) else fromRepo;
    if fromDev.None? && LINKS_SOURCES in settings then ParseGitUrl(settings[LINKS_SOURCES]) else fromDev
  }

  /** The first setting present and parseable wins: the repository setting
      over both links, the developer link over the plain one. */
  lemma RepositoryRawPriority(settings: Settings)
    ensures BITBUCKET_REPO in settings && ParseGitUrl(settings[BITBUCKET_REPO]).Some? ==>
      RepositoryRaw(settings) == ParseGitUrl(settings[BITBUCKET_REPO])
    ensures (BITBUCKET_REPO !in settings && LINKS_SOURCES_DEV in settings
             && ParseGitUrl(settings[LINKS_SOURCES_DEV]).Some?) ==>
      RepositoryRaw(settings) == ParseGitUrl(settings[LINKS_SOURCES_DEV])
    ensures (BITBUCKET_REPO !in settings
             && (LINKS_SOURCES_DEV !in settings || ParseGitUrl(settings[LINKS_SOURCES_DEV]).None?)) ==>
      RepositoryRaw(settings) == (if LINKS_SOURCES in settings then ParseGitUrl(settings[LINKS_SOURCES]) else None)
  {
  }

  /** The pieces of s between occurrences of c, empty ones included
      (String.split with a negative limit). */
  function Pieces(s: string, c: char): (r: seq<string>)
    ensures |r| >= 1
    ensures forall i | 0 <= i < |r| :: c !in r[i]
    decreases |s|
  {
    if c in s then
      var i := FirstIndex(s, c);
      [s[..i]] + Pieces(s[i + 1..], c)
    else [s]
  }

  /** The position of the first c in s. */
  function FirstIndex(s: string, c: char): (i: nat)
    requires c in s
    ensures i < |s| && s[i] == c && c !in s[..i]
  {
    if s[0] == c then 0
    else
      assert c in s[1..] by { var k :| 0 <= k < |s| && s[k] == c; assert s[1..][k - 1] == c; }
      var j := FirstIndex(s[1..], c);
      assert s[..j + 1] == [s[0]] + s[1..][..j];
      j + 1
  }

  /** The pieces joined back with c between them. */
  function Join(ps: seq<string>, c: char): string
    requires |ps| >= 1
    decreases |ps|
  {
    if |ps| == 1 then ps[0] else ps[0] + [c] + Join(ps[1..], c)
  }

  /** Joining the pieces gives back the text. */
  lemma {:induction false} JoinPieces(s: string, c: char)
    ensures Join(Pieces(s, c), c) == s
    decreases |s|
  {
    if c in s {
      var i := FirstIndex(s, c);
      JoinPieces(s[i + 1..], c);
      assert Pieces(s, c)[1..] == Pieces(s[i + 1..], c);
      assert s == s[..i] + [c] + s[i + 1..];
    }
  }

  /** A piece without c followed by c is the first piece. */
  lemma PiecesCons(p: string, c: char, rest: string)
    requires c !in p
    ensures Pieces(p + [c] + rest, c) == [p] + Pieces(rest, c)
  {
    var s := p + [c] + rest;
    assert s[|p|] == c;
    var i := FirstIndex(s, c);
    assert s[..|p|] == p;
    assert s[..i] == p;
    assert s[i + 1..] == rest;
  }

  /** Splitting joined pieces that do not contain c gives back the pieces. */
  lemma {:induction false} PiecesJoin(ps: seq<string>, c: char)
    requires |ps| >= 1 && forall i | 0 <= i < |ps| :: c !in ps[i]
    ensures Pieces(Join(ps, c), c) == ps
    decreases |ps|
  {
    if |ps| > 1 {
      PiecesJoin(ps[1..], c);
      PiecesCons(ps[0], c, Join(ps[1..], c));
      assert ps == [ps[0]] + ps[1..];
    }
  }

  /** ps without its trailing empty strings, as String.split returns it. */
  function DropTrailingEmpty(ps: seq<string>): (r: seq<string>)
    ensures |r| <= |ps| && r == ps[..|r|]
    ensures forall j | |r| <= j < |ps| :: ps[j] == ""
    ensures |r| > 0 ==> r[|r| - 1] != ""
    decreases |ps|
  {
    if |ps| == 0 then []
    else if ps[|ps| - 1] == "" then DropTrailingEmpty(ps[..|ps| - 1])
    else ps
  }

  /** String.split(String.valueOf(c)) for an s containing c, the only way it
      is used (Java gives [""] for the empty text, this gives []). */
  function Split(s: string, c: char): seq<string> {
    DropTrailingEmpty(Pieces(s, c))
  }

  /** The split keeps at least k parts exactly when a piece at k - 1 or later
      is non-empty. */
  lemma SplitLength(s: string, c: char, k: nat)
    requires k >= 1
    ensures |Split(s, c)| >= k <==> exists j | k - 1 <= j < |Pieces(s, c)| :: Pieces(s, c)[j] != ""
  {
    var ps := Pieces(s, c);
    var r := Split(s, c);
    if |r| >= k {
      assert ps[|r| - 1] == r[|r| - 1];
      assert exists j | k - 1 <= j < |Pieces(s, c)| :: Pieces(s, c)[j] != "";
    } else {
      forall j | k - 1 <= j < |ps|
        ensures ps[j] == ""
      {
        assert |r| <= j;
      }
      assert !exists j | k - 1 <= j < |ps| :: ps[j] != "";
    }
  }

  /** repositoryOwner(): the first '/'-separated part of the raw repository
      name, or null. */
  function RepositoryOwner(settings: Settings): (r: Option<string>)
  {
    match RepositoryRaw(settings)
    case None => None
    case Some(raw) =>
      if '/' in raw then
        var parts := Split(raw, '/');
        if |parts| > 0 then Some(parts[0]) else None
      else None
  }

  /** repository(): the second '/'-separated part of the raw repository name,
      or null. */
  function Repository(settings: Settings): (r: Option<string>)
  {
    match RepositoryRaw(settings)
    case None => None
    case Some(raw) =>
      if '/' in raw then
        var parts := Split(raw, '/');
        if |parts| > 1 then Some(parts[1]) else None
      else None
  }

  /** The owner is the text before the first '/'. It is null when there is no
      raw name, no '/' in it, or nothing in it but '/' characters. */
  lemma RepositoryOwnerSpec(settings: Settings)
    ensures RepositoryOwner(settings).Some? <==>
      RepositoryRaw(settings).Some? && '/' in RepositoryRaw(settings).value
      && exists j | 0 <= j < |Pieces(RepositoryRaw(settings).value, '/')| :: Pieces(RepositoryRaw(settings).value, '/')[j] != ""
    ensures RepositoryOwner(settings).Some? ==>
      var raw := RepositoryRaw(settings).value;
      RepositoryOwner(settings).value == raw[..FirstIndex(raw, '/')]
  {
    if RepositoryRaw(settings).Some? && '/' in RepositoryRaw(settings).value {
      SplitLength(RepositoryRaw(settings).value, '/', 1);
    }
  }

  /** The repository is the text between the first and the second '/' (or
      the end). It is null when there is no raw name, no '/' in it, or
      nothing but empty parts after the first '/'. */
  lemma RepositorySpec(settings: Settings)
    ensures Repository(settings).Some? <==>
      RepositoryRaw(settings).Some? && '/' in RepositoryRaw(settings).value
      && exists j | 1 <= j < |Pieces(RepositoryRaw(settings).value, '/')| :: Pieces(RepositoryRaw(settings).value, '/')[j] != ""
    ensures Repository(settings).Some? ==>
      var raw := RepositoryRaw(settings).value;
      var rest := raw[FirstIndex(raw, '/') + 1..];
      Repository(settings).value == if '/' in rest then rest[..FirstIndex(rest, '/')] else rest
  {
    if RepositoryRaw(settings).Some? && '/' in RepositoryRaw(settings).value {
      var raw := RepositoryRaw(settings).value;
      SplitLength(raw, '/', 2);
      var rest := raw[FirstIndex(raw, '/') + 1..];
      assert Pieces(raw, '/')[1..] == Pieces(rest, '/');
    }
  }

  /** A raw name "owner/name" with no further '/' and a non-empty name splits
      into that owner and that name. */
  lemma OwnerAndName(settings: Settings, owner: string, name: string)
    requires RepositoryRaw(settings) == Some(owner + "/" + name)
    requires '/' !in owner && '/' !in name && name != ""
    ensures RepositoryOwner(settings) == Some(owner)
    ensures Repository(settings) == Some(name)
  {
    var raw := owner + "/" + name;
    assert Join([owner, name], '/') == raw by {
      assert Join([owner, name][1..], '/') == name;
    }
    PiecesJoin([owner, name], '/');
    assert raw[|owner|] == '/';
  }

  /** Source links that are not Bitbucket git URLs give no repository and
      no owner. */
  lemma UnparseableLinks(settings: Settings)
    requires BITBUCKET_REPO !in settings
    requires LINKS_SOURCES_DEV in settings ==> ParseGitUrl(settings[LINKS_SOURCES_DEV]).None?
    requires LINKS_SOURCES in settings ==> ParseGitUrl(settings[LINKS_SOURCES]).None?
    ensures RepositoryRaw(settings) == None
    ensures Repository(settings) == None && RepositoryOwner(settings) == None
  {
  }

  /** An SSH source link names the text between the host and ".git". */
  lemma ExampleScmLinkRaw(settings: Settings)
    requires BITBUCKET_REPO !in settings && LINKS_SOURCES_DEV !in settings
    requires LINKS_SOURCES in settings
    requires settings[LINKS_SOURCES] ==
      "scm:git:git" + "@bitbucket.com:" + ("SonarCommunity" + "/" + "bitbucket-integration") + ".git"
    ensures RepositoryRaw(settings) == Some("SonarCommunity" + "/" + "bitbucket-integration")
  {
    var g := "SonarCommunity" + "/" + "bitbucket-integration";
    assert g[14] == '/';
    SshCapture("scm:git:git", g);
  }

  /** An SSH source link: the owner and the name around its '/'. */
  lemma ExampleScmLink(settings: Settings)
    requires BITBUCKET_REPO !in settings && LINKS_SOURCES_DEV !in settings
    requires LINKS_SOURCES in settings
    requires settings[LINKS_SOURCES] ==
      "scm:git:git" + "@bitbucket.com:" + ("SonarCommunity" + "/" + "bitbucket-integration") + ".git"
    ensures RepositoryOwner(settings) == Some("SonarCommunity")
    ensures Repository(settings) == Some("bitbucket-integration")
  {
    ExampleScmLinkRaw(settings);
    OwnerAndName(settings, "SonarCommunity", "bitbucket-integration");
  }

  /** A repository setting that is no git URL is split as it stands. */
  lemma ExampleVerbatimSetting(settings: Settings)
    requires BITBUCKET_REPO in settings
    requires settings[BITBUCKET_REPO] == "SonarCommunity3" + "/" + "bitbucket-integration"
    ensures RepositoryOwner(settings) == Some("SonarCommunity3")
    ensures Repository(settings) == Some("bitbucket-integration")
  {
    var owner, name := "SonarCommunity3", "bitbucket-integration";
    var raw := owner + "/" + name;
    assert settings[BITBUCKET_REPO] == raw;
    assert raw[|raw| - |GIT_SUFFIX|..] != GIT_SUFFIX by {
      assert raw[|raw| - 1] == 'n' && GIT_SUFFIX[3] == 't';
    }
    ParseGitUrlNeedsSuffix(raw);
    OwnerAndName(settings, owner, name);
  }

  // ---------------------------------------------------------------------------
  // isEnabled, ciKey, ciName and ciURL
  // ---------------------------------------------------------------------------

  /** isEnabled(): a pull request number is configured. */
  function IsEnabled(settings: Settings): (b: bool)
    ensures b <==> GetString(settings, BITBUCKET_PULL_REQUEST).Some?
  {
    BITBUCKET_PULL_REQUEST in settings
  }

  /** The keys and defaults of the build-status settings, which
      BitBucketPlugin.java does not declare. */
  datatype CiKeys = CiKeys(
    ciKey: string, ciName: string, ciUrl: string, defaultCiKeyName: string, defaultCiUrl: string)

  /** The configured value, or the default when it is absent or empty. */
  function ValueOrDefault(settings: Settings, key: string, default: string): (r: string)
    ensures key in settings && settings[key] != "" ==> r == settings[key]
    ensures (key !in settings || settings[key] == "") ==> r == default
  {
    match GetString(settings, key)
    case Some(value) => if |value| == 0 then default else value
    case None => default
  }

  /** ciKey() */
  function CiKey(settings: Settings, keys: CiKeys): string
  {
    ValueOrDefault(settings, keys.ciKey, keys.defaultCiKeyName)
  }

  /** ciName(): like ciKey it falls back to the default key name. */
  function CiName(settings: Settings, keys: CiKeys): string
  {
    ValueOrDefault(settings, keys.ciName, keys.defaultCiKeyName)
  }

  /** ciURL() */
  function CiUrl(settings: Settings, keys: CiKeys): string
  {
    ValueOrDefault(settings, keys.ciUrl, keys.defaultCiUrl)
  }

  /** Each of ciKey, ciName and ciURL is the configured value when it is
      present and non-empty, and its default otherwise. */
  lemma CiSettings(settings: Settings, keys: CiKeys)
    ensures keys.ciKey in settings && settings[keys.ciKey] != "" ==> CiKey(settings, keys) == settings[keys.ciKey]
    ensures (keys.ciKey !in settings || settings[keys.ciKey] == "") ==> CiKey(settings, keys) == keys.defaultCiKeyName
    ensures keys.ciName in settings && settings[keys.ciName] != "" ==> CiName(settings, keys) == settings[keys.ciName]
    ensures (keys.ciName !in settings || settings[keys.ciName] == "") ==> CiName(settings, keys) == keys.defaultCiKeyName
    ensures keys.ciUrl in settings && settings[keys.ciUrl] != "" ==> CiUrl(settings, keys) == settings[keys.ciUrl]
    ensures (keys.ciUrl !in settings || settings[keys.ciUrl] == "") ==> CiUrl(settings, keys) == keys.defaultCiUrl
  {
  }

  /** Without a configured name the build status is named by the default
      key name, the same text ciKey falls back to. */
  lemma CiNameSharesKeyDefault(settings: Settings, keys: CiKeys)
    requires keys.ciName !in settings || settings[keys.ciName] == ""
    requires keys.ciKey !in settings || settings[keys.ciKey] == ""
    ensures CiName(settings, keys) == CiKey(settings, keys) == keys.defaultCiKeyName
  {
  }
}
