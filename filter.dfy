/**
  The InclusionFilter of implant.go: the check on the input root
  (`CheckInput`) and the per-entry admission test (`ShouldInclude`).
*/
module Filter {
  import opened Fs

  /**
    The command-line settings that the core reads (implant.go:32-40), passed
    explicitly instead of living in a process-wide variable.
  */
  datatype Config = Config(
    input: string,     // the directory to read
    output: string,    // the file to generate
    exclude: string,   // a regular expression of paths to skip; "" for none
    package: string,   // the package of the generated file
    format: bool)      // pipe the generated text through gofmt

  /**
    `regexp.MatchString(pattern, s)`: whether the pattern matches somewhere in
    `s`. A pattern that does not compile reads as no match, since the error is
    discarded.
  */
  type Matcher = (string, string) -> bool

  /** `CheckInput`: the root must stat successfully and be a directory. */
  function CheckInput(cfg: Config, fs: FileSystem): (ok: bool)
    ensures ok <==> Stat(fs, cfg.input) == Dir
    ensures Stat(fs, cfg.input) == Missing ==> !ok
    ensures Stat(fs, cfg.input) == Regular ==> !ok
  {
    var st := Stat(fs, cfg.input);
    if st == Missing then false
    else if st != Dir then false
    else true
  }

  /**
    `ShouldInclude`: reject when the stat fails, when the entry is not a
    regular file, or when a non-empty `Exclude` matches the full path; admit
    otherwise. There is no error result: every failure reads as "reject".
  */
  function ShouldInclude(cfg: Config, fs: FileSystem, matches: Matcher, path: string): (admit: bool)
    ensures Stat(fs, path) != Regular ==> !admit
    ensures Stat(fs, path) == Regular ==> (admit <==> cfg.exclude == "" || !matches(cfg.exclude, path))
  {
    var st := Stat(fs, path);
    if st == Missing then false
    else if st != Regular then false
    else if cfg.exclude != "" && matches(cfg.exclude, path) then false
    else true
  }

  /** A root that passes `CheckInput` is a directory and so never becomes a resource itself. */
  lemma RootNeverAdmitted(cfg: Config, fs: FileSystem, matches: Matcher)
    ensures CheckInput(cfg, fs) ==> !ShouldInclude(cfg, fs, matches, cfg.input)
  {
  }

  // A stand-in for the regexp engine that covers patterns of literal
  // characters and `.` (any character except a newline, as in Go's regexp
  // without the `s` flag), searched for anywhere in the text as
  // `regexp.MatchString` does. It lets the exclusion examples be stated.

  /** `pattern` matches at the start of `s`. */
  predicate MatchesHere(pattern: string, s: string) {
    |pattern| <= |s| && forall j :: 0 <= j < |pattern| ==> (pattern[j] == '.' && s[j] != '\n') || pattern[j] == s[j]
  }

  /** Unanchored search: some suffix of `s` starts with a match. */
  predicate Search(pattern: string, s: string)
    ensures Search(pattern, s) ==> |pattern| <= |s|
    decreases |s|
  {
    MatchesHere(pattern, s) || (|s| > 0 && Search(pattern, s[1..]))
  }

  /** `Search` finds a match exactly when one starts at some position of `s`. */
  lemma {:induction false} SearchIff(pattern: string, s: string)
    ensures Search(pattern, s) <==> exists k :: 0 <= k <= |s| && MatchesHere(pattern, s[k..])
  {
    if |s| > 0 {
      SearchIff(pattern, s[1..]);
      forall k | 1 <= k <= |s| ensures s[k..] == s[1..][k - 1..] { }
      assert s[0..] == s;
      if Search(pattern, s) && !MatchesHere(pattern, s) {
        var k :| 0 <= k <= |s[1..]| && MatchesHere(pattern, s[1..][k..]);
        assert MatchesHere(pattern, s[k + 1..]);
      }
      if exists k :: 0 <= k <= |s| && MatchesHere(pattern, s[k..]) {
        var k :| 0 <= k <= |s| && MatchesHere(pattern, s[k..]);
        if k > 0 {
          assert MatchesHere(pattern, s[1..][k - 1..]);
        }
      }
    } else {
      assert s[0..] == s;
    }
  }

  /** The match is unanchored: text around a matching path does not prevent the match. */
  lemma SearchUnanchored(pattern: string, s: string, before: string, after: string)
    requires Search(pattern, s)
    ensures Search(pattern, before + s + after)
  {
    SearchIff(pattern, s);
    var k :| 0 <= k <= |s| && MatchesHere(pattern, s[k..]);
    var t := before + s + after;
    assert t[|before| + k..][..|s| - k] == s[k..];
    assert MatchesHere(pattern, t[|before| + k..]);
    SearchIff(pattern, t);
  }
}

module FilterExamples {
  import opened Fs
  import opened Filter

  /** A match of `/.git` is `/`, any character but a newline, then `git`. */
  lemma GitPatternShape(t: string)
    ensures MatchesHere("/.git", t) <==> |t| >= 5 && t[0] == '/' && t[1] != '\n' && t[2] == 'g' && t[3] == 'i' && t[4] == 't'
  {
  }

  /** No position of `s` starts a match of `/.git`. */
  lemma NoGitMatch(s: string)
    requires forall k :: 0 <= k && k + 5 <= |s| ==>
      s[k] != '/' || s[k + 1] == '\n' || s[k + 2] != 'g' || s[k + 3] != 'i' || s[k + 4] != 't'
    ensures !Search("/.git", s)
  {
    SearchIff("/.git", s);
    forall k | 0 <= k <= |s| ensures !MatchesHere("/.git", s[k..]) {
      GitPatternShape(s[k..]);
      if k + 5 <= |s| {
        assert s[k..][0] == s[k] && s[k..][1] == s[k + 1] && s[k..][2] == s[k + 2] && s[k..][3] == s[k + 3] && s[k..][4] == s[k + 4];
      }
    }
  }

  /** A position of `s` where `/.git` matches. */
  lemma GitMatchAt(s: string, k: nat)
    requires k + 5 <= |s| && s[k] == '/' && s[k + 1] != '\n' && s[k + 2] == 'g' && s[k + 3] == 'i' && s[k + 4] == 't'
    ensures Search("/.git", s)
  {
    assert MatchesHere("/.git", s[k..]);
    SearchIff("/.git", s);
  }

  /** The directory `ioutil.TempDir` hands the test, made concrete. */
  const TempDir: string := "/tmp/prefix1/"

  /** `/.git` does not match the path of `test`, so a regular `test` is admitted. */
  lemma AdmitsTest(fs: FileSystem, cfg: Config)
    requires cfg.exclude == "/.git" && Stat(fs, TempDir + "test") == Regular
    ensures ShouldInclude(cfg, fs, Search, TempDir + "test")
  {
    var s := TempDir + "test";
    forall k | 0 <= k && k + 5 <= |s| ensures s[k] != '/' || s[k + 2] != 'g' || s[k + 3] != 'i' || s[k + 4] != 't' {
      assert s[k + 3] != 'i' || k == 6;
    }
    NoGitMatch(s);
  }

  /** `/.git` does not match the path of `git` (no character before `git`), so it is admitted. */
  lemma AdmitsGit(fs: FileSystem, cfg: Config)
    requires cfg.exclude == "/.git" && Stat(fs, TempDir + "git") == Regular
    ensures ShouldInclude(cfg, fs, Search, TempDir + "git")
  {
    var s := TempDir + "git";
    forall k | 0 <= k && k + 5 <= |s| ensures s[k] != '/' || s[k + 2] != 'g' || s[k + 3] != 'i' || s[k + 4] != 't' {
      assert s[k + 3] != 'i' || k == 6 || k == 11;
    }
    NoGitMatch(s);
  }

  /** `/.git` matches `/`, a character other than a newline, then `git` in `name`'s path, which rejects it. */
  lemma RejectsGitLike(fs: FileSystem, cfg: Config, name: string)
    requires cfg.exclude == "/.git" && |name| >= 4 && name[0] != '\n' && name[1..4] == "git"
    ensures !ShouldInclude(cfg, fs, Search, TempDir + name)
  {
    var s := TempDir + name;
    assert s[12] == '/' && s[13] == name[0] && s[14] == name[1] && s[15] == name[2] && s[16] == name[3];
    GitMatchAt(s, 12);
  }

  /**
    `.` does not match a newline, so a file named newline-then-`git` is not
    caught by `/.git` and is admitted.
  */
  lemma AdmitsNewlineGit(fs: FileSystem, cfg: Config)
    requires cfg.exclude == "/.git" && Stat(fs, TempDir + "\ngit") == Regular
    ensures ShouldInclude(cfg, fs, Search, TempDir + "\ngit")
  {
    var s := TempDir + "\ngit";
    forall k | 0 <= k && k + 5 <= |s|
      ensures s[k] != '/' || s[k + 1] == '\n' || s[k + 2] != 'g' || s[k + 3] != 'i' || s[k + 4] != 't'
    {
      assert s[k + 3] != 'i' || k == 6 || k == 12;
    }
    NoGitMatch(s);
  }
}
