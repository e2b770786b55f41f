/**
  The build script `build.rs`: it asks git for the abbreviated commit hash and
  whether the working tree is dirty, asks rustc for its version, and joins
  these with the package version and the build date into `BUILD_VERSION`.

  The outcome of each command, the package version and the build date are
  inputs here; the script's `cargo:` lines are its output.
 */
module BuildScript {
  import opened Wrappers
  import opened Utf8
  import opened Whitespace
  import opened VersionString

  /**
    What `Command::output()` gives back: `SpawnError` for its `Err` case, when
    the program could not be run (it did not start, or waiting for it or
    reading its output failed), otherwise whether it exited successfully and
    the bytes it wrote to standard output.
   */
  datatype CommandOutput = SpawnError | Exited(success: bool, stdout: seq<byte>)

  /** Everything the build script reads from its surroundings. */
  datatype BuildEnvironment = BuildEnvironment(
    packageVersion: string,    // `CARGO_PKG_VERSION`
    buildDate: string,         // the current UTC time as `%Y-%m-%dT%H:%M:%SZ`
    revParse: CommandOutput,   // `git rev-parse --short=10 HEAD`
    status: CommandOutput,     // `git status --porcelain`
    rustc: CommandOutput)      // `rustc --version`

  /** The trimmed output of `git rev-parse`, if it ran, succeeded and printed UTF-8. */
  function CommitHash(revParse: CommandOutput): Option<string> {
    if revParse.SpawnError? || !revParse.success then None
    else
      match Decode(revParse.stdout)
      case None => None
      case Some(text) => Some(Trim(text))
  }

  /** `git status --porcelain` printed something, whatever its exit status. */
  predicate IsDirty(status: CommandOutput) {
    status.Exited? && status.stdout != []
  }

  function DirtySuffix(status: CommandOutput): string {
    if IsDirty(status) then "-dirty" else ""
  }

  /** `get_git_version`: the commit hash, marked `-dirty` when the tree has changes. */
  function GitVersion(revParse: CommandOutput, status: CommandOutput): (r: Option<string>)
    ensures r.None? <==>
      revParse.SpawnError? || !revParse.success || Decode(revParse.stdout).None?
    ensures r.Some? ==>
      var hash := Trim(Decode(revParse.stdout).value);
      if status.Exited? && status.stdout != [] then r.value == hash + "-dirty" else r.value == hash
  {
    match CommitHash(revParse)
    case None => None
    case Some(hash) => Some(hash + DirtySuffix(status))
  }

  /** `get_rustc_version`: the trimmed output of `rustc --version`; its exit status is not looked at. */
  function RustcVersion(rustc: CommandOutput): (r: Option<string>)
    ensures r.Some? <==> rustc.Exited? && Decode(rustc.stdout).Some?
    ensures r.Some? ==> r.value == Trim(Decode(rustc.stdout).value)
  {
    if rustc.SpawnError? then None
    else
      match Decode(rustc.stdout)
      case None => None
      case Some(text) => Some(Trim(text))
  }

  /**
    Whatever text a successful `git rev-parse` prints, the fragment is that
    text trimmed, followed by the dirty suffix; an unsuccessful one gives
    no fragment whatever it printed.
   */
  lemma GitVersionOfText(text: string, status: CommandOutput)
    ensures GitVersion(Exited(true, Encode(text)), status) == Some(Trim(text) + DirtySuffix(status))
    ensures GitVersion(Exited(false, Encode(text)), status) == None
  {
    DecodeEncode(text);
  }

  /** Whatever text `rustc --version` prints, successful or not, the toolchain is that text trimmed. */
  lemma RustcVersionOfText(text: string, success: bool)
    ensures RustcVersion(Exited(success, Encode(text))) == Some(Trim(text))
  {
    DecodeEncode(text);
  }

  /** The four parts `set_build_version` joins. */
  function Parts(env: BuildEnvironment): VersionParts {
    VersionParts(env.packageVersion, GitVersion(env.revParse, env.status),
                 env.buildDate, RustcVersion(env.rustc))
  }

  /**
    `set_build_version`: builds the full version by appending to a string,
    and the `cargo:rustc-env` line that publishes it.
   */
  method SetBuildVersion(env: BuildEnvironment) returns (fullVersion: string, directive: string)
    ensures fullVersion == FullVersion(Parts(env))
    ensures directive == "cargo:rustc-env=BUILD_VERSION=" + fullVersion
  {
    var gitVersion := GitVersion(env.revParse, env.status);
    var rustcVersion := RustcVersion(env.rustc);
    ghost var parts := VersionParts(env.packageVersion, gitVersion, env.buildDate, rustcVersion);
    fullVersion := env.packageVersion;
    fullVersion := fullVersion + " (";
    if gitVersion.Some? {
      fullVersion := fullVersion + (gitVersion.value + " ");
    }
    assert fullVersion == env.packageVersion + " (" + GitFragment(gitVersion);
    fullVersion := fullVersion + (env.buildDate + ")");
    if rustcVersion.Some? {
      fullVersion := fullVersion + (" " + rustcVersion.value);
    }
    assert fullVersion == FullVersion(parts);
    directive := "cargo:rustc-env=BUILD_VERSION=" + fullVersion;
  }

  /** The build script's `main`: the lines it prints for cargo, in order. */
  method RunBuildScript(env: BuildEnvironment) returns (directives: seq<string>)
    ensures directives == ["cargo:rerun-if-changed=build.rs",
                           "cargo:rustc-env=BUILD_VERSION=" + FullVersion(Parts(env))]
  {
    directives := ["cargo:rerun-if-changed=build.rs"];
    var _, directive := SetBuildVersion(env);
    directives := directives + [directive];
  }

  /**
    When the commit hash holds no `-` (git prints hexadecimal digits), the
    only `-` in the git fragment is the one that starts the `-dirty` marker,
    so the marker occurs at most once: at the end, and only for a dirty tree.
   */
  lemma DirtyMarkerAtMostOnce(revParse: CommandOutput, status: CommandOutput)
    requires CommitHash(revParse).Some? && '-' !in CommitHash(revParse).value
    ensures var r := GitVersion(revParse, status).value;
      forall k | 0 <= k < |r| && r[k] == '-' :: k == |r| - 6 && IsDirty(status)
  {
    var hash := CommitHash(revParse).value;
    var r := GitVersion(revParse, status).value;
    assert r == hash + DirtySuffix(status);
    forall k | 0 <= k < |r| && r[k] == '-'
      ensures k == |r| - 6 && IsDirty(status)
    {
      if k < |hash| {
        assert false;
      }
    }
  }

  /**
    A `git rev-parse` that succeeds but prints only ASCII whitespace is not
    rejected: the hash is empty and the fragment is just the dirty suffix.
   */
  lemma BlankHashAccepted(blank: seq<byte>, status: CommandOutput)
    requires forall k | 0 <= k < |blank| :: 0x09 <= blank[k] <= 0x0D || blank[k] == 0x20
    ensures GitVersion(Exited(true, blank), status) == Some(DirtySuffix(status))
  {
    DecodeAscii(blank);
    var text := Decode(blank).value;
    assert text[..|text|] == text;
    assert AllWhitespace(text) by {
      forall k | 0 <= k < |text| ensures IsWhitespace(text[k]) {
        assert text[k] as int == blank[k] as int;
      }
    }
    LeadingWhitespaceAt(text, |text|);
    assert Trim(text) == [];
    assert CommitHash(Exited(true, blank)) == Some([]);
    assert [] + DirtySuffix(status) == DirtySuffix(status);
  }

  /**
    Any `git rev-parse` text made only of whitespace, in the sense of
    `char::is_whitespace`, is accepted on success: the hash is empty and the
    fragment is just the dirty suffix.
   */
  lemma WhitespaceHashAccepted(text: string, status: CommandOutput)
    requires AllWhitespace(text)
    ensures GitVersion(Exited(true, Encode(text)), status) == Some(DirtySuffix(status))
  {
    GitVersionOfText(text, status);
    assert text[..|text|] == text;
    TrimAllWhitespace(text);
    assert [] + DirtySuffix(status) == DirtySuffix(status);
  }

  /**
    A `rustc` that cannot be run, or prints something that is not UTF-8,
    contributes no toolchain, so the full version ends in the `)` after the
    build date: the Rust version is not always included.
   */
  lemma MissingRustcOmitsToolchain(env: BuildEnvironment)
    requires env.rustc.SpawnError? || Decode(env.rustc.stdout).None?
    ensures Parts(env).rustc == None
    ensures var full := FullVersion(Parts(env));
      |full| >= 1 && full[|full| - 1] == ')'
  {
    FullVersionLayout(Parts(env));
  }

  /**
    A `rustc` that starts, fails and prints nothing still contributes an
    (empty) toolchain, so the full version ends in `) `.
   */
  lemma FailedRustcLeavesTrailingSpace(env: BuildEnvironment)
    requires env.rustc == Exited(false, [])
    ensures var full := FullVersion(Parts(env));
      |full| >= 2 && full[|full| - 2..] == ") "
  {
    SilentRustcFailure();
    FullVersionLayout(Parts(env));
  }

  lemma SilentRustcFailure()
    ensures RustcVersion(Exited(false, [])) == Some([])
  {
    assert Decode([]) == Some([]);
    assert Trim([]) == [];
  }

  /** A commit hash free of spaces and `)` gives a git fragment free of them too. */
  lemma GitVersionIsToken(revParse: CommandOutput, status: CommandOutput)
    requires CommitHash(revParse).Some? ==> IsToken(CommitHash(revParse).value)
    ensures GitVersion(revParse, status).Some? ==> IsToken(GitVersion(revParse, status).value)
  {
    match CommitHash(revParse)
    case None =>
    case Some(hash) =>
      DirtySuffixIsToken(status);
      AvoidsConcat(hash, DirtySuffix(status), Separators);
  }

  lemma DirtySuffixIsToken(status: CommandOutput)
    ensures IsToken(DirtySuffix(status))
  {
  }

  /**
    With a package version free of spaces, and a build date and commit hash
    free of spaces and `)`, the published string determines every part it
    was built from.
   */
  lemma BuildVersionReadsBack(env: BuildEnvironment)
    requires Avoids(env.packageVersion, {' '}) && IsToken(env.buildDate)
    requires CommitHash(env.revParse).Some? ==> IsToken(CommitHash(env.revParse).value)
    ensures Parse(FullVersion(Parts(env))) == Some(Parts(env))
  {
    GitVersionIsToken(env.revParse, env.status);
    ParseFullVersion(Parts(env));
  }
}
