# build-rs-example: the `BUILD_VERSION` build script in Dafny

The repository's build script, `build.rs`, runs at compile time. It puts together one
human-readable version string and hands it to cargo as the environment variable
`BUILD_VERSION`:

    <package version> " (" [<git fragment> " "] <build date> ")" [" " <rustc version>]

- The git fragment is the output of `git rev-parse --short=10 HEAD`, trimmed. It gets
  `-dirty` appended when `git status --porcelain` printed anything. There is no fragment
  when rev-parse could not start, failed, or printed something that is not UTF-8.
- The rustc version is the trimmed output of `rustc --version`. It is left out only when
  rustc could not start or its output is not UTF-8. Its exit status is never looked at.

The model has four modules:

- `Utf8` (`utf8.dfy`) models `String::from_utf8` as a decoder. It accepts well-formed UTF-8
  and nothing else, in the sense of Table 3-7 of the Unicode Standard. It comes with an
  encoder and is proved to be that encoder's inverse in both directions.
- `Whitespace` (`whitespace.dfy`) models `str::trim` as it treats characters for which
  `char::is_whitespace` holds (the Unicode White_Space property). It proves that the
  result is a trimming of the input, that it is the only one, and that trimming is
  idempotent.
- `VersionString` (`version_string.dfy`) gives the layout of the full version as a
  function. It also has a parser, proved to be the layout's inverse whenever the version,
  the git fragment and the date contain no separator characters.
- `BuildScript` (`build_script.dfy`) models `get_git_version` and `get_rustc_version` as
  functions over the commands' outcomes. It models `set_build_version` as a method that
  appends to a string step by step, as the script's `push_str` calls do, and proves the
  result equal to the layout. The script's `main` becomes a method returning the `cargo:`
  lines it prints.

Each command's outcome is an input (`CommandOutput`): either the program could not be
run (`Command::output()` returned `Err`: it did not start, or waiting for it or reading
its output failed), or it exited, with a success flag and the bytes on standard output.
The package version and the build date are inputs too.

`build.rs` has only the commit-hash form of the git fragment, and it omits a toolchain it
cannot get.

Two consequences of the code as written concern the toolchain:

- The doc comment at the head of `build.rs` says the Rust version is always included.
  The code leaves it out when `rustc` cannot be run or prints something that is not
  UTF-8, and `BUILD_VERSION` then ends in the `)` after the date. This is proved as
  `MissingRustcOmitsToolchain`. The model follows the code.
- Suppose `rustc` starts, fails, and prints nothing. Its empty output still counts as a
  toolchain, so `BUILD_VERSION` ends in `) `. This is proved as
  `FailedRustcLeavesTrailingSpace`. The git lookup, by contrast, filters on the exit
  status.

## Model

| member | source | states |
|---|---|---|
| `Utf8.Decode` | build.rs:32-33 | `String::from_utf8(..).ok()`: yields a string only for well-formed UTF-8, and any string it yields encodes back to exactly the input bytes |
| `Utf8.DecodeEncode` | build.rs:32-33 | every string's UTF-8 encoding decodes back to that string, so no valid output is rejected |
| `Utf8.DecodeSucceedsExactlyOnEncodings` | build.rs:55 | decoding succeeds if and only if the bytes are the UTF-8 encoding of some string |
| `Utf8.DecodeAscii` | build.rs:32-33 | ASCII output decodes one byte to one character with the same code |
| `Whitespace.Trim` | build.rs:34 | `s.trim()`: the result has no whitespace (`IsWhitespace`, the characters `char::is_whitespace` accepts) at either edge, and it is `s` with a whitespace prefix and a whitespace suffix removed |
| `Whitespace.TrimUnique` | build.rs:34 | any way of cutting whitespace off both ends that leaves no edge whitespace gives exactly `Trim(s)` |
| `Whitespace.TrimIdempotent` | build.rs:56 | trimming an already trimmed string changes nothing |
| `BuildScript.GitVersion` | build.rs:25-47 | `None` exactly when rev-parse could not start, exited unsuccessfully, or printed non-UTF-8. Otherwise the result is the trimmed stdout (`CommitHash`), plus `-dirty` exactly when `git status` ran and printed something (`IsDirty`). A status that could not start counts as clean, and the status exit code is ignored |
| `BuildScript.GitVersionOfText` | build.rs:26-46 | for any text rev-parse prints: on success the fragment is that text trimmed plus the dirty suffix, on failure there is none |
| `BuildScript.DirtyMarkerAtMostOnce` | build.rs:45-46 | for a hash without `-`, the only `-` in the fragment starts the suffix, so `-dirty` appears at most once: at the end, and only for a dirty tree |
| `BuildScript.BlankHashAccepted` | build.rs:30-34 | a successful rev-parse whose bytes are all ASCII whitespace is not rejected: the hash is the empty string |
| `BuildScript.WhitespaceHashAccepted` | build.rs:30-34 | a successful rev-parse that prints any text made only of whitespace, ASCII or not (U+00A0, U+3000, ...), is not rejected: the hash is the empty string |
| `BuildScript.RustcVersion` | build.rs:50-57 | `Some` exactly when rustc started and printed UTF-8, whatever its exit status; the value is the trimmed stdout |
| `BuildScript.RustcVersionOfText` | build.rs:50-57 | for any text rustc prints, with either exit status, the toolchain is that text trimmed |
| `BuildScript.MissingRustcOmitsToolchain` | build.rs:50-57 | contrary to the "always included" of the doc comment at build.rs:13, a rustc that cannot be run or prints non-UTF-8 gives no toolchain, and the full version ends in `)` |
| `BuildScript.FailedRustcLeavesTrailingSpace` | build.rs:50-57 | a rustc that starts, fails and prints nothing still adds a toolchain, so the full version ends in `) ` |
| `BuildScript.SetBuildVersion` | build.rs:60-80 | the string built by successive appends equals the layout `FullVersion` of the package version, git fragment, build date and rustc version, and the published line is `cargo:rustc-env=BUILD_VERSION=` followed by it |
| `BuildScript.RunBuildScript` | build.rs:18-21 | the script prints `cargo:rerun-if-changed=build.rs` and then the `BUILD_VERSION` line, in that order |
| `BuildScript.BuildVersionReadsBack` | build.rs:60-80 | for a package version with no space, and a date and hash with no space or `)`, the published string parses back to exactly the version, git fragment (with its dirty marker), date and rustc version it was built from |
| `VersionString.FullVersionLayout` | build.rs:66-78 | the full version (`FullVersion`) is the package version and ` (`, then the optional `<git> ` and the date, then `)` and the optional ` <rustc>`, with nothing after that |
| `VersionString.ParseFullVersion` | build.rs:66-78 | the layout is injective on separable parts: parsing the joined string returns the parts |
| `VersionString.FullVersionParse` | build.rs:66-78 | whatever parses has separable parts that join back into the very string parsed |

## Left out

- Starting processes (`Command::new(..).output()`) is left out. Each command's outcome is an input. Standard error is never read by the script, so it is not modelled.
- `git status` runs even when rev-parse failed. That is only a side effect, so it has no counterpart in the model.
- The clock and its formatting (`Utc::now().format("%Y-%m-%dT%H:%M:%SZ")`) are left out. The build date is an opaque input string, and its format is not checked.
- `env!("CARGO_PKG_VERSION")` is an input string.
- The `cargo:` lines are modelled as the strings the script prints. What cargo does with them is not modelled.
- `--short=10` is an argument to git. The model puts no constraint on the length or alphabet of the hash git prints. `DirtyMarkerAtMostOnce` and `BuildVersionReadsBack` state their assumptions about the hash explicitly.
- `src/main.rs` is not part of this model. It prints the executable's file name and `BUILD_VERSION`, and panics when the file name is unavailable.
