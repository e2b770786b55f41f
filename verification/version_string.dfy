/**
  The layout of `BUILD_VERSION`:

    <package version> " (" [<git fragment> " "] <build date> ")" [" " <toolchain>]

  and a parser that reads the four parts back, proved to be its inverse on
  every string whose version has no space and whose git fragment and build
  date contain neither a space nor a closing parenthesis (a semantic version,
  a commit hash and a `%Y-%m-%dT%H:%M:%SZ` date all qualify).
 */
module VersionString {
  import opened Wrappers

  datatype VersionParts = VersionParts(
    version: string,
    git: Option<string>,
    buildDate: string,
    rustc: Option<string>)

  /** The git fragment with the space that separates it from the date, or nothing. */
  function GitFragment(git: Option<string>): string {
    if git.Some? then git.value + " " else ""
  }

  /** The toolchain with the space that separates it from `)`, or nothing. */
  function ToolchainSuffix(rustc: Option<string>): string {
    if rustc.Some? then " " + rustc.value else ""
  }

  function FullVersion(p: VersionParts): string {
    p.version + " (" + GitFragment(p.git) + (p.buildDate + ")") + ToolchainSuffix(p.rustc)
  }

  /**
    The full version opens with the package version and ` (`, closes with `)`
    and the optional toolchain, and holds the optional git fragment and the
    build date in between.
   */
  lemma FullVersionLayout(p: VersionParts)
    ensures var full := FullVersion(p);
      var opening, middle, closing := p.version + " (", GitFragment(p.git) + p.buildDate, ")" + ToolchainSuffix(p.rustc);
      |full| == |opening| + |middle| + |closing|
      && full[..|opening|] == opening
      && full[|opening|..|opening| + |middle|] == middle
      && full[|opening| + |middle|..] == closing
  {
    var opening, middle, closing := p.version + " (", GitFragment(p.git) + p.buildDate, ")" + ToolchainSuffix(p.rustc);
    assert FullVersion(p) == opening + middle + closing;
    SliceThree(opening, middle, closing);
  }

  lemma SliceThree(a: string, b: string, c: string)
    ensures var s := a + b + c;
      s[..|a|] == a && s[|a|..|a| + |b|] == b && s[|a| + |b|..] == c
  {
  }

  predicate Avoids(s: string, stops: set<char>) {
    forall k | 0 <= k < |s| :: s[k] !in stops
  }

  /** A git fragment or build date that cannot be confused with the separators around it. */
  predicate IsToken(s: string) {
    Avoids(s, Separators)
  }

  /** The parts can be told apart in the string they are joined into. */
  predicate Separable(p: VersionParts) {
    Avoids(p.version, {' '}) && (p.git.Some? ==> IsToken(p.git.value)) && IsToken(p.buildDate)
  }

  lemma AvoidsConcat(a: string, b: string, stops: set<char>)
    requires Avoids(a, stops) && Avoids(b, stops)
    ensures Avoids(a + b, stops)
  {
    forall k | 0 <= k < |a + b| ensures (a + b)[k] !in stops {
      if k >= |a| { assert (a + b)[k] == b[k - |a|]; }
    }
  }

  /** The index of the first character of `s` in `stops`, or `|s|` if there is none. */
  function IndexOfAny(s: string, stops: set<char>): (i: nat)
    ensures i <= |s| && Avoids(s[..i], stops)
    ensures i < |s| ==> s[i] in stops
  {
    if s == [] || s[0] in stops then 0 else 1 + IndexOfAny(s[1..], stops)
  }

  /** The characters that end a git fragment or a build date. */
  const Separators: set<char> := {' ', ')'}

  /** What lies between `(` and `)`, and what follows `)`. */
  datatype Bracket = Bracket(git: Option<string>, buildDate: string, tail: string)

  /** Reads `<date> ")"` off the front of `s`, giving the date and what follows. */
  function ParseDate(s: string): Option<(string, string)> {
    var k := IndexOfAny(s, Separators);
    if k == |s| || s[k] != ')' then None else Some((s[..k], s[k + 1..]))
  }

  /** Reads `[<git> " "] <date> ")"` off the front of `body`. */
  function ParseBracket(body: string): Option<Bracket> {
    var j := IndexOfAny(body, Separators);
    var git := if j < |body| && body[j] == ' ' then Some(body[..j]) else None;
    match ParseDate(if git.Some? then body[j + 1..] else body)
    case None => None
    case Some((date, tail)) => Some(Bracket(git, date, tail))
  }

  /** Reads what follows the closing parenthesis: nothing, or a space and the toolchain. */
  function ParseToolchain(tail: string): Option<Option<string>> {
    if tail == [] then Some(None)
    else if tail[0] == ' ' then Some(Some(tail[1..]))
    else None
  }

  function Parse(s: string): Option<VersionParts> {
    var i := IndexOfAny(s, {' '});
    if |s| < i + 2 || s[i + 1] != '(' then None
    else
      match ParseBracket(s[i + 2..])
      case None => None
      case Some(b) =>
        match ParseToolchain(b.tail)
        case None => None
        case Some(rustc) => Some(VersionParts(s[..i], b.git, b.buildDate, rustc))
  }

  /** The first stop character after a stop-free prefix is found right after that prefix. */
  lemma {:induction false} IndexOfAnyAfter(a: string, b: string, stops: set<char>)
    requires Avoids(a, stops)
    requires b != [] && b[0] in stops
    ensures IndexOfAny(a + b, stops) == |a|
  {
    if a != [] {
      assert (a + b)[1..] == a[1..] + b;
      IndexOfAnyAfter(a[1..], b, stops);
    }
  }

  lemma ParseToolchainSuffix(rustc: Option<string>)
    ensures ParseToolchain(ToolchainSuffix(rustc)) == Some(rustc)
  {
  }

  lemma ParseToolchainSplit(tail: string, rustc: Option<string>)
    requires ParseToolchain(tail) == Some(rustc)
    ensures tail == ToolchainSuffix(rustc)
  {
    if tail != [] {
      assert tail == [' '] + tail[1..];
    }
  }

  /** Splitting `a + [c] + b` at its first stop character `c` gives back `a` and `b`. */
  lemma SplitAtStop(a: string, c: char, b: string, stops: set<char>)
    requires Avoids(a, stops) && c in stops
    ensures var s := a + [c] + b;
      IndexOfAny(s, stops) == |a| && s[..|a|] == a && s[|a|] == c && s[|a| + 1..] == b
  {
    assert a + [c] + b == a + ([c] + b);
    IndexOfAnyAfter(a, [c] + b, stops);
  }

  /** A string is what lies before index `i`, the character at `i`, and what follows. */
  lemma JoinAt(s: string, i: nat)
    requires i < |s|
    ensures s == s[..i] + [s[i]] + s[i + 1..]
  {
  }

  lemma ParseDateJoin(date: string, tail: string)
    requires IsToken(date)
    ensures ParseDate(date + ")" + tail) == Some((date, tail))
  {
    SplitAtStop(date, ')', tail, Separators);
  }

  lemma ParseDateSplit(s: string, date: string, tail: string)
    requires ParseDate(s) == Some((date, tail))
    ensures IsToken(date) && s == date + ")" + tail
  {
    JoinAt(s, IndexOfAny(s, Separators));
  }

  lemma ParseBracketJoin(git: Option<string>, date: string, tail: string)
    requires git.Some? ==> IsToken(git.value)
    requires IsToken(date)
    ensures ParseBracket(GitFragment(git) + (date + ")") + tail) == Some(Bracket(git, date, tail))
  {
    if git.Some? {
      ParseBracketJoinWithGit(git.value, date, tail);
    } else {
      assert GitFragment(git) + (date + ")") + tail == date + ")" + tail;
      SplitAtStop(date, ')', tail, Separators);
      ParseDateJoin(date, tail);
    }
  }

  lemma ParseBracketJoinWithGit(g: string, date: string, tail: string)
    requires IsToken(g) && IsToken(date)
    ensures ParseBracket(g + " " + (date + ")") + tail) == Some(Bracket(Some(g), date, tail))
  {
    var rest := date + ")" + tail;
    assert g + " " + (date + ")") + tail == g + [' '] + rest;
    SplitAtStop(g, ' ', rest, Separators);
    ParseDateJoin(date, tail);
  }

  lemma ParseBracketSplit(body: string, b: Bracket)
    requires ParseBracket(body) == Some(b)
    ensures b.git.Some? ==> IsToken(b.git.value)
    ensures IsToken(b.buildDate)
    ensures body == GitFragment(b.git) + (b.buildDate + ")") + b.tail
  {
    var j := IndexOfAny(body, Separators);
    if b.git.Some? {
      var rest := body[j + 1..];
      ParseDateSplit(rest, b.buildDate, b.tail);
      JoinAt(body, j);
      RegroupFragment(body[..j], b.buildDate, b.tail);
    } else {
      ParseDateSplit(body, b.buildDate, b.tail);
    }
  }

  lemma RegroupFragment(g: string, date: string, tail: string)
    ensures g + [' '] + (date + ")" + tail) == g + " " + (date + ")") + tail
  {
  }

  /** Joining separable parts and parsing the result gives the parts back. */
  lemma ParseFullVersion(p: VersionParts)
    requires Separable(p)
    ensures Parse(FullVersion(p)) == Some(p)
  {
    var tail := ToolchainSuffix(p.rustc);
    var body := GitFragment(p.git) + (p.buildDate + ")") + tail;
    RegroupAfterOpening(p.version, GitFragment(p.git), p.buildDate, tail);
    IndexOfAnyAfter(p.version, " (" + body, {' '});
    assert FullVersion(p)[|p.version| + 2..] == body;
    ParseBracketJoin(p.git, p.buildDate, tail);
    ParseToolchainSuffix(p.rustc);
  }

  lemma RegroupAfterOpening(version: string, fragment: string, date: string, toolchain: string)
    ensures version + " (" + fragment + (date + ")") + toolchain
         == version + " (" + (fragment + (date + ")") + toolchain)
         == version + (" (" + (fragment + (date + ")") + toolchain))
  {
  }

  /** A string is its prefix, the opening ` (` and what follows the opening. */
  lemma JoinOpening(s: string, i: nat, version: string, inner: string)
    requires i + 2 <= |s| && s[i] == ' ' && s[i + 1] == '('
    requires version == s[..i] && inner == s[i + 2..]
    ensures version + " (" + inner == s
  {
    assert s[i..] == " (" + inner;
  }

  /** Whatever parses is separable and joins back into the very string it was read from. */
  lemma FullVersionParse(s: string, p: VersionParts)
    requires Parse(s) == Some(p)
    ensures Separable(p)
    ensures FullVersion(p) == s
  {
    var i := IndexOfAny(s, {' '});
    var body := s[i + 2..];
    var b := ParseBracket(body).value;
    ParseBracketSplit(body, b);
    ParseToolchainSplit(b.tail, p.rustc);
    var inner := GitFragment(p.git) + (p.buildDate + ")") + ToolchainSuffix(p.rustc);
    assert body == inner;
    JoinOpening(s, i, p.version, inner);
    RegroupAfterOpening(p.version, GitFragment(p.git), p.buildDate, ToolchainSuffix(p.rustc));
  }
}
