/**
  `str::trim`: removes the leading and trailing characters for which Rust's
  `char::is_whitespace` holds, keeping everything between them.
 */
module Whitespace {

  /** `char::is_whitespace`: the code points with the Unicode White_Space property. */
  predicate IsWhitespace(c: char) {
    var x := c as int;
    (0x09 <= x <= 0x0D) || x == 0x20 || x == 0x85 || x == 0xA0 || x == 0x1680
    || (0x2000 <= x <= 0x200A) || x == 0x2028 || x == 0x2029 || x == 0x202F
    || x == 0x205F || x == 0x3000
  }

  ghost predicate AllWhitespace(s: string) {
    forall k | 0 <= k < |s| :: IsWhitespace(s[k])
  }

  /** Neither the first nor the last character (if any) is whitespace. */
  predicate HasNoEdgeWhitespace(s: string) {
    s == [] || (!IsWhitespace(s[0]) && !IsWhitespace(s[|s| - 1]))
  }

  /**
    `t` is what remains of `s` once a whitespace prefix and a whitespace
    suffix are cut off and no further whitespace is left at either edge.
   */
  ghost predicate IsTrimmingOf(s: string, t: string) {
    exists i, j | 0 <= i <= j <= |s| ::
      t == s[i..j] && AllWhitespace(s[..i]) && AllWhitespace(s[j..]) && HasNoEdgeWhitespace(t)
  }

  /** The number of whitespace characters `s` starts with. */
  function LeadingWhitespace(s: string): (n: nat)
    ensures n <= |s|
    ensures AllWhitespace(s[..n])
    ensures n < |s| ==> !IsWhitespace(s[n])
  {
    if s != [] && IsWhitespace(s[0]) then 1 + LeadingWhitespace(s[1..]) else 0
  }

  /** The number of whitespace characters `s` ends with. */
  function TrailingWhitespace(s: string): (n: nat)
    ensures n <= |s|
    ensures AllWhitespace(s[|s| - n..])
    ensures n < |s| ==> !IsWhitespace(s[|s| - n - 1])
  {
    if s != [] && IsWhitespace(s[|s| - 1]) then 1 + TrailingWhitespace(s[..|s| - 1]) else 0
  }

  function Trim(s: string): (t: string)
    ensures HasNoEdgeWhitespace(t)
    ensures IsTrimmingOf(s, t)
  {
    var lead := LeadingWhitespace(s);
    if lead == |s| then
      assert s[|s|..] == [];
      s[|s|..]
    else
      var end := |s| - TrailingWhitespace(s);
      assert lead < end;
      s[lead..end]
  }

  /** A whitespace prefix followed by a non-whitespace character is exactly the leading whitespace. */
  lemma {:induction false} LeadingWhitespaceAt(s: string, i: nat)
    requires i <= |s| && AllWhitespace(s[..i])
    requires i < |s| ==> !IsWhitespace(s[i])
    ensures LeadingWhitespace(s) == i
  {
    if i > 0 {
      assert s[..i][0] == s[0];
      assert s[1..][..i - 1] == s[1..i] == s[..i][1..];
      LeadingWhitespaceAt(s[1..], i - 1);
    }
  }

  /** A whitespace suffix preceded by a non-whitespace character is exactly the trailing whitespace. */
  lemma {:induction false} TrailingWhitespaceAt(s: string, j: nat)
    requires j <= |s| && AllWhitespace(s[j..])
    requires 0 < j ==> !IsWhitespace(s[j - 1])
    ensures TrailingWhitespace(s) == |s| - j
  {
    if j < |s| {
      var s' := s[..|s| - 1];
      assert s[j..][|s| - 1 - j] == s[|s| - 1];
      assert s'[j..] == s[j..|s| - 1];
      TrailingWhitespaceAt(s', j);
    }
  }

  /**
    `Trim` is the only trimming of a string: whatever whitespace prefix and
    suffix are cut off, if what remains has no whitespace at either edge, it
    is what `Trim` gives.
   */
  lemma {:induction false} TrimUnique(s: string, i: nat, j: nat)
    requires i <= j <= |s| && AllWhitespace(s[..i]) && AllWhitespace(s[j..])
    requires HasNoEdgeWhitespace(s[i..j])
    ensures Trim(s) == s[i..j]
  {
    if i == j {
      AllWhitespaceJoin(s, i, j);
      TrimAllWhitespace(s);
    } else {
      assert s[i] == s[i..j][0] && s[j - 1] == s[i..j][j - 1 - i];
      TrimBetween(s, i, j);
    }
  }

  lemma TrimAllWhitespace(s: string)
    requires AllWhitespace(s[..|s|])
    ensures Trim(s) == []
  {
    LeadingWhitespaceAt(s, |s|);
  }

  /** Cutting whitespace off up to `i` and from `j` on, where the two edges left are not whitespace, is trimming. */
  lemma TrimBetween(s: string, i: nat, j: nat)
    requires i < j <= |s| && AllWhitespace(s[..i]) && AllWhitespace(s[j..])
    requires !IsWhitespace(s[i]) && !IsWhitespace(s[j - 1])
    ensures Trim(s) == s[i..j]
  {
    LeadingWhitespaceAt(s, i);
    TrailingWhitespaceAt(s, j);
  }

  /** Whitespace up to `i` and from `j` on, with nothing in between, is whitespace throughout. */
  lemma AllWhitespaceJoin(s: string, i: nat, j: nat)
    requires i == j <= |s| && AllWhitespace(s[..i]) && AllWhitespace(s[j..])
    ensures AllWhitespace(s[..|s|])
  {
    assert s[..|s|] == s;
    forall k | 0 <= k < |s| ensures IsWhitespace(s[k]) {
      if k < i { assert s[..i][k] == s[k]; } else { assert s[j..][k - j] == s[k]; }
    }
  }

  /** Trimming twice is trimming once. */
  lemma TrimIdempotent(s: string)
    ensures Trim(Trim(s)) == Trim(s)
  {
    var t := Trim(s);
    assert t[0..|t|] == t && t[..0] == [] && t[|t|..] == [];
    TrimUnique(t, 0, |t|);
  }
}
