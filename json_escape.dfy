/**
 * `escapeJSONString` of main_e2e_test.go: a loop over the characters of a
 * string that puts a backslash before every `"` and every `\` and copies
 * every other character, control characters included.
 */
module JsonEscape {
  import opened Wrappers

  /** What one input character becomes. */
  function EscapeChar(c: char): string
  {
    if c == '"' then "\\\"" else if c == '\\' then "\\\\" else [c]
  }

  /** The escaped string, character by character. */
  function Escaped(s: string): string
    decreases |s|
  {
    if s == [] then [] else EscapeChar(s[0]) + Escaped(s[1..])
  }

  /** The two characters that gain a backslash. */
  predicate Special(c: char)
  {
    c == '"' || c == '\\'
  }

  /** How many characters of `s` are escaped. */
  function SpecialCount(s: string): nat
  {
    multiset(s)['"'] + multiset(s)['\\']
  }

  /** The loop of `escapeJSONString`, appending to the accumulator. */
  method EscapeJsonString(s: string) returns (escaped: string)
    ensures escaped == Escaped(s)
  {
    escaped := "";
    var i := 0;
    while i < |s|
      invariant 0 <= i <= |s|
      invariant escaped == Escaped(s[..i])
    {
      var c := s[i];
      if c == '"' {
        escaped := escaped + "\\\"";
      } else if c == '\\' {
        escaped := escaped + "\\\\";
      } else {
        escaped := escaped + [c];
      }
      EscapedAppend(s[..i], c);
      assert s[..i + 1] == s[..i] + [c];
      i := i + 1;
    }
    assert s[..i] == s;
  }

  /** Escaping distributes over concatenation. */
  lemma {:induction false} EscapedConcat(a: string, b: string)
    ensures Escaped(a + b) == Escaped(a) + Escaped(b)
    decreases |a|
  {
    if a == [] {
      assert a + b == b;
    } else {
      assert (a + b)[0] == a[0];
      assert (a + b)[1..] == a[1..] + b;
      EscapedConcat(a[1..], b);
    }
  }

  /** Appending one character appends its escape. */
  lemma EscapedAppend(s: string, c: char)
    ensures Escaped(s + [c]) == Escaped(s) + EscapeChar(c)
  {
    EscapedConcat(s, [c]);
    assert Escaped([c]) == EscapeChar(c) + Escaped([]);
  }

  /** Each `"` and each `\` adds one character; nothing else changes the length. */
  lemma {:induction false} EscapedLength(s: string)
    ensures |Escaped(s)| == |s| + SpecialCount(s)
    decreases |s|
  {
    if s != [] {
      assert s == [s[0]] + s[1..];
      assert multiset(s) == multiset([s[0]]) + multiset(s[1..]);
      EscapedLength(s[1..]);
    }
  }

  /** A string with neither `"` nor `\` comes back unchanged. */
  lemma {:induction false} EscapedIdentity(s: string)
    requires forall i :: 0 <= i < |s| ==> !Special(s[i])
    ensures Escaped(s) == s
    decreases |s|
  {
    if s != [] {
      EscapedIdentity(s[1..]);
    }
  }

  /** The output as a sequence of pieces: position `i` of the input becomes `EscapeChar(s[i])`. */
  lemma {:induction false} EscapedPieces(s: string, i: nat)
    requires i < |s|
    ensures Escaped(s) == Escaped(s[..i]) + EscapeChar(s[i]) + Escaped(s[i + 1..])
    decreases i
  {
    assert s == s[..i] + ([s[i]] + s[i + 1..]);
    EscapedConcat(s[..i], [s[i]] + s[i + 1..]);
    assert Escaped([s[i]] + s[i + 1..]) == EscapeChar(s[i]) + Escaped(s[i + 1..]);
  }

  /**
   * Character `i` of the input is written, escaped, at offset
   * `i + SpecialCount(s[..i])` of the output: `"` as `\"`, `\` as `\\`,
   * anything else as itself.
   */
  lemma EscapedAt(s: string, i: nat)
    requires i < |s|
    ensures var off := i + SpecialCount(s[..i]);
            off + |EscapeChar(s[i])| <= |Escaped(s)| &&
            Escaped(s)[off..off + |EscapeChar(s[i])|] == EscapeChar(s[i])
  {
    EscapedPieces(s, i);
    EscapedLength(s[..i]);
  }

  // ---------------------------------------------------------------------
  // The inverse: reading the escaped form back
  // ---------------------------------------------------------------------

  function Prepend(c: char, r: Option<string>): Option<string>
  {
    if r.Some? then Some([c] + r.value) else None
  }

  /**
   * Reads a string in the escaped form: `\"` and `\\` stand for `"` and
   * `\`; a bare `"`, a bare trailing `\` or any other escape is rejected.
   */
  function Unescaped(t: string): Option<string>
    decreases |t|
  {
    if t == [] then Some([])
    else if t[0] == '\\' then
      if |t| >= 2 && Special(t[1]) then Prepend(t[1], Unescaped(t[2..])) else None
    else if t[0] == '"' then None
    else Prepend(t[0], Unescaped(t[1..]))
  }

  /** Escaping loses nothing: reading the output back gives the input. */
  lemma {:induction false} UnescapeEscaped(s: string)
    ensures Unescaped(Escaped(s)) == Some(s)
    decreases |s|
  {
    if s != [] {
      var t := Escaped(s);
      assert t == EscapeChar(s[0]) + Escaped(s[1..]);
      UnescapeEscaped(s[1..]);
      if Special(s[0]) {
        assert t[2..] == Escaped(s[1..]);
      } else {
        assert t[1..] == Escaped(s[1..]);
      }
      assert s == [s[0]] + s[1..];
    }
  }

  /** Every string that reads back is the escape of what it reads back to. */
  lemma {:induction false} EscapedUnescaped(t: string, s: string)
    requires Unescaped(t) == Some(s)
    ensures Escaped(s) == t
    decreases |t|
  {
    if t != [] {
      if t[0] == '\\' {
        EscapedUnescaped(t[2..], s[1..]);
        assert t == [t[0], t[1]] + t[2..];
      } else {
        EscapedUnescaped(t[1..], s[1..]);
        assert t == [t[0]] + t[1..];
      }
    }
  }
}
