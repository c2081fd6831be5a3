/** The string operations of Rust's standard library that the core calls. */
module Text {
  import opened Wrappers

  /** `char::is_alphabetic`, restricted to ASCII. */
  predicate IsAlphabetic(c: char) { 'a' <= c <= 'z' || 'A' <= c <= 'Z' }

  /** `char::is_alphanumeric`, restricted to ASCII. */
  predicate IsAlphanumeric(c: char) { IsAlphabetic(c) || '0' <= c <= '9' }

  /**
   * `s.splitn(1, sep)` read as at most two parts: the text before the first
   * `sep`, and the text after it when there is one.
   */
  function SplitFirst(s: string, sep: char): (r: (string, Option<string>))
    ensures sep !in r.0
    ensures r.1.None? ==> r.0 == s
    ensures r.1.Some? ==> s == r.0 + [sep] + r.1.value
  {
    if s == [] then ([], None)
    else if s[0] == sep then ([], Some(s[1..]))
    else
      var (head, tail) := SplitFirst(s[1..], sep);
      ([s[0]] + head, tail)
  }

  /** The two parts of SplitFirst are fixed by the first occurrence of `sep`. */
  lemma {:induction false} SplitFirstAt(s: string, sep: char, i: nat)
    requires i < |s| && s[i] == sep && sep !in s[..i]
    ensures SplitFirst(s, sep) == (s[..i], Some(s[i + 1..]))
  {
    if i > 0 {
      assert s[0] == s[..i][0];
      assert s[1..][..i - 1] == s[1..i];
      SplitFirstAt(s[1..], sep, i - 1);
      assert [s[0]] + s[1..i] == s[..i];
    }
  }

  /** `sub` occurs in `s` starting at index `i`. */
  predicate OccursAt(s: string, sub: string, i: nat) {
    i + |sub| <= |s| && s[i..i + |sub|] == sub
  }

  /** `str::contains` for a substring. */
  predicate Contains(s: string, sub: string) {
    exists i: nat | i <= |s| :: OccursAt(s, sub, i)
  }

  /** Text in which no colon is followed by a slash does not contain `://`. */
  lemma NoSchemeMarker(s: string)
    requires forall i :: 0 <= i < |s| - 1 && s[i] == ':' ==> s[i + 1] != '/'
    ensures !Contains(s, "://")
  {
    forall i: nat | i + 3 <= |s| ensures !OccursAt(s, "://", i) {
      if s[i] == ':' {
        assert s[i..i + 3][1] == s[i + 1];
      } else {
        assert s[i..i + 3][0] == s[i];
      }
    }
  }

  /** `connect(sep)`: the parts with `sep` between each neighbouring pair. */
  function Join(parts: seq<string>, sep: string): string {
    if |parts| == 0 then ""
    else if |parts| == 1 then parts[0]
    else parts[0] + sep + Join(parts[1..], sep)
  }

  function Last<T>(s: seq<T>): T
    requires |s| > 0
  {
    s[|s| - 1]
  }
}
