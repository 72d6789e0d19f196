/** The Python `str` built-ins that the signature parser relies on:
    `str.isspace` (through `strip`), `str.strip()` and `str.partition(" ")`.
    Strings are sequences of Unicode scalar values, as Python 3 `str` is. */
module PyStr {

  /** Python 3's `str.isspace` on one character: the characters of the
      Unicode bidirectional classes WS, B and S and of category Zs. */
  predicate IsSpace(c: char) {
    ('\U{9}' <= c <= '\U{D}') || ('\U{1C}' <= c <= '\U{1F}') || c == ' '
    || c == '\U{85}' || c == '\U{A0}' || c == '\U{1680}'
    || ('\U{2000}' <= c <= '\U{200A}') || c == '\U{2028}' || c == '\U{2029}'
    || c == '\U{202F}' || c == '\U{205F}' || c == '\U{3000}'
  }

  /** Every character of `s` is whitespace. */
  predicate AllSpace(s: string) {
    forall i :: 0 <= i < |s| ==> IsSpace(s[i])
  }

  /** `s` with its leading whitespace removed (`str.lstrip()`). */
  function TrimStart(s: string): string {
    if s != [] && IsSpace(s[0]) then TrimStart(s[1..]) else s
  }

  /** `s` with its trailing whitespace removed (`str.rstrip()`). */
  function TrimEnd(s: string): string {
    if s != [] && IsSpace(s[|s| - 1]) then TrimEnd(s[..|s| - 1]) else s
  }

  /** `str.strip()`: `s` without its leading and trailing whitespace. */
  function Strip(s: string): string {
    TrimEnd(TrimStart(s))
  }

  /** `str.partition(" ")` without the separator: the text before the first
      space character of `s` and the text after it. */
  function Partition(s: string): (string, string) {
    if s == [] then ("", "")
    else if s[0] == ' ' then ("", s[1..])
    else
      var (head, tail) := Partition(s[1..]);
      ([s[0]] + head, tail)
  }

  /** `lstrip` keeps a suffix of `s`, cuts off only whitespace, and what it
      keeps does not start with whitespace. */
  lemma {:induction false} TrimStartSpec(s: string)
    ensures |TrimStart(s)| <= |s| && TrimStart(s) == s[|s| - |TrimStart(s)|..]
    ensures AllSpace(s[..|s| - |TrimStart(s)|])
    ensures TrimStart(s) != [] ==> !IsSpace(TrimStart(s)[0])
  {
    if s != [] && IsSpace(s[0]) {
      TrimStartSpec(s[1..]);
      var r := TrimStart(s[1..]);
      assert s[..|s| - |r|] == [s[0]] + s[1..][..|s| - 1 - |r|];
    }
  }

  /** `rstrip` keeps a prefix of `s`, cuts off only whitespace, and what it
      keeps does not end with whitespace. */
  lemma {:induction false} TrimEndSpec(s: string)
    ensures |TrimEnd(s)| <= |s| && TrimEnd(s) == s[..|TrimEnd(s)|]
    ensures AllSpace(s[|TrimEnd(s)|..])
    ensures TrimEnd(s) != [] ==> !IsSpace(TrimEnd(s)[|TrimEnd(s)| - 1])
  {
    if s != [] && IsSpace(s[|s| - 1]) {
      TrimEndSpec(s[..|s| - 1]);
      var r := TrimEnd(s[..|s| - 1]);
      assert s[|r|..] == s[..|s| - 1][|r|..] + [s[|s| - 1]];
    }
  }

  /** What `strip` keeps is one slice `s[a..a + |Strip(s)|]` of `s` that
      neither starts nor ends with whitespace, and everything it cuts off
      on either side is whitespace. */
  lemma StripSpec(s: string) returns (a: nat)
    ensures a + |Strip(s)| <= |s| && Strip(s) == s[a..a + |Strip(s)|]
    ensures AllSpace(s[..a]) && AllSpace(s[a + |Strip(s)|..])
    ensures Strip(s) != [] ==> !IsSpace(Strip(s)[0]) && !IsSpace(Strip(s)[|Strip(s)| - 1])
  {
    var t := TrimStart(s);
    TrimStartSpec(s);
    TrimEndSpec(t);
    var r := TrimEnd(t);
    a := |s| - |t|;
    assert t == s[a..];
    assert s[a + |r|..] == t[|r|..];
  }

  /** `partition(" ")` splits at the first space: the head holds no space,
      and head, space and tail put back together give `s`; without a space
      in `s`, the head is all of `s` and the tail is empty. */
  lemma {:induction false} PartitionSpec(s: string)
    ensures ' ' !in Partition(s).0
    ensures ' ' in s ==> s == Partition(s).0 + [' '] + Partition(s).1
    ensures ' ' !in s ==> Partition(s) == (s, "")
  {
    if s != [] && s[0] != ' ' {
      PartitionSpec(s[1..]);
      assert s == [s[0]] + s[1..];
    }
  }
}
