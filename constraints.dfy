/**
 * The two Bean Validation constraints shared by Student and Address:
 * @NotBlank, which trims the string as java.lang.String.trim does and asks that
 * something remain, and @Size, which bounds the string's length.
 */
module Constraints {

  /** A character that String.trim removes: every code point up to and including ' '. */
  predicate IsTrimmable(c: char) {
    c <= ' '
  }

  /** A character that survives trimming. */
  predicate HasVisibleChar(s: string) {
    exists i :: 0 <= i < |s| && !IsTrimmable(s[i])
  }

  /** Drops the leading trimmable characters; the result is a suffix of s. */
  function TrimStart(s: string): (r: string)
    ensures |r| <= |s| && r == s[|s| - |r|..]
    ensures r != [] ==> !IsTrimmable(r[0])
    ensures forall i :: 0 <= i < |s| - |r| ==> IsTrimmable(s[i])
  {
    if s != [] && IsTrimmable(s[0]) then TrimStart(s[1..]) else s
  }

  /** Drops the trailing trimmable characters; the result is a prefix of s. */
  function TrimEnd(s: string): (r: string)
    ensures |r| <= |s| && r == s[..|r|]
    ensures r != [] ==> !IsTrimmable(r[|r| - 1])
    ensures forall i :: |r| <= i < |s| ==> IsTrimmable(s[i])
  {
    if s != [] && IsTrimmable(s[|s| - 1]) then TrimEnd(s[..|s| - 1]) else s
  }

  /** java.lang.String.trim. */
  function Trim(s: string): string {
    TrimEnd(TrimStart(s))
  }

  /** @NotBlank: the trimmed string is not empty (a null string is never modelled). */
  predicate NotBlank(s: string) {
    |Trim(s)| > 0
  }

  /** @Size(min, max) on a string. */
  predicate SizeBetween(s: string, min: nat, max: nat) {
    min <= |s| <= max
  }

  /** A string is not blank exactly when one of its characters is above ' '. */
  lemma {:induction false} NotBlankIff(s: string)
    ensures NotBlank(s) <==> HasVisibleChar(s)
  {
    var t := TrimStart(s);
    var r := TrimEnd(t);
    if NotBlank(s) {
      var k := |s| - |t|;
      assert r[|r| - 1] == t[|r| - 1] == s[k + |r| - 1];
      assert !IsTrimmable(s[k + |r| - 1]);
    }
    if HasVisibleChar(s) {
      var i :| 0 <= i < |s| && !IsTrimmable(s[i]);
      assert t != [];
      assert !IsTrimmable(t[0]);
    }
  }
}
