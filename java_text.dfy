/**
 * The JDK and Spring string operations the service relies on:
 * `String.trim`, `StringUtils.hasLength` and (ASCII) `toLowerCase`.
 */
module JavaText {
  import opened JavaTypes

  /** `String.trim` removes every character at or below U+0020. */
  predicate IsTrimmable(c: char) { c <= ' ' }

  /** Drops the leading characters `String.trim` removes. */
  function TrimStart(s: string): (r: string)
    ensures |r| <= |s| && r == s[|s| - |r|..]
    ensures r == [] || !IsTrimmable(r[0])
    ensures forall k :: 0 <= k < |s| - |r| ==> IsTrimmable(s[k])
  {
    if s != [] && IsTrimmable(s[0]) then TrimStart(s[1..]) else s
  }

  /** Drops the trailing characters `String.trim` removes. */
  function TrimEnd(s: string): (r: string)
    ensures |r| <= |s| && r == s[..|r|]
    ensures r == [] || !IsTrimmable(r[|r| - 1])
    ensures forall k :: |r| <= k < |s| ==> IsTrimmable(s[k])
  {
    if s != [] && IsTrimmable(s[|s| - 1]) then TrimEnd(s[..|s| - 1]) else s
  }

  /** Java's `String.trim`. */
  function Trim(s: string): (r: string)
    ensures |r| <= |s|
    ensures r == [] || (!IsTrimmable(r[0]) && !IsTrimmable(r[|r| - 1]))
  {
    TrimEnd(TrimStart(s))
  }

  /** Number of characters `Trim` removes from the front. */
  function LeadingCut(s: string): (n: nat)
    ensures n + |Trim(s)| <= |s|
  {
    |s| - |TrimStart(s)|
  }

  /** `Trim(s)` is the infix of `s` left after cutting only trimmable characters at both ends. */
  lemma TrimIsInfix(s: string)
    ensures LeadingCut(s) + |Trim(s)| <= |s|
    ensures Trim(s) == s[LeadingCut(s)..LeadingCut(s) + |Trim(s)|]
    ensures forall k :: 0 <= k < LeadingCut(s) ==> IsTrimmable(s[k])
    ensures forall k :: LeadingCut(s) + |Trim(s)| <= k < |s| ==> IsTrimmable(s[k])
  {
    var t := TrimStart(s);
    var i := |s| - |t|;
    var r := TrimEnd(t);
    assert Trim(s) == r && LeadingCut(s) == i;
    assert r == s[i..i + |r|] by {
      assert t == s[i..];
      assert r == t[..|r|];
    }
    forall k | i + |r| <= k < |s| ensures IsTrimmable(s[k]) {
      assert s[k] == t[k - i];
    }
  }

  /** Trimming an already trimmed string changes nothing. */
  lemma TrimIdempotent(s: string)
    ensures Trim(Trim(s)) == Trim(s)
  {
    var r := Trim(s);
    assert TrimStart(r) == r;
    assert TrimEnd(r) == r;
  }

  /** `Trim(s)` is empty exactly when every character of `s` is trimmable. */
  lemma TrimEmptyIffAllTrimmable(s: string)
    ensures Trim(s) == [] <==> forall k :: 0 <= k < |s| ==> IsTrimmable(s[k])
  {
    TrimIsInfix(s);
    if Trim(s) != [] {
      var i := LeadingCut(s);
      assert s[i] == Trim(s)[0];
    }
  }

  /** Spring's `StringUtils.hasLength`: not null and not empty (blank strings have length). */
  predicate HasLength(s: Option<string>) {
    s.Some? && |s.value| > 0
  }

  /** Lower-cases an ASCII capital and leaves every other character alone. */
  function LowerChar(c: char): (d: char)
    ensures 'A' <= c <= 'Z' ==> d as int == c as int + 32
    ensures !('A' <= c <= 'Z') ==> d == c
  {
    if 'A' <= c <= 'Z' then (c as int + 32) as char else c
  }

  /** `toLowerCase` restricted to ASCII. */
  function Lower(s: string): (r: string)
    ensures |r| == |s|
    ensures forall k :: 0 <= k < |s| ==> r[k] == LowerChar(s[k])
  {
    seq(|s|, k requires 0 <= k < |s| => LowerChar(s[k]))
  }

  /** `s` holds `w` as a contiguous piece (Java's `String.contains`). */
  predicate Contains(s: string, w: string) {
    exists i :: 0 <= i <= |s| && OccursAt(s, w, i)
  }

  /** `w` occurs in `s` starting at index `i`. */
  predicate OccursAt(s: string, w: string, i: int) {
    0 <= i <= |s| - |w| && s[i..i + |w|] == w
  }

  /** `w` is a prefix of `s` (Java's `String.startsWith`). */
  predicate StartsWith(s: string, w: string) {
    |w| <= |s| && s[..|w|] == w
  }
}
