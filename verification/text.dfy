/** String primitives the validators and queries rely on: Java's String.trim,
    blankness, ASCII lower-casing and substring search. */
module Text {
  import opened Common

  /** String.trim strips every leading and trailing character whose code is
      at most U+0020 (space and all control characters). */
  predicate IsTrimmable(c: char) {
    c <= ' '
  }

  /** A character that survives trimming. */
  predicate HasVisibleChar(s: string) {
    exists i | 0 <= i < |s| :: !IsTrimmable(s[i])
  }

  /** Drops trimmable characters from the front. */
  function TrimStart(s: string): (r: string)
    ensures |r| <= |s| && r == s[|s| - |r|..]
    ensures |r| > 0 ==> !IsTrimmable(r[0])
    ensures forall i | 0 <= i < |s| - |r| :: IsTrimmable(s[i])
  {
    if |s| > 0 && IsTrimmable(s[0]) then TrimStart(s[1..]) else s
  }

  /** Drops trimmable characters from the back. */
  function TrimEnd(s: string): (r: string)
    ensures |r| <= |s| && r == s[..|r|]
    ensures |r| > 0 ==> !IsTrimmable(r[|r| - 1])
    ensures forall i | |r| <= i < |s| :: IsTrimmable(s[i])
  {
    if |s| > 0 && IsTrimmable(s[|s| - 1]) then TrimEnd(s[..|s| - 1]) else s
  }

  /** Java's String.trim. */
  function Trim(s: string): string {
    TrimEnd(TrimStart(s))
  }

  /** Trimming leaves something exactly when some character is not trimmable. */
  lemma TrimEmptyIff(s: string)
    ensures |Trim(s)| > 0 <==> HasVisibleChar(s)
  {
    var t := TrimStart(s);
    if |Trim(s)| > 0 {
      var k := |s| - |t|;
      assert s[k] == t[0];
      assert !IsTrimmable(s[k]);
    }
  }

  /** Hibernate's @NotBlank: not null, and non-empty after String.trim. */
  predicate NotBlank(s: Option<string>) {
    s.Some? && |Trim(s.value)| > 0
  }

  /** The UTF-16 code units one character takes: two for a character above U+FFFF
      (a surrogate pair), one otherwise. */
  function Utf16Units(c: char): nat {
    if c as int > 0xFFFF then 2 else 1
  }

  /** Java's String.length(): the length in UTF-16 code units, between the number
      of characters and twice that. */
  function Utf16Length(s: string): (n: nat)
    ensures |s| <= n <= 2 * |s|
  {
    if |s| == 0 then 0 else Utf16Units(s[0]) + Utf16Length(s[1..])
  }

  /** Lengths add up over concatenation. */
  lemma {:induction false} Utf16LengthAppend(a: string, b: string)
    ensures Utf16Length(a + b) == Utf16Length(a) + Utf16Length(b)
    decreases |a|
  {
    if |a| == 0 {
      assert a + b == b;
    } else {
      assert (a + b)[0] == a[0] && (a + b)[1..] == a[1..] + b;
      Utf16LengthAppend(a[1..], b);
    }
  }

  /** On text without characters above U+FFFF, Java's length is the number of characters. */
  lemma {:induction false} Utf16LengthBmp(s: string)
    requires forall i | 0 <= i < |s| :: s[i] as int <= 0xFFFF
    ensures Utf16Length(s) == |s|
    decreases |s|
  {
    if |s| > 0 {
      Utf16LengthBmp(s[1..]);
    }
  }

  /** Bean validation's @Size: a null value passes, otherwise the length, counted as
      `String.length()` counts it, is in range. */
  predicate SizeWithin(s: Option<string>, lo: nat, hi: nat) {
    s.None? || lo <= Utf16Length(s.value) <= hi
  }

  /** ASCII lower-casing of one character. */
  function LowerChar(c: char): (r: char)
    ensures !('A' <= r <= 'Z')
    ensures !('A' <= c <= 'Z') ==> r == c
  {
    if 'A' <= c <= 'Z' then (c as int + 32) as char else c
  }

  function Lower(s: string): (r: string)
    ensures |r| == |s|
    ensures forall i | 0 <= i < |s| :: r[i] == LowerChar(s[i])
  {
    seq(|s|, i requires 0 <= i < |s| => LowerChar(s[i]))
  }

  /** `t` occurs in `s` as a contiguous piece (SQL `LIKE '%t%'` without wildcards in t). */
  predicate Contains(s: string, t: string) {
    exists i | 0 <= i <= |s| - |t| :: OccursAt(s, t, i)
  }

  predicate OccursAt(s: string, t: string, i: int)
    requires 0 <= i <= |s| - |t|
  {
    s[i..i + |t|] == t
  }

  /** Case-insensitive containment, `lower(s) LIKE lower('%' || t || '%')`. */
  predicate ContainsIgnoringCase(s: string, t: string) {
    Contains(Lower(s), Lower(t))
  }

  /** Lower-casing is idempotent, so matching is insensitive to the case of either side. */
  lemma LowerIdempotent(s: string)
    ensures Lower(Lower(s)) == Lower(s)
  {
  }

  /** The empty search text matches every string. */
  lemma EmptyTextMatches(s: string)
    ensures ContainsIgnoringCase(s, [])
  {
    assert OccursAt(Lower(s), Lower([]), 0);
  }
}
