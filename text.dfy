/** The few Python string built-ins the moderation front end relies on:
    str.strip(), str.lower(), str.startswith() and the substring test
    `p in t`, restricted to the ASCII part of Python's definitions. */
module Text {

  /** Python's str.isspace() on ASCII: space, \t \n \v \f \r and the
      four separators \x1c to \x1f. */
  function IsSpace(c: char): (b: bool)
    ensures b ==> c as int <= 32
  {
    c == ' ' || 9 <= c as int <= 13 || 28 <= c as int <= 31
  }

  ghost predicate AllSpace(s: string) {
    forall k :: 0 <= k < |s| ==> IsSpace(s[k])
  }

  /** s[a..b] is what is left of s once the whitespace at both ends is
      removed: every character of s outside [a, b) is whitespace, and a
      non-empty s[a..b] starts and ends with a non-whitespace character. */
  ghost predicate StrippedAt(s: string, a: int, b: int) {
    && 0 <= a <= b <= |s|
    && (forall k :: 0 <= k < a ==> IsSpace(s[k]))
    && (forall k :: b <= k < |s| ==> IsSpace(s[k]))
    && (a < b ==> !IsSpace(s[a]) && !IsSpace(s[b - 1]))
  }

  /** The left scan of strip: the first index from i on that holds no
      whitespace, or |s|. */
  function SkipLeadingSpace(s: string, i: nat): (a: nat)
    requires i <= |s|
    ensures i <= a <= |s|
    ensures forall k :: i <= k < a ==> IsSpace(s[k])
    ensures a < |s| ==> !IsSpace(s[a])
    decreases |s| - i
  {
    if i < |s| && IsSpace(s[i]) then SkipLeadingSpace(s, i + 1) else i
  }

  /** The right scan of strip: coming down from j, but not below a, the
      end of the last character that is not whitespace. */
  function SkipTrailingSpace(s: string, a: nat, j: nat): (b: nat)
    requires a <= j <= |s|
    ensures a <= b <= j
    ensures forall k :: b <= k < j ==> IsSpace(s[k])
    ensures a < b ==> !IsSpace(s[b - 1])
    decreases j
  {
    if a < j && IsSpace(s[j - 1]) then SkipTrailingSpace(s, a, j - 1) else j
  }

  /** Python's str.strip() with no argument: scan past the whitespace at
      the left, then back past the whitespace at the right. */
  function Strip(s: string): (r: string)
    ensures r == [] <==> AllSpace(s)
    ensures r != [] ==> !IsSpace(r[0]) && !IsSpace(r[|r| - 1])
  {
    var a := SkipLeadingSpace(s, 0);
    var b := SkipTrailingSpace(s, a, |s|);
    assert StrippedAt(s, a, b);
    StrippedAtUnique(s, a, b, a, b);
    s[a..b]
  }

  /** The scans find a splitting of s. */
  lemma StripScans(s: string) returns (a: int, b: int)
    ensures StrippedAt(s, a, b) && Strip(s) == s[a..b]
  {
    a := SkipLeadingSpace(s, 0);
    b := SkipTrailingSpace(s, a, |s|);
  }

  /** The splitting of s is unique unless s is all whitespace, and then
      every splitting has an empty core. */
  lemma StrippedAtUnique(s: string, a: int, b: int, c: int, d: int)
    requires StrippedAt(s, a, b) && StrippedAt(s, c, d)
    ensures a == b <==> AllSpace(s)
    ensures a < b ==> a == c && b == d
  {
  }

  /** Whichever way s splits into leading whitespace, a core and trailing
      whitespace, Strip(s) is that core. */
  lemma StripCore(s: string, a: int, b: int)
    requires StrippedAt(s, a, b)
    ensures Strip(s) == s[a..b]
  {
    var a0, b0 := StripScans(s);
    StrippedAtUnique(s, a0, b0, a, b);
    StrippedAtUnique(s, a, b, a0, b0);
  }

  /** A text with no whitespace at either end is its own stripped text. */
  lemma StripUnpadded(s: string)
    requires s != [] && !IsSpace(s[0]) && !IsSpace(s[|s| - 1])
    ensures Strip(s) == s
  {
    StripCore(s, 0, |s|);
  }

  /** Surrounding whitespace never changes the stripped text. */
  lemma StripPadding(w1: string, s: string, w2: string)
    requires AllSpace(w1) && AllSpace(w2)
    ensures Strip(w1 + s + w2) == Strip(s)
  {
    var a, b := StripScans(s);
    StrippedAtPadded(w1, s, w2, a, b);
    StripCore(w1 + s + w2, |w1| + a, |w1| + b);
  }

  lemma StrippedAtPadded(w1: string, s: string, w2: string, a: int, b: int)
    requires AllSpace(w1) && AllSpace(w2) && StrippedAt(s, a, b)
    ensures StrippedAt(w1 + s + w2, |w1| + a, |w1| + b)
    ensures (w1 + s + w2)[|w1| + a..|w1| + b] == s[a..b]
  {
    var u := w1 + s + w2;
    assert forall k :: 0 <= k < |w1| ==> u[k] == w1[k];
    assert forall k :: |w1| <= k < |w1| + |s| ==> u[k] == s[k - |w1|];
    assert forall k :: |w1| + |s| <= k < |u| ==> u[k] == w2[k - |w1| - |s|];
  }

  /** ASCII case folding, the part of Python's str.lower() that matters
      for the word "safe". */
  function LowerChar(c: char): (l: char)
    ensures !('A' <= l <= 'Z')
    ensures l == c || 'A' <= c <= 'Z'
  {
    if 'A' <= c <= 'Z' then (c as int + 32) as char else c
  }

  function Lower(s: string): (l: string)
    ensures |l| == |s|
    ensures forall k :: 0 <= k < |l| ==> !('A' <= l[k] <= 'Z')
  {
    seq(|s|, k requires 0 <= k < |s| => LowerChar(s[k]))
  }

  /** Python's str.startswith(p). */
  function StartsWith(s: string, p: string): (b: bool)
    ensures b <==> |p| <= |s| && forall k :: 0 <= k < |p| ==> s[k] == p[k]
  {
    |p| <= |s| && s[..|p|] == p
  }

  /** p occurs in t starting at index i. */
  ghost predicate OccursAt(t: string, p: string, i: int) {
    0 <= i && i + |p| <= |t| && t[i..i + |p|] == p
  }

  /** Whether p occurs in t at some index from i on. */
  function OccursFrom(t: string, p: string, i: nat): (b: bool)
    ensures b <==> exists j :: i <= j && OccursAt(t, p, j)
    decreases |t| - i
  {
    if |t| < i + |p| then
      false
    else
      var later := OccursFrom(t, p, i + 1);
      assert (exists j :: i <= j && OccursAt(t, p, j)) <==> OccursAt(t, p, i) || later;
      t[i..i + |p|] == p || later
  }

  /** Python's `p in t` for strings: p is a contiguous substring of t. */
  function Contains(t: string, p: string): (b: bool)
    ensures b <==> exists i :: OccursAt(t, p, i)
  {
    OccursFrom(t, p, 0)
  }

  /** A text that contains p + q also contains p. */
  lemma ContainsPrefix(t: string, p: string, q: string)
    requires Contains(t, p + q)
    ensures Contains(t, p)
  {
    var i :| OccursAt(t, p + q, i);
    assert t[i..i + |p|] == t[i..i + |p + q|][..|p|] == (p + q)[..|p|] == p;
    assert OccursAt(t, p, i);
  }

  /** Every character of an occurring p occurs in the text. */
  lemma ContainsChar(t: string, p: string, k: int)
    requires 0 <= k < |p|
    ensures Contains(t, p) ==> p[k] in t
  {
    if Contains(t, p) {
      var i :| OccursAt(t, p, i);
      assert t[i + k] == t[i..i + |p|][k] == p[k];
    }
  }
}
