/**
  The pieces of the C library that DSString relies on, read in the "C" locale:
  the string terminator, strlen, strstr, toupper, tolower and isspace, together
  with the specification of what DSString::Trim leaves of a string.
*/
module CLib {

  /** The string terminator '\0'. */
  const NUL: char := '\0'

  /** No character of `s` is the terminator, so `s` can be the text of a C string. */
  predicate NoNul(s: seq<char>) {
    forall i :: 0 <= i < |s| ==> s[i] != NUL
  }

  /** A `const char*` argument: the null pointer, or a pointer to the characters
      that precede the terminator. */
  datatype CharPtr = Null | Ptr(text: seq<char>) {
    predicate Valid() {
      Ptr? ==> NoNul(text)
    }

    /** The text the pointer stands for when a null pointer is read as "". */
    function Text(): seq<char> {
      if Ptr? then text else ""
    }
  }

  /** strlen on a buffer, starting at index `i`: the index of the first terminator
      at or after `i`, or the end of the buffer when there is none. */
  function StrLen(a: array<char>, i: nat): (n: nat)
    reads a
    requires i <= a.Length
    ensures i <= n <= a.Length
    ensures forall k :: i <= k < n ==> a[k] != NUL
    ensures n < a.Length ==> a[n] == NUL
    decreases a.Length - i
  {
    if i == a.Length || a[i] == NUL then i else StrLen(a, i + 1)
  }

  // ---------------------------------------------------------------------------
  // strstr

  /** `pat` occurs in `text` starting at index `i`. */
  predicate OccursAt(text: seq<char>, pat: seq<char>, i: nat) {
    i + |pat| <= |text| && text[i..i + |pat|] == pat
  }

  /** strstr, searching from index `from`: the first index at or after `from` where
      `pat` occurs, or -1 when it occurs nowhere there. */
  function FindFrom(text: seq<char>, pat: seq<char>, from: nat): (r: int)
    requires from <= |text|
    ensures r == -1 || from <= r
    ensures r >= 0 ==> OccursAt(text, pat, r)
    ensures r >= 0 ==> forall j :: from <= j < r ==> !OccursAt(text, pat, j)
    ensures r == -1 ==> forall j :: from <= j ==> !OccursAt(text, pat, j)
    decreases |text| - from
  {
    if OccursAt(text, pat, from) then from
    else if from == |text| then -1
    else FindFrom(text, pat, from + 1)
  }

  // ---------------------------------------------------------------------------
  // ctype in the "C" locale

  /** isspace: space, tab, newline, vertical tab, form feed, carriage return. */
  predicate IsSpace(c: char)
    ensures IsSpace(c) ==> c != NUL && !IsAlpha(c)
  {
    c == ' ' || c == '\t' || c == '\n' || c == '\U{000B}' || c == '\U{000C}' || c == '\r'
  }

  predicate IsLower(c: char) { 'a' <= c <= 'z' }

  predicate IsUpper(c: char) { 'A' <= c <= 'Z' }

  predicate IsAlpha(c: char) { IsLower(c) || IsUpper(c) }

  /** toupper: lower-case ASCII letters to upper case, every other character unchanged. */
  function ToUpperChar(c: char): (r: char)
    ensures !IsLower(r)
    ensures r != c ==> IsLower(c) && IsUpper(r)
    ensures IsAlpha(r) <==> IsAlpha(c)
    ensures r != NUL <==> c != NUL
  {
    if IsLower(c) then (c as int - 32) as char else c
  }

  /** tolower: upper-case ASCII letters to lower case, every other character unchanged. */
  function ToLowerChar(c: char): (r: char)
    ensures !IsUpper(r)
    ensures r != c ==> IsUpper(c) && IsLower(r)
    ensures IsAlpha(r) <==> IsAlpha(c)
    ensures r != NUL <==> c != NUL
  {
    if IsUpper(c) then (c as int + 32) as char else c
  }

  /** The string with toupper applied to every character. */
  function MapUpper(s: seq<char>): (r: seq<char>)
    ensures |r| == |s|
    ensures forall i :: 0 <= i < |r| ==> !IsLower(r[i])
  {
    seq(|s|, i requires 0 <= i < |s| => ToUpperChar(s[i]))
  }

  /** The string with tolower applied to every character. */
  function MapLower(s: seq<char>): (r: seq<char>)
    ensures |r| == |s|
    ensures forall i :: 0 <= i < |r| ==> !IsUpper(r[i])
  {
    seq(|s|, i requires 0 <= i < |s| => ToLowerChar(s[i]))
  }

  /** Upper-casing keeps the length, changes only lower-case letters, leaves no
      lower-case letter behind and is idempotent. */
  lemma MapUpperProperties(s: seq<char>)
    ensures |MapUpper(s)| == |s|
    ensures forall i :: 0 <= i < |s| && MapUpper(s)[i] != s[i] ==> IsLower(s[i])
    ensures forall i :: 0 <= i < |s| ==> !IsLower(MapUpper(s)[i])
    ensures MapUpper(MapUpper(s)) == MapUpper(s)
    ensures NoNul(s) ==> NoNul(MapUpper(s))
  {
  }

  /** Lower-casing keeps the length, changes only upper-case letters, leaves no
      upper-case letter behind and is idempotent. */
  lemma MapLowerProperties(s: seq<char>)
    ensures |MapLower(s)| == |s|
    ensures forall i :: 0 <= i < |s| && MapLower(s)[i] != s[i] ==> IsUpper(s[i])
    ensures forall i :: 0 <= i < |s| ==> !IsUpper(MapLower(s)[i])
    ensures MapLower(MapLower(s)) == MapLower(s)
    ensures NoNul(s) ==> NoNul(MapLower(s))
  {
  }

  // ---------------------------------------------------------------------------
  // Trimming

  /** Every character of `s` is white space. */
  predicate AllSpace(s: seq<char>) {
    forall i :: 0 <= i < |s| ==> IsSpace(s[i])
  }

  /** The length of the longest all-white-space prefix of `s`. */
  function LeadingSpaces(s: seq<char>): (n: nat)
    ensures n <= |s|
    ensures forall k :: 0 <= k < n ==> IsSpace(s[k])
    ensures n < |s| ==> !IsSpace(s[n])
  {
    if |s| == 0 || !IsSpace(s[0]) then 0
    else
      var m := LeadingSpaces(s[1..]);
      assert forall k :: 1 <= k < 1 + m ==> s[k] == s[1..][k - 1];
      1 + m
  }

  /** The length of the longest all-white-space suffix of `s`. */
  function TrailingSpaces(s: seq<char>): (n: nat)
    ensures n <= |s|
    ensures forall k :: |s| - n <= k < |s| ==> IsSpace(s[k])
    ensures n < |s| ==> !IsSpace(s[|s| - 1 - n])
  {
    if |s| == 0 || !IsSpace(s[|s| - 1]) then 0
    else
      var m := TrailingSpaces(s[..|s| - 1]);
      assert forall k :: |s| - 1 - m <= k < |s| - 1 ==> s[k] == s[..|s| - 1][k];
      1 + m
  }

  /** `s` with its leading white space removed, then its trailing white space. */
  function Trimmed(s: seq<char>): (t: seq<char>)
    ensures |t| <= |s|
    ensures t != [] ==> !IsSpace(t[0]) && !IsSpace(t[|t| - 1])
  {
    var a := LeadingSpaces(s);
    s[a..|s| - TrailingSpaces(s[a..])]
  }

  /** Trimmed is the unique middle piece: whenever `s` splits into white space,
      a part that is empty or starts and ends with a non-space, and white space,
      that part is Trimmed(s). */
  lemma TrimmedCharacterised(s: seq<char>, a: nat, b: nat)
    requires a <= b <= |s|
    requires forall k :: 0 <= k < a ==> IsSpace(s[k])
    requires forall k :: b <= k < |s| ==> IsSpace(s[k])
    requires a < b ==> !IsSpace(s[a]) && !IsSpace(s[b - 1])
    ensures Trimmed(s) == s[a..b]
  {
    var n := LeadingSpaces(s);
    if a < b {
      assert n == a;
      var t := s[a..];
      var m := TrailingSpaces(t);
      assert forall k :: 0 <= k < |t| ==> t[k] == s[a + k];
      assert !IsSpace(t[b - a - 1]);
      assert forall k :: b - a <= k < |t| ==> IsSpace(t[k]);
      assert m == |s| - b;
      assert Trimmed(s) == s[a..|s| - m];
    } else {
      assert forall k :: 0 <= k < |s| ==> IsSpace(s[k]);
      assert n == |s|;
      assert Trimmed(s) == s[n..n];
    }
  }

  /** What Trim promises: the result is empty or starts and ends with a non-space,
      and it is what remains of `s` after a maximal run of leading and of trailing
      white space is cut off. */
  lemma {:induction false} TrimmedShape(s: seq<char>)
    ensures var r := Trimmed(s);
            var a := LeadingSpaces(s);
            && a + |r| <= |s|
            && s[a..a + |r|] == r
            && AllSpace(s[..a])
            && AllSpace(s[a + |r|..])
            && (r != [] ==> !IsSpace(r[0]) && !IsSpace(r[|r| - 1]))
  {
    var a := LeadingSpaces(s);
    var t := s[a..];
    var m := TrailingSpaces(t);
    var b := |s| - m;
    var r := Trimmed(s);
    assert r == s[a..b];
    forall k | 0 <= k < a
      ensures IsSpace(s[..a][k])
    {
      assert s[..a][k] == s[k];
    }
    forall k | 0 <= k < m
      ensures IsSpace(s[b..][k])
    {
      assert s[b..][k] == t[b - a + k];
    }
    if r != [] {
      assert r[0] == s[a];
      assert r[|r| - 1] == t[|t| - 1 - m];
    }
  }

  /** Trimming leaves nothing exactly when the string is all white space. */
  lemma TrimmedEmptyIffAllSpace(s: seq<char>)
    ensures Trimmed(s) == [] <==> AllSpace(s)
  {
    TrimmedShape(s);
    var a := LeadingSpaces(s);
    if Trimmed(s) == [] {
      assert forall k :: 0 <= k < a ==> s[k] == s[..a][k];
    } else {
      assert !IsSpace(s[a]);
    }
  }

  /** Trimming a string without terminators leaves none. */
  lemma TrimmedNoNul(s: seq<char>)
    requires NoNul(s)
    ensures NoNul(Trimmed(s))
  {
    var a := LeadingSpaces(s);
    var r := Trimmed(s);
    assert forall k :: 0 <= k < |r| ==> r[k] == s[a + k];
  }

  /** Trimming twice is trimming once. */
  lemma TrimIdempotent(s: seq<char>)
    ensures Trimmed(Trimmed(s)) == Trimmed(s)
  {
    var r := Trimmed(s);
    TrimmedShape(s);
    TrimmedCharacterised(r, 0, |r|);
  }
}
