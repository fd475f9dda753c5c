/**
  The two string helpers of the viewer's LLString class that url_cleanup uses:
  trim (drop surrounding whitespace) and truncate (keep at most a given number
  of characters). Their definitions live in llstring.h, which is not part of
  this model; they are stated here by what they do to a string.
*/
module LLString {

  /** The C-locale isspace set: ' ', '\t', '\n', '\v', '\f', '\r'. */
  predicate IsSpace(c: char) {
    c == ' ' || ('\t' <= c <= '\r')
  }

  /** Neither end of s is whitespace. */
  predicate IsTrimmed(s: string) {
    s == [] || (!IsSpace(s[0]) && !IsSpace(s[|s| - 1]))
  }

  /** Number of whitespace characters at the front of s. */
  function LeadingSpaces(s: string): (n: nat)
    ensures n <= |s|
    ensures forall k :: 0 <= k < n ==> IsSpace(s[k])
    ensures n < |s| ==> !IsSpace(s[n])
  {
    if s == [] || !IsSpace(s[0]) then 0 else 1 + LeadingSpaces(s[1..])
  }

  /** Number of whitespace characters at the back of s. */
  function TrailingSpaces(s: string): (n: nat)
    ensures n <= |s|
    ensures forall k :: |s| - n <= k < |s| ==> IsSpace(s[k])
    ensures n < |s| ==> !IsSpace(s[|s| - 1 - n])
  {
    if s == [] || !IsSpace(s[|s| - 1]) then 0 else 1 + TrailingSpaces(s[..|s| - 1])
  }

  /** trimHead: erase the leading whitespace. */
  function TrimHead(s: string): string {
    s[LeadingSpaces(s)..]
  }

  /** trimTail: erase the trailing whitespace. */
  function TrimTail(s: string): string {
    s[..|s| - TrailingSpaces(s)]
  }

  /** trim: trimHead then trimTail; the result has no whitespace at either end. */
  function Trim(s: string): (r: string)
    ensures IsTrimmed(r)
  {
    TrimTail(TrimHead(s))
  }

  /**
    What trim keeps: the slice of s that starts after its leading whitespace;
    everything cut off on either side is whitespace.
  */
  lemma TrimIsSlice(s: string)
    ensures LeadingSpaces(s) + |Trim(s)| <= |s|
    ensures Trim(s) == s[LeadingSpaces(s)..LeadingSpaces(s) + |Trim(s)|]
    ensures forall k :: 0 <= k < LeadingSpaces(s) ==> IsSpace(s[k])
    ensures forall k :: LeadingSpaces(s) + |Trim(s)| <= k < |s| ==> IsSpace(s[k])
  {
    var n := LeadingSpaces(s);
    var h := s[n..];
    var m := TrailingSpaces(h);
    assert Trim(s) == s[n..|s| - m] by {
      assert h[..|h| - m] == s[n..|s| - m];
    }
    forall k | |s| - m <= k < |s| ensures IsSpace(s[k]) {
      assert s[k] == h[k - n];
    }
  }

  /** A string with no whitespace at its ends is left alone by trim. */
  lemma TrimKeepsTrimmed(s: string)
    requires IsTrimmed(s)
    ensures Trim(s) == s
  {
  }

  /** trim is idempotent. */
  lemma TrimIdempotent(s: string)
    ensures Trim(Trim(s)) == Trim(s)
  {
    TrimKeepsTrimmed(Trim(s));
  }

  /** truncate: keep the first n characters, or all of s when it is shorter. */
  function Truncate(s: string, n: nat): (r: string)
    ensures |r| == if n < |s| then n else |s|
    ensures r == s[..|r|]
  {
    if n < |s| then s[..n] else s
  }
}
