/**
  url_cleanup (llurlwhitelist.cpp): trim a URL, then cut it just after the
  last '/' that is not its final character, so that a page URL becomes the
  directory holding it and a directory URL (ending in '/') becomes its parent.
*/
module UrlCleanup {
  import opened Wrappers
  import opened LLString

  /** Index of the last '/' among t[..end], or None when there is none. */
  function LastSlash(t: string, end: nat): (r: Option<nat>)
    requires end <= |t|
    ensures r.Some? ==> r.value < end && t[r.value] == '/'
    ensures r.Some? ==> forall k :: r.value < k < end ==> t[k] != '/'
    ensures r.None? ==> forall k :: 0 <= k < end ==> t[k] != '/'
    decreases end
  {
    if end == 0 then None
    else if t[end - 1] == '/' then Some(end - 1)
    else LastSlash(t, end - 1)
  }

  /**
    What url_cleanup makes of an already trimmed string t. The final character
    is never a cut point. An empty t is returned unchanged (the C++ steps its
    reverse iterator past rend() there, which is undefined behaviour).
  */
  function Cleanup(t: string): (r: string)
    ensures |r| <= |t| && r == t[..|r|]
  {
    if t == [] then t
    else match LastSlash(t, |t| - 1)
      case None => t
      case Some(j) => t[..j + 1]
  }

  /** No '/' occurs in t before its final character. */
  predicate NoInnerSlash(t: string) {
    forall k :: 0 <= k < |t| - 1 ==> t[k] != '/'
  }

  /** t[j] is the last '/' of t that is not its final character. */
  predicate IsLastInnerSlash(t: string, j: int) {
    0 <= j < |t| - 1 && t[j] == '/' && forall k :: j < k < |t| - 1 ==> t[k] != '/'
  }

  /**
    Reference description of the cleanup, written without the search: either
    there is no inner '/' and r is t, or r is t up to and including its last
    inner '/'.
  */
  ghost predicate IsCleanupOf(t: string, r: string) {
    || (NoInnerSlash(t) && r == t)
    || (exists j :: IsLastInnerSlash(t, j) && r == t[..j + 1])
  }

  /** Cleanup meets the reference description. */
  lemma CleanupMeetsReference(t: string)
    ensures IsCleanupOf(t, Cleanup(t))
  {
    if t != [] {
      match LastSlash(t, |t| - 1)
      case None =>
      case Some(j) => assert IsLastInnerSlash(t, j);
    }
  }

  /** The reference description admits no other result than Cleanup's. */
  lemma ReferenceDeterminesCleanup(t: string, r: string)
    requires IsCleanupOf(t, r)
    ensures r == Cleanup(t)
  {
    if !NoInnerSlash(t) {
      var j :| IsLastInnerSlash(t, j) && r == t[..j + 1];
      CleanupCutsAtLastSlash(t, j);
    }
  }

  /**
    When t has a '/' before its final character, the result ends at the last
    such '/', inclusive: its length is that index plus one.
  */
  lemma CleanupCutsAtLastSlash(t: string, j: int)
    requires IsLastInnerSlash(t, j)
    ensures Cleanup(t) == t[..j + 1]
    ensures |Cleanup(t)| == j + 1 && Cleanup(t)[j] == '/'
  {
    var s := LastSlash(t, |t| - 1);
    assert s.Some? && s.value == j;
  }

  /**
    Cleanup leaves t unchanged exactly when no '/' occurs before its final
    character; in particular a lone trailing '/' is kept.
  */
  lemma CleanupUnchangedIff(t: string)
    ensures Cleanup(t) == t <==> NoInnerSlash(t)
  {
    if !NoInnerSlash(t) {
      var k :| 0 <= k < |t| - 1 && t[k] == '/';
      var s := LastSlash(t, |t| - 1);
      assert s.Some?;
      CleanupCutsAtLastSlash(t, s.value);
    }
  }

  /** Cleanup of a trimmed string is trimmed: it keeps t's first character and ends in '/' or is t. */
  lemma CleanupKeepsTrimmed(t: string)
    requires IsTrimmed(t)
    ensures IsTrimmed(Cleanup(t))
  {
    var r := Cleanup(t);
    if r != [] && r != t {
      CleanupMeetsReference(t);
      var j :| IsLastInnerSlash(t, j) && r == t[..j + 1];
      assert r[|r| - 1] == '/';
    }
  }

  /**
    Cleanup is not idempotent: a directory URL loses one more path segment
    every time it is cleaned again.
  */
  lemma CleanupNotIdempotent()
    ensures Cleanup("a/b/c") == "a/b/"
    ensures Cleanup(Cleanup("a/b/c")) == "a/"
  {
    CleanupCutsAtLastSlash("a/b/c", 3);
    CleanupCutsAtLastSlash("a/b/", 1);
  }

  /** Truncating a trimmed t just after its last inner '/' is its cleaned form, and stays trimmed. */
  lemma CutIsCleanup(t: string, j: int)
    requires IsTrimmed(t) && IsLastInnerSlash(t, j)
    ensures Truncate(t, j + 1) == Cleanup(t) && IsTrimmed(Cleanup(t))
  {
    CleanupCutsAtLastSlash(t, j);
    CleanupKeepsTrimmed(t);
  }

  /**
    url_cleanup: trim, then walk a reverse iterator from the second-to-last
    character towards the front; at the first '/' met, truncate the string so
    that it ends with that '/'.
  */
  method UrlCleanup(patternIn: string) returns (pattern: string)
    ensures pattern == Cleanup(Trim(patternIn))
    ensures IsTrimmed(pattern)
  {
    pattern := Trim(patternIn);
    ghost var t := pattern;
    assert IsTrimmed(t);
    var length := |pattern|;
    var position := 0;
    // it is the reverse iterator's distance from rbegin(); rend() is at distance length
    var it := 0;
    it := it + 1;  // the last character is skipped: it may itself be '/'
    position := position + 1;
    while it < length
      invariant pattern == t && length == |t| && IsTrimmed(t)
      invariant position == it
      invariant 1 <= it && (length > 0 ==> it <= length)
      invariant forall k :: 0 <= k && length - it <= k < length - 1 ==> t[k] != '/'
    {
      var c := pattern[length - 1 - it];
      if c == '/' {
        var desiredLength := length - position;
        pattern := Truncate(pattern, desiredLength);
        CutIsCleanup(t, length - 1 - it);
        return;
      }
      position := position + 1;
      it := it + 1;
    }
    CleanupUnchangedIff(t);
  }
}
