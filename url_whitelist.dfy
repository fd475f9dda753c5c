/**
  LLUrlWhiteList (llurlwhitelist.cpp): a list of cleaned-up URL entries, a
  std::list iterator over it used by getFirst/getNext, and a flag recording
  that the list has been loaded from the per-account file.
*/
module WhiteList {
  import opened Wrappers
  import opened LLString
  import opened UrlCleanup

  /**
    The list iterator: Singular is the value the constructor gives it (an
    iterator built from 0, which may not be compared or advanced), Index(i)
    points at the i-th entry, End is the list's end() sentinel.
  */
  datatype Cursor = Singular | Index(i: nat) | End

  /** An Index cursor points at an existing entry. */
  predicate CursorFits(urls: seq<string>, c: Cursor) {
    c.Index? ==> c.i < |urls|
  }

  /** ++it on the iterator at entry i: the next entry, or end() after the last one. */
  function Advance(urls: seq<string>, i: nat): (c: Cursor)
    requires i < |urls|
    ensures CursorFits(urls, c)
    ensures c == End <==> i == |urls| - 1
    ensures c != End ==> c == Index(i + 1)
  {
    if i + 1 < |urls| then Index(i + 1) else End
  }

  /** The entries from the cursor to the end of the list: what getNext has yet to hand out. */
  function Unvisited(urls: seq<string>, c: Cursor): (r: seq<string>)
    requires CursorFits(urls, c)
    ensures |r| <= |urls| && forall k :: 0 <= k < |r| ==> r[k] == urls[|urls| - |r| + k]
    ensures c.Index? ==> |r| == |urls| - c.i
    ensures r != [] <==> c.Index?
  {
    match c
    case Index(i) => urls[i..]
    case _ => []
  }

  /**
    The values that successive getNext calls yield from cursor c, one step at
    a time: the function-level form of the iteration that the method
    UrlWhiteList.Enumerate runs on the object.
  */
  function Walk(urls: seq<string>, c: Cursor): seq<string>
    requires CursorFits(urls, c)
    decreases if c.Index? then |urls| - c.i else 0
  {
    match c
    case Index(i) => [urls[i]] + Walk(urls, Advance(urls, i))
    case _ => []
  }

  /** Stepping getNext from a cursor yields exactly the entries from it to the end, in order. */
  lemma {:induction false} WalkYieldsUnvisited(urls: seq<string>, c: Cursor)
    requires CursorFits(urls, c)
    ensures Walk(urls, c) == Unvisited(urls, c)
    decreases if c.Index? then |urls| - c.i else 0
  {
    match c
    case Index(i) =>
      WalkYieldsUnvisited(urls, Advance(urls, i));
      assert urls[i..] == [urls[i]] + urls[i + 1..];
    case _ =>
  }

  /**
    Appending an entry keeps every cursor where it was: an Index cursor will
    still reach the new entry, but end() stays end(), so the new entry is not
    handed out to an iteration that had already finished.
  */
  lemma AppendKeepsCursor(urls: seq<string>, c: Cursor, x: string)
    requires CursorFits(urls, c)
    ensures CursorFits(urls + [x], c)
    ensures Unvisited(urls + [x], c) == Unvisited(urls, c) + (if c.Index? then [x] else [])
  {
    if c.Index? {
      assert (urls + [x])[c.i..] == urls[c.i..] + [x];
    }
  }

  /** What load stores for the lines of the file: each line cleaned, in file order. */
  function CleanAll(lines: seq<string>): (r: seq<string>)
    ensures |r| == |lines|
    ensures forall k :: 0 <= k < |r| ==> r[k] == Cleanup(Trim(lines[k]))
  {
    if lines == [] then []
    else
      var init := CleanAll(lines[..|lines| - 1]);
      assert forall k :: 0 <= k < |init| ==> init[k] == Cleanup(Trim(lines[k]));
      init + [Cleanup(Trim(lines[|lines| - 1]))]
  }

  /** Every entry carries no surrounding whitespace. */
  predicate AllTrimmed(urls: seq<string>) {
    forall k :: 0 <= k < |urls| ==> IsTrimmed(urls[k])
  }

  /** Everything the list stores has been through url_cleanup. */
  lemma CleanAllTrimmed(lines: seq<string>)
    ensures AllTrimmed(CleanAll(lines))
  {
    forall k | 0 <= k < |lines| ensures IsTrimmed(CleanAll(lines)[k]) {
      CleanupKeepsTrimmed(Trim(lines[k]));
    }
  }

  class UrlWhiteList {
    var loaded: bool
    const filename: string
    var urls: seq<string>
    var cursor: Cursor

    /** Entries are cleaned, the iterator fits them, and a loaded list has a usable iterator. */
    ghost predicate Valid()
      reads this
    {
      CursorFits(urls, cursor) && AllTrimmed(urls) && (loaded ==> cursor != Singular)
    }

    /** Not loaded, file name "url_whitelist.ini", empty list, iterator not yet usable. */
    constructor ()
      ensures Valid()
      ensures !loaded && filename == "url_whitelist.ini"
      ensures urls == [] && cursor == Singular
    {
      loaded := false;
      filename := "url_whitelist.ini";
      urls := [];
      cursor := Singular;
    }

    /**
      load: does nothing once loaded. Otherwise clears the list and, if the
      file opens, appends the cleaned form of each of its lines and marks the
      list loaded. The file is given as its lines, or None when it cannot be
      opened.
    */
    method Load(file: Option<seq<string>>) returns (ok: bool)
      requires Valid()
      modifies this`urls, this`cursor, this`loaded
      ensures Valid()
      ensures old(loaded) ==> ok && loaded && urls == old(urls) && cursor == old(cursor)
      ensures !old(loaded) ==> ok == file.Some? && loaded == file.Some? && cursor == End
      ensures !old(loaded) ==> urls == if file.Some? then CleanAll(file.value) else []
    {
      if loaded {
        return true;
      }
      var cleared := Clear();
      match file
      case None =>
        return false;
      case Some(lines) =>
        var k := 0;
        while k < |lines|
          invariant Valid() && !loaded && cursor == End
          invariant k <= |lines| && urls == CleanAll(lines[..k])
        {
          var added := AddItem(lines[k]);
          assert lines[..k + 1][..k] == lines[..k];
          k := k + 1;
        }
        assert lines[..k] == lines;
        loaded := true;
        return true;
    }

    /** clear: empties the list and parks the iterator at end(); returns true. */
    method Clear() returns (ok: bool)
      requires Valid()
      modifies this`urls, this`cursor
      ensures Valid()
      ensures ok && urls == [] && cursor == End
    {
      urls := [];
      cursor := End;
      return true;
    }

    /**
      addItem: appends url_cleanup of the item at the end of the list and
      returns true; earlier entries and the iterator are left as they were.
    */
    method AddItem(itemIn: string) returns (ok: bool)
      requires Valid()
      modifies this`urls
      ensures Valid() && ok
      ensures urls == old(urls) + [Cleanup(Trim(itemIn))]
      ensures Unvisited(urls, cursor)
           == old(Unvisited(urls, cursor)) + (if cursor.Index? then [Cleanup(Trim(itemIn))] else [])
    {
      var item := UrlCleanup.UrlCleanup(itemIn);
      AppendKeepsCursor(urls, cursor, item);
      urls := urls + [item];
      return true;
    }

    /**
      getFirst: on an empty list, false with the value and the iterator left
      alone; otherwise true, the first entry, and the iterator on the second
      entry (or end()).
    */
    method GetFirst(valueIn: string) returns (found: bool, valueOut: string)
      requires Valid()
      modifies this`cursor
      ensures Valid()
      ensures found <==> urls != []
      ensures !found ==> valueOut == valueIn && cursor == old(cursor)
      ensures found ==> valueOut == urls[0] && cursor == Advance(urls, 0)
      ensures found ==> Unvisited(urls, cursor) == urls[1..]
    {
      if |urls| == 0 {
        return false, valueIn;
      }
      cursor := Index(0);
      valueOut := urls[cursor.i];
      cursor := Advance(urls, cursor.i);
      return true, valueOut;
    }

    /**
      getNext: at end(), false with the value left alone; otherwise true, the
      entry under the iterator, and the iterator moved one on. Calling it on
      the constructor's singular iterator is undefined in C++ and excluded.
    */
    method GetNext(valueIn: string) returns (found: bool, valueOut: string)
      requires Valid() && cursor != Singular
      modifies this`cursor
      ensures Valid() && cursor != Singular
      ensures found <==> old(cursor).Index?
      ensures !found ==> valueOut == valueIn && cursor == old(cursor)
      ensures found ==> valueOut == urls[old(cursor).i] && cursor == Advance(urls, old(cursor).i)
      ensures found ==> [valueOut] + Unvisited(urls, cursor) == old(Unvisited(urls, cursor))
    {
      if cursor == End {
        return false, valueIn;
      }
      valueOut := urls[cursor.i];
      assert urls[cursor.i..] == [urls[cursor.i]] + urls[cursor.i + 1..];
      cursor := Advance(urls, cursor.i);
      return true, valueOut;
    }

    /**
      getFirst followed by getNext until it answers false hands out every
      entry exactly once, in list order.
    */
    method Enumerate() returns (values: seq<string>)
      requires Valid()
      modifies this`cursor
      ensures Valid()
      ensures values == urls
      ensures urls != [] ==> cursor == End
      ensures urls == [] ==> cursor == old(cursor)
    {
      var found, v := GetFirst("");
      if !found {
        return [];
      }
      values := [v];
      while true
        invariant Valid() && cursor != Singular
        invariant |values| <= |urls| && values == urls[..|values|]
        invariant cursor == (if |values| < |urls| then Index(|values|) else End)
        decreases |urls| - |values|
      {
        found, v := GetNext(v);
        if !found {
          return;
        }
        assert v == urls[|values|];
        values := values + [v];
      }
    }

    /** containsMatch: not implemented in this version; no pattern ever matches. */
    method ContainsMatch(patternIn: string) returns (matched: bool)
      ensures !matched
    {
      return false;
    }
  }
}
