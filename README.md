# URL white list of the viewer, in Dafny

This project models the viewer's URL white list, `LLUrlWhiteList` in
`linden/indra/newview/llurlwhitelist.cpp`. It has two parts:

- `url_cleanup`, which normalises an entry before it is stored. It trims the
  string. Then it scans backwards from the second-to-last character. At the
  first `/` it meets, it cuts the string so that the string ends with that `/`.
  The last character is never a cut point, so `a/b/c` becomes `a/b/` and
  `a/b/` becomes `a/`.
- The list object. It holds the cleaned entries (`mUrlList`), an iterator over
  them (`mUrlListIter`) and a loaded flag (`mLoaded`). Its operations are
  `load`, `clear`, `addItem`, `getFirst`, `getNext` and `containsMatch`.

Files:

- `wrappers.dfy`: the `Option` type.
- `llstring.dfy`: `trim` and `truncate` from the viewer's string class, stated
  by what they do. `llstring.h` is not part of this model.
- `url_cleanup.dfy`: `Cleanup` is the specification function. `IsCleanupOf`
  is a second description of it that does not search. The method `UrlCleanup`
  runs the source's reverse-iterator loop and is proved equal to
  `Cleanup(Trim(input))`.
- `url_whitelist.dfy`: the class `UrlWhiteList`. Its fields `urls`, `cursor`
  and `loaded` are updated in place by its methods.

The iterator is the datatype `Cursor`. It has three values:

- `Singular`: the iterator built from `0` in the constructor.
- `Index(i)`: the iterator points at entry `i`.
- `End`: the list's `end()` sentinel.

Because `End` is a sentinel and not a position, appending while the iterator is
at `End` leaves it at `End`. The new entry is therefore not handed out by
`getNext` (`AddItem`, `AppendKeepsCursor`). `Unvisited(urls, cursor)` is the
abstract view of the iterator: the entries it has yet to hand out.

## Model

| member | source | states |
|---|---|---|
| `LLString.Trim` | linden/indra/newview/llurlwhitelist.cpp:151 | The trimmed string has no whitespace at either end |
| `LLString.TrimIsSlice` | linden/indra/newview/llurlwhitelist.cpp:151 | The trimmed string is the slice of the input that starts after its leading whitespace, and only whitespace was cut off on either side |
| `LLString.TrimIdempotent` | linden/indra/newview/llurlwhitelist.cpp:151 | Trimming twice gives the same result as trimming once |
| `LLString.Truncate` | linden/indra/newview/llurlwhitelist.cpp:164 | Truncation to n keeps a prefix of length min(n, length) |
| `UrlCleanup.LastSlash` | linden/indra/newview/llurlwhitelist.cpp:154-168 | The backward scan finds the last `/` before the end bound, and there is none after it; no result means there is no `/` before the bound |
| `UrlCleanup.Cleanup` | linden/indra/newview/llurlwhitelist.cpp:149-170 | The cleaned URL is always a prefix of the trimmed input |
| `UrlCleanup.CleanupMeetsReference` | linden/indra/newview/llurlwhitelist.cpp:154-169 | The cleaned URL either equals the input (no inner `/`) or is the input up to and including its last inner `/` |
| `UrlCleanup.ReferenceDeterminesCleanup` | linden/indra/newview/llurlwhitelist.cpp:154-169 | Any string that fits that description is the cleaned URL, so the description and the scan agree on every input |
| `UrlCleanup.CleanupCutsAtLastSlash` | linden/indra/newview/llurlwhitelist.cpp:160-165 | If j is the last `/` before the final character, the result is the input up to j inclusive; its length is j + 1 and it ends in `/` |
| `UrlCleanup.CleanupUnchangedIff` | linden/indra/newview/llurlwhitelist.cpp:154-169 | The input is returned unchanged exactly when no `/` occurs before its final character, so a lone trailing `/` is kept |
| `UrlCleanup.CleanupKeepsTrimmed` | linden/indra/newview/llurlwhitelist.cpp:151-169 | Cleaning a trimmed string gives a trimmed string |
| `UrlCleanup.CleanupNotIdempotent` | linden/indra/newview/llurlwhitelist.cpp:155-165 | `a/b/c` cleans to `a/b/`, and cleaning that again gives `a/`: cleanup is not idempotent |
| `UrlCleanup.UrlCleanup` | linden/indra/newview/llurlwhitelist.cpp:149-170 | The reverse-iterator loop, with its position counter and truncation to length - position, returns exactly the cleaned form of the trimmed input, and that result is trimmed |
| `WhiteList.Advance` | linden/indra/newview/llurlwhitelist.cpp:198 | Incrementing the iterator at entry i moves it to entry i + 1, or to end() exactly when i is the last entry |
| `WhiteList.Unvisited` | linden/indra/newview/llurlwhitelist.cpp:205-215 | The entries still to be handed out are the list from the iterator's entry to the end, and there are some exactly when the iterator points at an entry |
| `WhiteList.WalkYieldsUnvisited` | linden/indra/newview/llurlwhitelist.cpp:205-215 | Calling getNext step by step from an iterator yields exactly the entries from it to the end of the list, in order |
| `WhiteList.AppendKeepsCursor` | linden/indra/newview/llurlwhitelist.cpp:178 | Inserting at end() does not move the iterator; the new entry becomes pending only for an iterator that points at an entry |
| `WhiteList.CleanAll` | linden/indra/newview/llurlwhitelist.cpp:94-99 | Loading stores one entry per line of the file, in file order, each the cleaned form of its line |
| `WhiteList.CleanAllTrimmed` | linden/indra/newview/llurlwhitelist.cpp:96-99 | Every stored entry has no surrounding whitespace |
| `WhiteList.UrlWhiteList.constructor` | linden/indra/newview/llurlwhitelist.cpp:39-45 | A new list is not loaded, is empty, has file name `url_whitelist.ini`, and its iterator is singular |
| `WhiteList.UrlWhiteList.Load` | linden/indra/newview/llurlwhitelist.cpp:78-110 | Once loaded: returns true and changes nothing. Otherwise: clears the list; if the file opens, stores its cleaned lines in order, sets loaded and returns true; if not, returns false with the list empty and loaded still false |
| `WhiteList.UrlWhiteList.Clear` | linden/indra/newview/llurlwhitelist.cpp:139-147 | The list is empty, the iterator is at end(), and the result is true |
| `WhiteList.UrlWhiteList.AddItem` | linden/indra/newview/llurlwhitelist.cpp:174-185 | Returns true. The list grows by exactly one: the earlier entries are unchanged and the cleaned item is last. The iterator stays where it was |
| `WhiteList.UrlWhiteList.GetFirst` | linden/indra/newview/llurlwhitelist.cpp:189-201 | On an empty list: false, with the value and iterator untouched. Otherwise: true, the first entry, and the iterator on the second entry or end() |
| `WhiteList.UrlWhiteList.GetNext` | linden/indra/newview/llurlwhitelist.cpp:205-215 | At end(): false, with the value untouched. Otherwise: true, the entry under the iterator, and the iterator advanced by one, so the pending entries lose exactly their first element |
| `WhiteList.UrlWhiteList.Enumerate` | linden/indra/newview/llurlwhitelist.cpp:189-215 | getFirst followed by getNext until it returns false hands out every entry exactly once, in list order; the iterator ends at end(), or stays where it was when the list is empty |
| `WhiteList.UrlWhiteList.ContainsMatch` | linden/indra/newview/llurlwhitelist.cpp:219-222 | containsMatch always returns false |

## Left out

- `save` and the file I/O of `load` (lines 88-101, 114-135). Load takes the file as `Option<seq<string>>`: the file's lines split the way `std::getline` splits them, or `None` when the file does not open. Resolving the per-account path is not modelled. The `filename` constant is kept.
- WhiteList.UrlWhiteList.AddItem: takes no `saveAfterAdd` flag. That flag only triggers `save` (lines 181-182), and `save` is I/O.
- `initClass`, `cleanupClass` and `getInstance` (lines 55-74): these only manage the global singleton pointer.
- UrlCleanup.Cleanup: if the trimmed input is empty, `++it` moves the reverse iterator past `rend()`. That is undefined behaviour in C++. The model returns the empty string unchanged, which is what the loop guard gives when the step is read as plain arithmetic.
- WhiteList.UrlWhiteList.GetNext: requires the iterator not to be the constructor's singular one. Comparing a singular iterator with `end()` is undefined in C++. Call `getFirst` on a non-empty list, or call `clear` or `load`, first. The class invariant records that a loaded list never has a singular iterator, since line 85 clears the list before line 104 sets the flag.
- `LLString::trim` and `LLString::truncate` come from `llstring.h`, which is not part of this model. Trim is modelled as trimHead then trimTail. Each counts the C-locale `isspace` characters (space, tab, newline, vertical tab, form feed, carriage return) at its end of the string and erases them. Truncate is modelled as taking a prefix.
- The `S32` length and position counters in `url_cleanup` are unbounded integers here. Strings longer than 2^31 - 1 characters are not considered.
- Strings are sequences of characters. The byte encoding of `std::string` is not modelled.
- `linden/indra/llimage/llimagej2c.h`: decode, encode, data-size, discard-level and validation routines are declarations without bodies. The codec backend `LLImageJ2CImpl` is pure virtual. None of them has behaviour to model.
- `linden/indra/newview/llmanip.cpp`: OpenGL drawing and floating-point camera geometry that depend on viewer globals.
- `linden/indra/llmessage/llcrypto.h` and `linden/indra/newview/llframestats.h`: declarations only.
- `linden/indra/test/lltut.h`: test-harness assertion helpers, not product logic.
