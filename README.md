# XML resource cursor, modelled in Dafny

`XMLResource` keeps a whole XML document as one text buffer, `xml_data`, and
offers a cursor over it, `XMLResource::Iterator`. The cursor does not parse XML:
it locates `<...>` spans by searching the text for characters. A forward step
(`next()`, also run once by the constructor) takes the first `<` at or after the
current position and the first `>` at or after that `<`. A backward step
(`previous()`) takes the last `<` before the position and the first `>` at or
after the position. Three buffer operations build on the cursor:
`find(name)` walks forward until the current span contains `"<" + name`,
`add` inserts text before the first occurrence of the cursor's span, and
`erase` removes that occurrence.

The project has four modules:

- `StdString` (`std_string.dfy`) models the `std::string` operations the code
  relies on as pure functions over `seq<char>`: `find(char, pos)`,
  `rfind(char, pos)`, `find(str)`, `substr`, `insert` and `erase`. A failed
  search returns `None` where the library returns `npos`. `size_t`
  wrap-around is written out with `ToSizeT`, because the code relies on it
  twice: `current_pos - 1` at position 0, and `end - start + 1` as a `substr`
  count.
- `TagScan` (`tag_scan.dfy`) is the specification. `NextState` and
  `PrevState` are one forward and one backward step as functions of the text.
  `Walk` is the sequence of cursors that `find` visits. `FindStops` and
  `FirstStopFrom` say where `find`'s loop leaves. The lemmas say what the steps
  mean.
- `XmlResources` (`xml_resource.dfy`) holds the two classes. `XmlResource`
  has a `data` field that `Load`, `Add` and `Erase` reassign. `Iterator` holds
  the resource plus the `pos` and `elem` fields that its steps update in place.
  Every step is proved against `NextState`/`PrevState`. The loop of `Find` is
  proved against `Walk` and `FirstStopFrom`.
- `Scenarios` (`scenarios.dfy`) holds runs on concrete buffers, in the style of
  the driver program: load then save, the cursor on an empty buffer, a backward
  step after a forward one, the loose name match of `find`, `add` and `erase`
  through a found cursor, and the non-terminating `find` together with its
  correction.

## Model

| member | source | states |
|---|---|---|
| StdString.ToSizeT | XML_Resources/Source.cpp:90 | `size_t` arithmetic: the result is below 2^64, equals the input inside [0, 2^64), and equals input + 2^64 for a negative input down to -2^64 (so `0 - 1` is `npos`) |
| StdString.IndexOfChar | XML_Resources/Source.cpp:78-79 | `find(c, from)`: the index found is at or after `from`, holds `c`, and no index between `from` and it holds `c`; `None` (npos) means no index at or after `from` holds `c` |
| StdString.LastIndexOfChar | XML_Resources/Source.cpp:90 | `rfind(c, upTo)`: the index found is at or before `upTo`, holds `c`, and no later index up to `upTo` holds `c`; `None` means no index at or before `upTo` holds `c`; an `upTo` past the end searches the whole string |
| StdString.IndexOfSub | XML_Resources/Source.cpp:105 | `find(str)`: the index found is an occurrence of `t` and no earlier index is; `None` means `t` occurs nowhere |
| StdString.EmptyFoundAtStart | XML_Resources/Source.cpp:114 | the empty string is found at index 0 of every string, so `add`/`erase` with a cleared cursor act at the front |
| StdString.Substr | XML_Resources/Source.cpp:81 | `substr(pos, count)` is the slice of the text starting at `pos`, of length `count` or up to the end when fewer characters are left |
| StdString.InsertAt | XML_Resources/Source.cpp:116 | `insert(pos, t)`: the prefix before `pos` is kept, `t` follows, then the rest; the length grows by `|t|` |
| StdString.RemoveAt | XML_Resources/Source.cpp:125 | `erase(pos, count)`: the prefix is kept and `count` characters (or all to the end) are dropped; the length shrinks by `count` when that many are there |
| StdString.RemoveInsertRoundTrip | XML_Resources/Source.cpp:116 | erasing text just inserted at the same index gives back the original text |
| StdString.InsertRemoveRoundTrip | XML_Resources/Source.cpp:125 | re-inserting an erased occurrence at its index gives back the original text |
| TagScan.NextState | XML_Resources/Source.cpp:77-87 | the forward step as a function of the text and the position: it never moves the position back; what it finds is stated in `NextFindsFirstSpan` |
| TagScan.PrevState | XML_Resources/Source.cpp:89-99 | the backward step as a function of the text and the position, with `pos - 1` and the `substr` count computed in `size_t`: the position either stays or lands inside the buffer; what it finds is stated in `PrevFindsEnclosingSpan`, `PrevAtEndFails` and `PrevAtStartWraps` |
| TagScan.NextFindsFirstSpan | XML_Resources/Source.cpp:77-87 | a forward step succeeds iff some `<` at or after `pos` is followed by a `>`; it then takes the first such `<` and the first `>` after it, the element is exactly that slice and is a tag (starts with `<`, ends with `>`, no `>` before its end), and the position moves to just past the `>`, strictly forward and at most to the end; a failed step keeps the position |
| TagScan.PrevFindsEnclosingSpan | XML_Resources/Source.cpp:89-99 | for `pos > 0`, a backward step succeeds iff there is a `<` before `pos` and a `>` at or after `pos`; the position moves back to the last `<` before `pos`, strictly backward, and the element is the slice from there to the first `>` at or after `pos`; a failed step keeps the position |
| TagScan.PrevPastCloseIsNoTag | XML_Resources/Source.cpp:91 | a backward step from just past a `>` never yields a tag, because its `>` search starts past that `>` |
| TagScan.PrevAfterNextDiffers | XML_Resources/Source.cpp:82-91 | a backward step right after a successful forward step never gives back the span the forward step found |
| TagScan.PrevAtEndFails | XML_Resources/Source.cpp:91-97 | a backward step from the end of the buffer (or beyond) always fails and keeps the position |
| TagScan.PrevAtStartWraps | XML_Resources/Source.cpp:89-93 | a backward step from position 0 searches for `<` over the whole buffer (`0 - 1` wraps to `npos`); when it succeeds it lands on the last `<` of the buffer, the buffer holds a `>`, and the element is the `substr` from that `<` with the count `end - start + 1` computed in `size_t` up to the first `>` of the buffer |
| TagScan.Walk | XML_Resources/Source.cpp:103-108 | every cursor of the walk of `find` has its position within the buffer |
| TagScan.FindLoopEnds | XML_Resources/Source.cpp:104-108 | the condition under which `find`'s loop ends, taken as `Find`'s precondition: the current cursor stops the loop, or the next step moves the position on and the loop ends from there; `FindLoopEndsIffStops` proves it equivalent to "some later cursor of the walk stops the loop" |
| TagScan.FirstStopFrom | XML_Resources/Source.cpp:104-110 | when `find`'s loop ends, it leaves at the first cursor of the walk that is at the end of the buffer or whose element contains the pattern |
| TagScan.FindLoopEndsIffStops | XML_Resources/Source.cpp:104-108 | `find`'s loop ends iff some cursor of the walk stops it |
| TagScan.WalkStaysAfterFailure | XML_Resources/Source.cpp:84-108 | once a step of the walk fails, every later cursor of the walk is the same |
| TagScan.FindNeverStops | XML_Resources/Source.cpp:104-108 | when a step fails before the end of the buffer and no earlier cursor matched, no cursor of the walk ever stops `find`'s loop |
| TagScan.FirstSearchStopFrom | XML_Resources/Source.cpp:104-108 | the corrected loop, which keeps the `hasNext()` test and also leaves at a cleared element, always leaves, at the first cursor that stops `find`'s loop or is cleared |
| TagScan.CorrectionAgrees | XML_Resources/Source.cpp:104-108 | wherever `find`'s loop ends, the corrected loop leaves at the same cursor; and the corrected loop leaves at a cleared cursor short of the end of the buffer exactly when `find`'s loop never ends |
| XmlResources.XmlResource.constructor | XML_Resources/Source.cpp:12-16 | a new resource has an empty buffer |
| XmlResources.XmlResource.Load | XML_Resources/Source.cpp:19-31 | a readable file replaces the buffer with its contents; an unreadable one gives the error "Error while loading XML" and keeps the buffer |
| XmlResources.XmlResource.Save | XML_Resources/Source.cpp:33-43 | a writable file receives exactly the buffer; otherwise the error "Error while saving XML" and nothing is written |
| XmlResources.XmlResource.Find | XML_Resources/Source.cpp:102-111 | the returned cursor is the first cursor of the walk that is at the end of the buffer or whose element contains `"<" + name` (so no cursor visited earlier matched); when `hasNext()` holds on it, its element contains `"<" + name` |
| XmlResources.XmlResource.FindFirstOrUnlocated | XML_Resources/Source.cpp:102-111 | corrected `find`: always returns, at the first cursor of the walk that is at the end of the buffer, is cleared or contains `"<" + name`; when `hasNext()` holds on it, its element is empty or matches; wherever `find` returns, it returns the same cursor; it returns a cleared cursor with `hasNext()` true exactly where `find` never returns |
| XmlResources.XmlResource.Add | XML_Resources/Source.cpp:113-120 | succeeds iff the cursor's element occurs in the buffer; the element is then inserted before its first occurrence, the length grows by its size and the anchor still follows it; a cleared cursor inserts at the front; on failure the buffer is kept; the cursor is never changed |
| XmlResources.XmlResource.Erase | XML_Resources/Source.cpp:122-129 | succeeds iff the cursor's element occurs in the buffer; the slice removed is the first occurrence of the element, the length shrinks by its size and re-inserting it restores the old buffer; a cleared cursor succeeds and changes nothing; on failure the buffer is kept; the cursor is never changed |
| XmlResources.Iterator.constructor | XML_Resources/Source.cpp:52-54 | the new cursor is the result of a forward step from position 0 |
| XmlResources.Iterator.HasNext | XML_Resources/Source.cpp:56-58 | true iff the position is before the end of the buffer; changes nothing |
| XmlResources.Iterator.HasPrevious | XML_Resources/Source.cpp:64-66 | true iff the position is above 0; changes nothing |
| XmlResources.Iterator.Next | XML_Resources/Source.cpp:60-62 | the new cursor is one forward step from the old position; a failure keeps the position, a success moves it strictly forward, at most to the end, onto a tag |
| XmlResources.Iterator.Previous | XML_Resources/Source.cpp:68-70 | the new cursor is one backward step from the old position; from a position above 0, a failure keeps the position and a success moves it strictly backward |
| XmlResources.Iterator.GetCurrentElement | XML_Resources/Source.cpp:72-74 | returns the current element; changes nothing |
| XmlResources.Iterator.FindNextElement | XML_Resources/Source.cpp:77-87 | the forward step computed in place is `NextState` of the old position, with the guarantees of `NextFindsFirstSpan` |
| XmlResources.Iterator.FindPreviousElement | XML_Resources/Source.cpp:89-99 | the backward step computed in place is `PrevState` of the old position, with the guarantees of `PrevFindsEnclosingSpan` |
| Scenarios.LoadThenSave | XML_Resources/Source.cpp:136-150 | saving right after loading writes exactly the text loaded |
| Scenarios.FailedLoadKeepsText | XML_Resources/Source.cpp:28-30 | a failed load reports its error and keeps the previous text |
| Scenarios.EmptyBuffer | XML_Resources/Source.cpp:52-66 | over an empty buffer the cursor has no element and can move neither way |
| Scenarios.PrevFromStartWrapsCount | XML_Resources/Source.cpp:89-93 | a backward step from 0 over `x>y<z` gives `<z` at position 3 (the `substr` count wraps to `npos`); over `><` it moves to position 1 with a cleared element (the count is 0) |
| Scenarios.PreviousAfterNext | XML_Resources/Source.cpp:89-99 | on `<a><b>`, the first element is `<a>`, and a backward step gives `<a><b>` at position 0 |
| Scenarios.LooseNameMatch | XML_Resources/Source.cpp:105 | `find("li")` on `<list>x</list><li>y</li>` stops at `<list>`: the name test is a substring test |
| Scenarios.InsertThenErase | XML_Resources/Source.cpp:159-177 | on `<a><b>x</b>`, `find("b")` gives `<b>`, `add("<c>", it)` gives `<a><c><b>x</b>`, and `erase(it)` then gives `<a><c>x</b>`, leaving the closing tag |
| Scenarios.FindLoopsOnTrailingText | XML_Resources/Source.cpp:104-108 | on `<a>` followed by a line break, no cursor of the walk stops `find("b")`, so its loop never ends |
| Scenarios.CorrectedFindEnds | XML_Resources/Source.cpp:104-108 | on the same text the corrected loop leaves at the second cursor, which is cleared at position 3 |
| Scenarios.CorrectedFindOnTrailingText | XML_Resources/Source.cpp:104-108 | the corrected `find` returns on that text, with a cleared element at position 3 |

## Left out

- `create` (`unique_ptr` allocation) and `main`'s console output and exit codes are not modelled. The scenario methods play the driver's part on concrete texts.
- File I/O: `Load` takes the file contents (or `None` when the file cannot be opened) as a parameter, and `Save` takes whether the file can be opened for writing and returns what is written. Exceptions are returned as an `Outcome` value instead of being thrown.
- XmlResources.XmlResource.Find: requires that its loop ends (`FindLoopEnds`), since Dafny cannot express a method that runs forever. On the inputs where the loop runs forever (see Findings), the model has no counterpart.
- Iterator copies: `find` returns, and `add`/`erase` take, the iterator by value. The model passes a reference and proves that `Add` and `Erase` leave its fields unchanged, which is what a copy gives.
- TagScan.NextFindsFirstSpan, TagScan.PrevFindsEnclosingSpan, TagScan.PrevAtStartWraps, TagScan.WalkStaysAfterFailure, TagScan.FindNeverStops, TagScan.CorrectionAgrees, XmlResources.XmlResource.FindFirstOrUnlocated, XmlResources.Iterator.Next, XmlResources.Iterator.Previous: their guarantees (for FindFirstOrUnlocated, its agreement with `Find`) assume the buffer is shorter than `npos`, which `std::string::max_size` ensures in practice.
- StdString.Substr, StdString.InsertAt, StdString.RemoveAt: require a start index within the string. The library throws `out_of_range` otherwise, but the code only ever passes indices it has just found.
- Characters: the code works on the bytes of a `std::string`; the model takes one `char` for one byte and never decodes or re-encodes text.
- Positions are unbounded naturals. A stale iterator whose position is past the end of a shortened buffer is allowed, as in the code. Only the two places where `size_t` wraps are modelled modulo 2^64.

## Findings

| source | as written | input that shows it | evidently intended | confidence | as-written member | corrected member |
|---|---|---|---|---|---|---|
| XML_Resources/Source.cpp:104-108 | `find` loops while `hasNext()` holds. A failed `next()` clears the element but keeps the position, so when text after the last `>` holds no further span, `hasNext()` stays true and the loop repeats the same failed step forever | buffer `"<a>\n"`, `find("b")` | the loop keeps its `hasNext()` test and also stops at a cleared element, as the display loop at line 154 does; where the loop already ends this changes nothing | not executed | Scenarios.FindLoopsOnTrailingText | XmlResources.XmlResource.FindFirstOrUnlocated |

Where the loop used to run forever, the corrected `find` returns a cleared cursor
with `hasNext()` still true, so the driver's test at line 161 needs an emptiness
check as well.
