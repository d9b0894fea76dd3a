# LineaOne document manager, modelled in Dafny

LineaOne is an editor for presentation timelines. A timeline document holds
an ordered list of dated events and some view state. The application keeps
several documents open at once, one per tab. This project models the
component that owns those documents, `DocumentManager`. The model covers:

- the collection of open documents, the current index, the index waiting for
  close confirmation, and the counter that numbers new documents;
- the two-step close protocol. `CloseDocumentWithCheck` either rejects the
  index, closes a saved document at once, or records an unsaved one as
  pending. `CloseDocument` then removes the pending document and repairs the
  current index;
- the bounds-checked slot replacement that commits a sorted document, plus
  saving and loading. File I/O is reduced to what the manager sees of it;
- the text serializer `SerializeDocument`, and a decoder for the text it
  writes that reads the same fields `DeserializeDocument` reads;
- the older `App` window class, which repeats the create and close logic
  on its own vector and closes without asking. The model relates it to the
  manager.

Every operation is a pure function from one state to the next. C++ integer
widths are written out where they matter:
- `static_cast<int32_t>` truncates, modelled by `Timeline.ToInt32`;
- an `int32_t` compared with a `size_t` is converted to unsigned, modelled by
  `Timeline.AsSizeT`, so an index of -1 counts as past the end;
- the `uint64_t` document counter wraps modulo 2^64.

Files:
- `timeline.dfy` (module `Timeline`): events, view state, documents, integer
  types and conversions, and the year-range scan of a new document.
- `decimal.dfy` (module `Decimal`): decimal text of integers as `std::format`
  writes them, and reading that text back.
- `codec.dfy` (module `Codec`): the serializer, the decoder, the round trip.
- `document_manager.dfy` (module `DocumentManager`): the manager.
- `gui_app.dfy` (module `GuiApp`): the older `App`, and how it agrees with the
  manager.

Inputs that the source gets from outside are parameters of the model:
- the build's version numbers, `Codec.Version`;
- whether the output file opened and whether the stream was still good,
  `DocumentManager.SaveIo`;
- whether the input file opened and the text it held,
  `DocumentManager.FileRead`;
- the year bounds of a default-constructed document, which
  `DeserializeDocument` does not assign. `document.h` is not part of this
  model.

## Model

| member | source | states |
|---|---|---|
| `Timeline.ToInt32` | src/document_manager.cpp:54 | the cast keeps every value that fits in 32 bits, and otherwise agrees with it modulo 2^32 |
| `Timeline.AsSizeT` | src/document_manager.cpp:66 | a non-negative index is compared as itself; a negative one becomes a huge unsigned value, so -1 is past the end of any real collection |
| `Timeline.YearRangeMeaning` | src/document_manager.cpp:39-51 | the min/max scan with its fallback gives (2000, 2000) for no events, and otherwise the least and greatest years that actually occur, provided some year is below INT_MAX |
| `Timeline.AllMaxYearsLookEmpty` | src/document_manager.cpp:48-51 | the fallback test cannot tell "no events" from "every year is INT_MAX": one event in year INT_MAX also gets the range (2000, 2000) |
| `Decimal.ParseNatRoundTrip` | src/document_manager.cpp:155 | an unsigned id written in decimal reads back as the same number |
| `Decimal.ParseIntRoundTrip` | src/document_manager.cpp:156 | a signed year, written with a leading '-' when negative, reads back as the same number |
| `Decimal.NatToStringInjective` | src/document_manager.cpp:36 | two numbers have the same decimal text exactly when they are equal |
| `Codec.DeserializeDocument` | src/document_manager.cpp:173-191 | a decoded document is always marked saved and has no path; its year bounds are the default-constructed ones and are not read from the text |
| `Codec.DecodeEventOf` | src/document_manager.cpp:153-162 | one event block reads back as its Id, Year, Headline, Description and Expanded, and the decoder resumes right after the block |
| `Codec.DecodeFieldsRoundTrip` | src/document_manager.cpp:140-191 | decoding the serializer's text gives back the name, zoom, offset and every event in order, whatever version was written, because the version is never checked |
| `Codec.SerializeRoundTrip` | src/document_manager.cpp:173-190 | deserializing what `SerializeDocument` wrote restores the name, zoom, offset and the whole event list, and sets saved |
| `Codec.QuoteInNameIsLost` | src/document_manager.cpp:141-142 | a name holding a quote does not survive: the field ends at the quote, so loading fails or yields a different name |
| `Codec.SerializeDocument` | src/document_manager.cpp:140-171 | the text opens with the Name key and the name verbatim, closed by a quote with no escaping, and always ends with the closing "  ]\n}\n" |
| `Codec.EventsJoined` | src/document_manager.cpp:153-168 | every block but the last is followed by ",\n" and then the next block, which opens with its Id key; the last block is followed by "\n" and the closing lines |
| `Codec.NumberTokenExamples` | src/document_manager.cpp:145-146 | the zoom and offset tokens follow the JSON number grammar: "1", "0", "-0.5" and "1e+10" are accepted; "", "+", "1.2.3", "01", "1.", "1e" and "inf" are refused, as the JSON parser refuses them |
| `DocumentManager.NewDocument` | src/document_manager.cpp:36-51 | a new document is named "New Document n", unsaved, without path or events, at zoom 1 and offset 0, with both year bounds at 2000 |
| `DocumentManager.NewDocumentEncodable` | src/document_manager.cpp:36-38 | a new document's name needs no escaping, and its zoom "1" and offset "0" are JSON numbers, so it survives a save and load |
| `DocumentManager.CreateNewDocument` | src/document_manager.cpp:34-55 | the counter is incremented first (mod 2^64), exactly one new document is appended under the new counter value, the others are kept, and the new last index becomes current |
| `DocumentManager.GetCurrentDocument` | src/document_manager.cpp:57-61 | there is a current document exactly when 0 <= current < size, and it is the document at that index |
| `DocumentManager.CloseDocument` | src/document_manager.cpp:63-71 | a negative pending index changes nothing. Otherwise exactly that document is removed and the others keep their order. A current index at or past the new end, or -1, becomes size-1 (-1 when empty); any other current index keeps its number. The pending index stays as it was |
| `DocumentManager.CloseDocumentWithCheck` | src/document_manager.cpp:73-84 | an index out of range changes nothing and reports "invalid". An unsaved document is only recorded as pending and reported with its index. A saved document is removed at once and reported "closed" |
| `DocumentManager.OutcomeCodeMeaning` | headers/document_manager.h:38 | the int32 result is -2 for "invalid", -1 for "closed", and otherwise the non-negative index passed in, which is then a valid pending index for `CloseDocument` |
| `DocumentManager.SettersAndValid` | src/document_manager.cpp:100-106 | the setters store any index unchecked and change nothing else; they keep the index invariant only when given -1 <= index < size, and a pending index suits `CloseDocument` only below the size |
| `DocumentManager.SetDocOnIndex` | src/document_manager.cpp:108-112 | an in-range slot is replaced and no other; out of range nothing changes; count and indices never change |
| `DocumentManager.SaveDocument` | src/document_manager.cpp:114-128 | no-op without a current document, when it is saved already, or without a path. When the file opens, the serialized current document is written to its path. `saved` becomes true only if the stream is still good, and no other document changes |
| `DocumentManager.LoadDocument` | src/document_manager.cpp:130-138 | an unopenable file is silently ignored. A parse failure leaves the manager as it was. Otherwise exactly one document is appended: the decoded document, saved, with its path set to the given one. The current index never changes |
| `DocumentManager.FreshIsValid` | headers/document_manager.h:53-56 | a fresh manager has no documents, current and pending -1, counter 0, so its first document is "New Document 1" |
| `DocumentManager.CreatePreservesValid` | src/document_manager.cpp:53-54 | after a create the current index names the new last document, so -1 <= current < size holds, and current is -1 exactly when empty |
| `DocumentManager.CloseDocumentPreservesValid` | src/document_manager.cpp:63-71 | committing a close keeps -1 <= current < size, and keeps "-1 exactly when empty" when it held before |
| `DocumentManager.CheckedClosePreservesValid` | src/document_manager.cpp:73-84 | a checked close keeps both the invariant and "-1 exactly when empty" |
| `DocumentManager.SetDocOnIndexPreservesValid` | src/document_manager.cpp:108-112 | slot replacement keeps the invariant and the close-call rule |
| `DocumentManager.SavePreservesValid` | src/document_manager.cpp:114-128 | saving keeps the invariant |
| `DocumentManager.LoadPreservesValid` | src/document_manager.cpp:130-138 | loading keeps -1 <= current < size |
| `DocumentManager.LoadBreaksSelected` | src/document_manager.cpp:130-138 | loading the text of a serialized document into a fresh manager leaves one document and current -1, so there is no current document: "current is -1 exactly when empty" does not hold in general |
| `DocumentManager.EarlierCloseMovesSelection` | src/document_manager.cpp:66-69 | closing a document before the current one, when current is not the last, keeps the number, so the selection moves on to the following document |
| `DocumentManager.PendingIndexGoesStale` | headers/document_manager.h:36-37 | the pending index is not reset: after the last document is closed it names no document, and a second `CloseDocument` breaks the call-order rule |
| `DocumentManager.ConfirmedCloseRemoves` | src/document_manager.cpp:73-77 | for an unsaved document, the check followed by the commit removes exactly that document |
| `DocumentManager.CreateCount` | src/document_manager.cpp:34-55 | k creations from fresh give k documents, counter k, the last one current, and current -1 exactly when empty |
| `DocumentManager.CreateNumbering` | src/document_manager.cpp:35-36 | the j-th document created from fresh is the new document numbered j+1 |
| `DocumentManager.CreatedNamesDistinct` | src/document_manager.cpp:35-36 | documents created from fresh never share a name |
| `DocumentManager.TwoDocumentScenario` | src/document_manager.cpp:63-84 | two new documents, the first selected and closed: the check asks for confirmation and keeps both; the commit leaves "New Document 2" at index 0, selected |
| `DocumentManager.SaveThenLoad` | src/document_manager.cpp:114-138 | a document saved to its path and loaded back from the text written returns with its name, events, zoom, offset and path, marked saved |
| `GuiApp.Create` | src/gui/app.cpp:265-271 | the name uses the counter before its post-increment, exactly one document is appended, and the new last index becomes current |
| `GuiApp.Close` | src/gui/app.cpp:273-280 | an index out of range changes nothing. Otherwise exactly that document goes, the rest keep their order, and current is pulled back to size-1 (or -1) when at or past the end, -1 included; else it is kept |
| `GuiApp.CloseCurrentGuardIsRedundant` | src/gui/app.cpp:145-148 | the menu's (and Ctrl+W's) range guard before closing the current document does nothing `Close` would not do anyway |
| `GuiApp.CreatePreservesValid` | src/gui/app.cpp:269-270 | after a create, -1 <= current < size holds with current at the new last index |
| `GuiApp.ClosePreservesValid` | src/gui/app.cpp:276-278 | a close keeps -1 <= current < size and "-1 exactly when empty" |
| `GuiApp.ConsecutiveNames` | src/gui/app.cpp:267 | two creations are named with consecutive numbers and the names differ |
| `GuiApp.FreshCorresponds` | headers/gui/app.h:66-69 | the App starts with its counter at 1 where the manager starts at 0, so both name their first document "New Document 1" |
| `GuiApp.CreateAgrees` | src/gui/app.cpp:265-271 | creating a document in the App and in the manager gives the same names, current index and numbering |
| `GuiApp.CloseAgrees` | src/gui/app.cpp:273-280 | for every index, the manager's checked close, committed when it asks for confirmation, leaves the same names and current index as the App's immediate close |

## Left out

- The background sort (`StartSort`, `IsSorting`) is not part of this model: its implementation is not among the modelled files. Only its commit step, `SetDocOnIndex`, is modelled.
- `GetCurrentDocumentIndex` and `GetDocToClose` only read a field. `DocumentSize` returns `static_cast<int32_t>` of the vector's size. In the model these are the fields of `DocumentManager.Manager`. The bound `|documents| <= MaxDocuments` in `DocumentManager.Valid` keeps that cast exact.
- `GetSpecificDocument` returns a mutable reference and indexes with no bounds check. `GetCurrentDocument` returns a mutable pointer. Callers write through both: the dialog's Save button sets `saved`, and event editing and sorting change the current document in place. The model's `GetCurrentDocument` returns a copy. Those in-place writes are left out, except the sort's commit, which is modelled as `SetDocOnIndex` on that slot. The unchecked indexing of `GetSpecificDocument` is not modelled.
- Real file I/O is reduced to the inputs `SaveIo` and `FileRead`. The bytes that reach the disk on a failed write are not modelled.
- The nlohmann JSON parser is not modelled. The decoder accepts the serializer's layout, with numbers following the JSON number grammar. It does not accept JSON in general: other whitespace, other key order and escape sequences are outside the model.
- Numbers in a loaded file that do not fit the field (an Id outside 64 bits, a Year outside 32 bits) are rejected by the decoder. nlohmann::json would convert them with a cast instead. The serializer never writes such numbers.
- Floats (zoom, offset) are opaque tokens. A float the program computes is the shortest text `std::format` prints for it. Float arithmetic, the zoom clamp and the pixel mapping are presentation code.
- A loaded zoom or offset keeps its text as written in the file. The source parses it into a `float`, so its next save prints the value in shortest form: "1.0" is loaded as the text "1.0" but saved again as "1". Text the serializer wrote is already in that form, so the round trip is unaffected.
- DocumentManager.LoadDocument: the decoder accepts a zoom or offset token beyond the range of a double, such as "1e999". nlohmann::json::parse throws on it ("number overflow parsing"), so the source's `LoadDocument` appends nothing where the model appends a document. A token that fits a double but not a `float`, such as "1e39", is cast to `float` by the source, while the model keeps its text. The model has no float values, so it cannot check either range. The serializer writes only finite float values and so never produces either kind of token.
- Text fields (name, path, headline, description) are sequences of Unicode characters, each standing for its UTF-8 bytes. The source stores bytes in `std::string`. A byte string that is not valid UTF-8 cannot be represented in the model; nlohmann::json would refuse it on load. The code in this model never produces such a string.
- Codec.SerializeRoundTrip: holds only for names, headlines and descriptions with no quote, backslash or control character, and for zoom and offset texts that are JSON numbers. The serializer escapes nothing, so other text does not survive. `Codec.QuoteInNameIsLost` shows the quote case. The real parser would reject a raw control character.
- DocumentManager.CloseDocument: requires that the pending index is negative or below the size. Erasing at a larger index is undefined behaviour in the source, which documents that the call must follow `CloseDocumentWithCheck`.
- DocumentManager.SaveDocument: requires the current index to be below the size. The source reads `documents_[current_document_]` with no upper-bound check.
- DocumentManager.CreateNewDocument: the promise "current is the new last index" is stated only while the count fits in an int32. Beyond that the model still computes the source's truncating cast.
- DocumentManager.CreateNumbering: stated for fewer than INT32_MAX creations, so the 64-bit counter never wraps.
- GuiApp.Create: requires a counter below INT_MAX, because incrementing a signed `int` past it is undefined behaviour.
- In the App, a document is only its name: nothing in `App` reads or writes any other field.
- The "Save" button of the unsaved-changes dialog, the tab bar, the menus, shortcuts, rendering, SVG export and icon code are presentation, over libraries outside the model.

## Notes on the source

- `SetCurrentDocumentIndex` and `SetDocToClose` store any int32 with no check (src/document_manager.cpp:100-106).
- `LoadDocument` of a file that cannot be opened returns silently. No I/O error reaches the caller.
- `LoadDocument` does not select the loaded document, so a manager can hold documents while its current index is -1.
