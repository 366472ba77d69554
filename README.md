# promise-reporter, modelled in Dafny

`PromiseReporter` is a readable stream that shows the progress of a set of
named promises in a terminal. Each redrawn frame:

- lists the settled promises first: a green tick and the name, or a red
  cross, the name and the error message;
- then, only when both groups are non-empty, a blank line;
- then the pending promises, each with a cyan spinner glyph before its name;
- starts with the escape sequence that erases the previous frame's lines.

Callers register promises with `add`. They call `end` once no more will
come. Once `end` has been called and nothing is pending, the next frame
pushed is followed by end-of-stream; when the loop is idle, that frame is
only pushed after the consumer pulls again.

This model covers the whole `index.js`:

- **`Text`**: `Array.prototype.join` and `String.prototype.split` with a
  one-character separator, with their round-trip and length laws.
- **`Tasks`**: the item records and `removeFromArray`. It also holds the
  registry invariant over the pending and settled lists:
  - every item created so far is in exactly one list;
  - pending items are in registration order;
  - settled items have a terminal status.

  Item identity is a number handed out in creation order.
- **`Frame`**: the pure text of one frame, and how many lines it splits into.
- **`Spinner`**: choosing the spinner definition, rejecting one whose `frames`
  property is missing or falsy (an empty array is accepted), and the glyph clock (a class with the captured counter).
- **`Reporter`**: the `PromiseReporter` class with the fields the source
  updates in place, and the constructor, `add`, the `update` closure,
  `_renderFrame`, `_read`, `pushFrame` and `end`.
  - The stream is modelled as the log of pushed chunks (`output`).
  - The consumer's answer to each push is a boolean input.
  - An outstanding `setTimeout` is a flag; its callback is `Tick`.
- **`Wrappers`**: the `Option` and `Result` datatypes.

`chalk`, `figures` and `ansi-escapes` become parameters:

- colours are open/close strings (empty when colour is off);
- the tick and cross glyphs are strings;
- `eraseLines` is a function of the line count.

The spinner table and the platform default spinner are inputs of `Create`.

## Model

| member | source | states |
|---|---|---|
| Text.Split | index.js:79 | splitting always yields at least one piece, and no piece contains the separator |
| Text.Count | index.js:79 | the separator count is at most the length, and it is zero exactly when the separator is absent |
| Text.Join | index.js:76 | joining no parts gives the empty string, and a join always starts with its first part |
| Text.SplitLength | index.js:79 | a string splits into one more piece than it has separators, so the stored line count is the newline count plus one |
| Text.SplitFree | index.js:79 | a string without the separator splits into itself alone |
| Text.SplitAround | index.js:76-79 | splitting distributes over one separator occurrence |
| Text.SplitJoin | index.js:76-79 | splitting a newline-join of newline-free lines gives back exactly those lines |
| Text.JoinSplit | index.js:76-79 | joining the pieces of any split with the separator rebuilds the original string |
| Tasks.Stamp | index.js:49-51 | the status `update` records is never pending; it is resolved exactly for a fulfilled promise, and a rejected status carries the rejection's error |
| Tasks.IndexOf | index.js:44 | `indexOf` returns the first position holding the item, and -1 exactly when the item is absent |
| Tasks.WithoutMembers | index.js:44 | the filtered list keeps exactly the elements whose identity differs |
| Tasks.WithoutAbsent | index.js:44 | removing an identity that is not present leaves the list unchanged |
| Tasks.RemoveFromArray | index.js:44 | an absent item leaves the list unchanged; otherwise the list loses exactly one element, that item, and keeps the rest as a multiset |
| Tasks.RemoveIsWithout | index.js:44 | on a list whose identities increase (registration order), `removeFromArray` drops exactly the removed item and keeps the others in order |
| Tasks.WithoutIncreasing | index.js:43-47 | removing an item keeps the pending list in registration order |
| Tasks.IdBag | index.js:39-47 | the multiset of identities has one entry per list element |
| Tasks.IdBagConcat | index.js:41-46 | the identities of a concatenation are those of its parts |
| Tasks.IdBagHas | index.js:39-47 | an identity occurs in the bag exactly when some element of the list carries it |
| Tasks.RemoveBag | index.js:44 | splicing out one position takes exactly that element's identity out of the bag |
| Tasks.RangeCount | index.js:39-41 | each identity below the creation count has been handed out exactly once, and no other |
| Tasks.ExactlyOneList | index.js:39-47 | under the registry invariant, every item created so far is in exactly one of the pending and settled lists, and no other identity is in either |
| Tasks.AddKeepsRegistry | index.js:39-41 | appending a fresh pending item with the next identity preserves the registry invariant |
| Tasks.SettleKeepsRegistry | index.js:43-47 | moving a pending item, with a terminal status, from the pending list to the end of the settled list preserves the registry invariant |
| Frame.Paint | index.js:64-71 | a coloured text is the text itself, unchanged, between the colour's opening and closing sequences (the model of a colour as one open/close pair) |
| Frame.SettledLine | index.js:63-67 | a settled line is green for a resolved item and red for a rejected one; a resolved line shows a space, the tick, a space and the name; a rejected line shows a space, the cross, a space, the name, " - " and the error message |
| Frame.PendingLine | index.js:71 | a pending line is cyan and shows a space, the frame's glyph, a space and the name |
| Frame.Separator | index.js:74 | the separator is a blank line (two newlines) exactly when both groups are non-empty, and empty otherwise |
| Frame.SettledLines | index.js:62-68 | one line per settled item, in list order, each a tick line or a cross line according to its status |
| Frame.PendingLines | index.js:70-72 | one spinner line per pending item, in list order, all showing the same glyph |
| Frame.RenderText | index.js:74-76 | every frame's text is non-empty and ends in a newline |
| Frame.SplitLayout | index.js:74-79 | the frame text splits into the settled lines, a blank line only when both groups are non-empty, the pending lines, and a final empty piece (two empty pieces for an empty frame) |
| Frame.RenderedLines | index.js:62-79 | with newline-free names, messages, glyph and styles, the frame's lines are exactly the settled item lines, then an empty line only when both groups are non-empty, then the pending item lines, then a final empty piece (two empty pieces for an empty frame) |
| Frame.LineCount | index.js:74-79 | the stored line count is one more than the frame's newline count: settled+pending+2 when both are non-empty, else the one non-empty group's size plus one, else 2 |
| Frame.EmptyFrameText | index.js:74-76 | with no items at all a frame is a single newline |
| Frame.SettledOnlyText | index.js:74-76 | with nothing pending a frame is the settled lines without a blank separator |
| Frame.PendingOnlyText | index.js:74-76 | with nothing settled a frame is the pending lines without a blank separator |
| Frame.OnePendingText | index.js:70-76 | one pending task renders as its spinner line and a newline |
| Frame.TwoSettledText | index.js:62-76 | two settled tasks render as their two lines in settlement order, each ending in a newline |
| Frame.SettledLinesNewlineFree | index.js:62-68 | newline-free names, messages and styles give newline-free settled lines |
| Frame.PendingLinesNewlineFree | index.js:70-72 | a newline-free glyph, names and styles give newline-free pending lines |
| Frame.FailureLineShowsReason | index.js:66 | a rejected task's line contains its name, " - " and the error message |
| Frame.SuccessLineShowsName | index.js:64 | a resolved task's line contains the tick glyph followed by its name |
| Spinner.Choose | index.js:14-16 | a spinner object is used as given, a name found in the table selects that entry, and anything else falls back to the platform default |
| Spinner.Interval | index.js:28 | the interval is never zero: a missing or zero interval becomes 50 ms, and any other value is kept |
| Spinner.Resolve | index.js:14-18 | set-up fails exactly when the chosen definition has no `frames` property (missing or falsy; an empty array is accepted); otherwise the clock uses that definition's frames and its interval (default 50) |
| Spinner.FrameAt | index.js:27 | after a given number of calls the glyph is the frame at that count modulo the frame count, hence one of the frames; with an empty frames array it is the text "undefined" |
| Spinner.FrameCycle | index.js:27 | the spinner is periodic: one full round of calls brings back the same glyph |
| Spinner.SpinnerClock.constructor | index.js:24-30 | the clock starts with counter 0 over the resolved frames and interval |
| Spinner.SpinnerClock.Frame | index.js:27 | each call increments the counter first and then shows the glyph for the new count |
| Reporter.Create | index.js:14-31 | construction throws exactly when the chosen spinner has no `frames` property (missing or falsy; an empty array is accepted); otherwise it yields an idle reporter with empty lists, nothing pushed, line count 0, no item created yet, and a new spinner whose counter is 0 over the resolved frames and interval, with the given colours and erase function |
| Reporter.PromiseReporter.constructor | index.js:20-31 | a fresh reporter has empty lists, is neither running nor ended, has line count 0, and satisfies the invariant |
| Reporter.PromiseReporter.OneListEach | index.js:39-47 | every item added so far is in exactly one of the two lists, and the two lists' lengths sum to the number added |
| Reporter.PromiseReporter.Add | index.js:34-57 | after `end()` it fails and changes nothing; otherwise it appends one new pending item, with the given name and promise, to the end of the pending list, returns the promise and keeps the invariant |
| Reporter.PromiseReporter.Register | index.js:39-41 | a new item record with a fresh identity is appended to the pending list and the invariant still holds |
| Reporter.PromiseReporter.Settle | index.js:43-47 | the settling item leaves the pending list and the others keep their order; it is appended to the settled list with its terminal status; the total number of items is unchanged; the invariant holds |
| Reporter.PromiseReporter.RenderFrame | index.js:59-82 | the spinner advances once, and the bytes are the erase sequence for the previous frame's line count followed by the frame text for that one glyph; the frame's line count is stored |
| Reporter.PromiseReporter.Push | index.js:90-98 | the frame is pushed; then end-of-stream follows exactly when nothing is pending and `end()` was called, else a tick is scheduled exactly when the consumer wants more, else the loop stops running |
| Reporter.PromiseReporter.PushFrame | index.js:89-99 | one rendered frame is pushed with the next glyph, followed by the end/schedule/stop decision; end-of-stream is only ever the last chunk |
| Reporter.PromiseReporter.Read | index.js:84-102 | while the loop is running nothing changes, and an ended stream gets no more chunks; otherwise the loop starts and pushes one frame at once |
| Reporter.PromiseReporter.Tick | index.js:95 | the scheduled timer pushes the next frame and makes the same decision again |
| Reporter.PromiseReporter.End | index.js:104-106 | marks that no more promises may be added, and keeps the invariant |

## Left out

- The `Readable` base class is not modelled: its buffering, `highWaterMark` and piping. Pushed chunks are an append-only log, and the consumer's back-pressure answer is an input.
- `setTimeout` timing is not modelled. A scheduled timer is a flag, and `Tick` is its callback, run whenever the environment fires it. The interval is only stored.
- Promise scheduling is not modelled. When a promise settles is the caller's choice: `Settle` is called with the item's identity and the outcome.
- The `.catch` that re-emits an exception thrown inside `update` as an `'error'` event (index.js:52-54) is not modelled. In the model `update` cannot throw.
- chalk's colour-level detection, its handling of nested styles, and its re-opening of colour around line breaks inside the text are out. The last only matters for names or messages that contain a newline, which `Frame.LineCount` already excludes. Each colour is an opaque pair of open and close strings.
- `figures`' per-platform glyphs and the `process.platform` test (index.js:15) are out. The glyphs are `Style` strings, and the default spinner is a parameter of `Create`.
- The contents of the `cli-spinners` table are out. The table is a parameter.
- `ansiEscapes.eraseLines` is out. It is an uninterpreted function of the line count.
- Reporter.PromiseReporter.Settle: requires the item to be pending. `update` runs once, while its item is pending, because a promise settles once. Calling it on an item that is not pending, where `removeFromArray` would change nothing, is not modelled.
- Tasks.Stamp: models only the `message` of a rejection value, as a string. In the source a rejection value without a `message` (a string, or `{}`) renders as the text "undefined", and a `null` or `undefined` rejection throws a TypeError while rendering; neither case is modelled. The source also reads `err.message` from the caller's error object at every render (index.js:66), so a later change to that object shows up in later frames; the model keeps the message captured when the item settles, and this aliasing is not modelled.
- Spinner.Interval: models only numeric intervals, where zero (or a missing interval) means 50. JavaScript's other falsy values (`NaN`, `''`) are not modelled.
- Spinner.FrameAt: does not model JavaScript number precision. The counter `i` is unbounded here, while in the source it loses precision after 2^53 calls. Frames are strings, so non-string elements and their template-literal rendering are not modelled.
- The promise itself is an opaque handle, and `add` stores it and hands it back. The `promise.then` call is not modelled. For a value without a `then` method that call throws after the item was already appended (index.js:41, 49), so in the source the item stays pending for ever. `Add` always succeeds once `end()` has not been called.
- Spinner.SpinnerClock: the chosen spinner's frames are copied when the reporter is built. In the source `frame()` reads `spinner.frames` from the caller's object on every call (index.js:16, 27), so later changes to that object show up in later frames. This aliasing is not modelled.
- The `example.js` demo script is not part of this model.
