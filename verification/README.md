# Saved-replies picker: a Dafny model

This project models the logic behind the saved-replies picker of the markdown
editor toolbar (`src/drafts/MarkdownEditor/_SavedReplies.tsx`). The host
supplies a list of saved replies. Each reply has a name and a content. The
picker shows a panel that lists the replies whose name contains the typed
filter, ignoring case. The first nine items show a `Ctrl + n` hint. Ctrl with a
digit 1..9 picks an item of the filtered list. Picking an item closes the panel
and hands a reply to the host's `onSelect` callback.

Layout:

- `js_string.dfy`: module `Maybe` (an `Option` that stands for `undefined`).
  Module `JsString` holds the JavaScript primitives the picker uses:
  `toLowerCase` on ASCII letters, `includes`, the decimal `toString` of a
  non-negative integer, and `parseInt(s, 10)`. `Lower` is tied to a
  character-wise case equivalence (`LowerEqualIff`), `Includes` to a positional
  definition (`IncludesIffOccurs`), `Decimal` to its inverse `DigitsValue`, and
  `ParseInt10` to the signed, padded numerals it reads back.
- `saved_replies.dfy`: module `SavedReplies`. It holds the data model
  (`SavedReply`, `Item`, `Context`, `State`, `Outcome`), item derivation, the
  open/filter state updates, selection, the keyboard shortcut, a `Step`
  function over all input events with `Run` over event sequences, and the
  render decision.
- `saved_replies_examples.dfy`: module `SavedRepliesExamples`, concrete runs on
  the list Thanks / Ship it / WIP.

Modelling choices:

- React state updates are immediate, sequential transitions on an immutable
  `State(open, filter)`. The effect that clears the filter when `open` changes
  is folded into `SetOpen`. Setting `open` to the value it already has is a
  no-op, because React bails out and the effect's dependency is unchanged.
- The `onSelect` callback is an output: `Outcome.selected` is the reply it
  receives, if any. `Outcome.consumed` records the calls to
  `stopPropagation` and `preventDefault`.
- A missing context is `None`. Then `items` is undefined, nothing is rendered,
  and the `openMenu` handle is not installed. `Step` is therefore the identity.
- In JavaScript an empty array is truthy, so the key handler's `items` test only
  checks that a context exists. Ctrl+1 over an empty filtered list is still
  consumed, and it closes the panel.

Three behaviours of the code are easy to miss:

- A shortcut past the end of the filtered list is not a no-op. `onSelectItem`
  closes the panel (line 105) before it looks up the reply (line 106). Its
  argument is then undefined, so no reply is found. See
  `KeyDownOutOfRangeCloses` and `CtrlFiveOfThreeCloses`.
- The filter is cleared on every change of `open` (line 77): on opening and on
  closing alike.
- Nothing in the code makes names unique: `find` (line 106) hands over the
  first reply of the full, unfiltered list with the chosen name. See
  `DuplicateNameSelectsFirst`.

## Model

| member | source | states |
|---|---|---|
| `JsString.IncludesIffOccurs` | src/drafts/MarkdownEditor/_SavedReplies.tsx:83 | `includes` holds exactly when the substring occupies some position of the string, in both directions. |
| `JsString.LowerEqualIff` | src/drafts/MarkdownEditor/_SavedReplies.tsx:83 | Two strings lowercase to the same string iff they have the same length and agree position by position up to the case of ASCII letters. |
| `JsString.DecimalRoundTrip` | src/drafts/MarkdownEditor/_SavedReplies.tsx:100 | Reading back the decimal numeral that `toString` gives a non-negative integer yields that integer. |
| `JsString.DecimalInjective` | src/drafts/MarkdownEditor/_SavedReplies.tsx:100 | Two numerals are equal iff the numbers are, so `i.toString()` ids cannot collide. |
| `JsString.ParseInt10` | src/drafts/MarkdownEditor/_SavedReplies.tsx:111 | `parseInt(key, 10)` is NaN exactly when no digit follows the leading white space and optional sign. A non-zero result is negative exactly when the sign is `-`. |
| `JsString.ParseIntOfDecimal` | src/drafts/MarkdownEditor/_SavedReplies.tsx:111 | `parseInt` returns `n` for the numeral of `n` followed by nothing or by a non-digit, so the key "2" parses to 2. |
| `JsString.TrimStartDropsWhiteSpace` | src/drafts/MarkdownEditor/_SavedReplies.tsx:111 | The prefix `parseInt` skips before the sign and digits consists of white space only. |
| `JsString.TrimStartSkipsWhiteSpace` | src/drafts/MarkdownEditor/_SavedReplies.tsx:111 | Skipping the leading white space of white space followed by `t` leaves what skipping it in `t` alone leaves. |
| `JsString.ParseIntSkipsWhiteSpace` | src/drafts/MarkdownEditor/_SavedReplies.tsx:111 | Leading white space does not change the result: `parseInt` of white space followed by `t` equals `parseInt` of `t`, for every `t`. |
| `JsString.ParseIntOfSignedDigits` | src/drafts/MarkdownEditor/_SavedReplies.tsx:111 | White space, an optional `+` or `-`, a digit run (leading zeros allowed) and a tail that does not start with a digit parse to the run's value, negated exactly for `-`. |
| `JsString.ParseIntOfSignedDecimal` | src/drafts/MarkdownEditor/_SavedReplies.tsx:111 | The numeral of any `n`, padded with white space and an optional sign and followed by a non-digit, parses to `n` or `-n`. |
| `JsString.ParseIntOfWord` | src/drafts/MarkdownEditor/_SavedReplies.tsx:111-112 | A key that begins with a letter, such as "Enter" or "F1", parses to NaN and fails the shortcut test. |
| `SavedReplies.FilterReplies` | src/drafts/MarkdownEditor/_SavedReplies.tsx:82-83 | Every kept reply is one of the saved replies and its lowercased name includes the lowercased filter. The result is no longer than the input. |
| `SavedReplies.FilterIsOrderedSubsequence` | src/drafts/MarkdownEditor/_SavedReplies.tsx:82-83 | The filtered list is the subsequence of the replies at strictly increasing positions. A position is among them iff its reply matches, so nothing is dropped, added or reordered. |
| `SavedReplies.FilterAtKeptIndices` | src/drafts/MarkdownEditor/_SavedReplies.tsx:83 | The `k`-th kept reply is the reply at the `k`-th kept position, and there are as many kept replies as kept positions. |
| `SavedReplies.KeptIndicesIncreasing` | src/drafts/MarkdownEditor/_SavedReplies.tsx:83 | Kept positions are listed in strictly increasing order, so the filter never reorders. |
| `SavedReplies.KeptIndicesComplete` | src/drafts/MarkdownEditor/_SavedReplies.tsx:83 | A position is kept iff its reply's lowercased name includes the lowercased filter. |
| `SavedReplies.ItemsMirrorMatchingReplies` | src/drafts/MarkdownEditor/_SavedReplies.tsx:82-102 | Item `k` shows the name and the content of the `k`-th matching reply, in source order, and every matching reply has an item. |
| `SavedReplies.EmptyFilterKeepsAll` | src/drafts/MarkdownEditor/_SavedReplies.tsx:83 | With the empty filter the filtered list is the whole reply list, unchanged. |
| `SavedReplies.EmptyFilterShowsAll` | src/drafts/MarkdownEditor/_SavedReplies.tsx:82-102 | With the empty filter there are exactly as many items as replies, and item `i` shows reply `i`. |
| `SavedReplies.ItemIdsDistinct` | src/drafts/MarkdownEditor/_SavedReplies.tsx:84-101 | Every item asks for the inline description layout. Its id reads back as its position, so ids are pairwise distinct within one derivation. |
| `SavedReplies.ShortcutLabels` | src/drafts/MarkdownEditor/_SavedReplies.tsx:89 | Item `i` has a trailing label iff `i < 9`, and that label is exactly `"Ctrl + "` followed by the numeral of `i+1`. |
| `SavedReplies.LabelledCountIsMinNine` | src/drafts/MarkdownEditor/_SavedReplies.tsx:89 | A list labelled exactly below position 9 has `min(9, length)` labelled items. |
| `SavedReplies.DerivedLabelCount` | src/drafts/MarkdownEditor/_SavedReplies.tsx:82-102 | Exactly `min(9, number of items)` derived items carry a shortcut label. |
| `SavedReplies.DeriveItems` | src/drafts/MarkdownEditor/_SavedReplies.tsx:82 | Items exist iff a context exists, and there are never more items than saved replies. |
| `SavedReplies.SetOpen` | src/drafts/MarkdownEditor/_SavedReplies.tsx:76-77 | `open` takes the requested value. An actual change clears the filter, whether opening or closing. Setting the current value changes nothing. |
| `SavedReplies.SetFilter` | src/drafts/MarkdownEditor/_SavedReplies.tsx:133-134 | A filter change replaces the filter and leaves `open` alone. |
| `SavedReplies.OpenMenu` | src/drafts/MarkdownEditor/_SavedReplies.tsx:70-77 | The `openMenu` handle always leaves the panel open. Opening a closed panel starts with an empty filter. On a panel that is already open it changes nothing, filter included. |
| `SavedReplies.FirstIndexNamed` | src/drafts/MarkdownEditor/_SavedReplies.tsx:106 | The lookup returns the least position whose reply has the given name. It returns nothing iff no reply has that name. |
| `SavedReplies.OnSelectItem` | src/drafts/MarkdownEditor/_SavedReplies.tsx:104-108 | The panel always ends closed. A reply is selected iff there is a context, an item, and a reply named as the item's text. That reply is the first such reply of the full list. |
| `SavedReplies.SelectingItemPicksItsReply` | src/drafts/MarkdownEditor/_SavedReplies.tsx:104-108 | Choosing item `k` of the filtered list closes the panel and always selects a reply with the name of the `k`-th kept reply. With unique names that reply is exactly the `k`-th kept reply. |
| `SavedReplies.SelectedItem` | src/drafts/MarkdownEditor/_SavedReplies.tsx:137-139 | A panel selection yields an item iff it is a single item or a non-empty array. A single item is passed on as it is; for an array, its first element is passed on. |
| `SavedReplies.ShortcutIndex` | src/drafts/MarkdownEditor/_SavedReplies.tsx:111-112 | A key addresses a position iff `parseInt` gives an integer in 1..9. The position is that integer minus one. |
| `SavedReplies.ShortcutIndexOfKey` | src/drafts/MarkdownEditor/_SavedReplies.tsx:111-112 | Any key made of white space, an optional `+`, a digit run of value `d` in 1..9 (leading zeros allowed) and a non-digit tail addresses position `d-1`, just as the bare digit does. |
| `SavedReplies.KeyDown` | src/drafts/MarkdownEditor/_SavedReplies.tsx:110-117 | The event is consumed iff there is a context, Ctrl is held and the key parses to 1..9. A consumed event closes the panel, with the same state update as `onSelectItem`'s `setOpen(false)`. Any other event leaves state and selection untouched. |
| `SavedReplies.KeyDownSelectsShortcut` | src/drafts/MarkdownEditor/_SavedReplies.tsx:110-117 | Ctrl plus any key that parses to `d` in 1..9, within range, selects item `d-1` of the filtered list. The reply handed over bears that item's name and is the first such reply of the full list. The panel closes. |
| `SavedReplies.KeyDownOutOfRangeCloses` | src/drafts/MarkdownEditor/_SavedReplies.tsx:104-117 | Ctrl plus any key that parses to `d` in 1..9, past the end of the filtered list, is consumed and closes the panel, selecting nothing. |
| `SavedReplies.KeyDownPassesThrough` | src/drafts/MarkdownEditor/_SavedReplies.tsx:110-117 | Without a context, without Ctrl, or with a key outside 1..9, the event is not consumed and nothing changes. |
| `SavedReplies.DuplicateNameSelectsFirst` | src/drafts/MarkdownEditor/_SavedReplies.tsx:106 | For the replies Hi/first and Hi/second, with no filter, Ctrl+2 picks the second item yet hands Hi/first to `onSelect`. |
| `SavedReplies.Step` | src/drafts/MarkdownEditor/_SavedReplies.tsx:119-150 | Without a context no event has any effect. With one, each event reaches its handler: the `openMenu` handle gives `OpenMenu`, `onOpenChange` gives `SetOpen` with the requested value, `onFilterChange` gives `SetFilter`, `onKeyDown` gives `KeyDown`, and `onSelectedChange` gives `onSelectItem` of the selected item. Any change of `open` clears the filter. A selection leaves the panel closed and is one of the saved replies. Only key presses are consumed. |
| `SavedReplies.RunSelectsOnlySavedReplies` | src/drafts/MarkdownEditor/_SavedReplies.tsx:104-108 | Over any sequence of events, every reply handed to `onSelect` is one of the context's saved replies. |
| `SavedReplies.RunWithoutContextIsInert` | src/drafts/MarkdownEditor/_SavedReplies.tsx:70-74 | Without a context, no sequence of events changes the state or selects anything, because the handle is not installed and no panel is rendered. |
| `SavedReplies.Render` | src/drafts/MarkdownEditor/_SavedReplies.tsx:119-150 | The panel is rendered iff there is a context. It shows the current `open` flag, the current filter, and exactly the derived items, never more than there are replies. |
| `SavedReplies.RenderShowsMatchingReplies` | src/drafts/MarkdownEditor/_SavedReplies.tsx:82-131 | The rendered panel lists one item per matching reply, in source order, with that reply's name and content. A reply is listed iff it matches the filter, and exactly the first nine items carry a shortcut label. |
| `SavedRepliesExamples.FilterThKeepsThanks` | src/drafts/MarkdownEditor/_SavedReplies.tsx:82-102 | Filter "th" over Thanks / Ship it / WIP gives the single item "Thanks", labelled "Ctrl + 1", with id "0". |
| `SavedRepliesExamples.CtrlTwoSelectsShipIt` | src/drafts/MarkdownEditor/_SavedReplies.tsx:110-117 | With no filter, Ctrl+2 consumes the event, hands "Ship it" to `onSelect` and closes the panel. |
| `SavedRepliesExamples.CtrlFiveOfThreeCloses` | src/drafts/MarkdownEditor/_SavedReplies.tsx:104-117 | Ctrl+5 with three visible items selects nothing, but it is consumed and the panel closes. |
| `SavedRepliesExamples.PaddedKeyAddressesThirdItem` | src/drafts/MarkdownEditor/_SavedReplies.tsx:111-112 | The key " +03" addresses the third item, as "3" does. |
| `SavedRepliesExamples.ReopenClearsFilter` | src/drafts/MarkdownEditor/_SavedReplies.tsx:70-79 | Open, type, close, open again: the panel is open with an empty filter and nothing was selected. |

## Left out

- `renderFn`, the `sx` styling, the anchor button, icons and aria attributes (lines 39-65, 90-99, 121-128, 135-136, 141-146) are presentation only.
- The internals of `SelectPanel`, `ToolbarButton` and `Truncate` are foreign components whose source is not part of this model. The panel's open/close requests, filter edits and selections are modelled only as input events (`OpenChange`, `FilterChange`, `SelectedChange`).
- Key presses, filter edits and panel selections are modelled as arriving in any state, closed included. In the component the key handler sits on the panel's overlay (line 140), and filter edits (line 134) and selections (lines 137-139) come from `SelectPanel`; when any of them can fire depends on `SelectPanel`'s internals, which are not part of this model.
- React scheduling is not modelled: render timing, `useEffect` ordering, `useImperativeHandle` and re-render batching. Updates are applied immediately and in sequence.
- The `onSelect` callback and the handle ref are not modelled as functions. The callback's argument is an output of each event.
- `JsString.Lower`: maps only the ASCII letters A-Z. JavaScript's `toLowerCase` also lowercases other Unicode letters and can change a string's length, and that is not modelled.
- `JsString.ParseInt10`: returns an exact integer. JavaScript returns a double, which rounds very long digit runs. That cannot change whether a value lies in 1..9.
- `src/ActionList/ActionList.stories.tsx` is Storybook demo wiring with no behaviour of the picker in it, so it is not part of this model.
