/**
 The saved-replies picker of the markdown editor toolbar: a list of named reply
 templates, a filter typed by the user, the display items derived from both, the
 Ctrl+1..9 keyboard shortcut, selection of an item, and the open/filter state of
 the panel. React state updates are modelled as immediate, sequential
 transitions on an immutable `State`; the `onSelect` callback the host supplies
 is modelled as an output (`Outcome.selected`) rather than a call.
 */
module SavedReplies {
  import opened Maybe
  import opened JsString

  /* ---------------------------------------------------------------------- */
  /* Data model                                                              */
  /* ---------------------------------------------------------------------- */

  datatype SavedReply = SavedReply(name: string, content: string)

  /** How an item's description is laid out; the picker always asks for `inline`. */
  datatype DescriptionVariant = Inline | Block

  /** One display item handed to the panel (styling left out). */
  datatype Item = Item(
    text: string,
    description: string,
    descriptionVariant: DescriptionVariant,
    trailingVisual: Option<string>,
    id: string)

  /**
   What the host provides through the saved-replies context, when it provides
   one at all (a missing context is `None`). The `onSelect` callback and the
   handle ref are not data: see `Outcome`.
   */
  datatype Context = Context(savedReplies: seq<SavedReply>)

  /** The picker's own state: is the panel open, and the current filter text. */
  datatype State = State(open: bool, filter: string)

  const Initial: State := State(false, "")

  /**
   The effect of one event: the next state, the reply passed to `onSelect` (at
   most one per event), and whether the event's propagation and default action
   were suppressed.
   */
  datatype Outcome = Outcome(state: State, selected: Option<SavedReply>, consumed: bool)

  /* ---------------------------------------------------------------------- */
  /* Item derivation                                                         */
  /* ---------------------------------------------------------------------- */

  /** A reply survives the filter when its lowercased name includes the lowercased filter. */
  predicate Matches(reply: SavedReply, filter: string) {
    Includes(Lower(reply.name), Lower(filter))
  }

  /** `savedReplies.filter(...)`: the matching replies, in their original order. */
  function FilterReplies(replies: seq<SavedReply>, filter: string): (kept: seq<SavedReply>)
    ensures |kept| <= |replies|
    ensures forall k :: 0 <= k < |kept| ==> kept[k] in replies && Matches(kept[k], filter)
  {
    if |replies| == 0 then []
    else
      var last := replies[|replies| - 1];
      FilterReplies(replies[..|replies| - 1], filter) + (if Matches(last, filter) then [last] else [])
  }

  /** The positions in `replies` of the replies the filter keeps. */
  function KeptIndices(replies: seq<SavedReply>, filter: string): (idx: seq<nat>)
    ensures forall k :: 0 <= k < |idx| ==> idx[k] < |replies|
  {
    if |replies| == 0 then []
    else
      var n := |replies| - 1;
      KeptIndices(replies[..n], filter) + (if Matches(replies[n], filter) then [n] else [])
  }

  /** The trailing label of the item at `index`: a shortcut hint for the first nine only. */
  function ShortcutLabel(index: nat): Option<string> {
    if index < 9 then Some("Ctrl + " + Decimal(index + 1)) else None
  }

  /** `.map((reply, i) => ...)`: the display item of the reply at filtered position `index`. */
  function ToItem(reply: SavedReply, index: nat): Item {
    Item(reply.name, reply.content, Inline, ShortcutLabel(index), Decimal(index))
  }

  function ItemsOf(kept: seq<SavedReply>): (items: seq<Item>)
    ensures |items| == |kept|
    ensures forall i :: 0 <= i < |kept| ==> items[i] == ToItem(kept[i], i)
  {
    seq(|kept|, i requires 0 <= i < |kept| => ToItem(kept[i], i))
  }

  /** `items`: undefined without a context, otherwise the items of the filtered replies. */
  function DeriveItems(ctx: Option<Context>, filter: string): (items: Option<seq<Item>>)
    ensures items.Some? <==> ctx.Some?
    ensures items.Some? ==> |items.value| <= |ctx.value.savedReplies|
  {
    match ctx
    case None => None
    case Some(c) => Some(ItemsOf(FilterReplies(c.savedReplies, filter)))
  }

  /** One step of the filter: the kept prefix, extended by the last reply when it matches. */
  lemma FilterStep(replies: seq<SavedReply>, filter: string)
    requires |replies| > 0
    ensures var n := |replies| - 1;
            && FilterReplies(replies, filter)
               == FilterReplies(replies[..n], filter) + (if Matches(replies[n], filter) then [replies[n]] else [])
            && KeptIndices(replies, filter)
               == KeptIndices(replies[..n], filter) + (if Matches(replies[n], filter) then [n] else [])
  {
  }

  /** The kept positions are listed in strictly increasing order. */
  lemma {:induction false} KeptIndicesIncreasing(replies: seq<SavedReply>, filter: string)
    ensures forall k, l :: 0 <= k < l < |KeptIndices(replies, filter)| ==>
              KeptIndices(replies, filter)[k] < KeptIndices(replies, filter)[l]
    decreases |replies|
  {
    if |replies| > 0 {
      var n := |replies| - 1;
      KeptIndicesIncreasing(replies[..n], filter);
      FilterStep(replies, filter);
    }
  }

  /** A position is kept iff its reply matches the filter. */
  lemma {:induction false} KeptIndicesComplete(replies: seq<SavedReply>, filter: string)
    ensures forall j :: 0 <= j < |replies| ==> (Matches(replies[j], filter) <==> j in KeptIndices(replies, filter))
    decreases |replies|
  {
    if |replies| > 0 {
      var n := |replies| - 1;
      var prefix := replies[..n];
      KeptIndicesComplete(prefix, filter);
      FilterStep(replies, filter);
      assert forall j :: 0 <= j < n ==> replies[j] == prefix[j];
    }
  }

  /** The `k`-th kept reply is the reply at the `k`-th kept position. */
  lemma {:induction false} FilterAtKeptIndices(replies: seq<SavedReply>, filter: string)
    ensures |FilterReplies(replies, filter)| == |KeptIndices(replies, filter)|
    ensures forall k :: 0 <= k < |KeptIndices(replies, filter)| ==>
              FilterReplies(replies, filter)[k] == replies[KeptIndices(replies, filter)[k]]
    decreases |replies|
  {
    if |replies| > 0 {
      var n := |replies| - 1;
      var prefix := replies[..n];
      FilterAtKeptIndices(prefix, filter);
      FilterStep(replies, filter);
      var pidx := KeptIndices(prefix, filter);
      assert forall k :: 0 <= k < |pidx| ==> replies[pidx[k]] == prefix[pidx[k]];
    }
  }

  /** The filter keeps exactly the matching replies, as an order-preserving subsequence located by `KeptIndices`. */
  lemma {:induction false} FilterIsOrderedSubsequence(replies: seq<SavedReply>, filter: string)
    ensures |FilterReplies(replies, filter)| == |KeptIndices(replies, filter)|
    ensures forall k :: 0 <= k < |KeptIndices(replies, filter)| ==>
              FilterReplies(replies, filter)[k] == replies[KeptIndices(replies, filter)[k]]
    ensures forall k, l :: 0 <= k < l < |KeptIndices(replies, filter)| ==>
              KeptIndices(replies, filter)[k] < KeptIndices(replies, filter)[l]
    ensures forall j :: 0 <= j < |replies| ==> (Matches(replies[j], filter) <==> j in KeptIndices(replies, filter))
  {
    FilterAtKeptIndices(replies, filter);
    KeptIndicesIncreasing(replies, filter);
    KeptIndicesComplete(replies, filter);
  }

  /** Every item comes from a matching reply, in order, and every matching reply yields an item. */
  lemma ItemsMirrorMatchingReplies(c: Context, filter: string)
    ensures var items := DeriveItems(Some(c), filter).value;
            var idx := KeptIndices(c.savedReplies, filter);
            && |items| == |idx|
            && (forall k :: 0 <= k < |idx| ==>
                  items[k].text == c.savedReplies[idx[k]].name
                  && items[k].description == c.savedReplies[idx[k]].content)
            && (forall k, l :: 0 <= k < l < |idx| ==> idx[k] < idx[l])
            && (forall j :: 0 <= j < |c.savedReplies| ==> (Matches(c.savedReplies[j], filter) <==> j in idx))
  {
    FilterIsOrderedSubsequence(c.savedReplies, filter);
  }

  /** With the empty filter every reply is kept, unchanged and in order. */
  lemma {:induction false} EmptyFilterKeepsAll(replies: seq<SavedReply>)
    ensures FilterReplies(replies, "") == replies
    decreases |replies|
  {
    if |replies| > 0 {
      var n := |replies| - 1;
      EmptyFilterKeepsAll(replies[..n]);
      IncludesEmpty(Lower(replies[n].name));
      assert Lower("") == "";
      assert replies[..n] + [replies[n]] == replies;
    }
  }

  /** With the empty filter there is one item per reply, showing that reply. */
  lemma EmptyFilterShowsAll(c: Context)
    ensures var items := DeriveItems(Some(c), "").value;
            && |items| == |c.savedReplies|
            && forall i :: 0 <= i < |items| ==>
                 items[i].text == c.savedReplies[i].name && items[i].description == c.savedReplies[i].content
  {
    EmptyFilterKeepsAll(c.savedReplies);
  }

  /** Every item is laid out inline and its id is its position's numeral, so ids are distinct. */
  lemma ItemIdsDistinct(ctx: Option<Context>, filter: string)
    requires ctx.Some?
    ensures var items := DeriveItems(ctx, filter).value;
            && (forall i :: 0 <= i < |items| ==>
                  items[i].descriptionVariant == Inline && DigitsValue(items[i].id) == i)
            && (forall i, j :: 0 <= i < |items| && 0 <= j < |items| && i != j ==> items[i].id != items[j].id)
  {
    var items := DeriveItems(ctx, filter).value;
    forall i | 0 <= i < |items|
      ensures DigitsValue(items[i].id) == i
    {
      DecimalRoundTrip(i);
    }
  }

  /** Number of items that carry a trailing label. */
  function CountLabelled(items: seq<Item>): nat {
    if |items| == 0 then 0
    else CountLabelled(items[..|items| - 1]) + (if items[|items| - 1].trailingVisual.Some? then 1 else 0)
  }

  /** Item `i` is labelled iff `i < 9`, with label "Ctrl + <i+1>". */
  lemma ShortcutLabels(ctx: Option<Context>, filter: string)
    requires ctx.Some?
    ensures var items := DeriveItems(ctx, filter).value;
            forall i :: 0 <= i < |items| ==>
              && (items[i].trailingVisual.Some? <==> i < 9)
              && (i < 9 ==> items[i].trailingVisual.value == "Ctrl + " + Decimal(i + 1))
  {
  }

  /** A list whose items are labelled exactly at positions below 9 has `min(9, length)` labelled items. */
  lemma {:induction false} LabelledCountIsMinNine(items: seq<Item>)
    requires forall i :: 0 <= i < |items| ==> (items[i].trailingVisual.Some? <==> i < 9)
    ensures CountLabelled(items) == if |items| < 9 then |items| else 9
    decreases |items|
  {
    if |items| > 0 {
      LabelledCountIsMinNine(items[..|items| - 1]);
    }
  }

  /** Exactly `min(9, |items|)` derived items carry a shortcut label. */
  lemma DerivedLabelCount(ctx: Option<Context>, filter: string)
    requires ctx.Some?
    ensures var items := DeriveItems(ctx, filter).value;
            CountLabelled(items) == if |items| < 9 then |items| else 9
  {
    LabelledCountIsMinNine(DeriveItems(ctx, filter).value);
  }

  /* ---------------------------------------------------------------------- */
  /* Open / filter state                                                     */
  /* ---------------------------------------------------------------------- */

  /**
   `setOpen(open)` followed by the effect that clears the filter whenever `open`
   changes. Setting the value it already has changes nothing, so the filter is
   then kept.
   */
  function SetOpen(s: State, open: bool): (r: State)
    ensures r.open == open
    ensures r.open != s.open ==> r.filter == ""
    ensures r.open == s.open ==> r == s
  {
    if s.open == open then s else State(open, "")
  }

  /** `onFilterChange`: the panel reports new filter text. */
  function SetFilter(s: State, filter: string): (r: State)
    ensures r.open == s.open && r.filter == filter
  {
    s.(filter := filter)
  }

  /** The `openMenu` handle exposed to the host. */
  function OpenMenu(s: State): (r: State)
    ensures r.open
    ensures !s.open ==> r.filter == ""
    ensures s.open ==> r == s
  {
    SetOpen(s, true)
  }

  /* ---------------------------------------------------------------------- */
  /* Selection                                                               */
  /* ---------------------------------------------------------------------- */

  /** Position of the first reply called `name`, if any. */
  function FirstIndexNamed(replies: seq<SavedReply>, name: string): (r: Option<nat>)
    ensures r.Some? ==> r.value < |replies| && replies[r.value].name == name
    ensures r.Some? ==> forall j :: 0 <= j < r.value ==> replies[j].name != name
    ensures r.None? ==> forall j :: 0 <= j < |replies| ==> replies[j].name != name
  {
    if |replies| == 0 then None
    else if replies[0].name == name then Some(0)
    else
      match FirstIndexNamed(replies[1..], name)
      case None => None
      case Some(k) => Some(k + 1)
  }

  /**
   `savedReplies.find(({name}) => name === item?.text)`. An absent item has an
   undefined text, which no name equals.
   */
  function FindByName(replies: seq<SavedReply>, item: Option<Item>): Option<SavedReply> {
    match item
    case None => None
    case Some(it) =>
      match FirstIndexNamed(replies, it.text)
      case None => None
      case Some(k) => Some(replies[k])
  }

  /**
   `onSelectItem`: close the panel first, then pass the first reply of the whole
   (unfiltered) list whose name is the item's text to `onSelect`, if there is one.
   */
  function OnSelectItem(ctx: Option<Context>, s: State, item: Option<Item>): (o: Outcome)
    ensures o.state == SetOpen(s, false) && !o.state.open
    ensures !o.consumed
    ensures o.selected.Some? <==>
              ctx.Some? && item.Some? &&
              exists j :: 0 <= j < |ctx.value.savedReplies| && ctx.value.savedReplies[j].name == item.value.text
    ensures o.selected.Some? ==>
              exists j :: 0 <= j < |ctx.value.savedReplies| && o.selected.value == ctx.value.savedReplies[j]
                          && o.selected.value.name == item.value.text
                          && forall i :: 0 <= i < j ==> ctx.value.savedReplies[i].name != item.value.text
  {
    var selected := match ctx
      case None => None
      case Some(c) => FindByName(c.savedReplies, item);
    Outcome(SetOpen(s, false), selected, false)
  }

  /** No two saved replies share a name. */
  predicate UniqueNames(replies: seq<SavedReply>) {
    forall i, j :: 0 <= i < j < |replies| ==> replies[i].name != replies[j].name
  }

  /**
   Choosing item `k` of the filtered list hands its own reply to `onSelect` when
   names are unique; in any case it hands over a reply of the same name.
   */
  lemma SelectingItemPicksItsReply(c: Context, s: State, k: nat)
    requires k < |DeriveItems(Some(c), s.filter).value|
    ensures var o := OnSelectItem(Some(c), s, Some(DeriveItems(Some(c), s.filter).value[k]));
            && !o.state.open
            && o.selected.Some?
            && o.selected.value.name == FilterReplies(c.savedReplies, s.filter)[k].name
            && (UniqueNames(c.savedReplies) ==> o.selected == Some(FilterReplies(c.savedReplies, s.filter)[k]))
  {
    var kept := FilterReplies(c.savedReplies, s.filter);
    var item := DeriveItems(Some(c), s.filter).value[k];
    FilterIsOrderedSubsequence(c.savedReplies, s.filter);
    var j := KeptIndices(c.savedReplies, s.filter)[k];
    assert c.savedReplies[j] == kept[k] && c.savedReplies[j].name == item.text;
    var f := FirstIndexNamed(c.savedReplies, item.text);
    assert f.Some? && f.value <= j;
  }

  /** What the panel reports as selected: nothing, one item, or a list of which the first counts. */
  datatype Selection = Nothing | One(item: Item) | Many(items: seq<Item>)

  /** `Array.isArray(selection) ? selection[0] : selection`. */
  function SelectedItem(sel: Selection): (item: Option<Item>)
    ensures item.Some? <==> sel.One? || (sel.Many? && |sel.items| > 0)
    ensures sel.One? ==> item == Some(sel.item)
    ensures sel.Many? && |sel.items| > 0 ==> item == Some(sel.items[0])
  {
    match sel
    case Nothing => None
    case One(it) => Some(it)
    case Many(its) => if |its| > 0 then Some(its[0]) else None
  }

  /* ---------------------------------------------------------------------- */
  /* Keyboard shortcut                                                       */
  /* ---------------------------------------------------------------------- */

  datatype KeyEvent = KeyEvent(key: string, ctrlKey: bool)

  /** The zero-based item position a key addresses: its `parseInt` value minus one, when that value is 1..9. */
  function ShortcutIndex(key: string): (r: Option<nat>)
    ensures r.Some? <==> ParseInt10(key).Finite? && 1 <= ParseInt10(key).value <= 9
    ensures r.Some? ==> r.value < 9 && r.value + 1 == ParseInt10(key).value
  {
    match ParseInt10(key)
    case NaN => None
    case Finite(v) => if 1 <= v <= 9 then Some(v - 1) else None
  }

  /** The key of digit `d` in 1..9 addresses position `d-1`. */
  lemma ShortcutIndexOfDigit(d: nat)
    requires 1 <= d <= 9
    ensures ShortcutIndex(Decimal(d)) == Some(d - 1)
  {
    ParseIntOfDecimal(d, "");
    assert Decimal(d) + "" == Decimal(d);
  }

  /** A key that parses to `v` in 1..9 addresses position `v-1`. */
  lemma ShortcutIndexOfValue(key: string, v: int)
    requires ParseInt10(key) == Finite(v) && 1 <= v <= 9
    ensures ShortcutIndex(key) == Some(v - 1)
  {
  }

  /**
   Any key of white space, an optional `+`, a digit run of value `d` in 1..9
   (leading zeros allowed) and a non-digit tail addresses position `d-1`.
   */
  lemma ShortcutIndexOfKey(ws: string, sg: Sign, digits: string, rest: string)
    requires AllWhiteSpace(ws)
    requires sg != Minus
    requires |digits| > 0 && AllDigits(digits) && 1 <= DigitsValue(digits) <= 9
    requires |rest| == 0 || !IsDigit(rest[0])
    ensures ShortcutIndex(ws + (SignText(sg) + (digits + rest))) == Some(DigitsValue(digits) - 1)
  {
    ParseIntOfSignedDigits(ws, sg, digits, rest);
    ShortcutIndexOfValue(ws + (SignText(sg) + (digits + rest)), DigitsValue(digits));
  }

  /** `items[index]`, undefined past the end. */
  function ItemAt(items: seq<Item>, index: nat): Option<Item> {
    if index < |items| then Some(items[index]) else None
  }

  /**
   `onKeyDown`: with a context, Ctrl held and a key that parses to 1..9, consume
   the event and select the item at that position of the FILTERED list, even when
   there is no such item. Any other key leaves everything as it was.
   */
  function KeyDown(ctx: Option<Context>, s: State, ev: KeyEvent): (o: Outcome)
    ensures o.consumed <==> ctx.Some? && ev.ctrlKey && ShortcutIndex(ev.key).Some?
    ensures !o.consumed ==> o == Outcome(s, None, false)
    ensures o.consumed ==> o.state == SetOpen(s, false) && !o.state.open
  {
    var items := DeriveItems(ctx, s.filter);
    var index := ShortcutIndex(ev.key);
    if items.Some? && ev.ctrlKey && index.Some? then
      OnSelectItem(ctx, s, ItemAt(items.value, index.value)).(consumed := true)
    else
      Outcome(s, None, false)
  }

  /**
   Ctrl with any key that parses to `d` in 1..9 ("3", " 3", "+3", "03", "3x", ...)
   picks item `d-1` of the filtered list: the first reply of the full list bearing
   its name.
   */
  lemma KeyDownSelectsShortcut(c: Context, s: State, ev: KeyEvent, d: nat)
    requires ev.ctrlKey && 1 <= d <= 9 && ShortcutIndex(ev.key) == Some(d - 1)
    requires d <= |DeriveItems(Some(c), s.filter).value|
    ensures var o := KeyDown(Some(c), s, ev);
            var item := DeriveItems(Some(c), s.filter).value[d - 1];
            && o.consumed
            && o.state == SetOpen(s, false)
            && o.selected.Some?
            && o.selected.value.name == item.text
            && o.selected.value == c.savedReplies[FirstIndexNamed(c.savedReplies, item.text).value]
  {
    var kept := FilterReplies(c.savedReplies, s.filter);
    assert kept[d - 1] in c.savedReplies;
  }

  /** A shortcut past the end of the filtered list is still consumed and still closes the panel, selecting nothing. */
  lemma KeyDownOutOfRangeCloses(c: Context, s: State, ev: KeyEvent, d: nat)
    requires ev.ctrlKey && 1 <= d <= 9 && ShortcutIndex(ev.key) == Some(d - 1)
    requires d > |DeriveItems(Some(c), s.filter).value|
    ensures KeyDown(Some(c), s, ev) == Outcome(SetOpen(s, false), None, true)
  {
    var items := DeriveItems(Some(c), s.filter).value;
    assert ItemAt(items, d - 1) == None;
    assert OnSelectItem(Some(c), s, None) == Outcome(SetOpen(s, false), None, false);
  }

  /** Keys that are not a 1..9 shortcut, presses without Ctrl, and a missing context pass through untouched. */
  lemma KeyDownPassesThrough(ctx: Option<Context>, s: State, ev: KeyEvent)
    requires ctx.None? || !ev.ctrlKey || ParseInt10(ev.key).NaN?
             || ParseInt10(ev.key).value < 1 || ParseInt10(ev.key).value > 9
    ensures KeyDown(ctx, s, ev) == Outcome(s, None, false)
  {
  }

  /**
   With a name shared by two replies, choosing the later one through the filter
   hands the earlier one to `onSelect`.
   */
  lemma DuplicateNameSelectsFirst()
    ensures var c := Context([SavedReply("Hi", "first"), SavedReply("Hi", "second")]);
            var o := KeyDown(Some(c), State(true, ""), KeyEvent("2", true));
            && DeriveItems(Some(c), "").value[1].description == "second"
            && o.selected == Some(SavedReply("Hi", "first"))
  {
    var c := Context([SavedReply("Hi", "first"), SavedReply("Hi", "second")]);
    EmptyFilterShowsAll(c);
    assert Decimal(2) == "2";
    ShortcutIndexOfDigit(2);
    KeyDownSelectsShortcut(c, State(true, ""), KeyEvent("2", true), 2);
    assert FirstIndexNamed(c.savedReplies, "Hi") == Some(0);
  }

  /* ---------------------------------------------------------------------- */
  /* Events                                                                  */
  /* ---------------------------------------------------------------------- */

  /** The inputs the picker reacts to. */
  datatype Event =
    | OpenMenuRequest            // the host calls the `openMenu` handle
    | OpenChange(open: bool)     // the panel asks to open or close (anchor click, dismissal)
    | FilterChange(filter: string)
    | KeyPress(ev: KeyEvent)
    | SelectedChange(sel: Selection)

  /**
   One event. Without a context nothing is rendered and no handle is installed,
   so no event can have any effect.
   */
  function Step(ctx: Option<Context>, s: State, e: Event): (o: Outcome)
    ensures ctx.None? ==> o == Outcome(s, None, false)
    ensures o.state.open != s.open ==> o.state.filter == ""
    ensures o.selected.Some? ==> !o.state.open && o.selected.value in ctx.value.savedReplies
    ensures o.consumed ==> e.KeyPress?
    ensures ctx.Some? && e.OpenMenuRequest? ==> o == Outcome(OpenMenu(s), None, false)
    ensures ctx.Some? && e.OpenChange? ==> o.state.open == e.open && o.selected.None?
    ensures ctx.Some? && e.FilterChange? ==> o == Outcome(SetFilter(s, e.filter), None, false)
    ensures ctx.Some? && e.KeyPress? ==> o == KeyDown(ctx, s, e.ev)
    ensures ctx.Some? && e.SelectedChange? ==> !o.state.open && !o.consumed
    ensures ctx.Some? && e.OpenChange? ==> o == Outcome(SetOpen(s, e.open), None, false)
    ensures ctx.Some? && e.SelectedChange? ==> o == OnSelectItem(ctx, s, SelectedItem(e.sel))
  {
    if ctx.None? then Outcome(s, None, false)
    else
      match e
      case OpenMenuRequest => Outcome(OpenMenu(s), None, false)
      case OpenChange(open) => Outcome(SetOpen(s, open), None, false)
      case FilterChange(f) => Outcome(SetFilter(s, f), None, false)
      case KeyPress(ev) => KeyDown(ctx, s, ev)
      case SelectedChange(sel) => OnSelectItem(ctx, s, SelectedItem(sel))
  }

  /** A run of events from state `s`: the final state and the replies handed to `onSelect`, in order. */
  function Run(ctx: Option<Context>, s: State, events: seq<Event>): (r: (State, seq<SavedReply>))
    ensures |r.1| <= |events|
    decreases |events|
  {
    if |events| == 0 then (s, [])
    else
      var o := Step(ctx, s, events[0]);
      var rest := Run(ctx, o.state, events[1..]);
      (rest.0, (if o.selected.Some? then [o.selected.value] else []) + rest.1)
  }

  /** Every reply handed to `onSelect` over a run is one of the context's saved replies. */
  lemma {:induction false} RunSelectsOnlySavedReplies(ctx: Option<Context>, s: State, events: seq<Event>)
    requires ctx.Some?
    ensures forall r :: r in Run(ctx, s, events).1 ==> r in ctx.value.savedReplies
    decreases |events|
  {
    if |events| > 0 {
      RunSelectsOnlySavedReplies(ctx, Step(ctx, s, events[0]).state, events[1..]);
    }
  }

  /** Without a context, no run changes the state or selects anything. */
  lemma {:induction false} RunWithoutContextIsInert(s: State, events: seq<Event>)
    ensures Run(None, s, events) == (s, [])
    decreases |events|
  {
    if |events| > 0 {
      RunWithoutContextIsInert(s, events[1..]);
    }
  }

  /* ---------------------------------------------------------------------- */
  /* Rendering decision                                                      */
  /* ---------------------------------------------------------------------- */

  /** What reaches the panel when it is rendered. */
  datatype Panel = Panel(open: bool, items: seq<Item>, filterValue: string)

  /** The panel is rendered exactly when there is a context, showing the state and the derived items. */
  function Render(ctx: Option<Context>, s: State): (p: Option<Panel>)
    ensures p.Some? <==> ctx.Some?
    ensures p.Some? ==> p.value.open == s.open && p.value.filterValue == s.filter
                        && |p.value.items| <= |ctx.value.savedReplies|
    ensures p.Some? ==> p.value.items == DeriveItems(ctx, s.filter).value
  {
    match DeriveItems(ctx, s.filter)
    case None => None
    case Some(items) => Some(Panel(s.open, items, s.filter))
  }

  /**
   The rendered panel lists the matching replies in source order, name and
   content, and labels exactly its first nine items.
   */
  lemma RenderShowsMatchingReplies(c: Context, s: State)
    ensures var items := Render(Some(c), s).value.items;
            var idx := KeptIndices(c.savedReplies, s.filter);
            && |items| == |idx|
            && (forall k :: 0 <= k < |idx| ==>
                  items[k].text == c.savedReplies[idx[k]].name
                  && items[k].description == c.savedReplies[idx[k]].content
                  && (items[k].trailingVisual.Some? <==> k < 9))
            && (forall j :: 0 <= j < |c.savedReplies| ==> (Matches(c.savedReplies[j], s.filter) <==> j in idx))
  {
    ItemsMirrorMatchingReplies(c, s.filter);
    ShortcutLabels(Some(c), s.filter);
  }
}
