/** The List widget of widget/list.go: its entries, one row button per
    entry, the remove functions that detach those buttons from the
    scrollable content container, the selected entry and the
    EntrySelectedEvent it fires.  Layout, scrolling and rendering are not
    part of this model. */
module Lists {
  import opened ListSpec

  /** A row button: the text it shows and whether it wears the selected
      or the unselected image and text colour (always set together). */
  class Button {
    var text: string
    var style: Style

    constructor (text: string, style: Style)
      ensures this.text == text && this.style == style
    {
      this.text := text;
      this.style := style;
    }
  }

  /** The function Container.AddChild hands back: calling it detaches
      `child` from the content container. */
  datatype RemoveFunc = Detach(child: Button)

  /** One firing of EntrySelectedEvent: the new entry and the one selected
      before. */
  datatype SelectionEvent<E> = SelectionEvent(entry: Option<E>, previous: Option<E>)

  /** The texts of a sequence of buttons. */
  ghost function Texts(bs: seq<Button>): seq<string>
    reads bs
  {
    seq(|bs|, i requires 0 <= i < |bs| reads bs => bs[i].text)
  }

  /** The styles of a sequence of buttons. */
  ghost function Looks(bs: seq<Button>): seq<Style>
    reads bs
  {
    seq(|bs|, i requires 0 <= i < |bs| reads bs => bs[i].style)
  }

  /** Taking a button out of the row sequence takes its text and style
      out of the views. */
  lemma DropSlotViews(bs: seq<Button>, k: nat)
    requires k < |bs|
    ensures Texts(DropSlot(bs, k)) == DropSlot(Texts(bs), k)
    ensures Looks(DropSlot(bs, k)) == DropSlot(Looks(bs), k)
  {
  }

  /** Dropping the first `d` buttons drops the first `d` texts and styles. */
  lemma SuffixViews(bs: seq<Button>, d: nat)
    requires d <= |bs|
    ensures Texts(bs[d..]) == Texts(bs)[d..]
    ensures Looks(bs[d..]) == Looks(bs)[d..]
  {
  }

  /** RemoveEntry's first loop: a write index `n` runs behind the read
      index, every entry different from `x` is copied down to `n`, and at
      each match the current `n` is recorded.  The slice is then cut to
      `n`. */
  method CompactEntries<E(==)>(s: seq<E>, x: E) returns (kept: seq<E>, slot: int)
    ensures Compacted(kept, slot) == Compact(s, x)
    ensures kept == Filter(s, x)
  {
    var es := s;
    var n := 0;
    slot := -1;
    for i := 0 to |s|
      invariant |es| == |s| && n <= i
      invariant es[i..] == s[i..]
      invariant Compacted(es[..n], slot) == Compact(s[..i], x)
    {
      CompactStep(s, x, i);
      var e := es[i];
      if e != x {
        WriteStep(es, n, i, e);
        es := es[n := e];
        n := n + 1;
      } else {
        slot := n;
      }
    }
    assert s[..|s|] == s;
    kept := es[..n];
    CompactKeepsFilter(s, x);
  }

  /** RemoveEntry's second and third loops: the same write-index compaction
      over the buttons and over the remove functions, skipping the single
      index `removed`. */
  method CompactOut<T>(s: seq<T>, removed: nat) returns (t: seq<T>)
    requires removed < |s|
    ensures t == DropSlot(s, removed)
  {
    var xs := s;
    var n := 0;
    for i := 0 to |s|
      invariant |xs| == |s|
      invariant n == if i <= removed then i else i - 1
      invariant forall j :: i <= j < |s| ==> xs[j] == s[j]
      invariant forall j :: 0 <= j < n && j < removed ==> xs[j] == s[j]
      invariant forall j :: removed <= j < n ==> xs[j] == s[j + 1]
    {
      var b := xs[i];
      if i != removed {
        xs := xs[n := b];
        n := n + 1;
      }
    }
    t := xs[..n];
  }

  /** A caller's sequence of public calls on a new list: select the last
      entry, replace it, and read the selection back; the selection has
      moved to the replacement. */
  method SelectThenReplace() returns (s: Option<int>)
    ensures s == Some(9)
  {
    var l := new List<int>([1, 2, 3], (x: int) => if x == 9 then "nine" else "other", false);
    l.SetSelectedEntry(Some(3));
    l.ReplaceEntryAt(2, 9);
    s := l.SelectedEntry();
  }

  /** Another caller: append an entry to a built list, then select it; its
      row, the new bottom one, is the only selected one. */
  method AddThenSelect() returns (styles: seq<Style>)
    ensures styles == [Unselected, Unselected, Selected]
  {
    var l := new List<int>([1, 2], (x: int) => "", false);
    l.AddEntry(4);
    assert |Texts(l.buttons)| == 3;
    l.SetSelectedEntry(Some(4));
    assert StylesFor([1, 2, 4], Some(4)) == [Unselected, Unselected, Selected];
    assert Looks(l.buttons) == [Unselected, Unselected, Selected];
    styles := [l.buttons[0].style, l.buttons[1].style, l.buttons[2].style];
  }

  class List<E(==)> {
    /** The EntryLabelFunc option: the text shown for an entry. */
    const labelOf: E -> string
    /** The AllowReselect option. */
    const allowReselect: bool

    /** Whether the one-shot initializer (createWidget) has run. */
    var initialized: bool
    var entries: seq<E>
    var buttons: seq<Button>
    var removeFuncs: seq<RemoveFunc>
    /** The children of the content container inside the scroll container. */
    var children: seq<Button>
    var selectedEntry: Option<E>
    /** Every EntrySelectedEvent fired so far, oldest first. */
    ghost var events: seq<SelectionEvent<E>>

    /** Buttons, remove functions and the content container agree: one
        remove function per button, each detaching its own button, and the
        container shows exactly the buttons, in order, each once. */
    ghost predicate Wired()
      reads this
    {
      |removeFuncs| == |buttons| && children == buttons && Distinct(buttons) &&
      forall i :: 0 <= i < |buttons| ==> removeFuncs[i] == Detach(buttons[i])
    }

    /** What every operation keeps.  There is never an entry without a
        button; there can be a button without an entry once RemoveEntry has
        removed a value that occurred more than once. */
    ghost predicate Valid()
      reads this
    {
      Wired() &&
      (initialized ==> |entries| <= |buttons|) &&
      (!initialized ==> buttons == [])
    }

    /** The labels of the rows, top to bottom; before initialization, the
        labels the initializer will give them. */
    ghost function Labels(): seq<string>
      reads this, buttons
    {
      if initialized then Texts(buttons) else LabelsFor(entries, labelOf)
    }

    /** The styles of the rows, top to bottom; before initialization, the
        unselected style every row starts with. */
    ghost function Styles(): seq<Style>
      reads this, buttons
    {
      if initialized then Looks(buttons) else AllUnselected(|entries|)
    }

    /** Row i is the button showing entries[i], for every i. */
    ghost predicate Aligned()
      reads this, buttons
    {
      Valid() && Labels() == LabelsFor(entries, labelOf)
    }

    /** Whether setSelectedEntry(e, user) goes ahead. */
    function Fires(e: Option<E>, user: bool): bool
      reads this
    {
      e != selectedEntry || (user && allowReselect)
    }

    /** NewList with the Entries, EntryLabelFunc and AllowReselect options;
        the widget tree is built on first use. */
    constructor (entries: seq<E>, labelOf: E -> string, allowReselect: bool)
      ensures Aligned() && !initialized
      ensures this.entries == entries && this.labelOf == labelOf
      ensures this.allowReselect == allowReselect
      ensures selectedEntry == None && events == []
    {
      this.labelOf := labelOf;
      this.allowReselect := allowReselect;
      this.entries := entries;
      initialized := false;
      buttons, removeFuncs, children := [], [], [];
      selectedEntry := None;
      events := [];
    }

    /** createWidget's row loop: one fresh, unselected button per entry,
        labelled by labelOf, added to a new content container. */
    method CreateRows()
      requires Valid() && !initialized
      modifies this
      ensures Wired() && !initialized
      ensures entries == old(entries) && selectedEntry == old(selectedEntry)
      ensures events == old(events)
      ensures Texts(buttons) == LabelsFor(entries, labelOf)
      ensures Looks(buttons) == AllUnselected(|entries|)
      ensures forall i :: 0 <= i < |buttons| ==> fresh(buttons[i])
    {
      buttons, removeFuncs, children := [], [], [];
      for i := 0 to |entries|
        invariant Wired() && !initialized
        invariant entries == old(entries) && selectedEntry == old(selectedEntry)
        invariant events == old(events)
        invariant |buttons| == i
        invariant forall j :: 0 <= j < i ==>
          fresh(buttons[j]) && buttons[j].text == labelOf(entries[j]) && buttons[j].style == Unselected
      {
        var b := new Button(labelOf(entries[i]), Unselected);
        buttons := buttons + [b];
        children := children + [b];
        removeFuncs := removeFuncs + [Detach(b)];
      }
    }

    /** init.Do(): runs createWidget the first time, does nothing after. */
    method EnsureInit()
      requires Valid()
      modifies this
      ensures Valid() && initialized
      ensures entries == old(entries) && selectedEntry == old(selectedEntry)
      ensures events == old(events)
      ensures Labels() == old(Labels()) && Styles() == old(Styles())
      ensures old(Aligned()) ==> Aligned()
      ensures old(initialized) ==> buttons == old(buttons) && removeFuncs == old(removeFuncs)
      ensures !old(initialized) ==> |buttons| == |entries|
      ensures !old(initialized) ==> forall i :: 0 <= i < |buttons| ==> fresh(buttons[i])
      ensures fresh((set b | b in buttons) - (set b | b in old(buttons)))
    {
      if !initialized {
        CreateRows();
        initialized := true;
      }
    }

    /** getButtonNum: the index of the first row holding `b`, or -1. */
    method ButtonNum(b: Button) returns (k: int)
      ensures -1 <= k < |buttons|
      ensures k == -1 <==> b !in buttons
      ensures k >= 0 ==> buttons[k] == b
      ensures forall j :: 0 <= j < k ==> buttons[j] != b
    {
      for i := 0 to |buttons|
        invariant forall j :: 0 <= j < i ==> buttons[j] != b
      {
        if buttons[i] == b {
          return i;
        }
      }
      return -1;
    }

    /** SelectedEntry: the current selection (after initializing). */
    method SelectedEntry() returns (s: Option<E>)
      requires Valid()
      modifies this
      ensures s == old(selectedEntry) && s == selectedEntry
      ensures Valid() && initialized
      ensures entries == old(entries) && events == old(events)
      ensures Labels() == old(Labels()) && Styles() == old(Styles())
      ensures old(initialized) ==> buttons == old(buttons)
      ensures fresh((set b | b in buttons) - (set b | b in old(buttons)))
    {
      EnsureInit();
      s := selectedEntry;
    }

    /** setSelectedEntry: when `e` differs from the selection, or a user
        click re-selects it with AllowReselect on, the selection becomes
        `e`, every row is restyled (selected exactly where its entry equals
        `e`) and one event (e, previous selection) fires.  Otherwise
        nothing happens, not even initialization. */
    method SelectEntry(e: Option<E>, user: bool)
      requires Valid()
      requires initialized && Fires(e, user) ==> |buttons| <= |entries|
      modifies this, buttons
      ensures Valid()
      ensures !old(Fires(e, user)) ==> unchanged(this) && Styles() == old(Styles())
      ensures old(Fires(e, user)) ==>
        initialized && selectedEntry == e &&
        events == old(events) + [SelectionEvent(e, old(selectedEntry))] &&
        Styles() == StylesFor(entries, e)
      ensures entries == old(entries) && Labels() == old(Labels())
      ensures old(Aligned()) ==> Aligned()
      ensures old(initialized) ==> buttons == old(buttons)
      ensures fresh((set b | b in buttons) - (set b | b in old(buttons)))
    {
      if e != selectedEntry || (user && allowReselect) {
        EnsureInit();
        var prev := selectedEntry;
        selectedEntry := e;
        Restyle(e);
        events := events + [SelectionEvent(e, prev)];
      }
    }

    /** setSelectedEntry's loop: every row is restyled, selected exactly
        where its entry equals `e`; no text changes. */
    method Restyle(e: Option<E>)
      requires Distinct(buttons) && |buttons| == |entries|
      modifies buttons
      ensures Looks(buttons) == StylesFor(entries, e)
      ensures Texts(buttons) == old(Texts(buttons))
    {
      for i := 0 to |buttons|
        invariant forall j :: 0 <= j < i ==> buttons[j].style == StyleFor(entries[j], e)
        invariant forall j :: 0 <= j < |buttons| ==> buttons[j].text == old(buttons[j].text)
      {
        var b := buttons[i];
        if Some(entries[i]) == e {
          b.style := Selected;
        } else {
          b.style := Unselected;
        }
      }
    }

    /** SetSelectedEntry: programmatic selection, never a user click, so
        re-selecting the current entry does nothing. */
    method SetSelectedEntry(e: Option<E>)
      requires Valid()
      requires initialized && e != selectedEntry ==> |buttons| <= |entries|
      modifies this, buttons
      ensures Valid()
      ensures e == old(selectedEntry) ==> unchanged(this) && Styles() == old(Styles())
      ensures e != old(selectedEntry) ==>
        initialized && selectedEntry == e &&
        events == old(events) + [SelectionEvent(e, old(selectedEntry))] &&
        Styles() == StylesFor(entries, e)
      ensures entries == old(entries) && Labels() == old(Labels())
      ensures old(Aligned()) ==> Aligned()
      ensures old(initialized) ==> buttons == old(buttons)
      ensures fresh((set b | b in buttons) - (set b | b in old(buttons)))
    {
      SelectEntry(e, false);
    }

    /** The click handler every row button carries: look up the clicked
        button's row and select that row's entry as a user action. */
    method Click(b: Button)
      requires Valid() && initialized && b in children
      requires forall k :: 0 <= k < |buttons| && buttons[k] == b ==>
        k < |entries| && (Fires(Some(entries[k]), true) ==> |buttons| <= |entries|)
      modifies this, buttons
      ensures Valid() && entries == old(entries) && buttons == old(buttons)
      ensures old(Aligned()) ==> Aligned()
      ensures forall k :: 0 <= k < |old(buttons)| && old(buttons)[k] == b ==>
        var chosen := Some(old(entries)[k]);
        if chosen != old(selectedEntry) || allowReselect then
          selectedEntry == chosen &&
          events == old(events) + [SelectionEvent(chosen, old(selectedEntry))] &&
          Styles() == StylesFor(entries, chosen)
        else
          selectedEntry == old(selectedEntry) && events == old(events) && Styles() == old(Styles())
    {
      var k := ButtonNum(b);
      SelectEntry(Some(entries[k]), true);
    }

    /** ReplaceEntryAt: slot `i` gets `x` and its button the label of `x`;
        a selection equal to the old entry there moves to `x`.  Button
        styles stay as they were. */
    method ReplaceEntryAt(i: nat, x: E)
      requires Valid() && i < |entries|
      modifies this, buttons
      ensures Valid() && initialized
      ensures entries == old(entries)[i := x]
      ensures Labels() == old(Labels())[i := labelOf(x)]
      ensures Styles() == old(Styles())
      ensures selectedEntry == Follow(old(selectedEntry), old(entries)[i], x)
      ensures events == old(events)
      ensures old(Aligned()) ==> Aligned()
      ensures old(initialized) ==> buttons == old(buttons) && removeFuncs == old(removeFuncs)
      ensures fresh((set b | b in buttons) - (set b | b in old(buttons)))
    {
      EnsureInit();
      ReplaceRow(i, x);
    }

    /** ReplaceEntryAt once the rows exist. */
    method ReplaceRow(i: nat, x: E)
      requires Valid() && initialized && i < |entries|
      modifies this, buttons
      ensures Valid() && initialized
      ensures entries == old(entries)[i := x]
      ensures Texts(buttons) == old(Texts(buttons))[i := labelOf(x)]
      ensures Looks(buttons) == old(Looks(buttons))
      ensures selectedEntry == Follow(old(selectedEntry), old(entries)[i], x)
      ensures events == old(events)
      ensures buttons == old(buttons) && removeFuncs == old(removeFuncs)
    {
      ghost var texts0, looks0 := Texts(buttons), Looks(buttons);
      if selectedEntry == Some(entries[i]) {
        selectedEntry := Some(x);
      }
      entries := entries[i := x];
      buttons[i].text := labelOf(x);
      assert Texts(buttons) == texts0[i := labelOf(x)];
      assert Looks(buttons) == looks0;
    }

    /** ReplaceEntry: every slot holding `current` gets `x` and the label
        of `x`; other slots are untouched.  A selection equal to `current`
        becomes `x` even when no slot matched. */
    method ReplaceEntry(current: E, x: E)
      requires Valid()
      requires initialized ==> |buttons| <= |entries|
      modifies this, buttons
      ensures Valid() && initialized
      ensures entries == Substitute(old(entries), current, x)
      ensures |Labels()| == |old(Labels())| == |entries|
      ensures forall i :: 0 <= i < |entries| ==>
        Labels()[i] == if old(entries)[i] == current then labelOf(x) else old(Labels())[i]
      ensures Styles() == old(Styles())
      ensures selectedEntry == Follow(old(selectedEntry), current, x)
      ensures events == old(events)
      ensures old(Aligned()) ==> Aligned()
      ensures old(initialized) ==> buttons == old(buttons) && removeFuncs == old(removeFuncs)
      ensures fresh((set b | b in buttons) - (set b | b in old(buttons)))
    {
      EnsureInit();
      ReplaceRows(current, x);
    }

    /** ReplaceEntry once the rows exist, on the texts and styles of the
        buttons. */
    method ReplaceRows(current: E, x: E)
      requires Valid() && initialized && |buttons| <= |entries|
      modifies this, buttons
      ensures Valid() && initialized
      ensures entries == Substitute(old(entries), current, x)
      ensures |Texts(buttons)| == |entries|
      ensures forall i :: 0 <= i < |entries| ==>
        Texts(buttons)[i] == if old(entries)[i] == current then labelOf(x) else old(Texts(buttons))[i]
      ensures Looks(buttons) == old(Looks(buttons))
      ensures selectedEntry == Follow(old(selectedEntry), current, x)
      ensures events == old(events)
      ensures buttons == old(buttons) && removeFuncs == old(removeFuncs)
      ensures old(Texts(buttons)) == LabelsFor(old(entries), labelOf) ==> Texts(buttons) == LabelsFor(entries, labelOf)
    {
      ghost var entries0, texts0 := entries, Texts(buttons);
      var es := Relabel(current, x);
      entries := es;
      if texts0 == LabelsFor(entries0, labelOf) {
        SubstituteLabels(entries0, current, x, labelOf, texts0, Texts(buttons));
      }
      if selectedEntry == Some(current) {
        selectedEntry := Some(x);
      }
    }

    /** ReplaceEntry's loop over the rows: each row whose entry equals
        `current` is relabelled for `x`; the entries as they stand after
        the loop are returned. */
    method Relabel(current: E, x: E) returns (es: seq<E>)
      requires Distinct(buttons) && |buttons| == |entries|
      modifies buttons
      ensures es == Substitute(entries, current, x)
      ensures |Texts(buttons)| == |entries|
      ensures forall j :: 0 <= j < |buttons| ==>
        Texts(buttons)[j] == if entries[j] == current then labelOf(x) else old(Texts(buttons))[j]
      ensures Looks(buttons) == old(Looks(buttons))
    {
      es := entries;
      for i := 0 to |buttons|
        invariant |es| == |entries|
        invariant forall j :: 0 <= j < |es| ==>
          es[j] == if j < i && entries[j] == current then x else entries[j]
        invariant forall j :: 0 <= j < |buttons| ==>
          buttons[j].text == if j < i && entries[j] == current then labelOf(x) else old(buttons[j].text)
        invariant forall j :: 0 <= j < |buttons| ==> buttons[j].style == old(buttons[j].style)
      {
        var b := buttons[i];
        if es[i] == current {
          es := es[i := x];
          b.text := labelOf(x);
        }
      }
    }

    /** AddEntry: a new row at the bottom, with a fresh unselected button
        labelled for `x`, added to the content container. */
    method AddEntry(x: E)
      requires Valid()
      modifies this
      ensures Valid() && initialized
      ensures entries == old(entries) + [x]
      ensures Labels() == old(Labels()) + [labelOf(x)]
      ensures Styles() == old(Styles()) + [Unselected]
      ensures |buttons| > 0 && fresh(buttons[|buttons| - 1])
      ensures old(initialized) ==>
        buttons == old(buttons) + [buttons[|buttons| - 1]] &&
        removeFuncs == old(removeFuncs) + [Detach(buttons[|buttons| - 1])]
      ensures selectedEntry == old(selectedEntry) && events == old(events)
      ensures old(Aligned()) ==> Aligned()
      ensures fresh((set b | b in buttons) - (set b | b in old(buttons)))
    {
      EnsureInit();
      AddRow(x);
      LabelsForAppend(old(entries), labelOf, x);
    }

    /** AddEntry once the rows exist. */
    method AddRow(x: E)
      requires Valid() && initialized
      modifies this
      ensures Valid() && initialized
      ensures entries == old(entries) + [x]
      ensures Texts(buttons) == old(Texts(buttons)) + [labelOf(x)]
      ensures Looks(buttons) == old(Looks(buttons)) + [Unselected]
      ensures |buttons| > 0 && fresh(buttons[|buttons| - 1])
      ensures buttons == old(buttons) + [buttons[|buttons| - 1]]
      ensures removeFuncs == old(removeFuncs) + [Detach(buttons[|buttons| - 1])]
      ensures selectedEntry == old(selectedEntry) && events == old(events)
    {
      ghost var texts0, looks0 := Texts(buttons), Looks(buttons);
      entries := entries + [x];
      var b := new Button(labelOf(x), Unselected);
      buttons := buttons + [b];
      children := children + [b];
      removeFuncs := removeFuncs + [Detach(b)];
      assert Texts(buttons) == texts0 + [labelOf(x)];
      assert Looks(buttons) == looks0 + [Unselected];
    }

    /** RemoveEntry: every entry equal to `x` leaves the entries; the
        remove function at the slot the first loop recorded is called, and
        that one slot leaves the buttons and the remove functions.  When
        `x` occurs once this is its own slot and alignment is kept; when it
        occurs more often, fewer buttons than entries go.  The selection is
        never cleared. */
    method RemoveEntry(x: E)
      requires Valid()
      modifies this
      ensures Valid() && initialized
      ensures entries == Filter(old(entries), x)
      ensures x !in old(entries) ==>
        Labels() == old(Labels()) && Styles() == old(Styles()) &&
        (old(initialized) ==> buttons == old(buttons) && removeFuncs == old(removeFuncs))
      ensures x in old(entries) ==>
        var slot := Compact(old(entries), x).slot;
        0 <= slot < |old(Labels())| &&
        Labels() == DropSlot(old(Labels()), slot) &&
        Styles() == DropSlot(old(Styles()), slot) &&
        (old(initialized) ==>
          buttons == DropSlot(old(buttons), slot) && removeFuncs == DropSlot(old(removeFuncs), slot))
      ensures selectedEntry == old(selectedEntry) && events == old(events)
      ensures old(Aligned()) && multiset(old(entries))[x] <= 1 ==> Aligned()
      ensures multiset(old(entries))[x] >= 2 ==> |entries| < |buttons|
      ensures fresh((set b | b in buttons) - (set b | b in old(buttons)))
    {
      EnsureInit();
      RemoveMatching(x);
    }

    /** RemoveEntry once the rows exist, on the texts and styles of the
        buttons. */
    method RemoveMatching(x: E)
      requires Valid() && initialized
      modifies this
      ensures Valid() && initialized
      ensures entries == Filter(old(entries), x)
      ensures x !in old(entries) ==>
        buttons == old(buttons) && removeFuncs == old(removeFuncs) &&
        Texts(buttons) == old(Texts(buttons)) && Looks(buttons) == old(Looks(buttons))
      ensures x in old(entries) ==>
        var slot := Compact(old(entries), x).slot;
        0 <= slot < |old(entries)| &&
        buttons == DropSlot(old(buttons), slot) && removeFuncs == DropSlot(old(removeFuncs), slot) &&
        Texts(buttons) == DropSlot(old(Texts(buttons)), slot) &&
        Looks(buttons) == DropSlot(old(Looks(buttons)), slot)
      ensures selectedEntry == old(selectedEntry) && events == old(events)
      ensures old(Texts(buttons)) == LabelsFor(old(entries), labelOf) && multiset(old(entries))[x] <= 1 ==>
        Texts(buttons) == LabelsFor(entries, labelOf)
      ensures multiset(old(entries))[x] >= 2 ==> |entries| < |buttons|
    {
      ghost var entries0, texts0 := entries, Texts(buttons);
      CompactKeepsFilter(entries0, x);
      if multiset(entries0)[x] >= 2 {
        CompactDuplicates(entries0, x);
      }
      var slot := RemoveRows(x);
      if texts0 == LabelsFor(entries0, labelOf) && multiset(entries0)[x] <= 1 {
        RemoveKeepsAligned(entries0, x, labelOf, texts0, Texts(buttons));
      }
    }

    /** RemoveEntry once the rows exist: the entries become what the
        first loop keeps, and the buttons and remove functions lose the
        slot it records, which is returned. */
    method RemoveRows(x: E) returns (slot: int)
      requires Valid() && initialized
      modifies this
      ensures Valid() && initialized
      ensures Compacted(entries, slot) == Compact(old(entries), x)
      ensures (slot == -1) == (x !in old(entries)) && slot < |old(entries)|
      ensures slot == -1 ==> buttons == old(buttons) && removeFuncs == old(removeFuncs)
      ensures slot != -1 ==>
        0 <= slot < |old(buttons)| &&
        buttons == DropSlot(old(buttons), slot) && removeFuncs == DropSlot(old(removeFuncs), slot) &&
        Texts(buttons) == DropSlot(old(Texts(buttons)), slot) &&
        Looks(buttons) == DropSlot(old(Looks(buttons)), slot)
      ensures selectedEntry == old(selectedEntry) && events == old(events)
    {
      CompactBounds(entries, x);
      var kept;
      kept, slot := CompactEntries(entries, x);
      entries := kept;
      if slot != -1 {
        DropRow(slot);
      }
    }

    /** The part of RemoveEntry after a match: call the remove function at
        `slot`, which detaches that button from the content container, then
        take `slot` out of the buttons and of the remove functions. */
    method DropRow(slot: nat)
      requires Wired() && slot < |buttons|
      modifies this
      ensures Wired()
      ensures buttons == DropSlot(old(buttons), slot)
      ensures removeFuncs == DropSlot(old(removeFuncs), slot)
      ensures Texts(buttons) == DropSlot(old(Texts(buttons)), slot)
      ensures Looks(buttons) == DropSlot(old(Looks(buttons)), slot)
      ensures entries == old(entries) && initialized == old(initialized)
      ensures selectedEntry == old(selectedEntry) && events == old(events)
    {
      DropSlotViews(buttons, slot);
      DropSlotDistinct(buttons, slot);
      DetachDistinct(children, slot);
      children := DetachFirst(children, removeFuncs[slot].child);
      buttons := CompactOut(buttons, slot);
      removeFuncs := CompactOut(removeFuncs, slot);
    }

    /** RemoveEntryAt: RemoveEntry of the value currently at `i`, so every
        entry equal to it goes. */
    method RemoveEntryAt(i: nat)
      requires Valid() && i < |entries|
      modifies this
      ensures Valid() && initialized
      ensures entries == Filter(old(entries), old(entries)[i])
      ensures
        var slot := Compact(old(entries), old(entries)[i]).slot;
        0 <= slot < |old(Labels())| &&
        Labels() == DropSlot(old(Labels()), slot) &&
        Styles() == DropSlot(old(Styles()), slot) &&
        (old(initialized) ==>
          buttons == DropSlot(old(buttons), slot) && removeFuncs == DropSlot(old(removeFuncs), slot))
      ensures selectedEntry == old(selectedEntry) && events == old(events)
      ensures old(Aligned()) && multiset(old(entries))[old(entries)[i]] == 1 ==> Aligned()
      ensures fresh((set b | b in buttons) - (set b | b in old(buttons)))
    {
      EnsureInit();
      var e := entries[i];
      RemoveEntry(e);
    }

    /** UpdateEntries: remove the front entry while there are more than
        |ns|, overwrite the remaining slots in place, then append the rest.
        The entries always end equal to `ns`; the selection follows each
        overwritten slot in turn. */
    method UpdateEntries(ns: seq<E>)
      requires Valid()
      modifies this, buttons
      ensures Valid() && initialized
      ensures entries == ns
      ensures selectedEntry == Track(old(selectedEntry), Shrink(old(entries), |ns|), ns, |Shrink(old(entries), |ns|)|)
      ensures events == old(events)
      ensures |old(entries)| <= |ns| ==>
        Labels() ==
          LabelsFor(ns[..|old(entries)|], labelOf) + old(Labels())[|old(entries)|..] +
          LabelsFor(ns[|old(entries)|..], labelOf) &&
        Styles() == old(Styles()) + AllUnselected(|ns| - |old(entries)|)
      ensures |old(entries)| > |ns| && Distinct(old(entries)) ==>
        Labels() == LabelsFor(ns, labelOf) + old(Labels())[|old(entries)|..] &&
        Styles() == old(Styles())[|old(entries)| - |ns|..]
      ensures old(Aligned()) && (|old(entries)| <= |ns| || Distinct(old(entries))) ==> Aligned()
      ensures old(initialized) && |old(entries)| <= |ns| ==>
        |old(buttons)| <= |buttons| && buttons[..|old(buttons)|] == old(buttons)
      ensures old(initialized) && |old(entries)| > |ns| && Distinct(old(entries)) ==>
        buttons == old(buttons)[|old(entries)| - |ns|..]
      ensures fresh((set b | b in buttons) - (set b | b in old(buttons)))
    {
      ghost var entries0, aligned0, init0, buttons0 := entries, Aligned(), initialized, buttons;
      EnsureInit();
      assert init0 ==> buttons == buttons0;
      UpdateRows(ns);
      if aligned0 && (|entries0| <= |ns| || Distinct(entries0)) {
        UpdateAligned(entries0, ns, labelOf, Labels());
      }
    }

    /** UpdateEntries once the rows exist: its three loops in turn. */
    method UpdateRows(ns: seq<E>)
      requires Valid() && initialized
      modifies this, buttons
      ensures Valid() && initialized
      ensures entries == ns
      ensures selectedEntry == Track(old(selectedEntry), Shrink(old(entries), |ns|), ns, |Shrink(old(entries), |ns|)|)
      ensures events == old(events)
      ensures |old(entries)| <= |ns| ==>
        Texts(buttons) ==
          LabelsFor(ns[..|old(entries)|], labelOf) + old(Texts(buttons))[|old(entries)|..] +
          LabelsFor(ns[|old(entries)|..], labelOf) &&
        Looks(buttons) == old(Looks(buttons)) + AllUnselected(|ns| - |old(entries)|)
      ensures |old(entries)| > |ns| && Distinct(old(entries)) ==>
        Texts(buttons) == LabelsFor(ns, labelOf) + old(Texts(buttons))[|old(entries)|..] &&
        Looks(buttons) == old(Looks(buttons))[|old(entries)| - |ns|..]
      ensures |old(entries)| <= |ns| ==> |old(buttons)| <= |buttons| && buttons[..|old(buttons)|] == old(buttons)
      ensures |old(entries)| > |ns| && Distinct(old(entries)) ==> buttons == old(buttons)[|old(entries)| - |ns|..]
      ensures forall b :: b in buttons ==> b in old(buttons) || fresh(b)
    {
      ghost var n0, texts0 := |entries|, Texts(buttons);
      ShrinkFront(|ns|);
      ghost var m1, t1, l1 := |entries|, Texts(buttons), Looks(buttons);
      Overwrite(ns);
      ghost var t2 := Texts(buttons);
      assert t2 == LabelsFor(ns[..m1], labelOf) + t1[m1..];
      AppendFrom(ns);
      if n0 > |ns| && Distinct(old(entries)) {
        assert ns[..|ns|] == ns && ns[|ns|..] == [] && AllUnselected(0) == [];
        assert |Looks(buttons)| == |l1|;
        assert texts0[n0 - |ns|..][|ns|..] == texts0[n0..];
      }
    }

    /** UpdateEntries' first loop, once the rows exist: RemoveEntryAt(0)
        while more than `m` entries remain, that is, RemoveEntry of the
        front entry. */
    method ShrinkFront(m: nat)
      requires Valid() && initialized
      modifies this
      ensures Valid() && initialized
      ensures entries == Shrink(old(entries), m)
      ensures selectedEntry == old(selectedEntry) && events == old(events)
      ensures forall i :: 0 <= i < |buttons| ==> buttons[i] in old(buttons)
      ensures |old(entries)| <= m ==>
        entries == old(entries) && buttons == old(buttons) &&
        Texts(buttons) == old(Texts(buttons)) && Looks(buttons) == old(Looks(buttons))
      ensures |old(entries)| > m && Distinct(old(entries)) ==>
        |entries| == m &&
        buttons == old(buttons)[|old(entries)| - m..] &&
        Texts(buttons) == old(Texts(buttons))[|old(entries)| - m..] &&
        Looks(buttons) == old(Looks(buttons))[|old(entries)| - m..]
    {
      ghost var n0, buttons0, texts0, looks0 := |entries|, buttons, Texts(buttons), Looks(buttons);
      ghost var d := ShrinkLoop(m);
      assert Texts(buttons0) == texts0 && Looks(buttons0) == looks0;
      if n0 > m && Distinct(old(entries)) {
        assert d == n0 - m;
        SuffixViews(buttons0, d);
      }
    }

    /** The loop of ShrinkFront, on entries and buttons alone; `d` counts
        the rounds. */
    method ShrinkLoop(m: nat) returns (ghost d: nat)
      requires Valid() && initialized
      modifies this
      ensures Valid() && initialized
      ensures entries == Shrink(old(entries), m)
      ensures selectedEntry == old(selectedEntry) && events == old(events)
      ensures forall i :: 0 <= i < |buttons| ==> buttons[i] in old(buttons)
      ensures |old(entries)| <= m ==> entries == old(entries) && buttons == old(buttons)
      ensures |old(entries)| > m && Distinct(old(entries)) ==>
        |entries| == m && d == |old(entries)| - m && d <= |old(buttons)| && buttons == old(buttons)[d..]
    {
      ghost var entries0, buttons0 := entries, buttons;
      d := 0;
      while |entries| > m
        invariant Valid() && initialized
        invariant Shrink(entries, m) == Shrink(entries0, m)
        invariant selectedEntry == old(selectedEntry) && events == old(events)
        invariant forall i :: 0 <= i < |buttons| ==> buttons[i] in buttons0
        invariant d == 0 ==> entries == entries0 && buttons == buttons0
        invariant |entries0| <= m ==> d == 0
        invariant Distinct(entries0) ==>
          d + |entries| == |entries0| && (m < |entries0| ==> m <= |entries|) &&
          entries == entries0[d..] && buttons == buttons0[d..]
        decreases |entries|
      {
        ShrinkUnfold(entries, m);
        if Distinct(entries0) {
          DistinctSuffix(entries0, d);
        }
        RemoveFront();
        if Distinct(entries0) {
          SuffixStep(entries0, d);
          SuffixStep(buttons0, d);
        }
        d := d + 1;
      }
    }

    /** One turn of UpdateEntries' first loop, once the rows exist:
        RemoveEntryAt(0), that is, RemoveEntry of the front entry.  With
        distinct entries exactly the front row goes. */
    method RemoveFront()
      requires Valid() && initialized && |entries| > 0
      modifies this
      ensures Valid() && initialized
      ensures entries == Filter(old(entries), old(entries)[0])
      ensures selectedEntry == old(selectedEntry) && events == old(events)
      ensures forall i :: 0 <= i < |buttons| ==> buttons[i] in old(buttons)
      ensures Distinct(old(entries)) ==> entries == old(entries)[1..] && buttons == old(buttons)[1..]
    {
      if Distinct(entries) {
        CompactFrontDistinct(entries);
        CompactKeepsFilter(entries, entries[0]);
        DistinctOnce(entries, 0);
      }
      ghost var entries0 := entries;
      var slot := RemoveRows(entries[0]);
      CompactKeepsFilter(entries0, entries0[0]);
    }

    /** UpdateEntries' second loop, once the rows exist: ReplaceEntryAt(i,
        ns[i]) for every remaining slot, top to bottom. */
    method Overwrite(ns: seq<E>)
      requires Valid() && initialized && |entries| <= |ns|
      modifies this, buttons
      ensures Valid() && initialized
      ensures entries == ns[..|old(entries)|]
      ensures selectedEntry == Track(old(selectedEntry), old(entries), ns, |old(entries)|)
      ensures events == old(events)
      ensures buttons == old(buttons) && Looks(buttons) == old(Looks(buttons))
      ensures Texts(buttons) == LabelsFor(ns[..|old(entries)|], labelOf) + old(Texts(buttons))[|old(entries)|..]
    {
      ghost var entries0, texts0, looks0 := entries, Texts(buttons), Looks(buttons);
      for i := 0 to |entries|
        invariant Valid() && initialized
        invariant entries == ns[..i] + entries0[i..]
        invariant selectedEntry == Track(old(selectedEntry), entries0, ns, i)
        invariant events == old(events)
        invariant buttons == old(buttons) && Looks(buttons) == looks0
        invariant Texts(buttons) == LabelsFor(ns[..i], labelOf) + texts0[i..]
      {
        PrefixStep(ns, entries0, i);
        ReplaceRow(i, ns[i]);
        LabelsForStep(ns, labelOf, texts0, i);
      }
      assert entries0[..|entries0|] == entries0;
    }

    /** UpdateEntries' third loop, once the rows exist: AddEntry(ns[i]) for
        the entries not yet present. */
    method AppendFrom(ns: seq<E>)
      requires Valid() && initialized && |entries| <= |ns| && entries == ns[..|entries|]
      modifies this
      ensures Valid() && initialized
      ensures entries == ns
      ensures selectedEntry == old(selectedEntry) && events == old(events)
      ensures Texts(buttons) == old(Texts(buttons)) + LabelsFor(ns[|old(entries)|..], labelOf)
      ensures Looks(buttons) == old(Looks(buttons)) + AllUnselected(|ns| - |old(entries)|)
      ensures |old(buttons)| <= |buttons| && buttons[..|old(buttons)|] == old(buttons)
      ensures forall b :: b in buttons ==> b in old(buttons) || fresh(b)
    {
      ghost var n0, texts0, looks0, buttons0 := |entries|, Texts(buttons), Looks(buttons), buttons;
      var i := |entries|;
      while i < |ns|
        invariant Valid() && initialized
        invariant n0 <= i == |entries| <= |ns| && entries == ns[..i]
        invariant selectedEntry == old(selectedEntry) && events == old(events)
        invariant Texts(buttons) == texts0 + LabelsFor(ns[n0..i], labelOf)
        invariant Looks(buttons) == looks0 + AllUnselected(i - n0)
        invariant |buttons0| <= |buttons| && buttons[..|buttons0|] == buttons0
        invariant forall b :: b in buttons ==> b in buttons0 || fresh(b)
        decreases |ns| - i
      {
        AddRow(ns[i]);
        GrowStep(ns, labelOf, n0, i);
        i := i + 1;
      }
    }
  }
}
