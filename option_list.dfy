/**
 * The option list: the ordered choices of one select control and the selection,
 * filter and highlight state kept over them. An `Option` object of the list is
 * identified by its position; the cached highlighted option is a position too,
 * with -1 for none.
 */
module OptionLists {
  import opened Wrappers
  import opened Seqs
  import opened Texts
  import opened StringOrder
  import opened Options

  /**
   * One input record, already read through the value, label and colour keys:
   * `color` is `record[colorKey]` (None when the record has no such field or no
   * colour key is given), `disabled` is the truthiness of `record.disabled`.
   */
  datatype RawOption = RawOption(value: string, labelText: string, color: Maybe<string>, disabled: bool)

  /** The choice the constructor builds from one record. */
  function FromRaw(r: RawOption): (o: OptionState)
    ensures o.value == r.value && o.labelText == r.labelText
    ensures o.color == (if r.color.Some? then r.color.value else DefaultColor)
    ensures o.disabled == r.disabled
    ensures !o.highlighted && !o.selected && o.shown && !o.inactive
  {
    var o := NewOptionState(r.value, r.labelText, r.color);
    if r.disabled then o.(disabled := true) else o
  }

  /** The choice `pushFallbackOption(label, value)` appends. */
  function Fallback(labelText: string, value: string): (o: OptionState)
    ensures o.value == value && o.labelText == labelText && o.color == DefaultColor
    ensures o.inactive && !o.disabled && !o.highlighted && !o.selected && o.shown
  {
    NewOptionState(value, labelText, None).(inactive := true)
  }

  predicate IsShown(o: OptionState) { o.shown }
  predicate IsSelected(o: OptionState) { o.selected }
  predicate IsShownSelected(o: OptionState) { o.shown && o.selected }

  // ----- Read-only views of the option sequence -----

  /** `getOptionsByValue(v)`: the positions of every choice whose value is `v`, in list order. */
  function OptionsByValue(os: seq<OptionState>, v: string): (r: seq<nat>)
    ensures Increasing(r)
    ensures forall k :: 0 <= k < |r| ==> r[k] < |os| && os[r[k]].value == v
    ensures forall i :: 0 <= i < |os| && os[i].value == v ==> i in r
  {
    IndicesWhere(os, (o: OptionState) => o.value == v)
  }

  /** `selection`: the positions of the selected choices, in list order. */
  function Selection(os: seq<OptionState>): (r: seq<nat>)
    ensures Increasing(r)
    ensures forall k :: 0 <= k < |r| ==> r[k] < |os| && os[r[k]].selected
    ensures forall i :: 0 <= i < |os| && os[i].selected ==> i in r
  {
    IndicesWhere(os, IsSelected)
  }

  /** The `value` getter: the values of the selected choices, in list order. */
  function Value(os: seq<OptionState>): (r: seq<string>)
    ensures |r| == |Selection(os)|
    ensures forall k :: 0 <= k < |r| ==> r[k] == os[Selection(os)[k]].value
    ensures forall x :: x in r <==> exists i :: 0 <= i < |os| && os[i].selected && os[i].value == x
  {
    var sel := Selection(os);
    var r := seq(|sel|, k requires 0 <= k < |sel| => os[sel[k]].value);
    assert forall i :: 0 <= i < |os| && os[i].selected ==> os[i].value in r by {
      forall i | 0 <= i < |os| && os[i].selected ensures os[i].value in r {
        var k :| 0 <= k < |sel| && sel[k] == i;
        assert r[k] == os[i].value;
      }
    }
    r
  }

  /** `hasSelected()`: some choice is selected. */
  function HasSelected(os: seq<OptionState>): (r: bool)
    ensures r <==> exists i :: 0 <= i < |os| && os[i].selected
  {
    Selection(os) != []
  }

  /** `hasShownSelected()`: some choice is both shown and selected. */
  function HasShownSelected(os: seq<OptionState>): (r: bool)
    ensures r <==> exists i :: 0 <= i < |os| && os[i].shown && os[i].selected
  {
    IndicesWhere(os, IsShownSelected) != []
  }

  /** Some choice is shown. */
  predicate AnyShown(os: seq<OptionState>) {
    exists i :: 0 <= i < |os| && os[i].shown
  }

  /** The positions of the shown choices, in list order. */
  function ShownIndices(os: seq<OptionState>): (r: seq<nat>) {
    IndicesWhere(os, IsShown)
  }

  /** The `filtered` getter's result: the shown choices, cut to the first `cap` when there are more. */
  function CappedView(os: seq<OptionState>, cap: Maybe<nat>): (r: seq<nat>)
    ensures Increasing(r)
    ensures forall k :: 0 <= k < |r| ==> r[k] < |os| && os[r[k]].shown
    ensures r <= ShownIndices(os)
    ensures |r| == if cap.Some? && |ShownIndices(os)| > cap.value then cap.value else |ShownIndices(os)|
  {
    var visible := ShownIndices(os);
    if cap.Some? && |visible| > cap.value then visible[..cap.value] else visible
  }

  /** The flag the `filtered` getter leaves in `_hasMaxDisplayedOptions`. */
  predicate Truncated(os: seq<OptionState>, cap: Maybe<nat>) {
    cap.Some? && |ShownIndices(os)| > cap.value
  }

  /** The choice `highlight()` picks: the first shown and selected one, else the first shown one, else none. */
  function HighlightTarget(os: seq<OptionState>): (r: int) {
    if HasShownSelected(os) then FirstWhere(os, IsShownSelected) else FirstWhere(os, IsShown)
  }

  // ----- State transitions of the option sequence -----

  /** Every choice flagged highlighted exactly when it is at position `k` (-1: none). */
  function WithHighlight(os: seq<OptionState>, k: int): (r: seq<OptionState>)
    ensures |r| == |os|
  {
    seq(|os|, j requires 0 <= j < |os| => os[j].(highlighted := j == k))
  }

  /** Every choice selected exactly when its value is one of `vs`. */
  function WithSelection(os: seq<OptionState>, vs: seq<string>): (r: seq<OptionState>)
    ensures |r| == |os|
  {
    seq(|os|, j requires 0 <= j < |os| => os[j].(selected := os[j].value in vs))
  }

  /** Every choice deselected. */
  function WithoutSelection(os: seq<OptionState>): (r: seq<OptionState>)
    ensures |r| == |os|
  {
    seq(|os|, j requires 0 <= j < |os| => os[j].(selected := false))
  }

  /**
   * The filter's matching rule: the normalised label contains the normalised term.
   * `norm` stands for `Diacritics.strip(_).toUpperCase()`; the term is not trimmed.
   */
  predicate Matches(labelText: string, term: string, norm: string -> string) {
    IndexOf(norm(labelText), norm(term)) > -1
  }

  /** The term counts as no filter at all. */
  predicate IsBlank(term: string) {
    Trim(term) == ""
  }

  /** The `shown` flags `filter(term)` leaves. */
  function ApplyFilter(os: seq<OptionState>, term: string, norm: string -> string): (r: seq<OptionState>)
    ensures |r| == |os|
  {
    if IsBlank(term) then seq(|os|, j requires 0 <= j < |os| => os[j].(shown := true))
    else seq(|os|, j requires 0 <= j < |os| => os[j].(shown := Matches(os[j].labelText, term, norm)))
  }

  /** A sequence that agrees with the filter's rule at every position is the filter's result. */
  lemma FilterPointwise(os: seq<OptionState>, term: string, norm: string -> string, r: seq<OptionState>)
    requires |r| == |os|
    requires forall j :: 0 <= j < |os| ==>
      r[j] == os[j].(shown := IsBlank(term) || Matches(os[j].labelText, term, norm))
    ensures r == ApplyFilter(os, term, norm)
  {
  }

  /** Where a forward step from `h` lands in `view`: the next item, or `h` itself at the end or off the view. */
  function StepForward(view: seq<nat>, h: int): (r: int) {
    var k := Position(view, h);
    if 0 <= k < |view| - 1 then view[k + 1] else h
  }

  /** Where a backward step from `h` lands in `view`: the item before it, or `h` itself at the start or off the view. */
  function StepBack(view: seq<nat>, h: int): (r: int) {
    var k := Position(view, h);
    if k > 0 then view[k - 1] else h
  }

  /** At most one choice is highlighted, and it is the one at cached position `k`. */
  ghost predicate HighlightConsistent(os: seq<OptionState>, k: int) {
    -1 <= k < |os| && forall j :: 0 <= j < |os| ==> (os[j].highlighted <==> j == k)
  }

  /** Moving the highlight does not change whether anything is shown. */
  lemma AnyShownIgnoresHighlight(os: seq<OptionState>, k: int)
    ensures AnyShown(WithHighlight(os, k)) == AnyShown(os)
  {
    if AnyShown(os) {
      var i :| 0 <= i < |os| && os[i].shown;
      assert WithHighlight(os, k)[i].shown;
    }
  }

  /** Re-flagging the cached choice changes nothing. */
  lemma WithCurrentHighlight(os: seq<OptionState>, k: int)
    requires HighlightConsistent(os, k)
    ensures WithHighlight(os, k) == os
  {
  }

  /**
   * Scanning a view for the highlight flag finds the position of the cached
   * highlighted choice in that view (-1 when it is not there).
   */
  lemma FirstHighlightedIsPosition(os: seq<OptionState>, k: int, view: seq<nat>, index: int)
    requires HighlightConsistent(os, k)
    requires forall m :: 0 <= m < |view| ==> view[m] < |os|
    requires -1 <= index < |view|
    requires index >= 0 ==> os[view[index]].highlighted
    requires index >= 0 ==> forall m :: 0 <= m < index ==> !os[view[m]].highlighted
    requires index == -1 ==> forall m :: 0 <= m < |view| ==> !os[view[m]].highlighted
    ensures index == Position(view, k)
  {
    var p := Position(view, k);
    if index >= 0 {
      assert view[index] == k;
    }
    if p >= 0 {
      assert os[view[p]].highlighted;
    }
  }

  /** The index the navigation methods scan for decides where each kind of step lands. */
  lemma StepsFromScan(os: seq<OptionState>, k: int, view: seq<nat>, index: int)
    requires HighlightConsistent(os, k)
    requires forall m :: 0 <= m < |view| ==> view[m] < |os|
    requires -1 <= index < |view|
    requires index >= 0 ==> os[view[index]].highlighted
    requires index >= 0 ==> forall m :: 0 <= m < index ==> !os[view[m]].highlighted
    requires index == -1 ==> forall m :: 0 <= m < |view| ==> !os[view[m]].highlighted
    ensures StepForward(view, k) == if -1 < index < |view| - 1 then view[index + 1] else k
    ensures StepBack(view, k) == if index > 0 then view[index - 1] else k
  {
    FirstHighlightedIsPosition(os, k, view, index);
  }

  class OptionList {
    /** `_options` */
    var opts: seq<OptionState>
    /** `_maxDisplayedOptions`; None when the component leaves it `undefined`. */
    const maxDisplayed: Maybe<nat>
    /** `_highlightedOption` as a position; -1 for null. */
    var highlightedIdx: int
    /** `_hasShown` */
    var hasShown: bool
    /** `_hasMaxDisplayedOptions` */
    var hasMaxDisplayed: bool

    /** The per-choice highlight flag and the cached highlighted choice agree. */
    ghost predicate Valid()
      reads this
    {
      HighlightConsistent(opts, highlightedIdx)
    }

    /**
     * One choice per record, in input order; `undefined`/`null` records count as none.
     * The initial highlight pass flags the first choice, since nothing is selected yet.
     */
    constructor (records: Maybe<seq<RawOption>>, maxDisplayedOptions: Maybe<nat>)
      ensures Valid()
      ensures var rs := records.GetOr([]);
        |opts| == |rs| && forall i :: 0 <= i < |rs| ==> opts[i] == FromRaw(rs[i]).(highlighted := i == 0)
      ensures highlightedIdx == if |opts| > 0 then 0 else -1
      ensures hasShown == (|opts| > 0)
      ensures maxDisplayed == maxDisplayedOptions && !hasMaxDisplayed
    {
      var rs := records.GetOr([]);
      opts := seq(|rs|, i requires 0 <= i < |rs| => FromRaw(rs[i]));
      maxDisplayed := maxDisplayedOptions;
      highlightedIdx := -1;
      hasShown := |rs| > 0;
      hasMaxDisplayed := false;
      new;
      Highlight();
    }

    /** `pushFallbackOption(label, value)`: one inactive choice appended at the end. */
    method PushFallbackOption(labelText: string, value: string)
      requires Valid()
      modifies this`opts
      ensures Valid()
      ensures opts == old(opts) + [Fallback(labelText, value)]
    {
      opts := opts + [Fallback(labelText, value)];
    }

    /**
     * `setValue(v)`: selects exactly the choices whose value is in `v` (`null` is `[]`)
     * and reports whether any choice matched.
     */
    method SetValue(v: Maybe<seq<string>>) returns (anySelected: bool)
      requires Valid()
      modifies this`opts
      ensures Valid()
      ensures opts == WithSelection(old(opts), v.GetOr([]))
      ensures anySelected <==> exists j :: 0 <= j < |opts| && old(opts)[j].value in v.GetOr([])
      ensures anySelected == HasSelected(opts)
    {
      anySelected := false;
      var vs := v.GetOr([]);
      var i := 0;
      while i < |opts|
        invariant 0 <= i <= |opts| == |old(opts)|
        invariant forall j :: 0 <= j < i ==> opts[j] == old(opts)[j].(selected := old(opts)[j].value in vs)
        invariant forall j :: i <= j < |opts| ==> opts[j] == old(opts)[j]
        invariant anySelected <==> exists j :: 0 <= j < i && opts[j].selected
      {
        opts := opts[i := opts[i].(selected := opts[i].value in vs)];
        anySelected := anySelected || opts[i].selected;
        i := i + 1;
      }
    }

    /** The deprecated `value` setter: the same assignment as `setValue`, without a result. */
    method AssignValue(v: Maybe<seq<string>>)
      requires Valid()
      modifies this`opts
      ensures Valid()
      ensures opts == WithSelection(old(opts), v.GetOr([]))
    {
      var _ := SetValue(v);
    }

    /** `select(option, multiple)`: without `multiple`, every other choice is deselected first. */
    method Select(i: nat, multiple: bool)
      requires Valid() && i < |opts|
      modifies this`opts
      ensures Valid()
      ensures multiple ==> opts == old(opts)[i := old(opts)[i].(selected := true)]
      ensures !multiple ==> opts == WithoutSelection(old(opts))[i := old(opts)[i].(selected := true)]
      ensures !multiple ==> Selection(opts) == [i]
    {
      if !multiple {
        ClearSelection();
      }
      opts := opts[i := opts[i].(selected := true)];
      if !multiple {
        IndicesWhereSingle(opts, IsSelected, i);
      }
    }

    /** `deselect(option)`: only that choice loses its selection. */
    method Deselect(i: nat)
      requires Valid() && i < |opts|
      modifies this`opts
      ensures Valid()
      ensures opts == old(opts)[i := old(opts)[i].(selected := false)]
    {
      opts := opts[i := opts[i].(selected := false)];
    }

    /** `clearSelection()`: no choice stays selected. */
    method ClearSelection()
      requires Valid()
      modifies this`opts
      ensures Valid()
      ensures opts == WithoutSelection(old(opts))
      ensures Selection(opts) == []
    {
      var i := 0;
      while i < |opts|
        invariant 0 <= i <= |opts| == |old(opts)|
        invariant forall j :: 0 <= j < i ==> opts[j] == old(opts)[j].(selected := false)
        invariant forall j :: i <= j < |opts| ==> opts[j] == old(opts)[j]
      {
        opts := opts[i := opts[i].(selected := false)];
        i := i + 1;
      }
    }

    /** The `filtered` getter: the capped view, recording whether it had to cut. */
    method Filtered() returns (view: seq<nat>)
      modifies this`hasMaxDisplayed
      ensures view == CappedView(opts, maxDisplayed)
      ensures hasMaxDisplayed == Truncated(opts, maxDisplayed)
    {
      view := ShownIndices(opts);
      if maxDisplayed.Some? && |view| > maxDisplayed.value {
        view := view[..maxDisplayed.value];
        hasMaxDisplayed := true;
      } else {
        hasMaxDisplayed := false;
      }
    }

    /**
     * `filter(term)`: recomputes `shown`, re-highlights, and reports whether the list
     * has just gone from showing something to showing nothing.
     */
    method Filter(term: string, norm: string -> string) returns (toEmpty: bool)
      requires Valid()
      modifies this`opts, this`highlightedIdx, this`hasShown
      ensures Valid()
      ensures var f := ApplyFilter(old(opts), term, norm);
        highlightedIdx == HighlightTarget(f) && opts == WithHighlight(f, highlightedIdx)
      ensures hasShown == AnyShown(opts)
      ensures toEmpty == (old(hasShown) && !hasShown)
    {
      var anyShown := false;
      if IsBlank(term) {
        ResetFilter();
        anyShown := |opts| > 0;
        assert anyShown ==> opts[0].shown;
      } else {
        anyShown := ShowMatches(term, norm);
      }
      FilterPointwise(old(opts), term, norm, opts);
      ghost var filtered := opts;
      toEmpty := hasShown && !anyShown;
      Highlight();
      AnyShownIgnoresHighlight(filtered, highlightedIdx);
      hasShown := anyShown;
    }

    /** The non-blank branch of `filter`: each choice is shown iff its label matches the term. */
    method ShowMatches(term: string, norm: string -> string) returns (anyShown: bool)
      requires Valid()
      modifies this`opts
      ensures Valid()
      ensures |opts| == |old(opts)|
      ensures forall j :: 0 <= j < |opts| ==>
        opts[j] == old(opts)[j].(shown := Matches(old(opts)[j].labelText, term, norm))
      ensures anyShown == AnyShown(opts)
    {
      anyShown := false;
      var i := 0;
      while i < |opts|
        invariant 0 <= i <= |opts| == |old(opts)|
        invariant forall j :: 0 <= j < i ==>
          opts[j] == old(opts)[j].(shown := Matches(old(opts)[j].labelText, term, norm))
        invariant forall j :: i <= j < |opts| ==> opts[j] == old(opts)[j]
        invariant anyShown <==> exists j :: 0 <= j < i && opts[j].shown
      {
        var shown := Matches(opts[i].labelText, term, norm);
        opts := opts[i := opts[i].(shown := shown)];
        if shown {
          anyShown := true;
        }
        i := i + 1;
      }
    }

    /** `resetFilter()`: every choice shown. */
    method ResetFilter()
      requires Valid()
      modifies this`opts
      ensures Valid()
      ensures |opts| == |old(opts)| && forall j :: 0 <= j < |opts| ==> opts[j] == old(opts)[j].(shown := true)
    {
      var i := 0;
      while i < |opts|
        invariant 0 <= i <= |opts| == |old(opts)|
        invariant forall j :: 0 <= j < i ==> opts[j] == old(opts)[j].(shown := true)
        invariant forall j :: i <= j < |opts| ==> opts[j] == old(opts)[j]
      {
        opts := opts[i := opts[i].(shown := true)];
        i := i + 1;
      }
    }

    /** `highlight()`: flags the choice `HighlightTarget` picks and no other. */
    method Highlight()
      requires Valid()
      modifies this`opts, this`highlightedIdx
      ensures Valid()
      ensures highlightedIdx == HighlightTarget(old(opts))
      ensures opts == WithHighlight(old(opts), highlightedIdx)
    {
      var k;
      if HasShownSelected(opts) {
        k := GetFirstShownSelected();
      } else {
        k := GetFirstShown();
      }
      HighlightOption(k);
    }

    /** `highlightOption(option)`: the previous highlight is cleared, then `k` is flagged (-1: none). */
    method HighlightOption(k: int)
      requires Valid() && -1 <= k < |opts|
      modifies this`opts, this`highlightedIdx
      ensures Valid()
      ensures highlightedIdx == k
      ensures opts == WithHighlight(old(opts), k)
    {
      ClearHighlightedOption();
      if k != -1 {
        opts := opts[k := opts[k].(highlighted := true)];
        highlightedIdx := k;
      }
    }

    /** `clearHighlightedOption()`: the cached choice loses its flag and the cache is emptied. */
    method ClearHighlightedOption()
      requires Valid()
      modifies this`opts, this`highlightedIdx
      ensures Valid()
      ensures highlightedIdx == -1
      ensures opts == WithHighlight(old(opts), -1)
    {
      if highlightedIdx != -1 {
        opts := opts[highlightedIdx := opts[highlightedIdx].(highlighted := false)];
        highlightedIdx := -1;
      }
    }

    /** `highlightNextOption()`: one step forward in the capped view; no-op at its end or off it. */
    method HighlightNextOption()
      requires Valid()
      modifies this`opts, this`highlightedIdx, this`hasMaxDisplayed
      ensures Valid()
      ensures highlightedIdx == StepForward(CappedView(old(opts), maxDisplayed), old(highlightedIdx))
      ensures opts == WithHighlight(old(opts), highlightedIdx)
      ensures hasMaxDisplayed == Truncated(old(opts), maxDisplayed)
    {
      var view := Filtered();
      var index := GetHighlightedIndexFromList(view);
      StepsFromScan(opts, highlightedIdx, view, index);
      if index > -1 && index < |view| - 1 {
        HighlightOption(view[index + 1]);
      } else {
        WithCurrentHighlight(opts, highlightedIdx);
      }
    }

    /** `highlightPreviousOption()`: one step back in the capped view; no-op at its start or off it. */
    method HighlightPreviousOption()
      requires Valid()
      modifies this`opts, this`highlightedIdx, this`hasMaxDisplayed
      ensures Valid()
      ensures highlightedIdx == StepBack(CappedView(old(opts), maxDisplayed), old(highlightedIdx))
      ensures opts == WithHighlight(old(opts), highlightedIdx)
      ensures hasMaxDisplayed == Truncated(old(opts), maxDisplayed)
    {
      var view := Filtered();
      var index := GetHighlightedIndexFromList(view);
      StepsFromScan(opts, highlightedIdx, view, index);
      if index > 0 {
        HighlightOption(view[index - 1]);
      } else {
        WithCurrentHighlight(opts, highlightedIdx);
      }
    }

    /** `getHighlightedIndexFromList(options)`: the first position in `view` of a highlighted choice, or -1. */
    method GetHighlightedIndexFromList(view: seq<nat>) returns (index: int)
      requires forall k :: 0 <= k < |view| ==> view[k] < |opts|
      ensures -1 <= index < |view|
      ensures index >= 0 ==> opts[view[index]].highlighted
      ensures index >= 0 ==> forall k :: 0 <= k < index ==> !opts[view[k]].highlighted
      ensures index == -1 ==> forall k :: 0 <= k < |view| ==> !opts[view[k]].highlighted
    {
      var i := 0;
      while i < |view|
        invariant 0 <= i <= |view|
        invariant forall k :: 0 <= k < i ==> !opts[view[k]].highlighted
      {
        if opts[view[i]].highlighted {
          return i;
        }
        i := i + 1;
      }
      return -1;
    }

    /** `getHighlightedIndex()`: where the highlighted choice sits in the capped view, or -1. */
    method GetHighlightedIndex() returns (index: int)
      requires Valid()
      modifies this`hasMaxDisplayed
      ensures index == Position(CappedView(opts, maxDisplayed), highlightedIdx)
      ensures hasMaxDisplayed == Truncated(opts, maxDisplayed)
    {
      var view := Filtered();
      index := GetHighlightedIndexFromList(view);
      FirstHighlightedIsPosition(opts, highlightedIdx, view, index);
    }

    /** `getFirstShown()`: the first shown choice, or -1. */
    method GetFirstShown() returns (k: int)
      ensures -1 <= k < |opts|
      ensures k >= 0 ==> opts[k].shown && forall j :: 0 <= j < k ==> !opts[j].shown
      ensures k == -1 ==> !AnyShown(opts)
    {
      var i := 0;
      while i < |opts|
        invariant 0 <= i <= |opts|
        invariant forall j :: 0 <= j < i ==> !opts[j].shown
      {
        if opts[i].shown {
          return i;
        }
        i := i + 1;
      }
      return -1;
    }

    /** `getFirstShownSelected()`: the first choice both shown and selected, or -1. */
    method GetFirstShownSelected() returns (k: int)
      ensures -1 <= k < |opts|
      ensures k >= 0 ==> opts[k].shown && opts[k].selected
      ensures k >= 0 ==> forall j :: 0 <= j < k ==> !(opts[j].shown && opts[j].selected)
      ensures k == -1 ==> !HasShownSelected(opts)
    {
      var i := 0;
      while i < |opts|
        invariant 0 <= i <= |opts|
        invariant forall j :: 0 <= j < i ==> !(opts[j].shown && opts[j].selected)
      {
        if opts[i].shown && opts[i].selected {
          return i;
        }
        i := i + 1;
      }
      return -1;
    }

    /**
     * `equalValues(v0, v1)`: equal lengths and equal sorted copies, compared
     * position by position; the same values with the same multiplicities.
     */
    static function EqualValues(v0: seq<string>, v1: seq<string>): (r: bool)
      ensures r <==> multiset(v0) == multiset(v1)
    {
      if |v0| != |v1| then
        assert |multiset(v0)| != |multiset(v1)|;
        false
      else
        var a := Sort(v0);
        var b := Sort(v1);
        assert (forall i :: 0 <= i < |a| ==> a[i] == b[i]) <==> a == b;
        SortIsCanonical(v0, v1);
        forall i :: 0 <= i < |a| ==> a[i] == b[i]
    }
  }
}
