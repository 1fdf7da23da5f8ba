/**
 * Properties of the option list that relate several operations or hold for every
 * input: what the highlight pass picks, what the capped view keeps, what filtering
 * and value assignment leave, and scenarios that combine the class's methods.
 */
module OptionListLemmas {
  import opened Wrappers
  import opened Seqs
  import opened Texts
  import opened Options
  import opened OptionLists

  // ----- Highlight -----

  /**
   * `highlight()` picks the first shown and selected choice when there is one,
   * otherwise the first shown choice, and nothing only when nothing is shown.
   */
  lemma HighlightTargetChoice(os: seq<OptionState>)
    ensures var r := HighlightTarget(os);
      && -1 <= r < |os|
      && (r == -1 <==> !AnyShown(os))
      && (r >= 0 ==> os[r].shown)
      && (HasShownSelected(os) ==>
            r >= 0 && os[r].selected && forall j :: 0 <= j < r ==> !(os[j].shown && os[j].selected))
      && (!HasShownSelected(os) ==> forall j :: 0 <= j < r ==> !os[j].shown)
  {
    var r := HighlightTarget(os);
    if HasShownSelected(os) {
      assert IsShownSelected(os[r]);
      forall j | 0 <= j < r ensures !(os[j].shown && os[j].selected) {
        assert !IsShownSelected(os[j]);
      }
    } else {
      if AnyShown(os) {
        var i :| 0 <= i < |os| && os[i].shown;
        assert IsShown(os[i]);
      }
      if r >= 0 {
        assert IsShown(os[r]);
      }
    }
  }

  /** The highlight pass reads only `shown` and `selected`, so it ignores where the highlight was. */
  lemma HighlightTargetIgnoresHighlight(os: seq<OptionState>, k: int)
    ensures HighlightTarget(WithHighlight(os, k)) == HighlightTarget(os)
  {
    var h := WithHighlight(os, k);
    assert forall j :: 0 <= j < |os| ==> IsShown(h[j]) == IsShown(os[j]);
    assert forall j :: 0 <= j < |os| ==> IsShownSelected(h[j]) == IsShownSelected(os[j]);
    HighlightTargetChoice(os);
    HighlightTargetChoice(h);
  }

  /** Whatever is highlighted, the list flags at most one choice: the cached one. */
  lemma AtMostOneHighlighted(os: seq<OptionState>, k: int, i: nat, j: nat)
    requires -1 <= k < |os|
    requires i < |os| && j < |os|
    requires WithHighlight(os, k)[i].highlighted && WithHighlight(os, k)[j].highlighted
    ensures i == j == k
  {
  }

  /** Every highlight change leaves the flags and the cached position in the agreement `Valid()` demands. */
  lemma HighlightKeepsCacheConsistent(os: seq<OptionState>, k: int)
    requires -1 <= k < |os|
    ensures HighlightConsistent(WithHighlight(os, k), k)
  {
  }

  // ----- Capped view -----

  /**
   * The capped view keeps the shown choices in order and no more than the cap;
   * the truncation flag is set exactly when there are more shown choices than the cap.
   */
  lemma CappedViewIsShownPrefix(os: seq<OptionState>, cap: Maybe<nat>)
    ensures forall i :: 0 <= i < |os| ==> (i in ShownIndices(os) <==> os[i].shown)
    ensures CappedView(os, cap) <= ShownIndices(os)
    ensures cap.Some? ==> |CappedView(os, cap)| <= cap.value
    ensures Truncated(os, cap) <==> |CappedView(os, cap)| < |ShownIndices(os)|
    ensures !Truncated(os, cap) ==> CappedView(os, cap) == ShownIndices(os)
  {
    forall i | 0 <= i < |os| && i in ShownIndices(os) ensures os[i].shown {
      var k :| 0 <= k < |ShownIndices(os)| && ShownIndices(os)[k] == i;
      assert IsShown(os[i]);
    }
  }

  /**
   * A step of `highlightNextOption` either stays put, when the highlighted choice is
   * the last item of the capped view or not in it, or lands on the shown choice that
   * follows it in the view, which comes later in the list.
   */
  lemma NextStepMovesForward(os: seq<OptionState>, cap: Maybe<nat>, h: int)
    ensures var view := CappedView(os, cap);
      var k := Position(view, h);
      var r := StepForward(view, h);
      && (k == -1 || k == |view| - 1 <==> r == h)
      && (r != h ==> 0 <= k < |view| - 1 && r == view[k + 1] && os[r].shown && r > h)
  {
    var view := CappedView(os, cap);
    var k := Position(view, h);
    if 0 <= k < |view| - 1 {
      assert view[k] < view[k + 1];
    }
  }

  /**
   * A step of `highlightPreviousOption` either stays put, when the highlighted choice
   * is the first item of the capped view or not in it, or lands on the shown choice
   * before it in the view, which comes earlier in the list.
   */
  lemma PreviousStepMovesBack(os: seq<OptionState>, cap: Maybe<nat>, h: int)
    ensures var view := CappedView(os, cap);
      var k := Position(view, h);
      var r := StepBack(view, h);
      && (k <= 0 <==> r == h)
      && (r != h ==> 0 < k && r == view[k - 1] && os[r].shown && r < h)
  {
    var view := CappedView(os, cap);
    var k := Position(view, h);
    if k > 0 {
      assert view[k - 1] < view[k];
    }
  }

  // ----- Filter -----

  /** A term that trims to empty shows everything; otherwise a choice is shown iff its normalised label contains the normalised term. */
  lemma FilterShowsExactlyMatches(os: seq<OptionState>, term: string, norm: string -> string)
    ensures |ApplyFilter(os, term, norm)| == |os|
    ensures (forall i :: 0 <= i < |term| ==> IsTrimmable(term[i])) ==>
      forall j :: 0 <= j < |os| ==> ApplyFilter(os, term, norm)[j].shown
    ensures !(forall i :: 0 <= i < |term| ==> IsTrimmable(term[i])) ==>
      forall j :: 0 <= j < |os| ==>
        (ApplyFilter(os, term, norm)[j].shown <==>
          exists p: nat :: OccursAt(norm(os[j].labelText), norm(term), p))
  {
    TrimIsEmptyIffAllTrimmable(term);
    forall j | 0 <= j < |os| {
      IndexOfFindsIffOccurs(norm(os[j].labelText), norm(term));
    }
  }

  /** Filtering touches only `shown`: selection, highlight, values and labels stay. */
  lemma FilterKeepsEverythingButShown(os: seq<OptionState>, term: string, norm: string -> string)
    ensures forall j :: 0 <= j < |os| ==>
      ApplyFilter(os, term, norm)[j] == os[j].(shown := ApplyFilter(os, term, norm)[j].shown)
  {
  }

  /** In the blank case something is shown exactly when the list is non-empty. */
  lemma BlankFilterShowsSomethingIffNonEmpty(os: seq<OptionState>, term: string, norm: string -> string)
    requires IsBlank(term)
    ensures AnyShown(ApplyFilter(os, term, norm)) <==> |os| > 0
  {
    if |os| > 0 {
      assert ApplyFilter(os, term, norm)[0].shown;
    }
  }

  /** Filtering by the same term twice shows the same choices as filtering once. */
  lemma FilterIsIdempotent(os: seq<OptionState>, term: string, norm: string -> string)
    ensures ApplyFilter(ApplyFilter(os, term, norm), term, norm) == ApplyFilter(os, term, norm)
  {
  }

  /**
   * Repeating `filter(term)` on the state the first call left changes nothing: the
   * shown flags, the highlight and the shown-flag summary stay, so the second call
   * reports no transition to empty.
   */
  lemma {:induction false} FilterAgainIsNoOp(os: seq<OptionState>, term: string, norm: string -> string)
    ensures var f1 := ApplyFilter(os, term, norm);
      var once := WithHighlight(f1, HighlightTarget(f1));
      var f2 := ApplyFilter(once, term, norm);
      && HighlightTarget(f2) == HighlightTarget(f1)
      && WithHighlight(f2, HighlightTarget(f2)) == once
      && AnyShown(f2) == AnyShown(once)
  {
    var f1 := ApplyFilter(os, term, norm);
    var t := HighlightTarget(f1);
    var once := WithHighlight(f1, t);
    var f2 := ApplyFilter(once, term, norm);
    FilterIsIdempotent(os, term, norm);
    FilterCommutesWithHighlight(f1, t, term, norm);
    assert f2 == once;
    HighlightTargetIgnoresHighlight(f1, t);
    HighlightTwice(f1, t);
  }

  /** Filtering and moving the highlight touch different flags, so their order does not matter. */
  lemma FilterCommutesWithHighlight(os: seq<OptionState>, k: int, term: string, norm: string -> string)
    ensures ApplyFilter(WithHighlight(os, k), term, norm) == WithHighlight(ApplyFilter(os, term, norm), k)
  {
  }

  /** Highlighting the same choice twice is the same as once. */
  lemma HighlightTwice(os: seq<OptionState>, k: int)
    ensures WithHighlight(WithHighlight(os, k), k) == WithHighlight(os, k)
  {
  }

  // ----- Value assignment -----

  /** After `setValue(vs)` the selected values are exactly the choice values that `vs` names. */
  lemma ValueAfterSetValue(os: seq<OptionState>, vs: seq<string>)
    ensures forall x :: x in Value(WithSelection(os, vs)) <==>
      x in vs && exists i :: 0 <= i < |os| && os[i].value == x
  {
    var s := WithSelection(os, vs);
    forall x | x in vs && exists i :: 0 <= i < |os| && os[i].value == x
      ensures x in Value(s)
    {
      var i :| 0 <= i < |os| && os[i].value == x;
      assert s[i].selected && s[i].value == x;
    }
  }

  /** `setValue([])` (and `setValue(null)`) leaves nothing selected. */
  lemma SetValueEmptyClears(os: seq<OptionState>)
    ensures Selection(WithSelection(os, [])) == []
    ensures WithSelection(os, []) == WithoutSelection(os)
  {
  }

  /** A pushed fallback is found by its value and is selected by `setValue([value])`. */
  lemma {:induction false} FallbackIsSelectableByValue(os: seq<OptionState>, labelText: string, value: string)
    ensures var pushed := os + [Fallback(labelText, value)];
      && |pushed| == |os| + 1 && pushed[|os|].inactive && pushed[..|os|] == os
      && |os| in OptionsByValue(pushed, value)
      && |os| in Selection(WithSelection(pushed, [value]))
  {
    var pushed := os + [Fallback(labelText, value)];
    assert pushed[|os|].value == value;
    assert WithSelection(pushed, [value])[|os|].selected;
  }

  /** Only choices the list holds can be found by value: a value no choice has finds nothing. */
  lemma UnknownValueFindsNothing(os: seq<OptionState>, v: string)
    requires forall i :: 0 <= i < |os| ==> os[i].value != v
    ensures OptionsByValue(os, v) == []
  {
  }

  // ----- Scenarios over the class -----

  /** Two `filter` calls with the same term: the second reports no transition and leaves the state one call leaves. */
  method FilterTwice(l: OptionList, term: string, norm: string -> string) returns (first: bool, second: bool)
    requires l.Valid()
    modifies l
    ensures l.Valid() && !second
    ensures var f := ApplyFilter(old(l.opts), term, norm);
      l.highlightedIdx == HighlightTarget(f) && l.opts == WithHighlight(f, HighlightTarget(f))
    ensures l.hasShown == AnyShown(l.opts)
  {
    first := l.Filter(term, norm);
    ghost var once := l.opts;
    FilterAgainIsNoOp(old(l.opts), term, norm);
    second := l.Filter(term, norm);
    assert l.opts == once;
  }

  /**
   * The component's fallback path for a value `v` it has no choice for: push the fetched
   * label under `v[0]`, then set the whole value `v`.
   */
  method PushFallbackThenSelect(l: OptionList, labelText: string, v: seq<string>) returns (found: bool)
    requires l.Valid() && |v| > 0
    modifies l
    ensures l.Valid() && found
    ensures l.opts == WithSelection(old(l.opts) + [Fallback(labelText, v[0])], v)
    ensures |l.opts| == |old(l.opts)| + 1 && l.opts[|old(l.opts)|].selected && l.opts[|old(l.opts)|].inactive
  {
    l.PushFallbackOption(labelText, v[0]);
    found := l.SetValue(Some(v));
    assert l.opts[|l.opts| - 1].value == v[0];
  }

  /**
   * `_hasShown` is only refreshed by `filter`: a fallback pushed onto an empty list is
   * shown, yet a non-matching filter afterwards does not report a transition to empty.
   */
  method EmptyListFallbackThenFilter(labelText: string, value: string, term: string, norm: string -> string)
    returns (shownBefore: bool, toEmpty: bool)
    requires !IsBlank(term) && !Matches(labelText, term, norm)
    ensures shownBefore && !toEmpty
  {
    var l := new OptionList(None, None);
    l.PushFallbackOption(labelText, value);
    shownBefore := l.opts[0].shown;
    toEmpty := l.Filter(term, norm);
  }

  /** A freshly built non-empty list highlights its first choice, and navigating back from it stays put. */
  method FirstChoiceHighlightedAfterConstruction(records: seq<RawOption>, cap: Maybe<nat>) returns (index: int)
    requires |records| > 0 && (cap.None? || cap.value > 0)
    ensures index == 0
  {
    var l := new OptionList(Some(records), cap);
    ghost var built := l.opts;
    HeadLeadsView(built, cap);
    l.HighlightPreviousOption();
    WithCurrentHighlight(built, 0);
    index := l.GetHighlightedIndex();
  }

  /** A shown first choice is the first item of the capped view when the cap admits one. */
  lemma HeadLeadsView(os: seq<OptionState>, cap: Maybe<nat>)
    requires |os| > 0 && os[0].shown && (cap.None? || cap.value > 0)
    ensures Position(CappedView(os, cap), 0) == 0
  {
    FirstWhereIsHeadOfIndices(os, IsShown);
    assert IsShown(os[0]);
    assert ShownIndices(os)[0] == 0;
    assert CappedView(os, cap)[0] == 0;
  }

  /** `select(o, false)` after any earlier selection leaves `o` as the only selected choice. */
  method SingleSelectAfterMultiSelect(l: OptionList, i: nat, j: nat) returns (sel: seq<nat>)
    requires l.Valid() && i < |l.opts| && j < |l.opts|
    modifies l
    ensures sel == [j]
  {
    l.Select(i, true);
    l.Select(j, false);
    sel := Selection(l.opts);
  }

  // ----- Value equality -----

  /** `equalValues` ignores order and counts duplicates. */
  lemma EqualValuesExamples()
    ensures OptionList.EqualValues(["a", "b"], ["b", "a"])
    ensures !OptionList.EqualValues(["a", "a"], ["a", "b"])
    ensures !OptionList.EqualValues(["a"], ["a", "b"])
  {
    assert multiset(["a", "b"]) == multiset(["b", "a"]);
    assert multiset(["a", "a"])["a"] == 2;
    assert multiset(["a", "b"])["a"] == 1;
  }

  /** `equalValues` is symmetric, and equality is preserved by reordering either side. */
  lemma EqualValuesIsOrderIndependent(a: seq<string>, b: seq<string>, a': seq<string>)
    requires multiset(a') == multiset(a)
    ensures OptionList.EqualValues(a, b) == OptionList.EqualValues(b, a)
    ensures OptionList.EqualValues(a, b) == OptionList.EqualValues(a', b)
  {
  }
}
