/**
 * One choice of the select control: its identity (value, label, colour) and the
 * flags that describe its current UI state.
 */
module Options {
  import opened Wrappers

  /** The colour a choice gets when none is supplied. */
  const DefaultColor: string := "#eeeeee"

  /** A snapshot of every field of a choice. */
  datatype OptionState = OptionState(
    value: string,
    labelText: string,
    color: string,
    disabled: bool,
    highlighted: bool,
    selected: bool,
    shown: bool,
    inactive: bool)

  /** The `{label, value}` record reported outside the control, without UI flags. */
  datatype UndecoratedOption = UndecoratedOption(labelText: string, value: string)
  // `label` is a reserved word in Dafny, so the label field is called `labelText` throughout.

  /**
   * The state the constructor leaves: value and label as given, the colour or the
   * default when it is `undefined`, enabled, not highlighted, not selected, shown.
   * `inactive` is never assigned by the constructor; `undefined` is falsy, so false.
   */
  function NewOptionState(value: string, labelText: string, color: Maybe<string>): (o: OptionState) {
    OptionState(value, labelText, color.GetOr(DefaultColor), false, false, false, true, false)
  }

  /** The record `undecoratedCopy` returns for a choice in state `o`. */
  function Undecorated(o: OptionState): (c: UndecoratedOption)
    ensures c.labelText == o.labelText && c.value == o.value
  {
    UndecoratedOption(o.labelText, o.value)
  }

  /** The reported record depends on the identity only: no UI flag reaches it. */
  lemma UndecoratedIgnoresFlags(o: OptionState, disabled: bool, highlighted: bool, selected: bool, shown: bool, inactive: bool)
    ensures Undecorated(o) == Undecorated(o.(disabled := disabled, highlighted := highlighted,
      selected := selected, shown := shown, inactive := inactive))
  {
  }

  class Option {
    var value: string
    var labelText: string
    var color: string
    var disabled: bool
    var highlighted: bool
    var selected: bool
    var shown: bool
    var inactive: bool

    /** All fields of this choice. */
    function State(): (s: OptionState)
      reads this
    {
      OptionState(value, labelText, color, disabled, highlighted, selected, shown, inactive)
    }

    constructor (value: string, labelText: string, color: Maybe<string>)
      ensures this.value == value && this.labelText == labelText
      ensures this.color == (if color.Some? then color.value else DefaultColor)
      ensures !disabled && !highlighted && !selected && shown && !inactive
      ensures State() == NewOptionState(value, labelText, color)
    {
      this.value := value;
      this.labelText := labelText;
      this.color := color.GetOr(DefaultColor);
      this.disabled := false;
      this.highlighted := false;
      this.selected := false;
      this.shown := true;
      this.inactive := false;
    }

    method Show()
      modifies this
      ensures State() == old(State()).(shown := true)
    {
      shown := true;
    }

    method Hide()
      modifies this
      ensures State() == old(State()).(shown := false)
    {
      shown := false;
    }

    method Disable()
      modifies this
      ensures State() == old(State()).(disabled := true)
    {
      disabled := true;
    }

    method Enable()
      modifies this
      ensures State() == old(State()).(disabled := false)
    {
      disabled := false;
    }

    /** `undecoratedCopy()`: a fresh `{label, value}` record that later flag changes cannot affect. */
    function UndecoratedCopy(): (c: UndecoratedOption)
      reads this
      ensures c.labelText == labelText && c.value == value
    {
      Undecorated(State())
    }
  }

  /** Showing twice leaves the same state as showing once, and only `shown` differs. */
  method ShowIsIdempotent(o: Option)
    modifies o
    ensures o.State() == old(o.State()).(shown := true)
  {
    o.Show();
    ghost var once := o.State();
    o.Show();
    assert o.State() == once;
  }

  /** Hiding twice leaves the same state as hiding once. */
  method HideIsIdempotent(o: Option)
    modifies o
    ensures o.State() == old(o.State()).(shown := false)
  {
    o.Hide();
    ghost var once := o.State();
    o.Hide();
    assert o.State() == once;
  }

  /** The copy taken before a flag changes equals the copy taken after it. */
  method CopySurvivesFlagChanges(o: Option) returns (before: UndecoratedOption, after: UndecoratedOption)
    modifies o
    ensures before == after
  {
    before := o.UndecoratedCopy();
    o.Hide();
    o.Disable();
    o.selected := true;
    o.highlighted := true;
    after := o.UndecoratedCopy();
  }
}
