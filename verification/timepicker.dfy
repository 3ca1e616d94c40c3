/**
 * The Timepicker widget as a value: its merged configuration, the state of
 * its popover and selectors, the text of the bound input, and how a click
 * or a selector change moves it on. The DOM calls that render and wire it up
 * are replaced by the functions of the other modules.
 */
module Timepicker {
  import opened Optional
  import opened SelectOptions
  import opened TimeFormat
  import opened OutsideClick
  import Popover

  /** The `selected` option object; a missing key reads as `undefined`, here `None`. */
  datatype Selected = Selected(hour: Option<int>, minute: Option<int>)

  /** The configuration the widget runs with. */
  datatype Config = Config(disabled: bool, selected: Selected)

  /** The `options` argument of the constructor; a missing key is `None`. */
  datatype UserOptions = UserOptions(disabled: Option<bool>, selected: Option<Selected>)

  /** The built-in defaults: read-only input, no hour and no minute preselected. */
  const Defaults := Config(true, Selected(Some(-1), Some(-1)))

  /**
   * `{ ...defaults, ...options }`: a key the caller supplies replaces the
   * default as a whole (the merge is shallow, so a `selected` object missing
   * one of its keys is not completed from the defaults).
   */
  function Merge(o: UserOptions): (c: Config)
    ensures o.disabled.Some? ==> c.disabled == o.disabled.value
    ensures o.disabled.None? ==> c.disabled == Defaults.disabled
    ensures o.selected.Some? ==> c.selected == o.selected.value
    ensures o.selected.None? ==> c.selected == Defaults.selected
  {
    Config(o.disabled.GetOr(Defaults.disabled), o.selected.GetOr(Defaults.selected))
  }

  /** The `selected` argument as `#generateSelect` sees it: `undefined` falls back to the parameter default 0. */
  function SelectedParam(s: Option<int>): int {
    s.GetOr(0)
  }

  /** The rendered hour selector: values 0 to 23 in steps of 1. */
  function HourSelect(c: Config): seq<SelectOption> {
    GenerateSelect(0, 23, 1, SelectedParam(c.selected.hour))
  }

  /** The rendered minute selector: values 0 to 59 in steps of 5. */
  function MinuteSelect(c: Config): seq<SelectOption> {
    GenerateSelect(0, 59, 5, SelectedParam(c.selected.minute))
  }

  /** The hour selector starts on the configured hour when it is 0 to 23, blank otherwise. */
  lemma InitialHour(p: int)
    ensures InitialValue(GenerateSelect(0, 23, 1, p)) == if 0 <= p <= 23 then Some(p as nat) else None
  {
    InitialValueOnGrid(0, 23, 1, p);
  }

  /** The minute selector starts on the configured minute when it is a multiple of 5 up to 59, blank otherwise. */
  lemma InitialMinute(p: int)
    ensures InitialValue(GenerateSelect(0, 59, 5, p)) == if 0 <= p <= 59 && p % 5 == 0 then Some(p as nat) else None
  {
    InitialValueOnGrid(0, 59, 5, p);
  }

  /** The classes the selector panel is rendered with; `"show"` is not among them. */
  const PanelClasses := ["timepicker-selectors", "container-fluid"]

  /**
   * A widget: whether the input is read-only, the panel's class list, the
   * configuration, the values the hour and minute selectors show (`None` for
   * the blank sentinel) and the text of the bound input.
   */
  datatype Widget = Widget(
    readOnly: bool,
    classes: seq<string>,
    config: Config,
    hour: Option<nat>,
    minute: Option<nat>,
    value: string)

  /** The input shows what `setHours` computes from the selectors. */
  predicate Synced(w: Widget) {
    w.value == FormatTime(w.hour, w.minute)
  }

  /** An hour the hour selector can show: blank or 0 to 23. */
  predicate HourChoice(v: Option<nat>) {
    v.None? || v.value <= 23
  }

  /** A minute the minute selector can show: blank or a multiple of 5 up to 55. */
  predicate MinuteChoice(v: Option<nat>) {
    v.None? || (v.value <= 55 && v.value % 5 == 0)
  }

  /** The hour selector can be set to blank or to exactly the hours 0 to 23. */
  lemma HourSelectOffers(c: Config, v: Option<nat>)
    ensures (v.None? || Offers(HourSelect(c), v.value)) <==> HourChoice(v)
  {
    if v.Some? {
      OffersIff(0, 23, 1, SelectedParam(c.selected.hour), v.value);
    }
  }

  /** The minute selector can be set to blank or to exactly the multiples of 5 up to 55. */
  lemma MinuteSelectOffers(c: Config, v: Option<nat>)
    ensures (v.None? || Offers(MinuteSelect(c), v.value)) <==> MinuteChoice(v)
  {
    if v.Some? {
      OffersIff(0, 59, 5, SelectedParam(c.selected.minute), v.value);
    }
  }

  /** Each selector shows its blank sentinel or one of its own options. */
  predicate Valid(w: Widget) {
    HourChoice(w.hour) && MinuteChoice(w.minute)
  }

  /**
   * The values the two rendered selectors start with: the configured hour
   * when it is 0 to 23, the configured minute when it is a multiple of 5 up
   * to 59, the blank sentinel otherwise.
   */
  function InitialSelection(c: Config): (r: (Option<nat>, Option<nat>))
    ensures r.0 == InitialValue(HourSelect(c))
    ensures r.1 == InitialValue(MinuteSelect(c))
  {
    var hp, mp := SelectedParam(c.selected.hour), SelectedParam(c.selected.minute);
    InitialHour(hp);
    InitialMinute(mp);
    (if 0 <= hp <= 23 then Some(hp as nat) else None,
     if 0 <= mp <= 59 && mp % 5 == 0 then Some(mp as nat) else None)
  }

  /** A configured selection always starts the selectors on entries they offer. */
  lemma InitialSelectionValid(c: Config)
    ensures HourChoice(InitialSelection(c).0) && MinuteChoice(InitialSelection(c).1)
  {
    var mp := SelectedParam(c.selected.minute);
    if 0 <= mp <= 59 && mp % 5 == 0 {
      assert mp <= 55;
    }
  }

  /**
   * The constructor followed by `#init` for an input that exists: the input
   * is made read-only per `disabled`, the panel is rendered hidden, the
   * selectors start on their initial selection, and `setHours` writes the
   * matching text into the input.
   */
  function Init(o: UserOptions): (w: Widget)
    ensures w.readOnly == Merge(o).disabled
    ensures !Popover.IsOpen(w.classes)
    ensures w.config == Merge(o)
    ensures (w.hour, w.minute) == InitialSelection(Merge(o))
    ensures Synced(w) && Valid(w)
  {
    var c := Merge(o);
    var sel := InitialSelection(c);
    InitialSelectionValid(c);
    Widget(c.disabled, PanelClasses, c, sel.0, sel.1, FormatTime(sel.0, sel.1))
  }

  /** What the user can do: click somewhere, or pick an entry of a selector. */
  datatype Event = Click(target: Node) | ChangeHour(choice: Option<nat>) | ChangeMinute(choice: Option<nat>)

  /** A selector can only be changed to the blank sentinel or to one of its options. */
  predicate Allowed(c: Config, e: Event) {
    match e
    case Click(_) => true
    case ChangeHour(v) => v.None? || Offers(HourSelect(c), v.value)
    case ChangeMinute(v) => v.None? || Offers(MinuteSelect(c), v.value)
  }

  /**
   * One event, given the document `d`, the bound input and the container.
   * A click first reaches the input's own listener (which opens the panel
   * when the input was clicked) and then bubbles to the document listener
   * (which closes it when the click was outside). A selector change runs
   * `setHours`.
   */
  function Step(w: Widget, d: Dom, input: Node, container: Node, e: Event): (w': Widget)
    requires WellFormed(d)
    requires Allowed(w.config, e)
    ensures w'.config == w.config && w'.readOnly == w.readOnly
    ensures e.Click? ==> w'.hour == w.hour && w'.minute == w.minute && w'.value == w.value
    ensures e.Click? ==>
              (Popover.IsOpen(w'.classes) <==>
                 (InsideChain(d, e.target, container) && (e.target == input || Popover.IsOpen(w.classes))))
    ensures e.Click? && e.target != input && InsideChain(d, e.target, container) ==> w'.classes == w.classes
    ensures e.ChangeHour? ==> w'.hour == e.choice && w'.minute == w.minute && w'.classes == w.classes
    ensures e.ChangeMinute? ==> w'.minute == e.choice && w'.hour == w.hour && w'.classes == w.classes
    ensures !e.Click? ==> Synced(w')
    ensures Synced(w) ==> Synced(w')
    ensures Valid(w) ==> Valid(w')
  {
    match e
    case ChangeHour(v) =>
      HourSelectOffers(w.config, v);
      w.(hour := v, value := FormatTime(v, w.minute))
    case ChangeMinute(v) =>
      MinuteSelectOffers(w.config, v);
      w.(minute := v, value := FormatTime(w.hour, v))
    case Click(target) =>
      ClickOutsideIff(d, target, container);
      var shown := if target == input then Popover.Open(w.classes) else w.classes;
      var classes := if ClickOutside(d, target, container) then Popover.Close(shown) else shown;
      w.(classes := classes)
  }

  /** Every event of the sequence can happen under the configuration. */
  predicate AllAllowed(c: Config, es: seq<Event>) {
    forall i :: 0 <= i < |es| ==> Allowed(c, es[i])
  }

  /** The widget after a sequence of events. */
  function Run(w: Widget, d: Dom, input: Node, container: Node, es: seq<Event>): (w': Widget)
    requires WellFormed(d)
    requires AllAllowed(w.config, es)
    ensures w'.config == w.config
    decreases |es|
  {
    if |es| == 0 then w
    else Run(Step(w, d, input, container, es[0]), d, input, container, es[1..])
  }

  /**
   * From construction on, whatever the user clicks or picks, the input shows
   * exactly the text `setHours` derives from the selectors, and each selector
   * shows one of its own entries.
   */
  lemma {:induction false} RunKeepsSynced(w: Widget, d: Dom, input: Node, container: Node, es: seq<Event>)
    requires WellFormed(d)
    requires AllAllowed(w.config, es)
    requires Synced(w) && Valid(w)
    ensures Synced(Run(w, d, input, container, es)) && Valid(Run(w, d, input, container, es))
    decreases |es|
  {
    if |es| > 0 {
      var w1 := Step(w, d, input, container, es[0]);
      assert AllAllowed(w1.config, es[1..]) by {
        forall i | 0 <= i < |es[1..]|
          ensures Allowed(w1.config, es[1..][i])
        {
          assert es[1..][i] == es[i + 1];
        }
      }
      RunKeepsSynced(w1, d, input, container, es[1..]);
    }
  }

  /**
   * In a valid, synced widget the input is empty or holds `HH:MM` with an
   * hour from 0 to 23 and a minute that is a multiple of 5 up to 55, and it
   * reads back as exactly the selectors' values.
   */
  lemma InputShape(w: Widget)
    requires Synced(w) && Valid(w)
    ensures w.value == "" <==> w.hour.None? || w.minute.None?
    ensures w.value != "" ==>
              && w.hour.value <= 23
              && w.minute.value <= 55 && w.minute.value % 5 == 0
              && ReadTime(w.value) == Some((w.hour.value, w.minute.value))
  {
    FormatReadRoundTrip(w.hour, w.minute);
  }

  /** Without options the input is read-only, both selectors are blank and the input is empty. */
  lemma DefaultInit()
    ensures var w := Init(UserOptions(None, None));
            && w.readOnly
            && w.hour.None? && w.minute.None?
            && w.value == ""
  {
  }

  /**
   * Because the merge is shallow, `selected: {hour: h}` leaves the minute
   * `undefined`; `#generateSelect` then falls back to its default 0, so the
   * minute selector starts on 0 and the input on `h` at zero minutes.
   */
  lemma HourOnlySelectionPicksMinuteZero(h: nat)
    requires h <= 23
    ensures var w := Init(UserOptions(None, Some(Selected(Some(h), None))));
            && w.hour == Some(h) && w.minute == Some(0)
            && ReadTime(w.value) == Some((h, 0))
  {
    FormatReadRoundTrip(Some(h), Some(0));
  }

  /** Picking a minute keeps the hour already picked, and the input shows both. */
  lemma ChangeMinuteKeepsHour(w: Widget, d: Dom, input: Node, container: Node, h: nat, m: nat)
    requires WellFormed(d)
    requires w.hour == Some(h)
    requires Offers(MinuteSelect(w.config), m)
    ensures var w' := Step(w, d, input, container, ChangeMinute(Some(m)));
            && w'.hour == Some(h) && w'.minute == Some(m)
            && (h < 100 ==> ReadTime(w'.value) == Some((h, m)))
  {
    MinuteSelectOffers(w.config, Some(m));
    if h < 100 {
      FormatReadRoundTrip(Some(h), Some(m));
    }
  }
}
