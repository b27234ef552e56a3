/** The lifecycle and focus state machine of the application
    (mirro-rs/src/app/state.rs). */
module AppStates {
  import opened Common

  /** The UI regions that can hold focus. `SelectedCountries` is used by
      mirro-rs/src/app/mod.rs although state.rs at this revision lists only
      the first three. */
  datatype Widgets = CountryFilter | Protocols | Mirrors | SelectedCountries

  /** A `std::time::Duration`, only ever built with `from_secs`. */
  datatype Duration = Duration(secs: nat)

  const DEFAULT_SLEEP: Duration := Duration(1)

  /** `counter += 1` on an unsigned counter, as a release build (no overflow
      checks) runs it: wraps to zero past the largest value. */
  function WrappingIncr32(c: u32): (r: u32)
    ensures c < U32_LIMIT - 1 ==> r == c + 1
    ensures c == U32_LIMIT - 1 ==> r == 0
  {
    (c + 1) % U32_LIMIT
  }

  function WrappingIncr64(c: u64): (r: u64)
    ensures c < U64_LIMIT - 1 ==> r == c + 1
    ensures c == U64_LIMIT - 1 ==> r == 0
  {
    (c + 1) % U64_LIMIT
  }

  datatype AppState =
    | Init
    | Initialized(duration: Duration, counterSleep: u32, counterTick: u64, focusedWidget: Widgets)
  {
    predicate IsInitialized() {
      Initialized?
    }

    /** `incr_sleep`: bumps the sleep counter of an initialized state. */
    function IncrSleep(): (s: AppState)
      ensures s.IsInitialized() == IsInitialized()
      ensures Init? ==> s == this
      ensures Initialized? ==>
                && s.CountSleep() == Some(WrappingIncr32(counterSleep))
                && s.CountTick() == CountTick()
                && s.GetDuration() == GetDuration()
                && s.FocusedWidget() == FocusedWidget()
    {
      match this
      case Init => this
      case Initialized(d, cs, ct, w) => Initialized(d, WrappingIncr32(cs), ct, w)
    }

    /** `incr_tick`: bumps the tick counter of an initialized state. */
    function IncrTick(): (s: AppState)
      ensures s.IsInitialized() == IsInitialized()
      ensures Init? ==> s == this
      ensures Initialized? ==>
                && s.CountTick() == Some(WrappingIncr64(counterTick))
                && s.CountSleep() == CountSleep()
                && s.GetDuration() == GetDuration()
                && s.FocusedWidget() == FocusedWidget()
    {
      match this
      case Init => this
      case Initialized(d, cs, ct, w) => Initialized(d, cs, WrappingIncr64(ct), w)
    }

    function CountSleep(): Option<u32> {
      if Initialized? then Some(counterSleep) else None
    }

    function CountTick(): Option<u64> {
      if Initialized? then Some(counterTick) else None
    }

    function GetDuration(): Option<Duration> {
      if Initialized? then Some(duration) else None
    }

    function FocusedWidget(): Option<Widgets> {
      match this
      case Init => None
      case Initialized(_, _, _, w) => Some(w)
    }

    /** `update_focused_widget`: overwrites the whole state, so the sleep
        duration and both counters go back to their defaults as well, and an
        `Init` state becomes initialized. */
    function UpdateFocusedWidget(widget: Widgets): (s: AppState)
      ensures s.IsInitialized()
      ensures s.FocusedWidget() == Some(widget)
      ensures s.GetDuration() == Some(DEFAULT_SLEEP)
      ensures s.CountSleep() == Some(0) && s.CountTick() == Some(0)
    {
      Initialized(DEFAULT_SLEEP, 0, 0, widget)
    }
  }

  /** `AppState::default()`. */
  function Default(): (s: AppState)
    ensures !s.IsInitialized()
    ensures s.CountSleep().None? && s.CountTick().None?
    ensures s.GetDuration().None? && s.FocusedWidget().None?
  {
    Init
  }

  /** `AppState::initialized()`: the state entered once the catalog is loaded. */
  function DefaultInitialized(): (s: AppState)
    ensures s.IsInitialized()
    ensures s.GetDuration() == Some(DEFAULT_SLEEP)
    ensures s.CountSleep() == Some(0) && s.CountTick() == Some(0)
    ensures s.FocusedWidget() == Some(CountryFilter)
  {
    Initialized(DEFAULT_SLEEP, 0, 0, CountryFilter)
  }

  /** Every getter answers exactly when the state is initialized. */
  lemma GettersAnswerIffInitialized(s: AppState)
    ensures s.IsInitialized() <==> s.FocusedWidget().Some?
    ensures s.IsInitialized() <==> s.GetDuration().Some?
    ensures s.IsInitialized() <==> s.CountSleep().Some?
    ensures s.IsInitialized() <==> s.CountTick().Some?
  {
  }

  /** No transition leads from an initialized state back to `Init`. */
  lemma NoTransitionBackToInit(s: AppState, w: Widgets)
    requires s.IsInitialized()
    ensures s.IncrSleep().IsInitialized()
    ensures s.IncrTick().IsInitialized()
    ensures s.UpdateFocusedWidget(w).IsInitialized()
  {
  }

  /** Changing focus forgets the sleep and tick counters: focusing the same
      widget twice with sleeps in between lands on the same state. */
  lemma FocusChangeResetsCounters(s: AppState, w: Widgets)
    ensures s.IncrSleep().IncrTick().UpdateFocusedWidget(w) == s.UpdateFocusedWidget(w)
    ensures DefaultInitialized() == s.UpdateFocusedWidget(CountryFilter)
  {
  }
}
