/**
 * The editing mode (src/editor/mode/mod.rs). Nothing else in the editor
 * reads or changes it yet.
 */
module Modes {

  datatype Mode = Navigation | Edition | Selection
  {
    /** `switch_to_navigation` assigns `*self`; here it yields the new value. */
    function SwitchToNavigation(): (m: Mode)
      ensures m.IsNavigationMode()
    {
      Navigation
    }

    function SwitchToEdition(): (m: Mode)
      ensures m.IsEditionMode()
    {
      Edition
    }

    function SwitchToSelection(): (m: Mode)
      ensures m.IsSelectionMode()
    {
      Selection
    }

    predicate IsNavigationMode()
      ensures IsNavigationMode() <==> this == Navigation
    {
      match this
      case Navigation => true
      case Edition => false
      case Selection => false
    }

    predicate IsEditionMode()
      ensures IsEditionMode() <==> this == Edition
    {
      match this
      case Navigation => false
      case Edition => true
      case Selection => false
    }

    predicate IsSelectionMode()
      ensures IsSelectionMode() <==> this == Selection
    {
      match this
      case Navigation => false
      case Edition => false
      case Selection => true
    }
  }

  /** A new editor starts out navigating. */
  function NewMode(): (m: Mode)
    ensures m.IsNavigationMode() && !m.IsEditionMode() && !m.IsSelectionMode()
  {
    Navigation
  }

  /** Exactly one of the three queries holds in every mode. */
  lemma ExactlyOneMode(m: Mode)
    ensures m.IsNavigationMode() || m.IsEditionMode() || m.IsSelectionMode()
    ensures !(m.IsNavigationMode() && m.IsEditionMode())
    ensures !(m.IsNavigationMode() && m.IsSelectionMode())
    ensures !(m.IsEditionMode() && m.IsSelectionMode())
  {
    match m
    case Navigation =>
    case Edition =>
    case Selection =>
  }

  /** Switching to the mode one is already in changes nothing. */
  lemma SwitchToCurrentIsIdentity(m: Mode)
    ensures m.IsNavigationMode() ==> m.SwitchToNavigation() == m
    ensures m.IsEditionMode() ==> m.SwitchToEdition() == m
    ensures m.IsSelectionMode() ==> m.SwitchToSelection() == m
    ensures m.SwitchToEdition().SwitchToEdition() == m.SwitchToEdition()
  {
  }
}
