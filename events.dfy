/**
  `App::handle_key`: only key presses act; `q` quits, `r` refreshes, the arrow
  keys and their vi aliases move the selection.
*/
module Events {
  import opened Wrappers
  import opened Networks
  import opened Keys
  import opened AppState

  /** The arms of `handle_key`. */
  datatype Action = Nothing | Quit | Refresh | SelectionUp | SelectionDown

  /** The arm `handle_key` takes for a key event. */
  function Dispatch(key: KeyEvent): (a: Action)
    ensures key.kind != Press ==> a == Nothing
  {
    if key.kind != Press then Nothing
    else match key.code
      case Char('q') => Quit
      case Char('r') => Refresh
      case Up | Char('k') => SelectionUp
      case Down | Char('j') => SelectionDown
      case _ => Nothing
  }

  /** `Up` and `k`, `Down` and `j`, act alike, whatever the kind of event. */
  lemma MovementAliases(kind: KeyEventKind)
    ensures Dispatch(KeyEvent(Up, kind)) == Dispatch(KeyEvent(Char('k'), kind))
    ensures Dispatch(KeyEvent(Down, kind)) == Dispatch(KeyEvent(Char('j'), kind))
    ensures kind == Press ==> Dispatch(KeyEvent(Up, kind)) == SelectionUp
    ensures kind == Press ==> Dispatch(KeyEvent(Down, kind)) == SelectionDown
  {
  }

  /**
    A pressed key that is not a movement key takes the arm `on_key` takes:
    quit for `q`, refresh for `r`, nothing otherwise.
  */
  lemma PressAgreesWithOnKey(code: KeyCode)
    requires code != Up && code != Down && code != Char('k') && code != Char('j')
    ensures Dispatch(KeyEvent(code, Press)) == (if code == Char('q') then Quit else if code == Char('r') then Refresh else Nothing)
  {
  }

  /**
    `move_selection_up` is called by `handle_key` but not defined in the
    modelled files; its contract promises nothing, so callers learn nothing
    about its effect on the application state.
  */
  method MoveSelectionUp(app: App)
    modifies app
  {
  }

  /** `move_selection_down`: as `MoveSelectionUp`, not defined in the modelled files. */
  method MoveSelectionDown(app: App)
    modifies app
  {
  }

  /**
    `App::handle_key`, with the scan result a refresh would use given as
    `scan`: after the press check, the arm `Dispatch` picks is the one run, so
    `Up` and `k` (and `Down` and `j`) reach the same selection move.
  */
  method HandleKey(app: App, key: KeyEvent, scan: Result<seq<Network>, string>)
    modifies app
    ensures Dispatch(key) == Nothing ==> app.running == old(app.running) && app.networks == old(app.networks)
    ensures Dispatch(key) == Quit ==> !app.running && app.networks == old(app.networks)
    ensures Dispatch(key) == Refresh ==>
      app.running == old(app.running) && app.networks == Refreshed(old(app.networks), scan)
  {
    if key.kind != Press {
      return;
    }
    match Dispatch(key)
    case Quit => app.running := false;
    case Refresh => app.RefreshNetworks(scan);
    case SelectionUp => MoveSelectionUp(app);
    case SelectionDown => MoveSelectionDown(app);
    case Nothing =>
  }
}
