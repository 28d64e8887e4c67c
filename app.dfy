/**
  The application state: whether the main loop keeps running and the list of
  networks on screen. `refresh_networks` takes what `get_networks` returned as
  a parameter, `scan`, instead of running nmcli.
*/
module AppState {
  import opened Wrappers
  import opened Networks
  import opened Ranking
  import opened Keys

  /**
    The list after a refresh: the scanned list sorted by signal when the scan
    succeeded, the current list when it failed.
  */
  function Refreshed(current: seq<Network>, scan: Result<seq<Network>, string>): (r: seq<Network>)
    ensures scan.Err? ==> r == current
    ensures scan.Ok? ==> SortedBySignal(r) && multiset(r) == multiset(scan.value)
  {
    if scan.Ok? then SortBySignal(scan.value) else current
  }

  class App {
    var running: bool
    var networks: seq<Network>

    /** `App::new`: running, with no networks listed yet. */
    constructor ()
      ensures running && networks == []
    {
      running := true;
      networks := [];
    }

    /** `App::on_key`: `q` stops the main loop, `r` refreshes, any other key does nothing. */
    method OnKey(code: KeyCode, scan: Result<seq<Network>, string>)
      modifies this
      ensures code == Char('q') ==> !running && networks == old(networks)
      ensures code == Char('r') ==> running == old(running) && networks == Refreshed(old(networks), scan)
      ensures code != Char('q') && code != Char('r') ==> running == old(running) && networks == old(networks)
    {
      match code
      case Char('q') => running := false;
      case Char('r') => RefreshNetworks(scan);
      case _ =>
    }

    /** `App::refresh_networks`: a successful scan replaces the list, sorted; a failed one changes nothing. */
    method RefreshNetworks(scan: Result<seq<Network>, string>)
      modifies this
      ensures running == old(running)
      ensures networks == Refreshed(old(networks), scan)
    {
      if scan.Ok? {
        networks := scan.value;
        SortNetworks();
      }
    }

    /** `App::sort_networks`: stable sort by signal text, greatest first. */
    method SortNetworks()
      modifies this
      ensures running == old(running)
      ensures networks == SortBySignal(old(networks))
    {
      networks := SortBySignal(networks);
    }
  }
}
