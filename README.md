# wi-tui access-point inventory, modelled in Dafny

wi-tui is a terminal dashboard that lists nearby Wi-Fi access points. It runs
`nmcli -t -f SSID,SIGNAL,SECURITY,RATE,BARS device wifi list` and parses each
output line into a `Network` record. It keeps one record per SSID and shows
the list sorted by signal. The user drives it with keys: `q` quits, `r`
rescans, and the arrow keys or `k`/`j` move the selection.

This project models that pipeline and the key-driven `App` state around it:

- `signal_order.dfy` (`SignalOrder`): Rust's ordering of `String`. It is
  lexicographic by character, and the program uses it for the signal column.
  It is proved to be a total order.
- `text.dfy` (`Text`): `str::split(':')` with its inverse `Join`, and the
  round trips between them.
- `networks.dfy` (`Networks`): the `Network` record (src/networks.rs:3-10),
  all five columns kept as text, and `from_nmcli_line`.
  `Scan` is the fold `get_networks` performs over the lines. `GetNetworks`
  is the imperative loop over a map, followed by collecting the map's values
  in an unspecified order.
- `ranking.dfy` (`Ranking`): `sort_by(|a, b| b.signal.cmp(&a.signal))`. This
  is a stable sort with the greatest signal first. It is specified by
  insertion sort, and that result is proved to be the only sorted, stable
  rearrangement.
- `keys.dfy` (`Keys`): the crossterm key event fields the program reads.
- `app.dfy` (`AppState`): the class `App` with fields `running` and
  `networks`, and methods `new`, `on_key`, `refresh_networks` and
  `sort_networks`.
- `events.dfy` (`Events`): `handle_key`, written as a method on an `App`.
  `Dispatch` is the key-to-arm table it is proved against.

The signal column is text in the code, and both the dedup (`>` on `String`)
and the sort (`String::cmp`) compare it as text. So `"9"` ranks above `"45"`,
and `"100"` ranks below `"45"`.

The output of nmcli is a parameter: `GetNetworks` takes its lines. The scan
that `refresh_networks` performs is a parameter too: a
`Result<seq<Network>, string>` standing for what `get_networks()` returned.

## Model

| member | source | states |
|---|---|---|
| `SignalOrder.LeqTotalOrder` | src/networks.rs:45 | The string comparison used for signals is reflexive, total, transitive and antisymmetric: a total order, so also a total preorder |
| `SignalOrder.LessIrreflexive` | src/networks.rs:45 | No signal is strictly greater than itself, so an equal signal never replaces the kept record |
| `SignalOrder.LessTransitive` | src/app.rs:34 | Strict string order is transitive |
| `SignalOrder.LessTrichotomous` | src/app.rs:34 | Any two signal strings are equal or strictly ordered one way |
| `SignalOrder.LessAsymmetric` | src/app.rs:34 | Strict string order is asymmetric |
| `SignalOrder.LeqLessTransitive` | src/networks.rs:45 | `a <= b < c` gives `a < c` |
| `SignalOrder.NotNumeric` | src/networks.rs:45 | Signals compare as text: "45" < "9" and "100" < "45" |
| `Text.Split` | src/networks.rs:15 | Splitting on ':' gives one more field than there are colons, and no field contains a colon |
| `Text.JoinSplit` | src/networks.rs:15 | Splitting loses nothing: joining the fields with ':' gives back the line |
| `Text.SplitJoin` | src/networks.rs:15 | Colon-free fields joined with ':' split back into the same fields |
| `Text.SplitAppend` | src/networks.rs:15 | The fields of `a:b` are the fields of `a` followed by those of `b` |
| `Text.SplitFirstEmpty` | src/networks.rs:17 | The first field is empty exactly when the line is empty or starts with ':' |
| `Networks.FromNmcliLine` | src/networks.rs:14-28 | A line is rejected iff it has fewer than 4 colons (fewer than 5 fields) or its SSID field is empty; an accepted record has a non-empty SSID and colon-free columns |
| `Networks.ParseLine` | src/networks.rs:21-27 | A record's own line, followed by nothing or by any further ':'-led fields, parses back to exactly that record: fields 0-4 are copied verbatim and the rest are ignored |
| `Networks.AcceptedLineShape` | src/networks.rs:15-27 | Every accepted line begins with the line of the record it yields, followed by the end of the line or a ':' |
| `Networks.HiddenExample` | src/networks.rs:17-18 | A line with an empty SSID yields no record, even with five fields |
| `Networks.CafeExample` | src/networks.rs:21-27 | `CafeWifi:45:WPA2:54Mbit/s:▂▄` yields the record with those five fields |
| `Networks.Accepted` | src/networks.rs:40-41 | The accepted records are exactly the parses of the lines the parser does not reject |
| `Networks.MergeStep` | src/networks.rs:42-49 | One `entry().and_modify().or_insert()` step keeps the map an exact summary of the records read so far |
| `Networks.ScanEntry` | src/networks.rs:38-51 | An SSID has an entry iff some accepted line carries it; the entry is an accepted record, unmodified, whose signal is >= that of every accepted record with that SSID, and every earlier one has a strictly smaller signal (the first maximum is kept) |
| `Networks.KeptAtUnique` | src/networks.rs:44-47 | At most one record qualifies as the kept one for an SSID |
| `Networks.Merge` | src/networks.rs:42-49 | One loop step: the record's SSID gets an entry and no other entry changes; the entry is the new record or the old one; its signal is at least the new record's and never drops below the old one; the old entry is replaced only when the new signal text is strictly greater; entries stay keyed by their own SSID |
| `Networks.Scan` | src/networks.rs:38-51 | The fold of `Merge` over the accepted lines in input order (rejected lines skipped); every entry is stored under its own record's SSID |
| `Networks.ScanDependsOnlyOnAccepted` | src/networks.rs:40-41 | Rejected lines contribute nothing: inputs with the same accepted records give the same map |
| `Networks.TextualSignalWins` | src/networks.rs:44-47 | A later line with signal "9" replaces an earlier one with signal "45" for the same SSID |
| `Networks.TieKeepsFirst` | src/networks.rs:45-46 | On equal signal text the first line's record is kept |
| `Networks.GetNetworks` | src/networks.rs:32-54 | The loop builds exactly the fold's map; the result is `Ok` and lists each map value once, with one record per SSID, in an unspecified order |
| `Networks.ListsUpToOrder` | src/networks.rs:53 | Any two listings of the same map are permutations of each other: only the order is unspecified |
| `Networks.ListedInventory` | src/networks.rs:38-53 | The returned list has at most one record per SSID, every accepted SSID appears in it, and each record is the kept accepted record for its SSID |
| `Ranking.SortBySignal` | src/app.rs:33-34 | The sorted list is a permutation of the input with signals non-increasing |
| `Ranking.SortIsStable` | src/app.rs:34 | Records with equal signal keep their relative order |
| `Ranking.StableSortUnique` | src/app.rs:34 | Two sorted lists with the same records per signal, in the same order, are equal |
| `Ranking.SortBySignalUnique` | src/app.rs:34 | Any sorted, stable rearrangement of a list equals `SortBySignal` of it: the model is the only possible result of `sort_by` |
| `Ranking.SortedUnchanged` | src/app.rs:34 | An already sorted list is left as it is |
| `Ranking.SortIdempotent` | src/app.rs:33-34 | Sorting twice equals sorting once |
| `AppState.Refreshed` | src/app.rs:26-31 | After a failed scan the list is unchanged; after a successful one it is a sorted permutation of the scanned list |
| `AppState.App.constructor` | src/app.rs:11-16 | A new app is running with no networks |
| `AppState.App.OnKey` | src/app.rs:18-24 | `q` clears `running` and leaves the list; `r` refreshes and leaves `running`; any other code changes nothing |
| `AppState.App.RefreshNetworks` | src/app.rs:26-31 | The list becomes the sorted scan on success and stays as it was on failure; `running` is untouched |
| `AppState.App.SortNetworks` | src/app.rs:33-35 | The list becomes its stable sort by signal; `running` is untouched |
| `Events.Dispatch` | src/events.rs:20-31 | A key event that is not a press selects no action; the table itself, with the source's or-patterns (Up or k, Down or j), is the definition the other key members are stated against |
| `Events.MovementAliases` | src/events.rs:28-29 | `Up` and `k` select the same action, and so do `Down` and `j`; pressed, they move the selection. `HandleKey` branches only on `Dispatch(key)`, so the aliases run the same selection move there too |
| `Events.PressAgreesWithOnKey` | src/events.rs:25-30 | A pressed key other than the movement keys takes the same arm as `on_key`: quit for `q`, refresh for `r`, nothing otherwise |
| `Events.HandleKey` | src/events.rs:20-32 | Non-press events and unbound keys change nothing; a pressed `q` clears `running` and leaves the list; a pressed `r` has exactly the effect of `refresh_networks` |

## Left out

- Events.HandleKey: says nothing about the state after `Up`, `Down`, `k` or `j`. Those arms call `move_selection_up` and `move_selection_down`, which are not defined in the modelled files. `Events.MoveSelectionUp` and `Events.MoveSelectionDown` stand for them with no contract at all, and the model invents no selection or scroll state.
- Networks.GetNetworks: the `Command::new("nmcli")` spawn and the `expect` panic when nmcli cannot be run are I/O and are not modelled. The function takes the decoded output lines, and the `from_utf8_lossy` and `lines()` decoding is not modelled either.
- Networks.GetNetworks: `HashMap::into_values` order is a nondeterministic choice of the next key. The result is specified only up to order.
- AppState.App.RefreshNetworks: `get_networks()` is not called. Its result is the `scan` parameter.
- `App::handle_event` (src/events.rs:13-18): a blocking terminal read through crossterm. It is I/O.
- src/ui.rs: ratatui layout and rendering. These are foreign library calls.
- src/main.rs: the `network_manager` crate, the tokio runtime and printing. These are foreign calls and I/O.
- Key modifiers and key-event state in crossterm's `KeyEvent`: `handle_key` never reads them.
- Rust's actual sorting algorithm: only its result is modelled, and that result is unique for a stable sort.
- Escaped colons in nmcli's terse output (`\:`): the code splits on every ':', and so does the model. The round-trip lemmas therefore require colon-free columns.
