# electric_gui presenters in Dafny

This project models the logic inside three presenters of the electric_gui
power-grid explorer. The window, the tables and the drawing are not modelled.

- **`GUI::Congestion`** is the congestion-reduction search and the selection
  state machine of its results table.
  - The search takes the near-miss lines that the electrical model proposes
    and keeps the ones shorter than a ceiling.
  - It drops lines that join a pair of sites already seen.
  - It tries every set of at most `edge_limit` remaining lines on the network
    and ranks the sets by a score of loss and total length.
  - Selecting a row of the table attaches that row's lines to the live
    network, after detaching the lines of the row applied before it.
    `refresh!` clears the presenter.
- **`GUI::Overall#mst_grid`** builds a grid. It numbers the sites, proposes
  one line per pair of sites and hands them to the spanning-tree step. It then
  gives the lines that step left on the sites the fresh ids 0..k-1.
- **`GUI::Plotter#plot_flows`** draws the line flows in bands:
  - the flow range, from the smallest flow up to one above the largest, is
    cut into `n` half-open bands;
  - each band gets the lines whose flow falls in it, a colour chosen by
    integer arithmetic and a stroke width;
  - the lines without any flow are drawn as "untread".

Ruby's own library behaviour is modelled where the presenters depend on it.
The helper modules cover it:

| module | Ruby behaviour it models |
|---|---|
| `RubyArray` | `Array#[]` with negative indices and nil past the end, `flatten(1)`, `uniq` with and without a block, array difference |
| `Combination` | `Array#combination` and its binomial counts |
| `SortBy` | `sort_by`, which is not stable: it promises only an ascending permutation |

`Grid` holds the sites, the lines and the set of attached lines.

Parts of the program the model cannot see are passed in as parameters:

- **Electrical model.** `reset!`, `transmission_loss` and `flows` become a
  function from the set of attached lines to a loss, plus a list of flow
  entries. Each trial's number is `transmission_loss[1]`, the loss
  percentage. The source reads it after the detach, and the model takes it
  to be the value the last `reset!` computed.
- **Numerics.** The ranking formula `l ** 1.35 + l * length` and `round(2)`
  are abstract functions.
- **Randomness and geometry.** The pseudo-random generator is a stream of
  draws, and the Euclidean distance is a function.
- **Spanning tree.** The spanning-tree step is a function from sites and lines
  to each site's list of lines.

Exceptions are modelled as values: `Outcome` is `Returned(state)` or
`Raised(error, state)`, where the state is whatever the call left behind when
it raised.

Four behaviours of the code a reader may not expect, all modelled as the
code has them:

- `reduce_congestion` does not detach the applied row before it rebuilds the
  table (`presenters/congestion.rb:68-111`). The applied row and `added_edges`
  stay as they were.
- Nothing in `reduce_congestion` catches an error raised by a trial, so a
  failing trial ends the search; the model has no failing trials.
- Selecting a row index outside the table is not always an error
  (`presenters/congestion.rb:40-41`, `53-54`).
  - With nothing applied, the missing row reads as nil, which equals the nil
    selection, so nothing happens.
  - With a row applied, its lines are detached first and then `nil.candidates`
    raises NoMethodError.
  - A negative index counts from the end of the table, as Ruby arrays do.
- `refresh!` raises a TypeError whenever a row is applied. See "Findings".

## Model

| member | source | states |
|---|---|---|
| `Overall.MakeNodes` | presenters/overall.rb:16-20 | `number` sites (none when it is negative); site i has id i and the configured load |
| `Overall.CandidateEdges` | presenters/overall.rb:22-28 | there are C(n, 2) candidate lines, and the k-th has id k |
| `Overall.CandidateEdgesAscending` | presenters/overall.rb:22-24 | with sites numbered in order, every candidate line joins two distinct sites, lower id first |
| `Overall.CandidateEdgesCover` | presenters/overall.rb:22 | every pair of distinct sites has a candidate line |
| `Overall.CandidateEdgesNoRepeat` | presenters/overall.rb:22 | no two candidate lines join the same pair of sites |
| `Overall.CandidateEdgesAllPairsOnce` | presenters/overall.rb:22-28 | n(n-1)/2 lines with ids 0..; every pair i < j joined exactly once, `from < to`; none for n <= 1 |
| `Overall.GridEdges` | presenters/overall.rb:36 | the grid's lines are the lines on any site's list, each listed once |
| `Overall.Renumber` | presenters/overall.rb:37 | the k-th line gets id k; endpoints and length are untouched |
| `Overall.RenumberedLinesOnceEach` | presenters/overall.rb:36-37 | every line the spanning-tree step left on a site appears exactly once after renumbering, as itself with a new id, and every renumbered line is such a line |
| `Overall.MstGrid` | presenters/overall.rb:15-38 | the built grid has `number` sites, site i has id i and the configured load; its lines are exactly the lines the spanning-tree step left on some site's list, line k being such a line with id k, and there are as many grid lines as distinct lines on the lists, so none is listed twice |
| `Overall.GridEdgesCount` | presenters/overall.rb:36 | `flatten.uniq` keeps one entry per distinct line on the sites' lists |
| `Combination.CombinationsMembership` | presenters/congestion.rb:79 | `s.combination(k)` holds exactly the k-element subsequences of `s` |
| `Combination.Combinations` | presenters/congestion.rb:79 | `s.combination(k)` yields C(n, k) lists for a list of n |
| `Combination.CombinationsDistinct` | presenters/overall.rb:22 | a list without repeats yields no combination twice |
| `Combination.SumBinomSaturates` | presenters/congestion.rb:79 | sizes above the pool size add no trials |
| `RubyArray.At` | presenters/congestion.rb:41 | `a[i]` is a value exactly when `-len <= i < len`: element i for `i >= 0`, element `len + i` for negative i |
| `RubyArray.UniqBy` | presenters/congestion.rb:74 | `uniq` with a block keeps the first element of each key, with no key twice and every key kept, ordered by where each key first occurs |
| `RubyArray.Uniq` | presenters/overall.rb:36 | `uniq` keeps the same elements without repeats, ordered by their first occurrence |
| `RubyArray.Difference` | presenters/plotter.rb:99 | `a - b` keeps, in order, exactly the elements of `a` not in `b`, each as often as it occurs in `a` |
| `RubyArray.Flatten` | presenters/congestion.rb:79 | `flatten(1)` holds exactly the elements of the inner lists |
| `SortBy.Sort` | presenters/congestion.rb:100-102 | `sort_by` returns a permutation of its input, ascending by key |
| `SortBy.SortMapped` | presenters/congestion.rb:100-107 | mapping the sorted list (as `ranked.map` does) gives a permutation of mapping the input |
| `Grid.PairKey` | presenters/congestion.rb:74 | the key of a line is its endpoint ids, lower first, so a line and its reverse share a key |
| `Grid.Reset` | presenters/congestion.rb:92 | `reset!` leaves the attached set alone and recomputes the loss from exactly that set |
| `Grid.AttachAll` | presenters/congestion.rb:91 | attaching a list of lines adds exactly those lines to the attached set |
| `Grid.DetachAll` | presenters/congestion.rb:93 | detaching a list of lines removes exactly those lines from the attached set |
| `Grid.AttachDetachRoundTrip` | presenters/congestion.rb:91-93 | attaching and then detaching a trial's lines restores the attached set exactly when none of them was attached before |
| `Congestion.ShortEnough` | presenters/congestion.rb:73 | keeps, in order, exactly the near-miss lines strictly shorter than half the scale, each as often as it occurs |
| `Congestion.CandidatesPool` | presenters/congestion.rb:72-74 | the pool holds short near-miss lines, no two joining the same pair of sites; every short pair is represented, by the first short line that joins it, and the pairs come in the order of their first short line |
| `Congestion.CeilingIsStrict` | presenters/congestion.rb:73 | a line exactly as long as the ceiling is dropped; a shorter one is kept |
| `Congestion.ReversedPairCollapses` | presenters/congestion.rb:74 | lines (A,B) and (B,A) collapse to the first one |
| `Congestion.Candidates` | presenters/congestion.rb:72-74 | every pool line is a near-miss line shorter than half the scale; no two pool lines join the same pair of sites; every short near-miss pair is represented |
| `Congestion.Trials` | presenters/congestion.rb:79 | there are C(m,1) + ... + C(m,edge_limit) trials for a pool of m |
| `Congestion.TrialsCountExample` | presenters/congestion.rb:79 | three candidates and a limit of two give six trials |
| `Congestion.TrialsMembership` | presenters/congestion.rb:79 | a list is a trial exactly when it is a non-empty selection of at most `edge_limit` candidates in pool order |
| `Congestion.TrialIsShortSubseq` | presenters/congestion.rb:79 | every trial is a non-empty selection of at most `edge_limit` candidates in pool order |
| `Congestion.ShortSubseqIsTrial` | presenters/congestion.rb:79 | every such selection is a trial |
| `Congestion.TrialsHaveNoRepeats` | presenters/congestion.rb:79 | from a pool without repeats, every trial is non-empty, at most `edge_limit` long and repeats no line |
| `Congestion.NoTrials` | presenters/congestion.rb:79-84 | there are no trials exactly when the pool is empty or `edge_limit < 1` |
| `Congestion.RunTrial` | presenters/congestion.rb:90-96 | a trial reads the loss of the network with its lines added, and leaves the attached set as it found it exactly when its lines were detached |
| `Congestion.Evaluate` | presenters/congestion.rb:90-96 | one loss per trial; when the trial lines start detached, each is the loss of the original network plus that trial's lines |
| `Congestion.Ranked` | presenters/congestion.rb:97-102 | the ranking has one entry per trial |
| `Congestion.RankedTrials` | presenters/congestion.rb:97-102 | the ranking lists every trial once, paired with the loss its lines cause, ascending by score |
| `Congestion.Zip` | presenters/congestion.rb:97 | `trials.zip(results)` pairs the k-th trial with the k-th loss, one pair per trial |
| `Congestion.SumLength` | presenters/congestion.rb:101 | `cs.sum(&:length)` is never negative when no line length is |
| `Congestion.SumLengthAppend` | presenters/congestion.rb:101 | the total length of two lists laid end to end is the sum of their totals |
| `Congestion.SumLengthPermutation` | presenters/congestion.rb:101 | the total length does not depend on the order of the lines |
| `Congestion.ScoreIgnoresLineOrder` | presenters/congestion.rb:100-102 | `l ** 1.35 + l * cs.sum(&:length)` sees the lines only through their total length, so two trials with the same loss and the same lines in any order score alike |
| `Congestion.RankedIsPermutation` | presenters/congestion.rb:97-102 | the ranking neither drops nor repeats a trial |
| `Congestion.RankedLosses` | presenters/congestion.rb:90-98 | each ranked trial is paired with the loss measured with its lines attached |
| `Congestion.RankedAscending` | presenters/congestion.rb:100-102 | the ranked trials ascend by `loss ** 1.35 + loss * length` |
| `Congestion.ReduceCongestion` | presenters/congestion.rb:68-111 | the search rebuilds only the table, one row per trial; the applied row and the added lines stay as they were |
| `Congestion.TrialsDetached` | presenters/congestion.rb:72-79 | trials built from near-miss lines that are not attached have none of their lines attached |
| `Congestion.RowLinesAreNearMiss` | presenters/congestion.rb:72-107 | every line of every row of the rebuilt table is a near-miss line |
| `Congestion.ReduceCongestionRanks` | presenters/congestion.rb:97-107 | the rows are a permutation of the trials, ascending by score; each records its size and its rounded length and loss |
| `Congestion.ToRow` | presenters/congestion.rb:105-107 | a row keeps its trial's lines, records how many there are, and records the rounded total length and the rounded loss |
| `Congestion.TableRanks` | presenters/congestion.rb:97-107 | a table built from detached trials lists each trial once, ascending by score, with its size, rounded length and rounded loss |
| `Congestion.EmptyTableWhenNoTrials` | presenters/congestion.rb:84-111 | the table is empty exactly when there is nothing to try |
| `Congestion.Select` | presenters/congestion.rb:36-66 | no-op when nothing is applied or chosen, or when the chosen row equals the applied one. Choosing a row swaps the applied lines for the row's lines. Choosing nil detaches them. An index past the table while a row is applied raises NoMethodError after detaching. The table never changes |
| `Congestion.InitialIsExclusive` | presenters/congestion.rb:15-19 | a fresh presenter applies nothing, so the network is its own baseline |
| `Congestion.ReduceKeepsExclusive` | presenters/congestion.rb:68-111 | rebuilding the table from near-miss lines outside the baseline keeps the network at the baseline plus the applied row's lines |
| `Congestion.RowsAvoid` | presenters/congestion.rb:73-79 | no row of the rebuilt table holds a line outside the near-miss list, so rows avoid any set the near-miss lines avoid |
| `Congestion.SelectKeepsExclusive` | presenters/congestion.rb:44-59 | selecting a row of the table, or nothing, keeps the network at its baseline plus exactly the applied row's lines |
| `Congestion.SelectionIsExclusive` | presenters/congestion.rb:44-62 | after selecting row i and then row j, the network is the baseline plus row j's lines, with a fresh loss |
| `Congestion.RefreshAsWritten` | presenters/congestion.rb:21-31 | with a row applied, `refresh!` raises TypeError before changing anything; otherwise it clears the presenter |
| `Congestion.RefreshAfterSelectRaises` | presenters/congestion.rb:21-25 | every refresh after a successful selection raises and leaves the row's lines attached |
| `Congestion.Refresh` | presenters/congestion.rb:21-31 | the intended refresh detaches the applied row's lines and resets the presenter to its initial state |
| `Congestion.RefreshRestoresBase` | presenters/congestion.rb:21-31 | the intended refresh returns the network to its baseline |
| `Plotter.Keys` | presenters/plotter.rb:99 | the keys are exactly the lines with a flow entry |
| `Plotter.MaxFlow` | presenters/plotter.rb:78 | the largest flow: no flow is above it and some flow equals it |
| `Plotter.MinFlow` | presenters/plotter.rb:78 | the smallest flow: no flow is below it and some flow equals it |
| `Plotter.Splits` | presenters/plotter.rb:79-80 | max(n, 0) + 1 cut points, the first `min` (when n >= 1) and the last `max + 1` |
| `Plotter.SplitsEvenlySpaced` | presenters/plotter.rb:79 | consecutive cut points below the top are `(max - min) / n` apart |
| `Plotter.SplitsAscending` | presenters/plotter.rb:79-80 | the cut points never decrease and lie in [min, max + 1] |
| `Plotter.SplitsOf` | presenters/plotter.rb:78-80 | the cut points for a non-empty hash run from its smallest flow to one above its largest, never decreasing |
| `Plotter.InRange` | presenters/plotter.rb:84 | a band holds exactly the lines whose flow lies in [bottom, top) |
| `Plotter.Percentiles` | presenters/plotter.rb:83-85 | one band per consecutive pair of cut points; band i holds exactly the lines whose flow lies in [cut i, cut i+1) |
| `Plotter.EntryInRange` | presenters/plotter.rb:84 | in a hash, a line is in a band exactly when its own flow is in range |
| `Plotter.BandIsRange` | presenters/plotter.rb:83-85 | band i holds the lines with flows in [split i, split i+1) |
| `Plotter.FlowHasOneBand` | presenters/plotter.rb:78-85 | every flow lies in exactly one band |
| `Plotter.BandOf` | presenters/plotter.rb:83-84 | scanning the cut points finds the band of any value below the top |
| `Plotter.EntryInBand` | presenters/plotter.rb:83-85 | in a hash, a line is in band i exactly when its flow lies between cut points i and i+1 |
| `Plotter.BandsCoverKeys` | presenters/plotter.rb:78-85 | every line with a flow entry lands in some band |
| `Plotter.BandsHoldKeyOnce` | presenters/plotter.rb:78-85 | no line with a flow entry lands in two bands |
| `Plotter.BandsPartitionKeys` | presenters/plotter.rb:83-85 | with n >= 1 the n bands partition the keys: every key in exactly one band and nothing else in any, also when all flows are equal |
| `Plotter.BandsAscending` | presenters/plotter.rb:82-85 | every line of a lower band carries strictly less flow than every line of a higher band |
| `Plotter.ColorIndex` | presenters/plotter.rb:87-90 | for band i of n, the colour index lies in [0, colors.size) whenever the colour table is non-empty |
| `Plotter.ColorsAscending` | presenters/plotter.rb:90 | a higher band never gets an earlier colour |
| `Plotter.BandWidthAsWritten` | presenters/plotter.rb:91 | the width of band i as written lies in (i, i + 8] |
| `Plotter.BandWidthAsWrittenOvershoots` | presenters/plotter.rb:91 | as written, with n >= 9 the top band is wider than 8; with the default n = 10 it is 9.8 |
| `Plotter.BandWidth` | presenters/plotter.rb:91 | the intended width of band i of n lies in (0, 8], and the top band is exactly 8 |
| `Plotter.BandWidthAscending` | presenters/plotter.rb:91 | higher bands are drawn strictly thicker |
| `Plotter.PlotFlows` | presenters/plotter.rb:74-100 | an empty hash gives no bands, a non-empty one gives max(n, 0) bands, and every band's colour index is inside the colour table |
| `Plotter.PlotFlowsTopBandTooWide` | presenters/plotter.rb:87-91 | as drawn, band i is wider than i, and with n >= 9 bands the top band is wider than 8 |
| `Plotter.UntreadIsDifference` | presenters/plotter.rb:98-99 | a line is untread exactly when it is on some site's list and has no flow entry; each is listed once, in grid order |

## Left out

- Rendering is not modelled. This covers the Glimmer/LibUI windows, tables, lines, circles, rectangles and text, the hit-testing in `select_info_box`, the info-box strings and `plot_points` / `plot_generators`.
- `presenters/histogram.rb` is not modelled: it is chart layout over bins from an external gem.
- `app.rb` is not modelled: it is widget wiring and event callbacks.
- `@app.refresh!` at the end of `select_reduction_option` only redraws, so it is left out.
- Line labels (`flows[e].round(2)`) and the drawing calls of `plot_flows` (`plot_edges`, `plot_points`, `plot_generators`, lines 90-105) are drawing only; the added lines drawn at line 102 are `Congestion`'s `added`.
- The `puts` and timing output are left out.
- The electrical model (`reset!`, `transmission_loss`, `flows`, `reduce_congestion` of the model) is a foreign computation. It becomes the loss function parameter, the flow entries and the near-miss line list.
- `Congestion.ReduceCongestion` takes the near-miss lines as a list of lines. The source takes the third field of each 4-tuple that the electrical model returns.
- `Congestion.ReduceCongestion` takes `scale` as a parameter. The source computes it as `area.avg / 12` from the plot area.
- `Congestion.Evaluate` promises each trial's loss only when the trial lines start detached. The model runs the trials one after another on one network, so each trial sees the attached set the trial before it left behind. In the source that holds for a `parallel_map` worker running several trials on its copy of the grid, and for a single-threaded run. The loss would always match only if every trial got a fresh copy, and nothing in `reduce_congestion` promises that.
- `Congestion.ReduceCongestion` leaves the live network unchanged (the network is not part of its result), as a parallel run leaves the main process's grid. In a single-threaded run, the trials attach and detach on the live network itself (presenters/congestion.rb:91-95). No `reset!` follows the last detach, so the live loss is left at the value the last trial's `reset!` computed.
- Concurrency of `parallel_map` is not modelled.
- Floating point is replaced by reals:
  - `** 1.35` and `round(2)` are abstract functions (`Numerics`);
  - flows and cut points are exact reals, so rounding at band edges is not modelled;
  - site coordinates are the draws times the range.
- `Overall.MakeNodes` takes the pseudo-random generator as a stream of draws. The 2i-th and (2i+1)-th draws place site i, which assumes nothing else draws in between.
- `Overall.MstGrid` does not model `parallel_filter_kruskal`, `UnionF`, `Grid.new`, `ConnectedGraph`, `KMeansClusterer` or `build_generators_for_unreached`. They are not part of this model, and the spanning-tree step is a parameter, so the tree's minimality is not stated.
- `Overall.Renumber` returns renumbered copies. The source changes the ids of the shared line objects in place, so in the source the sites' own lists see the new ids as well.
- Lines are values: two lines with the same id, endpoints and length are the same line. The source compares line objects (for `uniq`, for hash keys, for attach/detach) by their own equality, which is not part of this model.
- Flow hashes are ordered lists of entries. Distinct keys (`IsHash`) are assumed only by the lemmas that relate a line to its own flow.
- `Plotter.PlotFlows` keeps the colour table's size and the index into it, not the colours.

## Findings

| source | as written | input that shows it | evidently intended | confidence | as-written member | corrected member |
|---|---|---|---|---|---|---|
| presenters/congestion.rb:23 | `potential_edges[@current_selection]` indexes the table with the applied `Row` itself, not an integer, so Ruby raises TypeError; the applied row's lines are never detached | select any row, then press New Grid (app.rb:157-161) | detach the applied row's lines (`@current_selection.candidates.each(&:detach!)`), then clear the presenter | high, not executed | `Congestion.RefreshAfterSelectRaises` | `Congestion.Refresh` |
| presenters/plotter.rb:91 | `(i + 1 * 8.0 / n)` parses as `i + 8.0 / n`, so band widths run from 8/n to n - 1 + 8/n | the default `n: 10` (app.rb:208): the top band is 9.8 wide, the others 0.8 to 8.8 | `(i + 1) * 8.0 / n`, widths from 8/n up to 8 | medium, not executed | `Plotter.BandWidthAsWrittenOvershoots` | `Plotter.BandWidth` |
