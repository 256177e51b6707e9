# font-viewer in Dafny

A model of the core of font-viewer, a small desktop program that lists every font family the
GUI toolkit's font engine knows. The user types sample text, picks a weight and a size, filters
the families with a `|`-separated list of substrings, and pins families. Pinned families can be
shown on their own ("hide unpinned").

The model has these modules:

- `FontManager` covers the family registry. `FontList` gathers the primary family name of every
  loaded face, then sorts the names (Rust's `String` order) and removes duplicates.
  `FontRegistry` is the compute-once process-wide cell: it keeps the list built by the first
  call and hands it back on every later call.
- `Viewer` covers the viewer state (`FontViewer`) and its message dispatcher (`Update`). It
  also holds the filter compilation (`CompileFontFamilyFilter`), the filter test
  (`IsTargetFontFamily`), pin toggling, and the computation of the shown rows.
- `FontWeight` and `IcedFont` cover the viewer's weight enumeration, its two conversions to
  and from the toolkit's weight type, and its display names.
- `Text` and `SeqOps` hold the library behaviour the core relies on, written out:
  - Rust's lexicographic `String` order, `str::contains` and `str::split("|")`, with
    `join("|")`, its inverse, used to state the split round trip (the program itself never joins);
  - `slice::sort`, `Vec::dedup`, and `extract_if` with an equality test.
- `Optional` is the usual `Option` datatype.

Some choices about what is an input to the model:

- **The font engine's answer is an input.** It is `Option<seq<Face>>`. It is `None` when taking
  the engine's write lock fails. Otherwise it has one list of family names per face.
- **Tasks are values.** A follow-up `Task::done(m)` becomes `Some(m)` and `Task::none()`
  becomes `None`.
- **Hash-set iteration order is left open.** `Viewer.HashSetIntersection` picks its next
  element with `:|`. Its contract holds for every order.

Two behaviours of the code worth stating:

- **Hide-unpinned rows.** The rows are *not* re-sorted after the hash-set intersection
  (src/main.rs:212-220). So with hide-unpinned on, the model promises the set of rows and
  no repeats, not their order.
- **The initial pattern list.** It is the empty list (src/main.rs:146). Only after the first
  filter change does it become `Split(filter)`, which for the empty filter is `[""]`.
  `Viewer.PatternAgreesWithFilter` shows that both select every family.

## Model

| member | source | states |
|---|---|---|
| Text.LexLe | src/font_manager.rs:14 | Rust's `String` comparison: a prefix comes before any extension of it, and a smaller first character decides. |
| Text.LexLeTotal | src/font_manager.rs:14 | Any two family names are comparable under Rust's string order. |
| Text.LexLeAntisymmetric | src/font_manager.rs:14 | Two names each at most the other are equal. |
| Text.LexLeTransitive | src/font_manager.rs:14 | The string order is transitive. |
| Text.LexLeIsTotalOrder | src/font_manager.rs:14 | Rust's `String` order, lexicographic by code point with a proper prefix first, is a total order. |
| SeqOps.Sort | src/font_manager.rs:14 | `sort` returns a permutation of its input: the same multiset. |
| SeqOps.SortSorted | src/font_manager.rs:14 | Under a total order, the result of `sort` is ascending. |
| SeqOps.Dedup | src/font_manager.rs:15 | `dedup` keeps the first element and loses no value. It adds none. No two neighbours are equal. |
| SeqOps.SortDedupMembers | src/font_manager.rs:14-15 | `sort` followed by `dedup` keeps exactly the values of its input, no more and no fewer. |
| SeqOps.DedupStrictlySorted | src/font_manager.rs:14-15 | `sort` then `dedup` gives a strictly ascending list: no value appears twice anywhere. |
| SeqOps.StrictlySortedUnique | src/font_manager.rs:14-15 | A strictly ascending list is determined by its set of elements. So `sort` + `dedup` depends only on which values occur. |
| SeqOps.RemoveAll | src/main.rs:192 | `extract_if(.., \|i\| *i == id)` leaves the multiset of the list with every copy of `id` removed and every other count unchanged. |
| SeqOps.RemoveAllConcat | src/main.rs:192 | Removal works piecewise over concatenation, so the remaining elements keep their relative order. |
| SeqOps.RemoveAllStrictlySorted | src/main.rs:192 | Removing an element from a strictly ascending list leaves it strictly ascending. |
| FontWeight.FromWeight | src/main.rs:60-74 | Maps each toolkit weight to the viewer weight of the same name, and `ToWeight` undoes it. |
| FontWeight.ToWeight | src/main.rs:76-90 | Maps each viewer weight to the toolkit weight of the same name. That `FromWeight` undoes it is proved in ConversionsAreInverse. |
| FontWeight.Name | src/main.rs:92-110 | `Display` writes the variant's own name, which is never empty. |
| FontWeight.ComboBoxOffersEveryWeight | src/main.rs:131-141 | The combo box lists every weight, each exactly once. |
| FontWeight.ConversionsAreInverse | src/main.rs:60-90 | The two `From` conversions between the viewer's weight and the toolkit's weight invert each other, so both are bijections. |
| FontWeight.NamesAreDistinct | src/main.rs:92-110 | Every weight displays a non-empty name, and different weights display different names. |
| FontManager.PrimaryFamilies | src/font_manager.rs:6-11 | The collected names are exactly the first family names of the faces that have one. |
| FontManager.FontList | src/font_manager.rs:4-17 | The list is strictly ascending in string order. It contains a name iff that name is the primary family of some face. A failed lock gives the empty list. |
| FontManager.FontRegistry.constructor | src/font_manager.rs:20 | The cell starts empty. |
| FontManager.FontRegistry.GetGlobalFontList | src/font_manager.rs:19-22 | The first call computes the list from the engine's answer and stores it. Every later call returns the stored list whatever the engine answers now. The stored list is always strictly ascending. |
| FontManager.CachedListIsStable | src/font_manager.rs:19-22 | Two calls on one registry return the same list, the one built from the first answer. |
| Text.Split | src/main.rs:154-160 | `split("\|")` yields at least one piece, and no piece contains the delimiter. |
| Text.SplitCount | src/main.rs:155-159 | There is one piece more than the filter has `\|` characters. |
| Text.Join | src/main.rs:154-160 | The inverse of the filter's `split("\|")`. The first piece is a prefix of the joined string. Delimiter-free pieces are joined with one delimiter between neighbours. |
| Text.JoinSplit | src/main.rs:154-160 | Joining the pieces with `\|` gives back the filter: nothing is lost by splitting. |
| Text.SplitJoin | src/main.rs:154-160 | Splitting the `\|`-join of a non-empty list of delimiter-free pieces gives back the pieces. With JoinSplit, split and join are inverse bijections. |
| Text.SplitKeepsEmptyPieces | src/main.rs:154-160 | The empty filter compiles to one empty pattern. "Aria\|" compiles to "Aria" and an empty pattern. |
| Text.Contains | src/main.rs:167 | `str::contains`: the empty pattern is in every name, and a pattern found is no longer than the name. |
| Text.ContainsIsOccurs | src/main.rs:167 | `contains` holds iff the pattern occurs at some position of the name. |
| Viewer.EmptyAlternativeMatchesAll | src/main.rs:162-172 | A pattern list with an empty pattern accepts every family. |
| Viewer.TrailingBarMatchesAll | src/main.rs:154-172 | A filter ending in `\|` accepts every family. |
| Viewer.PatternAgreesWithFilter | src/main.rs:154-172 | The initial empty pattern list and the compiled empty filter select the same families. So the pattern list always selects by the current filter. |
| Viewer.FontViewer.CompileFontFamilyFilter | src/main.rs:154-160 | The pattern list becomes the filter split at `\|`, and no other field changes. |
| Viewer.FontViewer.IsTargetFontFamily | src/main.rs:162-172 | True iff there are no patterns or some pattern occurs in the family name. |
| Viewer.MatchingIndices | src/main.rs:205-211 | The matching rows are strictly ascending registry indices. An index is present iff it is in range and its name passes the filter. |
| Viewer.FontViewer.MatchingFamilies | src/main.rs:205-211 | The `enumerate().filter().map()` loop returns exactly the ascending matching indices. |
| Viewer.HashSetIntersection | src/main.rs:213-219 | In any iteration order, the hash-set intersection holds each common element exactly once. |
| Viewer.ShownRowsAreMatchingIndices | src/main.rs:204-220 | Every shown row is an in-range index of a matching family, and no row repeats. |
| Viewer.HideUnpinnedWithoutPinsShowsNothing | src/main.rs:212-220 | With hide-unpinned on and nothing pinned, no row is shown. |
| Viewer.FontViewer.RefreshShownFamily | src/main.rs:204-221 | Without hide-unpinned, the rows are the ascending matching indices. With it, they are each index that both matches and is pinned, exactly once, in unspecified order. Only the rows change. |
| Viewer.TogglePinned | src/main.rs:190-197 | A pinned `id` is removed with all its copies and every other count is kept. An absent `id` is added, and the list becomes strictly ascending with exactly the old values plus `id`. |
| Viewer.TogglePinnedMembers | src/main.rs:190-197 | Pinning flips whether `id` is pinned and leaves every other index's membership alone. |
| Viewer.TogglePinnedAscending | src/main.rs:190-197 | Pinning keeps the pinned list strictly ascending. The push-sort-dedup branch makes it so from any list. |
| Viewer.TogglePinnedTwice | src/main.rs:190-197 | Pinning the same id twice restores the pinned list. |
| Viewer.FontViewer.PinToggle | src/main.rs:190-197 | Pinning removes every copy of a pinned id, or adds an absent id and sorts and deduplicates. The invariant is kept and only `pinned` changes. |
| Viewer.FontViewer.constructor | src/main.rs:128-149 | The initial fields: text "ABC123", the default weight, size 12, an empty filter, empty pinned, pattern and row lists, hide-unpinned off. |
| Viewer.FontViewer.New | src/main.rs:126-152 | The viewer gets the registry's list, which is strictly ascending. If the registry already held a list, the viewer gets that list. Otherwise it gets the list built from the engine's answer: exactly the primary family names. It starts in the initial state and queues `UpdateShownFontFamily`. |
| Viewer.FontViewer.Update | src/main.rs:174-224 | Each message changes exactly its own fields. The viewer invariant (ascending pinned list, pattern compiled from the filter, distinct in-range rows) is kept. Exactly `FontFamilyFilterChanged`, `Pin` and `HideUnpin` return the follow-up `UpdateShownFontFamily`. |

## Left out

- The widget tree (`view`), the layout and the rendering are not modelled. They compute only what is drawn.
- `font_loader` and `main` are not modelled. They read `.ttf` files from the working directory and start the application (file and process I/O).
- The font engine's `font_system` lock and its face database are not modelled. Their answer is the `query` parameter.
- Thread safety of the `OnceLock` is not modelled. `FontRegistry` models one thread's view of the cell.
- The text size is an `f32`, modelled as a `real`. It is stored unchanged, so no rounding arises in the core.
- The weight combo box's widget state is not modelled. It only lists the nine weights, which are the `FVWeight` constructors.
- `Weight::default()` belongs to the toolkit and is not part of this model. `New` and the constructor take it as the `defaultWeight` parameter.
- The toolkit's task runtime, which delivers the follow-up message, is not modelled. A task is `Option<Message>`.
- Viewer.HashSetIntersection: does not fix the order of its result, because a `HashSet`'s iteration order is unspecified.
- Indices are `usize` and are modelled as `nat`. In the hide-unpinned arm each index is widened to `u64` and then narrowed back with `usize::try_from(..).unwrap()`. Every such value started as a `usize`, so on any target where `usize` is at most 64 bits the round trip is the identity and the `unwrap` cannot fail.
- SeqOps.Sort: it is an insertion sort, not the standard library's merge sort. Under a total order the two give the same result, because a sorted permutation is unique.
