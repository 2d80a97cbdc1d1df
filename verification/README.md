# ropto route optimiser in Dafny

ropto plans a car trip through a list of addresses. It geocodes them, drops addresses that land on
the same coordinate, asks a routing service for the driving time between every pair, and then
searches exhaustively for the quickest order of visits. The trip either returns to the start
(closed tour) or ends wherever is quickest (open tour). This project models that core as pure
Dafny functions over immutable values and proves what the code promises about it:

- `Routes` (`lib/solveTSP.py`, class `Route`): a route is a walk plus its duration. It has
  concatenation (`+`) and the comparisons `<` and `>`. The exceptions the source raises are
  `Failure` values of a `Result`.
- `Durations`: the duration matrix. Its cells are `Option<nat>`, with `None` on the diagonal as
  the routing client leaves it. It also defines the cost of a walk.
- `TspSolver` (`lib/solveTSP.py`, class `TSPSolver`): `get_shortest_route`, the Held-Karp
  recurrence evaluated without a memo table, and `solve` with its two tour kinds. The main results:
  - the returned route has the promised shape;
  - its duration is the cost of its walk;
  - it is optimal against every order of visits;
  - ties keep the earlier candidate.
- `WorkedExample`: the solver on any three locations, and on one concrete instance.
- `Dedup` (`lib/utils.py`): `get_equivalences` is an ordered partition of the positions into
  classes of equal items. `remove_duplicates` keeps one item per class: the first, in order.
- `Times` (`lib/utils.py`, class `Time`): addition, the `h`/`m`/`s` accessors, and the
  directive-driven formatter, including `str()` of integers.
- `Geo` (`lib/utils.py`): `get_coordinate`, `get_duration`, and how the command-line front end
  turns routing answers into the solver's matrix.
- `Cipher` (`lib/security.py`): the XOR `cipher` on Unicode code points.
- `Seqs` and `Wrappers`: shared vocabulary (`Option`, `Result`, distinctness, removal at an index).

The model iterates every Python set in ascending order of its elements. `solve` starts from
`1, 2, ..., N-1`, and `get_equivalences` pops the smallest remaining position. This is the model's
chosen order. CPython agrees with it only while the set's elements stay below its hash-table size,
which holds for sets of up to 8 positions and for the solver's top-level set. Every tie-break
statement is relative to the model's order; "## Left out" lists where CPython differs.

## Model

| member | source | states |
|---|---|---|
| Routes.Concat | lib/solveTSP.py:23-30 | Succeeds exactly when both walks are non-empty and the left one ends where the right one starts. A mismatch of non-empty walks fails with EndpointMismatch. On success the points are the left points followed by the right points without the shared first one, and the durations add up. |
| Routes.Greater | lib/solveTSP.py:31-36 | Fails with LengthMismatch exactly when the walks differ in length. Otherwise it is true exactly when the first duration is strictly larger. |
| Routes.Less | lib/solveTSP.py:37-42 | Fails with LengthMismatch exactly when the walks differ in length. Otherwise it is true exactly when the first duration is strictly smaller. |
| Routes.LessIsFlippedGreater | lib/solveTSP.py:31-42 | `a < b` and `b > a` give the same answer, failures included. |
| Routes.LessIsStrictOrder | lib/solveTSP.py:37-42 | Among routes of equal length, `<` is irreflexive, asymmetric and transitive. |
| Routes.ConcatAssociative | lib/solveTSP.py:26-29 | When `a + b` and `b + c` are defined, both groupings of `a + b + c` are defined and equal. |
| Routes.ConcatKeepsConsistent | lib/solveTSP.py:28-29 | Joining two routes whose durations are the costs of their walks gives a route whose duration is the cost of the joined walk. |
| Durations.PathCostConcat | lib/solveTSP.py:28-29 | Gluing two walks at a shared point gives a walkable walk whose cost is the sum of the two costs. |
| TspSolver.ShortestOf | lib/solveTSP.py:86-96 | The candidate loop gives no route exactly when there are no candidates; otherwise it gives one of the candidates. |
| Seqs.RemoveAt | lib/solveTSP.py:88-89 | Removing one element from the set still to visit: one fewer element, the others kept in order, and together with the removed one the same multiset. |
| TspSolver.ShortestOfIndex | lib/solveTSP.py:86-96 | The candidate loop returns a candidate that no other candidate beats, and every candidate before it is strictly slower. So on ties the first quickest candidate wins. |
| TspSolver.ShortestRoute | lib/solveTSP.py:77-96 | The walk starts at 0 and ends at `end`. Its middle points are a permutation of `through`. Its duration is the cost of the walk. |
| TspSolver.ShortestRouteDirect | lib/solveTSP.py:83-84 | With nothing in between, the route is `[0, end]` and its duration is the matrix cell from 0 to `end`. |
| TspSolver.Extension | lib/solveTSP.py:87-90 | Each candidate of the loop is a walk from 0 through all of `through` to `end`, and its duration is its cost. |
| TspSolver.ExtensionDuration | lib/solveTSP.py:90 | A candidate costs the quickest walk to its last stop plus the edge from that stop to `end`. |
| TspSolver.ExtensionJoins | lib/solveTSP.py:88-90 | A candidate is the quickest walk over the other points to its last stop, concatenated with the final edge, and that concatenation is defined. |
| TspSolver.ShortestRouteKeepsFirstQuickest | lib/solveTSP.py:86-96 | The result is one of the candidates. No candidate is quicker, and every earlier candidate is strictly slower. |
| TspSolver.ShortestRouteIsOptimal | lib/solveTSP.py:77-96 | No walk from 0 through `through`, in any order, to `end` costs less than the returned route. |
| TspSolver.Others | lib/solveTSP.py:56-57 | The starting set is `1, ..., N-1`. |
| TspSolver.Endings | lib/solveTSP.py:60-63 | There is one open-tour candidate per final location. Each has N points. |
| TspSolver.EndingAt | lib/solveTSP.py:60-63 | The open-tour candidate at position `i` is the quickest walk ending at `i + 1` through all other locations. |
| TspSolver.Solve | lib/solveTSP.py:51-74 | An open tour starts at 0, visits every other location once and ends away from 0. A closed tour also returns to 0. Either way the duration is the cost of the walk. |
| TspSolver.OpenTour | lib/solveTSP.py:58-69 | The open-tour branch returns an open tour whose duration is its cost. |
| TspSolver.ClosedTour | lib/solveTSP.py:70-71 | The closed-tour branch returns a closed tour whose duration is its cost. |
| TspSolver.ClosedTourIsOptimal | lib/solveTSP.py:70-71 | No round trip from 0 through every other location and back is quicker than the closed tour. |
| TspSolver.OpenTourIsOptimal | lib/solveTSP.py:58-69 | No one-way trip from 0 through every other location, ending anywhere, is quicker than the open tour. |
| TspSolver.OpenTourPicksQuickestEnding | lib/solveTSP.py:58-69 | The open tour is the candidate for some final location. No candidate is quicker, and every candidate for an earlier final location is strictly slower. |
| TspSolver.OpenTourEnding | lib/solveTSP.py:60-63 | Every open tour is a walk through all other locations to its last point, so it matches some candidate's search space. |
| WorkedExample.OneStop | lib/solveTSP.py:83-96 | With one location `b` in between, the route is forced to be `0, b, a`, with the sum of its two edges as duration. |
| WorkedExample.ThreeClosed | lib/solveTSP.py:70-71 | For three locations, the closed tour is `0, 2, 1, 0` unless `0, 1, 2, 0` is strictly quicker. |
| WorkedExample.ThreeOpen | lib/solveTSP.py:58-69 | For three locations, the open tour ends at 1 unless ending at 2 is strictly quicker. |
| WorkedExample.TriangleClosedTour | lib/solveTSP.py:51-74 | With durations 10, 15 and 20, both round trips take 45, and the solver returns `0, 2, 1, 0`. |
| WorkedExample.TriangleOpenTour | lib/solveTSP.py:51-74 | With durations 10, 15 and 20, the one-way trip is `0, 1, 2` with duration 30. |
| Dedup.Select | lib/utils.py:47-49 | The selected positions are valid, their items equal (or differ from) the base item as asked, and there are at most as many as the candidates. |
| Dedup.SelectMembers | lib/utils.py:47-50 | A position is selected exactly when it is a candidate whose item equals (or differs from) the base item as asked. |
| Dedup.SelectIncreasing | lib/utils.py:47-49 | Selecting from ascending positions gives ascending positions. |
| Dedup.Group | lib/utils.py:44-51 | There are at most as many classes as positions. Classes are non-empty and hold valid positions. |
| Dedup.GroupStep | lib/utils.py:44-51 | One loop round: the popped base heads the new class; the class holds exactly the remaining positions equal to the base; the rest continue; nothing is lost. |
| Dedup.GroupShape | lib/utils.py:45-49 | Every class is non-empty and ascending, and every member holds the same item as the class's first position. |
| Dedup.GroupCovers | lib/utils.py:44-51 | Every remaining position ends up in some class. |
| Dedup.GroupDisjoint | lib/utils.py:50 | No position is in two classes. |
| Dedup.GroupBasesSeparate | lib/utils.py:45-50 | Classes come in ascending order of their first positions, and the items at those positions are pairwise different. |
| Dedup.Equivalences | lib/utils.py:41-52 | There are no more classes than items. |
| Dedup.EquivalencesArePartition | lib/utils.py:41-52 | The classes split `0..n-1` into non-empty, ascending, pairwise disjoint classes ordered by their first positions. |
| Dedup.EquivalencesClassify | lib/utils.py:45-50 | Two positions are in the same class exactly when they hold equal items. |
| Dedup.Overwrite | lib/utils.py:57-58 | The listed positions become `None`; every other position is unchanged. |
| Dedup.ClearLater | lib/utils.py:55-58 | Exactly the positions that are not first in their class become `None`; the rest are unchanged. |
| Dedup.LaterSplit | lib/utils.py:55-57 | A position is non-first in some class exactly when it is non-first in the first class or in one of the remaining classes. |
| Dedup.Somes | lib/utils.py:59 | Filtering out `None` never lengthens the list, and keeps only values that were present. |
| Dedup.SomesAt | lib/utils.py:59 | Filtering out `None` yields exactly the values at the non-`None` positions, in position order. |
| Dedup.RemoveDuplicates | lib/utils.py:54-60 | The result is no longer than the input and holds only input values. |
| Dedup.HeadIffNotLater | lib/utils.py:55-58 | In an ordered partition, a position heads its class exactly when it is not a later member of any class. |
| Dedup.KeepsGroupHeads | lib/utils.py:54-60 | With no `None` among the items, the result has one entry per class: the item at that class's first position, in class order. |
| Dedup.RemoveDuplicatesOfEquivalences | lib/utils.py:54-60 | With the classes of `get_equivalences`, the result has one entry per class, no two equal. A value is in the result exactly when it was among the items. |
| Dedup.HeadsDistinct | lib/utils.py:55-60 | With the classes of `get_equivalences`, no two kept items are equal. |
| Dedup.HeadsCover | lib/utils.py:55-60 | With the classes of `get_equivalences`, every input value is kept. |
| Dedup.KeepsFirst | lib/utils.py:54-60 | The first item always survives deduplication, so the start address stays at position 0. |
| Times.Add | lib/utils.py:17-20 | The sum's milliseconds minus one operand's give the other operand's. |
| Times.AddIsCommutativeMonoid | lib/utils.py:17-20 | Addition is commutative and associative, with zero as neutral element. |
| Times.Get | lib/utils.py:31-39 | `h`, `m` and `s` give the whole number of hours, minutes and seconds: the largest count of units not exceeding the duration. Any other id gives `None`. |
| Times.AddGetBounds | lib/utils.py:31-37 | The whole units of a sum are at least the sum of the whole units, and at most one more. |
| Times.NatToString | lib/utils.py:28 | A natural is written as a non-empty string of decimal digits, with no leading zero except for 0 itself. |
| Times.IntToString | lib/utils.py:28 | The text is non-empty, and starts with a minus sign exactly when the value is negative. |
| Times.NatToStringRoundTrip | lib/utils.py:28 | Reading the digits back gives the number. |
| Times.IntToStringRoundTrip | lib/utils.py:28 | Reading `str(i)` back gives `i`, negative values included. |
| Times.IntToStringInjective | lib/utils.py:28 | Different integers are written differently. |
| Times.PieceOmittedIff | lib/utils.py:25-29 | A directive contributes nothing exactly when its value is 0 and it has no `0` flag. Otherwise it contributes the value's text followed by its suffix. |
| Times.RenderAppend | lib/utils.py:24-29 | The output for concatenated directive lists is the concatenation of the outputs. |
| Times.Format | lib/utils.py:21-30 | For a single directive, the output is that directive's piece. |
| Times.FormatSingle | lib/utils.py:21-30 | A single directive prints nothing exactly when its value is 0 and it has no `0` flag. Otherwise it prints the value followed by its suffix. |
| Times.HourMinuteRepeatsHours | lib/utils.py:34-35 | With the hour-and-minute format, an hour and a half prints as "1 시간 90 분". |
| Times.ClockGet | lib/utils.py:31-39 | The corrected accessor: minutes and seconds are below 60, and any other id gives `None`. |
| Times.ClockGetRecomposes | lib/utils.py:31-39 | The corrected hour, minute and second fields, plus the leftover milliseconds, add back up to the duration. |
| Times.ClockFormat | lib/utils.py:21-30 | With the corrected accessor, a single directive prints its piece. |
| Times.HourMinuteClock | lib/utils.py:34-35 | With the corrected accessor, an hour and a half prints as "1 시간 30 분". |
| Geo.Coordinate | lib/utils.py:62-63 | The coordinate is the longitude, a comma, then the latitude. |
| Geo.SplitCoordinate | lib/utils.py:62-63 | A string is split back into a geocode exactly when it has a comma, and re-joining the parts gives the string. |
| Geo.CoordinateRoundTrip | lib/utils.py:62-63 | Splitting a coordinate gives back its geocode when the longitude has no comma. |
| Geo.CoordinateInjective | lib/utils.py:62-63 | Different geocodes without commas in the longitude give different coordinates. |
| Geo.GetDuration | lib/utils.py:65-68 | A missing answer gives `None`. A present answer gives its summary duration. |
| Geo.DurationMatrix | ropto.py:50 | The matrix has the shape of the answers, and each cell is `get_duration` of its answer. |
| Geo.DurationMatrixSolvableIff | lib/naverAPI.py:89-92 | For at least two coordinates, the matrix meets the solver's requirement exactly when the coordinates are pairwise different. |
| Cipher.Xor | lib/security.py:10 | The XOR of two code points is at most their sum, and it is 0 exactly when they are equal. |
| Cipher.XorInvolution | lib/security.py:10 | XOR with the same key twice gives the original back. |
| Cipher.XorCommutative | lib/security.py:10 | XOR is symmetric. |
| Cipher.XorKeyInjective | lib/security.py:10 | For a fixed text character, different keys give different XOR results. |
| Cipher.Repeat | lib/security.py:9 | `passwd * k` has `k` times the password's length, and position `i` holds password character `i mod len`. |
| Cipher.Pad | lib/security.py:9 | The padded password is exactly as long as the text, and each position holds its key character. |
| Cipher.PadIsCopiesThenZeros | lib/security.py:9 | The padded password is whole copies of the password followed by a run of `'0'` shorter than the password. |
| Cipher.XorAll | lib/security.py:10 | The position-wise XOR fails exactly when some result is not a code point. Otherwise it has the text's length and holds the XORs. |
| Cipher.Cipher | lib/security.py:8-10 | An empty password fails, and only it fails with EmptyPassword. Otherwise the cipher fails exactly when some XOR is not a code point. The output has the text's length, and position `i` is the text character XOR the key character. |
| Cipher.CipherInvolution | lib/security.py:8-10 | Ciphering the output again with the same password gives the text back. |
| Cipher.CipherEmpty | lib/security.py:8-10 | An empty text ciphers to an empty text. |
| Cipher.LongPasswordIgnored | lib/security.py:9 | As written, all passwords longer than the text cipher it the same way. |
| Cipher.LongPasswordExample | lib/security.py:9 | The text "a" ciphers identically under the passwords "xy" and "qq". |
| Cipher.CycledKey | lib/security.py:9 | The corrected key has the text's length and cycles the password. |
| Cipher.CycledCipher | lib/security.py:8-10 | The corrected cipher fails with EmptyPassword exactly on the empty password. On success it has the text's length and XORs with the cycled password. |
| Cipher.CycledCipherInvolution | lib/security.py:8-10 | The corrected cipher is its own inverse. |
| Cipher.CycledCipherUsesPassword | lib/security.py:9 | Under the corrected cipher, two different passwords of equal length, no longer than the text, give different outputs. |
| Cipher.CycledAgreesWhenDivides | lib/security.py:9 | When the password length divides the text length, both ciphers agree. |

## Left out

- Memoisation: the code recomputes subproblems, and so does the model.
- Ties: candidates are tried in the model's ascending index order, so with the strict `<` the
  lowest index wins.
- Empty deduplication input: `get_equivalences([])` returns `[]`, and so does the model.
- Set iteration order: CPython's order follows hash-table slots, not ascending order. A set copied
  from one of at most 4 elements has 8 slots, so a position 8 comes before smaller ones. With items
  `[A, A, A, A, A, B, C, D, C]` CPython groups `[[0..4], [5], [8, 6], [7]]` and keeps
  `[A, B, D, C]`, where the model groups `[[0..4], [5], [6, 8], [7]]` and keeps `[A, B, C, D]`. In
  `get_shortest_route` with 9 or more locations the copied inner sets are likewise visited out of
  ascending order, so on a tie the route kept can differ; the quickest duration does not. The model
  does not follow CPython's hash-table order.
- TspSolver.Solve: requires at least two locations. With one location the source's open tour
  returns `None` and its closed tour reads the missing diagonal cell. With none, removing 0 from the
  empty set raises `KeyError`.
- TspSolver.ShortestOf: requires candidates of equal length. Otherwise the source's `<` would
  raise. No call inside the solver can reach that case, and `Endings` and `Extensions` prove the
  lengths equal.
- Dedup.RemoveDuplicates: requires class positions below the item count. The source raises
  `IndexError` for larger positions and wraps negative ones, and `get_equivalences` never produces
  either.
- Dedup.KeepsGroupHeads: states the per-class result only when no item is `None`. An input `None`
  is dropped by the final filter as well, which `Dedup.Somes` and `Dedup.SomesAt` describe.
- Times.ClockFormat: its contract covers a single directive. Longer lists follow from
  `Times.RenderAppend`, because `ClockFormat` is `Render` with `ClockGet`.
- Times.Format: its contract covers a single directive. Longer lists follow from
  `Times.RenderAppend`, because `Format` is `Render` with `Get`.
- The regular expression that parses `%<id><0?>[<suffix>]` format strings: the formatter takes the
  parsed directive list.
- `Time.__add__` and `Route.__add__`, `__lt__` and `__gt__` with an operand of another type:
  excluded by typing.
- In-place mutation: `Route.__add__` extends the left operand, and `remove_duplicates` overwrites
  the caller's list. Both are modelled as fresh values, because every caller discards the old
  value.
- `Route.__repr__`, the verbose progress printing of the solver, and the `verbose` setting: output
  only.
- `lib/naverAPI.py`, HTTP requests and JSON decoding: network I/O. Routing answers are a
  hypothesis (`Geo.RoutingAnswers`): a cell is empty exactly when start and goal coincide. A
  failed request raises before the solver runs.
- A missing JSON key in `get_coordinate` or `get_duration` (`KeyError`): only the read fields are
  modelled.
- `encrypt` and `decrypt` in `lib/security.py`: file I/O and SHA-256 are foreign code. Only
  `cipher` is modelled.
- `ropto.py` and `roptoFE.py`: argument parsing, password prompts, file reading, the GUI and
  output assembly, beyond the matrix comprehension and the format string they pass to the core.
- Integer width: Python integers are unbounded, and so are Dafny's. Durations are naturals.

## Findings

| source | as written | input that shows it | evidently intended | confidence | as-written member | corrected member |
|---|---|---|---|---|---|---|
| lib/utils.py:34-35 | `get("m")` returns total minutes, and the front end formats trips with "%h[ 시간 ]%m[ 분]" | 5,400,000 ms prints "1 시간 90 분" | minutes past the hour: "1 시간 30 분" | not executed; high | Times.HourMinuteRepeatsHours | Times.ClockGet, Times.ClockGetRecomposes, Times.HourMinuteClock |
| lib/security.py:9 | the password is repeated `len(crypt) // len(passwd)` times, and the rest is padded with `'0'` | text "a" under password "xy" or "qq": both give the same output, because every password longer than the text is ignored | the password cycled over the whole text, so that it always matters | not executed; medium | Cipher.LongPasswordIgnored, Cipher.LongPasswordExample | Cipher.CycledCipher, Cipher.CycledCipherInvolution, Cipher.CycledCipherUsesPassword |
