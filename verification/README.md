# deathrip core, modelled in Dafny

deathrip downloads a large image that a server hands out as a grid of tiles.
The grid's extent is not advertised. The program finds it by probing, then
fetches every tile and pastes it into one canvas. This project models the
logic under that plumbing and proves properties of it:

- **Axis-limit probing** (`determine_limit`). Several workers share an atomic
  counter that starts at 1 and a result value that starts at `Ok(usize::MAX)`.
  Each worker claims a level, sends a HEAD request for it, and keeps going
  while requests succeed. A client-error reply marks the boundary and can
  only tighten a stored `Ok`. Any other error overwrites the stored value.
  The answer is the stored level minus one. `Limit` models the result value
  (`Acc`) and its update rule. `Prober` models the worker pool as a
  nondeterministic state machine. A schedule of worker indices picks the
  interleaving, and a response oracle stands in for the server.
- **Derived probes** (`determine_max_zoom`, `determine_columns`,
  `determine_rows`, `determine_dimensions`). Module `Dimensions` holds their
  address templates, the `+ 1` that turns a limit into a count, and the
  concurrent join of the column and row probes.
- **Address construction**. `Util.StringMutTail` keeps a fixed head and
  rewrites a decimal tail. `Decimal.Format` is the `itoa` rendering. Its
  inverse, `Decimal.Value`, backs the injectivity results. `Rip.CellAddress`
  builds the address of one tile.
- **Input classification** (`Input::try_from`, `as_ref`), in module `Inputs`.
- **Grid geometry of `rip`**, in module `Rip`: the x-major cell enumeration
  with its first element skipped, the canvas size, and each tile's
  destination rectangle. `Rip.Rip` is the orchestration once the dimensions
  and the head tile are known, and `Rip.PlaceCells` is the placement loop.

Modelling choices:

- A `reqwest::Error` is `HttpError`. It is either an error status
  (`Status(code)`) or a failure with no status (`Transport(id)`). It counts
  as a client error exactly when it is a status in 400..=499.
- Levels have the subset type `Level` (at least 1). This matches the counter
  starting at 1, and it is why `l - 1` at the end cannot underflow.
- In the state machine, receiving a reply and updating the result under the
  write lock form one atomic step. Between getting its reply and taking the
  write lock a worker touches no shared state, so waiting for the lock only
  reorders updates that are themselves atomic.
- The server is a function from level to reply. This loses nothing: each
  level is claimed exactly once (`Prober.CounterHandsOutConsecutiveLevels`),
  so the server is asked about each level at most once.
- `usize::MAX` is taken as 2^64 - 1 (a 64-bit target).
- Three behaviours of the code that the model keeps as written:
  - A later non-client error overwrites an earlier one (last writer wins,
    src/lib.rs:130-132). `Limit.ReplayFails` and `Prober.ProbeFailsIffFault`
    state this: the final error is that of the last fault to take the lock.
  - `rip` takes the zoom as a parameter (src/lib.rs:212-217).
  - A failure while fetching a grid tile panics at src/lib.rs:272.

## Model

| member | source | states |
|---|---|---|
| Results.TryJoin | src/lib.rs:188-191 | `try_join!` succeeds exactly when both sides succeeded, with both values. It fails as soon as either side failed, and the reported error is one of the sides' errors. |
| Decimal.Format | src/util.rs:33 | The `itoa` rendering is a canonical numeral: non-empty, digits only, no leading zero. It starts with '0' exactly for zero. |
| Decimal.ValueOfFormat | src/util.rs:33 | Reading a rendered number back gives the number. |
| Decimal.FormatOfValue | src/util.rs:33 | Rendering the value of any canonical numeral gives that numeral back. So `Format` is a bijection onto canonical numerals. |
| Decimal.FormatInjective | src/util.rs:33 | Two numbers render to the same text if and only if they are equal. |
| Decimal.FormatPrefixUnique | src/lib.rs:233 | A rendered number followed by text that does not start with a digit splits in only one way. |
| Util.FromString | src/util.rs:15-22 | `From<String>` gives a valid buffer whose head is the base and whose tail is empty. |
| Util.FromStr | src/util.rs:25-26 | `From<&str>` gives the same buffer `From<String>` builds, with head = base and an empty tail. |
| Util.WithTailInt | src/util.rs:31-35 | `with_tail_int(n)` keeps the tail index and the head, makes the tail exactly the decimal rendering of `n`, and returns the whole buffer text. |
| Util.WithTailIntText | src/util.rs:31-35 | The returned text is exactly head ++ Format(n). |
| Util.WithTailIntForgets | src/util.rs:32-33 | `with_tail_int(a)` followed by `with_tail_int(b)` is the same as a fresh `with_tail_int(b)`. |
| Util.WithTailIntInjective | src/util.rs:33 | Two integers give the same text if and only if they are equal. |
| Util.WithTailIntsKeepHead | src/util.rs:7-35 | After any non-empty series of calls on a buffer built from `base`: the tail index is still `len(base)`, the prefix is still `base`, and the text is base ++ Format(last integer). |
| Limit.IsClientError | src/lib.rs:119 | The client-error test: an error is a client error exactly when it carries a status whose class (hundreds digit) is 4. An error with no status is never one. |
| Limit.Classify | src/lib.rs:117-134 | A failed request is a boundary at its level exactly when it is a client error. Otherwise it is a fault carrying the error. |
| Limit.RecordBoundary | src/lib.rs:119-128 | A boundary turns a stored `Ok(prev)` into `Ok(min(prev, level))`. It never changes whether an error is stored, and it leaves a stored `Err` untouched. |
| Limit.RecordFault | src/lib.rs:130-132 | A non-client error overwrites the stored value, whether it was `Ok` or `Err`. |
| Limit.Update | src/lib.rs:117-134 | One critical section: an error is stored afterwards exactly when one was stored before or the observation is a fault. A fault's error replaces the stored value. A boundary leaves a stored error alone and otherwise keeps the smaller level. |
| Limit.Finish | src/lib.rs:140-143 | The final result is `Ok` exactly when a level is stored, and then it is that level minus one. A stored error is returned as is. |
| Limit.BoundariesCommute | src/lib.rs:119-128 | Two boundary updates give the same result in either order. |
| Limit.BoundaryIdempotent | src/lib.rs:119-128 | Recording the same boundary twice is the same as recording it once. |
| Limit.FailureSticksUnderBoundaries | src/lib.rs:119-128 | Once an `Err` is stored, any sequence of boundary observations leaves it unchanged. |
| Limit.ReplayBoundariesIsMin | src/lib.rs:99-128 | With only boundary observations, the stored value ends as `Ok(m)`. Here `m` is at most the start value and every observed level, and it equals one of them. |
| Limit.ReplayBoundariesOrderFree | src/lib.rs:99-128 | Any rearrangement of the same boundary observations leaves the same stored value. |
| Limit.ReplayFails | src/lib.rs:119-132 | The stored value ends as an error exactly when it started as one or some observation was a fault. Then it is the error of the last fault. |
| Prober.Init | src/lib.rs:99-108 | The pool starts with `num_workers` idle workers, the counter at 1 (`AtomicUsize::new(1)`) with no claims made, so the counter invariant holds, and the result at `Ok(usize::MAX)`. It is already finished exactly when there are no workers. |
| Prober.Step | src/lib.rs:108-135 | One move of worker `i` changes no other worker, and a stopped worker stays stopped. The counter moves, by one, exactly when an idle worker claims. The shared result changes only when a pending worker's request fails. |
| Prober.DetermineLimit | src/lib.rs:89-144 | The probe has an answer exactly when every worker has stopped; the answer is the stored level minus one, or the stored error. An error it returns is never a client error, and it is, unchanged, the server's reply to some level. |
| Prober.StepObservations | src/lib.rs:117-134 | A step hands the shared result at most one update, and applying it gives the state after the step. |
| Prober.RunIsReplay | src/lib.rs:108-143 | A run's shared result is what replaying its log of updates, in the order they took the lock, from `Ok(usize::MAX)` gives. This carries the `Limit` lemmas over to the worker pool. |
| Prober.ProbeFailsIffFault | src/lib.rs:117-143 | A finished probe fails exactly when some worker reported a fault. Its error is then the last fault's. |
| Prober.ErrorSticks | src/lib.rs:119-132 | Once an error is stored, every continuation of the run that finishes returns an error. |
| Prober.BoundaryOrderIrrelevant | src/lib.rs:119-128 | Two finished runs whose workers all stopped at boundaries, reporting the same boundaries in any order, return the same result. |
| Prober.CounterHandsOutConsecutiveLevels | src/lib.rs:101-111 | In every reachable state the claims are 1, 2, ..., counter-1 in order, each exactly once, and no two pending workers hold the same level. |
| Prober.ErrorIsNeverClientError | src/lib.rs:117-134 | An error the probe returns is never a client error. Client errors are used only as boundaries. |
| Prober.NoWorkersGiveSentinel | src/lib.rs:99-143 | With zero workers, under any schedule, the probe finishes with `Ok(usize::MAX - 1)`. |
| Prober.ProbeFindsLimit | src/lib.rs:89-143 | Suppose levels 1..=v succeed and every level past v is a client error. Then with at least one worker, every interleaving that finishes returns `Ok(v)`. |
| Prober.ErrorCameFromServer | src/lib.rs:117-143 | An error the probe returns is, unchanged, the error the server gave for some level. |
| Prober.ProbeReportsFault | src/lib.rs:109-143 | Suppose levels 1..=k succeed and level k+1 fails with a non-client error. Then every finished run with at least one worker returns an error that is not a client error, although successes came first. If every later failure is a client error, the returned error is exactly the fault at k+1. |
| Prober.SequentialScheduleFinishes | src/lib.rs:103-139 | For every contiguous oracle and every worker count of at least 1, some interleaving finishes. So `ProbeFindsLimit` is not vacuous. |
| Dimensions.ProbeAddress | src/lib.rs:104-113 | A worker's probe address for a level is template ++ Format(level). |
| Dimensions.ProbeAddressInjective | src/lib.rs:113 | Different levels are sent to different addresses. |
| Dimensions.ZoomTemplate | src/lib.rs:152 | The zoom template is the base, then `=`, and ends with the axis letter `z`, so the appended level is the zoom. |
| Dimensions.ColumnsTemplate | src/lib.rs:162 | The column template is the base, then `=`, and ends with the axis letter `x`. |
| Dimensions.RowsTemplate | src/lib.rs:175 | The row template is the base, then `=`, and ends with the axis letter `y`. |
| Dimensions.ProbeFamiliesDisjoint | src/lib.rs:152-175 | No zoom, column or row probe asks for the address of a probe of another family. |
| Dimensions.ProbeAddresses | src/lib.rs:147-179 | The zoom, column and row probe addresses are `base=x0-y0-z<n>`, `base=z<zoom>-y0-x<n>` and `base=z<zoom>-x0-y<n>`. |
| Dimensions.CountFromLimit | src/lib.rs:161-166 | A count is the limit plus one. Errors and unfinished probes pass through unchanged. |
| Dimensions.DetermineMaxZoom | src/lib.rs:147-153 | An error `determine_max_zoom` returns is not a client error, and it is the server's reply to some zoom probe. |
| Dimensions.DetermineColumns | src/lib.rs:156-166 | A column count is at least 1. An error is not a client error, and it is the server's reply to some column probe. |
| Dimensions.DetermineRows | src/lib.rs:169-179 | A row count is at least 1. An error is not a client error, and it is the server's reply to some row probe. |
| Dimensions.DetermineDimensions | src/lib.rs:182-192 | Both counts are at least 1. An error is not a client error, and it is the server's reply to some column or row probe. |
| Dimensions.MaxZoomIsLastValid | src/lib.rs:147-153 | A first boundary at zoom `b` gives maximum zoom `b - 1`, for any finished interleaving. |
| Dimensions.ColumnsCountIsFirstBoundary | src/lib.rs:156-166 | A first boundary at column index `b` gives `b` columns. |
| Dimensions.RowsCountIsFirstBoundary | src/lib.rs:169-179 | A first boundary at row index `b` gives `b` rows. |
| Dimensions.DimensionsAreFirstBoundaries | src/lib.rs:182-192 | When both probes finish on contiguous axes, `determine_dimensions` returns the two first boundaries. |
| Dimensions.DimensionsFailFast | src/lib.rs:182-192 | If either probe has failed, `determine_dimensions` fails, and the error is not a client error. |
| Inputs.AsRef | src/lib.rs:42-50 | `as_ref` returns the wrapped string: putting it back into the input's own variant gives the input. |
| Inputs.ContainsIffOccurs | src/lib.rs:64-66 | The substring scan succeeds exactly when the pattern occurs at some position. |
| Inputs.TryFrom | src/lib.rs:42-71 | `try_from` is total and keeps the string (`as_ref` gives it back). It gives `BaseUrl` if and only if the string contains "ggpht.com"; otherwise `PageUrl` if and only if it contains "deadseascrolls.org"; otherwise `ItemId`. |
| Inputs.TryFromStable | src/lib.rs:42-71 | Classifying the string of a classified input gives the same input again. |
| Rip.CellAddress | src/lib.rs:233 | A tile address starts with the base. The head tile's address, (0, 0) at a zoom, is exactly the address the zoom probe checks for that zoom. |
| Rip.CellAddressInjective | src/lib.rs:233 | Two tile addresses are equal if and only if their x, y and zoom are equal. |
| Rip.Product | src/lib.rs:258 | The cartesian product has columns·rows cells. |
| Rip.Cells | src/lib.rs:258 | After `.skip(1)` one cell fewer remains, or none when the grid is empty. |
| Rip.ProductShape | src/lib.rs:258 | The cartesian product is strictly x-major and holds exactly the cells with x < columns and y < rows. |
| Rip.CellsCoverGridOnce | src/lib.rs:246-258 | After `.skip(1)`, the cells are exactly the grid minus (0,0), each once, in x-major order. There are columns·rows - 1 of them. |
| Rip.Canvas | src/lib.rs:249-253 | The canvas covers exactly the pixels with px < columns·W and py < rows·H. |
| Rip.Region | src/lib.rs:267 | With a non-empty tile size, a pixel lies in cell c's region exactly when (px / W, py / H) is c. |
| Rip.Within | src/lib.rs:255-267 | The bounds check `copy_from` makes. For a non-empty inner rectangle it passes exactly when every pixel of the inner rectangle is a pixel of the outer one. |
| Rip.RegionInsideCanvas | src/lib.rs:249-267 | A grid cell's region `[x·W,(x+1)·W) × [y·H,(y+1)·H)` lies inside the `columns·W × rows·H` canvas. |
| Rip.RegionsDisjoint | src/lib.rs:267 | The regions of two different cells share no pixel. |
| Rip.CanvasCovered | src/lib.rs:249-267 | Every canvas pixel lies in the region of the grid cell (px / W, py / H). |
| Rip.Rip | src/lib.rs:246-258 | A dimension error is returned first, then a head error. Otherwise the rip succeeds exactly when the head fits the canvas, and the canvas is columns·W × rows·H. |
| Rip.PlacementsInsideCanvas | src/lib.rs:255-267 | Every placement lies inside the canvas and does not overlap the head tile. |
| Rip.PlacementsDisjoint | src/lib.rs:267 | No two placements overlap. |
| Rip.PlacementsAreCells | src/lib.rs:258-267 | The placed cells are exactly the grid minus (0,0), each placed once. |
| Rip.TilesCoverCanvas | src/lib.rs:249-267 | The head and the placements together cover every canvas pixel. |
| Rip.RipTilesCanvas | src/lib.rs:249-270 | A successful rip's layout exactly tiles the probed grid: in bounds, pairwise disjoint, every cell once, no gaps. |
| Rip.RipLayout | src/lib.rs:249-258 | With at least one column and one row, the head fits, the rip succeeds, and there are columns·rows - 1 placements. |
| Rip.DimsTask | src/lib.rs:218-225 | `dims_task` finishes when the dimension probe does, with the same pair, or with its error wrapped as `Error::HttpError`. |
| Rip.RipFromServer | src/lib.rs:218-258 | `try_join!` of the dimension task with the head fetch. It waits only while the probes run and the head has decoded. A failed head ends the rip with the head's error, whether the probes have finished or not, unless the probes have already failed. A failed probe ends it with the wrapped dimension error. Otherwise it is the layout of `Rip.Rip`. |
| Rip.RipFromServerLaysOutGrid | src/lib.rs:218-258 | On a server whose columns and rows end at first boundaries `C` and `R`, a rip whose probes finish and whose head decodes to W×H lays out the full C×R grid on a C·W × R·H canvas. |
| Rip.PlaceCells | src/lib.rs:258-267 | The imperative x-then-y loop that skips its first pair produces the same placements as the x-major enumeration with offsets (x·W, y·H). |

## Left out

- HTTP and the async runtime. HEAD and GET requests, `error_for_status` and
  reading bodies are replaced by a response oracle (`Prober.Reply`,
  `Dimensions.Endpoint`). Tasks, `RwLock` and `Mutex` are replaced by the
  explicit interleaving in `Prober`. Nothing in the model runs concurrently.
- Image decoding and pixels. `with_guessed_format`, `decode` and the pixel
  copying of `copy_from` are foreign code. A decoded head tile is only its
  size (`Rip.Tile`), and the head fetch is an input to `Rip.Rip`.
- Tile sizes other than the head's. The source copies each fetched cell
  with that cell's own size. The model gives every cell the head's size.
- Fetch failures in the tile phase. They reach `.unwrap()` at
  src/lib.rs:272 and panic, so no error contract is stated for that phase.
  A join error at src/lib.rs:139 panics the same way.
- Page scraping (`Page::try_fetch`, src/lib.rs:294-319). It relies on the
  `regex` crate's semantics and an HTTP fetch.
- src/main.rs. It is command-line plumbing, and it calls `rip` with two
  arguments against a four-argument signature.
- Machine-width arithmetic.
  - `columns as u32 * tile_width` and `rows as u32 * tile_height`
    (src/lib.rs:250-251) and `x as u32 * tile_width` (src/lib.rs:267) are
    unchecked `u32` arithmetic. The model uses unbounded `nat`.
  - The `usize` counter's wrap-around after `usize::MAX` claims is not
    modelled.
  - `usize::MAX` is treated only as the starting sentinel.
- Prober.ProbeFindsLimit: requires v < usize::MAX. A larger v would need
  the counter's wrap-around, which the model leaves out.
- Results.TryJoin: when both sides have failed, `try_join!` reports whichever
  failure completes first, which depends on timing. The model reports the
  first argument's error (the columns, or the dimensions in `rip`).
- Rip.Rip: like `Results.TryJoin`, it reports the dimension error when both
  the dimension probe and the head fetch fail.
- Rip.RipFromServer: for the same reason it reports the dimension error when
  both the probes and the head fetch have failed.
- Tracing calls, the `Display` impl (it writes `as_ref`, which `Inputs.AsRef`
  models), and the `reserve(10)` capacity hint (src/util.rs:17). None of
  them affects results.
- Byte and character offsets. `tail_index` is `base.len()`, a byte count,
  in the source (src/util.rs:16). Here it is `|base|`, a character count.
  For a non-ASCII base the numbers differ. Both mark the same split, the end
  of the base: the base is never changed, and `truncate` always cuts at that
  point.
