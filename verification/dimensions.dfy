/**
 The three axis probes of src/lib.rs:146-192. Each builds a template that
 ends with the probed axis's letter, and every worker appends the level it
 claimed through its own `StringMutTail`. The server is a total function
 from addresses to replies.
 */
module Dimensions {
  import opened Results
  import opened Decimal
  import opened Util
  import opened Limit
  import Prober

  /** The server's answer to a HEAD request for each address. */
  type Endpoint = string -> Prober.Reply

  /** `format!("{}=x0-y0-z", base)`: zoom is the free axis. */
  function ZoomTemplate(base: string): (t: string)
    ensures |base| < |t| && t[..|base|] == base && t[|base|] == '=' && t[|t| - 1] == 'z'
  {
    base + "=x0-y0-z"
  }

  /** `format!("{}=z{}-y0-x", base, zoom)`: columns are the free axis. */
  function ColumnsTemplate(base: string, zoom: nat): (t: string)
    ensures |base| < |t| && t[..|base|] == base && t[|base|] == '=' && t[|t| - 1] == 'x'
  {
    base + "=z" + Format(zoom) + "-y0-x"
  }

  /** `format!("{}=z{}-x0-y", base, zoom)`: rows are the free axis. */
  function RowsTemplate(base: string, zoom: nat): (t: string)
    ensures |base| < |t| && t[..|base|] == base && t[|base|] == '=' && t[|t| - 1] == 'y'
  {
    base + "=z" + Format(zoom) + "-x0-y"
  }

  /** The address a worker asks about for `level`: `base.with_tail_int(level)` on its own buffer. */
  function ProbeAddress(template: string, level: nat): (a: string)
    ensures a == template + Format(level)
  {
    WithTailInt(FromStr(template), level).1
  }

  /** Different levels are sent to different addresses. */
  lemma ProbeAddressInjective(template: string, a: nat, b: nat)
    ensures ProbeAddress(template, a) == ProbeAddress(template, b) <==> a == b
  {
    WithTailIntInjective(FromStr(template), a, b);
  }

  /** The three probe addresses written out in full. */
  lemma ProbeAddresses(base: string, zoom: nat, level: nat)
    ensures ProbeAddress(ZoomTemplate(base), level) == base + "=x0-y0-z" + Format(level)
    ensures ProbeAddress(ColumnsTemplate(base, zoom), level) == base + "=z" + Format(zoom) + "-y0-x" + Format(level)
    ensures ProbeAddress(RowsTemplate(base, zoom), level) == base + "=z" + Format(zoom) + "-x0-y" + Format(level)
  {
  }

  /**
   The three probe families never ask for the same address: the zoom probe
   differs from the others right after the `=`, and the column and row
   probes differ at the letter after the zoom.
   */
  lemma ProbeFamiliesDisjoint(base: string, zoom: nat, a: nat, b: nat, c: nat)
    ensures ProbeAddress(ZoomTemplate(base), a) != ProbeAddress(ColumnsTemplate(base, zoom), b)
    ensures ProbeAddress(ZoomTemplate(base), a) != ProbeAddress(RowsTemplate(base, zoom), c)
    ensures ProbeAddress(ColumnsTemplate(base, zoom), b) != ProbeAddress(RowsTemplate(base, zoom), c)
  {
    var z, x, y := ProbeAddress(ZoomTemplate(base), a), ProbeAddress(ColumnsTemplate(base, zoom), b),
                   ProbeAddress(RowsTemplate(base, zoom), c);
    assert z[|base| + 1] == 'x';
    assert x[|base| + 1] == 'z' && y[|base| + 1] == 'z';
    var i := |base| + 2 + |Format(zoom)| + 1;
    assert x[i] == 'y';
    assert y[i] == 'x';
  }

  /** The reply for each level when probing along `template`. */
  function LevelOracle(endpoint: Endpoint, template: string): nat -> Prober.Reply {
    (l: nat) => endpoint(ProbeAddress(template, l))
  }

  /** `determine_limit(client, template, num_workers)` under the interleaving `schedule`. */
  function DetermineLimit(endpoint: Endpoint, template: string, n: nat, schedule: seq<nat>): Option<Result<nat, HttpError>> {
    Prober.DetermineLimit(LevelOracle(endpoint, template), n, schedule)
  }

  /** `.map(|c| c + 1)`: a zero-based limit becomes a count. */
  function CountFromLimit(limit: Option<Result<nat, HttpError>>): (count: Option<Result<nat, HttpError>>)
    ensures count.Some? <==> limit.Some?
    ensures FinishedOk(count) <==> FinishedOk(limit)
    ensures FinishedOk(count) ==> count.value.value == limit.value.value + 1
    ensures FinishedErr(count) ==> count.value.error == limit.value.error
  {
    match limit
    case None => None
    case Some(Ok(c)) => Some(Ok(c + 1))
    case Some(Err(e)) => Some(Err(e))
  }

  /**
   `determine_max_zoom`: the limit along the zoom axis. An error it returns
   is never a client error, and is the server's answer to some zoom probe.
   */
  function DetermineMaxZoom(endpoint: Endpoint, base: string, n: nat, schedule: seq<nat>): (r: Option<Result<nat, HttpError>>)
    ensures FinishedErr(r) ==> !IsClientError(r.value.error)
    ensures FinishedErr(r) ==> exists l: Level :: endpoint(ProbeAddress(ZoomTemplate(base), l)) == Prober.Failure(r.value.error)
  {
    ProbeErrorFacts(endpoint, ZoomTemplate(base), n, schedule);
    DetermineLimit(endpoint, ZoomTemplate(base), n, schedule)
  }

  /** `determine_columns`: a count of at least one, or a server error on some column probe that is not a client error. */
  function DetermineColumns(endpoint: Endpoint, base: string, zoom: nat, n: nat, schedule: seq<nat>): (r: Option<Result<nat, HttpError>>)
    ensures FinishedOk(r) ==> r.value.value >= 1
    ensures FinishedErr(r) ==> !IsClientError(r.value.error)
    ensures FinishedErr(r) ==> exists l: Level :: endpoint(ProbeAddress(ColumnsTemplate(base, zoom), l)) == Prober.Failure(r.value.error)
  {
    ProbeErrorFacts(endpoint, ColumnsTemplate(base, zoom), n, schedule);
    CountFromLimit(DetermineLimit(endpoint, ColumnsTemplate(base, zoom), n, schedule))
  }

  /** `determine_rows`: a count of at least one, or a server error on some row probe that is not a client error. */
  function DetermineRows(endpoint: Endpoint, base: string, zoom: nat, n: nat, schedule: seq<nat>): (r: Option<Result<nat, HttpError>>)
    ensures FinishedOk(r) ==> r.value.value >= 1
    ensures FinishedErr(r) ==> !IsClientError(r.value.error)
    ensures FinishedErr(r) ==> exists l: Level :: endpoint(ProbeAddress(RowsTemplate(base, zoom), l)) == Prober.Failure(r.value.error)
  {
    ProbeErrorFacts(endpoint, RowsTemplate(base, zoom), n, schedule);
    CountFromLimit(DetermineLimit(endpoint, RowsTemplate(base, zoom), n, schedule))
  }

  /** The two error facts about the prober, read through the address templates. */
  lemma ProbeErrorFacts(endpoint: Endpoint, template: string, n: nat, schedule: seq<nat>)
    ensures var r := DetermineLimit(endpoint, template, n, schedule);
      FinishedErr(r) ==> (!IsClientError(r.value.error) &&
                          exists l: Level :: endpoint(ProbeAddress(template, l)) == Prober.Failure(r.value.error))
  {
    var oracle := LevelOracle(endpoint, template);
    Prober.ErrorIsNeverClientError(oracle, n, schedule);
    Prober.ErrorCameFromServer(oracle, n, schedule);
    assert forall l :: oracle(l) == endpoint(ProbeAddress(template, l));
  }

  /**
   `determine_dimensions`: the column and row probes run side by side, each
   with `num_workers_half` workers and its own interleaving, and are joined
   with `try_join!`.
   */
  function DetermineDimensions(endpoint: Endpoint, base: string, zoom: nat, nHalf: nat,
                               columnSchedule: seq<nat>, rowSchedule: seq<nat>): (r: Option<Result<(nat, nat), HttpError>>)
    ensures FinishedOk(r) ==> r.value.value.0 >= 1 && r.value.value.1 >= 1
    ensures FinishedErr(r) ==> !IsClientError(r.value.error)
    ensures FinishedErr(r) ==> exists l: Level ::
      || endpoint(ProbeAddress(ColumnsTemplate(base, zoom), l)) == Prober.Failure(r.value.error)
      || endpoint(ProbeAddress(RowsTemplate(base, zoom), l)) == Prober.Failure(r.value.error)
  {
    TryJoin(DetermineColumns(endpoint, base, zoom, nHalf, columnSchedule),
            DetermineRows(endpoint, base, zoom, nHalf, rowSchedule))
  }

  /**
   Along `template`, the first `first - 1` levels exist and `first` and
   everything past it is a client error: `first` is the first boundary.
   */
  ghost predicate FirstBoundaryAt(endpoint: Endpoint, template: string, first: Level) {
    && (forall l :: 1 <= l < first ==> endpoint(ProbeAddress(template, l)) == Prober.Success)
    && (forall l :: first <= l ==> endpoint(ProbeAddress(template, l)).Failure? &&
                                   IsClientError(endpoint(ProbeAddress(template, l)).error))
  }

  lemma FirstBoundaryIsContiguous(endpoint: Endpoint, template: string, first: Level)
    requires FirstBoundaryAt(endpoint, template, first)
    ensures Prober.Contiguous(LevelOracle(endpoint, template), first - 1)
  {
    var oracle := LevelOracle(endpoint, template);
    assert forall l :: oracle(l) == endpoint(ProbeAddress(template, l));
  }

  /** A first boundary at `first` along the zoom axis gives maximum zoom `first - 1`. */
  lemma MaxZoomIsLastValid(endpoint: Endpoint, base: string, first: Level, n: nat, schedule: seq<nat>)
    requires FirstBoundaryAt(endpoint, ZoomTemplate(base), first)
    requires first <= USIZE_MAX && 1 <= n
    requires DetermineMaxZoom(endpoint, base, n, schedule).Some?
    ensures DetermineMaxZoom(endpoint, base, n, schedule) == Some(Ok(first - 1))
  {
    FirstBoundaryIsContiguous(endpoint, ZoomTemplate(base), first);
    Prober.ProbeFindsLimit(LevelOracle(endpoint, ZoomTemplate(base)), first - 1, n, schedule);
  }

  /** A first boundary at column index `first` gives `first` columns. */
  lemma ColumnsCountIsFirstBoundary(endpoint: Endpoint, base: string, zoom: nat, first: Level, n: nat, schedule: seq<nat>)
    requires FirstBoundaryAt(endpoint, ColumnsTemplate(base, zoom), first)
    requires first <= USIZE_MAX && 1 <= n
    requires DetermineColumns(endpoint, base, zoom, n, schedule).Some?
    ensures DetermineColumns(endpoint, base, zoom, n, schedule) == Some(Ok(first))
  {
    FirstBoundaryIsContiguous(endpoint, ColumnsTemplate(base, zoom), first);
    Prober.ProbeFindsLimit(LevelOracle(endpoint, ColumnsTemplate(base, zoom)), first - 1, n, schedule);
  }

  /** A first boundary at row index `first` gives `first` rows. */
  lemma RowsCountIsFirstBoundary(endpoint: Endpoint, base: string, zoom: nat, first: Level, n: nat, schedule: seq<nat>)
    requires FirstBoundaryAt(endpoint, RowsTemplate(base, zoom), first)
    requires first <= USIZE_MAX && 1 <= n
    requires DetermineRows(endpoint, base, zoom, n, schedule).Some?
    ensures DetermineRows(endpoint, base, zoom, n, schedule) == Some(Ok(first))
  {
    FirstBoundaryIsContiguous(endpoint, RowsTemplate(base, zoom), first);
    Prober.ProbeFindsLimit(LevelOracle(endpoint, RowsTemplate(base, zoom)), first - 1, n, schedule);
  }

  /** Both probes finished on contiguous axes: the dimensions are the two first boundaries. */
  lemma DimensionsAreFirstBoundaries(endpoint: Endpoint, base: string, zoom: nat, columns: Level, rows: Level,
                                     nHalf: nat, columnSchedule: seq<nat>, rowSchedule: seq<nat>)
    requires FirstBoundaryAt(endpoint, ColumnsTemplate(base, zoom), columns)
    requires FirstBoundaryAt(endpoint, RowsTemplate(base, zoom), rows)
    requires columns <= USIZE_MAX && rows <= USIZE_MAX && 1 <= nHalf
    requires DetermineColumns(endpoint, base, zoom, nHalf, columnSchedule).Some?
    requires DetermineRows(endpoint, base, zoom, nHalf, rowSchedule).Some?
    ensures DetermineDimensions(endpoint, base, zoom, nHalf, columnSchedule, rowSchedule) == Some(Ok((columns, rows)))
  {
    ColumnsCountIsFirstBoundary(endpoint, base, zoom, columns, nHalf, columnSchedule);
    RowsCountIsFirstBoundary(endpoint, base, zoom, rows, nHalf, rowSchedule);
  }

  /** If either probe has failed, the dimensions fail, with an error that is not a client error. */
  lemma DimensionsFailFast(endpoint: Endpoint, base: string, zoom: nat, nHalf: nat,
                           columnSchedule: seq<nat>, rowSchedule: seq<nat>)
    requires FinishedErr(DetermineColumns(endpoint, base, zoom, nHalf, columnSchedule)) ||
             FinishedErr(DetermineRows(endpoint, base, zoom, nHalf, rowSchedule))
    ensures FinishedErr(DetermineDimensions(endpoint, base, zoom, nHalf, columnSchedule, rowSchedule))
    ensures !IsClientError(DetermineDimensions(endpoint, base, zoom, nHalf, columnSchedule, rowSchedule).value.error)
  {
    Prober.ErrorIsNeverClientError(LevelOracle(endpoint, ColumnsTemplate(base, zoom)), nHalf, columnSchedule);
    Prober.ErrorIsNeverClientError(LevelOracle(endpoint, RowsTemplate(base, zoom)), nHalf, rowSchedule);
  }
}
