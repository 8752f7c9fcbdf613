/**
 The shared result of `determine_limit` (src/lib.rs:91-144): the smallest
 level seen to be out of range, or the last failure that was not a
 client error. `Acc` is the value behind the `RwLock`; `Update` is one
 critical section under its write lock.
 */
module Limit {
  import opened Results

  /** `usize::MAX` on a 64-bit target; the accumulator's starting sentinel. */
  const USIZE_MAX: nat := 0xFFFF_FFFF_FFFF_FFFF

  /** A probed level. The shared counter starts at 1, so no level is 0. */
  type Level = n: nat | 1 <= n witness 1

  /** A `reqwest::Error`: an error status code, or a failure with no status (connection, timeout, body). */
  datatype HttpError = Status(code: nat) | Transport(id: nat)

  /** `e.status().map_or(false, |c| c.is_client_error())`. */
  predicate IsClientError(e: HttpError): (b: bool)
    ensures e.Transport? ==> !b
    ensures b <==> e.Status? && e.code / 100 == 4
  {
    e.Status? && 400 <= e.code <= 499
  }

  /** The value `min_failure` holds: `Ok(level)` or `Err(error)`. */
  datatype Acc = Bound(level: Level) | Fail(error: HttpError)

  /** `Ok(usize::MAX)`, before any worker has reported. */
  const Initial: Acc := Bound(USIZE_MAX)

  /** What a worker reports when its request fails. */
  datatype Observation = Boundary(level: Level) | Fault(error: HttpError)

  /** A failed request at `level`: a client error marks the boundary, anything else is a fault. */
  function Classify(level: Level, e: HttpError): (o: Observation)
    ensures o.Boundary? <==> IsClientError(e)
    ensures o.Boundary? ==> o.level == level
    ensures o.Fault? ==> o.error == e
  {
    if IsClientError(e) then Boundary(level) else Fault(e)
  }

  function Min(a: nat, b: nat): nat {
    if a <= b then a else b
  }

  /**
   The boundary branch: a stored `Ok` is tightened to the smaller of the two
   levels, a stored `Err` is left alone.
   */
  function RecordBoundary(acc: Acc, level: Level): (r: Acc)
    ensures r.Fail? <==> acc.Fail?
    ensures acc.Fail? ==> r == acc
    ensures acc.Bound? ==> r.level == Min(acc.level, level)
  {
    match acc
    case Bound(previous) => if level <= previous then Bound(level) else acc
    case Fail(_) => acc
  }

  /** The fault branch: the stored value is overwritten, whatever it was. */
  function RecordFault(acc: Acc, e: HttpError): (r: Acc)
    ensures r.Fail? && r.error == e
  {
    Fail(e)
  }

  /**
   One critical section under the write lock: an error ends up stored exactly
   when one was stored already or this observation is a fault; a fault's
   error replaces whatever was there; a boundary leaves an error alone and
   otherwise keeps the smaller level.
   */
  function Update(acc: Acc, o: Observation): (r: Acc)
    ensures r.Fail? <==> acc.Fail? || o.Fault?
    ensures o.Fault? ==> r == Fail(o.error)
    ensures o.Boundary? && acc.Fail? ==> r == acc
    ensures r.Bound? ==> r.level == Min(acc.level, o.level)
  {
    match o
    case Boundary(level) => RecordBoundary(acc, level)
    case Fault(e) => RecordFault(acc, e)
  }

  /** `.map(|l| l - 1)` on the final value; the level is at least 1, so nothing underflows. */
  function Finish(acc: Acc): (r: Result<nat, HttpError>)
    ensures r.Ok? <==> acc.Bound?
    ensures r.Ok? ==> r.value + 1 == acc.level
    ensures r.Err? ==> r.error == acc.error
  {
    match acc
    case Bound(level) => Ok(level - 1)
    case Fail(e) => Err(e)
  }

  /** Applying several updates one after another, in the order the lock granted them. */
  function Replay(acc: Acc, os: seq<Observation>): Acc
    decreases |os|
  {
    if |os| == 0 then acc else Replay(Update(acc, os[0]), os[1..])
  }

  /** Replaying two logs one after the other is replaying their concatenation. */
  lemma {:induction false} ReplayAppend(acc: Acc, a: seq<Observation>, b: seq<Observation>)
    ensures Replay(acc, a + b) == Replay(Replay(acc, a), b)
    decreases |a|
  {
    if |a| > 0 {
      assert (a + b)[0] == a[0];
      assert (a + b)[1..] == a[1..] + b;
      ReplayAppend(Update(acc, a[0]), a[1..], b);
    } else {
      assert a + b == b;
    }
  }

  predicate AllBoundaries(os: seq<Observation>) {
    forall k :: 0 <= k < |os| ==> os[k].Boundary?
  }

  /** Two boundary updates commute. */
  lemma BoundariesCommute(acc: Acc, a: Level, b: Level)
    ensures RecordBoundary(RecordBoundary(acc, a), b) == RecordBoundary(RecordBoundary(acc, b), a)
  {
  }

  /** Recording the same boundary twice is the same as recording it once. */
  lemma BoundaryIdempotent(acc: Acc, a: Level)
    ensures RecordBoundary(RecordBoundary(acc, a), a) == RecordBoundary(acc, a)
  {
  }

  /** Once an error is stored, boundary observations never replace it. */
  lemma {:induction false} FailureSticksUnderBoundaries(e: HttpError, os: seq<Observation>)
    requires AllBoundaries(os)
    ensures Replay(Fail(e), os) == Fail(e)
    decreases |os|
  {
    if |os| > 0 {
      FailureSticksUnderBoundaries(e, os[1..]);
    }
  }

  /**
   With only boundary observations the stored value ends as the smallest of
   the starting bound and every observed level.
   */
  lemma {:induction false} ReplayBoundariesIsMin(b: Level, os: seq<Observation>)
    requires AllBoundaries(os)
    ensures Replay(Bound(b), os).Bound?
    ensures Replay(Bound(b), os).level <= b
    ensures forall k :: 0 <= k < |os| ==> Replay(Bound(b), os).level <= os[k].level
    ensures Replay(Bound(b), os).level == b || exists k :: 0 <= k < |os| && os[k].level == Replay(Bound(b), os).level
    decreases |os|
  {
    if |os| > 0 {
      var b' := Min(b, os[0].level);
      ReplayBoundariesIsMin(b', os[1..]);
      var r := Replay(Bound(b), os);
      assert r == Replay(Bound(b'), os[1..]);
      forall k | 1 <= k < |os|
        ensures r.level <= os[k].level
      {
        assert os[k] == os[1..][k - 1];
      }
      if r.level != b && r.level != b' {
        var k :| 0 <= k < |os[1..]| && os[1..][k].level == r.level;
        assert os[k + 1].level == r.level;
      }
    }
  }

  /**
   The order of boundary observations does not matter: any rearrangement of
   them leaves the same stored value.
   */
  lemma ReplayBoundariesOrderFree(b: Level, os: seq<Observation>, ps: seq<Observation>)
    requires AllBoundaries(os)
    requires multiset(os) == multiset(ps)
    ensures Replay(Bound(b), os) == Replay(Bound(b), ps)
  {
    assert forall k :: 0 <= k < |ps| ==> ps[k] in multiset(os);
    assert AllBoundaries(ps);
    ReplayBoundariesIsMin(b, os);
    ReplayBoundariesIsMin(b, ps);
    var r, q := Replay(Bound(b), os), Replay(Bound(b), ps);
    assert forall k :: 0 <= k < |os| ==> os[k] in multiset(ps);
    if r.level != b {
      var k :| 0 <= k < |os| && os[k].level == r.level;
      assert os[k] in multiset(ps);
      var j :| 0 <= j < |ps| && ps[j] == os[k];
    }
    if q.level != b {
      var k :| 0 <= k < |ps| && ps[k].level == q.level;
      assert ps[k] in multiset(os);
      var j :| 0 <= j < |os| && os[j] == ps[k];
    }
  }

  /**
   The stored value is an error exactly when it started as one or some
   observation was a fault; in the latter case it is the last fault's error.
   */
  lemma {:induction false} ReplayFails(acc: Acc, os: seq<Observation>)
    ensures Replay(acc, os).Fail? <==> acc.Fail? || exists k :: 0 <= k < |os| && os[k].Fault?
    ensures forall k :: 0 <= k < |os| && os[k].Fault? && (forall j :: k < j < |os| ==> os[j].Boundary?) ==>
              Replay(acc, os) == Fail(os[k].error)
    decreases |os|
  {
    if |os| > 0 {
      var acc' := Update(acc, os[0]);
      ReplayFails(acc', os[1..]);
      assert Replay(acc, os) == Replay(acc', os[1..]);
      if exists k :: 0 <= k < |os[1..]| && os[1..][k].Fault? {
        var k :| 0 <= k < |os[1..]| && os[1..][k].Fault?;
        assert os[k + 1].Fault?;
      }
      if exists k :: 1 <= k < |os| && os[k].Fault? {
        var k :| 1 <= k < |os| && os[k].Fault?;
        assert os[1..][k - 1].Fault?;
      }
      forall k | 0 <= k < |os| && os[k].Fault? && (forall j :: k < j < |os| ==> os[j].Boundary?)
        ensures Replay(acc, os) == Fail(os[k].error)
      {
        if k == 0 {
          assert AllBoundaries(os[1..]) by {
            forall j | 0 <= j < |os[1..]| ensures os[1..][j].Boundary? {
              assert os[1..][j] == os[j + 1];
            }
          }
          FailureSticksUnderBoundaries(os[0].error, os[1..]);
        } else {
          assert os[1..][k - 1] == os[k];
          forall j | k - 1 < j < |os[1..]| ensures os[1..][j].Boundary? {
            assert os[1..][j] == os[j + 1];
          }
        }
      }
    }
  }
}
