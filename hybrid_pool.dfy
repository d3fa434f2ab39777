/**
 * The pool of authenticated scraping sessions and its round-robin selector.
 * A session is reduced to its identifier and its two flags; logging in, the
 * HTTP work and closing a session's connections are not modelled.
 */
module HybridPool {
  import opened Wrappers
  import opened Text

  datatype Session = Session(id: string, isBusy: bool, isAuthenticated: bool)

  /** A session the selector may hand out. */
  predicate Eligible(s: Session) {
    !s.isBusy && s.isAuthenticated
  }

  // ---------------------------------------------------------------------------
  // The selection rule as a function of the list and the cursor
  // ---------------------------------------------------------------------------

  /**
   * The position attempt `k` of a scan starting at `start` examines: the list
   * read cyclically, `(start + k) % n` for the at most `n` attempts of one lap.
   */
  function Probe(n: nat, start: nat, k: nat): (p: nat)
    requires start < n && k <= n
    ensures p < n
    ensures p == (start + k) % n
  {
    if start + k < n then start + k
    else
      ModOneLap(start + k, n);
      start + k - n
  }

  lemma MulBounds(n: int, q: int)
    requires n > 0
    ensures q <= 0 ==> n * q <= 0
    ensures q >= 2 ==> n * q >= 2 * n
  {
    if q >= 2 {
      assert n * q == 2 * n + n * (q - 2);
    }
  }

  /** Past the end but within one more lap, `%` is a single subtraction. */
  lemma ModOneLap(x: int, n: int)
    requires 0 < n <= x < 2 * n
    ensures x % n == x - n
  {
    var q := x / n;
    assert n * q + x % n == x;
    MulBounds(n, q);
    assert q == 1;
  }

  /** One step of the cursor, `(p + 1) % n`, for a position inside the list. */
  lemma StepMod(p: nat, n: nat)
    requires p < n
    ensures (p + 1) % n == if p + 1 < n then p + 1 else 0
  {
  }

  /** Moving the cursor one step, `(cursor + 1) % n`, moves the scan to its next attempt. */
  lemma ProbeStep(n: nat, start: nat, k: nat)
    requires start < n && k < n
    ensures Probe(n, start, k + 1) == (Probe(n, start, k) + 1) % n
  {
    StepMod(Probe(n, start, k), n);
  }

  /** Attempt `k` of a scan starting at `start` finds an eligible session. */
  predicate EligibleAt(sessions: seq<Session>, start: nat, k: nat)
    requires start < |sessions| && k <= |sessions|
  {
    Eligible(sessions[Probe(|sessions|, start, k)])
  }

  /** The first attempt, counting from `from`, that finds an eligible session. */
  function FirstEligible(sessions: seq<Session>, start: nat, from: nat): (r: Option<nat>)
    requires start < |sessions| && from <= |sessions|
    ensures r.Some? ==> from <= r.value < |sessions| && EligibleAt(sessions, start, r.value)
    ensures forall k :: from <= k < (if r.Some? then r.value else |sessions|) ==> !EligibleAt(sessions, start, k)
    decreases |sessions| - from
  {
    if from == |sessions| then None
    else if EligibleAt(sessions, start, from) then Some(from)
    else FirstEligible(sessions, start, from + 1)
  }

  /** The session handed out, if any, and the cursor left behind. */
  datatype Selection = Selection(session: Option<Session>, cursor: nat)

  /** The cursor indexes the list whenever the list is not empty. */
  predicate CursorInRange(sessions: seq<Session>, cursor: nat) {
    sessions == [] || cursor < |sessions|
  }

  /**
   * One selection: nothing from an empty pool; otherwise examine at most
   * `|sessions|` entries from the cursor on, moving the cursor one step past
   * each examined entry, and hand out the first eligible one.
   */
  function Select(sessions: seq<Session>, cursor: nat): (sel: Selection)
    requires CursorInRange(sessions, cursor)
    ensures CursorInRange(sessions, sel.cursor)
    ensures sel.session.Some? ==> sel.session.value in sessions && Eligible(sel.session.value)
  {
    if sessions == [] then Selection(None, cursor)
    else
      var n := |sessions|;
      match FirstEligible(sessions, cursor, 0)
      case None => Selection(None, Probe(n, cursor, n))
      case Some(k) => Selection(Some(sessions[Probe(n, cursor, k)]), Probe(n, cursor, k + 1))
  }

  /** An empty pool hands out nothing and leaves the cursor alone. */
  lemma SelectFromEmpty(cursor: nat)
    ensures Select([], cursor) == Selection(None, cursor)
  {
  }

  /** Every position is examined by some attempt of a full scan. */
  lemma EveryPositionExamined(n: nat, start: nat, i: nat)
    requires start < n && i < n
    ensures exists k :: 0 <= k < n && Probe(n, start, k) == i
  {
    var k := if i >= start then i - start else i + n - start;
    assert Probe(n, start, k) == i;
  }

  /** Attempt `k` is the first of the scan from `start` to find an eligible session. */
  predicate FirstHit(sessions: seq<Session>, start: nat, k: nat)
    requires start < |sessions|
  {
    && k < |sessions|
    && EligibleAt(sessions, start, k)
    && forall j :: 0 <= j < k ==> !EligibleAt(sessions, start, j)
  }

  /**
   * The session handed out sits at the first attempt `k` of the scan that
   * finds an eligible one, and the cursor ends one step past it, at
   * `(cursor + k + 1) % |sessions|`.
   */
  lemma SelectFindsFirstEligible(sessions: seq<Session>, cursor: nat)
    requires CursorInRange(sessions, cursor)
    ensures Select(sessions, cursor).session.Some? ==>
      exists k: nat :: FirstHit(sessions, cursor, k)
        && Select(sessions, cursor) == Selection(Some(sessions[Probe(|sessions|, cursor, k)]), Probe(|sessions|, cursor, k + 1))
  {
    if sessions != [] {
      match FirstEligible(sessions, cursor, 0)
      case None =>
      case Some(k) =>
        assert FirstHit(sessions, cursor, k);
    }
  }

  /** Nothing is handed out exactly when no session is eligible; the cursor is then back where it was. */
  lemma SelectNoneIff(sessions: seq<Session>, cursor: nat)
    requires CursorInRange(sessions, cursor)
    ensures var sel := Select(sessions, cursor);
      && (sel.session.None? <==> forall i :: 0 <= i < |sessions| ==> !Eligible(sessions[i]))
      && (sel.session.None? ==> sel.cursor == cursor)
  {
    if sessions != [] {
      var n := |sessions|;
      match FirstEligible(sessions, cursor, 0)
      case None =>
        forall i | 0 <= i < n ensures !Eligible(sessions[i]) {
          EveryPositionExamined(n, cursor, i);
          var k :| 0 <= k < n && Probe(n, cursor, k) == i;
          assert !EligibleAt(sessions, cursor, k);
        }
      case Some(k) =>
        assert EligibleAt(sessions, cursor, k);
    }
  }

  /** The cursor stays inside the list. */
  lemma SelectKeepsCursorInRange(sessions: seq<Session>, cursor: nat)
    requires CursorInRange(sessions, cursor)
    ensures CursorInRange(sessions, Select(sessions, cursor).cursor)
  {
  }

  /** When every session is eligible, selection is plain round robin. */
  lemma SelectRoundRobin(sessions: seq<Session>, cursor: nat)
    requires sessions != [] && cursor < |sessions|
    requires forall i :: 0 <= i < |sessions| ==> Eligible(sessions[i])
    ensures Select(sessions, cursor) == Selection(Some(sessions[cursor]), (cursor + 1) % |sessions|)
  {
    StepMod(cursor, |sessions|);
    assert EligibleAt(sessions, cursor, 0);
  }

  // ---------------------------------------------------------------------------
  // Status counting
  // ---------------------------------------------------------------------------

  function CountBusy(sessions: seq<Session>): (n: nat)
    ensures n <= |sessions|
  {
    if sessions == [] then 0 else (if sessions[0].isBusy then 1 else 0) + CountBusy(sessions[1..])
  }

  function CountIdle(sessions: seq<Session>): (n: nat)
    ensures n <= |sessions|
  {
    if sessions == [] then 0 else (if sessions[0].isBusy then 0 else 1) + CountIdle(sessions[1..])
  }

  function CountAuthenticated(sessions: seq<Session>): (n: nat)
    ensures n <= |sessions|
  {
    if sessions == [] then 0 else (if sessions[0].isAuthenticated then 1 else 0) + CountAuthenticated(sessions[1..])
  }

  function CountEligible(sessions: seq<Session>): (n: nat)
    ensures n <= |sessions|
  {
    if sessions == [] then 0 else (if Eligible(sessions[0]) then 1 else 0) + CountEligible(sessions[1..])
  }

  /** Every session is either busy or idle. */
  lemma {:induction false} BusyPlusIdle(sessions: seq<Session>)
    ensures CountBusy(sessions) + CountIdle(sessions) == |sessions|
  {
    if sessions != [] {
      BusyPlusIdle(sessions[1..]);
    }
  }

  /** Eligible sessions are idle and authenticated, so there are no more of them than of either. */
  lemma {:induction false} EligibleAtMostIdleAndAuthenticated(sessions: seq<Session>)
    ensures CountEligible(sessions) <= CountIdle(sessions)
    ensures CountEligible(sessions) <= CountAuthenticated(sessions)
  {
    if sessions != [] {
      EligibleAtMostIdleAndAuthenticated(sessions[1..]);
    }
  }

  /** There is an eligible session exactly when the count of them is positive. */
  lemma {:induction false} CountEligiblePositive(sessions: seq<Session>)
    ensures CountEligible(sessions) > 0 <==> exists i :: 0 <= i < |sessions| && Eligible(sessions[i])
  {
    if sessions != [] {
      CountEligiblePositive(sessions[1..]);
      if exists i :: 0 <= i < |sessions| && Eligible(sessions[i]) {
        var i :| 0 <= i < |sessions| && Eligible(sessions[i]);
        if i > 0 {
          assert Eligible(sessions[1..][i - 1]);
        }
      }
      if exists i :: 0 <= i < |sessions[1..]| && Eligible(sessions[1..][i]) {
        var i :| 0 <= i < |sessions[1..]| && Eligible(sessions[1..][i]);
        assert Eligible(sessions[i + 1]);
      }
    }
  }

  /** The status report of the pool. */
  datatype PoolStatus = PoolStatus(
    kind: string,
    totalSessions: nat,
    busySessions: nat,
    availableSessions: int,
    authenticatedSessions: nat
  )

  // ---------------------------------------------------------------------------
  // Sessions created by initialisation
  // ---------------------------------------------------------------------------

  /** The session created for slot `i` once its login succeeded. */
  function LoggedInSession(i: nat): Session {
    Session("HYBRID-" + Decimal(i + 1), false, true)
  }

  /** The sessions kept from the login outcomes of the slots, in slot order. */
  function ReadySessions(logins: seq<bool>): seq<Session>
    decreases |logins|
  {
    if logins == [] then []
    else
      ReadySessions(logins[..|logins| - 1])
        + (if logins[|logins| - 1] then [LoggedInSession(|logins| - 1)] else [])
  }

  /** One session per successful login, each idle and authenticated. */
  lemma {:induction false} ReadySessionsAreEligible(logins: seq<bool>)
    ensures |ReadySessions(logins)| == |set i | 0 <= i < |logins| && logins[i]|
    ensures forall k :: 0 <= k < |ReadySessions(logins)| ==> Eligible(ReadySessions(logins)[k])
    decreases |logins|
  {
    if logins != [] {
      var front := logins[..|logins| - 1];
      ReadySessionsAreEligible(front);
      var last := |logins| - 1;
      var before := set i | 0 <= i < |front| && front[i];
      var now := set i | 0 <= i < |logins| && logins[i];
      assert now == before + (if logins[last] then {last} else {});
      assert last !in before;
    }
  }

  // ---------------------------------------------------------------------------
  // The pool object
  // ---------------------------------------------------------------------------

  class SRIHybridPool {
    const maxSessions: nat
    var sessions: seq<Session>
    var cursor: nat

    ghost predicate Valid()
      reads this
    {
      CursorInRange(sessions, cursor)
    }

    /** An empty pool, cursor at the first position. */
    constructor (maxSessions: nat)
      ensures Valid()
      ensures this.maxSessions == maxSessions && sessions == [] && cursor == 0
    {
      this.maxSessions := maxSessions;
      sessions := [];
      cursor := 0;
    }

    /**
     * Try to log in `maxSessions` sessions one after the other and keep those
     * that succeeded; `logins[i]` is the outcome of slot `i`.
     */
    method Initialize(logins: seq<bool>) returns (ready: nat)
      requires Valid() && |logins| == maxSessions
      requires sessions == [] ==> cursor == 0
      modifies this`sessions
      ensures Valid()
      ensures sessions == old(sessions) + ReadySessions(logins)
      ensures ready == |sessions|
    {
      for i := 0 to maxSessions
        invariant sessions == old(sessions) + ReadySessions(logins[..i])
        invariant Valid()
      {
        assert logins[..i + 1][..i] == logins[..i];
        if logins[i] {
          sessions := sessions + [LoggedInSession(i)];
        }
      }
      assert logins[..maxSessions] == logins;
      ready := |sessions|;
    }

    /**
     * Hand out the next idle, authenticated session in round-robin order, or
     * nothing. Only the cursor changes.
     */
    method GetAvailableSession() returns (r: Option<Session>)
      requires Valid()
      modifies this`cursor
      ensures Valid()
      ensures sessions == old(sessions)
      ensures Selection(r, cursor) == Select(sessions, old(cursor))
    {
      if sessions == [] {
        return None;
      }
      var n := |sessions|;
      var attempts := 0;
      while attempts < n
        invariant 0 <= attempts <= n
        invariant cursor == Probe(n, old(cursor), attempts)
        invariant FirstEligible(sessions, old(cursor), 0) == FirstEligible(sessions, old(cursor), attempts)
      {
        ProbeStep(n, old(cursor), attempts);
        var session := sessions[cursor];
        cursor := (cursor + 1) % n;
        if !session.isBusy && session.isAuthenticated {
          assert EligibleAt(sessions, old(cursor), attempts);
          return Some(session);
        }
        attempts := attempts + 1;
      }
      return None;
    }

    /** Flip a session's busy flag, as a consultation does around its HTTP call. */
    method SetBusy(i: nat, busy: bool)
      requires Valid() && i < |sessions|
      modifies this`sessions
      ensures Valid()
      ensures sessions == old(sessions)[i := old(sessions)[i].(isBusy := busy)]
    {
      sessions := sessions[i := sessions[i].(isBusy := busy)];
    }

    /** Counts of the sessions by their flags. */
    function GetPoolStatus(): (st: PoolStatus)
      reads this
      ensures st.kind == "hybrid_pool" && st.totalSessions == |sessions|
      ensures st.busySessions == CountBusy(sessions) && st.authenticatedSessions == CountAuthenticated(sessions)
      ensures st.availableSessions == st.totalSessions - st.busySessions
      ensures st.availableSessions == CountIdle(sessions) >= CountEligible(sessions)
    {
      BusyPlusIdle(sessions);
      EligibleAtMostIdleAndAuthenticated(sessions);
      var busy := CountBusy(sessions);
      PoolStatus("hybrid_pool", |sessions|, busy, |sessions| - busy, CountAuthenticated(sessions))
    }

    /** Drop every session; the cursor is left where it was. */
    method CloseAll()
      requires Valid()
      modifies this`sessions
      ensures Valid() && sessions == []
    {
      sessions := [];
    }
  }

  /** After closing, the pool hands out nothing. */
  method CloseThenSelect(pool: SRIHybridPool) returns (r: Option<Session>)
    requires pool.Valid()
    modifies pool
    ensures r == None
  {
    pool.CloseAll();
    r := pool.GetAvailableSession();
  }
}
