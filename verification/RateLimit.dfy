/** The sliding-window limiter. A request takes its snapshot of the log in one step and writes
    its own log row in a later one; in between other requests of the same identity may run. */
module RateLimit {
  import opened Numbers
  import opened Sums

  datatype Limits = Limits(windowSeconds: u64, maxRequests: nat, maxBytes: nat)

  datatype LogRow = LogRow(timestamp: u64, identity: string, bytes: nat, accepted: bool)

  datatype Request = Request(identity: string, now: u64, bytes: nat, recentRequests: nat, recentBytes: nat)

  datatype State = State(log: seq<LogRow>, inFlight: seq<Request>)

  function WindowStart(now: u64, window: u64): u64 {
    if now < window then 0 else now - window
  }

  predicate Recent(r: LogRow, identity: string, now: u64, window: u64) {
    r.identity == identity && AsI64(r.timestamp) >= AsI64(WindowStart(now, window))
  }

  /** The rows and bytes of one identity in the window that ends now, accepted or not. */
  function Snapshot(log: seq<LogRow>, l: Limits, identity: string, now: u64, bytes: nat): Request {
    Request(identity, now, bytes,
            Sum((r: LogRow) => if Recent(r, identity, now, l.windowSeconds) then 1 else 0, log),
            Sum((r: LogRow) => if Recent(r, identity, now, l.windowSeconds) then r.bytes else 0, log))
  }

  predicate Admitted(q: Request, l: Limits) {
    q.recentRequests + 1 <= l.maxRequests && q.recentBytes + q.bytes <= l.maxBytes
  }

  // ----- what a snapshot counts -----

  /** Below second 2^63, one more log row adds one request and its bytes to the snapshots of its own
      identity, as long as it is no older than the window, and to no others; accepted or not. */
  lemma {:induction false} SnapshotOneMore(log: seq<LogRow>, r: LogRow, l: Limits, identity: string, now: u64, bytes: nat)
    requires r.timestamp < TWO63 && now < TWO63
    ensures var before, after := Snapshot(log, l, identity, now, bytes), Snapshot(log + [r], l, identity, now, bytes);
            after == if r.identity == identity && now - r.timestamp <= l.windowSeconds
                     then Request(identity, now, bytes, before.recentRequests + 1, before.recentBytes + r.bytes)
                     else before
  {
    SumSnoc((r: LogRow) => if Recent(r, identity, now, l.windowSeconds) then 1 else 0, log, r);
    SumSnoc((r: LogRow) => if Recent(r, identity, now, l.windowSeconds) then r.bytes else 0, log, r);
  }

  lemma NothingCounted(l: Limits, identity: string, now: u64, bytes: nat)
    ensures Snapshot([], l, identity, now, bytes) == Request(identity, now, bytes, 0, 0)
  {
  }

  /** An identity without a row in the window is admitted whenever the limits allow a first request
      of its size at all, whatever others did. */
  lemma {:induction false} QuietIdentityAdmitted(log: seq<LogRow>, l: Limits, identity: string, now: u64, bytes: nat)
    requires now < TWO63
    requires forall i :: 0 <= i < |log| ==>
               log[i].timestamp < TWO63 && (log[i].identity != identity || now - log[i].timestamp > l.windowSeconds)
    ensures Snapshot(log, l, identity, now, bytes) == Request(identity, now, bytes, 0, 0)
    ensures Admitted(Snapshot(log, l, identity, now, bytes), l) <==> l.maxRequests >= 1 && bytes <= l.maxBytes
  {
    if log == [] {
      NothingCounted(l, identity, now, bytes);
    } else {
      hide Snapshot;
      var init, r := log[..|log| - 1], log[|log| - 1];
      QuietIdentityAdmitted(init, l, identity, now, bytes);
      SnapshotOneMore(init, r, l, identity, now, bytes);
      assert log == init + [r];
    }
  }

  // ----- steps -----

  /** A handler reads the clock and takes its snapshot. */
  ghost predicate Take(l: Limits, s: State, t: State, identity: string, now: u64, bytes: nat) {
    t == s.(inFlight := s.inFlight + [Snapshot(s.log, l, identity, now, bytes)])
  }

  /** A handler writes its log row under the time it read at the start. Only an admitted request
      can be accepted; a later check may still reject it. */
  ghost predicate Write(l: Limits, s: State, t: State, i: nat, accepted: bool) {
    && i < |s.inFlight| && (accepted ==> Admitted(s.inFlight[i], l))
    && var q := s.inFlight[i];
       t == State(s.log + [LogRow(q.now, q.identity, q.bytes, accepted)],
                  s.inFlight[..i] + s.inFlight[i + 1..])
  }

  /** A request turned away before its snapshot still leaves a row. */
  ghost predicate TurnAway(s: State, t: State, r: LogRow) {
    !r.accepted && t == s.(log := s.log + [r])
  }

  /** A handler fails before it writes its row. */
  ghost predicate Drop(s: State, t: State, i: nat) {
    i < |s.inFlight| && t == s.(inFlight := s.inFlight[..i] + s.inFlight[i + 1..])
  }

  ghost predicate Step(l: Limits, s: State, t: State) {
    || (exists identity: string, now: u64, bytes: nat :: Take(l, s, t, identity, now, bytes))
    || (exists i: nat, accepted: bool :: Write(l, s, t, i, accepted))
    || (exists r: LogRow :: TurnAway(s, t, r))
    || (exists i: nat :: Drop(s, t, i))
  }

  function OfIdentity(identity: string): Request -> nat {
    (q: Request) => if q.identity == identity then 1 else 0
  }

  /** Requests of one identity between snapshot and log row. */
  function Concurrent(s: State, identity: string): nat {
    Sum(OfIdentity(identity), s.inFlight)
  }

  /** A run from the empty log in which at most `k` requests of the identity overlap, and, when
      they may overlap at all, none is longer than `longest`. */
  ghost predicate Run(l: Limits, run: seq<State>, identity: string, k: nat, longest: nat) {
    && run != [] && run[0] == State([], [])
    && (forall i :: 0 <= i < |run| - 1 ==> Step(l, run[i], run[i + 1]))
    && (forall i :: 0 <= i < |run| ==> Concurrent(run[i], identity) <= k)
    && (k > 1 ==> forall i, q :: 0 <= i < |run| && q in run[i].inFlight ==> q.bytes <= longest)
  }

  // ----- one window -----

  /** A window of the limiter's length: the seconds `first` to `first + windowSeconds`. */
  predicate Within(now: u64, l: Limits, first: u64) {
    first <= now <= first + l.windowSeconds
  }

  /** No snapshot taken inside the window reaches across second 2^63, where the signed comparison
      of timestamps turns over. */
  predicate SafeWindow(l: Limits, first: u64) {
    first + l.windowSeconds < TWO63 || first >= TWO63 + l.windowSeconds
  }

  function AcceptedRow(l: Limits, identity: string, first: u64): LogRow -> nat {
    (r: LogRow) => if r.accepted && r.identity == identity && Within(r.timestamp, l, first) then 1 else 0
  }

  function AcceptedBytes(l: Limits, identity: string, first: u64): LogRow -> nat {
    (r: LogRow) => if r.accepted && r.identity == identity && Within(r.timestamp, l, first) then r.bytes else 0
  }

  function AdmittedRequest(l: Limits, identity: string, first: u64): Request -> nat {
    (q: Request) => if q.identity == identity && Within(q.now, l, first) && Admitted(q, l) then 1 else 0
  }

  function AdmittedBytes(l: Limits, identity: string, first: u64): Request -> nat {
    (q: Request) => if q.identity == identity && Within(q.now, l, first) && Admitted(q, l) then q.bytes else 0
  }

  /** Accepted rows plus admitted requests stay within the limit and the overlap. */
  ghost predicate Bounded(l: Limits, s: State, identity: string, first: u64, k: nat, longest: nat) {
    && Sum(AcceptedRow(l, identity, first), s.log) + Sum(AdmittedRequest(l, identity, first), s.inFlight)
       <= l.maxRequests + k - 1
    && Sum(AcceptedBytes(l, identity, first), s.log) + Sum(AdmittedBytes(l, identity, first), s.inFlight)
       <= l.maxBytes + (k - 1) * longest
  }

  /** Any snapshot taken inside a window sees every accepted row of that window. */
  lemma {:induction false} SnapshotSees(l: Limits, log: seq<LogRow>, identity: string, first: u64, now: u64, bytes: nat)
    requires Within(now, l, first) && SafeWindow(l, first)
    ensures var q := Snapshot(log, l, identity, now, bytes);
            && Sum(AcceptedRow(l, identity, first), log) <= q.recentRequests
            && Sum(AcceptedBytes(l, identity, first), log) <= q.recentBytes
  {
    var one := (r: LogRow) => if Recent(r, identity, now, l.windowSeconds) then 1 else 0;
    var size := (r: LogRow) => if Recent(r, identity, now, l.windowSeconds) then r.bytes else 0;
    SumLeq(AcceptedRow(l, identity, first), one, 1, log);
    SumLeq(AcceptedBytes(l, identity, first), size, 1, log);
  }

  lemma {:induction false} TakeKeepsBound(l: Limits, s: State, t: State, identity: string, first: u64, k: nat,
                                          longest: nat, who: string, now: u64, bytes: nat)
    requires k >= 1 && SafeWindow(l, first)
    requires Bounded(l, s, identity, first, k, longest) && Take(l, s, t, who, now, bytes)
    requires Concurrent(t, identity) <= k
    requires k > 1 ==> forall q :: q in s.inFlight ==> q.bytes <= longest
    ensures Bounded(l, t, identity, first, k, longest)
  {
    var q := Snapshot(s.log, l, who, now, bytes);
    SumSnoc(AdmittedRequest(l, identity, first), s.inFlight, q);
    SumSnoc(AdmittedBytes(l, identity, first), s.inFlight, q);
    SumSnoc(OfIdentity(identity), s.inFlight, q);
    if who == identity && Within(now, l, first) && Admitted(q, l) {
      SnapshotSees(l, s.log, identity, first, now, bytes);
      OthersBound(l, s, identity, first, k, longest);
    }
  }

  /** The other overlapping requests: at most `k - 1`, and none of them longer than `longest`. */
  lemma {:induction false} OthersBound(l: Limits, s: State, identity: string, first: u64, k: nat, longest: nat)
    requires k >= 1 && Concurrent(s, identity) <= k - 1
    requires k > 1 ==> forall q :: q in s.inFlight ==> q.bytes <= longest
    ensures Sum(AdmittedRequest(l, identity, first), s.inFlight) <= k - 1
    ensures Sum(AdmittedBytes(l, identity, first), s.inFlight) <= (k - 1) * longest
  {
    SumLeq(AdmittedRequest(l, identity, first), OfIdentity(identity), 1, s.inFlight);
    if k > 1 {
      SumLeq(AdmittedBytes(l, identity, first), OfIdentity(identity), longest, s.inFlight);
      MulMono(Concurrent(s, identity), k - 1, longest);
    } else {
      NobodyThere(s.inFlight, identity);
      SumLeq(AdmittedBytes(l, identity, first), OfIdentity(identity), 0, s.inFlight);
    }
  }

  lemma {:induction false} NobodyThere(s: seq<Request>, identity: string)
    requires Sum(OfIdentity(identity), s) == 0
    ensures forall q :: q in s ==> q.identity != identity
  {
    if s != [] {
      NobodyThere(s[1..], identity);
      assert forall q :: q in s ==> q == s[0] || q in s[1..];
    }
  }

  lemma {:induction false} WriteKeepsBound(l: Limits, s: State, t: State, identity: string, first: u64, k: nat,
                                           longest: nat, i: nat, accepted: bool)
    requires Bounded(l, s, identity, first, k, longest) && Write(l, s, t, i, accepted)
    ensures Bounded(l, t, identity, first, k, longest)
  {
    var q := s.inFlight[i];
    var r := LogRow(q.now, q.identity, q.bytes, accepted);
    SumSnoc(AcceptedRow(l, identity, first), s.log, r);
    SumSnoc(AcceptedBytes(l, identity, first), s.log, r);
    SumRemove(AdmittedRequest(l, identity, first), s.inFlight, i);
    SumRemove(AdmittedBytes(l, identity, first), s.inFlight, i);
  }

  lemma {:induction false} StepKeepsBound(l: Limits, s: State, t: State, identity: string, first: u64, k: nat, longest: nat)
    requires k >= 1 && SafeWindow(l, first)
    requires Bounded(l, s, identity, first, k, longest) && Step(l, s, t)
    requires Concurrent(t, identity) <= k
    requires k > 1 ==> forall q :: q in s.inFlight ==> q.bytes <= longest
    ensures Bounded(l, t, identity, first, k, longest)
  {
    hide Bounded;
    if who: string, now: u64, bytes: nat :| Take(l, s, t, who, now, bytes) {
      TakeKeepsBound(l, s, t, identity, first, k, longest, who, now, bytes);
    } else if i: nat, accepted: bool :| Write(l, s, t, i, accepted) {
      WriteKeepsBound(l, s, t, identity, first, k, longest, i, accepted);
    } else if r: LogRow :| TurnAway(s, t, r) {
      TurnAwayKeepsBound(l, s, t, identity, first, k, longest, r);
    } else if i: nat :| Drop(s, t, i) {
      DropKeepsBound(l, s, t, identity, first, k, longest, i);
    }
  }

  lemma {:induction false} TurnAwayKeepsBound(l: Limits, s: State, t: State, identity: string, first: u64, k: nat,
                                              longest: nat, r: LogRow)
    requires Bounded(l, s, identity, first, k, longest) && TurnAway(s, t, r)
    ensures Bounded(l, t, identity, first, k, longest)
  {
    SumSnoc(AcceptedRow(l, identity, first), s.log, r);
    SumSnoc(AcceptedBytes(l, identity, first), s.log, r);
  }

  lemma {:induction false} DropKeepsBound(l: Limits, s: State, t: State, identity: string, first: u64, k: nat,
                                          longest: nat, i: nat)
    requires Bounded(l, s, identity, first, k, longest) && Drop(s, t, i)
    ensures Bounded(l, t, identity, first, k, longest)
  {
    SumRemove(AdmittedRequest(l, identity, first), s.inFlight, i);
    SumRemove(AdmittedBytes(l, identity, first), s.inFlight, i);
  }

  lemma {:induction false} RunBounded(l: Limits, run: seq<State>, identity: string, k: nat, longest: nat, first: u64, n: nat)
    requires k >= 1 && SafeWindow(l, first)
    requires Run(l, run, identity, k, longest) && n < |run|
    ensures Bounded(l, run[n], identity, first, k, longest)
  {
    if n > 0 {
      RunBounded(l, run, identity, k, longest, first, n - 1);
      hide Bounded, Step;
      StepKeepsBound(l, run[n - 1], run[n], identity, first, k, longest);
    }
  }

  /** In every run with at most `k` overlapping requests of an identity, any window holds at most
      `maxRequests + k - 1` of its accepted requests and `maxBytes + (k - 1) * longest` of their
      bytes. With no overlap both limits hold exactly. No clock order is assumed. The window must
      be safe; UnsafeWindowHasNoLimit shows that no other window has any limit. */
  lemma {:induction false} WindowLimit(l: Limits, run: seq<State>, identity: string, k: nat, longest: nat, first: u64, n: nat)
    requires k >= 1 && SafeWindow(l, first)
    requires Run(l, run, identity, k, longest) && n < |run|
    ensures Sum(AcceptedRow(l, identity, first), run[n].log) <= l.maxRequests + k - 1
    ensures Sum(AcceptedBytes(l, identity, first), run[n].log) <= l.maxBytes + (k - 1) * longest
    ensures k == 1 ==>
              && Sum(AcceptedRow(l, identity, first), run[n].log) <= l.maxRequests
              && Sum(AcceptedBytes(l, identity, first), run[n].log) <= l.maxBytes
  {
    RunBounded(l, run, identity, k, longest, first, n);
  }

  // ----- the bounds are reached -----

  const WHO := "a"

  /** Accepted rows of one identity and one second. */
  function RowsOf(at: u64, sizes: seq<nat>): (rows: seq<LogRow>)
    ensures |rows| == |sizes|
  {
    seq(|sizes|, i requires 0 <= i < |sizes| => LogRow(at, WHO, sizes[i], true))
  }

  function Size(n: nat): nat {
    n
  }

  lemma {:induction false} SumOver<T>(f: T -> nat, s: seq<T>, c: nat)
    requires forall i :: 0 <= i < |s| ==> f(s[i]) == c
    ensures Sum(f, s) == c * |s|
  {
    if s != [] {
      SumOver(f, s[1..], c);
    }
  }

  lemma {:induction false} SumRows(f: LogRow -> nat, g: nat -> nat, at: u64, sizes: seq<nat>)
    requires forall n: nat :: f(LogRow(at, WHO, n, true)) == g(n)
    ensures Sum(f, RowsOf(at, sizes)) == Sum(g, sizes)
  {
    if sizes != [] {
      SumRows(f, g, at, sizes[1..]);
      assert RowsOf(at, sizes)[1..] == RowsOf(at, sizes[1..]);
    }
  }

  /** A request sees the rows of its own second, unless its window reaches across second 2^63. */
  lemma {:induction false} SnapshotOfRows(l: Limits, at: u64, sizes: seq<nat>, bytes: nat)
    ensures Snapshot(RowsOf(at, sizes), l, WHO, at, bytes)
         == if WindowStart(at, l.windowSeconds) < TWO63 <= at then Request(WHO, at, bytes, 0, 0)
            else Request(WHO, at, bytes, |sizes|, Sum(Size, sizes))
  {
    hide Sum;
    var one := (r: LogRow) => if Recent(r, WHO, at, l.windowSeconds) then 1 else 0;
    var size := (r: LogRow) => if Recent(r, WHO, at, l.windowSeconds) then r.bytes else 0;
    var rows := RowsOf(at, sizes);
    if WindowStart(at, l.windowSeconds) < TWO63 <= at {
      SumOver(one, rows, 0);
      SumOver(size, rows, 0);
    } else {
      SumOver(one, rows, 1);
      SumRows(size, Size, at, sizes);
    }
  }

  lemma {:induction false} RunSnoc(l: Limits, run: seq<State>, k: nat, longest: nat, t: State)
    requires Run(l, run, WHO, k, longest) && Step(l, run[|run| - 1], t)
    requires Concurrent(t, WHO) <= k && forall q :: q in t.inFlight ==> q.bytes <= longest
    ensures Run(l, run + [t], WHO, k, longest)
  {
    hide Step;
    var longer := run + [t];
    forall i | 0 <= i < |longer| - 1 ensures Step(l, longer[i], longer[i + 1]) {
      assert longer[i] == run[i];
      if i + 1 < |run| {
        assert longer[i + 1] == run[i + 1];
      }
    }
  }

  /** `n` requests that took the same snapshot. */
  function Waiting(q: Request, n: nat): (s: seq<Request>)
    ensures |s| == n
  {
    seq(n, _ => q)
  }

  /** One more snapshot of the same rows. */
  lemma {:induction false} TakeMore(l: Limits, run: seq<State>, k: nat, longest: nat, log: seq<LogRow>, q: Request, n: nat)
    returns (longer: seq<State>)
    requires Run(l, run, WHO, k, longest) && run[|run| - 1] == State(log, Waiting(q, n)) && n < k
    requires q == Snapshot(log, l, WHO, q.now, q.bytes) && q.bytes <= longest
    ensures Run(l, longer, WHO, k, longest) && longer[|longer| - 1] == State(log, Waiting(q, n + 1))
  {
    SnapshotFields(log, l, q.now, q.bytes);
    RunNotEmpty(l, run, k, longest);
    hide Run, Sum, Snapshot;
    var t := State(log, Waiting(q, n + 1));
    assert Take(l, run[|run| - 1], t, WHO, q.now, q.bytes);
    SumOver(OfIdentity(WHO), t.inFlight, 1);
    RunSnoc(l, run, k, longest, t);
    longer := run + [t];
  }

  lemma RunNotEmpty(l: Limits, run: seq<State>, k: nat, longest: nat)
    requires Run(l, run, WHO, k, longest)
    ensures run != []
  {
  }

  /** One more accepted row, written by the first waiting request. */
  lemma {:induction false} WriteMore(l: Limits, run: seq<State>, k: nat, longest: nat, at: u64, sizes: seq<nat>,
                                     q: Request, n: nat)
    returns (longer: seq<State>)
    requires Run(l, run, WHO, k, longest) && run[|run| - 1] == State(RowsOf(at, sizes), Waiting(q, n))
    requires 0 < n <= k && q.identity == WHO && q.now == at && q.bytes <= longest && Admitted(q, l)
    ensures Run(l, longer, WHO, k, longest)
    ensures longer[|longer| - 1] == State(RowsOf(at, sizes + [q.bytes]), Waiting(q, n - 1))
  {
    RunNotEmpty(l, run, k, longest);
    hide Run, Sum;
    var s, t := run[|run| - 1], State(RowsOf(at, sizes + [q.bytes]), Waiting(q, n - 1));
    assert s.inFlight[..0] + s.inFlight[0 + 1..] == t.inFlight;
    assert t.log == s.log + [LogRow(at, WHO, q.bytes, true)];
    assert Write(l, s, t, 0, true);
    SumOver(OfIdentity(WHO), t.inFlight, 1);
    RunSnoc(l, run, k, longest, t);
    longer := run + [t];
  }

  /** Each request, one after another, passes the limits with what it sees. */
  ghost predicate Affordable(l: Limits, at: u64, longest: nat, sizes: seq<nat>) {
    forall i :: 0 <= i < |sizes| ==>
                  && sizes[i] <= longest
                  && Admitted(Snapshot(RowsOf(at, sizes[..i]), l, WHO, at, sizes[i]), l)
  }

  /** Requests that never overlap. */
  lemma {:induction false} OneByOne(l: Limits, k: nat, longest: nat, at: u64, sizes: seq<nat>, n: nat)
    returns (run: seq<State>)
    requires k >= 1 && n <= |sizes| && Affordable(l, at, longest, sizes)
    ensures Run(l, run, WHO, k, longest) && run[|run| - 1] == State(RowsOf(at, sizes[..n]), [])
  {
    if n == 0 {
      run := [State([], [])];
      assert RowsOf(at, sizes[..0]) == [];
    } else {
      hide Run, Snapshot, Admitted;
      run := OneByOne(l, k, longest, at, sizes, n - 1);
      var q := Snapshot(RowsOf(at, sizes[..n - 1]), l, WHO, at, sizes[n - 1]);
      assert Admitted(q, l);
      SnapshotFields(RowsOf(at, sizes[..n - 1]), l, at, sizes[n - 1]);
      RunNotEmpty(l, run, k, longest);
      assert Waiting(q, 0) == [];
      run := TakeMore(l, run, k, longest, RowsOf(at, sizes[..n - 1]), q, 0);
      run := WriteMore(l, run, k, longest, at, sizes[..n - 1], q, 1);
      PrefixSnoc(sizes, n - 1);
    }
  }

  lemma SnapshotFields(log: seq<LogRow>, l: Limits, at: u64, bytes: nat)
    ensures var q := Snapshot(log, l, WHO, at, bytes); q.identity == WHO && q.now == at && q.bytes == bytes
  {
  }

  /** Then `n` requests of one size that all took their snapshot before any of them was logged. */
  lemma {:induction false} TakeAll(l: Limits, k: nat, longest: nat, at: u64, sizes: seq<nat>, q: Request, n: nat)
    returns (run: seq<State>)
    requires k >= 1 && Affordable(l, at, longest, sizes) && n <= k
    requires q == Snapshot(RowsOf(at, sizes), l, WHO, at, q.bytes) && q.bytes <= longest
    ensures Run(l, run, WHO, k, longest) && run[|run| - 1] == State(RowsOf(at, sizes), Waiting(q, n))
  {
    hide Run, Snapshot, Affordable;
    if n == 0 {
      run := OneByOne(l, k, longest, at, sizes, |sizes|);
      RunNotEmpty(l, run, k, longest);
      assert sizes[..|sizes|] == sizes;
      assert Waiting(q, 0) == [];
    } else {
      run := TakeAll(l, k, longest, at, sizes, q, n - 1);
      RunNotEmpty(l, run, k, longest);
      SnapshotFields(RowsOf(at, sizes), l, at, q.bytes);
      run := TakeMore(l, run, k, longest, RowsOf(at, sizes), q, n - 1);
    }
  }

  lemma {:induction false} WriteAll(l: Limits, k: nat, longest: nat, at: u64, sizes: seq<nat>, q: Request, n: nat)
    returns (run: seq<State>)
    requires k >= 1 && Affordable(l, at, longest, sizes) && n <= k
    requires q == Snapshot(RowsOf(at, sizes), l, WHO, at, q.bytes) && q.bytes <= longest && Admitted(q, l)
    ensures Run(l, run, WHO, k, longest)
    ensures run[|run| - 1] == State(RowsOf(at, sizes + Repeat(q.bytes, n)), Waiting(q, k - n))
  {
    hide Run, Snapshot, Affordable, Admitted;
    if n == 0 {
      run := TakeAll(l, k, longest, at, sizes, q, k);
      RunNotEmpty(l, run, k, longest);
      assert sizes + Repeat(q.bytes, 0) == sizes;
    } else {
      run := WriteAll(l, k, longest, at, sizes, q, n - 1);
      RunNotEmpty(l, run, k, longest);
      SnapshotFields(RowsOf(at, sizes), l, at, q.bytes);
      run := WriteMore(l, run, k, longest, at, sizes + Repeat(q.bytes, n - 1), q, k - n + 1);
      assert sizes + Repeat(q.bytes, n - 1) + [q.bytes] == sizes + Repeat(q.bytes, n);
    }
  }

  function Repeat(x: nat, n: nat): (s: seq<nat>)
    ensures |s| == n && forall i :: 0 <= i < n ==> s[i] == x
  {
    seq(n, _ => x)
  }

  /** Within a second that sees its own rows, what counts is their number and their sum. */
  lemma {:induction false} AffordableIf(l: Limits, at: u64, longest: nat, sizes: seq<nat>)
    requires at < TWO63 && |sizes| <= l.maxRequests && Sum(Size, sizes) <= l.maxBytes
    requires forall i :: 0 <= i < |sizes| ==> sizes[i] <= longest
    ensures Affordable(l, at, longest, sizes)
  {
    forall i | 0 <= i < |sizes| ensures Admitted(Snapshot(RowsOf(at, sizes[..i]), l, WHO, at, sizes[i]), l) {
      SnapshotOfRows(l, at, sizes[..i], sizes[i]);
      hide Snapshot, Sum;
      SumSnoc(Size, sizes[..i], sizes[i]);
      SumConcat(Size, sizes[..i + 1], sizes[i + 1..]);
      PrefixSnoc(sizes, i);
      assert sizes == sizes[..i + 1] + sizes[i + 1..];
    }
  }

  /** For every limit and every overlap there is a run that accepts exactly
      `maxRequests + k - 1` requests in one window, so the slack is real and no smaller. */
  lemma {:induction false} OverlapReachesTheBound(l: Limits, k: nat) returns (run: seq<State>)
    requires k >= 1 && l.maxRequests >= 1
    ensures Run(l, run, WHO, k, 0) && run != []
    ensures Sum(AcceptedRow(l, WHO, 0), run[|run| - 1].log) == l.maxRequests + k - 1
  {
    hide Run, Sum, Affordable, Snapshot;
    var sizes := Repeat(0, l.maxRequests - 1);
    SumOver(Size, sizes, 0);
    AffordableIf(l, 0, 0, sizes);
    SnapshotOfRows(l, 0, sizes, 0);
    run := WriteAll(l, k, 0, 0, sizes, Snapshot(RowsOf(0, sizes), l, WHO, 0, 0), k);
    RunNotEmpty(l, run, k, 0);
    SumOver(AcceptedRow(l, WHO, 0), run[|run| - 1].log, 1);
  }

  /** Sizes of at most `longest` that add up to `total`. */
  function Split(total: nat, longest: nat): (s: seq<nat>)
    requires longest >= 1
    ensures forall i :: 0 <= i < |s| ==> s[i] <= longest
    decreases total
  {
    if total == 0 then [] else if total <= longest then [total] else [longest] + Split(total - longest, longest)
  }

  lemma {:induction false} SplitAdds(total: nat, longest: nat, count: nat)
    requires longest >= 1 && total <= count * longest
    ensures Sum(Size, Split(total, longest)) == total && |Split(total, longest)| <= count
    decreases total
  {
    if total > longest {
      CountLess(count, longest);
      SplitAdds(total - longest, longest, count - 1);
      assert Split(total, longest)[1..] == Split(total - longest, longest);
    } else if total > 0 {
      assert count >= 1;
      assert Split(total, longest)[1..] == [];
    }
  }

  lemma CountLess(count: nat, longest: nat)
    ensures count >= 1 ==> (count - 1) * longest == count * longest - longest
  {
  }

  /** For every overlap there is also a run that accepts exactly `maxBytes + (k - 1) * longest`
      bytes in one window, whenever requests of that length can use up the byte limit at all. */
  lemma {:induction false} OverlapReachesTheByteBound(l: Limits, k: nat, longest: nat) returns (run: seq<State>)
    requires k >= 1 && 1 <= longest <= l.maxBytes <= l.maxRequests * longest
    ensures Run(l, run, WHO, k, longest) && run != []
    ensures Sum(AcceptedBytes(l, WHO, 0), run[|run| - 1].log) == l.maxBytes + (k - 1) * longest
  {
    hide Run, Sum, Affordable, Snapshot, Split;
    var rest := l.maxBytes - longest;
    var sizes := Split(rest, longest);
    CountLess(l.maxRequests, longest);
    SplitAdds(rest, longest, l.maxRequests - 1);
    AffordableIf(l, 0, longest, sizes);
    SnapshotOfRows(l, 0, sizes, longest);
    run := WriteAll(l, k, longest, 0, sizes, Snapshot(RowsOf(0, sizes), l, WHO, 0, longest), k);
    RunNotEmpty(l, run, k, longest);
    SumRows(AcceptedBytes(l, WHO, 0), Size, 0, sizes + Repeat(longest, k));
    SumConcat(Size, sizes, Repeat(longest, k));
    SumOver(Size, Repeat(longest, k), longest);
    CountLess(k, longest);
  }

  /** In every window that is not safe the limiter limits nothing: without any overlap, some run
      accepts any number of requests. */
  lemma {:induction false} UnsafeWindowHasNoLimit(l: Limits, first: u64, n: nat) returns (run: seq<State>)
    requires !SafeWindow(l, first) && l.maxRequests >= 1
    ensures Run(l, run, WHO, 1, 0) && run != []
    ensures Sum(AcceptedRow(l, WHO, first), run[|run| - 1].log) == n
  {
    var at: u64 := if first < TWO63 then TWO63 else first;
    var sizes := Repeat(0, n);
    assert Affordable(l, at, 0, sizes) by {
      forall i | 0 <= i < n ensures Admitted(Snapshot(RowsOf(at, sizes[..i]), l, WHO, at, sizes[i]), l) {
        SnapshotOfRows(l, at, sizes[..i], sizes[i]);
      }
    }
    hide Run, Sum, Affordable;
    run := OneByOne(l, 1, 0, at, sizes, n);
    RunNotEmpty(l, run, 1, 0);
    assert sizes[..n] == sizes;
    SumOver(AcceptedRow(l, WHO, first), run[|run| - 1].log, 1);
  }
}
