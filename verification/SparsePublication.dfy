/** Publishing only the affected ranges of an item and certifying the rest by an earlier completion
    (items/api.py, _publish_sparse; items/completion.py). */
module SparsePublication {
  import opened Wrappers
  import opened Extremes
  import opened Sorting
  import opened Windows

  /** One stored batch: the observation dates of its rows, and whether its bounds are on record. */
  datatype Batch = Batch(days: seq<int>, indexed: bool)

  /** The committed output of an item is a sequence of commits; a commit is numbered by its position. */
  type Commit = seq<Batch>

  datatype Pending = Pending(day: int, available: int)

  datatype Authority = Native | Attested(outputReceipt: bool)

  /** A completion either computed its whole range or continues an earlier completion outside some ranges. */
  datatype Origin = Whole | Continues(predecessor: nat, ranges: seq<Window>)

  /** A build without a result commit reads as the one before all commits. */
  datatype Build = Build(
    definition: nat, range: Window, cutoff: Option<int>, receipt: nat, resultCommit: nat, checkBound: Option<nat>,
    pending: seq<Pending>, authority: Authority, origin: Origin)

  datatype Refusal = UnknownPredecessor | ChangedCoverage | InvalidRanges | Hole | RegressedCutoff | OmittedMature
    | OutsideRanges | NotNative | UnboundedChecks | LaterOutput | LaterTiming | InputsChanged | OutputChanged

  // ---------------------------------------------------------------- the checks

  /** Sorted ranges are nonempty, inside the coverage, and each ends before the next begins. */
  ghost predicate Declared(ranges: seq<Window>, range: Window) {
    ranges == [] ||
    var init, top := ranges[..|ranges| - 1], ranges[|ranges| - 1];
    && Declared(init, range)
    && range.first <= top.first <= top.last <= range.last
    && (init != [] ==> init[|init| - 1].last < top.first)
  }

  lemma {:induction false} DeclaredPrefix(ranges: seq<Window>, range: Window, n: nat)
    requires Declared(ranges, range) && n <= |ranges|
    ensures Declared(ranges[..n], range)
  {
    if n < |ranges| {
      DeclaredPrefix(ranges[..|ranges| - 1], range, n);
      assert ranges[..|ranges| - 1][..n] == ranges[..n];
    } else {
      assert ranges[..n] == ranges;
    }
  }

  lemma {:induction false} DeclaredAt(ranges: seq<Window>, range: Window)
    requires Declared(ranges, range)
    ensures forall w | w in ranges :: range.first <= w.first <= w.last <= range.last
    ensures forall i, j | 0 <= i < j < |ranges| :: ranges[i].last < ranges[j].first
  {
    if ranges != [] { DeclaredAt(ranges[..|ranges| - 1], range); }
  }

  method CheckRanges(ranges: seq<Window>, range: Window) returns (ok: bool)
    ensures ok <==> Declared(ranges, range)
  {
    assert ranges[..0] == [];
    for i := 0 to |ranges|
      invariant Declared(ranges[..i], range)
    {
      var w := ranges[i];
      assert ranges[..i + 1][..i] == ranges[..i];
      if w.first < range.first || w.last > range.last || w.first > w.last || (i > 0 && ranges[i - 1].last >= w.first) {
        if Declared(ranges, range) { DeclaredPrefix(ranges, range, i + 1); }
        return false;
      }
    }
    assert ranges[..|ranges|] == ranges;
    return true;
  }

  /** Every day from one day through another lies in a declared range. */
  ghost predicate Filled(ranges: seq<Window>, from: int, last: int) {
    forall day | from <= day <= last :: Covered(ranges, day)
  }

  /** The hole sweep after some ranges: all days before next are known, and no range seen reaches further. */
  ghost predicate Known(done: seq<Window>, from: int, next: int) {
    && from <= next
    && (forall day | from <= day < next :: Covered(done, day))
    && (forall w | w in done :: w.last < next)
  }

  lemma KnownStep(done: seq<Window>, from: int, next: int, w: Window)
    requires Known(done, from, next) && (w.last < next || w.first <= next)
    ensures Known(done + [w], from, if w.last < next then next else w.last + 1)
  {
    CoveredAppend(done, w);
  }

  lemma StuckAtHole(ranges: seq<Window>, range: Window, i: nat, from: int, next: int)
    requires Declared(ranges, range) && i <= |ranges| && Known(ranges[..i], from, next)
    requires i < |ranges| ==> next < ranges[i].first
    ensures !Covered(ranges, next)
  {
    DeclaredAt(ranges, range);
    forall w | w in ranges ensures !w.Contains(next) {
      var j :| 0 <= j < |ranges| && ranges[j] == w;
      if j < i { assert ranges[..i][j] in ranges[..i]; }
    }
  }

  lemma PrefixCovers(ranges: seq<Window>, i: nat, from: int, next: int)
    requires i <= |ranges| && Known(ranges[..i], from, next)
    ensures forall day | from <= day < next :: Covered(ranges, day)
  {
    forall day | from <= day < next ensures Covered(ranges, day) {
      assert Covered(ranges[..i], day);
      var w :| w in ranges[..i] && w.Contains(day);
    }
  }

  /** Finds no hole exactly when the ranges hold every newly declared day. */
  method CheckHole(ranges: seq<Window>, range: Window, from: int) returns (ok: bool)
    requires Declared(ranges, range)
    ensures ok <==> Filled(ranges, from, range.last)
  {
    var next, i := from, 0;
    while i < |ranges|
      invariant i <= |ranges| && Known(ranges[..i], from, next)
    {
      var w := ranges[i];
      if w.last >= next {
        if w.first > next { break; }
      }
      KnownStep(ranges[..i], from, next, w);
      assert ranges[..i + 1] == ranges[..i] + [w];
      next := if w.last < next then next else w.last + 1;
      i := i + 1;
    }
    if next <= range.last { StuckAtHole(ranges, range, i, from, next); }
    PrefixCovers(ranges, i, from, next);
    return next > range.last;
  }

  /** A pending date that became available between two cutoffs. */
  predicate NewlyMature(p: Pending, range: Window, before: int, cutoff: int) {
    range.Contains(p.day) && before < p.available <= cutoff
  }

  /** Every newly mature output date is published again. */
  ghost predicate MatureRepublished(pending: seq<Pending>, range: Window, ranges: seq<Window>, before: int, cutoff: int)
  {
    forall p | p in pending && NewlyMature(p, range, before, cutoff) :: Covered(ranges, p.day)
  }

  method CheckMature(pending: seq<Pending>, range: Window, ranges: seq<Window>, before: int, cutoff: int)
    returns (ok: bool)
    ensures ok <==> MatureRepublished(pending, range, ranges, before, cutoff)
  {
    for i := 0 to |pending|
      invariant MatureRepublished(pending[..i], range, ranges, before, cutoff)
    {
      if NewlyMature(pending[i], range, before, cutoff) && !Covered(ranges, pending[i].day) { return false; }
      assert pending[..i + 1] == pending[..i] + [pending[i]];
    }
    assert pending[..|pending|] == pending;
    return true;
  }

  /** The pending dates a sparse publication does not replace. */
  function Carried(pending: seq<Pending>, range: Window, ranges: seq<Window>): (r: seq<Pending>)
    ensures forall p :: p in r <==> p in pending && range.Contains(p.day) && !Covered(ranges, p.day)
  {
    if pending == [] then [] else
      assert forall p :: p in pending <==> p == pending[0] || p in pending[1..];
      (if range.Contains(pending[0].day) && !Covered(ranges, pending[0].day) then [pending[0]] else [])
      + Carried(pending[1..], range, ranges)
  }

  /** The dates of a whole-range build's rows that its cutoff does not see yet. */
  function Unavailable(rows: seq<Pending>, range: Window, cutoff: int): (r: seq<Pending>)
    ensures forall p :: p in r <==> p in rows && range.Contains(p.day) && cutoff < p.available
  {
    if rows == [] then [] else
      assert forall p :: p in rows <==> p == rows[0] || p in rows[1..];
      (if range.Contains(rows[0].day) && cutoff < rows[0].available then [rows[0]] else [])
      + Unavailable(rows[1..], range, cutoff)
  }

  /** A later batch with recorded bounds inside one affected range. An empty batch says nothing. */
  predicate Confined(b: Batch, ranges: seq<Window>) {
    b.days == [] ||
    (b.indexed && exists w :: w in ranges && w.first <= Least(b.days) && Greatest(b.days) <= w.last)
  }

  lemma ConfinedDays(b: Batch, ranges: seq<Window>)
    requires Confined(b, ranges)
    ensures forall d | d in b.days :: Covered(ranges, d)
  {
    if b.days != [] {
      var w :| w in ranges && w.first <= Least(b.days) && Greatest(b.days) <= w.last;
      forall d | d in b.days ensures Covered(ranges, d) { assert w.Contains(d); }
    }
  }

  ghost predicate AllConfined(commit: Commit, ranges: seq<Window>) {
    forall b | b in commit :: Confined(b, ranges)
  }

  /** No later batch reaches outside the affected ranges. */
  ghost predicate LaterConfined(commits: seq<Commit>, ranges: seq<Window>) {
    forall c | c in commits :: AllConfined(c, ranges)
  }

  method CheckCommit(commit: Commit, ranges: seq<Window>) returns (ok: bool)
    ensures ok <==> AllConfined(commit, ranges)
  {
    for i := 0 to |commit|
      invariant AllConfined(commit[..i], ranges)
    {
      if !Confined(commit[i], ranges) { return false; }
      assert commit[..i + 1] == commit[..i] + [commit[i]];
    }
    assert commit[..|commit|] == commit;
    return true;
  }

  method CheckLater(commits: seq<Commit>, ranges: seq<Window>) returns (ok: bool)
    ensures ok <==> LaterConfined(commits, ranges)
  {
    for i := 0 to |commits|
      invariant LaterConfined(commits[..i], ranges)
    {
      var fine := CheckCommit(commits[i], ranges);
      if !fine { return false; }
      assert commits[..i + 1] == commits[..i] + [commits[i]];
    }
    assert commits[..|commits|] == commits;
    return true;
  }

  // ---------------------------------------------------------------- later output checks

  /** A check names the ranges it looked at; a check without ranges may concern any day. */
  type Check = seq<Window>

  predicate Named(c: Check, ranges: seq<Window>) {
    c != [] && forall s | s in c :: exists w :: w in ranges && w.first <= s.first <= s.last <= w.last
  }

  /** Every later check names only days of the affected ranges. */
  ghost predicate ChecksNamed(checks: seq<Check>, ranges: seq<Window>) {
    forall c | c in checks :: Named(c, ranges)
  }

  method CheckTiming(checks: seq<Check>, ranges: seq<Window>) returns (ok: bool)
    ensures ok <==> ChecksNamed(checks, ranges)
  {
    for i := 0 to |checks|
      invariant ChecksNamed(checks[..i], ranges)
    {
      if !Named(checks[i], ranges) { return false; }
      assert checks[..i + 1] == checks[..i] + [checks[i]];
    }
    assert checks[..|checks|] == checks;
    return true;
  }

  // ---------------------------------------------------------------- what a chain of completions certifies

  /** The stored output of an item: its commits and the checks of it. */
  datatype Store = Store(commits: seq<Commit>, checks: seq<Check>) {
    function Plus(more: Store): Store { Store(commits + more.commits, checks + more.checks) }
  }

  ghost predicate Touches(c: Commit, day: int) { exists b :: b in c && day in b.days }

  ghost predicate Untouched(commits: seq<Commit>, day: int) { forall c | c in commits :: !Touches(c, day) }

  /** No check concerns the day. */
  ghost predicate Unchecked(checks: seq<Check>, day: int) {
    forall c | c in checks :: c != [] && !Covered(c, day)
  }

  ghost predicate LinksBack(builds: seq<Build>) {
    forall k | 0 <= k < |builds| :: builds[k].origin.Continues? ==> builds[k].origin.predecessor < k
  }

  /** Build j is k itself or an earlier link of its chain. */
  ghost predicate InChain(builds: seq<Build>, j: nat, k: nat)
    requires LinksBack(builds) && k < |builds|
  {
    j == k || (builds[k].origin.Continues? && InChain(builds, j, builds[k].origin.predecessor))
  }

  /** The days a build computed itself. */
  ghost predicate Published(b: Build, day: int) {
    match b.origin
    case Whole => b.range.Contains(day)
    case Continues(_, ranges) => Covered(ranges, day)
  }

  /** What was stored up to a build. */
  ghost predicate Bounded(b: Build, store: Store) {
    b.resultCommit <= |store.commits| && (b.checkBound.Some? ==> b.checkBound.value <= |store.checks|)
  }

  /** Nothing written or checked between two builds concerns the day. */
  ghost predicate QuietSince(store: Store, a: Build, b: Build, day: int)
    requires Bounded(b, store)
  {
    && a.resultCommit <= b.resultCommit && Untouched(store.commits[a.resultCommit..b.resultCommit], day)
    && a.checkBound.Some? && b.checkBound.Some? && a.checkBound.value <= b.checkBound.value
    && Unchecked(store.checks[a.checkBound.value..b.checkBound.value], day)
  }

  /** Build j of the chain published the day under the same definition, and nothing since, up to build k, concerns that
      day. */
  ghost predicate Vouches(builds: seq<Build>, store: Store, j: nat, k: nat, day: int)
    requires LinksBack(builds) && k < |builds| && Bounded(builds[k], store)
  {
    && InChain(builds, j, k) && j < |builds| && Published(builds[j], day)
    && builds[j].definition == builds[k].definition
    && (j == k || QuietSince(store, builds[j], builds[k], day))
  }

  ghost predicate Established(builds: seq<Build>, store: Store, k: nat, day: int)
    requires LinksBack(builds) && k < |builds| && Bounded(builds[k], store)
  {
    exists j :: Vouches(builds, store, j, k, day)
  }

  /** Everything still pending lies in the range and matures strictly after the build's cutoff. */
  ghost predicate PendingLater(b: Build) {
    forall p | p in b.pending :: b.range.Contains(p.day) && (b.cutoff.Some? ==> b.cutoff.value < p.available)
  }

  ghost predicate Certified(builds: seq<Build>, store: Store, k: nat)
    requires LinksBack(builds) && k < |builds|
  {
    && Bounded(builds[k], store)
    && PendingLater(builds[k])
    && forall day | builds[k].range.Contains(day) :: Established(builds, store, k, day)
  }

  /** How a continuation relates to the completion it continues: the same definition, never an earlier cutoff, an
      authority that can be continued, each day the other did not cover published, and of its pending dates those
      published that have matured and the others kept. */
  ghost predicate Follows(p: Build, b: Build, ranges: seq<Window>) {
    && b.definition == p.definition && b.authority.Native?
    && p.cutoff.Some? && b.cutoff.Some? && p.cutoff.value <= b.cutoff.value
    && p.resultCommit <= b.resultCommit
    && (p.authority.Attested? ==> ranges == [] && p.authority.outputReceipt)
    && p.range.first <= b.range.first <= p.range.last
    && (forall w | w in ranges :: b.range.first <= w.first <= w.last <= b.range.last)
    && (forall day | b.range.Contains(day) && p.range.last < day :: Covered(ranges, day))
    && (forall x | x in p.pending && b.range.Contains(x.day) :: Covered(ranges, x.day) || x in b.pending)
    && (forall x | x in b.pending :: x in p.pending && !Covered(ranges, x.day) && b.cutoff.value < x.available)
  }

  ghost predicate AllFollow(builds: seq<Build>)
    requires LinksBack(builds)
  {
    forall k | 0 <= k < |builds| :: builds[k].origin.Continues? ==>
      Follows(builds[builds[k].origin.predecessor], builds[k], builds[k].origin.ranges)
  }

  /** The ledger's invariant: every completion ever recorded is still backed by its chain. */
  ghost predicate AllCertified(builds: seq<Build>, store: Store) {
    && LinksBack(builds) && AllFollow(builds)
    && forall k | 0 <= k < |builds| :: Certified(builds, store, k)
  }

  // ---------------------------------------------------------------- the invariant is kept

  lemma {:induction false} ChainKeeps(builds: seq<Build>, b: Build, j: nat, k: nat)
    requires LinksBack(builds) && LinksBack(builds + [b]) && k < |builds|
    ensures InChain(builds + [b], j, k) <==> InChain(builds, j, k)
    ensures InChain(builds, j, k) ==> j <= k
  {
    if j != k && builds[k].origin.Continues? {
      ChainKeeps(builds, b, j, builds[k].origin.predecessor);
    }
  }

  /** What is stored later changes nothing between earlier builds. */
  lemma GrowthKeepsQuiet(store: Store, more: Store, a: Build, b: Build, day: int)
    requires Bounded(b, store)
    ensures Bounded(b, store.Plus(more))
    ensures QuietSince(store, a, b, day) ==> QuietSince(store.Plus(more), a, b, day)
  {
    if QuietSince(store, a, b, day) {
      var all := store.Plus(more);
      assert all.commits[a.resultCommit..b.resultCommit] == store.commits[a.resultCommit..b.resultCommit];
      var from, upto := a.checkBound.value, b.checkBound.value;
      assert all.checks[from..upto] == store.checks[from..upto];
    }
  }

  /** Later output and later completions take nothing away from a recorded one. */
  lemma GrowthKeepsEstablished(builds: seq<Build>, b: Build, store: Store, more: Store, k: nat, day: int)
    requires LinksBack(builds) && LinksBack(builds + [b]) && k < |builds| && Bounded(builds[k], store)
    requires Established(builds, store, k, day)
    ensures Bounded(builds[k], store.Plus(more))
    ensures Established(builds + [b], store.Plus(more), k, day) && Established(builds, store.Plus(more), k, day)
  {
    var j: nat :| Vouches(builds, store, j, k, day);
    ChainKeeps(builds, b, j, k);
    GrowthKeepsQuiet(store, more, builds[j], builds[k], day);
    assert Vouches(builds, store.Plus(more), j, k, day);
    assert Vouches(builds + [b], store.Plus(more), j, k, day);
  }

  lemma GrowthKeepsCertified(builds: seq<Build>, b: Build, store: Store, more: Store, k: nat)
    requires LinksBack(builds) && LinksBack(builds + [b]) && k < |builds| && Certified(builds, store, k)
    ensures Certified(builds + [b], store.Plus(more), k) && Certified(builds, store.Plus(more), k)
  {
    GrowthKeepsQuiet(store, more, builds[k], builds[k], 0);
    forall day | builds[k].range.Contains(day)
      ensures Established(builds + [b], store.Plus(more), k, day) && Established(builds, store.Plus(more), k, day)
    {
      GrowthKeepsEstablished(builds, b, store, more, k, day);
    }
  }

  lemma StoreKeepsLedger(builds: seq<Build>, store: Store, more: Store)
    requires AllCertified(builds, store)
    ensures AllCertified(builds, store.Plus(more))
  {
    forall k | 0 <= k < |builds| ensures Certified(builds, store.Plus(more), k) {
      var any := Build(0, Window(0, 0), None, 0, 0, None, [], Native, Whole);
      GrowthKeepsCertified(builds, any, store, more, k);
    }
  }

  lemma BuildKeepsLedger(builds: seq<Build>, b: Build, store: Store)
    requires AllCertified(builds, store) && LinksBack(builds + [b])
    requires b.origin.Continues? ==>
      b.origin.predecessor < |builds| && Follows(builds[b.origin.predecessor], b, b.origin.ranges)
    requires Certified(builds + [b], store, |builds|)
    ensures AllCertified(builds + [b], store)
  {
    var after := builds + [b];
    forall k | 0 <= k < |after| && after[k].origin.Continues?
      ensures Follows(after[after[k].origin.predecessor], after[k], after[k].origin.ranges)
    {
      if k < |builds| { assert after[k] == builds[k]; }
    }
    var none := Store([], []);
    assert store.Plus(none) == store;
    forall k | 0 <= k < |builds| ensures Certified(builds + [b], store, k) {
      GrowthKeepsCertified(builds, b, store, none, k);
    }
  }

  lemma WholeIsCertified(builds: seq<Build>, b: Build, store: Store)
    requires LinksBack(builds) && b.origin.Whole? && Bounded(b, store) && PendingLater(b)
    ensures LinksBack(builds + [b]) && Certified(builds + [b], store, |builds|)
  {
    forall day | b.range.Contains(day) ensures Established(builds + [b], store, |builds|, day) {
      assert Vouches(builds + [b], store, |builds|, |builds|, day);
    }
  }

  // ---------------------------------------------------------------- one sparse publication

  /** What a publication asks for: sorted affected ranges inside a coverage, at a cutoff, continuing a completion. */
  datatype Request = Request(definition: nat, predecessor: nat, range: Window, cutoff: int, receipt: nat,
                             receiptCutoff: Option<int>, ranges: seq<Window>, frame: seq<int>)

  predicate SameCoverage(q: Request, previous: Build) {
    && q.definition == previous.definition && q.receiptCutoff == Some(q.cutoff)
    && previous.range.first <= q.range.first <= previous.range.last
  }

  predicate Authorised(q: Request, previous: Build) {
    previous.authority.Native? || (q.ranges == [] && previous.authority.outputReceipt)
  }

  ghost predicate FrameInside(q: Request) { forall day | day in q.frame :: Covered(q.ranges, day) }

  /** What was stored since the predecessor concerns the affected ranges alone. */
  ghost predicate LaterInside(q: Request, previous: Build, store: Store)
    requires Bounded(previous, store)
  {
    && LaterConfined(store.commits[previous.resultCommit..], q.ranges)
    && previous.checkBound.Some? && ChecksNamed(store.checks[previous.checkBound.value..], q.ranges)
  }

  /** Everything a publication is asked before it writes. */
  ghost predicate Admitted(q: Request, previous: Build, store: Store)
    requires Bounded(previous, store)
  {
    && SameCoverage(q, previous)
    && Declared(q.ranges, q.range)
    && Filled(q.ranges, Max(q.range.first, previous.range.last + 1), q.range.last)
    && previous.cutoff.Some? && previous.cutoff.value <= q.cutoff
    && MatureRepublished(previous.pending, q.range, q.ranges, previous.cutoff.value, q.cutoff)
    && FrameInside(q)
    && Authorised(q, previous)
    && LaterInside(q, previous, store)
  }

  function Continuation(q: Request, previous: Build, store: Store): Build {
    Build(q.definition, q.range, q.receiptCutoff, q.receipt, |store.commits|, Some(|store.checks|),
          Carried(previous.pending, q.range, q.ranges), Native, Continues(q.predecessor, q.ranges))
  }

  lemma CarriedMatureLater(q: Request, previous: Build, store: Store, after: Store)
    requires Bounded(previous, store) && Admitted(q, previous, store) && PendingLater(previous)
    ensures PendingLater(Continuation(q, previous, after))
  {}

  /** Output confined to some ranges does not touch a day outside them, and neither do checks that name them. */
  lemma ConfinedIsElsewhere(commits: seq<Commit>, checks: seq<Check>, ranges: seq<Window>, day: int)
    requires LaterConfined(commits, ranges) && ChecksNamed(checks, ranges) && !Covered(ranges, day)
    ensures Untouched(commits, day) && Unchecked(checks, day)
  {
    forall c | c in commits ensures !Touches(c, day) {
      assert AllConfined(c, ranges);
      forall batch | batch in c ensures day !in batch.days { ConfinedDays(batch, ranges); }
    }
    forall c | c in checks ensures c != [] && !Covered(c, day) {
      assert Named(c, ranges);
    }
  }

  /** Quiet stretches join. */
  lemma QuietJoins(store: Store, a: Build, p: Build, b: Build, day: int)
    requires Bounded(p, store) && Bounded(b, store)
    requires (a == p && p.checkBound.Some?) || QuietSince(store, a, p, day)
    requires p.resultCommit <= b.resultCommit && Untouched(store.commits[p.resultCommit..b.resultCommit], day)
    requires p.checkBound.Some? && b.checkBound.Some? && p.checkBound.value <= b.checkBound.value
    requires Unchecked(store.checks[p.checkBound.value..b.checkBound.value], day)
    ensures QuietSince(store, a, b, day)
  {
    if a != p {
      var commits, checks := store.commits, store.checks;
      assert commits[a.resultCommit..b.resultCommit]
          == commits[a.resultCommit..p.resultCommit] + commits[p.resultCommit..b.resultCommit];
      assert checks[a.checkBound.value..b.checkBound.value]
          == checks[a.checkBound.value..p.checkBound.value] + checks[p.checkBound.value..b.checkBound.value];
    }
  }

  /** Outside the affected ranges the predecessor's voucher still stands. */
  lemma VoucherExtends(builds: seq<Build>, b: Build, store: Store, day: int)
    requires LinksBack(builds) && LinksBack(builds + [b]) && Bounded(b, store)
    requires b.origin.Continues? && b.origin.predecessor < |builds| && b.checkBound.Some?
    requires builds[b.origin.predecessor].definition == b.definition
    requires b.resultCommit == |store.commits| && b.checkBound.value == |store.checks|
    requires var p := builds[b.origin.predecessor];
      && Bounded(p, store) && Established(builds, store, b.origin.predecessor, day) && p.checkBound.Some?
      && LaterConfined(store.commits[p.resultCommit..], b.origin.ranges)
      && ChecksNamed(store.checks[p.checkBound.value..], b.origin.ranges)
    requires !Covered(b.origin.ranges, day)
    ensures Established(builds + [b], store, |builds|, day)
  {
    var p := b.origin.predecessor;
    var previous := builds[p];
    var j: nat :| Vouches(builds, store, j, p, day);
    ChainKeeps(builds, b, j, p);
    ConfinedIsElsewhere(store.commits[previous.resultCommit..], store.checks[previous.checkBound.value..],
                        b.origin.ranges, day);
    assert store.commits[previous.resultCommit..b.resultCommit] == store.commits[previous.resultCommit..];
    assert store.checks[previous.checkBound.value..b.checkBound.value] == store.checks[previous.checkBound.value..];
    QuietJoins(store, builds[j], previous, b, day);
    assert Vouches(builds + [b], store, j, |builds|, day);
  }

  lemma WrittenInside(q: Request, previous: Build, store: Store, written: Store)
    requires Bounded(previous, store) && LaterInside(q, previous, store)
    requires LaterConfined(written.commits, q.ranges) && ChecksNamed(written.checks, q.ranges)
    ensures Bounded(previous, store.Plus(written)) && LaterInside(q, previous, store.Plus(written))
  {
    var all, from, bound := store.Plus(written), previous.resultCommit, previous.checkBound.value;
    assert all.commits[from..] == store.commits[from..] + written.commits;
    assert all.checks[bound..] == store.checks[bound..] + written.checks;
  }

  lemma ContinuationFollows(q: Request, previous: Build, store: Store, after: Store)
    requires Bounded(previous, store) && Admitted(q, previous, store) && PendingLater(previous)
    requires |store.commits| <= |after.commits|
    ensures Follows(previous, Continuation(q, previous, after), q.ranges)
  {
    DeclaredAt(q.ranges, q.range);
    CarriedMatureLater(q, previous, store, after);
  }

  lemma ContinuationIsCertified(builds: seq<Build>, q: Request, store: Store, written: Store)
    requires AllCertified(builds, store) && q.predecessor < |builds| && Bounded(builds[q.predecessor], store)
    requires Admitted(q, builds[q.predecessor], store)
    requires LaterConfined(written.commits, q.ranges) && ChecksNamed(written.checks, q.ranges)
    ensures var b := Continuation(q, builds[q.predecessor], store.Plus(written));
      && LinksBack(builds + [b]) && Certified(builds + [b], store.Plus(written), |builds|)
      && Follows(builds[q.predecessor], b, q.ranges)
  {
    assert Certified(builds, store, q.predecessor);
    ContinuationFollows(q, builds[q.predecessor], store, store.Plus(written));
    var previous, all := builds[q.predecessor], store.Plus(written);
    var b := Continuation(q, previous, all);
    var after := builds + [b];
    assert forall k | 0 <= k < |builds| :: after[k] == builds[k];
    StoreKeepsLedger(builds, store, written);
    assert Certified(builds, all, q.predecessor);
    CarriedMatureLater(q, previous, store, all);
    WrittenInside(q, previous, store, written);
    forall day | b.range.Contains(day) ensures Established(after, all, |builds|, day) {
      if Covered(q.ranges, day) {
        assert Vouches(after, all, |builds|, |builds|, day);
      } else {
        assert previous.range.Contains(day);
        VoucherExtends(builds, b, all, day);
      }
    }
  }

  function DaysOf(c: Commit, range: Window): (r: seq<int>)
    ensures forall d | d in r :: range.Contains(d)
  {
    if c == [] then [] else Clip(c[0].days, range) + DaysOf(c[1..], range)
  }

  function Clip(days: seq<int>, range: Window): (r: seq<int>)
    ensures forall d :: d in r <==> d in days && range.Contains(d)
  {
    if days == [] then [] else
      assert forall d :: d in days <==> d == days[0] || d in days[1..];
      (if range.Contains(days[0]) then [days[0]] else []) + Clip(days[1..], range)
  }

  function Existing(commits: seq<Commit>, range: Window): (r: seq<int>)
    ensures forall d | d in r :: range.Contains(d)
  {
    if commits == [] then [] else DaysOf(commits[0], range) + Existing(commits[1..], range)
  }

  function Changed(days: seq<int>, changed: int -> bool): (r: seq<int>)
    ensures forall d | d in r :: d in days
  {
    if days == [] then [] else (if changed(days[0]) then [days[0]] else []) + Changed(days[1..], changed)
  }

  /** A range is rewritten on exactly those of its days with a row now or before whose content changed. */
  lemma ReplacementWrites(commits: seq<Commit>, frame: seq<int>, range: Window, changed: int -> bool, day: int)
    ensures var r := Replacement(commits, frame, range, changed);
      && (WrittenSince(Store([], []), r, day) <==>
            range.Contains(day) && changed(day) && (day in frame || exists c :: c in commits && Touches(c, day)))
      && r.checks == [[range]] && |r.commits| <= 1
  {
    var days := Changed(Clip(frame, range) + Existing(commits, range), changed);
    ChangedIs(Clip(frame, range) + Existing(commits, range), changed);
    ExistingIs(commits, range, day);
    var r := Replacement(commits, frame, range, changed);
    if days != [] { assert r.commits[0] == [Batch(days, true)] && Batch(days, true) in r.commits[0]; }
  }

  lemma {:induction false} ChangedIs(days: seq<int>, changed: int -> bool)
    ensures forall d :: d in Changed(days, changed) <==> d in days && changed(d)
  {
    if days != [] {
      ChangedIs(days[1..], changed);
      assert forall d :: d in days <==> d == days[0] || d in days[1..];
    }
  }

  lemma {:induction false} DaysOfIs(c: Commit, range: Window, day: int)
    ensures day in DaysOf(c, range) <==> range.Contains(day) && Touches(c, day)
  {
    if c != [] {
      DaysOfIs(c[1..], range, day);
      assert forall b :: b in c <==> b == c[0] || b in c[1..];
    }
  }

  lemma {:induction false} ExistingIs(commits: seq<Commit>, range: Window, day: int)
    ensures day in Existing(commits, range) <==>
      range.Contains(day) && exists c :: c in commits && Touches(c, day)
  {
    if commits != [] {
      ExistingIs(commits[1..], range, day);
      DaysOfIs(commits[0], range, day);
      assert forall c :: c in commits <==> c == commits[0] || c in commits[1..];
    }
  }

  /** Replacing one range: its new rows, and tombstones for rows it no longer has, where they differ; the check of the
      replacement names the range. */
  function Replacement(commits: seq<Commit>, frame: seq<int>, range: Window, changed: int -> bool): (r: Store) {
    var days := Changed(Clip(frame, range) + Existing(commits, range), changed);
    Store(if days == [] then [] else [[Batch(days, true)]], [[range]])
  }

  lemma ReplacementConfined(commits: seq<Commit>, frame: seq<int>, range: Window, changed: int -> bool,
                            ranges: seq<Window>)
    requires range in ranges && range.first <= range.last
    ensures var r := Replacement(commits, frame, range, changed);
      LaterConfined(r.commits, ranges) && ChecksNamed(r.checks, ranges)
  {
    var days := Changed(Clip(frame, range) + Existing(commits, range), changed);
    if days != [] {
      forall d | d in days ensures range.Contains(d) {}
      assert Least(days) in days && Greatest(days) in days;
      assert Confined(Batch(days, true), ranges);
      var c: Commit := [Batch(days, true)];
      assert AllConfined(c, ranges);
    }
  }

  /** A day with a row now or before, in one of the first n ranges, whose content changed there. */
  ghost predicate Rewritten(before: Store, q: Request, changed: (nat, int) -> bool, n: nat, day: int)
    requires n <= |q.ranges|
  {
    && (day in q.frame || !Untouched(before.commits, day))
    && exists i: nat :: i < n && q.ranges[i].Contains(day) && changed(i, day)
  }

  /** Exactly such days are written, and each range is checked once, in order. */
  ghost predicate Replaced(before: Store, written: Store, q: Request, changed: (nat, int) -> bool, n: nat)
    requires n <= |q.ranges|
  {
    && (forall day :: !Untouched(written.commits, day) <==> Rewritten(before, q, changed, n, day))
    && |written.checks| == n && forall i | 0 <= i < n :: written.checks[i] == [q.ranges[i]]
  }

  lemma UntouchedJoins(a: seq<Commit>, b: seq<Commit>, day: int)
    ensures Untouched(a + b, day) <==> Untouched(a, day) && Untouched(b, day)
  {
    assert forall c :: c in a + b <==> c in a || c in b;
  }

  lemma ReplacedStep(before: Store, written: Store, q: Request, changed: (nat, int) -> bool, n: nat)
    requires n < |q.ranges| && Replaced(before, written, q, changed, n)
    ensures var more := Replacement(before.Plus(written).commits, q.frame, q.ranges[n], day => changed(n, day));
      Replaced(before, written.Plus(more), q, changed, n + 1)
  {
    var commits := before.Plus(written).commits;
    var more := Replacement(commits, q.frame, q.ranges[n], day => changed(n, day));
    forall day
      ensures !Untouched(written.Plus(more).commits, day) <==> Rewritten(before, q, changed, n + 1, day)
    {
      RangeRewrites(commits, q.frame, q.ranges[n], d => changed(n, d), day);
      UntouchedJoins(before.commits, written.commits, day);
      UntouchedJoins(written.commits, more.commits, day);
      hide Untouched, Replacement;
    }
    assert more.checks == [[q.ranges[n]]];
  }

  lemma RangeRewrites(commits: seq<Commit>, frame: seq<int>, range: Window, changed: int -> bool, day: int)
    ensures var r := Replacement(commits, frame, range, changed);
      !Untouched(r.commits, day) <==>
        range.Contains(day) && changed(day) && (day in frame || !Untouched(commits, day))
  {
    ReplacementWrites(commits, frame, range, changed, day);
    hide Touches;
    var r := Replacement(commits, frame, range, changed);
    assert forall c :: c in r.commits <==> exists i :: 0 <= i < |r.commits| && r.commits[i] == c;
  }

  /** What others do between the replacement and the closing fence. */
  datatype Meanwhile = Meanwhile(output: Store, inputsCurrent: bool, definitionKept: bool)

  datatype Outcome = Unchanged(build: nat) | Recorded(build: nat)

  class Ledger {
    var builds: seq<Build>
    var store: Store

    ghost predicate Valid()
      reads this
    {
      AllCertified(builds, store)
    }

    constructor ()
      ensures Valid() && builds == [] && store == Store([], [])
    {
      builds, store := [], Store([], []);
    }

    /** Anyone may commit or check output; recorded completions keep their meaning. */
    method Ingest(more: Store)
      requires Valid()
      modifies `store
      ensures Valid() && store == old(store).Plus(more)
    {
      StoreKeepsLedger(builds, store, more);
      store := store.Plus(more);
    }

    /** A build that computed its whole range; rows not yet visible at its cutoff are left pending. It has a result
        commit only if it published, be it rows stored already. A completion of an older release may lack its check
        boundary. */
    method BuildWhole(definition: nat, range: Window, cutoff: int, receipt: nat, rows: seq<Pending>, written: Store,
                      confirmed: bool, authority: Authority, bounded: bool)
      requires Valid()
      modifies this
      ensures Valid() && store == old(store).Plus(written)
      ensures builds == old(builds) +
                [Build(definition, range, Some(cutoff), receipt,
                       if written.commits == [] && !confirmed then 0 else |store.commits|,
                       if bounded then Some(|store.checks|) else None,
                       Unavailable(rows, range, cutoff), authority, Whole)]
    {
      Ingest(written);
      var b := Build(definition, range, Some(cutoff), receipt,
                     if written.commits == [] && !confirmed then 0 else |store.commits|,
                     if bounded then Some(|store.checks|) else None,
                     Unavailable(rows, range, cutoff), authority, Whole);
      WholeIsCertified(builds, b, store);
      BuildKeepsLedger(builds, b, store);
      builds := builds + [b];
    }

    /** Replaces the affected ranges one by one. */
    method Replace(q: Request, changed: (nat, int) -> bool) returns (ghost written: Store)
      requires Valid() && forall w | w in q.ranges :: w.first <= w.last
      modifies `store
      ensures Valid() && store == old(store).Plus(written)
      ensures LaterConfined(written.commits, q.ranges) && ChecksNamed(written.checks, q.ranges)
      ensures Replaced(old(store), written, q, changed, |q.ranges|)
      ensures q.ranges == [] ==> written == Store([], [])
    {
      written := Store([], []);
      for i := 0 to |q.ranges|
        invariant Valid() && store == old(store).Plus(written)
        invariant LaterConfined(written.commits, q.ranges) && ChecksNamed(written.checks, q.ranges)
        invariant Replaced(old(store), written, q, changed, i)
        invariant i == 0 ==> written == Store([], [])
      {
        var more := Replacement(store.commits, q.frame, q.ranges[i], day => changed(i, day));
        ReplacementConfined(store.commits, q.frame, q.ranges[i], day => changed(i, day), q.ranges);
        PlusJoins(old(store), written, more);
        ReplacedStep(old(store), written, q, changed, i);
        Ingest(more);
        written := written.Plus(more);
      }
    }

    /** The newest completion that already certifies the same empty continuation. */
    method Candidate(q: Request, resultCommit: nat) returns (id: Option<nat>)
      ensures id.Some? ==> id.value < |builds| && Repeats(builds[id.value], q, resultCommit)
      ensures id.Some? ==> forall k | id.value < k < |builds| :: !Repeats(builds[k], q, resultCommit)
      ensures id.None? ==> forall b | b in builds :: !Repeats(b, q, resultCommit)
    {
      var i := |builds|;
      while i > 0
        invariant 0 <= i <= |builds| && forall k | i <= k < |builds| :: !Repeats(builds[k], q, resultCommit)
      {
        i := i - 1;
        if Repeats(builds[i], q, resultCommit) { return Some(i); }
      }
      return None;
    }

    /** Every check made before anything is written, in the source's order. */
    method Admit(q: Request) returns (refusal: Option<Refusal>)
      requires Valid() && q.predecessor < |builds|
      ensures Bounded(builds[q.predecessor], store)
      ensures refusal.None? <==> Admitted(q, builds[q.predecessor], store)
      ensures refusal.Some? ==> FirstFailure(refusal.value, q, builds[q.predecessor], store)
    {
      assert Certified(builds, store, q.predecessor);
      var previous := builds[q.predecessor];
      if !SameCoverage(q, previous) { return Some(ChangedCoverage); }
      assert !Fails(ChangedCoverage, q, previous, store);
      var ok := CheckRanges(q.ranges, q.range);
      if !ok { return Some(InvalidRanges); }
      assert !Fails(InvalidRanges, q, previous, store);
      ok := CheckHole(q.ranges, q.range, Max(q.range.first, previous.range.last + 1));
      if !ok { return Some(Hole); }
      assert !Fails(Hole, q, previous, store);
      if previous.cutoff.None? || q.cutoff < previous.cutoff.value { return Some(RegressedCutoff); }
      assert !Fails(RegressedCutoff, q, previous, store);
      ok := CheckMature(previous.pending, q.range, q.ranges, previous.cutoff.value, q.cutoff);
      if !ok { return Some(OmittedMature); }
      assert !Fails(OmittedMature, q, previous, store);
      if exists day :: day in q.frame && !Covered(q.ranges, day) { return Some(OutsideRanges); }
      assert !Fails(OutsideRanges, q, previous, store);
      if !Authorised(q, previous) { return Some(NotNative); }
      assert !Fails(NotNative, q, previous, store);
      if previous.checkBound.None? { return Some(UnboundedChecks); }
      assert !Fails(UnboundedChecks, q, previous, store);
      ok := CheckLater(store.commits[previous.resultCommit..], q.ranges);
      if !ok { return Some(LaterOutput); }
      assert !Fails(LaterOutput, q, previous, store);
      ok := CheckTiming(store.checks[previous.checkBound.value..], q.ranges);
      if !ok { return Some(LaterTiming); }
      return None;
    }

    /** The closing fence, after what others did meanwhile. */
    method Fence(q: Request, meanwhile: Meanwhile) returns (refusal: Option<Refusal>)
      requires Valid() && q.predecessor < |builds|
      modifies `store
      ensures Valid() && store == old(store).Plus(meanwhile.output)
      ensures refusal.None? <==>
                && meanwhile == Meanwhile(Store([], []), true, true)
                && (q.ranges == [] ==> builds[q.predecessor].resultCommit == |old(store).commits|)
      ensures refusal.Some? ==> refusal.value == if meanwhile.inputsCurrent then OutputChanged else InputsChanged
    {
      var resultCommit := if q.ranges == [] then builds[q.predecessor].resultCommit else |store.commits|;
      var checkBound := |store.checks|;
      assert Certified(builds, store, q.predecessor);
      Ingest(meanwhile.output);
      if !meanwhile.inputsCurrent { return Some(InputsChanged); }
      if |store.commits| != resultCommit || |store.checks| != checkBound || !meanwhile.definitionKept {
        return Some(OutputChanged);
      }
      return None;
    }

    /** A sparse publication. It succeeds exactly when it is admitted and nothing intervenes before its closing fence,
        and the completion it records keeps the ledger's invariant: each day of its range was published by a build of
        its chain and neither written nor checked since, and what it leaves pending matures after its cutoff. */
    method PublishSparse(request: Request, changed: (nat, int) -> bool, meanwhile: Meanwhile)
      returns (r: Result<Outcome, Refusal>)
      requires Valid()
      modifies this
      ensures Valid()
      ensures r.Success? <==> MayPublish(request, old(builds), old(store), meanwhile)
      ensures r.Failure? ==> builds == old(builds)
      ensures r.Failure? ==> FirstObjection(r.error, request, old(builds), old(store), meanwhile)
      ensures r.Success? && r.value.Unchanged? ==>
                builds == old(builds) && store == old(store) && r.value.build < |builds|
      ensures r.Success? && r.value.Unchanged? ==> request.ranges == [] && Again(builds[r.value.build], request, store)
      ensures r.Success? && r.value.Recorded? ==> r.value.build == |old(builds)| && |builds| == |old(builds)| + 1
      ensures r.Success? && r.value.Recorded? ==>
                && builds[..|old(builds)|] == old(builds)
                && Records(builds[r.value.build], request, old(builds)[request.predecessor], store)
                && (request.ranges == [] ==> forall b | b in old(builds) :: !Again(b, request, store))
      ensures r.Success? && r.value.Recorded? ==>
                Written(old(store), store, request.(ranges := builds[r.value.build].origin.ranges), changed)
    {
      AcceptedExactly(request, builds, store, meanwhile);
      if request.predecessor >= |builds| { return Failure(UnknownPredecessor); }
      var q := InOrder(request);
      InOrderKeeps(request);
      hide InOrder, AllCertified, Written, Replaced, Objection, MayPublish, Again, Records, Admitted;
      hide Continuation, LaterConfined, ChecksNamed;
      ghost var before := store;
      var refusal := Admit(q);
      if refusal.Some? {
        FirstIsFirst(refusal.value, request, builds, store, meanwhile);
        return Failure(refusal.value);
      }
      AdmittedRanges(q, builds[q.predecessor], store);
      var written := Replace(q, changed);
      refusal := Fence(q, meanwhile);
      if refusal.Some? {
        FenceIsLast(request, builds, before, meanwhile);
        return Failure(refusal.value);
      }
      PlusNothing(before.Plus(written));
      if q.ranges == [] {
        PlusNothing(before);
        RepeatsIs(request, q, store);
        var candidate := Candidate(q, |store.commits|);
        if candidate.Some? { return Success(Unchanged(candidate.value)); }
      }
      PublishedRight(request, builds, before, written, changed);
      builds := builds + [Continuation(q, builds[q.predecessor], store)];
      return Success(Recorded(|builds| - 1));
    }
  }

  lemma InOrderKeeps(q: Request)
    ensures InOrder(q).ranges == [] <==> q.ranges == []
    ensures InOrder(q).predecessor == q.predecessor
  {
    SortPermutes(q.ranges, Precedes);
    assert |multiset(q.ranges)| == |q.ranges|;
  }

  lemma AdmittedRanges(q: Request, p: Build, store: Store)
    requires Bounded(p, store) && Admitted(q, p, store)
    ensures forall w | w in q.ranges :: w.first <= w.last
  {
    DeclaredAt(q.ranges, q.range);
  }

  lemma PlusNothing(store: Store)
    ensures store.Plus(Store([], [])) == store
  {}

  lemma RepeatsIs(request: Request, q: Request, store: Store)
    requires q == InOrder(request) && request.ranges == []
    ensures forall b :: Repeats(b, q, |store.commits|) <==> Again(b, request, store)
  {}

  /** What is recorded of an admitted request keeps the ledger, and the record and what was written are as asked. */
  lemma PublishedRight(request: Request, builds: seq<Build>, before: Store, written: Store,
                       changed: (nat, int) -> bool)
    requires AllCertified(builds, before) && request.predecessor < |builds|
    requires Bounded(builds[request.predecessor], before)
    requires var q := InOrder(request);
      && q.predecessor == request.predecessor && Admitted(q, builds[q.predecessor], before)
      && LaterConfined(written.commits, q.ranges) && ChecksNamed(written.checks, q.ranges)
      && Replaced(before, written, q, changed, |q.ranges|)
    ensures var after := before.Plus(written);
      var b := Continuation(InOrder(request), builds[request.predecessor], after);
      && AllCertified(builds + [b], after) && Records(b, request, builds[request.predecessor], after)
      && b.origin.Continues? && Written(before, after, request.(ranges := b.origin.ranges), changed)
  {
    var q, p, after := InOrder(request), builds[request.predecessor], before.Plus(written);
    var b := Continuation(q, p, after);
    ContinuationRecords(request, p, after);
    ContinuationIsCertified(builds, q, before, written);
    StoreKeepsLedger(builds, before, written);
    BuildKeepsLedger(builds, b, after);
    WrittenIs(before, written, q, changed);
    assert q == request.(ranges := q.ranges);
    hide Records, Written, AllCertified, Certified;
  }

  /** Nothing stored is lost; of the ranges, one after another, exactly the changed days with a row now or before are
      written again, and each range is checked once. */
  ghost predicate Written(before: Store, after: Store, q: Request, changed: (nat, int) -> bool) {
    && before.commits <= after.commits && before.checks <= after.checks
    && (forall i, j | 0 <= i < j < |q.ranges| :: q.ranges[i].last < q.ranges[j].first)
    && Replaced(before, Store(after.commits[|before.commits|..], after.checks[|before.checks|..]), q, changed,
                |q.ranges|)
  }

  /** What is recorded of an accepted request: its own coverage, cutoff and receipt, the store as it stands, and the
      pending dates it did not publish. */
  ghost predicate Records(b: Build, q: Request, p: Build, store: Store) {
    && b.definition == q.definition && b.range == q.range && b.cutoff == Some(q.cutoff) && b.receipt == q.receipt
    && b.resultCommit == |store.commits| && b.checkBound == Some(|store.checks|) && b.authority == Native
    && b.origin.Continues? && b.origin.predecessor == q.predecessor
    && multiset(b.origin.ranges) == multiset(q.ranges)
    && forall x :: x in b.pending <==> x in p.pending && q.range.Contains(x.day) && !Covered(q.ranges, x.day)
  }

  lemma ContinuationRecords(q: Request, p: Build, store: Store)
    requires q.receiptCutoff == Some(q.cutoff)
    ensures Records(Continuation(InOrder(q), p, store), q, p, store)
  {
    SortPermutes(q.ranges, Precedes);
    SortKeepsElements(q.ranges, Precedes);
    SameRanges(q.ranges, InOrder(q).ranges);
  }

  /** The same empty continuation of the same completion from the same receipt, made when as much was stored. */
  ghost predicate Again(b: Build, q: Request, store: Store) {
    && b.origin.Continues? && b.origin.predecessor == q.predecessor && b.origin.ranges == []
    && b.authority == Native && b.receipt == q.receipt && b.resultCommit == |store.commits|
    && b.range == q.range && b.definition == q.definition
  }

  /** A commit made since concerns the day. */
  ghost predicate WrittenSince(before: Store, after: Store, day: int) {
    exists c :: |before.commits| <= c < |after.commits| && Touches(after.commits[c], day)
  }

  lemma PlusJoins(a: Store, b: Store, c: Store)
    ensures a.Plus(b).Plus(c) == a.Plus(b.Plus(c))
  {
    assert a.commits + b.commits + c.commits == a.commits + (b.commits + c.commits);
    assert a.checks + b.checks + c.checks == a.checks + (b.checks + c.checks);
  }

  function InOrder(q: Request): Request { q.(ranges := Sort(q.ranges, Precedes)) }

  // ---------------------------------------------------------------- what is accepted

  /** The requests that end in a certificate, in terms of days. */
  ghost predicate MayPublish(q: Request, builds: seq<Build>, store: Store, meanwhile: Meanwhile) {
    && q.predecessor < |builds| && Bounded(builds[q.predecessor], store)
    && MayContinue(q, builds[q.predecessor])
    && Separate(q.ranges, q.range)
    && PublishesDue(q, builds[q.predecessor])
    && OthersInside(q, builds[q.predecessor], store)
    && meanwhile == Meanwhile(Store([], []), true, true)
    && (q.ranges == [] ==> builds[q.predecessor].resultCommit == |store.commits|)
  }

  /** The completion is of the same definition, meets the requested range, and was not made at a later cutoff; one not
      computed natively may only be continued without change, and with a receipt of its output. */
  ghost predicate MayContinue(q: Request, p: Build) {
    && q.definition == p.definition && q.receiptCutoff == Some(q.cutoff) && p.range.Contains(q.range.first)
    && p.cutoff.Some? && !(q.cutoff < p.cutoff.value)
    && (p.authority.Attested? ==> p.authority.outputReceipt && q.ranges == [])
  }

  /** Nonempty ranges inside the coverage, no two of which share a day. */
  ghost predicate Separate(ranges: seq<Window>, range: Window) {
    && (forall w | w in ranges :: w.first <= w.last && range.Contains(w.first) && range.Contains(w.last))
    && forall i, j, day | 0 <= i < j < |ranges| && ranges[i].Contains(day) :: !ranges[j].Contains(day)
  }

  /** The ranges hold every row of the frame, every day the completion did not cover and every date that has matured
      since. */
  ghost predicate PublishesDue(q: Request, p: Build) {
    && (forall day | day in q.frame :: Covered(q.ranges, day))
    && (forall day | q.range.Contains(day) && !(day <= p.range.last) :: Covered(q.ranges, day))
    && (forall x | x in p.pending && q.range.Contains(x.day) && x.available <= q.cutoff :: Covered(q.ranges, x.day))
  }

  /** Each batch written and each range checked since the completion lies in one of the ranges, on record. */
  ghost predicate OthersInside(q: Request, p: Build, store: Store)
    requires Bounded(p, store)
  {
    && (forall c, b | p.resultCommit <= c < |store.commits| && b in store.commits[c] && b.days != [] ::
          b.indexed && WithinOne(b.days, q.ranges))
    && p.checkBound.Some?
    && (forall c | p.checkBound.value <= c < |store.checks| :: !Strays(store.checks[c], q.ranges))
  }

  /** All the days lie in one of the ranges. */
  ghost predicate WithinOne(days: seq<int>, ranges: seq<Window>) {
    exists w :: w in ranges && forall d | d in days :: w.Contains(d)
  }

  lemma TwiceCounted(ranges: seq<Window>, i: nat, j: nat)
    requires i < j < |ranges| && ranges[i] == ranges[j]
    ensures multiset(ranges)[ranges[i]] >= 2
  {
    assert ranges == ranges[..j] + ranges[j..] && ranges[i] in ranges[..j] && ranges[j] in ranges[j..];
  }

  lemma OnceCounted(ranges: seq<Window>, i: nat)
    requires i < |ranges| && forall k | 0 <= k < |ranges| && k != i :: ranges[k] != ranges[i]
    ensures multiset(ranges)[ranges[i]] == 1
  {
    assert ranges == ranges[..i] + [ranges[i]] + ranges[i + 1..];
    assert ranges[i] !in ranges[..i] && ranges[i] !in ranges[i + 1..];
  }

  lemma {:induction false} DeclaredOnce(ranges: seq<Window>, range: Window, w: Window)
    requires Declared(ranges, range)
    ensures multiset(ranges)[w] <= 1
  {
    if ranges != [] {
      var init, top := ranges[..|ranges| - 1], ranges[|ranges| - 1];
      assert ranges == init + [top];
      DeclaredAt(ranges, range);
      DeclaredOnce(init, range, w);
      assert forall i | 0 <= i < |init| :: init[i] == ranges[i] && ranges[i].last < ranges[|init|].first;
      assert top.first <= top.last && top !in init;
    }
  }

  lemma {:induction false} SeparateDeclared(ranges: seq<Window>, range: Window)
    requires SortedBy(ranges, Precedes) && Separate(ranges, range)
    ensures Declared(ranges, range)
  {
    if ranges != [] {
      var n := |ranges| - 1;
      assert forall i | 0 <= i < n :: ranges[..n][i] == ranges[i];
      SeparateDeclared(ranges[..n], range);
      assert ranges[n] in ranges;
      if n > 0 {
        assert ranges[n - 1] in ranges && Precedes(ranges[n - 1], ranges[n]);
        assert ranges[n - 1].Contains(ranges[n - 1].last) && !ranges[n].Contains(ranges[n - 1].last);
        assert ranges[n].Contains(ranges[n].first) && !ranges[n - 1].Contains(ranges[n].first);
      }
    }
  }

  /** Sorted by their first days, the ranges pass the check exactly when they are separate. */
  lemma SeparateExactly(ranges: seq<Window>, range: Window)
    ensures Separate(ranges, range) <==> Declared(Sort(ranges, Precedes), range)
  {
    var sorted := Sort(ranges, Precedes);
    PrecedesIsTotal();
    SortSorts(ranges, Precedes);
    SortPermutes(ranges, Precedes);
    SortKeepsElements(ranges, Precedes);
    hide *;
    if Separate(ranges, range) { SeparateSorted(ranges, sorted, range); }
    if Declared(sorted, range) { DeclaredSeparate(ranges, sorted, range); }
  }

  lemma SeparateSorted(ranges: seq<Window>, sorted: seq<Window>, range: Window)
    requires multiset(sorted) == multiset(ranges) && SortedBy(sorted, Precedes) && Separate(ranges, range)
    requires forall w :: w in sorted <==> w in ranges
    ensures Declared(sorted, range)
  {
    forall i, j, day | 0 <= i < j < |sorted| && sorted[i].Contains(day) ensures !sorted[j].Contains(day) {
      SharedDay(ranges, sorted, i, j, day);
    }
    hide Declared;
    SeparateDeclared(sorted, range);
  }

  lemma DeclaredSeparate(ranges: seq<Window>, sorted: seq<Window>, range: Window)
    requires multiset(sorted) == multiset(ranges) && Declared(sorted, range)
    requires forall w :: w in sorted <==> w in ranges
    ensures Separate(ranges, range)
  {
    DeclaredAt(sorted, range);
    hide Declared;
    forall i, j, day | 0 <= i < j < |ranges| && ranges[i].Contains(day) ensures !ranges[j].Contains(day) {
      DeclaredShare(ranges, sorted, range, i, j, day);
    }
  }

  lemma Alone(ranges: seq<Window>, i: nat, day: int)
    requires i < |ranges| && ranges[i].Contains(day)
    requires forall a, b | 0 <= a < b < |ranges| && ranges[a].Contains(day) :: !ranges[b].Contains(day)
    ensures forall k | 0 <= k < |ranges| && k != i :: ranges[k] != ranges[i]
  {}

  lemma SharedDay(ranges: seq<Window>, sorted: seq<Window>, i: nat, j: nat, day: int)
    requires multiset(sorted) == multiset(ranges) && i < j < |sorted| && sorted[i].Contains(day)
    requires forall a, b | 0 <= a < b < |ranges| && ranges[a].Contains(day) :: !ranges[b].Contains(day)
    ensures !sorted[j].Contains(day)
  {
    if sorted[j].Contains(day) {
      assert sorted[i] in multiset(ranges) && sorted[j] in multiset(ranges);
      var a :| 0 <= a < |ranges| && ranges[a] == sorted[i];
      var b :| 0 <= b < |ranges| && ranges[b] == sorted[j];
      if a == b {
        Alone(ranges, a, day);
        OnceCounted(ranges, a);
        TwiceCounted(sorted, i, j);
      }
    }
  }

  lemma DeclaredShare(ranges: seq<Window>, sorted: seq<Window>, range: Window, i: nat, j: nat, day: int)
    requires multiset(sorted) == multiset(ranges) && Declared(sorted, range) && i < j < |ranges|
    requires ranges[i].Contains(day)
    ensures !ranges[j].Contains(day)
  {
    DeclaredAt(sorted, range);
    assert ranges[i] in multiset(sorted) && ranges[j] in multiset(sorted);
    var a :| 0 <= a < |sorted| && sorted[a] == ranges[i];
    var b :| 0 <= b < |sorted| && sorted[b] == ranges[j];
    if a == b {
      TwiceCounted(ranges, i, j);
      DeclaredOnce(sorted, range, ranges[i]);
    }
  }

  lemma LaterCommitsIs(commits: seq<Commit>, from: nat, ranges: seq<Window>)
    requires from <= |commits|
    ensures LaterConfined(commits[from..], ranges) <==>
      forall c, b | from <= c < |commits| && b in commits[c] && b.days != [] :: b.indexed && WithinOne(b.days, ranges)
  {
    var later := commits[from..];
    if forall c, b | from <= c < |commits| && b in commits[c] && b.days != [] ::
        b.indexed && WithinOne(b.days, ranges)
    {
      forall commit, b | commit in later && b in commit ensures Confined(b, ranges) {
        var c :| from <= c < |commits| && commits[c] == commit;
        if b.days != [] { assert Least(b.days) in b.days && Greatest(b.days) in b.days; }
      }
    }
    if LaterConfined(later, ranges) {
      forall c, b | from <= c < |commits| && b in commits[c] && b.days != []
        ensures b.indexed && WithinOne(b.days, ranges)
      {
        assert commits[c] == later[c - from] && AllConfined(commits[c], ranges) && Confined(b, ranges);
      }
    }
  }

  lemma NamedIs(check: Check, ranges: seq<Window>)
    ensures Named(check, ranges) <==> !Strays(check, ranges)
  {
    if !Strays(check, ranges) {
      forall s | s in check ensures exists w :: w in ranges && w.first <= s.first <= s.last <= w.last {
        assert s.first in [s.first, s.last] && s.last in [s.first, s.last];
        var w :| w in ranges && forall d | d in [s.first, s.last] :: w.Contains(d);
      }
    }
  }

  lemma LaterChecksIs(checks: seq<Check>, from: nat, ranges: seq<Window>)
    requires from <= |checks|
    ensures ChecksNamed(checks[from..], ranges) <==> forall c | from <= c < |checks| :: !Strays(checks[c], ranges)
  {
    forall check | check in checks ensures Named(check, ranges) <==> !Strays(check, ranges) { NamedIs(check, ranges); }
    hide Named, Strays;
    if ChecksNamed(checks[from..], ranges) {
      forall c | from <= c < |checks| ensures !Strays(checks[c], ranges) {
        assert checks[c] == checks[from..][c - from];
      }
    }
  }

  lemma OthersInsideIs(q: Request, p: Build, store: Store)
    requires Bounded(p, store)
    ensures OthersInside(q, p, store) <==> LaterInside(q, p, store)
  {
    LaterCommitsIs(store.commits, p.resultCommit, q.ranges);
    if p.checkBound.Some? { LaterChecksIs(store.checks, p.checkBound.value, q.ranges); }
    hide LaterConfined, ChecksNamed, WithinOne, Strays;
  }

  lemma SameRanges(a: seq<Window>, b: seq<Window>)
    requires forall w :: w in a <==> w in b
    ensures forall day :: Covered(a, day) <==> Covered(b, day)
    ensures forall days :: WithinOne(days, a) <==> WithinOne(days, b)
  {}

  /** What is asked of the sorted request, check by check, amounts to this. */
  lemma AcceptedExactly(q: Request, builds: seq<Build>, store: Store, meanwhile: Meanwhile)
    requires AllCertified(builds, store)
    ensures Accepted(InOrder(q), builds, store, meanwhile) <==> MayPublish(q, builds, store, meanwhile)
  {
    if q.predecessor < |builds| {
      var o, p := InOrder(q), builds[q.predecessor];
      assert Certified(builds, store, q.predecessor);
      OrderKeeps(q, p, store);
      hide AllCertified, Certified, Separate, Declared, OthersInside, LaterInside, PublishesDue, FrameInside, Filled;
      hide MatureRepublished, InOrder;
      OthersInsideIs(o, p, store);
      if p.cutoff.Some? { DueIs(o, p); }
    }
  }

  lemma OrderKeeps(q: Request, p: Build, store: Store)
    requires Bounded(p, store)
    ensures var o := InOrder(q);
      && o == q.(ranges := o.ranges) && (o.ranges == [] <==> q.ranges == [])
      && (Separate(q.ranges, q.range) <==> Declared(o.ranges, q.range))
      && (OthersInside(q, p, store) <==> OthersInside(o, p, store))
      && (PublishesDue(q, p) <==> PublishesDue(o, p))
  {
    var o := InOrder(q);
    SeparateExactly(q.ranges, q.range);
    SortPermutes(q.ranges, Precedes);
    SortKeepsElements(q.ranges, Precedes);
    hide Sort, Separate, Declared;
    SameRanges(q.ranges, o.ranges);
    hide Covered, WithinOne;
  }

  lemma DueIs(q: Request, p: Build)
    requires PendingLater(p) && p.cutoff.Some?
    ensures PublishesDue(q, p) <==>
      && FrameInside(q) && Filled(q.ranges, Max(q.range.first, p.range.last + 1), q.range.last)
      && MatureRepublished(p.pending, q.range, q.ranges, p.cutoff.value, q.cutoff)
  {}

  // ---------------------------------------------------------------- why a request is refused

  /** The order in which refusals are found. */
  function Place(r: Refusal): nat {
    match r
    case UnknownPredecessor => 0
    case ChangedCoverage => 1
    case InvalidRanges => 2
    case Hole => 3
    case RegressedCutoff => 4
    case OmittedMature => 5
    case OutsideRanges => 6
    case NotNative => 7
    case UnboundedChecks => 8
    case LaterOutput => 9
    case LaterTiming => 10
    case InputsChanged => 11
    case OutputChanged => 12
  }

  /** What speaks against a request, in terms of days. */
  ghost predicate Objection(r: Refusal, q: Request, builds: seq<Build>, store: Store, meanwhile: Meanwhile) {
    if q.predecessor >= |builds| || !Bounded(builds[q.predecessor], store) then r == UnknownPredecessor else
      var p := builds[q.predecessor];
      match r
      case UnknownPredecessor => false
      case ChangedCoverage =>
        q.definition != p.definition || q.receiptCutoff != Some(q.cutoff) || !p.range.Contains(q.range.first)
      case InvalidRanges => !Separate(q.ranges, q.range)
      case Hole => exists day :: q.range.Contains(day) && p.range.last < day && !Covered(q.ranges, day)
      case RegressedCutoff => p.cutoff == None || q.cutoff < p.cutoff.value
      case OmittedMature =>
        p.cutoff.Some? && exists x ::
          x in p.pending && q.range.Contains(x.day) && x.available <= q.cutoff && !Covered(q.ranges, x.day)
      case OutsideRanges => exists day :: day in q.frame && !Covered(q.ranges, day)
      case NotNative => p.authority.Attested? && !(p.authority.outputReceipt && q.ranges == [])
      case UnboundedChecks => p.checkBound == None
      case LaterOutput =>
        exists c, b :: p.resultCommit <= c < |store.commits| && b in store.commits[c] && b.days != []
          && !(b.indexed && WithinOne(b.days, q.ranges))
      case LaterTiming =>
        exists c :: p.checkBound.Some? && p.checkBound.value <= c < |store.checks| && Strays(store.checks[c], q.ranges)
      case InputsChanged => !meanwhile.inputsCurrent
      case OutputChanged =>
        || meanwhile.output != Store([], []) || !meanwhile.definitionKept
        || (q.ranges == [] && p.resultCommit != |store.commits|)
  }

  /** A check that names no range, or one that is empty or lies in none of the ranges. */
  ghost predicate Strays(check: Check, ranges: seq<Window>) {
    check == [] || exists s :: s in check && (s.last < s.first || !WithinOne([s.first, s.last], ranges))
  }

  ghost predicate FirstObjection(r: Refusal, q: Request, builds: seq<Build>, store: Store, meanwhile: Meanwhile) {
    && Objection(r, q, builds, store, meanwhile)
    && forall s: Refusal | Place(s) < Place(r) :: !Objection(s, q, builds, store, meanwhile)
  }

  /** The checks of a sorted request. */
  ghost predicate Fails(r: Refusal, q: Request, p: Build, store: Store)
    requires Bounded(p, store)
  {
    match r
    case ChangedCoverage => !SameCoverage(q, p)
    case InvalidRanges => !Declared(q.ranges, q.range)
    case Hole => !Filled(q.ranges, Max(q.range.first, p.range.last + 1), q.range.last)
    case RegressedCutoff => p.cutoff.None? || q.cutoff < p.cutoff.value
    case OmittedMature =>
      p.cutoff.Some? && !MatureRepublished(p.pending, q.range, q.ranges, p.cutoff.value, q.cutoff)
    case OutsideRanges => !FrameInside(q)
    case NotNative => !Authorised(q, p)
    case UnboundedChecks => p.checkBound.None?
    case LaterOutput => !LaterConfined(store.commits[p.resultCommit..], q.ranges)
    case LaterTiming => p.checkBound.Some? && !ChecksNamed(store.checks[p.checkBound.value..], q.ranges)
    case _ => false
  }

  ghost predicate FirstFailure(r: Refusal, q: Request, p: Build, store: Store)
    requires Bounded(p, store)
  {
    Fails(r, q, p, store) && forall s: Refusal | Place(s) < Place(r) :: !Fails(s, q, p, store)
  }

  lemma RangesFailIs(q: Request, p: Build)
    ensures var o := InOrder(q);
      && (Declared(o.ranges, o.range) <==> Separate(q.ranges, q.range))
      && (o.ranges == [] <==> q.ranges == []) && o == q.(ranges := o.ranges)
      && (forall day :: Covered(o.ranges, day) <==> Covered(q.ranges, day))
      && (forall days :: WithinOne(days, o.ranges) <==> WithinOne(days, q.ranges))
  {
    SortPermutes(q.ranges, Precedes);
    SortKeepsElements(q.ranges, Precedes);
    SeparateExactly(q.ranges, q.range);
    hide Sort, Separate, Declared;
    SameRanges(q.ranges, InOrder(q).ranges);
    hide Covered, WithinOne;
  }

  lemma LaterFailIs(q: Request, builds: seq<Build>, store: Store, meanwhile: Meanwhile)
    requires q.predecessor < |builds| && Bounded(builds[q.predecessor], store)
    ensures Fails(LaterOutput, InOrder(q), builds[q.predecessor], store) <==>
      Objection(LaterOutput, q, builds, store, meanwhile)
    ensures Fails(LaterTiming, InOrder(q), builds[q.predecessor], store) <==>
      Objection(LaterTiming, q, builds, store, meanwhile)
  {
    var o, p := InOrder(q), builds[q.predecessor];
    RangesFailIs(q, p);
    LaterCommitsIs(store.commits, p.resultCommit, o.ranges);
    if p.checkBound.Some? { LaterChecksIs(store.checks, p.checkBound.value, o.ranges); }
    hide LaterConfined, ChecksNamed, WithinOne, InOrder;
  }

  lemma CoverageFailIs(r: Refusal, q: Request, builds: seq<Build>, store: Store, meanwhile: Meanwhile)
    requires AllCertified(builds, store) && q.predecessor < |builds| && Bounded(builds[q.predecessor], store)
    requires r in {UnknownPredecessor, ChangedCoverage, InvalidRanges, Hole, RegressedCutoff, OmittedMature,
                   OutsideRanges, NotNative, UnboundedChecks}
    ensures Fails(r, InOrder(q), builds[q.predecessor], store) <==> Objection(r, q, builds, store, meanwhile)
  {
    assert Certified(builds, store, q.predecessor);
    RangesFailIs(q, builds[q.predecessor]);
    hide AllCertified, Certified, Covered, Separate, Declared, InOrder, WithinOne, LaterConfined, ChecksNamed;
  }

  /** After all checks passed only the closing fence can refuse. */
  lemma FenceIsLast(q: Request, builds: seq<Build>, store: Store, meanwhile: Meanwhile)
    requires AllCertified(builds, store) && q.predecessor < |builds| && Bounded(builds[q.predecessor], store)
    requires Admitted(InOrder(q), builds[q.predecessor], store)
    requires !(meanwhile == Meanwhile(Store([], []), true, true)
               && (q.ranges == [] ==> builds[q.predecessor].resultCommit == |store.commits|))
    ensures FirstObjection(if meanwhile.inputsCurrent then OutputChanged else InputsChanged, q, builds, store,
                           meanwhile)
  {
    var o, p := InOrder(q), builds[q.predecessor];
    forall s: Refusal | Place(s) <= 10 ensures !Fails(s, o, p, store) {}
    forall s: Refusal | Place(s) <= 10 ensures !Objection(s, q, builds, store, meanwhile) {
      if s.LaterOutput? || s.LaterTiming? {
        LaterFailIs(q, builds, store, meanwhile);
      } else {
        CoverageFailIs(s, q, builds, store, meanwhile);
      }
      hide Fails, Objection;
    }
  }

  lemma WrittenIs(before: Store, written: Store, q: Request, changed: (nat, int) -> bool)
    requires Declared(q.ranges, q.range) && Replaced(before, written, q, changed, |q.ranges|)
    ensures Written(before, before.Plus(written), q, changed)
  {
    DeclaredAt(q.ranges, q.range);
    var after := before.Plus(written);
    assert Store(after.commits[|before.commits|..], after.checks[|before.checks|..]) == written;
  }

  lemma FirstIsFirst(r: Refusal, q: Request, builds: seq<Build>, store: Store, meanwhile: Meanwhile)
    requires AllCertified(builds, store) && q.predecessor < |builds| && Bounded(builds[q.predecessor], store)
    requires Place(r) <= 10 && FirstFailure(r, InOrder(q), builds[q.predecessor], store)
    ensures FirstObjection(r, q, builds, store, meanwhile)
  {
    forall s: Refusal | Place(s) <= 10
      ensures Fails(s, InOrder(q), builds[q.predecessor], store) <==> Objection(s, q, builds, store, meanwhile)
    {
      if s.LaterOutput? || s.LaterTiming? {
        LaterFailIs(q, builds, store, meanwhile);
      } else {
        CoverageFailIs(s, q, builds, store, meanwhile);
      }
    }
    hide Fails, Objection;
  }

  /** The requests that end in a certificate. */
  ghost predicate Accepted(q: Request, builds: seq<Build>, store: Store, meanwhile: Meanwhile) {
    && q.predecessor < |builds|
    && Bounded(builds[q.predecessor], store)
    && Admitted(q, builds[q.predecessor], store)
    && meanwhile == Meanwhile(Store([], []), true, true)
    && (q.ranges == [] ==> builds[q.predecessor].resultCommit == |store.commits|)
  }

  predicate Repeats(b: Build, q: Request, resultCommit: nat) {
    && b.definition == q.definition && b.range == q.range && b.resultCommit == resultCommit && b.receipt == q.receipt
    && b.authority.Native? && b.origin == Continues(q.predecessor, [])
  }
}
