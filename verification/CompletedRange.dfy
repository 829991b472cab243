/** Proving from original certificates that an item range is complete (inputs.py, completed_range). */
module CompletedRange {
  import opened Wrappers
  import opened Extremes
  import opened Sorting

  // ---------------------------------------------------------------- certificates

  datatype Certificate = Certificate(first: int, last: int, content: int, check: int) {
    predicate Contains(day: int) { first <= day <= last }

    /** At or above a content and a check boundary. */
    predicate Reaches(commit: int, checkId: int) { content >= commit && check >= checkId }
  }

  /** The tuple order certificates are sorted by. */
  predicate Precedes(a: Certificate, b: Certificate) {
    || a.first < b.first
    || (a.first == b.first && (a.last < b.last
      || (a.last == b.last && (a.content < b.content || (a.content == b.content && a.check <= b.check)))))
  }

  ghost predicate DayCovered(certificates: seq<Certificate>, day: int, commit: int, checkId: int) {
    exists c :: c in certificates && c.Contains(day) && c.Reaches(commit, checkId)
  }

  ghost predicate RangeCovered(certificates: seq<Certificate>, lower: int, upper: int, commit: int, checkId: int) {
    forall day | lower <= day <= upper :: DayCovered(certificates, day, commit, checkId)
  }

  ghost predicate SortedByFirst(certificates: seq<Certificate>) {
    forall i, j | 0 <= i < j < |certificates| :: certificates[i].first <= certificates[j].first
  }

  /** The sweep decides coverage of a nonempty interval exactly. */
  method Covers(certificates: seq<Certificate>, lower: int, upper: int, commit: int, checkId: int) returns (r: bool)
    requires SortedByFirst(certificates) && lower <= upper
    ensures r <==> RangeCovered(certificates, lower, upper, commit, checkId)
  {
    var following := lower;
    for i := 0 to |certificates|
      invariant lower <= following <= upper
      invariant RangeCovered(certificates, lower, following - 1, commit, checkId)
      invariant forall j | 0 <= j < i && certificates[j].Reaches(commit, checkId) :: certificates[j].last < following
    {
      var c := certificates[i];
      if !c.Reaches(commit, checkId) || c.last < following {
        continue;
      }
      if c.first > following {
        NotCovered(certificates, i, following, commit, checkId);
        return false;
      }
      assert forall day | following <= day <= c.last :: c.Contains(day);
      assert forall day | following <= day <= c.last :: DayCovered(certificates, day, commit, checkId);
      if c.last >= upper {
        return true;
      }
      following := if following < c.last + 1 then c.last + 1 else following;
    }
    NotCovered(certificates, |certificates|, following, commit, checkId);
    return false;
  }

  /** The day the sweep waits for is covered by no certificate. */
  lemma NotCovered(certificates: seq<Certificate>, i: nat, following: int, commit: int, checkId: int)
    requires SortedByFirst(certificates) && i <= |certificates|
    requires forall j | 0 <= j < i && certificates[j].Reaches(commit, checkId) :: certificates[j].last < following
    requires i < |certificates| ==> certificates[i].first > following
    ensures !DayCovered(certificates, following, commit, checkId)
  {
    forall c | c in certificates && c.Reaches(commit, checkId) ensures !c.Contains(following) {
      var j :| 0 <= j < |certificates| && certificates[j] == c;
      if j >= i { assert certificates[i].first <= certificates[j].first; }
    }
  }

  // ---------------------------------------------------------------- evidence

  datatype PendingOutput = PendingOutput(day: int, available: int)

  /** A successful build overlapping the range: its certificate, what it is bound to, and what it left pending. */
  datatype Build = Build(first: int, last: int, resultCommit: Option<int>, check: Option<int>, completedOn: Option<int>,
                         parentKnown: bool, parentBound: bool, parentCutoff: Option<int>, pending: seq<PendingOutput>)

  datatype Batch = Batch(commit: int, rowCount: nat, minObservation: Option<int>, maxObservation: Option<int>)

  /** One query of a check's request: not a usable object, one without a range, or one with a range.
      exact tells whether the query and its range hold nothing else. */
  datatype Scope = Malformed | Unranged | Ranged(lower: int, upper: int, exact: bool)

  /** An output check; None as scopes is a request that is not a list. */
  datatype Check = Check(id: int, pitDate: int, visibleCommit: Option<int>, scopes: Option<seq<Scope>>)

  datatype Query = Query(first: int, last: int, cutoff: Option<int>, asOf: bool, maxCheck: int,
                         requestStart: Option<int>, requestEnd: Option<int>) {

    predicate Reached(day: int) { cutoff.None? || day <= cutoff.value }

    /** A build whose source and completion check are part of this source. */
    predicate Admitted(b: Build) {
      && b.parentKnown && b.check.Some? && b.check.value <= maxCheck
      && !(asOf && cutoff.Some? && (b.completedOn.None? || b.completedOn.value > cutoff.value))
    }

    predicate Qualifies(b: Build) {
      Admitted(b) && !(cutoff.Some? && (b.parentCutoff.None? || b.parentCutoff.value > cutoff.value))
    }

    /** A pending output of the range that should be visible by now. */
    predicate Matured(p: PendingOutput) { first <= p.day <= last && Reached(p.available) }

    predicate Requested() {
      && !(requestStart.Some? && first < requestStart.value)
      && !(requestEnd.Some? && last > requestEnd.value)
    }
  }

  datatype Evidence = Evidence(builds: seq<Build>, batches: seq<Batch>, checks: seq<Check>)

  datatype Verdict = Proven | Unproven | BindingDiffers

  function CertificateOf(b: Build): Certificate
    requires b.check.Some?
  {
    Certificate(b.first, b.last, if b.resultCommit.None? then 0 else b.resultCommit.value, b.check.value)
  }

  function Certificates(q: Query, builds: seq<Build>): seq<Certificate> {
    if builds == [] then [] else
      var b := builds[|builds| - 1];
      Certificates(q, builds[..|builds| - 1]) + if q.Qualifies(b) then [CertificateOf(b)] else []
  }

  /** Some newer qualifying build spans the day. */
  ghost predicate Shadowed(q: Query, newer: seq<Build>, day: int) {
    exists b :: b in newer && q.Qualifies(b) && b.first <= day <= b.last
  }

  /** A build leaves no matured output outside the spans of newer certificates. */
  ghost predicate BuildClear(q: Query, newer: seq<Build>, b: Build) {
    q.Qualifies(b) ==> forall p | p in b.pending && q.Matured(p) :: Shadowed(q, newer, p.day)
  }

  ghost predicate PendingClear(q: Query, builds: seq<Build>) {
    builds == []
      || (PendingClear(q, builds[..|builds| - 1]) && BuildClear(q, builds[..|builds| - 1], builds[|builds| - 1]))
  }

  /** Rows committed later than a certificate need one that includes them, day by day. */
  ghost predicate BatchCovered(q: Query, certificates: seq<Certificate>, b: Batch) {
    b.rowCount == 0 || (b.minObservation.Some? && b.maxObservation.Some? &&
      forall day | q.first <= day <= q.last && b.minObservation.value <= day <= b.maxObservation.value ::
        DayCovered(certificates, day, b.commit, 0))
  }

  function VisibleCommit(c: Check): int { if c.visibleCommit.None? then 0 else c.visibleCommit.value }

  ghost predicate ScopeCovered(q: Query, certificates: seq<Certificate>, c: Check, s: Scope) {
    match s
    case Malformed => false
    case Unranged => true
    case Ranged(lower, upper, _) =>
      lower <= upper && forall day | q.first <= day <= q.last && lower <= day <= upper ::
        DayCovered(certificates, day, VisibleCommit(c), c.id)
  }

  /** Nothing in the request says which days the check concerns. */
  predicate Unscoped(scopes: seq<Scope>) {
    scopes == [] || exists s | s in scopes :: s.Unranged? || (s.Ranged? && !s.exact)
  }

  /** A check needs certificates at its boundaries on its days, or on the whole range when it names none. */
  ghost predicate CheckCovered(q: Query, certificates: seq<Certificate>, c: Check) {
    q.Reached(c.pitDate) ==>
      && c.scopes.Some?
      && (forall s | s in c.scopes.value :: ScopeCovered(q, certificates, c, s))
      && (Unscoped(c.scopes.value) ==> RangeCovered(certificates, q.first, q.last, VisibleCommit(c), c.id))
  }

  /** What a proven range means, day by day. */
  ghost predicate Complete(q: Query, e: Evidence) {
    var certificates := Certificates(q, e.builds);
    && q.Requested()
    && PendingClear(q, e.builds)
    && RangeCovered(certificates, q.first, q.last, 0, 0)
    && (forall b | b in e.batches :: BatchCovered(q, certificates, b))
    && (forall c | c in e.checks :: CheckCovered(q, certificates, c))
  }

  // ---------------------------------------------------------------- the same, build by build

  /** A completion counts if its source is known, its own check is part of the evidence, and neither the check (for a
      reader as of a date) nor the source's information is later than the cutoff. */
  ghost predicate Counts(q: Query, b: Build) {
    && b.parentKnown && b.check.Some? && !(q.maxCheck < b.check.value)
    && (q.cutoff.Some? ==> b.parentCutoff.Some? && b.parentCutoff.value <= q.cutoff.value)
    && (q.cutoff.Some? && q.asOf ==> b.completedOn.Some? && b.completedOn.value <= q.cutoff.value)
  }

  /** It answers for a day if it spans it and was completed no earlier than a commit and a check. */
  ghost predicate AnswersFor(b: Build, day: int, commit: int, checkId: int) {
    && b.first <= day && day <= b.last && b.check.Some? && checkId <= b.check.value
    && match b.resultCommit case None => commit <= 0 case Some(result) => commit <= result
  }

  ghost predicate Answered(q: Query, e: Evidence, day: int, commit: int, checkId: int) {
    exists b :: b in e.builds && Counts(q, b) && AnswersFor(b, day, commit, checkId)
  }

  /** An output left pending that is visible by now lies under a newer completion. */
  ghost predicate Overtaken(q: Query, builds: seq<Build>, i: nat, p: PendingOutput)
    requires i <= |builds|
  {
    (q.cutoff.Some? && q.cutoff.value < p.available) || p.day < q.first || q.last < p.day
    || exists j :: 0 <= j < i && Counts(q, builds[j]) && builds[j].first <= p.day <= builds[j].last
  }

  /** The range is inside the request; every day of it is answered for; so are the days of later rows, at their commit,
      and those of later checks, at theirs, all days for a check that does not say which; and nothing visible was left
      behind. */
  ghost predicate RangeComplete(q: Query, e: Evidence) {
    && (q.requestStart.Some? ==> q.requestStart.value <= q.first)
    && (q.requestEnd.Some? ==> q.last <= q.requestEnd.value)
    && (forall i, p | 0 <= i < |e.builds| && Counts(q, e.builds[i]) && p in e.builds[i].pending ::
          Overtaken(q, e.builds, i, p))
    && (forall day | q.first <= day <= q.last :: Answered(q, e, day, 0, 0))
    && (forall b | b in e.batches && b.rowCount > 0 :: BatchAnswered(q, e, b))
    && (forall c | c in e.checks && (q.cutoff.Some? ==> c.pitDate <= q.cutoff.value) :: CheckAnswered(q, e, c))
  }

  ghost predicate BatchAnswered(q: Query, e: Evidence, b: Batch) {
    && b.minObservation.Some? && b.maxObservation.Some?
    && forall day | q.first <= day <= q.last && b.minObservation.value <= day <= b.maxObservation.value ::
         Answered(q, e, day, b.commit, 0)
  }

  ghost predicate CheckAnswered(q: Query, e: Evidence, c: Check) {
    && c.scopes.Some?
    && (forall s | s in c.scopes.value :: s != Malformed && (s.Ranged? ==> s.lower <= s.upper))
    && forall day | q.first <= day <= q.last && (Concerned(c.scopes.value, day) || Vague(c.scopes.value)) ::
         Answered(q, e, day, if c.visibleCommit == None then 0 else c.visibleCommit.value, c.id)
  }

  ghost predicate Concerned(scopes: seq<Scope>, day: int) {
    exists s :: s in scopes && s.Ranged? && s.lower <= day <= s.upper
  }

  /** Some part of the request names no range, or more than a range, or there is none. */
  ghost predicate Vague(scopes: seq<Scope>) {
    scopes == [] || Unranged in scopes || exists s :: s in scopes && s.Ranged? && !s.exact
  }

  lemma {:induction false} CertificatesAre(q: Query, builds: seq<Build>)
    ensures forall c :: c in Certificates(q, builds) <==>
      exists b :: b in builds && q.Qualifies(b) && c == CertificateOf(b)
  {
    if builds != [] {
      var init, b := builds[..|builds| - 1], builds[|builds| - 1];
      CertificatesAre(q, init);
      assert builds == init + [b];
      assert forall x :: x in builds <==> x in init || x == b;
    }
  }

  lemma AnsweredIs(q: Query, e: Evidence, day: int, commit: int, checkId: int)
    ensures Answered(q, e, day, commit, checkId) <==> DayCovered(Certificates(q, e.builds), day, commit, checkId)
  {
    CertificatesAre(q, e.builds);
    if Answered(q, e, day, commit, checkId) {
      var b :| b in e.builds && Counts(q, b) && AnswersFor(b, day, commit, checkId);
      assert CertificateOf(b) in Certificates(q, e.builds);
    }
  }

  lemma {:induction false} ClearIs(q: Query, builds: seq<Build>)
    ensures PendingClear(q, builds) <==>
      forall i, p | 0 <= i < |builds| && Counts(q, builds[i]) && p in builds[i].pending :: Overtaken(q, builds, i, p)
  {
    if builds != [] {
      var init, b := builds[..|builds| - 1], builds[|builds| - 1];
      ClearIs(q, init);
      assert forall i | 0 <= i < |init| :: init[i] == builds[i];
      forall i, p | 0 <= i < |init| ensures Overtaken(q, init, i, p) <==> Overtaken(q, builds, i, p) {}
      forall p ensures Overtaken(q, builds, |init|, p) <==> (q.Matured(p) ==> Shadowed(q, init, p.day)) {
        if x :| x in init && q.Qualifies(x) && x.first <= p.day <= x.last {
          var j :| 0 <= j < |init| && init[j] == x;
          assert Counts(q, builds[j]);
        }
      }
    }
  }

  lemma CheckAnsweredIs(q: Query, e: Evidence, c: Check)
    ensures (q.Reached(c.pitDate) ==> CheckAnswered(q, e, c)) <==> CheckCovered(q, Certificates(q, e.builds), c)
  {
    forall day ensures Answered(q, e, day, VisibleCommit(c), c.id) <==>
      DayCovered(Certificates(q, e.builds), day, VisibleCommit(c), c.id)
    {
      AnsweredIs(q, e, day, VisibleCommit(c), c.id);
    }
    if c.scopes.Some? && q.Reached(c.pitDate) {
      var certificates, scopes := Certificates(q, e.builds), c.scopes.value;
      assert Vague(scopes) <==> Unscoped(scopes);
      if CheckAnswered(q, e, c) {
        forall s | s in scopes ensures ScopeCovered(q, certificates, c, s) {
          if s.Ranged? {
            forall day | q.first <= day <= q.last && s.lower <= day <= s.upper
              ensures DayCovered(certificates, day, VisibleCommit(c), c.id)
            {
              assert Concerned(scopes, day);
            }
          }
        }
        forall day | q.first <= day <= q.last && Unscoped(scopes)
          ensures DayCovered(certificates, day, VisibleCommit(c), c.id)
        {
          assert Concerned(scopes, day) || Vague(scopes);
        }
        assert CheckCovered(q, certificates, c);
      }
      if CheckCovered(q, certificates, c) {
        forall s | s in scopes ensures s != Malformed && (s.Ranged? ==> s.lower <= s.upper) {
          assert ScopeCovered(q, certificates, c, s);
        }
        forall day | q.first <= day <= q.last && Concerned(scopes, day)
          ensures DayCovered(certificates, day, VisibleCommit(c), c.id)
        {
          var s :| s in scopes && s.Ranged? && s.lower <= day <= s.upper;
          assert ScopeCovered(q, certificates, c, s);
        }
        forall day | q.first <= day <= q.last && (Concerned(scopes, day) || Vague(scopes))
          ensures Answered(q, e, day, VisibleCommit(c), c.id)
        {
          if Vague(scopes) { assert RangeCovered(certificates, q.first, q.last, VisibleCommit(c), c.id); }
        }
        assert CheckAnswered(q, e, c);
      }
    }
  }

  lemma BatchAnsweredIs(q: Query, e: Evidence, b: Batch)
    ensures (b.rowCount > 0 ==> BatchAnswered(q, e, b)) <==> BatchCovered(q, Certificates(q, e.builds), b)
  {
    forall day ensures Answered(q, e, day, b.commit, 0) <==> DayCovered(Certificates(q, e.builds), day, b.commit, 0) {
      AnsweredIs(q, e, day, b.commit, 0);
    }
  }

  /** What the sweeps decide is what is meant. */
  lemma CompleteExactly(q: Query, e: Evidence)
    ensures Complete(q, e) <==> RangeComplete(q, e)
  {
    ClearIs(q, e.builds);
    forall day ensures Answered(q, e, day, 0, 0) <==> DayCovered(Certificates(q, e.builds), day, 0, 0) {
      AnsweredIs(q, e, day, 0, 0);
    }
    forall b: Batch
      ensures (b.rowCount > 0 ==> BatchAnswered(q, e, b)) <==> BatchCovered(q, Certificates(q, e.builds), b)
    {
      BatchAnsweredIs(q, e, b);
    }
    forall c: Check ensures (q.Reached(c.pitDate) ==> CheckAnswered(q, e, c)) <==>
      CheckCovered(q, Certificates(q, e.builds), c)
    {
      CheckAnsweredIs(q, e, c);
    }
    hide Answered, DayCovered, BatchAnswered, BatchCovered, CheckAnswered, CheckCovered, Overtaken, PendingClear;
  }

  // ---------------------------------------------------------------- the decision

  /** Whether a newer span holds the day. */
  predicate InSpans(spans: seq<(int, int)>, day: int) {
    exists s | s in spans :: s.0 <= day <= s.1
  }

  ghost predicate SpansOf(q: Query, spans: seq<(int, int)>, builds: seq<Build>) {
    forall day :: InSpans(spans, day) <==> Shadowed(q, builds, day)
  }

  lemma SpanAdded(q: Query, spans: seq<(int, int)>, builds: seq<Build>, b: Build)
    requires SpansOf(q, spans, builds)
    ensures SpansOf(q, if q.Qualifies(b) then spans + [(b.first, b.last)] else spans, builds + [b])
  {
    var more := if q.Qualifies(b) then spans + [(b.first, b.last)] else spans;
    forall day ensures InSpans(more, day) <==> Shadowed(q, builds + [b], day) {
      assert Shadowed(q, builds + [b], day) <==>
        Shadowed(q, builds, day) || (q.Qualifies(b) && b.first <= day <= b.last) by {
        assert forall x :: x in builds + [b] <==> x in builds || x == b;
      }
      assert q.Qualifies(b) ==> forall s :: s in more <==> s in spans || s == (b.first, b.last);
    }
  }

  /** Whether a qualifying build leaves a matured output uncovered by the newer spans. */
  method LeavesGap(q: Query, b: Build, spans: seq<(int, int)>, ghost newer: seq<Build>) returns (gap: bool)
    requires q.Qualifies(b) && SpansOf(q, spans, newer)
    ensures gap <==> !BuildClear(q, newer, b)
  {
    for i := 0 to |b.pending|
      invariant forall p | p in b.pending[..i] && q.Matured(p) :: Shadowed(q, newer, p.day)
    {
      var p := b.pending[i];
      assert p in b.pending && b.pending[..i + 1] == b.pending[..i] + [p];
      if q.Matured(p) && !InSpans(spans, p.day) {
        return true;
      }
    }
    assert b.pending[..|b.pending|] == b.pending;
    return false;
  }

  lemma PrefixClear(q: Query, builds: seq<Build>, i: nat)
    requires i < |builds|
    ensures PendingClear(q, builds[..i + 1]) <==> PendingClear(q, builds[..i]) && BuildClear(q, builds[..i], builds[i])
    ensures Certificates(q, builds[..i + 1]) ==
      Certificates(q, builds[..i]) + if q.Qualifies(builds[i]) then [CertificateOf(builds[i])] else []
  {
    assert builds[..i + 1][..i] == builds[..i];
  }

  lemma {:induction false} GapRemains(q: Query, builds: seq<Build>, i: nat)
    requires i <= |builds| && !PendingClear(q, builds[..i])
    ensures !PendingClear(q, builds)
    decreases |builds|
  {
    if i < |builds| {
      assert builds[..|builds| - 1][..i] == builds[..i];
      GapRemains(q, builds[..|builds| - 1], i);
    } else {
      assert builds[..i] == builds;
    }
  }

  /** Walks the builds newest first, collecting certificates and the spans they cover. */
  method Collect(q: Query, builds: seq<Build>) returns (certificates: seq<Certificate>, verdict: Verdict)
    ensures verdict.Proven? ==> PendingClear(q, builds) && certificates == Certificates(q, builds)
    ensures verdict.Unproven? ==> !PendingClear(q, builds)
    ensures verdict.BindingDiffers? ==> exists b :: b in builds && q.Admitted(b) && !b.parentBound
  {
    certificates := [];
    var spans: seq<(int, int)> := [];
    for i := 0 to |builds|
      invariant PendingClear(q, builds[..i]) && certificates == Certificates(q, builds[..i])
      invariant SpansOf(q, spans, builds[..i])
    {
      var b := builds[i];
      PrefixClear(q, builds, i);
      SpanAdded(q, spans, builds[..i], b);
      assert builds[..i + 1] == builds[..i] + [b];
      if !q.Admitted(b) {
        continue;
      }
      if !b.parentBound {
        assert b in builds;
        return certificates, BindingDiffers;
      }
      if q.Qualifies(b) {
        var gap := LeavesGap(q, b, spans, builds[..i]);
        if gap {
          GapRemains(q, builds, i + 1);
          return certificates, Unproven;
        }
        spans := spans + [(b.first, b.last)];
        certificates := certificates + [CertificateOf(b)];
      }
    }
    assert builds[..|builds|] == builds;
    return certificates, Proven;
  }

  lemma PrecedesIsTotal()
    ensures TotalPreorder(Precedes)
  {}

  lemma SameElements(a: seq<Certificate>, b: seq<Certificate>)
    requires forall c :: c in a <==> c in b
    ensures forall day, commit, checkId :: DayCovered(a, day, commit, checkId) <==> DayCovered(b, day, commit, checkId)
  {}

  /** Sorting changes nothing about coverage. */
  method SortCertificates(certificates: seq<Certificate>) returns (sorted: seq<Certificate>)
    ensures SortedByFirst(sorted)
    ensures forall day, commit, checkId ::
      DayCovered(sorted, day, commit, checkId) <==> DayCovered(certificates, day, commit, checkId)
  {
    sorted := Sort(certificates, Precedes);
    PrecedesIsTotal();
    SortSorts(certificates, Precedes);
    SortKeepsElements(certificates, Precedes);
    SameElements(sorted, certificates);
    forall i, j | 0 <= i < j < |sorted| ensures sorted[i].first <= sorted[j].first {
      assert Precedes(sorted[i], sorted[j]);
    }
  }

  method BatchIsCovered(q: Query, certificates: seq<Certificate>, b: Batch) returns (r: bool)
    requires SortedByFirst(certificates)
    ensures r <==> BatchCovered(q, certificates, b)
  {
    if b.rowCount == 0 {
      return true;
    }
    if b.minObservation.None? || b.maxObservation.None? {
      return false;
    }
    var lower, upper := Max(q.first, b.minObservation.value), Min(q.last, b.maxObservation.value);
    if lower > upper {
      return true;
    }
    r := Covers(certificates, lower, upper, b.commit, 0);
  }

  method ScopeIsCovered(q: Query, certificates: seq<Certificate>, c: Check, s: Scope) returns (r: bool)
    requires SortedByFirst(certificates)
    ensures r <==> ScopeCovered(q, certificates, c, s)
  {
    match s
    case Malformed => r := false;
    case Unranged => r := true;
    case Ranged(first, last, _) =>
      if last < first {
        return false;
      }
      var lower, upper := Max(q.first, first), Min(q.last, last);
      if lower > upper {
        return true;
      }
      r := Covers(certificates, lower, upper, VisibleCommit(c), c.id);
  }

  method CheckIsCovered(q: Query, certificates: seq<Certificate>, c: Check) returns (r: bool)
    requires SortedByFirst(certificates) && q.first <= q.last
    ensures r <==> CheckCovered(q, certificates, c)
  {
    if !q.Reached(c.pitDate) {
      return true;
    }
    if c.scopes.None? {
      return false;
    }
    var scopes := c.scopes.value;
    var unknownScope := scopes == [];
    for i := 0 to |scopes|
      invariant forall s | s in scopes[..i] :: ScopeCovered(q, certificates, c, s)
      invariant unknownScope <==> scopes == [] || exists s | s in scopes[..i] :: s.Unranged? || (s.Ranged? && !s.exact)
    {
      var s := scopes[i];
      assert s in scopes && scopes[..i + 1] == scopes[..i] + [s];
      var covered := ScopeIsCovered(q, certificates, c, s);
      if !covered {
        return false;
      }
      unknownScope := unknownScope || s.Unranged? || (s.Ranged? && !s.exact);
    }
    assert scopes[..|scopes|] == scopes;
    if unknownScope {
      r := Covers(certificates, q.first, q.last, VisibleCommit(c), c.id);
    } else {
      r := true;
    }
  }

  lemma CompleteBySorted(q: Query, e: Evidence, sorted: seq<Certificate>)
    requires forall day, commit, checkId ::
      DayCovered(sorted, day, commit, checkId) <==> DayCovered(Certificates(q, e.builds), day, commit, checkId)
    ensures RangeCovered(sorted, q.first, q.last, 0, 0) <==>
      RangeCovered(Certificates(q, e.builds), q.first, q.last, 0, 0)
    ensures forall b :: BatchCovered(q, sorted, b) <==> BatchCovered(q, Certificates(q, e.builds), b)
    ensures forall c :: CheckCovered(q, sorted, c) <==> CheckCovered(q, Certificates(q, e.builds), c)
  {
    var certificates := Certificates(q, e.builds);
    forall c ensures CheckCovered(q, sorted, c) <==> CheckCovered(q, certificates, c) {
      assert forall s :: ScopeCovered(q, sorted, c, s) <==> ScopeCovered(q, certificates, c, s);
    }
  }

  /** Coverage of the range, of later batches and of later checks by sorted certificates. */
  method Decide(q: Query, sorted: seq<Certificate>, batches: seq<Batch>, checks: seq<Check>) returns (r: bool)
    requires SortedByFirst(sorted) && q.first <= q.last
    ensures r <==>
      && RangeCovered(sorted, q.first, q.last, 0, 0)
      && (forall b | b in batches :: BatchCovered(q, sorted, b))
      && (forall c | c in checks :: CheckCovered(q, sorted, c))
  {
    r := Covers(sorted, q.first, q.last, 0, 0);
    if !r {
      return;
    }
    for i := 0 to |batches|
      invariant forall b | b in batches[..i] :: BatchCovered(q, sorted, b)
    {
      assert batches[i] in batches && batches[..i + 1] == batches[..i] + [batches[i]];
      r := BatchIsCovered(q, sorted, batches[i]);
      if !r {
        return;
      }
    }
    assert batches[..|batches|] == batches;
    for i := 0 to |checks|
      invariant forall c | c in checks[..i] :: CheckCovered(q, sorted, c)
    {
      assert checks[i] in checks && checks[..i + 1] == checks[..i] + [checks[i]];
      r := CheckIsCovered(q, sorted, checks[i]);
      if !r {
        return;
      }
    }
    assert checks[..|checks|] == checks;
    r := true;
  }

  datatype Error = EndPrecedesStart

  /** Proves a range exactly when it is complete; stops early only on a damaged source binding. */
  method ProveRange(q: Query, e: Evidence) returns (r: Result<Verdict, Error>)
    ensures r.Failure? <==> q.last < q.first
    ensures r == Success(Proven) ==> RangeComplete(q, e)
    ensures r == Success(Unproven) ==> !RangeComplete(q, e)
    ensures r == Success(BindingDiffers) ==> exists b :: b in e.builds && b.parentKnown && !b.parentBound
  {
    CompleteExactly(q, e);
    if q.last < q.first {
      return Failure(EndPrecedesStart);
    }
    if !q.Requested() {
      return Success(Unproven);
    }
    var certificates, verdict := Collect(q, e.builds);
    if !verdict.Proven? {
      return Success(verdict);
    }
    var sorted := SortCertificates(certificates);
    CompleteBySorted(q, e, sorted);
    var decided := Decide(q, sorted, e.batches, e.checks);
    return Success(if decided then Proven else Unproven);
  }

  // ---------------------------------------------------------------- what proven means for each day

  /** On every day of a proven range the newest certificate spanning it left nothing matured behind. */
  lemma {:induction false} NewestCertificateIsClear(q: Query, builds: seq<Build>, i: nat, day: int)
    requires PendingClear(q, builds) && i < |builds|
    requires q.Qualifies(builds[i]) && builds[i].first <= day <= builds[i].last
    requires !Shadowed(q, builds[..i], day)
    ensures forall p | p in builds[i].pending && p.day == day :: !q.Matured(p)
    decreases |builds|
  {
    if i + 1 < |builds| {
      assert builds[..|builds| - 1][..i] == builds[..i];
      NewestCertificateIsClear(q, builds[..|builds| - 1], i, day);
    } else {
      assert builds[..|builds| - 1] == builds[..i];
    }
  }
}
