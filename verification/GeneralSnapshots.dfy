/** Which full snapshot a reader selects at a cutoff (items/pit.py, _general_snapshot_identity). */
module GeneralSnapshots {
  import opened Wrappers
  import opened Extremes

  /** A retained snapshot event; content stands for its remaining fields. */
  datatype Event = Event(commit: int, pitDate: int, ingested: int, baseline: bool, content: int)

  /** A later check that the visible commit's content is unchanged. */
  datatype Check = Check(id: int, visibleCommit: Option<int>, pitDate: int, checkedAt: int, baseline: bool)

  datatype Identity = Identity(event: Event, date: int, ingested: int, baseline: bool, attestation: Option<int>)

  function Own(e: Event): Identity { Identity(e, e.pitDate, e.ingested, e.baseline, None) }

  /** A baseline event verified by a check counts as known from the later of their dates. */
  function Attested(e: Event, c: Check): Identity {
    Identity(e, Max(e.pitDate, c.pitDate), c.checkedAt, false, Some(c.id))
  }

  predicate Attests(c: Check, e: Event) { !c.baseline && c.visibleCommit == Some(e.commit) }

  predicate Reached(cutoff: Option<int>, date: int) { cutoff.None? || date <= cutoff.value }

  predicate OwnVisible(e: Event, cutoff: Option<int>, strict: bool, historical: bool) {
    !(strict && e.baseline) && (Reached(cutoff, e.pitDate) || (e.baseline && historical))
  }

  function Copies(e: Event, checks: seq<Check>, cutoff: Option<int>): seq<Identity> {
    if checks == [] then [] else
      (if Attests(checks[0], e) && Reached(cutoff, Attested(e, checks[0]).date) then [Attested(e, checks[0])] else [])
        + Copies(e, checks[1..], cutoff)
  }

  function EventCandidates(e: Event, checks: seq<Check>, cutoff: Option<int>, strict: bool,
                           historical: bool): seq<Identity>
  {
    (if OwnVisible(e, cutoff, strict, historical) then [Own(e)] else [])
      + if e.baseline then Copies(e, checks, cutoff) else []
  }

  function Candidates(events: seq<Event>, checks: seq<Check>, cutoff: Option<int>, strict: bool,
                      historical: bool): seq<Identity>
  {
    if events == [] then [] else
      EventCandidates(events[0], checks, cutoff, strict, historical)
        + Candidates(events[1..], checks, cutoff, strict, historical)
  }

  function Attestation(x: Identity): int { if x.attestation.None? then 0 else x.attestation.value }

  /** The order of the selection key: commit, date, ingestion, attestation. */
  predicate Below(a: Identity, b: Identity) {
    || a.event.commit < b.event.commit
    || (a.event.commit == b.event.commit && (a.date < b.date
      || (a.date == b.date && (a.ingested < b.ingested
        || (a.ingested == b.ingested && Attestation(a) < Attestation(b))))))
  }

  /** The first greatest candidate. */
  function Best(candidates: seq<Identity>): (r: Option<Identity>)
    ensures r.None? <==> candidates == []
    ensures r.Some? ==> r.value in candidates
  {
    if candidates == [] then None else
      var rest := Best(candidates[1..]);
      if rest.None? || !Below(candidates[0], rest.value) then Some(candidates[0]) else rest
  }

  function Identify(events: seq<Event>, checks: seq<Check>, cutoff: Option<int>, strict: bool,
                    historical: bool): Option<Identity>
  {
    Best(Candidates(events, checks, cutoff, strict, historical))
  }

  // ---------------------------------------------------------------- what is selected

  /** The selected candidate was committed last, then dated last, ingested last and attested last; among equals it is
      the first. */
  lemma {:induction false} BestIsNewest(candidates: seq<Identity>) returns (i: nat)
    requires candidates != []
    ensures i < |candidates| && Best(candidates) == Some(candidates[i])
    ensures forall j | 0 <= j < |candidates| :: var x, best := candidates[j], candidates[i];
      && x.event.commit <= best.event.commit
      && (x.event.commit == best.event.commit ==> x.date <= best.date)
      && (x.event.commit == best.event.commit && x.date == best.date ==> x.ingested <= best.ingested)
      && (x.event.commit == best.event.commit && x.date == best.date && x.ingested == best.ingested ==>
            Attestation(x) <= Attestation(best) && (Attestation(x) == Attestation(best) ==> i <= j))
  {
    i := 0;
    if |candidates| > 1 {
      var rest := BestIsNewest(candidates[1..]);
      if Below(candidates[0], candidates[1..][rest]) { i := rest + 1; }
      forall j | 1 <= j < |candidates| ensures candidates[j] == candidates[1..][j - 1] {}
    } else {
      assert candidates[1..] == [];
    }
  }

  lemma {:induction false} BestIsGreatest(candidates: seq<Identity>)
    ensures forall x | x in candidates :: !Below(Best(candidates).value, x)
  {
    if candidates != [] {
      BestIsGreatest(candidates[1..]);
      assert forall x | x in candidates :: x == candidates[0] || x in candidates[1..];
    }
  }

  /** The candidates of one commit. */
  function OfCommit(candidates: seq<Identity>, commit: int): seq<Identity> {
    if candidates == [] then [] else
      (if candidates[0].event.commit == commit then [candidates[0]] else []) + OfCommit(candidates[1..], commit)
  }

  lemma {:induction false} OfCommitConcat(a: seq<Identity>, b: seq<Identity>, commit: int)
    ensures OfCommit(a + b, commit) == OfCommit(a, commit) + OfCommit(b, commit)
  {
    if a == [] {
      assert a + b == b;
    } else {
      var all, first := a + b, if a[0].event.commit == commit then [a[0]] else [];
      OfCommitConcat(a[1..], b, commit);
      assert all[0] == a[0] && all[1..] == a[1..] + b;
      assert OfCommit(all, commit) == first + OfCommit(all[1..], commit);
      assert first + (OfCommit(a[1..], commit) + OfCommit(b, commit)) ==
        first + OfCommit(a[1..], commit) + OfCommit(b, commit);
    }
  }

  /** Candidates of smaller commits never decide. */
  lemma {:induction false} BestOfCommit(candidates: seq<Identity>, commit: int)
    requires forall x | x in candidates :: x.event.commit <= commit
    requires OfCommit(candidates, commit) != []
    ensures Best(candidates) == Best(OfCommit(candidates, commit))
    ensures Best(candidates).value.event.commit == commit
  {
    var first, tail := candidates[0], candidates[1..];
    assert first in candidates && forall x | x in tail :: x in candidates;
    if OfCommit(tail, commit) == [] {
      NoneOfCommit(tail, commit);
      assert OfCommit(candidates, commit) == [first];
      assert Best([first]) == Some(first) by { assert [first][1..] == []; }
      assert Best(tail).Some? ==> Best(tail).value in candidates;
    } else {
      BestOfCommit(tail, commit);
      var rest := OfCommit(tail, commit);
      if first.event.commit == commit {
        assert OfCommit(candidates, commit) == [first] + rest && ([first] + rest)[1..] == rest;
      } else {
        assert OfCommit(candidates, commit) == rest;
      }
    }
  }

  lemma {:induction false} NoneOfCommit(candidates: seq<Identity>, commit: int)
    requires OfCommit(candidates, commit) == []
    ensures forall x | x in candidates :: x.event.commit != commit
  {
    if candidates != [] { NoneOfCommit(candidates[1..], commit); }
  }

  lemma {:induction false} CopiesAre(e: Event, checks: seq<Check>, cutoff: Option<int>)
    ensures forall x :: x in Copies(e, checks, cutoff) <==>
      exists c :: c in checks && Attests(c, e) && Reached(cutoff, Attested(e, c).date) && x == Attested(e, c)
  {
    if checks != [] {
      CopiesAre(e, checks[1..], cutoff);
      assert forall c :: c in checks <==> c == checks[0] || c in checks[1..];
    }
  }

  lemma {:induction false} CandidateEvents(events: seq<Event>, checks: seq<Check>, cutoff: Option<int>, strict: bool,
                                           historical: bool)
    ensures forall x :: x in Candidates(events, checks, cutoff, strict, historical) <==>
      exists e :: e in events && x in EventCandidates(e, checks, cutoff, strict, historical)
  {
    if events != [] {
      CandidateEvents(events[1..], checks, cutoff, strict, historical);
      assert forall e :: e in events <==> e == events[0] || e in events[1..];
    }
  }

  lemma CandidateOf(e: Event, checks: seq<Check>, cutoff: Option<int>, strict: bool, historical: bool)
    ensures forall x | x in EventCandidates(e, checks, cutoff, strict, historical) :: x.event == e
    ensures EventCandidates(e, checks, cutoff, false, historical) != [] ==> OwnVisible(e, cutoff, false, historical)
  {
    CopiesAre(e, checks, cutoff);
    if e.baseline && Copies(e, checks, cutoff) != [] {
      assert Copies(e, checks, cutoff)[0] in Copies(e, checks, cutoff);
    }
  }

  lemma {:induction false} SameCopies(e: Event, checks: seq<Check>, a: int, b: int)
    requires a <= b && forall c | c in checks && Attests(c, e) :: !(a < Attested(e, c).date <= b)
    ensures Copies(e, checks, Some(a)) == Copies(e, checks, Some(b))
  {
    if checks != [] {
      assert checks[0] in checks && forall c | c in checks[1..] :: c in checks;
      SameCopies(e, checks[1..], a, b);
    }
  }

  /** An event offers the same candidates at two cutoffs if neither it nor a copy of it becomes visible in between. */
  lemma SameEventCandidates(e: Event, checks: seq<Check>, a: int, b: int, strict: bool, historical: bool)
    requires a <= b && !(a < e.pitDate <= b && !(e.baseline && (strict || historical)))
    requires e.baseline ==> forall c | c in checks && Attests(c, e) :: !(a < Attested(e, c).date <= b)
    ensures EventCandidates(e, checks, Some(a), strict, historical)
         == EventCandidates(e, checks, Some(b), strict, historical)
  {
    if e.baseline { SameCopies(e, checks, a, b); }
  }

  /** Nothing becomes visible after one cutoff and by another. */
  ghost predicate Settles(events: seq<Event>, checks: seq<Check>, a: int, b: int, strict: bool, historical: bool) {
    forall e | e in events ::
      && !(a < e.pitDate <= b && !(e.baseline && (strict || historical)))
      && (e.baseline ==> forall c | c in checks && Attests(c, e) :: !(a < Attested(e, c).date <= b))
  }

  lemma {:induction false} SettledCandidates(events: seq<Event>, checks: seq<Check>, a: int, b: int, strict: bool,
                                             historical: bool)
    requires a <= b && Settles(events, checks, a, b, strict, historical)
    ensures Candidates(events, checks, Some(a), strict, historical)
         == Candidates(events, checks, Some(b), strict, historical)
  {
    if events != [] {
      assert events[0] in events && forall e | e in events[1..] :: e in events;
      SameEventCandidates(events[0], checks, a, b, strict, historical);
      SettledCandidates(events[1..], checks, a, b, strict, historical);
    }
  }

  // ---------------------------------------------------------------- what a reader is given

  /** An event as it was recorded: dated by the cutoff, or a baseline shown to readers of historical baselines. */
  ghost predicate AsRecorded(x: Identity, cutoff: Option<int>, strict: bool, historical: bool) {
    && x.attestation == None && x.date == x.event.pitDate && x.ingested == x.event.ingested
    && x.baseline == x.event.baseline && !(x.baseline && strict)
    && (cutoff.Some? && cutoff.value < x.event.pitDate ==> x.baseline && historical)
  }

  /** A baseline event verified by a check of its commit: no baseline any more, known once both of them are. */
  ghost predicate AsVerified(x: Identity, c: Check, cutoff: Option<int>) {
    && x.event.baseline && !x.baseline && !c.baseline && c.visibleCommit == Some(x.event.commit)
    && x.attestation == Some(c.id) && x.ingested == c.checkedAt
    && x.event.pitDate <= x.date && c.pitDate <= x.date && x.date in {x.event.pitDate, c.pitDate}
    && (cutoff.Some? ==> x.event.pitDate <= cutoff.value && c.pitDate <= cutoff.value)
  }

  ghost predicate Offered(x: Identity, events: seq<Event>, checks: seq<Check>, cutoff: Option<int>, strict: bool,
                          historical: bool)
  {
    && x.event in events
    && (AsRecorded(x, cutoff, strict, historical) || exists c :: c in checks && AsVerified(x, c, cutoff))
  }

  lemma RecordedIs(x: Identity, cutoff: Option<int>, strict: bool, historical: bool)
    ensures AsRecorded(x, cutoff, strict, historical) <==>
      OwnVisible(x.event, cutoff, strict, historical) && x == Own(x.event)
  {}

  predicate IsCopy(x: Identity, c: Check, cutoff: Option<int>) {
    x.event.baseline && Attests(c, x.event) && Reached(cutoff, Attested(x.event, c).date) && x == Attested(x.event, c)
  }

  lemma VerifiedIs(x: Identity, c: Check, cutoff: Option<int>)
    ensures AsVerified(x, c, cutoff) <==> IsCopy(x, c, cutoff)
  {}

  lemma OfferedIs(x: Identity, events: seq<Event>, checks: seq<Check>, cutoff: Option<int>, strict: bool,
                  historical: bool)
    ensures Offered(x, events, checks, cutoff, strict, historical) <==>
      x in Candidates(events, checks, cutoff, strict, historical)
  {
    CandidateEvents(events, checks, cutoff, strict, historical);
    RecordedIs(x, cutoff, strict, historical);
    forall c ensures AsVerified(x, c, cutoff) <==> IsCopy(x, c, cutoff) { VerifiedIs(x, c, cutoff); }
    forall e ensures x in EventCandidates(e, checks, cutoff, strict, historical) <==>
      x.event == e && (AsRecorded(x, cutoff, strict, historical) || exists c :: c in checks && AsVerified(x, c, cutoff))
    {
      CopiesAre(e, checks, cutoff);
    }
  }

  /** Readers are given, of all events as recorded and as verified, the one committed last, then dated, ingested and
      attested last; and nothing only if there is none. */
  lemma IdentifiesNewest(events: seq<Event>, checks: seq<Check>, cutoff: Option<int>, strict: bool, historical: bool)
    ensures var r := Identify(events, checks, cutoff, strict, historical);
      && (r.None? <==> forall x :: !Offered(x, events, checks, cutoff, strict, historical))
      && (r.Some? ==> Offered(r.value, events, checks, cutoff, strict, historical))
      && forall x | Offered(x, events, checks, cutoff, strict, historical) ::
           && x.event.commit <= r.value.event.commit
           && (x.event.commit == r.value.event.commit ==> x.date <= r.value.date)
           && (x.event.commit == r.value.event.commit && x.date == r.value.date ==> x.ingested <= r.value.ingested)
  {
    var candidates := Candidates(events, checks, cutoff, strict, historical);
    forall x ensures Offered(x, events, checks, cutoff, strict, historical) <==> x in candidates {
      OfferedIs(x, events, checks, cutoff, strict, historical);
    }
    if candidates != [] {
      var i := BestIsNewest(candidates);
      assert candidates[i] in candidates;
    }
    assert Identify(events, checks, cutoff, strict, historical).None? ==> candidates == [];
  }
}
