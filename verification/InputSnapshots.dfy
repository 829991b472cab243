/** Input frames and what a reader selects from them at a cutoff (items/pit.py, input_snapshot). */
module InputSnapshots {
  import opened Wrappers
  import opened Records
  import General = GeneralSnapshots

  /** A row of a full (General) snapshot: no observation date, only the event it belongs to. */
  datatype SnapshotRow = SnapshotRow(date: int, commit: int, ingested: int, attestation: int, baseline: bool,
    payload: int)

  /** The four shapes the readers tell apart by their columns; a build resolves its General inputs from their retained
      events and checks instead of from rows. */
  datatype Frame =
    | ItemFrame(rows: seq<Version>)           // version_available_date present
    | RecordFrame(rows: seq<Version>)         // _record_id present
    | GeneralFrame(events: seq<SnapshotRow>)  // _snapshot_id present
    | ResolvedFrame(retained: seq<General.Event>, checks: seq<General.Check>, strict: bool, historical: bool)
    | PlainFrame(payload: int)                // none of them

  /** What a producer sees of one input. */
  datatype View =
    | Records(latest: map<Key, Version>)
    | Event(events: seq<SnapshotRow>)
    | Selected(identity: Option<General.Identity>)
    | Whole(payload: int)

  /** Days on which a frame can change other than by an ordinary observation of that day. */
  function RevisionDates(frame: Frame): (r: set<int>)
    ensures (frame.ItemFrame? || frame.RecordFrame?) ==>
      forall d :: d in r <==> exists v :: v in frame.rows && v.avail > v.obs && v.avail == d
    ensures frame.GeneralFrame? ==>
      forall d :: d in r <==> exists e :: e in frame.events && !e.baseline && e.date == d
    ensures frame.ResolvedFrame? ==>
      forall d :: d in r <==>
        || (exists e :: e in frame.retained && !e.baseline && e.pitDate == d)
        || (exists c :: c in frame.checks && c.pitDate == d)
  {
    match frame
    case ItemFrame(rows) => set v | v in rows && v.avail > v.obs :: v.avail
    case RecordFrame(rows) => set v | v in rows && v.avail > v.obs :: v.avail
    case GeneralFrame(events) => set e | e in events && !e.baseline :: e.date
    case ResolvedFrame(retained, checks, _, _) =>
      (set e | e in retained && !e.baseline :: e.pitDate) + (set c | c in checks :: c.pitDate)
    case PlainFrame(_) => {}
  }

  function Snapshot(rows: seq<Version>, cutoff: int): map<Key, Version> {
    map v | v in rows && Latest(rows, v.key, (w: Version) => w.avail <= cutoff).Some?
      :: v.key := Latest(rows, v.key, (w: Version) => w.avail <= cutoff).value
  }

  /** The rows of the greatest visible event, compared by commit, date, ingestion and attestation. */
  predicate EventNotAfter(a: SnapshotRow, b: SnapshotRow) {
    || a.commit < b.commit
    || (a.commit == b.commit && (a.date < b.date
      || (a.date == b.date && (a.ingested < b.ingested
        || (a.ingested == b.ingested && a.attestation <= b.attestation)))))
  }

  function VisibleEvents(events: seq<SnapshotRow>, cutoff: int): seq<SnapshotRow> {
    if events == [] then [] else
      (if events[0].date <= cutoff then [events[0]] else []) + VisibleEvents(events[1..], cutoff)
  }

  function GreatestEvents(events: seq<SnapshotRow>, all: seq<SnapshotRow>): seq<SnapshotRow> {
    if events == [] then [] else
      (if forall e | e in all :: EventNotAfter(e, events[0]) then [events[0]] else [])
        + GreatestEvents(events[1..], all)
  }

  function InputSnapshot(frame: Frame, cutoff: int): View {
    match frame
    case ItemFrame(rows) => Records(Snapshot(rows, cutoff))
    case RecordFrame(rows) => Records(Snapshot(rows, cutoff))
    case GeneralFrame(events) => var visible := VisibleEvents(events, cutoff); Event(GreatestEvents(visible, visible))
    case ResolvedFrame(retained, checks, strict, historical) =>
      Selected(General.Identify(retained, checks, Some(cutoff), strict, historical))
    case PlainFrame(payload) => Whole(payload)
  }

  function Snapshots(frames: seq<Frame>, cutoff: int): (r: seq<View>)
    ensures |r| == |frames|
    ensures forall i | 0 <= i < |frames| :: r[i] == InputSnapshot(frames[i], cutoff)
  {
    if frames == [] then [] else [InputSnapshot(frames[0], cutoff)] + Snapshots(frames[1..], cutoff)
  }

  /** The part of a view that concerns observations up to a day. */
  ghost function UpTo(view: View, day: int): View {
    match view
    case Records(latest) => Records(map k | k in latest && latest[k].obs <= day :: latest[k])
    case _ => view
  }

  ghost predicate SameUpTo(a: seq<View>, b: seq<View>, day: int) {
    |a| == |b| && forall i | 0 <= i < |a| :: UpTo(a[i], day) == UpTo(b[i], day)
  }

  /** No version is known before its observation, and a baseline event is visible from the first day, or visible
      always or never and not verified before its own date. */
  ghost predicate CausalInput(frame: Frame, start: int) {
    match frame
    case GeneralFrame(events) => forall e | e in events && e.baseline :: e.date <= start
    case ResolvedFrame(retained, checks, strict, historical) =>
      forall e | e in retained && e.baseline ::
        || e.pitDate <= start
        || ((strict || historical) && forall c | c in checks && General.Attests(c, e) :: e.pitDate <= c.pitDate)
    case PlainFrame(_) => true
    case _ => forall v | v in frame.rows :: v.obs <= v.avail
  }

  // ---------------------------------------------------------------- snapshots between revisions

  lemma SnapshotLookup(rows: seq<Version>, cutoff: int, key: Key)
    ensures key in Snapshot(rows, cutoff) <==> Latest(rows, key, (w: Version) => w.avail <= cutoff).Some?
    ensures key in Snapshot(rows, cutoff) ==>
      Snapshot(rows, cutoff)[key] == Latest(rows, key, (w: Version) => w.avail <= cutoff).value
  {
    var found := Latest(rows, key, (w: Version) => w.avail <= cutoff);
    if found.Some? { assert found.value in rows && found.value.key == key; }
  }

  /** A snapshot holds every key with a version available by the cutoff, and of each key the row that became available
      last, was then ingested last and then committed last. */
  lemma SnapshotIsNewest(rows: seq<Version>, cutoff: int, key: Key)
    ensures key in Snapshot(rows, cutoff) <==> exists v :: v in rows && v.key == key && v.avail <= cutoff
    ensures key in Snapshot(rows, cutoff) ==>
      var s := Snapshot(rows, cutoff)[key];
      && s in rows && s.key == key && s.avail <= cutoff
      && forall v | v in rows && v.key == key && v.avail <= cutoff ::
           && v.avail <= s.avail
           && (v.avail == s.avail ==> v.ingested <= s.ingested)
           && (v.avail == s.avail && v.ingested == s.ingested ==> v.commit <= s.commit)
  {
    SnapshotLookup(rows, cutoff, key);
    var i := LatestIsNewest(rows, key, (w: Version) => w.avail <= cutoff);
  }

  /** A full snapshot shows exactly the visible rows whose event was committed last, then dated, ingested and attested
      last; something is shown whenever an event is visible. */
  lemma GeneralIsNewest(events: seq<SnapshotRow>, cutoff: int)
    ensures var view := InputSnapshot(GeneralFrame(events), cutoff);
      && (forall e :: e in view.events <==>
            && e in events && e.date <= cutoff
            && forall f | f in events && f.date <= cutoff ::
                 && f.commit <= e.commit
                 && (f.commit == e.commit ==> f.date <= e.date)
                 && (f.commit == e.commit && f.date == e.date ==> f.ingested <= e.ingested)
                 && (f.commit == e.commit && f.date == e.date && f.ingested == e.ingested ==>
                       f.attestation <= e.attestation))
      && ((exists e :: e in events && e.date <= cutoff) ==> view.events != [])
  {
    var visible := VisibleEvents(events, cutoff);
    VisibleIs(events, cutoff);
    GreatestIs(visible, visible);
    if e :| e in events && e.date <= cutoff { GreatestExists(visible); }
  }

  lemma {:induction false} VisibleIs(events: seq<SnapshotRow>, cutoff: int)
    ensures forall e :: e in VisibleEvents(events, cutoff) <==> e in events && e.date <= cutoff
  {
    if events != [] {
      VisibleIs(events[1..], cutoff);
      assert forall e :: e in events <==> e == events[0] || e in events[1..];
    }
  }

  lemma {:induction false} GreatestIs(events: seq<SnapshotRow>, all: seq<SnapshotRow>)
    ensures forall e :: e in GreatestEvents(events, all) <==> e in events && forall f | f in all :: EventNotAfter(f, e)
  {
    if events != [] {
      GreatestIs(events[1..], all);
      assert forall e :: e in events <==> e == events[0] || e in events[1..];
    }
  }

  lemma {:induction false} GreatestOf(events: seq<SnapshotRow>) returns (top: SnapshotRow)
    requires events != []
    ensures top in events && forall f | f in events :: EventNotAfter(f, top)
  {
    top := events[0];
    if |events| > 1 {
      assert forall e :: e in events <==> e == events[0] || e in events[1..];
      top := GreatestOf(events[1..]);
      if EventNotAfter(top, events[0]) { top := events[0]; }
    }
  }

  lemma GreatestExists(events: seq<SnapshotRow>)
    requires events != []
    ensures GreatestEvents(events, events) != []
  {
    var top := GreatestOf(events);
    GreatestIs(events, events);
    assert top in GreatestEvents(events, events);
  }

  /** Views of records agree up to a day exactly if they hold the same rows of every observation by then. */
  lemma SameUpToMeans(a: map<Key, Version>, b: map<Key, Version>, day: int)
    ensures UpTo(Records(a), day) == UpTo(Records(b), day) <==>
              forall item: (Key, Version) | item.1.obs <= day :: item in a.Items <==> item in b.Items
  {
    var x, y := UpTo(Records(a), day).latest, UpTo(Records(b), day).latest;
    if forall item: (Key, Version) | item.1.obs <= day :: item in a.Items <==> item in b.Items {
      forall k ensures k in x <==> k in y {
        assert k in x ==> (k, a[k]) in b.Items;
        assert k in y ==> (k, b[k]) in a.Items;
      }
      forall k | k in x ensures x[k] == y[k] { assert (k, a[k]) in b.Items; }
      assert x == y;
    }
    if x == y {
      forall item: (Key, Version) | item.1.obs <= day ensures item in a.Items <==> item in b.Items {
        assert item in a.Items <==> item.0 in x && x[item.0] == item.1;
        assert item in b.Items <==> item.0 in y && y[item.0] == item.1;
      }
    }
  }

  ghost predicate AgreesOn(a: map<Key, Version>, b: map<Key, Version>, time: int, k: Key) {
    && (k in a && a[k].obs <= time <==> k in b && b[k].obs <= time)
    && (k in a && a[k].obs <= time ==> a[k] == b[k])
  }

  lemma KeyUpTo(rows: seq<Version>, day: int, cutoff: int, time: int, k: Key)
    requires time <= day <= cutoff
    requires forall v | v in rows && day < v.avail <= cutoff :: v.avail <= v.obs
    ensures AgreesOn(Snapshot(rows, cutoff), Snapshot(rows, day), time, k)
  {
    var p, q := (w: Version) => w.avail <= cutoff, (w: Version) => w.avail <= day;
    SnapshotLookup(rows, cutoff, k);
    SnapshotLookup(rows, day, k);
    if v :| v in rows && v.key == k && v.obs <= time {
      LatestAgrees(rows, k, p, q);
    }
  }

  lemma UpToEqual(a: map<Key, Version>, b: map<Key, Version>, time: int)
    requires forall k :: AgreesOn(a, b, time, k)
    ensures UpTo(Records(a), time) == UpTo(Records(b), time)
  {
    var x, y := UpTo(Records(a), time).latest, UpTo(Records(b), time).latest;
    forall k ensures k in x <==> k in y {
      assert AgreesOn(a, b, time, k);
    }
    forall k | k in x ensures x[k] == y[k] {
      assert AgreesOn(a, b, time, k);
    }
  }

  lemma SnapshotUpTo(rows: seq<Version>, day: int, cutoff: int, time: int)
    requires time <= day <= cutoff
    requires forall v | v in rows && day < v.avail <= cutoff :: v.avail <= v.obs
    ensures UpTo(Records(Snapshot(rows, cutoff)), time) == UpTo(Records(Snapshot(rows, day)), time)
  {
    forall k ensures AgreesOn(Snapshot(rows, cutoff), Snapshot(rows, day), time, k) {
      KeyUpTo(rows, day, cutoff, time, k);
    }
    UpToEqual(Snapshot(rows, cutoff), Snapshot(rows, day), time);
  }

  lemma {:induction false} EventsUnchanged(events: seq<SnapshotRow>, day: int, cutoff: int)
    requires day <= cutoff && forall e | e in events :: !(day < e.date <= cutoff)
    ensures VisibleEvents(events, day) == VisibleEvents(events, cutoff)
  {
    if events != [] { EventsUnchanged(events[1..], day, cutoff); }
  }

  /** Between the days of its events and checks the selection of a resolved input does not change. */
  lemma ResolvedSettles(frame: Frame, start: int, day: int, cutoff: int)
    requires frame.ResolvedFrame? && CausalInput(frame, start) && start <= day <= cutoff
    requires forall date | day < date <= cutoff :: date !in RevisionDates(frame)
    ensures General.Settles(frame.retained, frame.checks, day, cutoff, frame.strict, frame.historical)
  {
    forall e, c | e in frame.retained && e.baseline && c in frame.checks && General.Attests(c, e)
      ensures !(day < General.Attested(e, c).date <= cutoff)
    {
      assert c.pitDate in RevisionDates(frame);
    }
    forall e | e in frame.retained
      ensures !(day < e.pitDate <= cutoff && !(e.baseline && (frame.strict || frame.historical)))
    {
      if !e.baseline { assert e.pitDate in RevisionDates(frame); }
    }
  }

  lemma FrameAgrees(frame: Frame, start: int, day: int, cutoff: int, time: int)
    requires CausalInput(frame, start) && start <= day <= cutoff && time <= day
    requires forall date | day < date <= cutoff :: date !in RevisionDates(frame)
    ensures UpTo(InputSnapshot(frame, cutoff), time) == UpTo(InputSnapshot(frame, day), time)
  {
    match frame
    case GeneralFrame(events) =>
      forall e | e in events ensures !(day < e.date <= cutoff) {
        assert !e.baseline ==> e.date in RevisionDates(frame);
      }
      EventsUnchanged(events, day, cutoff);
    case ResolvedFrame(retained, checks, strict, historical) =>
      ResolvedSettles(frame, start, day, cutoff);
      General.SettledCandidates(retained, checks, day, cutoff, strict, historical);
    case PlainFrame(_) =>
    case _ =>
      forall v | v in frame.rows && day < v.avail <= cutoff ensures v.avail <= v.obs {
        assert v.avail > v.obs ==> v.avail in RevisionDates(frame);
      }
      SnapshotUpTo(frame.rows, day, cutoff, time);
  }
}
