/** Stored versions of records and the "latest admitted version of a record" every reader selects. */
module Records {
  import opened Wrappers

  /** What a frame is keyed by: a Raw record identity, which is formed from the observation date and the remaining key
      fields, or the observation date and asset of an item. */
  datatype Key = RecordId(obs: int, fields: string) | Coordinate(obs: int, asset: string)

  /** avail is the date the version became known. */
  datatype Version = Version(key: Key, avail: int, ingested: int, commit: int, baseline: bool, payload: int) {

    /** The observation date, one for all versions of a key. */
    const obs: int := key.obs
  }

  /** Readers sort by (availability, ingestion, commit) and keep the last row of each key. */
  predicate NotAfter(a: Version, b: Version) {
    || a.avail < b.avail
    || (a.avail == b.avail && (a.ingested < b.ingested || (a.ingested == b.ingested && a.commit <= b.commit)))
  }

  function Latest(rows: seq<Version>, key: Key, admitted: Version -> bool): (r: Option<Version>)
    ensures r.Some? ==> r.value in rows && r.value.key == key && admitted(r.value)
  {
    if rows == [] then None else
      var prior := Latest(rows[..|rows| - 1], key, admitted);
      var v := rows[|rows| - 1];
      if v.key == key && admitted(v) && (prior.None? || NotAfter(prior.value, v)) then Some(v) else prior
  }

  /** No other admitted version of the key became available later, or on the same date was ingested later, or then was
      committed later; among equals the last row is kept. */
  ghost predicate Newest(rows: seq<Version>, i: nat, key: Key, admitted: Version -> bool) {
    && i < |rows| && rows[i].key == key && admitted(rows[i])
    && forall j | 0 <= j < |rows| && rows[j].key == key && admitted(rows[j]) ::
         && rows[j].avail <= rows[i].avail
         && (rows[j].avail == rows[i].avail ==> rows[j].ingested <= rows[i].ingested)
         && (rows[j].avail == rows[i].avail && rows[j].ingested == rows[i].ingested ==>
               rows[j].commit <= rows[i].commit && (rows[j].commit == rows[i].commit ==> j <= i))
  }

  /** Latest selects the newest admitted version, and finds one whenever there is one. */
  lemma {:induction false} LatestIsNewest(rows: seq<Version>, key: Key, admitted: Version -> bool) returns (i: nat)
    ensures var r := Latest(rows, key, admitted);
      && (r.Some? ==> Newest(rows, i, key, admitted) && r.value == rows[i])
      && (r.None? ==> forall v | v in rows && v.key == key :: !admitted(v))
  {
    i := 0;
    if rows != [] {
      var init, v := rows[..|rows| - 1], rows[|rows| - 1];
      i := LatestIsNewest(init, key, admitted);
      assert forall w | w in rows :: w in init || w == v;
      var prior := Latest(init, key, admitted);
      if v.key == key && admitted(v) && (prior.None? || NotAfter(prior.value, v)) { i := |init|; }
    }
  }

  lemma {:induction false} LatestAgrees(rows: seq<Version>, key: Key, p: Version -> bool, q: Version -> bool)
    requires forall v | v in rows && v.key == key :: p(v) == q(v)
    ensures Latest(rows, key, p) == Latest(rows, key, q)
  {
    if rows != [] { LatestAgrees(rows[..|rows| - 1], key, p, q); }
  }

  lemma {:induction false} LatestSkipsSuffix(rows: seq<Version>, more: seq<Version>, key: Key,
                                             admitted: Version -> bool)
    requires forall v | v in more && v.key == key :: !admitted(v)
    ensures Latest(rows + more, key, admitted) == Latest(rows, key, admitted)
  {
    if more == [] {
      assert rows + more == rows;
    } else {
      assert (rows + more)[..|rows + more| - 1] == rows + more[..|more| - 1];
      LatestSkipsSuffix(rows, more[..|more| - 1], key, admitted);
    }
  }

  lemma {:induction false} LatestExtends(a: seq<Version>, b: seq<Version>, more: seq<Version>, key: Key,
                                         admitted: Version -> bool)
    requires Latest(a, key, admitted) == Latest(b, key, admitted)
    ensures Latest(a + more, key, admitted) == Latest(b + more, key, admitted)
  {
    if more == [] {
      assert a + more == a && b + more == b;
    } else {
      assert (a + more)[..|a + more| - 1] == a + more[..|more| - 1];
      assert (b + more)[..|b + more| - 1] == b + more[..|more| - 1];
      LatestExtends(a, b, more[..|more| - 1], key, admitted);
    }
  }
}
