/** Stored segments and the bounds recorded for them (input_index.py, bounds). */
module Segments {
  import opened Wrappers
  import opened Extremes
  import opened Records

  /** One immutable segment of a commit. An unknown bound is None; delay bounds availability minus observation. */
  datatype Segment = Segment(commit: int, rows: seq<Version>,
                             minObservation: Option<int>, maxObservation: Option<int>,
                             minAvailable: Option<int>, maxAvailable: Option<int>, delay: Option<int>) {

    ghost predicate Bounds(v: Version) {
      && (minObservation.Some? ==> minObservation.value <= v.obs)
      && (maxObservation.Some? ==> v.obs <= maxObservation.value)
      && (minAvailable.Some? ==> minAvailable.value <= v.avail)
      && (maxAvailable.Some? ==> v.avail <= maxAvailable.value)
      && (delay.Some? ==> v.avail - v.obs <= delay.value)
    }

    ghost predicate BoundsHold() {
      forall v | v in rows :: Bounds(v)
    }
  }

  function Column(rows: seq<Version>, read: Version -> int): (r: seq<int>)
    ensures |r| == |rows| && forall i | 0 <= i < |rows| :: r[i] == read(rows[i])
  {
    if rows == [] then [] else [read(rows[0])] + Column(rows[1..], read)
  }

  const OBS := (v: Version) => v.obs
  const AVAIL := (v: Version) => v.avail
  const DELAY := (v: Version) => v.avail - v.obs

  /** The summary of a segment's rows; an empty segment has no bounds. */
  function Describe(commit: int, rows: seq<Version>): Segment {
    if rows == [] then Segment(commit, rows, None, None, None, None, None)
    else Segment(commit, rows,
                 Some(Least(Column(rows, OBS))), Some(Greatest(Column(rows, OBS))),
                 Some(Least(Column(rows, AVAIL))), Some(Greatest(Column(rows, AVAIL))),
                 Some(Greatest(Column(rows, DELAY))))
  }

  /** Described bounds contain every row and each is attained by one. */
  lemma DescribedBoundsAreExact(commit: int, rows: seq<Version>)
    ensures var s := Describe(commit, rows);
      && s.BoundsHold()
      && (rows != [] ==>
        && (exists v :: v in rows && s.minObservation == Some(v.obs))
        && (exists v :: v in rows && s.maxObservation == Some(v.obs))
        && (exists v :: v in rows && s.minAvailable == Some(v.avail))
        && (exists v :: v in rows && s.maxAvailable == Some(v.avail))
        && (exists v :: v in rows && s.delay == Some(v.avail - v.obs)))
  {
    if rows != [] {
      var s := Describe(commit, rows);
      var obs, avail, delay := Column(rows, OBS), Column(rows, AVAIL), Column(rows, DELAY);
      forall v | v in rows ensures s.Bounds(v) {
        var i :| 0 <= i < |rows| && rows[i] == v;
        assert obs[i] in obs && avail[i] in avail && delay[i] in delay;
      }
      ColumnHas(rows, OBS, Least(obs));
      ColumnHas(rows, OBS, Greatest(obs));
      ColumnHas(rows, AVAIL, Least(avail));
      ColumnHas(rows, AVAIL, Greatest(avail));
      ColumnHas(rows, DELAY, Greatest(delay));
    }
  }

  lemma ColumnHas(rows: seq<Version>, read: Version -> int, value: int)
    requires value in Column(rows, read)
    ensures exists v :: v in rows && read(v) == value
  {
    var i :| 0 <= i < |rows| && Column(rows, read)[i] == value;
    assert rows[i] in rows;
  }
}
