/** A stable sort of a sequence by a caller's ordering, standing for the library sorts of the source. */
module Sorting {

  ghost predicate TotalPreorder<T(!new)>(le: (T, T) -> bool) {
    && (forall a, b :: le(a, b) || le(b, a))
    && (forall a, b, c :: le(a, b) && le(b, c) ==> le(a, c))
  }

  ghost predicate SortedBy<T>(s: seq<T>, le: (T, T) -> bool) {
    forall i, j | 0 <= i < j < |s| :: le(s[i], s[j])
  }

  /** The least index whose element x may precede. */
  function InsertionPoint<T>(x: T, s: seq<T>, le: (T, T) -> bool): (k: nat)
    ensures k <= |s|
    ensures forall i | 0 <= i < k :: !le(x, s[i])
    ensures k < |s| ==> le(x, s[k])
  {
    if s == [] || le(x, s[0]) then 0 else 1 + InsertionPoint(x, s[1..], le)
  }

  function Sort<T>(s: seq<T>, le: (T, T) -> bool): (r: seq<T>)
    ensures |r| == |s|
  {
    if s == [] then [] else
      var rest := Sort(s[1..], le);
      var k := InsertionPoint(s[0], rest, le);
      rest[..k] + [s[0]] + rest[k..]
  }

  lemma InsertPermutes<T>(x: T, s: seq<T>, k: nat)
    requires k <= |s|
    ensures multiset(s[..k] + [x] + s[k..]) == multiset([x] + s)
  {
    assert s == s[..k] + s[k..];
  }

  lemma {:induction false} SortPermutes<T>(s: seq<T>, le: (T, T) -> bool)
    ensures multiset(Sort(s, le)) == multiset(s)
  {
    if s != [] {
      var rest := Sort(s[1..], le);
      SortPermutes(s[1..], le);
      InsertPermutes(s[0], rest, InsertionPoint(s[0], rest, le));
      assert multiset([s[0]] + rest) == multiset([s[0]]) + multiset(s[1..]);
      assert s == [s[0]] + s[1..];
    }
  }

  lemma SortKeepsElements<T>(s: seq<T>, le: (T, T) -> bool)
    ensures forall x :: x in Sort(s, le) <==> x in s
  {
    SortPermutes(s, le);
    forall x ensures x in Sort(s, le) <==> x in s {
      assert x in Sort(s, le) <==> x in multiset(Sort(s, le));
      assert x in s <==> x in multiset(s);
    }
  }

  lemma {:induction false} SortSorts<T(!new)>(s: seq<T>, le: (T, T) -> bool)
    requires TotalPreorder(le)
    ensures SortedBy(Sort(s, le), le)
  {
    if s != [] {
      SortSorts(s[1..], le);
      InsertKeepsSorted(s[0], Sort(s[1..], le), le);
    }
  }

  lemma InsertKeepsSorted<T(!new)>(x: T, s: seq<T>, le: (T, T) -> bool)
    requires TotalPreorder(le) && SortedBy(s, le)
    ensures var k := InsertionPoint(x, s, le); SortedBy(s[..k] + [x] + s[k..], le)
  {
    var k := InsertionPoint(x, s, le);
    var r := s[..k] + [x] + s[k..];
    forall i, j | 0 <= i < j < |r| ensures le(r[i], r[j]) {
      if i == k {
        assert le(s[k], s[j - 1]) || j - 1 == k;
        assert le(x, s[k]);
      } else if j == k {
        assert !le(x, s[i]);
      } else {
        var a, b := if i < k then i else i - 1, if j < k then j else j - 1;
        assert r[i] == s[a] && r[j] == s[b];
      }
    }
  }
}
