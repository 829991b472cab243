/** The byte-bounded, least-recently-used store of prepared frames (items/preparation.py). */
module PreparedCache {
  import opened Wrappers

  const OVERHEAD := 4096
  const MAX_ENTRIES := 128

  datatype Key = Key(parts: seq<string>)

  datatype Frame = Frame(rows: seq<int>, bytes: nat)

  datatype Entry = Entry(key: Key, frame: Frame, charge: nat)

  function Charges(entries: seq<Entry>): nat {
    if entries == [] then 0 else entries[0].charge + Charges(entries[1..])
  }

  function Keys(entries: seq<Entry>): (r: seq<Key>)
    ensures |r| == |entries|
    ensures forall i | 0 <= i < |entries| :: r[i] == entries[i].key
  {
    if entries == [] then [] else [entries[0].key] + Keys(entries[1..])
  }

  function Without(keys: seq<Key>, key: Key): seq<Key> {
    if keys == [] then []
    else if keys[0] == key then Without(keys[1..], key)
    else [keys[0]] + Without(keys[1..], key)
  }

  lemma {:induction false} WithoutElements(keys: seq<Key>, key: Key)
    ensures forall k :: k in Without(keys, key) <==> k in keys && k != key
    ensures key !in keys ==> Without(keys, key) == keys
  {
    if keys != [] {
      WithoutElements(keys[1..], key);
      assert forall k :: k in keys <==> k == keys[0] || k in keys[1..];
    }
  }

  lemma {:induction false} WithoutJoins(a: seq<Key>, b: seq<Key>, key: Key)
    ensures Without(a + b, key) == Without(a, key) + Without(b, key)
  {
    if a == [] {
      assert a + b == b;
    } else {
      var all, rest := a + b, a[1..] + b;
      assert all[0] == a[0] && all[1..] == rest;
      WithoutJoins(a[1..], b, key);
      assert Without(rest, key) == Without(a[1..], key) + Without(b, key);
      assert [a[0]] + (Without(a[1..], key) + Without(b, key)) == [a[0]] + Without(a[1..], key) + Without(b, key);
    }
  }

  lemma {:induction false} ChargesJoin(a: seq<Entry>, b: seq<Entry>)
    ensures Charges(a + b) == Charges(a) + Charges(b)
  {
    if a == [] {
      assert a + b == b;
    } else {
      ChargesJoin(a[1..], b);
      assert (a + b)[1..] == a[1..] + b;
    }
  }

  ghost predicate NoRepeats(keys: seq<Key>) {
    keys == [] || (keys[0] !in keys[1..] && NoRepeats(keys[1..]))
  }

  lemma {:induction false} NoRepeatsAcross(a: seq<Key>, key: Key, b: seq<Key>)
    requires NoRepeats(a + [key] + b)
    ensures key !in a && key !in b && NoRepeats(a + b)
  {
    var all := a + [key] + b;
    if a == [] {
      assert all[1..] == b && a + b == b;
    } else {
      assert all[1..] == a[1..] + [key] + b;
      assert (a + b)[1..] == a[1..] + b;
      NoRepeatsAcross(a[1..], key, b);
    }
  }

  lemma {:induction false} NoRepeatsAppend(keys: seq<Key>, key: Key)
    requires NoRepeats(keys) && key !in keys
    ensures NoRepeats(keys + [key])
  {
    if keys != [] {
      NoRepeatsAppend(keys[1..], key);
      assert (keys + [key])[1..] == keys[1..] + [key];
    }
  }

  lemma {:induction false} WithoutKeepsDistinct(keys: seq<Key>, key: Key)
    requires NoRepeats(keys)
    ensures NoRepeats(Without(keys, key))
  {
    if keys != [] {
      WithoutKeepsDistinct(keys[1..], key);
      WithoutElements(keys[1..], key);
      if keys[0] != key {
        assert Without(keys, key)[1..] == Without(keys[1..], key);
      }
    }
  }

  /** Entries hold the last frame admitted for their keys, charged by size. */
  ghost predicate Faithful(entries: seq<Entry>, admitted: map<Key, Frame>) {
    forall e | e in entries :: e.key in admitted && e.frame == admitted[e.key] && e.charge == OVERHEAD + e.frame.bytes
  }

  function Find(entries: seq<Entry>, key: Key): (r: Option<nat>)
    ensures r.None? ==> forall i | 0 <= i < |entries| :: entries[i].key != key
    ensures r.Some? ==> r.value < |entries| && entries[r.value].key == key
  {
    if entries == [] then None
    else if entries[0].key == key then Some(0)
    else
      match Find(entries[1..], key)
      case None => None
      case Some(i) => Some(i + 1)
  }

  function Dropped(entries: seq<Entry>, i: nat): seq<Entry>
    requires i < |entries|
  {
    entries[..i] + entries[i + 1..]
  }

  lemma {:induction false} KeysJoin(a: seq<Entry>, b: seq<Entry>)
    ensures Keys(a + b) == Keys(a) + Keys(b)
  {}

  lemma WithoutMiddle(a: seq<Key>, key: Key, b: seq<Key>)
    requires NoRepeats(a + [key] + b)
    ensures Without(a + [key] + b, key) == a + b && NoRepeats(a + b) && key !in a && key !in b
  {
    NoRepeatsAcross(a, key, b);
    WithoutJoins(a + [key], b, key);
    WithoutJoins(a, [key], key);
    WithoutElements(a, key);
    WithoutElements(b, key);
    assert Without([key], key) == [] && a + [] == a;
  }

  lemma DropFacts(entries: seq<Entry>, i: nat)
    requires i < |entries|
    ensures var a, b := entries[..i], entries[i + 1..];
      && Keys(entries) == Keys(a) + [entries[i].key] + Keys(b)
      && Keys(Dropped(entries, i)) == Keys(a) + Keys(b)
      && Charges(entries) == Charges(Dropped(entries, i)) + entries[i].charge
  {
    var e := entries[i];
    var a, b := entries[..i], entries[i + 1..];
    assert entries == a + [e] + b;
    ChargesJoin(a + [e], b);
    ChargesJoin(a, [e]);
    ChargesJoin(a, b);
    KeysJoin(a + [e], b);
    KeysJoin(a, [e]);
    KeysJoin(a, b);
  }

  lemma Regroup(a: seq<Key>, b: seq<Key>, key: Key, c: seq<Key>)
    ensures a + (b + [key] + c) == (a + b) + [key] + c
    ensures a + (b + c) == (a + b) + c
  {}

  /** Taking an entry out leaves the other keys in their order. */
  lemma DropKeeps(older: seq<Key>, entries: seq<Entry>, i: nat)
    requires i < |entries| && NoRepeats(older + Keys(entries))
    ensures var key, rest := entries[i].key, Dropped(entries, i);
      older + Keys(rest) == Without(older + Keys(entries), key) && NoRepeats(older + Keys(rest)) && key !in older
  {
    var key := entries[i].key;
    var a, b := Keys(entries[..i]), Keys(entries[i + 1..]);
    DropFacts(entries, i);
    Regroup(older, a, key, b);
    WithoutMiddle(older + a, key, b);
  }

  lemma KeysAppend(older: seq<Key>, entries: seq<Entry>, e: Entry)
    ensures older + Keys(entries + [e]) == older + Keys(entries) + [e.key]
  {
    KeysJoin(entries, [e]);
    assert Keys([e]) == [e.key];
  }

  lemma ChargesAppend(entries: seq<Entry>, e: Entry)
    ensures Charges(entries + [e]) == Charges(entries) + e.charge
  {
    ChargesJoin(entries, [e]);
    assert [e][1..] == [];
  }

  lemma DroppedMembers(entries: seq<Entry>, i: nat)
    requires i < |entries|
    ensures forall e | e in Dropped(entries, i) :: e in entries
  {}

  /** Using a held key moves it to the end of the order of use. */
  lemma HitKeeps(older: seq<Key>, entries: seq<Entry>, i: nat)
    requires i < |entries| && NoRepeats(older + Keys(entries))
    ensures var key, after := entries[i].key, Dropped(entries, i) + [entries[i]];
      older + Keys(after) == Without(older + Keys(entries), key) + [key] && NoRepeats(older + Keys(after))
  {
    var e, rest := entries[i], Dropped(entries, i);
    DropKeeps(older, entries, i);
    KeysAppend(older, rest, e);
    WithoutElements(older + Keys(entries), e.key);
    NoRepeatsAppend(older + Keys(rest), e.key);
  }

  /** Moving an entry to the end keeps what is charged. */
  lemma HitCharges(entries: seq<Entry>, i: nat)
    requires i < |entries|
    ensures var after := Dropped(entries, i) + [entries[i]];
      Charges(after) == Charges(entries) && forall e | e in after :: e in entries
  {
    DropFacts(entries, i);
    ChargesAppend(Dropped(entries, i), entries[i]);
    DroppedMembers(entries, i);
  }

  lemma DropFaithful(entries: seq<Entry>, i: nat, admitted: map<Key, Frame>)
    requires i < |entries| && Faithful(entries, admitted)
    ensures Faithful(Dropped(entries, i), admitted)
  {
    forall x | x in Dropped(entries, i) ensures x in entries {}
  }

  function Removed(entries: seq<Entry>, key: Key): seq<Entry> {
    match Find(entries, key)
    case None => entries
    case Some(i) => Dropped(entries, i)
  }

  predicate Fits(entries: seq<Entry>, charge: nat, limit: nat) {
    Charges(entries) + charge <= limit && |entries| < MAX_ENTRIES
  }

  /** The store keeps as many of the entries used last as fit beside a new one, and puts the new one last. */
  predicate Evicts(entries: seq<Entry>, evicted: nat, e: Entry, limit: nat, after: seq<Entry>) {
    && evicted <= |entries| && after == entries[evicted..] + [e]
    && (evicted < |entries| ==> Fits(entries[evicted..], e.charge, limit))
    && (evicted > 0 ==> !Fits(entries[evicted - 1..], e.charge, limit))
  }

  lemma {:induction false} LongerNeverFits(entries: seq<Entry>, from: nat, k: nat, charge: nat, limit: nat)
    requires k <= from <= |entries| && !Fits(entries[from..], charge, limit)
    ensures !Fits(entries[k..], charge, limit)
    decreases from - k
  {
    if k < from {
      LongerNeverFits(entries, from, k + 1, charge, limit);
      assert entries[k..] == [entries[k]] + entries[k + 1..];
    }
  }

  /** No more entries could have stayed: keeping any longer run of the entries used last would not fit. */
  lemma EvictionIsLeast(entries: seq<Entry>, evicted: nat, e: Entry, limit: nat, after: seq<Entry>, k: nat)
    requires Evicts(entries, evicted, e, limit, after) && k < evicted
    ensures !Fits(entries[k..], e.charge, limit)
  {
    LongerNeverFits(entries, evicted - 1, k, e.charge, limit);
  }

  lemma DropOld(older: seq<Key>, entries: seq<Entry>, key: Key)
    requires NoRepeats(older + Keys(entries)) && key !in Keys(entries)
    ensures Without(older, key) + Keys(entries) == Without(older + Keys(entries), key)
    ensures NoRepeats(Without(older, key) + Keys(entries))
  {
    WithoutJoins(older, Keys(entries), key);
    WithoutElements(Keys(entries), key);
    WithoutKeepsDistinct(older + Keys(entries), key);
  }

  lemma NewKeeps(older: seq<Key>, entries: seq<Entry>, e: Entry)
    requires NoRepeats(older + Keys(entries)) && e.key !in older + Keys(entries)
    ensures older + Keys(entries + [e]) == (older + Keys(entries)) + [e.key]
    ensures NoRepeats(older + Keys(entries + [e]))
    ensures Charges(entries + [e]) == Charges(entries) + e.charge
    ensures forall x | x in entries :: x.key != e.key
  {
    KeysAppend(older, entries, e);
    ChargesAppend(entries, e);
    NoRepeatsAppend(older + Keys(entries), e.key);
    forall x | x in entries ensures x.key != e.key {
      var i :| 0 <= i < |entries| && entries[i] == x;
      assert Keys(entries)[i] in older + Keys(entries);
    }
  }

  class PreparedWindow {
    const byteLimit: nat
    var frames: seq<Entry>
    var retainedBytes: nat
    var hits: nat
    var misses: nat
    var peakBytes: nat
    /** The last frame admitted for each key, and the admitted keys no longer held, by their last use. */
    ghost var admitted: map<Key, Frame>
    ghost var older: seq<Key>

    ghost predicate Valid()
      reads this
    {
      && retainedBytes == Charges(frames) && retainedBytes <= peakBytes <= byteLimit
      && |frames| <= MAX_ENTRIES
      && NoRepeats(older + Keys(frames))
      && Faithful(frames, admitted)
    }

    /** All admitted keys in the order of their last use; the held ones are the last of them. */
    ghost function ByUse(): seq<Key>
      reads this
    {
      older + Keys(frames)
    }

    constructor (byteLimit: nat)
      ensures Valid() && this.byteLimit == byteLimit
      ensures frames == [] && admitted == map[] && ByUse() == [] && hits == 0 && misses == 0 && peakBytes == 0
    {
      this.byteLimit := byteLimit;
      frames, retainedBytes, hits, misses, peakBytes := [], 0, 0, 0, 0;
      admitted, older := map[], [];
    }

    /** A hit is the last frame admitted for its key, which becomes the key used last; a miss changes nothing held. */
    method Get(key: Key, count: bool) returns (r: Option<Frame>)
      requires Valid()
      modifies `frames, `hits, `misses
      ensures Valid()
      ensures r.Some? <==> key in Keys(old(frames))
      ensures r.Some? ==> key in admitted && r.value == admitted[key] && ByUse() == Without(old(ByUse()), key) + [key]
      ensures |frames| == old(|frames|)
      ensures r.None? ==> frames == old(frames)
      ensures hits == old(hits) + (if r.Some? && count then 1 else 0)
      ensures misses == old(misses) + (if r.None? && count then 1 else 0)
    {
      var found := Find(frames, key);
      match found
      case None =>
        misses := misses + (if count then 1 else 0);
        return None;
      case Some(i) =>
        var e := frames[i];
        assert e in frames;
        HitKeeps(older, frames, i);
        HitCharges(frames, i);
        frames := Dropped(frames, i) + [e];
        hits := hits + (if count then 1 else 0);
        return Some(e.frame);
    }

    method DropEntry(i: nat)
      requires Valid() && i < |frames|
      modifies `frames, `retainedBytes
      ensures Valid() && frames == Dropped(old(frames), i)
      ensures ByUse() == Without(old(ByUse()), old(frames)[i].key)
    {
      DropKeeps(older, frames, i);
      DropFacts(frames, i);
      DropFaithful(frames, i, admitted);
      retainedBytes := retainedBytes - frames[i].charge;
      frames := Dropped(frames, i);
    }

    /** Takes the key's own entry out before it is replaced. */
    method Discard(key: Key)
      requires Valid()
      modifies `frames, `retainedBytes, `older
      ensures Valid() && frames == Removed(old(frames), key)
      ensures ByUse() == Without(old(ByUse()), key)
    {
      var found := Find(frames, key);
      match found
      case None =>
        DropOld(older, frames, key);
        older := Without(older, key);
      case Some(i) =>
        DropEntry(i);
    }

    method EvictOldest()
      requires Valid() && frames != []
      modifies `frames, `retainedBytes, `older
      ensures Valid() && ByUse() == old(ByUse()) && frames == old(frames)[1..]
    {
      assert older + Keys(frames) == (older + [frames[0].key]) + Keys(frames[1..]);
      forall x | x in frames[1..] ensures x in frames {}
      older := older + [frames[0].key];
      retainedBytes := retainedBytes - frames[0].charge;
      frames := frames[1..];
    }

    /** Evicts from the entry used longest ago, and no more than it takes to make a new entry fit. */
    method MakeRoom(charge: nat) returns (ghost evicted: nat)
      requires Valid()
      modifies `frames, `retainedBytes, `older
      ensures Valid() && ByUse() == old(ByUse())
      ensures frames == [] || Fits(frames, charge, byteLimit)
      ensures evicted <= |old(frames)| && frames == old(frames)[evicted..]
      ensures evicted > 0 ==> !Fits(old(frames)[evicted - 1..], charge, byteLimit)
    {
      evicted := 0;
      while frames != [] && (retainedBytes + charge > byteLimit || |frames| >= MAX_ENTRIES)
        invariant Valid() && ByUse() == old(ByUse())
        invariant evicted <= |old(frames)| && frames == old(frames)[evicted..]
        invariant evicted > 0 ==> !Fits(old(frames)[evicted - 1..], charge, byteLimit)
        decreases |frames|
      {
        assert frames[1..] == old(frames)[evicted + 1..];
        EvictOldest();
        evicted := evicted + 1;
      }
    }

    /** Puts an entry last whose key is nowhere in the order of use. */
    method Append(e: Entry)
      requires Valid() && e.key !in ByUse() && e.charge == OVERHEAD + e.frame.bytes
      requires retainedBytes + e.charge <= byteLimit && |frames| < MAX_ENTRIES
      modifies `frames, `retainedBytes, `peakBytes, `admitted
      ensures Valid() && admitted == old(admitted)[e.key := e.frame] && frames == old(frames) + [e]
      ensures ByUse() == old(ByUse()) + [e.key]
      ensures peakBytes == (if old(peakBytes) >= retainedBytes then old(peakBytes) else retainedBytes)
    {
      NewKeeps(older, frames, e);
      admitted := admitted[e.key := e.frame];
      frames := frames + [e];
      retainedBytes := retainedBytes + e.charge;
      peakBytes := if peakBytes >= retainedBytes then peakBytes else retainedBytes;
    }

    /** Admits a frame as the one used last, or ignores a frame larger than the whole store. */
    method Put(key: Key, frame: Frame) returns (ghost evicted: nat)
      requires Valid()
      modifies `frames, `retainedBytes, `peakBytes, `admitted, `older
      ensures Valid()
      ensures OVERHEAD + frame.bytes > byteLimit ==> unchanged(this)
      ensures OVERHEAD + frame.bytes <= byteLimit ==> admitted == old(admitted)[key := frame]
      ensures OVERHEAD + frame.bytes <= byteLimit ==> ByUse() == Without(old(ByUse()), key) + [key]
      ensures OVERHEAD + frame.bytes <= byteLimit ==>
                Evicts(Removed(old(frames), key), evicted, Entry(key, frame, OVERHEAD + frame.bytes), byteLimit, frames)
      ensures OVERHEAD + frame.bytes <= byteLimit ==>
                && evicted <= |Removed(old(frames), key)|
                && frames == Removed(old(frames), key)[evicted..] + [Entry(key, frame, OVERHEAD + frame.bytes)]
                && forall k | 0 <= k < evicted ::
                     !Fits(Removed(old(frames), key)[k..], OVERHEAD + frame.bytes, byteLimit)
      ensures OVERHEAD + frame.bytes <= byteLimit ==>
                peakBytes == (if old(peakBytes) >= retainedBytes then old(peakBytes) else retainedBytes)
    {
      var charge := OVERHEAD + frame.bytes;
      evicted := 0;
      if charge > byteLimit { return; }
      ghost var order := ByUse();
      Discard(key);
      evicted := MakeRoom(charge);
      WithoutElements(order, key);
      Append(Entry(key, frame, charge));
      forall k: nat | k < evicted ensures !Fits(Removed(old(frames), key)[k..], charge, byteLimit) {
        EvictionIsLeast(Removed(old(frames), key), evicted, Entry(key, frame, charge), byteLimit, frames, k);
      }
    }
  }
}
