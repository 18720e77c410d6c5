/** A bounded first-in-first-out cache from (pointer, action time) to session id. The specification
    is one association list in first-insertion order; the class keeps a hash map and a deque. */
module SessionCaches {
  import opened Prelude

  const CACHE_LIMIT := 64
  const INVALID_SESSION: nat := 0

  datatype Key = Key(pointerId: int, actionTime: int)
  datatype Entry = Entry(key: Key, session: nat)
  // ----- The association list -----

  predicate HasKey(entries: seq<Entry>, key: Key) {
    exists i :: 0 <= i < |entries| && entries[i].key == key
  }

  predicate DistinctKeys(entries: seq<Entry>) {
    forall i, j :: 0 <= i < j < |entries| ==> entries[i].key != entries[j].key
  }

  function Lookup(entries: seq<Entry>, key: Key): (session: Option<nat>)
    ensures session.Some? <==> HasKey(entries, key)
    ensures session.Some? ==> Entry(key, session.value) in entries
  {
    if entries == [] then None
    else if entries[0].key == key then
      assert entries[0] == Entry(key, entries[0].session);
      Some(entries[0].session)
    else
      assert forall i :: 0 < i < |entries| ==> entries[i] == entries[1..][i - 1];
      assert forall i :: 0 <= i < |entries| - 1 ==> entries[1..][i] == entries[i + 1];
      Lookup(entries[1..], key)
  }

  /** Updates in place, or appends. */
  function Put(entries: seq<Entry>, key: Key, session: nat): seq<Entry> {
    if entries == [] then [Entry(key, session)]
    else if entries[0].key == key then [Entry(key, session)] + entries[1..]
    else [entries[0]] + Put(entries[1..], key, session)
  }

  /** Drops the oldest entries beyond the limit. */
  function Trim(entries: seq<Entry>): seq<Entry> {
    if |entries| > CACHE_LIMIT then entries[|entries| - CACHE_LIMIT..] else entries
  }

  function Register(entries: seq<Entry>, pointerId: int, actionTime: int, session: nat): seq<Entry> {
    if pointerId < 0 || actionTime <= 0 || session == INVALID_SESSION then entries
    else Trim(Put(entries, Key(pointerId, actionTime), session))
  }

  function WithoutKey(entries: seq<Entry>, key: Key): seq<Entry> {
    if entries == [] then []
    else (if entries[0].key == key then [] else [entries[0]]) + WithoutKey(entries[1..], key)
  }

  function WithoutPointer(entries: seq<Entry>, pointerId: int): seq<Entry> {
    if entries == [] then []
    else (if entries[0].key.pointerId == pointerId then [] else [entries[0]]) + WithoutPointer(entries[1..], pointerId)
  }

  function ResetPointer(entries: seq<Entry>, pointerId: int): seq<Entry> {
    if pointerId < 0 then entries else WithoutPointer(entries, pointerId)
  }

  /** The youngest entry of a pointer. */
  function Latest(entries: seq<Entry>, pointerId: int): (entry: Option<Entry>)
    ensures entry.Some? ==> entry.value in entries && entry.value.key.pointerId == pointerId
    ensures entry.None? ==> forall e :: e in entries ==> e.key.pointerId != pointerId
  {
    if entries == [] then None
    else
      var last := entries[|entries| - 1];
      assert last in entries;
      if last.key.pointerId == pointerId then Some(last)
      else
        assert forall e :: e in entries ==> e == last || e in entries[..|entries| - 1];
        Latest(entries[..|entries| - 1], pointerId)
  }

  // ----- Facts about the list operations -----

  lemma {:induction false} PutFresh(entries: seq<Entry>, key: Key, session: nat)
    requires !HasKey(entries, key)
    ensures Put(entries, key, session) == entries + [Entry(key, session)]
  {
    if entries != [] {
      assert forall i :: 0 <= i < |entries[1..]| ==> entries[1..][i] == entries[i + 1];
      PutFresh(entries[1..], key, session);
    }
  }

  lemma {:induction false} PutPresent(entries: seq<Entry>, i: nat, session: nat)
    requires i < |entries| && DistinctKeys(entries)
    ensures Put(entries, entries[i].key, session) == entries[i := Entry(entries[i].key, session)]
  {
    if i > 0 {
      PutPresent(entries[1..], i - 1, session);
      assert entries[i := Entry(entries[i].key, session)]
        == [entries[0]] + entries[1..][i - 1 := Entry(entries[i].key, session)];
    }
  }

  lemma {:induction false} WithoutKeyContents(entries: seq<Entry>, key: Key)
    ensures forall e :: e in WithoutKey(entries, key) <==> e in entries && e.key != key
    ensures DistinctKeys(entries) ==> DistinctKeys(WithoutKey(entries, key))
    ensures |WithoutKey(entries, key)| <= |entries|
  {
    if entries != [] {
      WithoutKeyContents(entries[1..], key);
      assert forall e :: e in entries <==> e == entries[0] || e in entries[1..];
      DistinctTail(entries, WithoutKey(entries[1..], key));
    }
  }

  lemma {:induction false} WithoutPointerContents(entries: seq<Entry>, pointerId: int)
    ensures forall e :: e in WithoutPointer(entries, pointerId) <==> e in entries && e.key.pointerId != pointerId
    ensures DistinctKeys(entries) ==> DistinctKeys(WithoutPointer(entries, pointerId))
    ensures |WithoutPointer(entries, pointerId)| <= |entries|
  {
    if entries != [] {
      WithoutPointerContents(entries[1..], pointerId);
      assert forall e :: e in entries <==> e == entries[0] || e in entries[1..];
      DistinctTail(entries, WithoutPointer(entries[1..], pointerId));
    }
  }

  lemma DistinctTail(entries: seq<Entry>, rest: seq<Entry>)
    requires entries != [] && forall e :: e in rest ==> e in entries[1..]
    ensures DistinctKeys(entries) ==> DistinctKeys(entries[1..])
    ensures DistinctKeys(entries) && DistinctKeys(rest) ==> DistinctKeys([entries[0]] + rest)
  {
    if DistinctKeys(entries) && DistinctKeys(rest) {
      var whole := [entries[0]] + rest;
      forall i, j | 0 <= i < j < |whole|
        ensures whole[i].key != whole[j].key
      {
        assert whole[j] == rest[j - 1] && rest[j - 1] in entries[1..];
        if i > 0 {
          assert whole[i] == rest[i - 1];
        }
      }
    }
  }

  lemma PutKeeps(entries: seq<Entry>, key: Key, session: nat)
    requires DistinctKeys(entries)
    ensures var after := Put(entries, key, session);
      && DistinctKeys(after) && |entries| <= |after| <= |entries| + 1
      && forall e :: e in after ==> e in entries || e == Entry(key, session)
  {
    if HasKey(entries, key) {
      var i :| 0 <= i < |entries| && entries[i].key == key;
      PutPresent(entries, i, session);
    } else {
      PutFresh(entries, key, session);
    }
  }

  /** What registering keeps: distinct keys, the bound, and where each entry comes from. */
  lemma RegisterKeeps(entries: seq<Entry>, pointerId: int, actionTime: int, session: nat)
    requires DistinctKeys(entries) && |entries| <= CACHE_LIMIT
    ensures var after := Register(entries, pointerId, actionTime, session);
      && DistinctKeys(after) && |after| <= CACHE_LIMIT
      && forall e :: e in after ==> e in entries || e == Entry(Key(pointerId, actionTime), session)
  {
    PutKeeps(entries, Key(pointerId, actionTime), session);
  }

  /** Registering, exactly: nothing without a pointer, a time or a session; a known key is updated in place; a
      new one goes last, and pushes the oldest out if there are 64 already. */
  lemma RegisterExactly(entries: seq<Entry>, pointerId: int, actionTime: int, session: nat)
    requires DistinctKeys(entries) && |entries| <= 64
    ensures var key := Key(pointerId, actionTime);
      var after := Register(entries, pointerId, actionTime, session);
      && (pointerId < 0 || actionTime <= 0 || session == 0 ==> after == entries)
      && (pointerId >= 0 && actionTime > 0 && session != 0 ==>
            && (forall i :: 0 <= i < |entries| && entries[i].key == key ==> after == entries[i := Entry(key, session)])
            && ((forall i :: 0 <= i < |entries| ==> entries[i].key != key) ==>
                  after == (if |entries| == 64 then entries[1..] else entries) + [Entry(key, session)]))
  {
    var key := Key(pointerId, actionTime);
    if pointerId >= 0 && actionTime > 0 && session != 0 {
      if HasKey(entries, key) {
        forall i | 0 <= i < |entries| && entries[i].key == key
          ensures Register(entries, pointerId, actionTime, session) == entries[i := Entry(key, session)]
        {
          PutPresent(entries, i, session);
        }
      } else {
        PutFresh(entries, key, session);
        assert |entries| == 64 ==> (entries + [Entry(key, session)])[1..] == entries[1..] + [Entry(key, session)];
      }
    }
  }

  // ----- The latest entry of a pointer under the list operations -----

  lemma {:induction false} LatestAt(entries: seq<Entry>, pointerId: int, i: nat)
    requires i < |entries| && entries[i].key.pointerId == pointerId
    requires forall j :: i < j < |entries| ==> entries[j].key.pointerId != pointerId
    ensures Latest(entries, pointerId) == Some(entries[i])
    decreases |entries|
  {
    if i < |entries| - 1 {
      LatestAt(entries[..|entries| - 1], pointerId, i);
    }
  }

  lemma {:induction false} LatestIndex(entries: seq<Entry>, pointerId: int) returns (i: nat)
    requires Latest(entries, pointerId).Some?
    ensures i < |entries| && Latest(entries, pointerId) == Some(entries[i])
    ensures forall j :: i < j < |entries| ==> entries[j].key.pointerId != pointerId
    decreases |entries|
  {
    var n := |entries| - 1;
    if entries[n].key.pointerId == pointerId {
      i := n;
    } else {
      i := LatestIndex(entries[..n], pointerId);
    }
  }

  lemma {:induction false} NoLatest(entries: seq<Entry>, pointerId: int)
    requires forall e :: e in entries ==> e.key.pointerId != pointerId
    ensures Latest(entries, pointerId) == None
  {
    if entries != [] {
      assert entries[|entries| - 1] in entries;
      NoLatest(entries[..|entries| - 1], pointerId);
    }
  }

  /** Eviction removes the oldest entries first, so a pointer keeps its latest entry or loses all. */
  lemma LatestAfterTrim(entries: seq<Entry>, pointerId: int)
    ensures Latest(Trim(entries), pointerId) == None || Latest(Trim(entries), pointerId) == Latest(entries, pointerId)
  {
    if |entries| > CACHE_LIMIT {
      var cut := |entries| - CACHE_LIMIT;
      LatestOfSuffix(entries, cut, pointerId);
      assert Trim(entries) == entries[cut..];
    } else {
      assert Trim(entries) == entries;
    }
  }

  lemma {:induction false} LatestOfSuffix(entries: seq<Entry>, cut: nat, pointerId: int)
    requires cut <= |entries|
    ensures Latest(entries[cut..], pointerId) == None || Latest(entries[cut..], pointerId) == Latest(entries, pointerId)
    decreases |entries|
  {
    if cut < |entries| {
      var n := |entries| - 1;
      assert entries[cut..][n - cut] == entries[n] && entries[cut..][..n - cut] == entries[..n][cut..];
      LatestOfSuffix(entries[..n], cut, pointerId);
    }
  }

  /** Putting another pointer's entry changes nothing for this one; putting its own makes it the latest
      if the key is new or was the latest already, and otherwise leaves the latest as it was. */
  lemma LatestAfterPut(entries: seq<Entry>, key: Key, session: nat, pointerId: int)
    requires DistinctKeys(entries)
    ensures var before := Latest(entries, pointerId);
      Latest(Put(entries, key, session), pointerId) ==
        if key.pointerId == pointerId && (!HasKey(entries, key) || before.value.key == key)
        then Some(Entry(key, session)) else before
  {
    var after := Put(entries, key, session);
    var before := Latest(entries, pointerId);
    if HasKey(entries, key) {
      var i :| 0 <= i < |entries| && entries[i].key == key;
      PutPresent(entries, i, session);
      if before.None? {
        assert entries[i] in entries;
        forall e | e in after
          ensures e.key.pointerId != pointerId
        {
          var k :| 0 <= k < |after| && after[k] == e;
          assert entries[k] in entries;
        }
        NoLatest(after, pointerId);
      } else {
        var k := LatestIndex(entries, pointerId);
        LatestAt(after, pointerId, k);
      }
    } else {
      PutFresh(entries, key, session);
      assert after[..|entries|] == entries;
    }
  }

  lemma {:induction false} LatestAfterWithoutKey(entries: seq<Entry>, key: Key, pointerId: int)
    requires key.pointerId != pointerId
    ensures Latest(WithoutKey(entries, key), pointerId) == Latest(entries, pointerId)
    decreases |entries|
  {
    if entries != [] {
      var n := |entries| - 1;
      WithoutKeyAppend(entries[..n], [entries[n]], key);
      assert entries[..n] + [entries[n]] == entries;
      LatestAfterWithoutKey(entries[..n], key, pointerId);
      var front := WithoutKey(entries[..n], key);
      if entries[n].key == key {
        assert WithoutKey(entries, key) == front;
      } else {
        assert WithoutKey(entries, key) == front + [entries[n]];
        assert (front + [entries[n]])[..|front|] == front;
      }
    }
  }

  lemma {:induction false} WithoutKeyAppend(a: seq<Entry>, b: seq<Entry>, key: Key)
    ensures WithoutKey(a + b, key) == WithoutKey(a, key) + WithoutKey(b, key)
    decreases |a|
  {
    if a == [] {
      NothingAround(b);
    } else {
      HeadOfAppend(a, b);
      WithoutKeyAppend(a[1..], b, key);
      Assoc(if a[0].key == key then [] else [a[0]], WithoutKey(a[1..], key), WithoutKey(b, key));
    }
  }

  lemma {:induction false} WithoutPointerAppend(a: seq<Entry>, b: seq<Entry>, pointerId: int)
    ensures WithoutPointer(a + b, pointerId) == WithoutPointer(a, pointerId) + WithoutPointer(b, pointerId)
    decreases |a|
  {
    if a == [] {
      NothingAround(b);
    } else {
      HeadOfAppend(a, b);
      WithoutPointerAppend(a[1..], b, pointerId);
      Assoc(if a[0].key.pointerId == pointerId then [] else [a[0]],
            WithoutPointer(a[1..], pointerId), WithoutPointer(b, pointerId));
    }
  }

  lemma {:induction false} LatestAfterWithoutPointer(entries: seq<Entry>, other: int, pointerId: int)
    requires other != pointerId
    ensures Latest(WithoutPointer(entries, other), pointerId) == Latest(entries, pointerId)
    decreases |entries|
  {
    if entries != [] {
      var n := |entries| - 1;
      WithoutPointerAppend(entries[..n], [entries[n]], other);
      assert entries[..n] + [entries[n]] == entries;
      LatestAfterWithoutPointer(entries[..n], other, pointerId);
      var front := WithoutPointer(entries[..n], other);
      if entries[n].key.pointerId == other {
        assert WithoutPointer(entries, other) == front;
      } else {
        assert WithoutPointer(entries, other) == front + [entries[n]];
        assert (front + [entries[n]])[..|front|] == front;
      }
    }
  }

  // ----- The map and the deque -----

  function EntriesOf(order: seq<Key>, sessions: map<Key, nat>): (entries: seq<Entry>)
    requires forall k :: k in order ==> k in sessions
    ensures |entries| == |order|
    ensures forall i :: 0 <= i < |order| ==> entries[i] == Entry(order[i], sessions[order[i]])
  {
    seq(|order|, i requires 0 <= i < |order| => Entry(order[i], sessions[order[i]]))
  }

  function KeysWithout(order: seq<Key>, key: Key): seq<Key> {
    if order == [] then [] else (if order[0] == key then [] else [order[0]]) + KeysWithout(order[1..], key)
  }

  function KeysWithoutPointer(order: seq<Key>, pointerId: int): seq<Key> {
    if order == [] then []
    else (if order[0].pointerId == pointerId then [] else [order[0]]) + KeysWithoutPointer(order[1..], pointerId)
  }

  lemma {:induction false} KeysWithoutMember(order: seq<Key>, key: Key)
    ensures forall k :: k in KeysWithout(order, key) <==> k in order && k != key
    decreases |order|
  {
    if order != [] {
      KeysWithoutMember(order[1..], key);
      assert forall k :: k in order <==> k == order[0] || k in order[1..];
    }
  }

  lemma EntriesCons(key: Key, order: seq<Key>, sessions: map<Key, nat>)
    requires key in sessions && forall k :: k in order ==> k in sessions
    ensures EntriesOf([key] + order, sessions) == [Entry(key, sessions[key])] + EntriesOf(order, sessions)
  {
  }

  lemma {:induction false} KeysWithoutEntries(order: seq<Key>, key: Key, sessions: map<Key, nat>)
    requires forall k :: k in order ==> k in sessions
    ensures forall k :: k in KeysWithout(order, key) ==> k in sessions - {key}
    ensures EntriesOf(KeysWithout(order, key), sessions - {key}) == WithoutKey(EntriesOf(order, sessions), key)
    decreases |order|
  {
    KeysWithoutMember(order, key);
    if order != [] {
      KeysWithoutEntries(order[1..], key, sessions);
      assert EntriesOf(order, sessions)[1..] == EntriesOf(order[1..], sessions);
      if order[0] != key {
        EntriesCons(order[0], KeysWithout(order[1..], key), sessions - {key});
      } else {
        NothingAround(KeysWithout(order[1..], key));
      }
    }
  }

  function PointerKeys(sessions: map<Key, nat>, pointerId: int): set<Key> {
    set k | k in sessions && k.pointerId == pointerId
  }

  lemma {:induction false} KeysWithoutPointerMember(order: seq<Key>, pointerId: int)
    ensures forall k :: k in KeysWithoutPointer(order, pointerId) <==> k in order && k.pointerId != pointerId
    decreases |order|
  {
    if order != [] {
      KeysWithoutPointerMember(order[1..], pointerId);
      assert forall k :: k in order <==> k == order[0] || k in order[1..];
    }
  }

  lemma {:induction false} KeysWithoutPointerEntries(order: seq<Key>, pointerId: int, sessions: map<Key, nat>)
    requires forall k :: k in order ==> k in sessions
    ensures forall k :: k in KeysWithoutPointer(order, pointerId) ==> k in sessions - PointerKeys(sessions, pointerId)
    ensures EntriesOf(KeysWithoutPointer(order, pointerId), sessions - PointerKeys(sessions, pointerId))
              == WithoutPointer(EntriesOf(order, sessions), pointerId)
    decreases |order|
  {
    KeysWithoutPointerMember(order, pointerId);
    if order != [] {
      KeysWithoutPointerEntries(order[1..], pointerId, sessions);
      assert EntriesOf(order, sessions)[1..] == EntriesOf(order[1..], sessions);
      if order[0].pointerId != pointerId {
        EntriesCons(order[0], KeysWithoutPointer(order[1..], pointerId), sessions - PointerKeys(sessions, pointerId));
      } else {
        NothingAround(KeysWithoutPointer(order[1..], pointerId));
      }
    }
  }

  /** Adding or replacing a key in map and deque is `Put` on the list. */
  lemma {:induction false} PutOnMap(order: seq<Key>, sessions: map<Key, nat>, key: Key, session: nat)
    requires forall k :: k in order <==> k in sessions
    requires DistinctKeys(EntriesOf(order, sessions))
    ensures var order' := if key in sessions then order else order + [key];
      && (forall k :: k in order' <==> k in sessions[key := session])
      && EntriesOf(order', sessions[key := session]) == Put(EntriesOf(order, sessions), key, session)
  {
    if key in sessions {
      ReplaceOnMap(order, sessions, key, session);
    } else {
      AppendOnMap(order, sessions, key, session);
    }
  }

  lemma AppendOnMap(order: seq<Key>, sessions: map<Key, nat>, key: Key, session: nat)
    requires key !in sessions && forall k :: k in order ==> k in sessions
    ensures EntriesOf(order + [key], sessions[key := session]) == Put(EntriesOf(order, sessions), key, session)
  {
    var before := EntriesOf(order, sessions);
    forall i | 0 <= i < |before|
      ensures before[i].key != key
    {
      assert order[i] in order;
    }
    PutFresh(before, key, session);
  }

  lemma ReplaceOnMap(order: seq<Key>, sessions: map<Key, nat>, key: Key, session: nat)
    requires key in order && forall k :: k in order ==> k in sessions
    requires DistinctKeys(EntriesOf(order, sessions))
    ensures EntriesOf(order, sessions[key := session]) == Put(EntriesOf(order, sessions), key, session)
  {
    var before := EntriesOf(order, sessions);
    var i :| 0 <= i < |order| && order[i] == key;
    PutPresent(before, i, session);
    var after := EntriesOf(order, sessions[key := session]);
    forall j | 0 <= j < |order|
      ensures after[j] == before[i := Entry(key, session)][j]
    {
      if j != i {
        assert before[if j < i then j else i].key != before[if j < i then i else j].key;
      }
    }
  }

  /** Stable removal of one key from a deque. */
  method RemoveKey(order: seq<Key>, key: Key) returns (kept: seq<Key>)
    ensures kept == KeysWithout(order, key)
  {
    kept := [];
    var i := 0;
    while i < |order|
      invariant i <= |order|
      invariant kept + KeysWithout(order[i..], key) == KeysWithout(order, key)
    {
      if order[i] != key {
        kept := kept + [order[i]];
      }
      i := i + 1;
    }
  }

  /** Stable removal of all keys of a pointer from a deque. */
  method RemovePointer(order: seq<Key>, pointerId: int) returns (kept: seq<Key>)
    ensures kept == KeysWithoutPointer(order, pointerId)
  {
    kept := [];
    var i := 0;
    while i < |order|
      invariant i <= |order|
      invariant kept + KeysWithoutPointer(order[i..], pointerId) == KeysWithoutPointer(order, pointerId)
    {
      if order[i].pointerId != pointerId {
        kept := kept + [order[i]];
      }
      i := i + 1;
    }
  }

  /** Invariant: the deque holds each key of the map exactly once, and at most 64 of them. */
  class SessionCache {
    var sessions: map<Key, nat>
    var order: seq<Key>

    ghost predicate Valid()
      reads this
    {
      && (forall k :: k in order <==> k in sessions)
      && DistinctKeys(EntriesOf(order, sessions))
      && |order| <= CACHE_LIMIT
    }

    ghost function Entries(): seq<Entry>
      requires Valid()
      reads this
    {
      EntriesOf(order, sessions)
    }

    constructor ()
      ensures Valid() && Entries() == []
    {
      sessions, order := map[], [];
    }

    method RegisterLocked(pointerId: int, actionTime: int, sessionId: nat)
      requires Valid()
      modifies this
      ensures Valid() && Entries() == Register(old(Entries()), pointerId, actionTime, sessionId)
    {
      if pointerId < 0 || actionTime <= 0 || sessionId == INVALID_SESSION {
        return;
      }
      var key := Key(pointerId, actionTime);
      PutKeeps(Entries(), key, sessionId);
      PutOnMap(order, sessions, key, sessionId);
      if key !in sessions {
        order := order + [key];
      }
      sessions := sessions[key := sessionId];
      EvictBeyondLimit();
    }

    /** The eviction loop that ends a registration: at most one entry is over the limit, but the loop
        would bring any number down. */
    method EvictBeyondLimit()
      requires forall k :: k in order <==> k in sessions
      requires DistinctKeys(EntriesOf(order, sessions))
      modifies this
      ensures Valid() && Entries() == Trim(old(EntriesOf(order, sessions)))
    {
      ghost var all := EntriesOf(order, sessions);
      ghost var dropped := 0;
      while |order| > CACHE_LIMIT
        invariant forall k :: k in order <==> k in sessions
        invariant 0 <= dropped && |order| == |all| - dropped && EntriesOf(order, sessions) == all[dropped..]
        invariant dropped > 0 ==> |order| >= CACHE_LIMIT
        decreases |order|
      {
        var oldest := order[0];
        DistinctSuffix(all, dropped);
        EvictOldest(order, sessions);
        SuffixStep(all, dropped);
        dropped := dropped + 1;
        order := order[1..];
        sessions := sessions - {oldest};
      }
      DistinctSuffix(all, dropped);
    }

    method FindLatest(pointerId: int) returns (sessionId: nat, matched: Option<Key>)
      requires Valid()
      ensures var latest := Latest(Entries(), pointerId);
        if pointerId < 0 || latest.None? then sessionId == INVALID_SESSION && matched == None
        else matched.Some? && latest == Some(Entry(matched.value, sessionId))
    {
      sessionId, matched := INVALID_SESSION, None;
      if pointerId < 0 {
        return;
      }
      ghost var entries := Entries();
      var i := |order|;
      while i > 0
        invariant 0 <= i <= |order| == |entries|
        invariant forall j :: i <= j < |order| ==> entries[j].key.pointerId != pointerId
      {
        i := i - 1;
        if order[i].pointerId != pointerId {
          continue;
        }
        if order[i] !in sessions {
          continue;
        }
        LatestAt(entries, pointerId, i);
        return sessions[order[i]], Some(order[i]);
      }
      NoLatest(entries, pointerId);
    }

    method Consume(key: Key)
      requires Valid()
      modifies this
      ensures Valid() && Entries() == WithoutKey(old(Entries()), key)
    {
      KeysWithoutEntries(order, key, sessions);
      KeysWithoutMember(order, key);
      WithoutKeyContents(Entries(), key);
      sessions := sessions - {key};
      order := RemoveKey(order, key);
    }

    method ResetPointerLocked(pointerId: int)
      requires Valid()
      modifies this
      ensures Valid() && Entries() == ResetPointer(old(Entries()), pointerId)
    {
      if pointerId < 0 {
        return;
      }
      KeysWithoutPointerEntries(order, pointerId, sessions);
      KeysWithoutPointerMember(order, pointerId);
      WithoutPointerContents(Entries(), pointerId);
      var left := sessions.Keys;
      while left != {}
        invariant left <= sessions.Keys
        invariant forall k :: k in sessions <==> k in old(sessions) && (k.pointerId != pointerId || k in left)
        invariant forall k :: k in sessions ==> sessions[k] == old(sessions)[k]
        invariant order == old(order)
        decreases left
      {
        var key :| key in left;
        left := left - {key};
        if key.pointerId == pointerId {
          sessions := sessions - {key};
        }
      }
      assert sessions == old(sessions) - PointerKeys(old(sessions), pointerId);
      order := RemovePointer(order, pointerId);
    }

    method Find(key: Key) returns (session: Option<nat>)
      requires Valid()
      ensures session == Lookup(Entries(), key)
    {
      if key in sessions {
        LookupEntry(Entries(), key, sessions[key]);
        session := Some(sessions[key]);
      } else {
        session := None;
      }
    }
  }

  lemma {:induction false} LookupEntry(entries: seq<Entry>, key: Key, session: nat)
    requires DistinctKeys(entries) && Entry(key, session) in entries
    ensures Lookup(entries, key) == Some(session)
  {
    if entries[0] != Entry(key, session) {
      LookupEntry(entries[1..], key, session);
      var i :| 0 <= i < |entries| && entries[i] == Entry(key, session);
      assert entries[0].key != entries[i].key;
    }
  }

  lemma DistinctSuffix(entries: seq<Entry>, i: nat)
    requires i <= |entries| && DistinctKeys(entries)
    ensures DistinctKeys(entries[i..])
  {
  }

  lemma EvictOldest(order: seq<Key>, sessions: map<Key, nat>)
    requires order != [] && forall k :: k in order <==> k in sessions
    requires DistinctKeys(EntriesOf(order, sessions))
    ensures forall k :: k in order[1..] <==> k in sessions - {order[0]}
    ensures EntriesOf(order[1..], sessions - {order[0]}) == EntriesOf(order, sessions)[1..]
  {
    var entries := EntriesOf(order, sessions);
    forall k
      ensures k in order[1..] <==> k in sessions - {order[0]}
    {
      if k in order[1..] {
        var i :| 0 <= i < |order[1..]| && order[1..][i] == k;
        assert entries[0].key != entries[i + 1].key;
      }
    }
  }
}
