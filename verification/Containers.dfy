/** The bounded containers of utils.rs: a map that forgets its oldest key, and a queue that drops its oldest element. */
module Containers {

  // ------------------------------------------------------------ keys in order of last insertion

  /** `s` without `k`: VecDeque::retain. */
  function Without<K(==,!new)>(s: seq<K>, k: K): (r: seq<K>)
    ensures forall x :: x in r <==> x in s && x != k
    ensures |r| <= |s|
  {
    if s == [] then []
    else if s[|s| - 1] == k then Without(s[..|s| - 1], k)
    else Without(s[..|s| - 1], k) + [s[|s| - 1]]
  }

  ghost predicate Distinct<K(!new)>(s: seq<K>) {
    forall i, j :: 0 <= i < j < |s| ==> s[i] != s[j]
  }

  lemma {:induction false} WithoutDistinct<K(!new)>(s: seq<K>, k: K)
    requires Distinct(s)
    ensures Distinct(Without(s, k))
    ensures k in s ==> |Without(s, k)| == |s| - 1
    ensures k !in s ==> Without(s, k) == s
  {
    if s != [] {
      var front := s[..|s| - 1];
      WithoutDistinct(front, k);
      if s[|s| - 1] == k {
        assert k !in front;
      } else {
        assert s[|s| - 1] !in front;
        assert k in s <==> k in front;
        assert s == front + [s[|s| - 1]];
      }
    }
  }

  function KeysOf<K(==,!new)>(s: seq<K>): (r: set<K>) {
    set k | k in s
  }

  lemma KeysOfLast<K(!new)>(front: seq<K>, k: K)
    requires Distinct(front + [k])
    ensures k !in KeysOf(front) && KeysOf(front + [k]) == KeysOf(front) + {k}
  {
    var s := front + [k];
    assert forall i :: 0 <= i < |front| ==> s[i] != s[|front|] && front[i] == s[i];
  }

  lemma {:induction false} DistinctSize<K(!new)>(s: seq<K>)
    requires Distinct(s)
    ensures |KeysOf(s)| == |s|
  {
    if s != [] {
      var front := s[..|s| - 1];
      DistinctSize(front);
      KeysOfLast(front, s[|s| - 1]);
      assert s == front + [s[|s| - 1]];
    }
  }

  /** The last n elements. */
  function LastOf<K>(s: seq<K>, n: nat): seq<K> {
    if |s| <= n then s else s[|s| - n..]
  }

  // ------------------------------------------------------------ the map

  /** Contents of a LimitedHashMap. */
  datatype Limited<K(==), V> = Limited(order: seq<K>, entries: map<K, V>)

  /** The order lists every key of the map once, and nothing else. */
  ghost predicate Consistent<K(!new), V>(m: Limited<K, V>) {
    Distinct(m.order) && forall k :: k in m.order <==> k in m.entries
  }

  lemma ConsistentSize<K(!new), V>(m: Limited<K, V>)
    requires Consistent(m)
    ensures |m.entries| == |m.order|
  {
    DistinctSize(m.order);
    assert KeysOf(m.order) == m.entries.Keys;
  }

  /** The newest keys, with their values. */
  function Trimmed<K(==,!new), V>(m: Limited<K, V>, maxSize: nat): Limited<K, V> {
    var order := LastOf(m.order, maxSize);
    Limited(order, map k | k in m.entries && k in order :: m.entries[k])
  }

  /** The key becomes the newest, whatever it was before; then only the newest remain. */
  function Inserted<K(==,!new), V>(m: Limited<K, V>, k: K, v: V, maxSize: nat): Limited<K, V> {
    Trimmed(Limited(Without(m.order, k) + [k], m.entries[k := v]), maxSize)
  }

  function Removed<K(==,!new), V>(m: Limited<K, V>, k: K): Limited<K, V> {
    Limited(Without(m.order, k), m.entries - {k})
  }

  lemma LastOfDistinct<K(!new)>(s: seq<K>, n: nat)
    requires Distinct(s)
    ensures Distinct(LastOf(s, n))
  {
  }

  lemma TrimmedConsistent<K(!new), V>(m: Limited<K, V>, maxSize: nat)
    requires Consistent(m)
    ensures Consistent(Trimmed(m, maxSize)) && |Trimmed(m, maxSize).order| <= maxSize
  {
    LastOfDistinct(m.order, maxSize);
    var order := LastOf(m.order, maxSize);
    assert forall k :: k in order ==> k in m.order;
  }

  lemma WithConsistent<K(!new), V>(m: Limited<K, V>, k: K, v: V)
    requires Consistent(m)
    ensures Consistent(Limited(Without(m.order, k) + [k], m.entries[k := v]))
    ensures |Without(m.order, k) + [k]| <= |m.order| + 1
  {
    WithoutDistinct(m.order, k);
  }

  lemma RemovedConsistent<K(!new), V>(m: Limited<K, V>, k: K)
    requires Consistent(m)
    ensures Consistent(Removed(m, k)) && |Removed(m, k).order| <= |m.order|
  {
    WithoutDistinct(m.order, k);
  }

  /** Dropping the oldest key drops exactly that key. */
  lemma DropOldest<K(!new), V>(m: Limited<K, V>, n: nat)
    requires Consistent(m) && |m.order| == n + 1
    ensures Limited(m.order[1..], m.entries - {m.order[0]}) == Trimmed(m, n)
  {
    var order := m.order[1..];
    assert LastOf(m.order, n) == order;
    forall k | k in m.entries ensures k in order <==> k != m.order[0] {
      assert m.order == [m.order[0]] + order && k in m.order;
    }
  }

  /** Trimming in steps is trimming at once. */
  lemma TrimTwice<K(!new), V>(m: Limited<K, V>, a: nat, b: nat)
    requires Consistent(m) && b <= a
    ensures Trimmed(Trimmed(m, a), b) == Trimmed(m, b)
  {
    hide LastOf, Consistent;
    LastOfTwice(m.order, a, b);
  }

  lemma LastOfTwice<K(!new)>(s: seq<K>, a: nat, b: nat)
    requires b <= a
    ensures LastOf(LastOf(s, a), b) == LastOf(s, b)
    ensures forall k :: k in LastOf(s, b) ==> k in LastOf(s, a)
  {
  }

  lemma TrimNothing<K(!new), V>(m: Limited<K, V>, n: nat)
    requires Consistent(m) && |m.order| <= n
    ensures Trimmed(m, n) == m
  {
  }

  /** The order lists a key exactly if the map has it. */
  lemma OrderLists<K(!new), V>(m: Limited<K, V>, k: K)
    requires Consistent(m)
    ensures k in m.order <==> k in m.entries
    ensures k !in m.entries ==> Without(m.order, k) == m.order
  {
    WithoutDistinct(m.order, k);
  }

  /** What an insertion does: nothing is lost while there is room, and after that only the oldest key. */
  lemma InsertedPlainly<K(!new), V>(m: Limited<K, V>, k: K, v: V, maxSize: nat)
    requires Consistent(m) && |m.order| <= maxSize
    ensures var r := Inserted(m, k, v, maxSize);
      && (k in m.entries || |m.order| < maxSize ==> r.entries == m.entries[k := v])
      && (k !in m.entries && |m.order| == maxSize >= 1 ==>
            r.order == m.order[1..] + [k] && r.entries == (m.entries - {m.order[0]})[k := v])
  {
    hide Trimmed, Consistent;
    OrderLists(m, k);
    WithConsistent(m, k, v);
    KnownKey(m, k);
    var next := Limited(Without(m.order, k) + [k], m.entries[k := v]);
    if k in m.entries || |m.order| < maxSize {
      TrimNothing(next, maxSize);
    } else if maxSize >= 1 {
      DropOldest(next, maxSize);
      assert next.order[0] == m.order[0] && next.order[1..] == m.order[1..] + [k];
      assert m.order[0] in m.order;
      OrderLists(m, m.order[0]);
      assert m.entries[k := v] - {m.order[0]} == (m.entries - {m.order[0]})[k := v];
    }
  }

  lemma KnownKey<K(!new), V>(m: Limited<K, V>, k: K)
    requires Consistent(m)
    ensures |Without(m.order, k)| == if k in m.entries then |m.order| - 1 else |m.order|
  {
    WithoutDistinct(m.order, k);
  }

  /** What trimming does: the newest keys stay, in their order and with their values. */
  lemma TrimmedPlainly<K(!new), V>(m: Limited<K, V>, maxSize: nat)
    requires Consistent(m)
    ensures var r := Trimmed(m, maxSize);
      && |r.order| == (if |m.order| <= maxSize then |m.order| else maxSize)
      && r.order == m.order[|m.order| - |r.order|..]
      && forall k :: k in r.entries ==> k in m.entries && r.entries[k] == m.entries[k]
  {
  }

  // ------------------------------------------------------------ the newest keys of a whole history

  /** The map after a history of insertions into an empty one. */
  function RunInserts<K(==,!new), V>(history: seq<(K, V)>, maxSize: nat): Limited<K, V> {
    if history == [] then Limited([], map[])
    else
      var last := history[|history| - 1];
      Inserted(RunInserts(history[..|history| - 1], maxSize), last.0, last.1, maxSize)
  }

  /** All keys that were ever inserted, ordered by their last insertion. */
  function Recent<K(==,!new), V>(history: seq<(K, V)>): seq<K> {
    if history == [] then []
    else
      var k := history[|history| - 1].0;
      Without(Recent(history[..|history| - 1]), k) + [k]
  }

  /** The value that a key was last inserted with. */
  ghost predicate LastInserted<K(!new), V>(history: seq<(K, V)>, k: K, v: V) {
    exists i :: 0 <= i < |history| && history[i] == (k, v) && forall j :: i < j < |history| ==> history[j].0 != k
  }

  lemma {:induction false} RecentDistinct<K(!new), V>(history: seq<(K, V)>)
    ensures Distinct(Recent(history))
  {
    if history != [] {
      RecentDistinct(history[..|history| - 1]);
      WithoutDistinct(Recent(history[..|history| - 1]), history[|history| - 1].0);
    }
  }

  lemma {:induction false} WithoutConcat<K(!new)>(a: seq<K>, b: seq<K>, k: K)
    ensures Without(a + b, k) == Without(a, k) + Without(b, k)
  {
    if b == [] {
      assert a + b == a;
    } else {
      WithoutConcat(a, b[..|b| - 1], k);
      assert (a + b)[..|a + b| - 1] == a + b[..|b| - 1];
    }
  }

  /** Forgetting old keys before an insertion changes nothing about the newest keys after it. */
  lemma InsertAfterForgetting<K(!new)>(keys: seq<K>, k: K, n: nat)
    requires Distinct(keys)
    ensures LastOf(Without(LastOf(keys, n), k) + [k], n) == LastOf(Without(keys, k) + [k], n)
  {
    hide Without, Distinct;
    if |keys| > n {
      var a, b := keys[..|keys| - n], keys[|keys| - n..];
      assert keys == a + b;
      assert Distinct(b) by { LastOfDistinct(keys, n); }
      WithoutConcat(a, b, k);
      WithoutDistinct(b, k);
      LastOfJoin(Without(a, k), Without(b, k) + [k], n);
      assert Without(keys, k) + [k] == Without(a, k) + (Without(b, k) + [k]);
    }
  }

  lemma LastOfJoin<K>(x: seq<K>, y: seq<K>, n: nat)
    requires |y| >= n
    ensures LastOf(x + y, n) == LastOf(y, n)
  {
  }

  /**
   After any history of insertions the map holds exactly the last maxSize distinct keys by last insertion,
   in that order, each with the value of its last insertion.
   */
  lemma {:induction false} HoldsNewest<K(!new), V>(history: seq<(K, V)>, maxSize: nat)
    ensures var m := RunInserts(history, maxSize);
      && Consistent(m) && m.order == LastOf(Recent(history), maxSize)
      && forall k :: k in m.entries ==> LastInserted(history, k, m.entries[k])
  {
    hide Without, LastOf;
    if history == [] {
      assert LastOf(Recent(history), maxSize) == [] by { LastOfEmpty<K>(maxSize); }
    } else {
      var front, last := history[..|history| - 1], history[|history| - 1];
      HoldsNewest(front, maxSize);
      RecentDistinct(front);
      InsertAfterForgetting(Recent(front), last.0, maxSize);
      var before := RunInserts(front, maxSize);
      WithConsistent(before, last.0, last.1);
      TrimmedConsistent(Limited(Without(before.order, last.0) + [last.0], before.entries[last.0 := last.1]), maxSize);
      var m := RunInserts(history, maxSize);
      forall k | k in m.entries ensures LastInserted(history, k, m.entries[k]) {
        LastInsertedNext(front, last, k, if k == last.0 then last.1 else before.entries[k]);
        assert history == front + [last];
      }
    }
  }

  lemma LastOfEmpty<K>(n: nat)
    ensures LastOf<K>([], n) == []
  {
  }

  lemma LastInsertedNext<K(!new), V>(front: seq<(K, V)>, last: (K, V), k: K, v: V)
    requires if k == last.0 then v == last.1 else LastInserted(front, k, v)
    ensures LastInserted(front + [last], k, v)
  {
    var h := front + [last];
    if k == last.0 {
      assert h[|front|] == (k, v);
    } else {
      var i :| 0 <= i < |front| && front[i] == (k, v) && forall j :: i < j < |front| ==> front[j].0 != k;
      assert h[i] == (k, v) && forall j :: i < j < |h| ==> h[j].0 != k;
    }
  }

  datatype Option<T> = None | Some(value: T)

  /** LimitedHashMap. */
  class LimitedHashMap<K(==,!new), V> {
    var entries: map<K, V>
    var order: seq<K>
    var maxSize: nat

    ghost predicate Valid()
      reads this
    {
      Consistent(Contents()) && |order| <= maxSize
    }

    function Contents(): Limited<K, V>
      reads this
    {
      Limited(order, entries)
    }

    constructor (maxSize: nat)
      ensures Valid() && Contents() == Limited([], map[]) && this.maxSize == maxSize
    {
      entries, order, this.maxSize := map[], [], maxSize;
    }

    /** The state before a receiver has connected: room for one entry. */
    constructor Void()
      ensures Valid() && Contents() == Limited([], map[]) && maxSize == 1
    {
      entries, order, maxSize := map[], [], 1;
    }

    method Insert(key: K, value: V)
      requires Valid()
      modifies this
      ensures Valid() && Contents() == Inserted(old(Contents()), key, value, maxSize) && maxSize == old(maxSize)
      ensures key in old(entries) || |old(order)| < maxSize ==> entries == old(entries)[key := value]
      ensures key !in old(entries) && |old(order)| == maxSize >= 1 ==>
        && order == old(order)[1..] + [key]
        && entries == (old(entries) - {old(order)[0]})[key := value]
    {
      hide Trimmed, Consistent;
      ghost var before := Contents();
      InsertedPlainly(before, key, value, maxSize);
      WithConsistent(before, key, value);
      OrderLists(before, key);
      if key in entries {
        order := Without(order, key);
      }
      entries := entries[key := value];
      order := order + [key];
      ConsistentSize(Contents());
      TrimmedConsistent(Contents(), maxSize);
      if |entries| > maxSize {
        DropFront(maxSize);
      } else {
        TrimNothing(Contents(), maxSize);
      }
    }

    function Get(key: K): Option<V>
      reads this
    {
      if key in entries then Some(entries[key]) else None
    }

    method Remove(key: K) returns (r: Option<V>)
      requires Valid()
      modifies this
      ensures Valid() && Contents() == Removed(old(Contents()), key) && maxSize == old(maxSize)
      ensures r == old(Get(key))
    {
      RemovedConsistent(Contents(), key);
      WithoutDistinct(order, key);
      r := Get(key);
      if key in entries {
        order := Without(order, key);
      }
      entries := entries - {key};
    }

    /** pop_front, and the removal of that key from the map. */
    method DropFront(ghost n: nat)
      requires Consistent(Contents()) && |order| == n + 1
      modifies this
      ensures Contents() == Trimmed(old(Contents()), n) && Consistent(Contents()) && |order| == |entries| == n
      ensures maxSize == old(maxSize)
    {
      DropOldest(Contents(), n);
      TrimmedConsistent(Contents(), n);
      var oldest := order[0];
      order := order[1..];
      entries := entries - {oldest};
      ConsistentSize(Contents());
    }

    /** Drops the oldest entries until the map fits; the loop ends because the order lists every key. */
    method SetMaxSize(maxSize: nat)
      requires Valid()
      modifies this
      ensures Valid() && Contents() == Trimmed(old(Contents()), maxSize) && this.maxSize == maxSize
      ensures |order| == if |old(order)| <= maxSize then |old(order)| else maxSize
      ensures order == old(order)[|old(order)| - |order|..]
      ensures forall k :: k in entries ==> k in old(entries) && entries[k] == old(entries)[k]
    {
      hide Trimmed, Consistent;
      this.maxSize := maxSize;
      TrimmedPlainly(Contents(), maxSize);
      ghost var before, n := Contents(), |order|;
      TrimNothing(before, n);
      ConsistentSize(before);
      while |entries| > maxSize
        invariant Consistent(Contents()) && |order| == |entries| == n <= |before.order| && this.maxSize == maxSize
        invariant Contents() == Trimmed(before, n) && (n >= maxSize || n == |before.order|)
        decreases |entries|
      {
        TrimTwice(before, n, n - 1);
        DropFront(n - 1);
        n := n - 1;
      }
      if n < maxSize {
        TrimNothing(before, maxSize);
      }
    }
  }

  // ------------------------------------------------------------ the queue

  /** What became of an element that has left the queue. */
  datatype Fate<K> = Taken(item: K) | Dropped(item: K)

  function Items<K>(gone: seq<Fate<K>>): (r: seq<K>)
    ensures |r| == |gone|
    ensures forall i :: 0 <= i < |gone| ==> r[i] == gone[i].item
  {
    seq(|gone|, i requires 0 <= i < |gone| => gone[i].item)
  }

  function Drops<K>(gone: seq<Fate<K>>): nat {
    if gone == [] then 0 else Drops(gone[..|gone| - 1]) + if gone[|gone| - 1].Dropped? then 1 else 0
  }

  /** What the consumer has got, in the order it got it. */
  function Delivered<K>(gone: seq<Fate<K>>): seq<K> {
    if gone == [] then []
    else Delivered(gone[..|gone| - 1]) + if gone[|gone| - 1].Taken? then [gone[|gone| - 1].item] else []
  }

  ghost predicate PicksInOrder<K(!new)>(sub: seq<K>, s: seq<K>, at: seq<nat>) {
    && |at| == |sub|
    && (forall i :: 0 <= i < |at| ==> at[i] < |s| && s[at[i]] == sub[i])
    && forall i, j :: 0 <= i < j < |at| ==> at[i] < at[j]
  }

  /** The elements of `sub` occur in `s`, in the same order. */
  ghost predicate IsSubsequence<K(!new)>(sub: seq<K>, s: seq<K>) {
    exists at :: PicksInOrder(sub, s, at)
  }

  lemma {:induction false} DeliveredInOrder<K(!new)>(gone: seq<Fate<K>>, queue: seq<K>)
    ensures IsSubsequence(Delivered(gone), Items(gone) + queue)
  {
    if gone == [] {
      assert PicksInOrder(Delivered(gone), Items(gone) + queue, []);
    } else {
      var front, last := gone[..|gone| - 1], gone[|gone| - 1];
      DeliveredInOrder(front, []);
      PickMore(Delivered(front), Items(front), last.item, queue, last.Taken?);
      ItemsLast(gone, queue);
    }
  }

  lemma ItemsLast<K(!new)>(gone: seq<Fate<K>>, queue: seq<K>)
    requires gone != []
    ensures Items(gone) + queue == Items(gone[..|gone| - 1]) + [gone[|gone| - 1].item] + queue
  {
    assert Items(gone) == Items(gone[..|gone| - 1]) + [gone[|gone| - 1].item];
  }

  lemma PickMore<K(!new)>(sub: seq<K>, s: seq<K>, k: K, queue: seq<K>, take: bool)
    requires IsSubsequence(sub, s + [])
    ensures IsSubsequence(sub + if take then [k] else [], s + [k] + queue)
  {
    var at: seq<nat> :| PicksInOrder(sub, s + [], at);
    assert s + [] == s;
    var next: seq<nat> := if take then at + [|s|] else at;
    assert PicksInOrder(sub + if take then [k] else [], s + [k] + queue, next);
  }

  lemma {:induction false} DeliveredCount<K>(gone: seq<Fate<K>>)
    ensures |gone| == |Delivered(gone)| + Drops(gone)
  {
    if gone != [] {
      DeliveredCount(gone[..|gone| - 1]);
    }
  }

  const UINT32 := 0x1_0000_0000

  /**
   A queue with its history: all that was added, and what became of what has left it. `phantoms` counts the drops
   that were counted on an empty queue.
   */
  datatype Flow<K> = Flow(queue: seq<K>, counter: nat, added: seq<K>, gone: seq<Fate<K>>, phantoms: nat)

  datatype Call<K> = Put(item: K) | Take

  /** The front has left, for the given reason. */
  function Leave<K>(f: Flow<K>, fate: Fate<K>): Flow<K>
    requires f.queue != []
  {
    f.(queue := f.queue[1..], gone := f.gone + [fate])
  }

  /** One drop is counted; from an empty queue nothing is dropped. */
  function Dropping<K>(f: Flow<K>): Flow<K> {
    var counted := f.(counter := (f.counter + 1) % UINT32);
    if f.queue == [] then counted.(phantoms := f.phantoms + 1) else Leave(counted, Dropped(f.queue[0]))
  }

  function Flowing<K>(f: Flow<K>, call: Call<K>, maxSize: nat): Flow<K> {
    match call
    case Put(item) =>
      var room := if |f.queue| >= maxSize then Dropping(f) else f;
      room.(queue := room.queue + [item], added := room.added + [item])
    case Take => if f.queue == [] then f else Leave(f, Taken(f.queue[0]))
  }

  /** A queue after a history of calls. */
  function History<K>(calls: seq<Call<K>>, maxSize: nat): Flow<K> {
    if calls == [] then Flow([], 0, [], [], 0)
    else Flowing(History(calls[..|calls| - 1], maxSize), calls[|calls| - 1], maxSize)
  }

  /** What the calls put in. */
  function Puts<K>(calls: seq<Call<K>>): seq<K> {
    if calls == [] then []
    else Puts(calls[..|calls| - 1]) + if calls[|calls| - 1].Put? then [calls[|calls| - 1].item] else []
  }

  /** What the calls were given. */
  function Answers<K>(calls: seq<Call<K>>, maxSize: nat): seq<K> {
    if calls == [] then []
    else
      var front, last := calls[..|calls| - 1], calls[|calls| - 1];
      var queue := History(front, maxSize).queue;
      Answers(front, maxSize) + if last.Take? && queue != [] then [queue[0]] else []
  }

  ghost predicate Sound<K(!new)>(f: Flow<K>, maxSize: nat) {
    && f.added == Items(f.gone) + f.queue
    && f.counter == (Drops(f.gone) + f.phantoms) % UINT32
    && (maxSize >= 1 ==> |f.queue| <= maxSize)
    && (f.phantoms == 0 <==> maxSize >= 1 || f.added == []) && f.phantoms <= |f.added|
  }

  /** The front element moves from the queue to the record of what has left it. */
  lemma FrontLeaves<K(!new)>(gone: seq<Fate<K>>, queue: seq<K>, fate: Fate<K>)
    requires queue != [] && fate.item == queue[0]
    ensures Items(gone + [fate]) + queue[1..] == Items(gone) + queue
    ensures Drops(gone + [fate]) == Drops(gone) + if fate.Dropped? then 1 else 0
    ensures Delivered(gone + [fate]) == Delivered(gone) + if fate.Taken? then [fate.item] else []
  {
    assert (gone + [fate])[..|gone|] == gone;
  }

  lemma CountOneMore(n: nat)
    ensures (n % UINT32 + 1) % UINT32 == (n + 1) % UINT32
  {
  }

  lemma FlowingSound<K(!new)>(f: Flow<K>, call: Call<K>, maxSize: nat)
    requires Sound(f, maxSize)
    ensures Sound(Flowing(f, call, maxSize), maxSize)
  {
    hide Items, Drops;
    if f.queue != [] {
      FrontLeaves(f.gone, f.queue, Dropped(f.queue[0]));
      FrontLeaves(f.gone, f.queue, Taken(f.queue[0]));
    }
    if call.Put? {
      CountOneMore(Drops(f.gone) + f.phantoms);
      var room := if |f.queue| >= maxSize then Dropping(f) else f;
      assert Items(room.gone) + (room.queue + [call.item]) == Items(room.gone) + room.queue + [call.item];
    }
  }

  /**
   After any history of calls: what was put in has been given out, dropped, or is still there; what was given out
   keeps its order; and the counter is that of the drops, together with those of an empty queue.
   */
  lemma {:induction false} Conservation<K(!new)>(calls: seq<Call<K>>, maxSize: nat)
    ensures var f, given := History(calls, maxSize), Answers(calls, maxSize);
      && Sound(f, maxSize) && f.added == Puts(calls) && given == Delivered(f.gone)
      && |Puts(calls)| == |given| + Drops(f.gone) + |f.queue| && IsSubsequence(given, Puts(calls))
  {
    hide Items, Drops, Delivered;
    var f := History(calls, maxSize);
    if calls == [] {
      EmptyFlow<K>(maxSize);
    } else {
      var front, last := calls[..|calls| - 1], calls[|calls| - 1];
      Conservation(front, maxSize);
      var before := History(front, maxSize);
      FlowingSound(before, last, maxSize);
      if before.queue != [] {
        FrontLeaves(before.gone, before.queue, Dropped(before.queue[0]));
        FrontLeaves(before.gone, before.queue, Taken(before.queue[0]));
      }
    }
    DeliveredCount(f.gone);
    DeliveredInOrder(f.gone, f.queue);
  }

  lemma EmptyFlow<K(!new)>(maxSize: nat)
    ensures Sound<K>(Flow([], 0, [], [], 0), maxSize) && Delivered<K>([]) == []
  {
  }

  /**
   The counter is the number of dropped elements (in 32 bits) exactly when no drop was counted on an empty queue,
   or a multiple of 2^32 of them. None is exactly when the queue has room for one element or nothing was put in: a
   queue of size zero counts a drop whenever it finds itself empty.
   */
  lemma CounterExact<K(!new)>(calls: seq<Call<K>>, maxSize: nat)
    ensures var f := History(calls, maxSize);
      && (f.counter == Drops(f.gone) % UINT32 <==> f.phantoms % UINT32 == 0)
      && (f.phantoms == 0 <==> maxSize >= 1 || Puts(calls) == []) && f.phantoms <= |Puts(calls)|
    ensures var f := History(calls, maxSize); |Puts(calls)| < UINT32 ==>
      (f.counter == Drops(f.gone) % UINT32 <==> maxSize >= 1 || Puts(calls) == [])
  {
    hide Drops, Puts, Items, Delivered, Answers, History, IsSubsequence;
    Conservation(calls, maxSize);
    var f := History(calls, maxSize);
    CountsApart(Drops(f.gone), f.phantoms);
  }

  lemma CountsApart(n: nat, more: nat)
    ensures (n + more) % UINT32 == n % UINT32 <==> more % UINT32 == 0
    ensures more < UINT32 ==> more % UINT32 == more
  {
  }

  /** How many elements a queue of the given size holds, from the calls alone. */
  function Level<K>(calls: seq<Call<K>>, maxSize: nat): nat {
    if calls == [] then 0
    else
      var n := Level(calls[..|calls| - 1], maxSize);
      if calls[|calls| - 1].Put? then (if n < maxSize || n == 0 then n + 1 else n)
      else if n > 0 then n - 1
      else 0
  }

  /** How many elements were put into a queue that was full, from the calls alone. */
  function Overflows<K>(calls: seq<Call<K>>, maxSize: nat): nat {
    if calls == [] then 0
    else
      var front, n := calls[..|calls| - 1], Level(calls[..|calls| - 1], maxSize);
      Overflows(front, maxSize) + if calls[|calls| - 1].Put? && n > 0 && n >= maxSize then 1 else 0
  }

  /** An element is dropped for every element that was put into a full queue, and for no other reason. */
  lemma {:induction false} DropsWhenFull<K(!new)>(calls: seq<Call<K>>, maxSize: nat)
    ensures var f := History(calls, maxSize);
      |f.queue| == Level(calls, maxSize) && Drops(f.gone) == Overflows(calls, maxSize)
  {
    hide Drops;
    if calls == [] {
      NoDrops<K>();
    } else {
      var before := History(calls[..|calls| - 1], maxSize);
      DropsWhenFull(calls[..|calls| - 1], maxSize);
      if before.queue != [] {
        FrontLeaves(before.gone, before.queue, Dropped(before.queue[0]));
        FrontLeaves(before.gone, before.queue, Taken(before.queue[0]));
      }
    }
  }

  lemma NoDrops<K>()
    ensures Drops<K>([]) == 0
  {
  }

  /**
   Nothing is dropped or counted unless an element is put into a queue that holds maxSize elements; in particular
   nothing is when no more than maxSize elements are put in at all.
   */
  lemma {:induction false} NothingDropped<K(!new)>(calls: seq<Call<K>>, maxSize: nat)
    requires |Puts(calls)| <= maxSize ||
      forall n :: 0 <= n < |calls| && calls[n].Put? ==> |History(calls[..n], maxSize).queue| < maxSize
    ensures Drops(History(calls, maxSize).gone) == 0 && History(calls, maxSize).counter == 0
    ensures |History(calls, maxSize).queue| <= |Puts(calls)|
  {
    hide Drops, Answers, Delivered, Items, IsSubsequence;
    NoDrops<K>();
    Conservation(calls, maxSize);
    if calls != [] {
      var front := calls[..|calls| - 1];
      forall n | 0 <= n < |front| ensures front[n] == calls[n] && front[..n] == calls[..n] {
      }
      NothingDropped(front, maxSize);
      Conservation(front, maxSize);
      var before := History(front, maxSize);
      if before.queue != [] {
        FrontLeaves(before.gone, before.queue, Taken(before.queue[0]));
      }
    }
  }

  /** FifoQueue; every method is one critical section. */
  class FifoQueue<K(!new)> {
    var queue: seq<K>
    var droppedCount: nat
    const maxSize: nat
    ghost var added: seq<K>
    ghost var gone: seq<Fate<K>>
    ghost var phantoms: nat

    ghost function Contents(): Flow<K>
      reads this
    {
      Flow(queue, droppedCount, added, gone, phantoms)
    }

    constructor (maxSize: nat)
      ensures this.maxSize == maxSize && Contents() == History([], maxSize)
    {
      queue, droppedCount, this.maxSize := [], 0, maxSize;
      added, gone, phantoms := [], [], 0;
    }

    method Add(message: K)
      modifies this
      ensures Contents() == Flowing(old(Contents()), Put(message), maxSize)
      ensures added == old(added) + [message]
      ensures |old(queue)| < maxSize ==>
        queue == old(queue) + [message] && gone == old(gone) && droppedCount == old(droppedCount)
      ensures |old(queue)| >= maxSize && old(queue) != [] ==>
        && queue == old(queue)[1..] + [message] && gone == old(gone) + [Dropped(old(queue)[0])]
        && droppedCount == (old(droppedCount) + 1) % UINT32
      ensures maxSize == 0 && old(queue) == [] ==>
        queue == [message] && gone == old(gone) && droppedCount == (old(droppedCount) + 1) % UINT32
    {
      if |queue| >= maxSize {
        if queue == [] {
          phantoms := phantoms + 1;
        } else {
          gone, queue := gone + [Dropped(queue[0])], queue[1..];
        }
        droppedCount := (droppedCount + 1) % UINT32;
      }
      queue := queue + [message];
      added := added + [message];
    }

    method Get() returns (r: Option<K>)
      modifies this
      ensures Contents() == Flowing(old(Contents()), Take, maxSize)
      ensures droppedCount == old(droppedCount) && added == old(added)
      ensures old(queue) == [] ==> r == None && queue == [] && gone == old(gone)
      ensures old(queue) != [] ==>
        && r == Some(old(queue)[0]) && queue == old(queue)[1..] && gone == old(gone) + [Taken(old(queue)[0])]
    {
      if queue == [] {
        return None;
      }
      r := Some(queue[0]);
      gone, queue := gone + [Taken(queue[0])], queue[1..];
    }
  }

  /** A queue of size zero that was given one element counts a drop, although nothing has been dropped. */
  method MiscountsAtSizeZero<K(!new)>(message: K) returns (counted: nat, available: nat)
    ensures counted == 1 && available == 1
    ensures var f := History([Put(message)], 0);
      f.counter == counted && |f.queue| == available && Drops(f.gone) == 0 && counted != Drops(f.gone) % UINT32
  {
    var q := new FifoQueue<K>(0);
    q.Add(message);
    counted, available := q.droppedCount, |q.queue|;
    assert [Put(message)][..0] == [];
  }
}
