/**
 What the compressor must find: a law about the sequences of a parse that says nothing about how they are searched.
 */
module Lz4Repeats {
  import opened Bytes
  import opened Lz4Format
  import opened Lz4Count
  import opened Lz4Greedy

  const REACH := 65

  // ------------------------------------------------------------ the law

  /**
   Places that the search has surely looked at: after the end of every match up to the 65th literal or the next
   match, and two bytes before the end.
   */
  ghost predicate Kept(ss: seq<Sequence>, q: nat) {
    ss != [] &&
    (var front, last := ss[..|ss| - 1], ss[|ss| - 1];
     || Kept(front, q)
     || (Produced(front) <= q <= Produced(front) + REACH && q <= Produced(front) + |last.literals|)
     || q + 2 == Produced(ss))
  }

  /** Whatever has the same hash as p from q on has the same four bytes. */
  ghost predicate Undisturbed(s: seq<byte>, tt: TableType, q: nat, p: nat) {
    forall x :: q <= x < p && p + 4 <= |s| && HashPosition(s, x, tt) == HashPosition(s, p, tt) ==>
      Agree(s, p, x, MINMATCH)
  }

  /**
   Behind the sequences ss the four bytes at p, not far from the end of the last match and from the end of the source,
   occur before at q: at a place behind that match, or at one that was looked at; and no other bytes with their hash
   come between.
   */
  ghost predicate Repeat(s: seq<byte>, tt: TableType, ss: seq<Sequence>, q: nat, p: nat) {
    var end := Produced(ss);
    && (Kept(ss, q) || end <= q) && q < p <= q + MAX_DISTANCE
    && end <= p <= end + REACH && p + MIN_LENGTH <= |s| && Agree(s, p, q, MINMATCH) && Undisturbed(s, tt, q, p)
  }

  /** Sequence k exists, and its match begins no later than the first repeat behind the sequences before it. */
  ghost predicate FindsNext(s: seq<byte>, tt: TableType, ss: seq<Sequence>, k: nat)
    requires k <= |ss|
  {
    forall q, p :: Repeat(s, tt, ss[..k], q, p) ==> k < |ss| && Produced(ss[..k]) + |ss[k].literals| <= p
  }

  /** No repeat is passed over, neither before a match nor behind the last one. */
  ghost predicate NoneMissed(s: seq<byte>, tt: TableType, ss: seq<Sequence>) {
    forall k :: 0 <= k <= |ss| ==> FindsNext(s, tt, ss, k)
  }

  /** No match could have begun one byte earlier. */
  ghost predicate BeginsEarly(s: seq<byte>, ss: seq<Sequence>, k: nat)
    requires k < |ss|
  {
    var at := Produced(ss[..k]) + |ss[k].literals|;
    ss[k].literals != [] && ss[k].offset < at <= |s| ==> s[at - 1] != s[at - 1 - ss[k].offset]
  }

  ghost predicate AllBeginEarly(s: seq<byte>, ss: seq<Sequence>) {
    forall k :: 0 <= k < |ss| ==> BeginsEarly(s, ss, k)
  }

  // ------------------------------------------------------------ what the table keeps

  ghost predicate Fits(s: seq<byte>, tt: TableType) {
    MFLIMIT <= |s| <= MAX_INPUT_SIZE && (tt.ByU16? ==> |s| < LIMIT_64K)
  }

  /** The table leads from the bytes at q to a place with the same hash, no earlier than q. */
  ghost predicate Known(s: seq<byte>, tt: TableType, t: Table, q: nat, limit: nat)
    requires |t| == TableSize(tt)
  {
    && q + 4 <= |s|
    && var r := t[HashPosition(s, q, tt)];
       q <= r < limit && r + 4 <= |s| && HashPosition(s, r, tt) == HashPosition(s, q, tt)
  }

  lemma StaysKnown(s: seq<byte>, tt: TableType, t: Table, q: nat, limit: nat, p: nat)
    requires Fits(s, tt) && |t| == TableSize(tt) && Known(s, tt, t, q, limit) && limit <= p && p + MFLIMIT <= |s|
    ensures Known(s, tt, Remember(s, tt, t, p), q, p + 1)
  {
    hide HashPosition;
  }

  lemma BecomesKnown(s: seq<byte>, tt: TableType, t: Table, p: nat)
    requires Fits(s, tt) && |t| == TableSize(tt) && p + MFLIMIT <= |s|
    ensures Known(s, tt, Remember(s, tt, t, p), p, p + 1)
  {
    hide HashPosition;
  }

  /** A place whose bytes are known serves. */
  lemma KnownServes(s: seq<byte>, tt: TableType, t: Table, q: nat, p: nat)
    requires |t| == TableSize(tt) && Known(s, tt, t, q, p) && Undisturbed(s, tt, q, p)
    requires q < p <= q + MAX_DISTANCE && p + MFLIMIT <= |s| && Agree(s, p, q, MINMATCH)
    ensures Serves(s, p, t[HashPosition(s, p, tt)])
  {
    hide HashPosition, Agree;
    SameHash(s, tt, p, q);
    var r := t[HashPosition(s, p, tt)];
    assert Agree(s, p, r, MINMATCH);
  }

  lemma SameHash(s: seq<byte>, tt: TableType, p: nat, q: nat)
    requires p + 4 <= |s| && q + 4 <= |s| && Agree(s, p, q, MINMATCH)
    ensures HashPosition(s, p, tt) == HashPosition(s, q, tt)
  {
    hide HashSequence;
    var x, y := s[p..p + 4], s[q..q + 4];
    assert s[p] == x[0] && s[p + 1] == x[1] && s[p + 2] == x[2] && s[p + 3] == x[3];
    assert s[q] == y[0] && s[q + 1] == y[1] && s[q + 2] == y[2] && s[q + 3] == y[3];
  }

  /** All places before `limit` that the law speaks of are known. */
  ghost predicate Ready(s: seq<byte>, tt: TableType, t: Table, ss: seq<Sequence>, limit: nat)
    requires |t| == TableSize(tt)
  {
    forall q: nat :: Kept(ss, q) || (Produced(ss) <= q < limit && q <= Produced(ss) + REACH) ==>
      Known(s, tt, t, q, limit)
  }

  lemma StaysReady(s: seq<byte>, tt: TableType, t: Table, ss: seq<Sequence>, p: nat)
    requires Fits(s, tt) && |t| == TableSize(tt) && Ready(s, tt, t, ss, p) && p + MFLIMIT <= |s|
    ensures Ready(s, tt, Remember(s, tt, t, p), ss, p + 1)
  {
    hide Known, Remember, Kept, Produced;
    forall q: nat | Kept(ss, q) || (Produced(ss) <= q < p + 1 && q <= Produced(ss) + REACH)
      ensures Known(s, tt, Remember(s, tt, t, p), q, p + 1)
    {
      if Kept(ss, q) || q < p {
        StaysKnown(s, tt, t, q, p, p);
      } else {
        BecomesKnown(s, tt, t, p);
      }
    }
  }

  /** Places beyond the reach need not be known. */
  lemma ReadyLater(s: seq<byte>, tt: TableType, t: Table, ss: seq<Sequence>, limit: nat, later: nat)
    requires |t| == TableSize(tt) && Ready(s, tt, t, ss, limit)
    requires limit <= later && (limit < later ==> Produced(ss) + REACH < limit)
    ensures Ready(s, tt, t, ss, later)
  {
    hide HashPosition, Kept, Produced;
    forall q: nat | Kept(ss, q) || (Produced(ss) <= q < later && q <= Produced(ss) + REACH)
      ensures Known(s, tt, t, q, later)
    {
      assert Known(s, tt, t, q, limit);
    }
  }

  // ------------------------------------------------------------ the search finds every repeat

  /** The first steps are single: the search tries every place up to REACH. */
  ghost predicate Pace(end: nat, p: nat, step: nat, tries: nat) {
    && end < p && step >= 1 && tries >= SKIP_TRIGGER
    && (p <= end + REACH ==> step == 1 && tries == SKIP_TRIGGER - 1 + (p - end))
  }

  lemma PaceNext(end: nat, p: nat, step: nat, tries: nat)
    requires Pace(end, p, step, tries)
    ensures Pace(end, p + step, tries / SKIP_TRIGGER, tries + 1)
    ensures p < p + step && (p <= end + REACH ==> step == 1)
  {
  }

  /** Where a place repeats earlier bytes, the table leads to some that serve. */
  lemma RepeatServes(s: seq<byte>, tt: TableType, t: Table, ss: seq<Sequence>, q: nat, p: nat)
    requires |t| == TableSize(tt) && Ready(s, tt, t, ss, p) && Repeat(s, tt, ss, q, p)
    ensures Serves(s, p, t[HashPosition(s, p, tt)])
  {
    hide Known, Kept, HashPosition, Serves;
    KnownServes(s, tt, t, q, p);
  }

  lemma {:induction false} SearchFinds(s: seq<byte>, tt: TableType, t: Table, ss: seq<Sequence>, p: nat, step: nat,
                                       tries: nat)
    requires Fits(s, tt) && |t| == TableSize(tt) && p <= |s| - MFLIMIT + 1
    requires Ready(s, tt, t, ss, p) && Pace(Produced(ss), p, step, tries)
    ensures var r := FirstMatch(s, tt, t, p, step, tries);
      && (r.Match? ==> Ready(s, tt, r.table, ss, r.at + 1))
      && forall q, p' :: Repeat(s, tt, ss, q, p') && p <= p' ==> r.Match? && r.at <= p'
    decreases |s| - p
  {
    hide Ready, HashPosition, Serves, Remember, Kept, Produced;
    var r := FirstMatch(s, tt, t, p, step, tries);
    PaceNext(Produced(ss), p, step, tries);
    if p + step <= |s| - MFLIMIT {
      var next := Remember(s, tt, t, p);
      StaysReady(s, tt, t, ss, p);
      if !Serves(s, p, t[HashPosition(s, p, tt)]) {
        forall q | Repeat(s, tt, ss, q, p) ensures false {
          RepeatServes(s, tt, t, ss, q, p);
        }
        ReadyLater(s, tt, next, ss, p + 1, p + step);
        SearchFinds(s, tt, next, ss, p + step, tries / SKIP_TRIGGER, tries + 1);
      }
    }
  }

  // ------------------------------------------------------------ matches

  /** Bytes that agree are counted forwards. */
  lemma {:induction false} ForwardAtLeast(s: seq<byte>, p: nat, ref: nat, limit: nat, n: nat)
    requires ref <= p && p + n <= limit <= |s| && forall i :: p <= i < p + n ==> s[i] == s[i - (p - ref)]
    ensures n <= Forward(s, p, ref, limit)
    decreases n
  {
    if n > 0 {
      assert s[p] == s[ref];
      ForwardAtLeast(s, p + 1, ref + 1, limit, n - 1);
    }
  }

  /** Bytes that were counted backwards agree, and one more would not. */
  lemma {:induction false} BackAgrees(s: seq<byte>, p: nat, ref: nat, anchor: nat)
    requires ref < p <= |s| && anchor <= p
    ensures var n := Back(s, p, ref, anchor);
      && (forall i :: p - n <= i < p ==> s[i] == s[i - (p - ref)])
      && (p - n == anchor || ref == n || s[p - n - 1] != s[ref - n - 1])
    decreases p
  {
    if p > anchor && ref > 0 && s[p - 1] == s[ref - 1] {
      BackAgrees(s, p - 1, ref - 1, anchor);
    }
  }

  lemma AgreeBytes(s: seq<byte>, p: nat, q: nat, n: nat)
    requires q < p && p + n <= |s| && Agree(s, p, q, n)
    ensures forall i :: p <= i < p + n ==> s[i] == s[i - (p - q)]
  {
    forall i | p <= i < p + n ensures s[i] == s[i - (p - q)] {
      assert s[p..p + n][i - p] == s[q..q + n][i - p];
    }
  }

  /** A match that was extended backwards ends behind the four bytes that were found first. */
  lemma ReachesBehind(s: seq<byte>, at: nat, ref: nat, anchor: nat)
    requires ref < at && anchor <= at && at + MFLIMIT <= |s| && Agree(s, at, ref, MINMATCH)
    ensures var n := Back(s, at, ref, anchor);
      at + MINMATCH <= at - n + SequenceOf(s, anchor, at - n, ref - n).matchLength
  {
    hide Back, Forward, Agree;
    var n := Back(s, at, ref, anchor);
    BackAgrees(s, at, ref, anchor);
    AgreeBytes(s, at, ref, MINMATCH);
    ForwardAtLeast(s, at - n + MINMATCH, ref - n + MINMATCH, |s| - LASTLITERALS, n);
  }

  // ------------------------------------------------------------ the parse keeps the law

  /** So far no repeat was passed over, and no match could have begun earlier. */
  ghost predicate Lawful(s: seq<byte>, tt: TableType, ss: seq<Sequence>) {
    AllBeginEarly(s, ss) && forall k :: 0 <= k < |ss| ==> FindsNext(s, tt, ss, k)
  }

  /** There is no repeat before p. */
  ghost predicate Clear(s: seq<byte>, tt: TableType, ss: seq<Sequence>, p: nat) {
    forall q, p' :: Repeat(s, tt, ss, q, p') ==> p <= p'
  }

  /** The law about an earlier sequence does not depend on later ones. */
  lemma EarlierLaw(s: seq<byte>, tt: TableType, ss: seq<Sequence>, next: Sequence, k: nat)
    requires k < |ss|
    ensures FindsNext(s, tt, ss, k) ==> FindsNext(s, tt, ss + [next], k)
    ensures BeginsEarly(s, ss, k) ==> BeginsEarly(s, ss + [next], k)
  {
    hide Repeat, Produced;
    assert (ss + [next])[..k] == ss[..k];
  }

  lemma LatestLaw(s: seq<byte>, tt: TableType, ss: seq<Sequence>, next: Sequence)
    requires Clear(s, tt, ss, Produced(ss) + |next.literals|)
    ensures FindsNext(s, tt, ss + [next], |ss|)
  {
    hide Repeat, Produced;
    assert (ss + [next])[..|ss|] == ss;
  }

  lemma LawfulNext(s: seq<byte>, tt: TableType, ss: seq<Sequence>, next: Sequence)
    requires Lawful(s, tt, ss) && Clear(s, tt, ss, Produced(ss) + |next.literals|)
    requires BeginsEarly(s, ss + [next], |ss|)
    ensures Lawful(s, tt, ss + [next])
  {
    hide FindsNext, BeginsEarly, Clear, Produced;
    LatestLaw(s, tt, ss, next);
    forall k | 0 <= k < |ss| + 1 ensures FindsNext(s, tt, ss + [next], k) && BeginsEarly(s, ss + [next], k) {
      if k < |ss| {
        EarlierLaw(s, tt, ss, next, k);
      }
    }
  }

  /** The law at the end: there is no repeat left. */
  lemma LawfulEnd(s: seq<byte>, tt: TableType, ss: seq<Sequence>)
    requires Lawful(s, tt, ss) && forall q, p :: !Repeat(s, tt, ss, q, p)
    ensures NoneMissed(s, tt, ss) && AllBeginEarly(s, ss)
  {
    hide Repeat;
    assert ss[..|ss|] == ss;
  }

  /** What is known after one more sequence, whose match was found at `at`. */
  lemma ReadyNext(s: seq<byte>, tt: TableType, t: Table, ss: seq<Sequence>, next: Sequence, at: nat)
    requires Fits(s, tt) && |t| == TableSize(tt) && Ready(s, tt, t, ss, at + 1)
    requires Produced(ss) + |next.literals| <= at && at + MINMATCH <= Produced(ss + [next])
    requires Produced(ss + [next]) + MFLIMIT <= |s|
    ensures var end := Produced(ss + [next]); Ready(s, tt, Remember(s, tt, t, end - 2), ss + [next], end)
  {
    hide Known, Remember, Produced;
    var end, all := Produced(ss + [next]), ss + [next];
    assert all[..|all| - 1] == ss;
    var before := Remember(s, tt, t, end - 2);
    forall q: nat | Kept(all, q) || (end <= q < end && q <= end + REACH) ensures Known(s, tt, before, q, end) {
      if q == end - 2 {
        BecomesKnown(s, tt, t, q);
      } else {
        StaysKnown(s, tt, t, q, at + 1, end - 2);
      }
      KnownLater(s, tt, before, q, end - 1, end);
    }
  }

  lemma KnownLater(s: seq<byte>, tt: TableType, t: Table, q: nat, limit: nat, later: nat)
    requires |t| == TableSize(tt) && Known(s, tt, t, q, limit) && limit <= later
    ensures Known(s, tt, t, q, later)
  {
  }

  /** Repeats begin behind the last match, and away from the end. */
  lemma ClearAtEnd(s: seq<byte>, tt: TableType, ss: seq<Sequence>)
    ensures Clear(s, tt, ss, Produced(ss))
    ensures Produced(ss) + MFLIMIT > |s| ==> forall q, p :: !Repeat(s, tt, ss, q, p)
  {
  }

  /** Where the bytes behind a match do not serve, there is no repeat. */
  lemma ClearBehind(s: seq<byte>, tt: TableType, t: Table, ss: seq<Sequence>)
    requires |t| == TableSize(tt) && Ready(s, tt, t, ss, Produced(ss))
    requires Produced(ss) + MFLIMIT <= |s| && !Serves(s, Produced(ss), t[HashPosition(s, Produced(ss), tt)])
    ensures Clear(s, tt, ss, Produced(ss) + 1)
  {
    hide Serves, Ready, HashPosition, Repeat;
    var end := Produced(ss);
    ClearAtEnd(s, tt, ss);
    forall q | Repeat(s, tt, ss, q, end) ensures false {
      RepeatServes(s, tt, t, ss, q, end);
    }
  }

  /** What is known and done when a match at p is to be encoded, which the search found at `at`. */
  ghost predicate Pending(s: seq<byte>, tt: TableType, t: Table, ss: seq<Sequence>, p: nat, ref: nat, at: nat)
    requires |t| == TableSize(tt)
  {
    && Fits(s, tt) && Lawful(s, tt, ss) && Ready(s, tt, t, ss, at + 1)
    && Produced(ss) <= p <= at && at + MFLIMIT <= |s| && ref < p && Clear(s, tt, ss, p)
    && var first := SequenceOf(s, Produced(ss), p, ref);
       at + MINMATCH <= p + first.matchLength && BeginsEarly(s, ss + [first], |ss|)
  }

  /** What is known and done when the search goes on behind a match. */
  ghost predicate Searching(s: seq<byte>, tt: TableType, t: Table, ss: seq<Sequence>)
    requires |t| == TableSize(tt)
  {
    && Fits(s, tt) && Lawful(s, tt, ss) && Produced(ss) + MFLIMIT <= |s|
    && Ready(s, tt, t, ss, Produced(ss) + 1) && Clear(s, tt, ss, Produced(ss) + 1)
  }

  lemma FirstProduced(s: seq<byte>, ss: seq<Sequence>, p: nat, ref: nat)
    requires Produced(ss) <= p <= |s| - MFLIMIT && ref < p
    ensures var first := SequenceOf(s, Produced(ss), p, ref);
      Produced(ss + [first]) == p + first.matchLength && Produced(ss) + |first.literals| == p
  {
    hide Forward;
    var first := SequenceOf(s, Produced(ss), p, ref);
    assert (ss + [first])[..|ss|] == ss;
  }

  lemma DirectlyBehind(s: seq<byte>, ss: seq<Sequence>, ref: nat)
    requires ref < Produced(ss) && Produced(ss) + MFLIMIT <= |s|
    ensures var first := SequenceOf(s, Produced(ss), Produced(ss), ref);
      first.matchLength >= MINMATCH && BeginsEarly(s, ss + [first], |ss|)
  {
    hide Forward, Produced;
  }

  lemma {:induction false} FollowFinds(s: seq<byte>, tt: TableType, t: Table, ss: seq<Sequence>, p: nat, ref: nat,
                                       at: nat)
    requires |t| == TableSize(tt) && Pending(s, tt, t, ss, p, ref, at)
    ensures var f := Follow(s, tt, t, Produced(ss), p, ref);
      var all := ss + f.sequences;
      && Produced(all) == f.end && at + MINMATCH <= f.end && Lawful(s, tt, all)
      && if f.end <= |s| - MFLIMIT then Searching(s, tt, f.table, all) else forall q, p' :: !Repeat(s, tt, all, q, p')
    decreases |s| - p
  {
    hide Lawful, Ready, Clear, Repeat, Remember, HashPosition, SequenceOf, BeginsEarly, Produced;
    var first := SequenceOf(s, Produced(ss), p, ref);
    var all, end := ss + [first], p + first.matchLength;
    FirstProduced(s, ss, p, ref);
    LawfulNext(s, tt, ss, first);
    ClearAtEnd(s, tt, all);
    if end <= |s| - MFLIMIT {
      var before := Remember(s, tt, t, end - 2);
      ReadyNext(s, tt, t, ss, first, at);
      var next, after := before[HashPosition(s, end, tt)], Remember(s, tt, before, end);
      StaysReady(s, tt, before, all, end);
      if Serves(s, end, next) {
        DirectlyBehind(s, all, next);
        FollowFinds(s, tt, after, all, end, next, end);
        var rest := Follow(s, tt, after, end, end, next);
        assert ss + ([first] + rest.sequences) == all + rest.sequences;
      } else {
        ClearBehind(s, tt, before, all);
      }
    }
  }

  /** A match that the search found, extended backwards. */
  lemma FoundPending(s: seq<byte>, tt: TableType, t: Table, ss: seq<Sequence>)
    requires |t| == TableSize(tt) && Searching(s, tt, t, ss)
    requires FirstMatch(s, tt, t, Produced(ss) + 1, 1, SKIP_TRIGGER).Match?
    ensures var r := FirstMatch(s, tt, t, Produced(ss) + 1, 1, SKIP_TRIGGER);
      var n := Back(s, r.at, r.ref, Produced(ss));
      Pending(s, tt, r.table, ss, r.at - n, r.ref - n, r.at)
  {
    hide Lawful, Ready, FirstMatch, Back, SequenceOf, BeginsEarly, Produced, Repeat;
    var r := FirstMatch(s, tt, t, Produced(ss) + 1, 1, SKIP_TRIGGER);
    var n := Back(s, r.at, r.ref, Produced(ss));
    SearchFinds(s, tt, t, ss, Produced(ss) + 1, 1, SKIP_TRIGGER);
    ReachesBehind(s, r.at, r.ref, Produced(ss));
    BackIsEarly(s, ss, r.at, r.ref);
  }

  lemma BackIsEarly(s: seq<byte>, ss: seq<Sequence>, at: nat, ref: nat)
    requires ref < at && Produced(ss) <= at && at + MFLIMIT <= |s|
    ensures var n := Back(s, at, ref, Produced(ss));
      BeginsEarly(s, ss + [SequenceOf(s, Produced(ss), at - n, ref - n)], |ss|)
  {
    hide Back, Forward;
    var first := SequenceOf(s, Produced(ss), at - Back(s, at, ref, Produced(ss)), ref - Back(s, at, ref, Produced(ss)));
    assert (ss + [first])[..|ss|] == ss;
    BackAgrees(s, at, ref, Produced(ss));
  }

  /** A search that finds nothing leaves no repeat. */
  lemma SearchEnds(s: seq<byte>, tt: TableType, t: Table, ss: seq<Sequence>)
    requires |t| == TableSize(tt) && Searching(s, tt, t, ss)
    requires FirstMatch(s, tt, t, Produced(ss) + 1, 1, SKIP_TRIGGER).Nothing?
    ensures NoneMissed(s, tt, ss) && AllBeginEarly(s, ss)
  {
    hide Ready, FirstMatch, Produced, Repeat, FindsNext, BeginsEarly;
    SearchFinds(s, tt, t, ss, Produced(ss) + 1, 1, SKIP_TRIGGER);
    LawfulEnd(s, tt, ss);
  }

  /** A search that finds a match: what holds behind the matches that it leads to. */
  lemma ParseOnce(s: seq<byte>, tt: TableType, t: Table, ss: seq<Sequence>, r: Search)
    requires |t| == TableSize(tt) && Searching(s, tt, t, ss)
    requires r == FirstMatch(s, tt, t, Produced(ss) + 1, 1, SKIP_TRIGGER) && r.Match?
    ensures var n := Back(s, r.at, r.ref, Produced(ss));
      var f := Prefixed(ss, Follow(s, tt, r.table, Produced(ss), r.at - n, r.ref - n));
      && Produced(ss) + 1 < f.end == Produced(f.sequences)
      && if f.end <= |s| - MFLIMIT then Searching(s, tt, f.table, f.sequences)
         else NoneMissed(s, tt, f.sequences) && AllBeginEarly(s, f.sequences)
  {
    hide Ready, Clear, FirstMatch, Follow, Back, Produced, Repeat, FindsNext, BeginsEarly, Pending, NoneMissed;
    hide AllBeginEarly, Lawful;
    var n := Back(s, r.at, r.ref, Produced(ss));
    FoundPending(s, tt, t, ss);
    FollowFinds(s, tt, r.table, ss, r.at - n, r.ref - n, r.at);
    var f := Prefixed(ss, Follow(s, tt, r.table, Produced(ss), r.at - n, r.ref - n));
    if f.end > |s| - MFLIMIT {
      LawfulEnd(s, tt, f.sequences);
    }
  }

  lemma {:induction false} ParseFinds(s: seq<byte>, tt: TableType, t: Table, ss: seq<Sequence>)
    requires |t| == TableSize(tt) && Searching(s, tt, t, ss)
    ensures Produced(ss) + MFLIMIT <= |s|
    ensures var all := ss + ParseFrom(s, tt, t, Produced(ss), Produced(ss) + 1);
      NoneMissed(s, tt, all) && AllBeginEarly(s, all)
    decreases |s| - Produced(ss)
  {
    hide Lawful, Ready, Clear, FirstMatch, Follow, Back, Produced, NoneMissed, AllBeginEarly, ParseFrom;
    var r := FirstMatch(s, tt, t, Produced(ss) + 1, 1, SKIP_TRIGGER);
    ParseStep(s, tt, t, Produced(ss), Produced(ss) + 1, ss);
    if r.Match? {
      ParseOnce(s, tt, t, ss, r);
      var n := Back(s, r.at, r.ref, Produced(ss));
      var f := Prefixed(ss, Follow(s, tt, r.table, Produced(ss), r.at - n, r.ref - n));
      if f.end <= |s| - MFLIMIT {
        ParseFinds(s, tt, f.table, f.sequences);
      } else {
        assert f.sequences + [] == f.sequences;
      }
    } else {
      SearchEnds(s, tt, t, ss);
    }
  }

  /** The greedy parse passes over no repeat, whatever the hash. */
  lemma GreedyFinds(s: seq<byte>, tt: TableType)
    requires |s| <= MAX_INPUT_SIZE && (tt.ByU16? ==> |s| < LIMIT_64K)
    ensures NoneMissed(s, tt, Greedy(s, tt)) && AllBeginEarly(s, Greedy(s, tt))
  {
    hide ParseFrom, Remember, Ready, HashPosition;
    var zeros := seq(TableSize(tt), _ => 0);
    if |s| >= MIN_LENGTH {
      var t := Remember(s, tt, zeros, 0);
      BecomesKnown(s, tt, zeros, 0);
      AtStart(s, tt, t);
      ParseFinds(s, tt, t, []);
      assert [] + ParseFrom(s, tt, t, 0, 1) == ParseFrom(s, tt, t, 0, 1);
    } else {
      LawfulEnd(s, tt, []);
    }
  }

  lemma AtStart(s: seq<byte>, tt: TableType, t: Table)
    requires Fits(s, tt) && |t| == TableSize(tt) && Known(s, tt, t, 0, 1)
    ensures Searching(s, tt, t, [])
  {
    hide Known;
  }

  // ------------------------------------------------------------ plain consequences

  /** The hash tells different groups of four bytes apart. */
  ghost predicate Separates(s: seq<byte>, tt: TableType) {
    forall x: nat, y: nat ::
      x + 4 <= |s| && y + 4 <= |s| && HashPosition(s, x, tt) == HashPosition(s, y, tt) ==> Agree(s, x, y, MINMATCH)
  }

  /**
   Behind every match, and at the start: where the four bytes at p occur since then, the next match begins no later
   than at p. In particular a repeat among the first bytes leads to a match.
   */
  ghost predicate FindsRepeats(s: seq<byte>, ss: seq<Sequence>) {
    forall k, q: nat, p: nat ::
      && 0 <= k <= |ss| && Produced(ss[..k]) <= q < p <= Produced(ss[..k]) + REACH && p + MIN_LENGTH <= |s|
      && Agree(s, p, q, MINMATCH)
      ==> k < |ss| && Produced(ss[..k]) + |ss[k].literals| <= p
  }

  /** With a hash that separates, nothing disturbs a repeat. */
  lemma RepeatsFound(s: seq<byte>, tt: TableType, ss: seq<Sequence>)
    requires NoneMissed(s, tt, ss) && Separates(s, tt)
    ensures FindsRepeats(s, ss)
  {
    hide HashPosition, Agree, Produced;
    forall k, q: nat, p: nat
      | 0 <= k <= |ss| && Produced(ss[..k]) <= q < p <= Produced(ss[..k]) + REACH && p + MIN_LENGTH <= |s| &&
        Agree(s, p, q, MINMATCH)
      ensures k < |ss| && Produced(ss[..k]) + |ss[k].literals| <= p
    {
      assert FindsNext(s, tt, ss, k);
      assert Repeat(s, tt, ss[..k], q, p);
    }
  }

  /** What is sure about the sequences of a source: no repeat is passed over, and no match could have begun earlier. */
  ghost predicate Thorough(s: seq<byte>, tt: TableType, ss: seq<Sequence>) {
    NoneMissed(s, tt, ss) && AllBeginEarly(s, ss) && (Separates(s, tt) ==> FindsRepeats(s, ss))
  }

  lemma GreedyThorough(s: seq<byte>, tt: TableType)
    requires |s| <= MAX_INPUT_SIZE && (tt.ByU16? ==> |s| < LIMIT_64K)
    ensures Thorough(s, tt, Greedy(s, tt))
  {
    hide Greedy, NoneMissed, AllBeginEarly, Separates, FindsRepeats;
    GreedyFinds(s, tt);
    if Separates(s, tt) {
      RepeatsFound(s, tt, Greedy(s, tt));
    }
  }
}
