/** What a run of the receiver delivers, refuses and counts, in numbers and without the functions that decide it. */
module Verdicts {
  import opened Bytes
  import opened Containers
  import opened MessageCache
  import opened Receiver

  /** What a message was parsed to. */
  function ParsedAs(w: World, s: Snapshot, input: Input): Outcome
    requires input.Delivery?
  {
    ParseWith(w, input.parts, input.endpoint, s.headers.cache, s.headers.maxSize, s.raw).0
  }

  // ------------------------------------------------------------ what is delivered

  /** What a receiver with endpoints makes of a message that was parsed, and of one that was not. */
  lemma ReplyExactly(w: World, s: Snapshot, input: Input)
    requires input.Delivery? && s.endpoints != []
    ensures var (o, reply) := (ParsedAs(w, s, input), Receiving(w, s, input).0);
      match o
      case Failed(e) =>
        && (reply == Panicked <==> e == Panic)
        && (reply == Refused(DecompressionError) <==> e == Decompression)
        && (reply == Refused(ParsingError) <==> e != Panic && e != Decompression)
      case Parsed(m) =>
        var last := if input.endpoint.Some? && input.endpoint.value in s.ids then Some(s.ids[input.endpoint.value])
          else None;
        var possible, late := Possible(s.mask, m.id, input.now), s.mask & 2 != 0 && last.Some? && last.value >= m.id;
        && (reply == Delivered(input.endpoint, m) <==> possible && !late)
        && (reply == Refused(NonPositiveId) <==> s.mask & 1 != 0 && m.id == 0)
        && (reply == Refused(OutOfRangeId) <==> !possible && !(s.mask & 1 != 0 && m.id == 0))
        && (reply == Refused(RepeatedId) <==> possible && late && last.value == m.id)
        && (reply == Refused(DecreasingId) <==> possible && late && last.value > m.id)
  {
    var o := ParsedAs(w, s, input);
    if o.Parsed? {
      VerdictExactly(s.mask, s.ids, input.endpoint, o.message.id, input.now);
    }
    hide ParseWith, CheckId, RefusedStats, DeliveredStats;
  }

  /**
   In every run that keeps the monotonic check, a message that was parsed is delivered exactly when its identifier is
   possible and above the last one delivered for its endpoint.
   */
  lemma DeliveredExactly(w: World, endpoints: seq<string>, cs: seq<Command>, input: Input, ep: string)
    requires input.Delivery? && input.endpoint == Some(ep) && forall c :: c in cs ==> KeepsMonotonic(c)
    requires var s := After(w, Start(endpoints), cs); s.endpoints != [] && ParsedAs(w, s, input).Parsed?
    ensures var s, ids := After(w, Start(endpoints), cs), DeliveredIds(w, Start(endpoints), cs, ep);
      var m := ParsedAs(w, s, input).message;
      Receiving(w, s, input).0 == Delivered(Some(ep), m) <==>
        Possible(s.mask, m.id, input.now) && (ids == [] || ids[|ids| - 1] < m.id)
  {
    hide Receiving, Possible, ParsedAs, DeliveredIds, KeepsMonotonic, After;
    var s := After(w, Start(endpoints), cs);
    IdsIncrease(w, endpoints, cs, ep);
    ReplyExactly(w, s, input);
  }

  /** Unless a check is disabled, all of them stay enabled. */
  lemma {:induction false} AllEnabled(w: World, endpoints: seq<string>, cs: seq<Command>)
    requires forall c :: c in cs ==> !c.Disable?
    ensures After(w, Start(endpoints), cs).mask == 0xFFFF_FFFF_FFFF_FFFF
  {
    hide Receiving, Trimmed, Without, WithBits, WithoutBits;
    if cs != [] {
      var front, c := cs[..|cs| - 1], cs[|cs| - 1];
      AllEnabled(w, endpoints, front);
      if c.Receive? {
        MaskKept(w, After(w, Start(endpoints), front), c.input);
      }
      if c.Enable? {
        NothingToEnable(c.check);
      }
    }
  }

  lemma MaskKept(w: World, s: Snapshot, input: Input)
    ensures Receiving(w, s, input).1.mask == s.mask
  {
    hide ParseWith, CheckId, RefusedStats, DeliveredStats, Increased;
  }

  lemma NothingToEnable(check: bv64)
    ensures WithBits(0xFFFF_FFFF_FFFF_FFFF, check) == 0xFFFF_FFFF_FFFF_FFFF
  {
  }

  lemma PossibleByDefault(id: nat, now: Option<nat>)
    ensures Possible(0xFFFF_FFFF_FFFF_FFFF, id, now) <==>
      id > 0 && (now.Some? ==> now.value - 8640000 <= id <= now.value + 8640000)
  {
  }

  /**
   While no check is disabled, a message that was parsed is delivered exactly when its identifier is positive, within
   a hundred days at 100 Hz of the clock if there is one, and above the last one delivered for its endpoint.
   */
  lemma DeliveredByDefault(w: World, endpoints: seq<string>, cs: seq<Command>, input: Input, ep: string)
    requires input.Delivery? && input.endpoint == Some(ep) && forall c :: c in cs ==> !c.Disable?
    requires var s := After(w, Start(endpoints), cs); s.endpoints != [] && ParsedAs(w, s, input).Parsed?
    ensures var s, ids := After(w, Start(endpoints), cs), DeliveredIds(w, Start(endpoints), cs, ep);
      var m := ParsedAs(w, s, input).message;
      Receiving(w, s, input).0 == Delivered(Some(ep), m) <==>
        && m.id > 0
        && (input.now.Some? ==> input.now.value - 8640000 <= m.id <= input.now.value + 8640000)
        && (ids == [] || ids[|ids| - 1] < m.id)
  {
    hide Receiving, Possible, ParsedAs, DeliveredIds, After;
    forall c | c in cs ensures KeepsMonotonic(c) {
    }
    AllEnabled(w, endpoints, cs);
    DeliveredExactly(w, endpoints, cs, input, ep);
    PossibleByDefault(ParsedAs(w, After(w, Start(endpoints), cs), input).message.id, input.now);
  }

  // ------------------------------------------------------------ what is counted

  /** What a reply adds to a diagnostic of the endpoint that it is about. */
  predicate Raises(input: Input, reply: Reply, d: Diag) {
    match d
    case Messages => reply.Delivered?
    case HeaderChange => reply.Delivered? && reply.message.headerChanged
    case Errors => reply.Refused?
    case SocketError => input.SocketFailure? && !input.timedOut && !reply.NotConnected?
    case _ => reply == Refused(d)
  }

  /** How often a diagnostic of an endpoint was raised since it was last forgotten. */
  function Raised(w: World, s: Snapshot, cs: seq<Command>, ep: string, d: Diag): nat {
    if cs == [] then 0
    else
      var front := cs[..|cs| - 1];
      match cs[|cs| - 1]
      case Reset => 0
      case Remove(endpoint) => if endpoint == ep then 0 else Raised(w, s, front, ep, d)
      case Receive(input) =>
        var reply := Receiving(w, After(w, s, front), input).0;
        Raised(w, s, front, ep, d) + if Name(input.endpoint) == ep && Raises(input, reply, d) then 1 else 0
      case _ => Raised(w, s, front, ep, d)
  }

  /** Every message is counted exactly where it belongs: each diagnostic of each endpoint, in every run. */
  lemma {:induction false} DiagnosticsCounted(w: World, endpoints: seq<string>, cs: seq<Command>, ep: string, d: Diag)
    ensures Count(After(w, Start(endpoints), cs).stats, ep, d) == Raised(w, Start(endpoints), cs, ep, d)
  {
    hide Receiving, Trimmed, Without, Raises, Count;
    if cs == [] {
      NothingRaised(ep, d);
    } else {
      var front, c := cs[..|cs| - 1], cs[|cs| - 1];
      var s := After(w, Start(endpoints), front);
      DiagnosticsCounted(w, endpoints, front, ep, d);
      match c {
        case Receive(input) => ReceivingRaises(w, s, input, ep, d);
        case Remove(endpoint) => RemovedCount(s.stats, endpoint, ep, d);
        case Reset => NothingRaised(ep, d);
        case _ =>
      }
    }
  }

  lemma NothingRaised(ep: string, d: Diag)
    ensures Count(Stats(0, 0, map[]), ep, d) == 0
  {
  }

  lemma RemovedCount(s: Stats, endpoint: string, ep: string, d: Diag)
    ensures Count(s.(diagnostics := s.diagnostics - {endpoint}), ep, d) == if endpoint == ep then 0 else Count(s, ep, d)
  {
  }

  lemma ReceivingRaises(w: World, s: Snapshot, input: Input, ep: string, d: Diag)
    ensures var (reply, t) := Receiving(w, s, input);
      Count(t.stats, ep, d) ==
        Count(s.stats, ep, d) + if Name(input.endpoint) == ep && Raises(input, reply, d) then 1 else 0
  {
    hide ParseWith, CheckId, ErrorDiag, RefusedStats, DeliveredStats, Increased, Count;
    if s.endpoints != [] {
      match input {
        case SocketFailure(endpoint, timedOut) => IncreasedCounts(s.stats, endpoint, SocketError, ep, d);
        case Delivery(parts, endpoint, now) =>
          var reply := Receiving(w, s, input).0;
          StatsOfReply(w, s, input);
          if reply.Refused? {
            RefusedCounts(s.stats, endpoint, reply.diag, ep, d);
          } else if reply.Delivered? {
            DeliveredCounts(s.stats, endpoint, reply.message.headerChanged, ep, d);
          }
      }
    }
  }

  /** The counters follow the reply. */
  lemma StatsOfReply(w: World, s: Snapshot, input: Input)
    requires input.Delivery? && s.endpoints != []
    ensures var (reply, t) := Receiving(w, s, input);
      && !reply.NoMessage? && !reply.NotConnected?
      && (reply.Refused? ==>
            t.stats == RefusedStats(s.stats, input.endpoint, reply.diag) && reply.diag != Messages &&
            reply.diag != Errors && reply.diag != HeaderChange && reply.diag != SocketError)
      && (reply.Delivered? ==> t.stats == DeliveredStats(s.stats, input.endpoint, reply.message.headerChanged))
      && (reply.Panicked? ==> t.stats == s.stats)
  {
    hide ParseWith, RefusedStats, DeliveredStats, Checks, OutOfRange;
  }

  lemma RefusedCounts(s: Stats, endpoint: Option<string>, reason: Diag, ep: string, d: Diag)
    ensures Count(RefusedStats(s, endpoint, reason), ep, d) ==
      Count(s, ep, d) + (if Name(endpoint) == ep && d == reason then 1 else 0)
        + if Name(endpoint) == ep && d == Errors then 1 else 0
  {
    hide Count, Increased;
    var noted := Increased(s, endpoint, reason);
    var more := noted.(errors := noted.errors + 1);
    IncreasedCounts(s, endpoint, reason, ep, d);
    SameCounts(noted, more, ep, d);
    IncreasedCounts(more, endpoint, Errors, ep, d);
  }

  lemma DeliveredCounts(s: Stats, endpoint: Option<string>, changed: bool, ep: string, d: Diag)
    ensures Count(DeliveredStats(s, endpoint, changed), ep, d) ==
      Count(s, ep, d) + (if Name(endpoint) == ep && d == HeaderChange && changed then 1 else 0)
        + if Name(endpoint) == ep && d == Messages then 1 else 0
  {
    hide Count, Increased;
    var noted := if changed then Increased(s, endpoint, HeaderChange) else s;
    var more := noted.(messages := noted.messages + 1);
    IncreasedCounts(s, endpoint, HeaderChange, ep, d);
    SameCounts(noted, more, ep, d);
    IncreasedCounts(more, endpoint, Messages, ep, d);
  }

  /** The replies since the counters were last reset. */
  function RepliesSinceReset(w: World, s: Snapshot, cs: seq<Command>): seq<Reply> {
    if cs == [] then []
    else
      var front := cs[..|cs| - 1];
      match cs[|cs| - 1]
      case Reset => []
      case Receive(input) => RepliesSinceReset(w, s, front) + [Receiving(w, After(w, s, front), input).0]
      case _ => RepliesSinceReset(w, s, front)
  }

  /** How many messages were delivered, and how many refused. */
  function Deliveries(replies: seq<Reply>): nat {
    if replies == [] then 0
    else Deliveries(replies[..|replies| - 1]) + if replies[|replies| - 1].Delivered? then 1 else 0
  }

  function Refusals(replies: seq<Reply>): nat {
    if replies == [] then 0
    else Refusals(replies[..|replies| - 1]) + if replies[|replies| - 1].Refused? then 1 else 0
  }

  /** message_count and error_count are the numbers of messages delivered and refused since the last reset. */
  lemma {:induction false} TotalsCounted(w: World, endpoints: seq<string>, cs: seq<Command>)
    ensures var s, replies := After(w, Start(endpoints), cs), RepliesSinceReset(w, Start(endpoints), cs);
      s.stats.messages == Deliveries(replies) && s.stats.errors == Refusals(replies)
  {
    hide Receiving, Trimmed, Without;
    if cs != [] {
      var front, c := cs[..|cs| - 1], cs[|cs| - 1];
      TotalsCounted(w, endpoints, front);
      if c.Receive? {
        ReceivingTotals(w, After(w, Start(endpoints), front), c.input);
        var replies := RepliesSinceReset(w, Start(endpoints), cs);
        assert replies[..|replies| - 1] == RepliesSinceReset(w, Start(endpoints), front);
      }
    }
  }

  lemma ReceivingTotals(w: World, s: Snapshot, input: Input)
    ensures var (reply, t) := Receiving(w, s, input);
      && t.stats.messages == s.stats.messages + (if reply.Delivered? then 1 else 0)
      && t.stats.errors == s.stats.errors + if reply.Refused? then 1 else 0
  {
    hide ParseWith, CheckId;
  }
}
