/** The receiver: identifier checks, per-endpoint diagnostics and counters around parse_message. */
module Receiver {
  import opened Bytes
  import opened Containers
  import opened MessageCache

  const VALID_ID_RANGE := 3600 * 24 * 100
  const CHECK_ID_POSITIVE: bv64 := 1
  const CHECK_ID_MONOTONIC: bv64 := 2
  const CHECK_ID_RANGE: bv64 := 3
  const CHECK_ID_PAST_RANGE: bv64 := 4
  const CHECK_ALL: bv64 := 0xFFFF_FFFF_FFFF_FFFF

  datatype Diag =
    | Messages | Errors | RepeatedId | NonPositiveId | DecreasingId | OutOfRangeId
    | SocketError | ParsingError | DecompressionError | HeaderChange

  // ------------------------------------------------------------ statistics

  datatype Stats = Stats(messages: nat, errors: nat, diagnostics: map<string, map<Diag, nat>>)

  /** The counter of an endpoint; an absent entry counts zero. */
  function Count(s: Stats, ep: string, d: Diag): nat {
    if ep in s.diagnostics && d in s.diagnostics[ep] then s.diagnostics[ep][d] else 0
  }

  /** Messages of a shared socket are counted under the empty name. */
  function Name(endpoint: Option<string>): string {
    if endpoint.Some? then endpoint.value else ""
  }

  /** increse_stats. */
  function Increased(s: Stats, endpoint: Option<string>, d: Diag): Stats {
    var ep := Name(endpoint);
    var entries := if ep in s.diagnostics then s.diagnostics[ep] else map[];
    s.(diagnostics := s.diagnostics[ep := entries[d := Count(s, ep, d) + 1]])
  }

  /** One counter of one endpoint goes up by one. */
  lemma IncreasedCounts(s: Stats, endpoint: Option<string>, d: Diag, ep: string, e: Diag)
    ensures Count(Increased(s, endpoint, d), ep, e) == Count(s, ep, e) + if ep == Name(endpoint) && e == d then 1 else 0
    ensures Increased(s, endpoint, d).messages == s.messages && Increased(s, endpoint, d).errors == s.errors
  {
  }

  // ------------------------------------------------------------ identifiers

  function AbsDiff(a: nat, b: nat): nat {
    if a > b then a - b else b - a
  }

  function Checks(mask: bv64, check: bv64): bool {
    mask & check != 0
  }

  function WithBits(mask: bv64, check: bv64): bv64 {
    mask | check
  }

  function WithoutBits(mask: bv64, check: bv64): bv64 {
    mask & !check
  }

  /** The bits of `check` have the given value, and no other bit has changed. */
  ghost predicate Switched(mask: bv64, after: bv64, check: bv64, value: bv64) {
    after & check == value && after & !check == mask & !check
  }

  lemma SwitchesBits(mask: bv64, check: bv64)
    ensures Switched(mask, WithBits(mask, check), check, check)
    ensures Switched(mask, WithoutBits(mask, check), check, 0)
  {
    hide WithBits, WithoutBits;
    BitsSet(mask, check);
    BitsCleared(mask, check);
  }

  lemma BitsSet(mask: bv64, check: bv64)
    ensures WithBits(mask, check) & check == check && WithBits(mask, check) & !check == mask & !check
  {
  }

  lemma BitsCleared(mask: bv64, check: bv64)
    ensures WithoutBits(mask, check) & check == 0 && WithoutBits(mask, check) & !check == mask & !check
  {
  }

  /**
   The identifier checks: what is wrong with the identifier, if anything, and the remembered identifiers afterwards.
   */
  function CheckId(mask: bv64, ids: map<string, nat>, endpoint: Option<string>, id: nat,
                   now: Option<nat>): (Option<Diag>, map<string, nat>) {
    var implausible := CheckPlausible(mask, id, now);
    if implausible.Some? then (implausible, ids)
    else if Checks(mask, CHECK_ID_MONOTONIC) then CheckOrder(ids, endpoint, id)
    else (None, ids)
  }

  /** Whether the identifier can be right at all. */
  function CheckPlausible(mask: bv64, id: nat, now: Option<nat>): Option<Diag> {
    if Checks(mask, CHECK_ID_POSITIVE) && id == 0 then Some(NonPositiveId)
    else if Checks(mask, CHECK_ID_RANGE) && now.Some? && OutOfRange(mask, id, now.value) then Some(OutOfRangeId)
    else None
  }

  function CheckOrder(ids: map<string, nat>, endpoint: Option<string>, id: nat): (Option<Diag>, map<string, nat>) {
    if endpoint == None then (None, ids)
    else
      var ep := endpoint.value;
      if ep in ids && ids[ep] > id then (Some(DecreasingId), ids)
      else if ep in ids && ids[ep] == id then (Some(RepeatedId), ids)
      else (None, ids[ep := id])
  }

  function OutOfRange(mask: bv64, id: nat, now: nat): bool {
    if Checks(mask, CHECK_ID_PAST_RANGE) then AbsDiff(id, now) > VALID_ID_RANGE
    else id > now && id - now > VALID_ID_RANGE
  }

  /** Neither zero nor far from the clock, as far as the mask asks for that. */
  predicate Possible(mask: bv64, id: nat, now: Option<nat>) {
    && !(mask & 1 != 0 && id == 0)
    && !(mask & 3 != 0 && now.Some? && (id > now.value + 8640000 || (mask & 4 != 0 && id + 8640000 < now.value)))
  }

  /**
   The verdict in numbers and bits: bit 1 of the mask asks for a positive identifier, bits 1 and 2 for one near the
   clock, bit 4 also for one that is not long past, and bit 2 for one above the last of the endpoint. The identifier is
   remembered if bit 2 is set and nothing is wrong.
   */
  ghost predicate IsVerdict(mask: bv64, ids: map<string, nat>, endpoint: Option<string>, id: nat, now: Option<nat>,
                            wrong: Option<Diag>, after: map<string, nat>)
  {
    var last := if endpoint.Some? && endpoint.value in ids then Some(ids[endpoint.value]) else None;
    && (wrong == Some(NonPositiveId) <==> mask & 1 != 0 && id == 0)
    && (wrong == Some(OutOfRangeId) <==>
         !(mask & 1 != 0 && id == 0) && mask & 3 != 0 && now.Some? &&
         (id > now.value + 8640000 || (mask & 4 != 0 && id + 8640000 < now.value)))
    && (wrong == Some(DecreasingId) <==> Possible(mask, id, now) && mask & 2 != 0 && last.Some? && last.value > id)
    && (wrong == Some(RepeatedId) <==> Possible(mask, id, now) && mask & 2 != 0 && last == Some(id))
    && (wrong == None <==> Possible(mask, id, now) && !(mask & 2 != 0 && last.Some? && last.value >= id))
    && after == if wrong == None && mask & 2 != 0 && endpoint.Some? then ids[endpoint.value := id] else ids
  }

  lemma VerdictExactly(mask: bv64, ids: map<string, nat>, endpoint: Option<string>, id: nat, now: Option<nat>)
    ensures var (wrong, after) := CheckId(mask, ids, endpoint, id, now);
      IsVerdict(mask, ids, endpoint, id, now, wrong, after)
  {
  }

  // ------------------------------------------------------------ one step of a receiver

  /** `sockets` are the endpoints that have a socket. */
  datatype Snapshot = Snapshot(headers: State, ids: map<string, nat>, mask: bv64, stats: Stats, endpoints: seq<string>,
                               sockets: set<string>, connected: bool, raw: bool)

  /** What the sockets hand over, and the clock's idea of the current identifier. */
  datatype Input =
    | Delivery(parts: seq<seq<byte>>, endpoint: Option<string>, now: Option<nat>)
    | SocketFailure(endpoint: Option<string>, timedOut: bool)

  datatype Reply =
    | Delivered(endpoint: Option<string>, message: Message)
    | Refused(diag: Diag)
    | NoMessage
    | NotConnected
    | Panicked

  function ErrorDiag(e: Error): Diag {
    if e == Decompression then DecompressionError else ParsingError
  }

  /** The counters after a message that was refused because of `d`. */
  function RefusedStats(s: Stats, endpoint: Option<string>, d: Diag): Stats {
    var noted := Increased(s, endpoint, d);
    Increased(noted.(errors := noted.errors + 1), endpoint, Errors)
  }

  /** The counters after a message that was delivered. */
  function DeliveredStats(s: Stats, endpoint: Option<string>, headerChanged: bool): Stats {
    var noted := if headerChanged then Increased(s, endpoint, HeaderChange) else s;
    Increased(noted.(messages := noted.messages + 1), endpoint, Messages)
  }

  /** Receiver::receive. */
  function Receiving(w: World, s: Snapshot, input: Input): (Reply, Snapshot) {
    if s.endpoints == [] then (NotConnected, s)
    else
      match input
      case SocketFailure(endpoint, timedOut) =>
        (NoMessage, if timedOut then s else s.(stats := Increased(s.stats, endpoint, SocketError)))
      case Delivery(parts, endpoint, now) =>
        var (outcome, cache) := ParseWith(w, parts, endpoint, s.headers.cache, s.headers.maxSize, s.raw);
        var t := s.(headers := s.headers.(cache := cache));
        match outcome
        case Failed(e) =>
          if e == Panic then (Panicked, t)
          else (Refused(ErrorDiag(e)), t.(stats := RefusedStats(s.stats, endpoint, ErrorDiag(e))))
        case Parsed(m) =>
          var (wrong, ids) := CheckId(s.mask, s.ids, endpoint, m.id, now);
          if wrong.Some? then
            (Refused(wrong.value), t.(ids := ids, stats := RefusedStats(s.stats, endpoint, wrong.value)))
          else (Delivered(endpoint, m), t.(ids := ids, stats := DeliveredStats(s.stats, endpoint, m.headerChanged)))
  }

  /** Receiver, as far as it decides about messages. */
  class Receiver {
    const headerBuffer: LimitedHashMap<string, Info>
    var idBuffer: map<string, nat>
    var checkMask: bv64
    var stats: Stats
    var endpoints: seq<string>
    var sockets: set<string>
    var connected: bool
    var raw: bool

    ghost predicate Valid()
      reads this, headerBuffer
    {
      headerBuffer.Valid()
    }

    ghost function Now(): Snapshot
      reads this, headerBuffer
    {
      Snapshot(State(headerBuffer.Contents(), headerBuffer.maxSize), idBuffer, checkMask, stats, endpoints, sockets,
               connected, raw)
    }

    constructor (endpoints: seq<string>)
      ensures Valid() && fresh(headerBuffer)
      ensures Now() == Start(endpoints)
    {
      headerBuffer := new LimitedHashMap<string, Info>.Void();
      idBuffer, checkMask, stats := map[], CHECK_ALL, Stats(0, 0, map[]);
      this.endpoints, sockets, connected, raw := endpoints, {}, false, false;
    }

    method IncreaseStats(endpoint: Option<string>, d: Diag)
      modifies this`stats
      ensures stats == Increased(old(stats), endpoint, d)
    {
      var ep := Name(endpoint);
      var entries := if ep in stats.diagnostics then stats.diagnostics[ep] else map[];
      var count := if d in entries then entries[d] else 0;
      stats := stats.(diagnostics := stats.diagnostics[ep := entries[d := count + 1]]);
    }

    /** The checks that need no memory. */
    method CheckIsPlausible(endpoint: Option<string>, id: nat, now: Option<nat>) returns (wrong: Option<Diag>)
      modifies this`stats
      ensures wrong == CheckPlausible(checkMask, id, now)
      ensures stats == if wrong.Some? then Increased(old(stats), endpoint, wrong.value) else old(stats)
    {
      hide Increased, Checks, OutOfRange;
      if Checks(checkMask, CHECK_ID_POSITIVE) {
        if id <= 0 {
          IncreaseStats(endpoint, NonPositiveId);
          return Some(NonPositiveId);
        }
      }
      if Checks(checkMask, CHECK_ID_RANGE) && now.Some? {
        if OutOfRange(checkMask, id, now.value) {
          IncreaseStats(endpoint, OutOfRangeId);
          return Some(OutOfRangeId);
        }
      }
      wrong := None;
    }

    /** The monotonic check, which also remembers the identifier. */
    method CheckSuccessor(endpoint: Option<string>, id: nat) returns (wrong: Option<Diag>)
      modifies this`idBuffer, this`stats
      ensures (wrong, idBuffer) == CheckOrder(old(idBuffer), endpoint, id)
      ensures stats == if wrong.Some? then Increased(old(stats), endpoint, wrong.value) else old(stats)
    {
      hide Increased;
      if endpoint.Some? {
        var ep := endpoint.value;
        if ep in idBuffer {
          if idBuffer[ep] > id {
            IncreaseStats(endpoint, DecreasingId);
            return Some(DecreasingId);
          } else if idBuffer[ep] == id {
            IncreaseStats(endpoint, RepeatedId);
            return Some(RepeatedId);
          }
        }
        idBuffer := idBuffer[ep := id];
      }
      wrong := None;
    }

    /** check_message: the error, or None when the message may be delivered. */
    method CheckMessage(m: Message, endpoint: Option<string>, now: Option<nat>) returns (wrong: Option<Diag>)
      modifies this`idBuffer, this`stats
      ensures (wrong, idBuffer) == CheckId(checkMask, old(idBuffer), endpoint, m.id, now)
      ensures stats == if wrong.Some? then Increased(old(stats), endpoint, wrong.value)
        else if m.headerChanged then Increased(old(stats), endpoint, HeaderChange) else old(stats)
      ensures IsVerdict(checkMask, old(idBuffer), endpoint, m.id, now, wrong, idBuffer)
    {
      VerdictExactly(checkMask, idBuffer, endpoint, m.id, now);
      hide Increased, Checks, CheckPlausible, CheckOrder, IsVerdict;
      wrong := CheckIsPlausible(endpoint, m.id, now);
      if wrong.Some? {
        return;
      }
      if Checks(checkMask, CHECK_ID_MONOTONIC) {
        wrong := CheckSuccessor(endpoint, m.id);
        if wrong.Some? {
          return;
        }
      }
      if m.headerChanged {
        IncreaseStats(endpoint, HeaderChange);
      }
      wrong := None;
    }

    /** process: parses and checks a message; `wrong` is why it is refused. */
    method Process(w: World, parts: seq<seq<byte>>, endpoint: Option<string>, now: Option<nat>)
        returns (outcome: Outcome, wrong: Option<Diag>)
      requires Valid()
      modifies this`idBuffer, this`stats, headerBuffer
      ensures Valid() && headerBuffer.maxSize == old(headerBuffer.maxSize)
      ensures (outcome, headerBuffer.Contents()) ==
        ParseWith(w, parts, endpoint, old(headerBuffer.Contents()), headerBuffer.maxSize, raw)
      ensures match outcome
        case Failed(e) =>
          && idBuffer == old(idBuffer) && wrong == (if e == Panic then None else Some(ErrorDiag(e)))
          && stats == if e == Panic then old(stats) else Increased(old(stats), endpoint, ErrorDiag(e))
        case Parsed(m) =>
          && (wrong, idBuffer) == CheckId(checkMask, old(idBuffer), endpoint, m.id, now)
          && stats == if wrong.Some? then Increased(old(stats), endpoint, wrong.value)
             else if m.headerChanged then Increased(old(stats), endpoint, HeaderChange) else old(stats)
    {
      hide Increased, ParseWith, CheckId, IsVerdict, IsMessage;
      wrong := None;
      outcome := ParseMessage(w, parts, endpoint, headerBuffer, raw);
      match outcome {
        case Failed(e) =>
          if e != Panic {
            IncreaseStats(endpoint, ErrorDiag(e));
            wrong := Some(ErrorDiag(e));
          }
        case Parsed(m) =>
          wrong := CheckMessage(m, endpoint, now);
      }
    }

    /** receive, with what the sockets deliver as a parameter. */
    method Receive(w: World, input: Input) returns (r: Reply)
      requires Valid()
      modifies this`idBuffer, this`stats, headerBuffer
      ensures Valid() && (r, Now()) == Receiving(w, old(Now()), input)
    {
      hide Increased, ParseWith, CheckId;
      if endpoints == [] {
        return NotConnected;
      }
      match input {
        case SocketFailure(endpoint, timedOut) =>
          if !timedOut {
            IncreaseStats(endpoint, SocketError);
          }
          r := NoMessage;
        case Delivery(parts, endpoint, now) =>
          var outcome, wrong := Process(w, parts, endpoint, now);
          if outcome == Failed(Panic) {
            return Panicked;
          }
          if wrong.Some? {
            stats := stats.(errors := stats.errors + 1);
            IncreaseStats(endpoint, Errors);
            r := Refused(wrong.value);
          } else {
            stats := stats.(messages := stats.messages + 1);
            IncreaseStats(endpoint, Messages);
            r := Delivered(endpoint, outcome.message);
          }
      }
    }

    /** enable_check. */
    method EnableCheck(check: bv64)
      modifies this`checkMask
      ensures checkMask == WithBits(old(checkMask), check)
      ensures Switched(old(checkMask), checkMask, check, check)
    {
      hide Switched;
      SwitchesBits(checkMask, check);
      checkMask := checkMask | check;
    }

    /** disable_check. */
    method DisableCheck(check: bv64)
      modifies this`checkMask
      ensures checkMask == WithoutBits(old(checkMask), check)
      ensures Switched(old(checkMask), checkMask, check, 0)
    {
      hide Switched;
      SwitchesBits(checkMask, check);
      checkMask := checkMask & !check;
    }

    /** reset_counters. */
    method ResetCounters()
      modifies this`stats
      ensures stats == Stats(0, 0, map[])
    {
      stats := Stats(0, 0, map[]);
    }

    /** connect_endpoint; `broken` are the endpoints that no socket can be connected to. */
    method ConnectEndpoint(endpoint: string, broken: set<string>) returns (ok: bool)
      requires Valid()
      modifies this`sockets, headerBuffer
      ensures Valid() && ok == (endpoint in sockets || endpoint !in broken)
      ensures Now() == if ok then Connecting(old(Now()), endpoint) else old(Now())
      ensures ok == CanConnect(old(Now()), endpoint, broken)
      ensures ok ==> endpoint in sockets && headerBuffer.maxSize == |endpoints|
    {
      hide Trimmed;
      if endpoint !in sockets {
        if endpoint in broken {
          return false;
        }
        sockets := sockets + {endpoint};
      }
      headerBuffer.SetMaxSize(|endpoints|);
      ok := true;
    }

    /** connect: stops at the first endpoint that fails. */
    method Connect(broken: set<string>) returns (ok: bool)
      requires Valid()
      modifies this`sockets, this`connected, headerBuffer
      ensures Valid() && Now() == if old(connected) then old(Now()) else ConnectingAll(old(Now()), endpoints, broken)
      ensures ok == connected
      ensures !old(connected) ==>
        (ok <==> forall i :: 0 <= i < |endpoints| ==> endpoints[i] in old(sockets) || endpoints[i] !in broken)
      ensures !old(connected) && ok ==>
        && (forall ep :: ep in sockets <==> ep in old(sockets) || ep in endpoints)
        && (endpoints != [] ==> headerBuffer.maxSize == |endpoints|)
    {
      hide Connecting, CanConnect;
      if !connected {
        ConnectsAll(Now(), endpoints, broken);
        var i := 0;
        while i < |endpoints|
          invariant i <= |endpoints| && Valid() && !connected && endpoints == old(endpoints)
          invariant ConnectingAll(Now(), endpoints[i..], broken) == old(ConnectingAll(Now(), endpoints, broken))
        {
          assert endpoints[i..][1..] == endpoints[i + 1..];
          ok := ConnectEndpoint(endpoints[i], broken);
          if !ok {
            return;
          }
          i := i + 1;
        }
        connected := true;
      }
      ok := true;
    }

    /** disconnect: the endpoints lose their sockets; headers and identifiers stay. */
    method Disconnect()
      requires Valid()
      modifies this`sockets, this`connected
      ensures Valid() && Now() == Disconnecting(old(Now()))
      ensures !connected && forall ep :: ep in sockets <==> ep in old(sockets) && !(old(connected) && ep in endpoints)
    {
      if connected {
        connected := false;
        var i := 0;
        while i < |endpoints|
          invariant i <= |endpoints| && !connected && sockets == old(sockets) - Members(endpoints[..i])
        {
          MembersNext(endpoints, i);
          sockets := sockets - {endpoints[i]};
          i := i + 1;
        }
        assert endpoints[..i] == endpoints;
      }
    }

    /** add_endpoint; a connected receiver also connects it, and makes room for one header of every endpoint. */
    method AddEndpoint(endpoint: string, broken: set<string>) returns (ok: bool)
      requires Valid()
      modifies this`endpoints, this`sockets, headerBuffer
      ensures Valid() && Now() == Adding(old(Now()), endpoint, broken)
      ensures endpoints == if endpoint in old(endpoints) then old(endpoints) else old(endpoints) + [endpoint]
      ensures ok <==> !connected || endpoint in old(sockets) || endpoint !in broken
      ensures connected && ok ==> endpoint in sockets && headerBuffer.maxSize == |endpoints|
    {
      hide Connecting;
      if endpoint !in endpoints {
        endpoints := endpoints + [endpoint];
      }
      ok := true;
      if connected {
        ok := ConnectEndpoint(endpoint, broken);
      }
    }

    /** remove_endpoint: its diagnostics go, its last identifier and its header stay. */
    method RemoveEndpoint(endpoint: string)
      requires Valid()
      modifies this`endpoints, this`sockets, this`stats
      ensures Valid() && Now() == Removing(old(Now()), endpoint)
      ensures forall ep :: ep in endpoints <==> ep in old(endpoints) && ep != endpoint
      ensures forall ep :: ep in sockets <==> ep in old(sockets) && !(connected && ep == endpoint)
      ensures forall ep, d :: Count(stats, ep, d) == if ep == endpoint then 0 else Count(old(stats), ep, d)
    {
      if connected {
        sockets := sockets - {endpoint};
      }
      endpoints := Without(endpoints, endpoint);
      stats := stats.(diagnostics := stats.diagnostics - {endpoint});
    }
  }

  function Members(ss: seq<string>): set<string> {
    set ep | ep in ss
  }

  lemma MembersNext(ss: seq<string>, i: nat)
    requires i < |ss|
    ensures Members(ss[..i + 1]) == Members(ss[..i]) + {ss[i]}
  {
    assert ss[..i + 1] == ss[..i] + [ss[i]];
  }

  predicate CanConnect(s: Snapshot, endpoint: string, broken: set<string>) {
    endpoint in s.sockets || endpoint !in broken
  }

  /** The endpoint gets a socket, and the header buffer room for one header of every endpoint. */
  function Connecting(s: Snapshot, endpoint: string): Snapshot {
    var n := |s.endpoints|;
    s.(sockets := s.sockets + {endpoint}, headers := State(Trimmed(s.headers.cache, n), n))
  }

  function ConnectingAll(s: Snapshot, endpoints: seq<string>, broken: set<string>): (r: Snapshot)
    ensures r == s.(sockets := r.sockets, headers := r.headers, connected := r.connected)
    decreases |endpoints|
  {
    if endpoints == [] then s.(connected := true)
    else if CanConnect(s, endpoints[0], broken) then
      ConnectingAll(Connecting(s, endpoints[0]), endpoints[1..], broken)
    else s
  }

  /** Connecting succeeds if no endpoint without a socket is broken; then every endpoint has one. */
  lemma {:induction false} ConnectsAll(s: Snapshot, endpoints: seq<string>, broken: set<string>)
    requires !s.connected
    ensures var r := ConnectingAll(s, endpoints, broken);
      && (r.connected <==> forall i :: 0 <= i < |endpoints| ==> endpoints[i] in s.sockets || endpoints[i] !in broken)
      && (r.connected ==>
           && (forall ep :: ep in r.sockets <==> ep in s.sockets || ep in endpoints)
           && (endpoints != [] ==> r.headers.maxSize == |s.endpoints|))
    decreases |endpoints|
  {
    hide Trimmed;
    if endpoints != [] {
      var rest := endpoints[1..];
      assert endpoints == [endpoints[0]] + rest;
      if CanConnect(s, endpoints[0], broken) {
        ConnectsAll(Connecting(s, endpoints[0]), rest, broken);
      }
    }
  }

  function Disconnecting(s: Snapshot): Snapshot {
    if s.connected then s.(connected := false, sockets := s.sockets - Members(s.endpoints)) else s
  }

  function Adding(s: Snapshot, endpoint: string, broken: set<string>): Snapshot {
    var t := s.(endpoints := if endpoint in s.endpoints then s.endpoints else s.endpoints + [endpoint]);
    if t.connected && CanConnect(t, endpoint, broken) then Connecting(t, endpoint) else t
  }

  function Removing(s: Snapshot, endpoint: string): Snapshot {
    s.(endpoints := Without(s.endpoints, endpoint),
       sockets := if s.connected then s.sockets - {endpoint} else s.sockets,
       stats := s.stats.(diagnostics := s.stats.diagnostics - {endpoint}))
  }

  // ------------------------------------------------------------ runs

  datatype Command =
    | Receive(input: Input)
    | Connect(broken: set<string>)
    | Disconnect
    | Add(endpoint: string, broken: set<string>)
    | Remove(endpoint: string)
    | Reset
    | Enable(check: bv64)
    | Disable(check: bv64)

  function Apply(w: World, s: Snapshot, c: Command): Snapshot {
    match c
    case Receive(input) => Receiving(w, s, input).1
    case Connect(broken) => if s.connected then s else ConnectingAll(s, s.endpoints, broken)
    case Disconnect => Disconnecting(s)
    case Add(endpoint, broken) => Adding(s, endpoint, broken)
    case Remove(endpoint) => Removing(s, endpoint)
    case Reset => s.(stats := Stats(0, 0, map[]))
    case Enable(check) => s.(mask := WithBits(s.mask, check))
    case Disable(check) => s.(mask := WithoutBits(s.mask, check))
  }

  function After(w: World, s: Snapshot, cs: seq<Command>): Snapshot {
    if cs == [] then s else Apply(w, After(w, s, cs[..|cs| - 1]), cs[|cs| - 1])
  }

  function Start(endpoints: seq<string>): Snapshot {
    Snapshot(State(EMPTY, 1), map[], CHECK_ALL, Stats(0, 0, map[]), endpoints, {}, false, false)
  }

  // ------------------------------------------------------------ errors and their reasons

  /** The six reasons for refusing a message. */
  function Reasons(s: Stats, ep: string): nat {
    Count(s, ep, RepeatedId) + Count(s, ep, NonPositiveId) + Count(s, ep, DecreasingId) +
    Count(s, ep, OutOfRangeId) + Count(s, ep, ParsingError) + Count(s, ep, DecompressionError)
  }

  /** Every error of an endpoint has exactly one reason. */
  ghost predicate Balanced(s: Stats) {
    forall ep :: Count(s, ep, Errors) == Reasons(s, ep)
  }

  predicate IsReason(d: Diag) {
    d.RepeatedId? || d.NonPositiveId? || d.DecreasingId? || d.OutOfRangeId? || d.ParsingError? || d.DecompressionError?
  }

  lemma IncreasedReasons(s: Stats, endpoint: Option<string>, d: Diag, ep: string)
    ensures Reasons(Increased(s, endpoint, d), ep) ==
      Reasons(s, ep) + if ep == Name(endpoint) && IsReason(d) then 1 else 0
  {
    hide Count, Increased;
    IncreasedCounts(s, endpoint, d, ep, RepeatedId);
    IncreasedCounts(s, endpoint, d, ep, NonPositiveId);
    IncreasedCounts(s, endpoint, d, ep, DecreasingId);
    IncreasedCounts(s, endpoint, d, ep, OutOfRangeId);
    IncreasedCounts(s, endpoint, d, ep, ParsingError);
    IncreasedCounts(s, endpoint, d, ep, DecompressionError);
  }

  lemma SameCounts(s: Stats, t: Stats, ep: string, d: Diag)
    requires s.diagnostics == t.diagnostics
    ensures Count(s, ep, d) == Count(t, ep, d) && Reasons(s, ep) == Reasons(t, ep)
  {
  }

  lemma IncreasedBalanced(s: Stats, endpoint: Option<string>, d: Diag)
    requires Balanced(s) && !IsReason(d) && d != Errors
    ensures Balanced(Increased(s, endpoint, d))
  {
    hide Count, Increased, Reasons;
    forall ep ensures Count(Increased(s, endpoint, d), ep, Errors) == Reasons(Increased(s, endpoint, d), ep) {
      IncreasedCounts(s, endpoint, d, ep, Errors);
      IncreasedReasons(s, endpoint, d, ep);
    }
  }

  lemma DeliveredBalanced(s: Stats, endpoint: Option<string>, changed: bool)
    requires Balanced(s)
    ensures Balanced(DeliveredStats(s, endpoint, changed))
  {
    hide Count, Increased, Reasons;
    if changed {
      IncreasedBalanced(s, endpoint, HeaderChange);
    }
    var noted := if changed then Increased(s, endpoint, HeaderChange) else s;
    var more := noted.(messages := noted.messages + 1);
    forall ep ensures Count(more, ep, Errors) == Reasons(more, ep) {
      SameCounts(noted, more, ep, Errors);
    }
    IncreasedBalanced(more, endpoint, Messages);
  }

  lemma RefusedBalanced(s: Stats, endpoint: Option<string>, d: Diag)
    requires Balanced(s) && IsReason(d)
    ensures Balanced(RefusedStats(s, endpoint, d))
  {
    hide Count, Increased, Reasons;
    var noted := Increased(s, endpoint, d);
    var more := noted.(errors := noted.errors + 1);
    var r := Increased(more, endpoint, Errors);
    forall ep ensures Count(r, ep, Errors) == Reasons(r, ep) {
      IncreasedCounts(s, endpoint, d, ep, Errors);
      IncreasedReasons(s, endpoint, d, ep);
      SameCounts(noted, more, ep, Errors);
      IncreasedCounts(more, endpoint, Errors, ep, Errors);
      IncreasedReasons(more, endpoint, Errors, ep);
    }
  }

  lemma CheckIdReason(mask: bv64, ids: map<string, nat>, endpoint: Option<string>, id: nat, now: Option<nat>)
    ensures var (wrong, after) := CheckId(mask, ids, endpoint, id, now);
      wrong.Some? ==> IsReason(wrong.value) && after == ids
  {
    hide Checks, OutOfRange;
  }

  lemma ApplyBalanced(w: World, s: Snapshot, c: Command)
    requires Balanced(s.stats)
    ensures Balanced(Apply(w, s, c).stats)
  {
    hide Balanced, Increased, ParseWith, CheckId, RefusedStats, DeliveredStats, Trimmed, Without;
    match c {
      case Receive(input) =>
        match input {
          case SocketFailure(endpoint, timedOut) => IncreasedBalanced(s.stats, endpoint, SocketError);
          case Delivery(parts, endpoint, now) =>
            var (outcome, cache) := ParseWith(w, parts, endpoint, s.headers.cache, s.headers.maxSize, s.raw);
            match outcome {
              case Failed(e) => RefusedBalanced(s.stats, endpoint, ErrorDiag(e));
              case Parsed(m) =>
                CheckIdReason(s.mask, s.ids, endpoint, m.id, now);
                var (wrong, ids) := CheckId(s.mask, s.ids, endpoint, m.id, now);
                if wrong.Some? {
                  RefusedBalanced(s.stats, endpoint, wrong.value);
                } else {
                  DeliveredBalanced(s.stats, endpoint, m.headerChanged);
                }
            }
        }
      case Remove(endpoint) => RemovedBalanced(s.stats, endpoint);
      case Reset => EmptyBalanced();
      case _ =>
    }
  }

  lemma RemovedBalanced(s: Stats, endpoint: string)
    requires Balanced(s)
    ensures Balanced(s.(diagnostics := s.diagnostics - {endpoint}))
  {
    forall ep
      ensures Count(s.(diagnostics := s.diagnostics - {endpoint}), ep, Errors) ==
        Reasons(s.(diagnostics := s.diagnostics - {endpoint}), ep)
    {
      assert Count(s, ep, Errors) == Reasons(s, ep);
    }
  }

  lemma EmptyBalanced()
    ensures Balanced(Stats(0, 0, map[]))
  {
  }

  /** In every run, for every endpoint, the error counter is the sum of the six reasons for refusing a message. */
  lemma {:induction false} ErrorsHaveReasons(w: World, endpoints: seq<string>, cs: seq<Command>, ep: string)
    ensures Balanced(After(w, Start(endpoints), cs).stats)
    ensures Count(After(w, Start(endpoints), cs).stats, ep, Errors) == Reasons(After(w, Start(endpoints), cs).stats, ep)
  {
    hide Apply, Reasons, Count;
    if cs == [] {
      EmptyBalanced();
    } else {
      ErrorsHaveReasons(w, endpoints, cs[..|cs| - 1], ep);
      ApplyBalanced(w, After(w, Start(endpoints), cs[..|cs| - 1]), cs[|cs| - 1]);
    }
  }

  // ------------------------------------------------------------ totals

  /** A diagnostic summed over the endpoints. */
  ghost function Total(m: map<string, map<Diag, nat>>, d: Diag): nat
    decreases |m|
  {
    if m == map[] then 0
    else
      var k :| k in m;
      Total(m - {k}, d) + if d in m[k] then m[k][d] else 0
  }

  /** The sum does not depend on the order in which the endpoints are taken. */
  lemma {:induction false} TotalWithout(m: map<string, map<Diag, nat>>, d: Diag, k: string)
    requires k in m
    ensures Total(m, d) == Total(m - {k}, d) + if d in m[k] then m[k][d] else 0
    decreases |m|
  {
    var j :| j in m && Total(m, d) == Total(m - {j}, d) + if d in m[j] then m[j][d] else 0;
    if j != k {
      TotalWithout(m - {j}, d, k);
      TotalWithout(m - {k}, d, j);
      assert m - {j} - {k} == m - {k} - {j};
    }
  }

  lemma IncreasedTotal(s: Stats, endpoint: Option<string>, d: Diag, e: Diag)
    ensures Total(Increased(s, endpoint, d).diagnostics, e) == Total(s.diagnostics, e) + if e == d then 1 else 0
  {
    hide Total;
    var ep, m, r := Name(endpoint), s.diagnostics, Increased(s, endpoint, d).diagnostics;
    TotalWithout(r, e, ep);
    assert r - {ep} == m - {ep};
    if ep in m {
      TotalWithout(m, e, ep);
    } else {
      assert m - {ep} == m;
    }
  }

  /** The per-endpoint diagnostics add up to the counters of the receiver. */
  ghost predicate AddsUp(s: Stats) {
    Total(s.diagnostics, Messages) == s.messages && Total(s.diagnostics, Errors) == s.errors
  }

  /** They never exceed them, once endpoints have been removed. */
  ghost predicate Within(s: Stats) {
    Total(s.diagnostics, Messages) <= s.messages && Total(s.diagnostics, Errors) <= s.errors
  }

  lemma RefusedTotals(s: Stats, endpoint: Option<string>, d: Diag)
    requires IsReason(d)
    ensures AddsUp(s) ==> AddsUp(RefusedStats(s, endpoint, d))
    ensures Within(s) ==> Within(RefusedStats(s, endpoint, d))
  {
    hide Total, Increased;
    var noted := Increased(s, endpoint, d);
    var more := noted.(errors := noted.errors + 1);
    IncreasedTotal(s, endpoint, d, Messages);
    IncreasedTotal(s, endpoint, d, Errors);
    IncreasedTotal(more, endpoint, Errors, Messages);
    IncreasedTotal(more, endpoint, Errors, Errors);
    IncreasedCounts(s, endpoint, d, "", d);
    IncreasedCounts(more, endpoint, Errors, "", d);
  }

  lemma OtherTotals(s: Stats, endpoint: Option<string>, d: Diag)
    requires d != Messages && d != Errors
    ensures AddsUp(s) ==> AddsUp(Increased(s, endpoint, d))
    ensures Within(s) ==> Within(Increased(s, endpoint, d))
  {
    hide Total, Increased;
    IncreasedTotal(s, endpoint, d, Messages);
    IncreasedTotal(s, endpoint, d, Errors);
    IncreasedCounts(s, endpoint, d, "", d);
  }

  lemma DeliveredTotals(s: Stats, endpoint: Option<string>, changed: bool)
    ensures AddsUp(s) ==> AddsUp(DeliveredStats(s, endpoint, changed))
    ensures Within(s) ==> Within(DeliveredStats(s, endpoint, changed))
  {
    hide Total, Increased;
    var noted := if changed then Increased(s, endpoint, HeaderChange) else s;
    var more := noted.(messages := noted.messages + 1);
    OtherTotals(s, endpoint, HeaderChange);
    IncreasedTotal(more, endpoint, Messages, Messages);
    IncreasedTotal(more, endpoint, Messages, Errors);
    IncreasedCounts(more, endpoint, Messages, "", Messages);
  }

  lemma RemovedTotals(s: Stats, endpoint: string)
    requires Within(s)
    ensures Within(s.(diagnostics := s.diagnostics - {endpoint}))
  {
    hide Total;
    if endpoint in s.diagnostics {
      TotalWithout(s.diagnostics, Messages, endpoint);
      TotalWithout(s.diagnostics, Errors, endpoint);
    } else {
      assert s.diagnostics - {endpoint} == s.diagnostics;
    }
  }

  lemma ApplyTotals(w: World, s: Snapshot, c: Command)
    ensures AddsUp(s.stats) && !c.Remove? ==> AddsUp(Apply(w, s, c).stats)
    ensures Within(s.stats) ==> Within(Apply(w, s, c).stats)
  {
    hide AddsUp, Within, Increased, ParseWith, CheckId, RefusedStats, DeliveredStats, Trimmed, Without;
    match c {
      case Receive(input) =>
        match input {
          case SocketFailure(endpoint, timedOut) => OtherTotals(s.stats, endpoint, SocketError);
          case Delivery(parts, endpoint, now) =>
            var (outcome, cache) := ParseWith(w, parts, endpoint, s.headers.cache, s.headers.maxSize, s.raw);
            match outcome {
              case Failed(e) => RefusedTotals(s.stats, endpoint, ErrorDiag(e));
              case Parsed(m) =>
                CheckIdReason(s.mask, s.ids, endpoint, m.id, now);
                var (wrong, ids) := CheckId(s.mask, s.ids, endpoint, m.id, now);
                if wrong.Some? {
                  RefusedTotals(s.stats, endpoint, wrong.value);
                } else {
                  DeliveredTotals(s.stats, endpoint, m.headerChanged);
                }
            }
        }
      case Remove(endpoint) =>
        if Within(s.stats) {
          RemovedTotals(s.stats, endpoint);
        }
      case Reset => EmptyTotals();
      case _ =>
    }
  }

  lemma EmptyTotals()
    ensures AddsUp(Stats(0, 0, map[])) && Within(Stats(0, 0, map[]))
  {
  }

  /**
   In every run the diagnostics of the endpoints add up to message_count and error_count, unless an endpoint
   was removed; then they may fall short.
   */
  lemma {:induction false} CountersAddUp(w: World, endpoints: seq<string>, cs: seq<Command>)
    ensures Within(After(w, Start(endpoints), cs).stats)
    ensures (forall c :: c in cs ==> !c.Remove?) ==> AddsUp(After(w, Start(endpoints), cs).stats)
  {
    hide Apply, AddsUp, Within;
    if cs == [] {
      EmptyTotals();
    } else {
      var front := cs[..|cs| - 1];
      CountersAddUp(w, endpoints, front);
      ApplyTotals(w, After(w, Start(endpoints), front), cs[|cs| - 1]);
    }
  }

  // ------------------------------------------------------------ identifiers of one endpoint

  /** The identifiers of the messages that were delivered for an endpoint, in order. */
  function DeliveredIds(w: World, s: Snapshot, cs: seq<Command>, ep: string): seq<nat> {
    if cs == [] then []
    else
      var front, c := cs[..|cs| - 1], cs[|cs| - 1];
      var before := DeliveredIds(w, s, front, ep);
      if c.Receive? then
        match Receiving(w, After(w, s, front), c.input).0
        case Delivered(endpoint, m) => if endpoint == Some(ep) then before + [m.id] else before
        case _ => before
      else before
  }

  ghost predicate Increasing(ids: seq<nat>) {
    forall i, j :: 0 <= i < j < |ids| ==> ids[i] < ids[j]
  }

  /** The last delivered identifier is the remembered one, and nothing else is remembered. */
  ghost predicate OnTrack(ids: map<string, nat>, delivered: seq<nat>, ep: string) {
    && Increasing(delivered) && (ep in ids <==> delivered != [])
    && (delivered != [] ==> ids[ep] == delivered[|delivered| - 1])
  }

  /** The command does not switch off the monotonic check. */
  predicate KeepsMonotonic(c: Command) {
    c.Disable? ==> !Checks(c.check, CHECK_ID_MONOTONIC)
  }

  lemma MaskBits(mask: bv64, check: bv64)
    requires Checks(mask, CHECK_ID_MONOTONIC)
    ensures Checks(WithBits(mask, check), CHECK_ID_MONOTONIC)
    ensures Checks(WithoutBits(mask, check), CHECK_ID_MONOTONIC) <==> !Checks(check, CHECK_ID_MONOTONIC)
  {
  }

  /** The range check is two bits wide: disabling it also disables the positive and the monotonic check. */
  lemma RangeCheckOverlaps(mask: bv64)
    ensures var m := WithoutBits(mask, CHECK_ID_RANGE);
      !Checks(m, CHECK_ID_RANGE) && !Checks(m, CHECK_ID_POSITIVE) && !Checks(m, CHECK_ID_MONOTONIC)
    ensures Checks(mask, CHECK_ID_RANGE) <==> Checks(mask, CHECK_ID_POSITIVE) || Checks(mask, CHECK_ID_MONOTONIC)
  {
  }

  /** A refused message leaves the remembered identifiers alone; a delivered one is above the last and is remembered. */
  lemma CheckedSuccessor(mask: bv64, ids: map<string, nat>, endpoint: Option<string>, id: nat, now: Option<nat>)
    requires Checks(mask, CHECK_ID_MONOTONIC)
    ensures var (wrong, after) := CheckId(mask, ids, endpoint, id, now);
      && (wrong.Some? ==> after == ids)
      && (wrong == None && endpoint.Some? ==>
            after == ids[endpoint.value := id] && (endpoint.value in ids ==> ids[endpoint.value] < id))
      && (wrong == None && endpoint == None ==> after == ids)
  {
    hide Checks, OutOfRange;
  }

  lemma TrackNext(ids: map<string, nat>, before: seq<nat>, ep: string, q: string, id: nat)
    requires OnTrack(ids, before, ep) && (q in ids ==> ids[q] < id)
    ensures OnTrack(ids[q := id], if q == ep then before + [id] else before, ep)
  {
  }

  /** What receiving does to the remembered identifiers. */
  lemma ReceivingIds(w: World, s: Snapshot, input: Input)
    requires Checks(s.mask, CHECK_ID_MONOTONIC)
    ensures var (r, t) := Receiving(w, s, input);
      && t.mask == s.mask
      && (!r.Delivered? || r.endpoint == None ==> t.ids == s.ids)
      && (r.Delivered? && r.endpoint.Some? ==>
           && t.ids == s.ids[r.endpoint.value := r.message.id]
           && (r.endpoint.value in s.ids ==> s.ids[r.endpoint.value] < r.message.id))
  {
    hide Checks, ParseWith, CheckId, RefusedStats, DeliveredStats, Increased, Trimmed;
    if input.Delivery? && s.endpoints != [] {
      var (outcome, cache) := ParseWith(w, input.parts, input.endpoint, s.headers.cache, s.headers.maxSize, s.raw);
      if outcome.Parsed? {
        CheckedSuccessor(s.mask, s.ids, input.endpoint, outcome.message.id, input.now);
      }
    }
  }

  lemma ApplyOnTrack(w: World, s: Snapshot, c: Command, ep: string, before: seq<nat>, delivered: seq<nat>)
    requires Checks(s.mask, CHECK_ID_MONOTONIC) && KeepsMonotonic(c) && OnTrack(s.ids, before, ep)
    requires delivered ==
      if c.Receive? && Receiving(w, s, c.input).0.Delivered? && Receiving(w, s, c.input).0.endpoint == Some(ep) then
        before + [Receiving(w, s, c.input).0.message.id]
      else
        before
    ensures Checks(Apply(w, s, c).mask, CHECK_ID_MONOTONIC) && OnTrack(Apply(w, s, c).ids, delivered, ep)
  {
    hide Checks, WithBits, WithoutBits, OnTrack, Receiving, Trimmed, Without;
    match c {
      case Receive(input) =>
        ReceivingIds(w, s, input);
        var r := Receiving(w, s, input).0;
        if r.Delivered? && r.endpoint.Some? {
          TrackNext(s.ids, before, ep, r.endpoint.value, r.message.id);
        }
      case Enable(check) => MaskBits(s.mask, check);
      case Disable(check) => MaskBits(s.mask, check);
      case _ =>
    }
  }

  /** While the monotonic check stays enabled, the identifiers delivered for an endpoint strictly increase. */
  lemma {:induction false} IdsIncrease(w: World, endpoints: seq<string>, cs: seq<Command>, ep: string)
    requires forall c :: c in cs ==> KeepsMonotonic(c)
    ensures Increasing(DeliveredIds(w, Start(endpoints), cs, ep))
    ensures Checks(After(w, Start(endpoints), cs).mask, CHECK_ID_MONOTONIC)
    ensures OnTrack(After(w, Start(endpoints), cs).ids, DeliveredIds(w, Start(endpoints), cs, ep), ep)
  {
    hide Receiving, KeepsMonotonic, Checks;
    if cs == [] {
      AllChecks();
    } else {
      var front, c := cs[..|cs| - 1], cs[|cs| - 1];
      IdsIncrease(w, endpoints, front, ep);
      ApplyOnTrack(w, After(w, Start(endpoints), front), c, ep, DeliveredIds(w, Start(endpoints), front, ep),
                   DeliveredIds(w, Start(endpoints), cs, ep));
    }
  }

  lemma AllChecks()
    ensures Checks(CHECK_ALL, CHECK_ID_MONOTONIC)
  {
  }
}
