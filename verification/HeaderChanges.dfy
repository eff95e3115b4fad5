/** Header changes as a receiver counts them: exact, as long as no endpoint is removed. */
module HeaderChanges {
  import opened Basics
  import opened Bytes
  import opened Containers
  import opened MessageCache
  import opened Receiver

  /**
   Messages come from endpoints that have a socket, and their hashes are no names of endpoints; no endpoint is removed.
   `names` are the endpoints that the receiver is ever told of.
   */
  ghost predicate Proper(w: World, names: set<string>, s: Snapshot, c: Command) {
    match c
    case Receive(Delivery(parts, endpoint, _)) =>
      endpoint.Some? && endpoint.value in s.sockets && Individual(w, names, Event.Receive(parts, endpoint))
    case Add(endpoint, _) => endpoint in names
    case Remove(_) => false
    case _ => true
  }

  ghost predicate AllProper(w: World, names: set<string>, endpoints: seq<string>, cs: seq<Command>) {
    && Members(endpoints) <= names
    && forall k :: 0 <= k < |cs| ==> Proper(w, names, After(w, Start(endpoints), cs[..k]), cs[k])
  }

  /** What parse_message makes of a delivery. */
  function Outcome(w: World, s: Snapshot, input: Input): Outcome
    requires input.Delivery?
  {
    ParseWith(w, input.parts, input.endpoint, s.headers.cache, s.headers.maxSize, s.raw).0
  }

  /** The hash of the last message of each endpoint that was parsed, after one more command. */
  function NextLast(w: World, s: Snapshot, c: Command, last: map<string, string>): map<string, string> {
    if c.Receive? && c.input.Delivery? && c.input.endpoint.Some? && Outcome(w, s, c.input).Parsed? then
      last[c.input.endpoint.value := Outcome(w, s, c.input).message.hash]
    else
      last
  }

  /** The same after a run. */
  function LastParsed(w: World, endpoints: seq<string>, cs: seq<Command>): map<string, string> {
    if cs == [] then map[]
    else
      var front := cs[..|cs| - 1];
      NextLast(w, After(w, Start(endpoints), front), cs[|cs| - 1], LastParsed(w, endpoints, front))
  }

  /** The endpoints that have ever had a socket. */
  function EverConnected(w: World, endpoints: seq<string>, cs: seq<Command>): set<string> {
    if cs == [] then {}
    else EverConnected(w, endpoints, cs[..|cs| - 1]) + After(w, Start(endpoints), cs).sockets
  }

  /** There is room for the header of every endpoint that has ever had a socket, and the cache has the last ones. */
  ghost predicate Keeping(s: Snapshot, last: map<string, string>, ever: set<string>, names: set<string>) {
    && s.sockets <= ever <= Members(s.endpoints) <= names
    && |ever| <= s.headers.maxSize && Tracks(s.headers.cache, last, ever)
  }

  lemma {:induction false} MembersSize(ss: seq<string>)
    ensures |Members(ss)| <= |ss|
  {
    if ss != [] {
      var k := |ss| - 1;
      MembersSize(ss[..k]);
      MembersNext(ss, k);
      assert ss[..k + 1] == ss;
    }
  }

  lemma ConnectingKeeps(s: Snapshot, endpoint: string, last: map<string, string>, ever: set<string>, names: set<string>)
    requires Keeping(s, last, ever, names) && endpoint in s.endpoints
    ensures Keeping(Connecting(s, endpoint), last, ever + {endpoint}, names)
  {
    hide Tracks, Trimmed;
    var more, n := ever + {endpoint}, |s.endpoints|;
    MembersSize(s.endpoints);
    SubsetSize(more, Members(s.endpoints));
    TracksMore(s.headers.cache, last, ever, more);
    ResizeTracks(s.headers.cache, last, more, n);
  }

  lemma {:induction false} ConnectingAllKeeps(s: Snapshot, endpoints: seq<string>, broken: set<string>,
                                              last: map<string, string>, ever: set<string>, names: set<string>)
    requires Keeping(s, last, ever, names) && Members(endpoints) <= Members(s.endpoints)
    ensures var t := ConnectingAll(s, endpoints, broken); Keeping(t, last, ever + t.sockets, names)
    decreases |endpoints|
  {
    hide Tracks, Connecting;
    if endpoints == [] || !CanConnect(s, endpoints[0], broken) {
      assert ever + s.sockets == ever;
    } else {
      assert endpoints[0] in Members(endpoints);
      ConnectingKeeps(s, endpoints[0], last, ever, names);
      var t := Connecting(s, endpoints[0]);
      ConnectedSockets(s, endpoints[0]);
      assert Members(endpoints[1..]) <= Members(endpoints);
      ConnectingAllKeeps(t, endpoints[1..], broken, last, ever + {endpoints[0]}, names);
      StillConnected(t, endpoints[1..], broken);
      var u := ConnectingAll(t, endpoints[1..], broken);
      assert ever + {endpoints[0]} + u.sockets == ever + u.sockets;
    }
  }

  lemma ConnectedSockets(s: Snapshot, endpoint: string)
    ensures Connecting(s, endpoint).sockets == s.sockets + {endpoint}
    ensures Connecting(s, endpoint).endpoints == s.endpoints
  {
  }

  lemma {:induction false} StillConnected(s: Snapshot, endpoints: seq<string>, broken: set<string>)
    ensures s.sockets <= ConnectingAll(s, endpoints, broken).sockets
    decreases |endpoints|
  {
    hide Trimmed;
    if endpoints != [] && CanConnect(s, endpoints[0], broken) {
      StillConnected(Connecting(s, endpoints[0]), endpoints[1..], broken);
    }
  }

  lemma AddingKeeps(s: Snapshot, endpoint: string, broken: set<string>, last: map<string, string>, ever: set<string>,
                    names: set<string>)
    requires Keeping(s, last, ever, names) && endpoint in names
    ensures var t := Adding(s, endpoint, broken); Keeping(t, last, ever + t.sockets, names)
  {
    hide Tracks, Connecting;
    var t := s.(endpoints := if endpoint in s.endpoints then s.endpoints else s.endpoints + [endpoint]);
    assert Members(t.endpoints) == Members(s.endpoints) + {endpoint};
    if t.connected && CanConnect(t, endpoint, broken) {
      ConnectingKeeps(t, endpoint, last, ever, names);
      ConnectedSockets(t, endpoint);
      assert ever + (t.sockets + {endpoint}) == ever + {endpoint};
    } else {
      assert ever + t.sockets == ever;
    }
  }

  /** The mark of a message: its hash is not that of the last message that was parsed from its endpoint. */
  ghost predicate MarkFits(m: Message, endpoint: string, last: map<string, string>) {
    m.headerChanged <==> !(endpoint in last && last[endpoint] == m.hash)
  }

  /** What receiving leaves alone. */
  lemma ReceivingEffect(w: World, s: Snapshot, input: Input)
    requires s.endpoints != []
    ensures var t := Receiving(w, s, input).1;
      && t.sockets == s.sockets && t.endpoints == s.endpoints && t.headers.maxSize == s.headers.maxSize
      && t.headers.cache ==
           if input.Delivery? then
             ParseWith(w, input.parts, input.endpoint, s.headers.cache, s.headers.maxSize, s.raw).1
           else
             s.headers.cache
  {
    hide ParseWith, CheckId, RefusedStats, DeliveredStats, Increased;
  }

  lemma ReceivingKeeps(w: World, s: Snapshot, input: Input, last: map<string, string>, ever: set<string>,
                       names: set<string>)
    requires Keeping(s, last, ever, names) && Proper(w, names, s, Command.Receive(input))
    ensures var t := Receiving(w, s, input).1;
      Keeping(t, NextLast(w, s, Command.Receive(input), last), ever + t.sockets, names)
    ensures input.Delivery? && Outcome(w, s, input).Parsed? ==>
      MarkFits(Outcome(w, s, input).message, input.endpoint.value, last)
  {
    hide Tracks, ParseWith, Receiving;
    NotConnectedKeeps(w, s, input);
    assert ever + s.sockets == ever;
    if s.endpoints != [] {
      ReceivingEffect(w, s, input);
      if input.Delivery? {
        InEver(w, names, ever, input.parts, input.endpoint);
        MarkedExactly(w, ever, input.parts, input.endpoint.value, s.headers, last, s.raw);
      }
    } else {
      assert Members(s.endpoints) == {};
    }
  }

  lemma NotConnectedKeeps(w: World, s: Snapshot, input: Input)
    ensures s.endpoints == [] ==> Receiving(w, s, input).1 == s
  {
    hide ParseWith, CheckId, RefusedStats, DeliveredStats, Increased;
  }

  lemma InEver(w: World, names: set<string>, ever: set<string>, parts: seq<seq<byte>>, endpoint: Option<string>)
    requires Individual(w, names, Event.Receive(parts, endpoint)) && ever <= names && endpoint.value in ever
    ensures Individual(w, ever, Event.Receive(parts, endpoint))
  {
  }

  lemma ApplyKeeps(w: World, s: Snapshot, c: Command, last: map<string, string>, ever: set<string>, names: set<string>)
    requires Keeping(s, last, ever, names) && Proper(w, names, s, c)
    ensures var t := Apply(w, s, c); Keeping(t, NextLast(w, s, c, last), ever + t.sockets, names)
  {
    hide Tracks, Receiving, Individual;
    match c {
      case Receive(input) => ReceivingKeeps(w, s, input, last, ever, names);
      case Connect(broken) =>
        if s.connected {
          assert ever + s.sockets == ever;
        } else {
          ConnectingAllKeeps(s, s.endpoints, broken, last, ever, names);
        }
      case Add(endpoint, broken) => AddingKeeps(s, endpoint, broken, last, ever, names);
      case Disconnect => assert ever + Disconnecting(s).sockets == ever;
      case Remove(_) =>
      case _ => assert ever + s.sockets == ever;
    }
  }

  lemma {:induction false} RunKeeps(w: World, names: set<string>, endpoints: seq<string>, cs: seq<Command>)
    requires AllProper(w, names, endpoints, cs)
    ensures var last, ever := LastParsed(w, endpoints, cs), EverConnected(w, endpoints, cs);
      Keeping(After(w, Start(endpoints), cs), last, ever, names)
  {
    hide Apply, Keeping, Proper, NextLast;
    if cs == [] {
      StartKeeps(endpoints, names);
    } else {
      var front := cs[..|cs| - 1];
      ProperFront(w, names, endpoints, cs);
      RunKeeps(w, names, endpoints, front);
      ApplyKeeps(w, After(w, Start(endpoints), front), cs[|cs| - 1], LastParsed(w, endpoints, front),
                 EverConnected(w, endpoints, front), names);
    }
  }

  lemma StartKeeps(endpoints: seq<string>, names: set<string>)
    requires Members(endpoints) <= names
    ensures Keeping(Start(endpoints), map[], {}, names)
  {
    hide Tracks;
    EmptyTracks();
  }

  lemma ProperFront(w: World, names: set<string>, endpoints: seq<string>, cs: seq<Command>)
    requires AllProper(w, names, endpoints, cs) && cs != []
    ensures AllProper(w, names, endpoints, cs[..|cs| - 1])
    ensures Proper(w, names, After(w, Start(endpoints), cs[..|cs| - 1]), cs[|cs| - 1])
  {
    hide Proper, After;
    var front := cs[..|cs| - 1];
    forall k | 0 <= k < |front| ensures Proper(w, names, After(w, Start(endpoints), front[..k]), front[k]) {
      assert front[..k] == cs[..k];
    }
  }

  /** One more header change is due: a message is delivered whose hash is not that of the last one of its endpoint. */
  function IsChange(w: World, s: Snapshot, c: Command, last: map<string, string>, ep: string): bool {
    c.Receive? && c.input.Delivery? && c.input.endpoint == Some(ep) && Receiving(w, s, c.input).0.Delivered? &&
    !(ep in last && last[ep] == Receiving(w, s, c.input).0.message.hash)
  }

  /** The header changes of an endpoint since the counters were last reset. */
  function Changes(w: World, endpoints: seq<string>, cs: seq<Command>, ep: string): nat {
    if cs == [] || cs[|cs| - 1].Reset? then 0
    else
      var front, c := cs[..|cs| - 1], cs[|cs| - 1];
      var due := IsChange(w, After(w, Start(endpoints), front), c, LastParsed(w, endpoints, front), ep);
      Changes(w, endpoints, front, ep) + if due then 1 else 0
  }

  lemma CountedChange(w: World, s: Snapshot, c: Command, ep: string)
    requires !c.Remove? && !c.Reset?
    ensures Count(Apply(w, s, c).stats, ep, HeaderChange) == Count(s.stats, ep, HeaderChange) +
      if c.Receive? && c.input.Delivery? && Receiving(w, s, c.input).0.Delivered? && Name(c.input.endpoint) == ep
         && Receiving(w, s, c.input).0.message.headerChanged then 1 else 0
  {
    hide Count, Increased, ParseWith, CheckId, Trimmed;
    if c.Receive? {
      match c.input {
        case SocketFailure(endpoint, timedOut) => IncreasedCounts(s.stats, endpoint, SocketError, ep, HeaderChange);
        case Delivery(parts, endpoint, now) =>
          RefusedChange(s.stats, endpoint, ep);
          DeliveredChange(s.stats, endpoint, ep);
          if Outcome(w, s, c.input).Parsed? {
            CheckIdReason(s.mask, s.ids, endpoint, Outcome(w, s, c.input).message.id, now);
          }
      }
    }
  }

  lemma RefusedChange(s: Stats, endpoint: Option<string>, ep: string)
    ensures forall d :: d != HeaderChange ==>
      Count(RefusedStats(s, endpoint, d), ep, HeaderChange) == Count(s, ep, HeaderChange)
  {
  }

  lemma DeliveredChange(s: Stats, endpoint: Option<string>, ep: string)
    ensures Count(DeliveredStats(s, endpoint, false), ep, HeaderChange) == Count(s, ep, HeaderChange)
    ensures Count(DeliveredStats(s, endpoint, true), ep, HeaderChange) ==
      Count(s, ep, HeaderChange) + if Name(endpoint) == ep then 1 else 0
  {
  }

  /**
   A message is marked as having a new header exactly when its hash is not that of the last message parsed from its
   endpoint, in every run of a receiver without removals: connecting makes room for every header.
   */
  lemma MarksAreExact(w: World, names: set<string>, endpoints: seq<string>, cs: seq<Command>, k: nat)
    requires AllProper(w, names, endpoints, cs) && k < |cs| && cs[k].Receive? && cs[k].input.Delivery?
    ensures var s, last := After(w, Start(endpoints), cs[..k]), LastParsed(w, endpoints, cs[..k]);
      cs[k].input.endpoint.Some? && (Outcome(w, s, cs[k].input).Parsed? ==>
        MarkFits(Outcome(w, s, cs[k].input).message, cs[k].input.endpoint.value, last))
  {
    hide After, LastParsed, EverConnected, Keeping, Individual, MarkFits;
    ProperTo(w, names, endpoints, cs, k);
    RunKeeps(w, names, endpoints, cs[..k]);
    ReceivingKeeps(w, After(w, Start(endpoints), cs[..k]), cs[k].input, LastParsed(w, endpoints, cs[..k]),
                   EverConnected(w, endpoints, cs[..k]), names);
  }

  lemma ProperTo(w: World, names: set<string>, endpoints: seq<string>, cs: seq<Command>, k: nat)
    requires AllProper(w, names, endpoints, cs) && k < |cs|
    ensures AllProper(w, names, endpoints, cs[..k]) && Proper(w, names, After(w, Start(endpoints), cs[..k]), cs[k])
  {
    hide Proper, After;
    forall j | 0 <= j < k ensures Proper(w, names, After(w, Start(endpoints), cs[..k][..j]), cs[..k][j]) {
      assert cs[..k][..j] == cs[..j];
    }
  }

  /** What is delivered is what was parsed. */
  lemma DeliveredOutcome(w: World, s: Snapshot, input: Input)
    requires input.Delivery? && Receiving(w, s, input).0.Delivered?
    ensures Outcome(w, s, input).Parsed? && Receiving(w, s, input).0.message == Outcome(w, s, input).message
  {
    hide ParseWith, CheckId, RefusedStats, DeliveredStats, Increased;
  }

  /** The HeaderChange counter of an endpoint is the number of header changes delivered since the last reset. */
  lemma {:induction false} HeaderChangesCounted(w: World, names: set<string>, endpoints: seq<string>, cs: seq<Command>,
                                                ep: string)
    requires AllProper(w, names, endpoints, cs)
    ensures Count(After(w, Start(endpoints), cs).stats, ep, HeaderChange) == Changes(w, endpoints, cs, ep)
  {
    hide Receiving, Proper, Keeping, Count, LastParsed, Trimmed;
    if cs == [] {
      NothingCounted(ep);
    } else {
      var front, c := cs[..|cs| - 1], cs[|cs| - 1];
      var s, last := After(w, Start(endpoints), front), LastParsed(w, endpoints, front);
      ProperFront(w, names, endpoints, cs);
      HeaderChangesCounted(w, names, endpoints, front, ep);
      OneMore(w, names, s, c, last, EverConnected(w, endpoints, front), ep) by {
        RunKeeps(w, names, endpoints, front);
      }
    }
  }

  lemma NothingCounted(ep: string)
    ensures Count(Stats(0, 0, map[]), ep, HeaderChange) == 0
  {
  }

  lemma OneMore(w: World, names: set<string>, s: Snapshot, c: Command, last: map<string, string>, ever: set<string>,
                ep: string)
    requires Keeping(s, last, ever, names) && Proper(w, names, s, c)
    ensures Count(Apply(w, s, c).stats, ep, HeaderChange) ==
      if c.Reset? then 0 else Count(s.stats, ep, HeaderChange) + if IsChange(w, s, c, last, ep) then 1 else 0
  {
    hide Keeping, Count, Receiving, Individual, Outcome, Trimmed;
    if c.Reset? {
      NothingCounted(ep);
    } else {
      CountedChange(w, s, c, ep);
      if c.Receive? && c.input.Delivery? && Receiving(w, s, c.input).0.Delivered? {
        DeliveredOutcome(w, s, c.input);
        ReceivingKeeps(w, s, c.input, last, ever, names);
      }
    }
  }

  // ------------------------------------------------------------ a removal spoils it

  /** Messages of two parts; the first one is the hash. */
  function HashOf(p: seq<byte>): string {
    if p == [1] then "x" else if p == [2] then "y" else "z"
  }

  function Plainly(): World {
    World(p => Some(MainHeader(Some(HashOf(p)), Some(1), true, Some(Compression.Plain), Some((0, 0)))),
          (p, c) => Some(p), p => Some(DataHeader(0)), (h, raw) => Some([]), (c, v, t, time, raw) => Undecodable)
  }

  function From(endpoint: string, hash: byte): Command {
    Command.Receive(Delivery([[hash], []], Some(endpoint), None))
  }

  function InfoOf(hash: byte): Info {
    Info(HashOf([hash]), DataHeader(0), [])
  }

  /** A message whose header is not cached is marked, and its header is remembered. */
  lemma FirstOf(s: Snapshot, endpoint: string, hash: byte)
    requires s.endpoints != [] && Cached(s.headers.cache, Some(endpoint), HashOf([hash])) == None
    ensures var c := From(endpoint, hash); var t := Apply(Plainly(), s, c);
      && Outcome(Plainly(), s, c.input).Parsed? && Outcome(Plainly(), s, c.input).message.headerChanged
      && Outcome(Plainly(), s, c.input).message.hash == HashOf([hash])
      && t.endpoints == s.endpoints && t.sockets == s.sockets && t.connected == s.connected
      && t.headers == State(Inserted(s.headers.cache, endpoint, InfoOf(hash), s.headers.maxSize), s.headers.maxSize)
  {
    hide Inserted, CheckId, RefusedStats, DeliveredStats, Increased, HashOf;
  }

  lemma AfterNext(w: World, endpoints: seq<string>, front: seq<Command>, c: Command)
    ensures After(w, Start(endpoints), front + [c]) == Apply(w, After(w, Start(endpoints), front), c)
    ensures LastParsed(w, endpoints, front + [c]) ==
      NextLast(w, After(w, Start(endpoints), front), c, LastParsed(w, endpoints, front))
  {
    hide Apply, NextLast;
    assert (front + [c])[..|front|] == front;
  }

  /** A connected receiver with room for two headers, and the endpoints whose headers it has. */
  ghost predicate Has(s: Snapshot, endpoints: seq<string>, sockets: set<string>, order: seq<string>) {
    && s.endpoints == endpoints && s.sockets == sockets && s.connected && s.headers.maxSize == 2
    && s.headers.cache.order == order && s.headers.cache.entries.Keys == Members(order)
  }

  lemma {:induction false} WithoutAbsent(order: seq<string>, k: string)
    requires k !in order
    ensures Without(order, k) == order
  {
    if order != [] {
      var n := |order| - 1;
      WithoutAbsent(order[..n], k);
      assert order == order[..n] + [order[n]];
    }
  }

  lemma InsertedOrder(m: Limited<string, Info>, k: string, v: Info)
    requires k !in m.order && m.entries.Keys == Members(m.order)
    ensures Inserted(m, k, v, 2).order == LastOf(m.order + [k], 2)
    ensures Inserted(m, k, v, 2).entries.Keys == Members(LastOf(m.order + [k], 2))
  {
    WithoutAbsent(m.order, k);
  }

  /** The first message of an endpoint. */
  lemma FirstMessage(s: Snapshot, endpoints: seq<string>, sockets: set<string>, order: seq<string>, endpoint: string,
                     hash: byte)
    requires Has(s, endpoints, sockets, order) && endpoints != [] && endpoint !in order && HashOf([hash]) !in order
    ensures var c := From(endpoint, hash);
      && Has(Apply(Plainly(), s, c), endpoints, sockets, LastOf(order + [endpoint], 2))
      && Outcome(Plainly(), s, c.input).Parsed? && Outcome(Plainly(), s, c.input).message.headerChanged
      && Outcome(Plainly(), s, c.input).message.hash == HashOf([hash])
      && forall last :: NextLast(Plainly(), s, c, last) == last[endpoint := HashOf([hash])]
  {
    hide Apply, Outcome, Inserted, HashOf, LastOf;
    FirstOf(s, endpoint, hash);
    InsertedOrder(s.headers.cache, endpoint, InfoOf(hash));
  }

  lemma Connected()
    ensures Has(Apply(Plainly(), Start(["a", "b"]), Connect({})), ["a", "b"], {"a", "b"}, [])
  {
    hide Trimmed;
    var s, both := Start(["a", "b"]), ["a", "b"];
    var t := Connecting(s, "a");
    var u := Connecting(t, "b");
    assert both[1..] == ["b"] && ["b"][1..] == [];
    assert ConnectingAll(u, [], {}) == u.(connected := true);
    assert ConnectingAll(t, ["b"], {}) == u.(connected := true);
    assert ConnectingAll(s, both, {}) == u.(connected := true);
    NothingTrimmed();
  }

  lemma NothingTrimmed()
    ensures Trimmed<string, Info>(EMPTY, 2) == EMPTY
  {
  }

  /** The removed endpoint keeps its header, and the new one gets no more room. */
  lemma Exchanged(s: Snapshot)
    requires Has(s, ["a", "b"], {"a", "b"}, ["b", "a"])
    ensures Has(Adding(Removing(s, "a"), "c", {}), ["b", "c"], {"b", "c"}, ["b", "a"])
  {
    hide Trimmed;
    var t := Removing(s, "a");
    assert Without(["a", "b"], "a") == ["b"] by {
      assert ["a", "b"][..1] == ["a"] && ["a"][..0] == [];
    }
    assert s.sockets - {"a"} == {"b"};
    assert Trimmed(t.headers.cache, 2) == t.headers.cache by {
      KeptWhole(t.headers.cache);
    }
  }

  lemma KeptWhole(m: Limited<string, Info>)
    requires |m.order| == 2 && m.entries.Keys == Members(m.order)
    ensures Trimmed(m, 2) == m
  {
    assert LastOf(m.order, 2) == m.order;
    assert (map k | k in m.entries && k in m.order :: m.entries[k]) == m.entries;
  }

  const SPOILED: seq<Command> :=
    [Connect({})] + [From("b", 2)] + [From("a", 1)] + [Remove("a")] + [Add("c", {})] + [From("c", 3)]

  /**
   The header of a removed endpoint stays, and a new endpoint can push out another one: the next message of "b" is
   marked, although its hash is that of the last message of "b".
   */
  lemma RemovalForgets()
    ensures var s := After(Plainly(), Start(["a", "b"]), SPOILED);
      && "b" in s.sockets && Outcome(Plainly(), s, From("b", 2).input).Parsed?
      && var m := Outcome(Plainly(), s, From("b", 2).input).message;
         m.headerChanged && LastParsed(Plainly(), ["a", "b"], SPOILED) == map["b" := m.hash, "a" := "x", "c" := "z"]
  {
    hide Apply, After, LastParsed, NextLast, Outcome, Inserted, Trimmed, Has, From;
    var eps := ["a", "b"];
    var c1 := [Connect({})];
    var c2 := c1 + [From("b", 2)];
    var c3 := c2 + [From("a", 1)];
    var c5 := c3 + [Remove("a")] + [Add("c", {})];
    var s := After(Plainly(), Start(eps), SPOILED);
    TwoHeaders();
    AfterExchange(c3);
    AfterNext(Plainly(), eps, c5, From("c", 3));
    assert SPOILED == c5 + [From("c", 3)];
    FirstMessage(After(Plainly(), Start(eps), c5), ["b", "c"], {"b", "c"}, ["b", "a"], "c", 3);
    assert LastOf(["b", "a"] + ["c"], 2) == ["a", "c"];
    FirstMessage(s, ["b", "c"], {"b", "c"}, ["a", "c"], "b", 2);
    HasSockets(s, ["b", "c"], {"b", "c"}, ["a", "c"]);
  }

  lemma HasSockets(s: Snapshot, endpoints: seq<string>, sockets: set<string>, order: seq<string>)
    requires Has(s, endpoints, sockets, order)
    ensures s.sockets == sockets
  {
  }

  lemma TwoHeaders()
    ensures var cs := [Connect({})] + [From("b", 2)] + [From("a", 1)];
      && Has(After(Plainly(), Start(["a", "b"]), cs), ["a", "b"], {"a", "b"}, ["b", "a"])
      && LastParsed(Plainly(), ["a", "b"], cs) == map["b" := "y", "a" := "x"]
  {
    hide Apply, NextLast, Outcome, Has, From, Trimmed;
    var eps, w := ["a", "b"], Plainly();
    var c1 := [Connect({})];
    assert c1 == [] + [Connect({})];
    AfterNext(w, eps, [], Connect({}));
    Connected();
    NoMessage(Connect({}));
    var s1 := After(w, Start(eps), c1);
    FirstMessage(s1, eps, {"a", "b"}, [], "b", 2);
    AfterNext(w, eps, c1, From("b", 2));
    assert LastOf([] + ["b"], 2) == ["b"];
    FirstMessage(After(w, Start(eps), c1 + [From("b", 2)]), eps, {"a", "b"}, ["b"], "a", 1);
    AfterNext(w, eps, c1 + [From("b", 2)], From("a", 1));
    assert LastOf(["b"] + ["a"], 2) == ["b", "a"];
  }

  lemma NoMessage(c: Command)
    requires !c.Receive?
    ensures forall s, last :: NextLast(Plainly(), s, c, last) == last
  {
  }

  lemma AfterExchange(cs: seq<Command>)
    requires Has(After(Plainly(), Start(["a", "b"]), cs), ["a", "b"], {"a", "b"}, ["b", "a"])
    ensures var more := cs + [Remove("a")] + [Add("c", {})];
      && Has(After(Plainly(), Start(["a", "b"]), more), ["b", "c"], {"b", "c"}, ["b", "a"])
      && LastParsed(Plainly(), ["a", "b"], more) == LastParsed(Plainly(), ["a", "b"], cs)
  {
    hide NextLast, Has, Trimmed, After, LastParsed;
    AfterNext(Plainly(), ["a", "b"], cs, Remove("a"));
    AfterNext(Plainly(), ["a", "b"], cs + [Remove("a")], Add("c", {}));
    NoMessage(Remove("a"));
    NoMessage(Add("c", {}));
    Exchanged(After(Plainly(), Start(["a", "b"]), cs));
  }
}
