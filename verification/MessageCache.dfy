/** parse_message: the parts of a message, and the bounded cache of data headers that were parsed before. */
module MessageCache {
  import opened Basics
  import opened Bytes
  import opened Containers

  datatype Compression = Plain | Lz4 | BitshuffleLz4

  /**
   What the fields of a main header say; a missing or ill-typed field is None. A header without a timestamp has
   the time (0, 0); one whose timestamp cannot be taken apart has None.
   */
  datatype MainHeader = MainHeader(hash: Option<string>, id: Option<nat>, knownType: bool,
                                   compression: Option<Compression>, time: Option<(nat, nat)>)

  /** A decoded data header and the channels it announces, by name and otherwise opaque. */
  datatype DataHeader = DataHeader(content: int)
  datatype Channel = Channel(name: string, config: int)
  datatype ChannelValue = ChannelValue(content: int)

  /** The outcome of parse_channel_data: a value, an error, or a panic, as when a part is too short for its channel. */
  datatype Reading = Readable(value: ChannelValue) | Undecodable | Unreadable

  datatype Error = InvalidData | BadJson | BadHash | BadCompression | Decompression | BadId | BadType | Panic

  /** The decoders that this model does not look into: JSON, decompression, channel types and values. */
  datatype World = World(
    decodeMain: seq<byte> -> Option<MainHeader>,
    decompress: (seq<byte>, Compression) -> Option<seq<byte>>,
    decodeData: seq<byte> -> Option<DataHeader>,
    parseChannels: (DataHeader, bool) -> Option<seq<Channel>>,
    parseValue: (Channel, seq<byte>, seq<byte>, (nat, nat), bool) -> Reading)

  /** DataHeaderInfo. */
  datatype Info = Info(hash: string, header: DataHeader, channels: seq<Channel>)

  datatype Message = Message(main: MainHeader, header: DataHeader, channels: seq<Channel>, data: ChannelMap,
                             hash: string, id: nat, compression: Compression, headerChanged: bool, raw: bool)

  datatype Outcome = Parsed(message: Message) | Failed(error: Error)

  // ------------------------------------------------------------ parsing

  /** IndexMap::insert: a new name goes last, a known one keeps its place. */
  function Put<V>(s: seq<(string, V)>, k: string, v: V): seq<(string, V)> {
    if s == [] then [(k, v)]
    else if s[0].0 == k then [(k, v)] + s[1..]
    else [s[0]] + Put(s[1..], k, v)
  }

  type ChannelMap = seq<(string, Option<ChannelValue>)>

  /** The values of the first n channels, or None if one of them panics. */
  function Values(w: World, parts: seq<seq<byte>>, time: (nat, nat), channels: seq<Channel>, raw: bool,
                  n: nat): Option<ChannelMap>
    requires n <= |channels| && |parts| == 2 + 2 * |channels|
  {
    if n == 0 then Some([])
    else
      var c, before := channels[n - 1], Values(w, parts, time, channels, raw, n - 1);
      if before == None then None
      else
        match (w.parseValue)(c, parts[2 * n], parts[2 * n + 1], time, raw)
        case Readable(v) => Some(Put(before.value, c.name, Some(v)))
        case Undecodable => Some(Put(before.value, c.name, None))
        case Unreadable => None
  }

  // ------------------------------------------------------------ what the data of a message is

  function Names<V>(s: seq<(string, V)>): (r: seq<string>)
    ensures |r| == |s|
  {
    seq(|s|, i requires 0 <= i < |s| => s[i].0)
  }

  /** The names of channels, each where it occurs first. */
  function FirstNames(channels: seq<Channel>): seq<string> {
    if channels == [] then []
    else
      var before, name := FirstNames(channels[..|channels| - 1]), channels[|channels| - 1].name;
      if name in before then before else before + [name]
  }

  /** The entry of a name is what was read for it; nothing else is there under that name. */
  ghost predicate Holds(data: ChannelMap, name: string, reading: Reading) {
    && (forall v :: (name, Some(v)) in data <==> reading == Readable(v))
    && ((name, None) in data <==> reading == Undecodable)
  }

  /** What channel i makes of its two parts. */
  function ReadingOf(w: World, parts: seq<seq<byte>>, time: (nat, nat), channels: seq<Channel>, raw: bool,
                     i: nat): Reading
    requires i < |channels| && |parts| >= 2 + 2 * |channels|
  {
    (w.parseValue)(channels[i], parts[2 * i + 2], parts[2 * i + 3], time, raw)
  }

  /** No later channel has the same name. */
  ghost predicate IsLastNamed(channels: seq<Channel>, i: nat)
    requires i < |channels|
  {
    forall j :: i < j < |channels| ==> channels[j].name != channels[i].name
  }

  /**
   The data of a message: the names of its channels in the order of their first occurrence, each with what the last
   channel of that name makes of its two parts. No channel panics.
   */
  ghost predicate IsData(w: World, parts: seq<seq<byte>>, time: (nat, nat), channels: seq<Channel>, raw: bool,
                         data: ChannelMap)
    requires |parts| >= 2 + 2 * |channels|
  {
    && Names(data) == FirstNames(channels)
    && (forall i :: 0 <= i < |channels| ==> ReadingOf(w, parts, time, channels, raw, i) != Unreadable)
    && forall i :: 0 <= i < |channels| && IsLastNamed(channels, i) ==>
         Holds(data, channels[i].name, ReadingOf(w, parts, time, channels, raw, i))
  }

  ghost predicate NamedOnce<V>(s: seq<(string, V)>) {
    forall i, j :: 0 <= i < j < |s| ==> s[i].0 != s[j].0
  }

  lemma NamesFirst<V>(e: (string, V), rest: seq<(string, V)>)
    ensures Names([e] + rest) == [e.0] + Names(rest)
  {
  }

  lemma {:induction false} PutNames<V>(s: seq<(string, V)>, k: string, v: V)
    ensures Names(Put(s, k, v)) == if k in Names(s) then Names(s) else Names(s) + [k]
  {
    if s == [] {
      NamesFirst((k, v), []);
      assert [(k, v)] + [] == [(k, v)];
    } else {
      hide Names;
      var rest := s[1..];
      assert s == [s[0]] + rest;
      NamesFirst(s[0], rest);
      NamesFirst((k, v), rest);
      NamesFirst(s[0], Put(rest, k, v));
      PutNames(rest, k, v);
      assert [s[0].0] + (Names(rest) + [k]) == [s[0].0] + Names(rest) + [k];
    }
  }

  lemma NamedOnceRest<V(!new)>(s: seq<(string, V)>)
    requires NamedOnce(s) && s != []
    ensures NamedOnce(s[1..]) && forall e :: e in s <==> e == s[0] || e in s[1..]
    ensures forall e :: e in s[1..] ==> e.0 != s[0].0
  {
    assert s == [s[0]] + s[1..];
  }

  /** Put changes the entry of its own name, and no other. */
  lemma {:induction false} PutHolds<V(!new)>(s: seq<(string, V)>, k: string, v: V)
    requires NamedOnce(s)
    ensures NamedOnce(Put(s, k, v))
    ensures forall name, x :: (name, x) in Put(s, k, v) <==> if name == k then x == v else (name, x) in s
  {
    if s != [] {
      NamedOnceRest(s);
      var rest := s[1..];
      PutHolds(rest, k, v);
      if s[0].0 != k {
        assert Put(s, k, v) == [s[0]] + Put(rest, k, v);
        assert forall e :: e in Put(rest, k, v) ==> e.0 != s[0].0;
      }
    }
  }

  datatype Fresh = Found(header: DataHeader, channels: seq<Channel>) | NotFound(error: Error)

  /** The data header from the second part. */
  function FreshHeader(w: World, blob: seq<byte>, compression: Option<Compression>, raw: bool): Fresh {
    if compression == None then NotFound(BadCompression)
    else
      var json := if compression.value == Plain then Some(blob) else (w.decompress)(blob, compression.value);
      if json == None then NotFound(Decompression)
      else
        var header := (w.decodeData)(json.value);
        if header == None then NotFound(BadJson)
        else
          match (w.parseChannels)(header.value, raw)
          case None => NotFound(Panic)
          case Some(channels) => Found(header.value, channels)
  }

  /** The checks of Message::new, in its order. */
  function NewMessage(main: MainHeader, header: DataHeader, channels: seq<Channel>,
                      data: ChannelMap, changed: bool, raw: bool): Outcome {
    if main.hash == None then Failed(BadHash)
    else if main.id == None then Failed(BadId)
    else if !main.knownType then Failed(BadType)
    else if main.compression == None then Failed(BadCompression)
    else
      Parsed(Message(main, header, channels, data, main.hash.value, main.id.value, main.compression.value, changed,
                     raw))
  }

  function WithHeader(w: World, parts: seq<seq<byte>>, main: MainHeader, header: DataHeader, channels: seq<Channel>,
                      changed: bool, raw: bool): Outcome
    requires |parts| >= 2 && main.time.Some?
  {
    if |parts| - 2 != |channels| * 2 then Failed(InvalidData)
    else
      match Values(w, parts, main.time.value, channels, raw, |channels|)
      case None => Failed(Panic)
      case Some(data) => NewMessage(main, header, channels, data, changed, raw)
  }

  /**
   The cached header that serves a message: that of its endpoint if the hash is the same, or else the one under its
   hash.
   */
  function Cached(cache: Limited<string, Info>, endpoint: Option<string>, hash: string): Option<Info> {
    if endpoint.Some? && endpoint.value in cache.entries && cache.entries[endpoint.value].hash == hash
    then Some(cache.entries[endpoint.value])
    else if hash in cache.entries then Some(cache.entries[hash])
    else None
  }

  /** The cache after a message whose header was parsed anew. */
  function Remembered(w: World, m: Message, endpoint: Option<string>, cache: Limited<string, Info>,
                      maxSize: nat): Limited<string, Info> {
    match (w.parseChannels)(m.header, m.raw)
    case None => cache
    case Some(channels) =>
      Inserted(cache, if endpoint.Some? then endpoint.value else m.hash, Info(m.hash, m.header, channels), maxSize)
  }

  /** parse_message: its result, and the cache afterwards. */
  function ParseWith(w: World, parts: seq<seq<byte>>, endpoint: Option<string>, cache: Limited<string, Info>,
                     maxSize: nat, raw: bool): (Outcome, Limited<string, Info>) {
    if |parts| < 2 then (Failed(InvalidData), cache)
    else
      match (w.decodeMain)(parts[0])
      case None => (Failed(BadJson), cache)
      case Some(main) =>
        if main.hash == None then (Failed(BadHash), cache)
        else if main.time == None then (Failed(Panic), cache)
        else
          match Cached(cache, endpoint, main.hash.value)
          case Some(info) => (WithHeader(w, parts, main, info.header, info.channels, false, raw), cache)
          case None =>
            match FreshHeader(w, parts[1], main.compression, raw)
            case NotFound(error) => (Failed(error), cache)
            case Found(header, channels) =>
              var r := WithHeader(w, parts, main, header, channels, true, raw);
              (r, if r.Parsed? then Remembered(w, r.message, endpoint, cache, maxSize) else cache)
  }

  // ------------------------------------------------------------ what a message is, without the steps

  /** The header of a message: that of a cache entry which serves it, or else what the second part says. */
  ghost predicate IsHeader(w: World, blob: seq<byte>, main: MainHeader, endpoint: Option<string>,
                           cache: Limited<string, Info>, raw: bool, header: DataHeader, channels: seq<Channel>,
                           changed: bool)
    requires main.hash.Some?
  {
    var hash := main.hash.value;
    var own := endpoint.Some? && endpoint.value in cache.entries && cache.entries[endpoint.value].hash == hash;
    if own then !changed && cache.entries[endpoint.value] == Info(hash, header, channels)
    else if hash in cache.entries then
      !changed && header == cache.entries[hash].header && channels == cache.entries[hash].channels
    else
      && changed && main.compression.Some? && (w.parseChannels)(header, raw) == Some(channels)
      && if main.compression == Some(Plain) then (w.decodeData)(blob) == Some(header)
         else
           exists json :: (w.decompress)(blob, main.compression.value) == Some(json) &&
                          (w.decodeData)(json) == Some(header)
  }

  /** A message that the parts stand for, given what the cache holds. */
  ghost predicate IsMessage(w: World, parts: seq<seq<byte>>, endpoint: Option<string>, cache: Limited<string, Info>,
                            raw: bool, m: Message) {
    && |parts| == 2 + 2 * |m.channels| && (w.decodeMain)(parts[0]) == Some(m.main) && m.main.time.Some?
    && m.main.hash == Some(m.hash) && m.main.id == Some(m.id) && m.main.knownType
    && m.main.compression == Some(m.compression) && m.raw == raw
    && IsHeader(w, parts[1], m.main, endpoint, cache, raw, m.header, m.channels, m.headerChanged)
    && IsData(w, parts, m.main.time.value, m.channels, raw, m.data)
  }

  /** One more channel. */
  lemma DataNext(w: World, parts: seq<seq<byte>>, time: (nat, nat), front: seq<Channel>, c: Channel, raw: bool,
                 before: ChannelMap, entry: Option<ChannelValue>)
    requires |parts| >= 4 + 2 * |front| && NamedOnce(before) && IsData(w, parts, time, front, raw, before)
    requires ReadingOf(w, parts, time, front + [c], raw, |front|) ==
      if entry.Some? then Readable(entry.value) else Undecodable
    ensures NamedOnce(Put(before, c.name, entry))
    ensures IsData(w, parts, time, front + [c], raw, Put(before, c.name, entry))
  {
    hide Put, Names, NamedOnce;
    PutHolds(before, c.name, entry);
    PutNames(before, c.name, entry);
    var channels, data := front + [c], Put(before, c.name, entry);
    assert channels[..|channels| - 1] == front;
    forall i | 0 <= i < |channels|
      ensures ReadingOf(w, parts, time, channels, raw, i) != Unreadable
      ensures IsLastNamed(channels, i) ==>
        Holds(data, channels[i].name, ReadingOf(w, parts, time, channels, raw, i))
    {
      if i < |front| {
        assert ReadingOf(w, parts, time, front, raw, i) == ReadingOf(w, parts, time, channels, raw, i);
        LastNamedFront(front, c, i);
      }
    }
  }

  lemma LastNamedFront(front: seq<Channel>, c: Channel, i: nat)
    requires i < |front|
    ensures IsLastNamed(front + [c], i) ==> IsLastNamed(front, i) && c.name != front[i].name
  {
    var channels := front + [c];
    assert channels[|front|] == c;
    if IsLastNamed(channels, i) {
      forall j | i < j < |front| ensures front[j].name != front[i].name {
        assert channels[j] == front[j];
      }
    }
  }

  /** The values of the channels are the data, and there are none exactly if a channel panics. */
  lemma {:induction false} ValuesAreData(w: World, parts: seq<seq<byte>>, time: (nat, nat), channels: seq<Channel>,
                                         raw: bool, n: nat)
    requires n <= |channels| && |parts| == 2 + 2 * |channels|
    ensures var data := Values(w, parts, time, channels, raw, n);
      && (data.Some? ==> NamedOnce(data.value) && IsData(w, parts, time, channels[..n], raw, data.value))
      && (data == None <==> exists i :: 0 <= i < n && ReadingOf(w, parts, time, channels, raw, i) == Unreadable)
  {
    hide Put, IsData, NamedOnce;
    if n == 0 {
      NoData(w, parts, time, raw);
    } else {
      ValuesAreData(w, parts, time, channels, raw, n - 1);
      var before, c, front := Values(w, parts, time, channels, raw, n - 1), channels[n - 1], channels[..n - 1];
      assert channels[..n] == front + [c];
      var reading := ReadingOf(w, parts, time, channels, raw, n - 1);
      if before.Some? && reading != Unreadable {
        DataNext(w, parts, time, front, c, raw, before.value,
                 if reading.Readable? then Some(reading.value) else None);
      }
    }
  }

  lemma NoData(w: World, parts: seq<seq<byte>>, time: (nat, nat), raw: bool)
    requires |parts| >= 2
    ensures NamedOnce<Option<ChannelValue>>([]) && IsData(w, parts, time, [], raw, [])
  {
  }

  /** A name has a last channel. */
  lemma {:induction false} LastOfName(channels: seq<Channel>, name: string) returns (i: nat)
    requires name in FirstNames(channels)
    ensures i < |channels| && channels[i].name == name && IsLastNamed(channels, i)
  {
    var n := |channels| - 1;
    if channels[n].name == name {
      i := n;
    } else {
      i := LastOfName(channels[..n], name);
      forall j | i < j < |channels| ensures channels[j].name != name {
        assert j < n ==> channels[..n][j].name != name;
      }
    }
  }

  /** The parts determine the data. */
  lemma DataUnique(w: World, parts: seq<seq<byte>>, time: (nat, nat), channels: seq<Channel>, raw: bool, a: ChannelMap,
                   b: ChannelMap)
    requires |parts| >= 2 + 2 * |channels|
    requires IsData(w, parts, time, channels, raw, a) && IsData(w, parts, time, channels, raw, b)
    ensures a == b
  {
    hide FirstNames, IsLastNamed, ReadingOf;
    forall j | 0 <= j < |a| ensures |b| == |a| && a[j] == b[j] {
      assert Names(a)[j] == Names(b)[j];
      var i := LastOfName(channels, a[j].0);
      assert a[j] in a && b[j] in b;
      var x, y := a[j].1, b[j].1;
      assert a[j] == (channels[i].name, x) && b[j] == (channels[i].name, y);
      var reading := ReadingOf(w, parts, time, channels, raw, i);
      assert Holds(a, channels[i].name, reading) && Holds(b, channels[i].name, reading);
      assert x.Some? ==> (channels[i].name, Some(x.value)) in a;
      assert y.Some? ==> (channels[i].name, Some(y.value)) in b;
    }
    assert |Names(a)| == |Names(b)|;
  }

  /** The header that is used is the header of the message. */
  lemma HeaderExactly(w: World, blob: seq<byte>, main: MainHeader, endpoint: Option<string>,
                      cache: Limited<string, Info>, raw: bool, header: DataHeader, channels: seq<Channel>,
                      changed: bool)
    requires main.hash.Some?
    ensures IsHeader(w, blob, main, endpoint, cache, raw, header, channels, changed) <==>
      match Cached(cache, endpoint, main.hash.value)
      case Some(info) => !changed && header == info.header && channels == info.channels
      case None => changed && FreshHeader(w, blob, main.compression, raw) == Found(header, channels)
  {
  }

  /** The parts, once the header is known. */
  lemma ContentsExactly(w: World, parts: seq<seq<byte>>, main: MainHeader, header: DataHeader, channels: seq<Channel>,
                        changed: bool, raw: bool, m: Message)
    requires |parts| >= 2 && main.time.Some?
    ensures WithHeader(w, parts, main, header, channels, changed, raw) == Parsed(m) <==>
      && m.main == main && m.header == header && m.channels == channels && m.headerChanged == changed && m.raw == raw
      && main.hash == Some(m.hash) && main.id == Some(m.id) && main.knownType
      && main.compression == Some(m.compression) && |parts| == 2 + 2 * |channels|
      && IsData(w, parts, main.time.value, channels, raw, m.data)
  {
    hide Values, IsData, ReadingOf;
    if |parts| == 2 + 2 * |channels| {
      ValuesAreData(w, parts, main.time.value, channels, raw, |channels|);
      assert channels[..|channels|] == channels;
      var data := Values(w, parts, main.time.value, channels, raw, |channels|);
      if data.Some? {
        if IsData(w, parts, main.time.value, channels, raw, m.data) {
          DataUnique(w, parts, main.time.value, channels, raw, m.data, data.value);
        }
      } else {
        DataReadable(w, parts, main.time.value, channels, raw, m.data);
      }
    }
  }

  lemma DataReadable(w: World, parts: seq<seq<byte>>, time: (nat, nat), channels: seq<Channel>, raw: bool,
                     data: ChannelMap)
    requires |parts| >= 2 + 2 * |channels|
    ensures IsData(w, parts, time, channels, raw, data) ==>
      forall i :: 0 <= i < |channels| ==> ReadingOf(w, parts, time, channels, raw, i) != Unreadable
  {
  }

  /** parse_message succeeds with a message if and only if the parts stand for that message. */
  lemma ParsedExactly(w: World, parts: seq<seq<byte>>, endpoint: Option<string>, cache: Limited<string, Info>,
                      maxSize: nat, raw: bool, m: Message)
    ensures ParseWith(w, parts, endpoint, cache, maxSize, raw).0 == Parsed(m) <==>
      IsMessage(w, parts, endpoint, cache, raw, m)
  {
    hide WithHeader, FreshHeader, Cached, IsHeader, IsData, Remembered;
    if |parts| >= 2 && (w.decodeMain)(parts[0]).Some? {
      var main := (w.decodeMain)(parts[0]).value;
      if main.hash.Some? && main.time.Some? {
        HeaderExactly(w, parts[1], main, endpoint, cache, raw, m.header, m.channels, m.headerChanged);
        var found := Cached(cache, endpoint, main.hash.value);
        if found.Some? {
          ContentsExactly(w, parts, main, found.value.header, found.value.channels, false, raw, m);
        } else if FreshHeader(w, parts[1], main.compression, raw).Found? {
          var h := FreshHeader(w, parts[1], main.compression, raw);
          ContentsExactly(w, parts, main, h.header, h.channels, true, raw, m);
        }
      }
    }
  }

  /** The channels can be read: there are two parts for each, and none panics. */
  ghost predicate CanReadAll(w: World, parts: seq<seq<byte>>, time: (nat, nat), channels: seq<Channel>, raw: bool) {
    && |parts| == 2 + 2 * |channels|
    && forall i :: 0 <= i < |channels| ==> ReadingOf(w, parts, time, channels, raw, i) != Unreadable
  }

  /** Why a message fails whose header is known. */
  lemma FailsExactly(w: World, parts: seq<seq<byte>>, endpoint: Option<string>, cache: Limited<string, Info>,
                     maxSize: nat, raw: bool, main: MainHeader, header: DataHeader, channels: seq<Channel>,
                     changed: bool)
    requires |parts| >= 2 && (w.decodeMain)(parts[0]) == Some(main) && main.hash.Some? && main.time.Some?
    requires IsHeader(w, parts[1], main, endpoint, cache, raw, header, channels, changed)
    ensures var r := ParseWith(w, parts, endpoint, cache, maxSize, raw).0;
      var good := CanReadAll(w, parts, main.time.value, channels, raw);
      && (r == Failed(InvalidData) <==> |parts| != 2 + 2 * |channels|)
      && (r == Failed(Panic) <==> |parts| == 2 + 2 * |channels| && !good)
      && (r == Failed(BadId) <==> good && main.id == None)
      && (r == Failed(BadType) <==> good && main.id.Some? && !main.knownType)
      && (r == Failed(BadCompression) <==> good && main.id.Some? && main.knownType && main.compression == None)
      && (r.Parsed? <==> good && main.id.Some? && main.knownType && main.compression.Some?)
  {
    hide Values, FreshHeader, Cached, IsHeader, Remembered, ReadingOf, IsData;
    HeaderExactly(w, parts[1], main, endpoint, cache, raw, header, channels, changed);
    if |parts| == 2 + 2 * |channels| {
      ValuesAreData(w, parts, main.time.value, channels, raw, |channels|);
    }
  }

  /** Why a message fails whose data header is not in the cache and cannot be made from the second part. */
  lemma FreshFails(w: World, parts: seq<seq<byte>>, endpoint: Option<string>, cache: Limited<string, Info>,
                   maxSize: nat, raw: bool, main: MainHeader)
    requires |parts| >= 2 && (w.decodeMain)(parts[0]) == Some(main) && main.hash.Some? && main.time.Some?
    requires main.hash.value !in cache.entries
    requires endpoint.Some? && endpoint.value in cache.entries ==>
      cache.entries[endpoint.value].hash != main.hash.value
    ensures var r, packed := ParseWith(w, parts, endpoint, cache, maxSize, raw).0, main.compression;
      var json := if packed == None then None
        else if packed.value == Plain then Some(parts[1])
        else (w.decompress)(parts[1], packed.value);
      && (packed == None ==> r == Failed(BadCompression))
      && (r == Failed(Decompression) <==> packed.Some? && json == None)
      && (json.Some? && (w.decodeData)(json.value) == None ==> r == Failed(BadJson))
      && (json.Some? && (w.decodeData)(json.value).Some? ==>
            (w.parseChannels)((w.decodeData)(json.value).value, raw) == None ==> r == Failed(Panic))
  {
    hide Remembered, Values;
  }

  /** The loop over the channels. */
  method ParseValues(w: World, parts: seq<seq<byte>>, time: (nat, nat), channels: seq<Channel>, raw: bool)
      returns (data: Option<ChannelMap>)
    requires |parts| == 2 + 2 * |channels|
    ensures data == Values(w, parts, time, channels, raw, |channels|)
  {
    data := Some([]);
    for i := 0 to |channels|
      invariant data == Values(w, parts, time, channels, raw, i) && data.Some?
    {
      var v, t := parts[2 * i + 2], parts[2 * i + 3];
      match (w.parseValue)(channels[i], v, t, time, raw) {
        case Readable(value) => data := Some(Put(data.value, channels[i].name, Some(value)));
        case Undecodable => data := Some(Put(data.value, channels[i].name, None));
        case Unreadable =>
          StillPanics(w, parts, time, channels, raw, i + 1);
          return None;
      }
    }
  }

  /** A panic of one channel is a panic of the message. */
  lemma {:induction false} StillPanics(w: World, parts: seq<seq<byte>>, time: (nat, nat), channels: seq<Channel>,
                                       raw: bool, n: nat)
    requires n <= |channels| && |parts| == 2 + 2 * |channels| && Values(w, parts, time, channels, raw, n) == None
    ensures Values(w, parts, time, channels, raw, |channels|) == None
    decreases |channels| - n
  {
    if n < |channels| {
      StillPanics(w, parts, time, channels, raw, n + 1);
    }
  }

  /** parse_message on the cache it updates. */
  method ParseMessage(w: World, parts: seq<seq<byte>>, endpoint: Option<string>, cache: LimitedHashMap<string, Info>,
                      raw: bool)
      returns (r: Outcome)
    requires cache.Valid()
    modifies cache
    ensures cache.Valid() && cache.maxSize == old(cache.maxSize)
    ensures (r, cache.Contents()) == ParseWith(w, parts, endpoint, old(cache.Contents()), cache.maxSize, raw)
    ensures forall m :: r == Parsed(m) <==> IsMessage(w, parts, endpoint, old(cache.Contents()), raw, m)
    ensures |parts| < 2 ==> r == Failed(InvalidData)
    ensures |parts| >= 2 ==>
      match (w.decodeMain)(parts[0])
      case None => r == Failed(BadJson)
      case Some(main) =>
        (main.hash == None ==> r == Failed(BadHash)) && (main.hash.Some? && main.time == None ==> r == Failed(Panic))
  {
    hide Values, Inserted, IsMessage;
    forall m {
      ParsedExactly(w, parts, endpoint, cache.Contents(), cache.maxSize, raw, m);
    }
    if |parts| < 2 {
      return Failed(InvalidData);
    }
    var decoded := (w.decodeMain)(parts[0]);
    if decoded == None {
      return Failed(BadJson);
    }
    var main := decoded.value;
    if main.hash == None {
      return Failed(BadHash);
    }
    var hash := main.hash.value;
    if main.time == None {
      return Failed(Panic);
    }
    var found := if endpoint.Some? then cache.Get(endpoint.value) else None;
    if found != None && found.value.hash != hash {
      found := None;
    }
    if found == None {
      found := cache.Get(hash);
    }
    var header, channels, changed;
    if found != None {
      header, channels, changed := found.value.header, found.value.channels, false;
    } else {
      var parsed := FreshHeader(w, parts[1], main.compression, raw);
      if parsed.NotFound? {
        return Failed(parsed.error);
      }
      header, channels, changed := parsed.header, parsed.channels, true;
    }
    if |parts| - 2 != |channels| * 2 {
      return Failed(InvalidData);
    }
    var data := ParseValues(w, parts, main.time.value, channels, raw);
    if data == None {
      return Failed(Panic);
    }
    r := NewMessage(main, header, channels, data.value, changed, raw);
    if r.Parsed? && changed {
      var again := (w.parseChannels)(r.message.header, r.message.raw);
      if again != None {
        cache.Insert(if endpoint.Some? then endpoint.value else hash, Info(hash, r.message.header, again.value));
      }
    }
  }

  // ------------------------------------------------------------ the cache is transparent

  datatype Event = Receive(parts: seq<seq<byte>>, endpoint: Option<string>) | Resize(maxSize: nat)

  datatype State = State(cache: Limited<string, Info>, maxSize: nat)

  function Step(w: World, s: State, e: Event, raw: bool): State {
    match e
    case Receive(parts, endpoint) => s.(cache := ParseWith(w, parts, endpoint, s.cache, s.maxSize, raw).1)
    case Resize(n) => State(Trimmed(s.cache, n), n)
  }

  function Run(w: World, s: State, events: seq<Event>, raw: bool): State {
    if events == [] then s else Step(w, Run(w, s, events[..|events| - 1], raw), events[|events| - 1], raw)
  }

  /**
   What a sender promises: equal hashes come with equal header blobs and compression, and no hash is the name of an
   endpoint.
   */
  datatype Promise = Promise(endpoints: set<string>, blob: string -> seq<byte>,
                             compression: string -> Option<Compression>)

  ghost predicate Keeps(w: World, p: Promise, e: Event) {
    e.Receive? ==>
      && (e.endpoint.Some? ==> e.endpoint.value in p.endpoints)
      && forall main :: |e.parts| >= 2 && (w.decodeMain)(e.parts[0]) == Some(main) && main.hash.Some? ==>
        && main.hash.value !in p.endpoints
        && e.parts[1] == (p.blob)(main.hash.value) && main.compression == (p.compression)(main.hash.value)
  }

  /** An entry is under its endpoint or its hash, and holds what its header blob parses to. */
  ghost predicate SoundEntry(w: World, p: Promise, k: string, i: Info, raw: bool) {
    && i.hash !in p.endpoints && (k in p.endpoints || k == i.hash)
    && FreshHeader(w, (p.blob)(i.hash), (p.compression)(i.hash), raw) == Found(i.header, i.channels)
  }

  ghost predicate Sound(w: World, p: Promise, cache: Limited<string, Info>, raw: bool) {
    forall k :: k in cache.entries ==> SoundEntry(w, p, k, cache.entries[k], raw)
  }

  /** The result but for the mark that the header is new. */
  function Unmarked(o: Outcome): Outcome {
    if o.Parsed? then Parsed(o.message.(headerChanged := true)) else o
  }

  const EMPTY: Limited<string, Info> := Limited([], map[])

  /** On a sound cache parse_message gives what it gives on an empty one, and leaves the cache sound. */
  lemma ParseTransparent(w: World, p: Promise, parts: seq<seq<byte>>, endpoint: Option<string>, s: State, raw: bool)
    requires Keeps(w, p, Receive(parts, endpoint)) && Sound(w, p, s.cache, raw)
    ensures Unmarked(ParseWith(w, parts, endpoint, s.cache, s.maxSize, raw).0) ==
      ParseWith(w, parts, endpoint, EMPTY, s.maxSize, raw).0
    ensures Sound(w, p, ParseWith(w, parts, endpoint, s.cache, s.maxSize, raw).1, raw)
  {
    hide Values, Inserted;
    if |parts| >= 2 && (w.decodeMain)(parts[0]).Some? && (w.decodeMain)(parts[0]).value.hash.Some? {
      var main := (w.decodeMain)(parts[0]).value;
      var hash := main.hash.value;
      var found := Cached(s.cache, endpoint, hash);
      if found.Some? {
        CachedSound(w, p, s.cache, endpoint, hash, raw);
      } else if main.time.Some? && FreshHeader(w, parts[1], main.compression, raw).Found? {
        var h := FreshHeader(w, parts[1], main.compression, raw);
        var r := WithHeader(w, parts, main, h.header, h.channels, true, raw);
        if r.Parsed? {
          RememberedSound(w, p, r.message, endpoint, s, h, raw);
        }
      }
    }
  }

  lemma CachedSound(w: World, p: Promise, cache: Limited<string, Info>, endpoint: Option<string>, hash: string,
                    raw: bool)
    requires Sound(w, p, cache, raw) && hash !in p.endpoints && Cached(cache, endpoint, hash).Some?
    ensures var i := Cached(cache, endpoint, hash).value;
      FreshHeader(w, (p.blob)(hash), (p.compression)(hash), raw) == Found(i.header, i.channels)
  {
    hide FreshHeader;
    if hash in cache.entries {
      assert SoundEntry(w, p, hash, cache.entries[hash], raw);
    }
    if endpoint.Some? && endpoint.value in cache.entries {
      assert SoundEntry(w, p, endpoint.value, cache.entries[endpoint.value], raw);
    }
  }

  lemma RememberedSound(w: World, p: Promise, m: Message, endpoint: Option<string>, s: State, h: Fresh, raw: bool)
    requires Sound(w, p, s.cache, raw) && m.hash !in p.endpoints && (endpoint.Some? ==> endpoint.value in p.endpoints)
    requires h == FreshHeader(w, (p.blob)(m.hash), (p.compression)(m.hash), raw) && h == Found(m.header, m.channels)
    requires m.raw == raw
    ensures Sound(w, p, Remembered(w, m, endpoint, s.cache, s.maxSize), raw)
  {
    hide Inserted;
    var k := if endpoint.Some? then endpoint.value else m.hash;
    var i := Info(m.hash, m.header, m.channels);
    assert (w.parseChannels)(m.header, raw) == Some(m.channels);
    InsertedEntries(s.cache, k, i, s.maxSize);
    assert SoundEntry(w, p, k, i, raw);
  }

  lemma InsertedEntries(m: Limited<string, Info>, key: string, v: Info, maxSize: nat)
    ensures var r := Inserted(m, key, v, maxSize);
      forall k :: k in r.entries ==> (k == key && r.entries[k] == v) || (k in m.entries && r.entries[k] == m.entries[k])
  {
    hide Without, LastOf;
  }

  lemma TrimmedSound(w: World, p: Promise, cache: Limited<string, Info>, n: nat, raw: bool)
    requires Sound(w, p, cache, raw)
    ensures Sound(w, p, Trimmed(cache, n), raw)
  {
    hide SoundEntry, LastOf;
  }

  lemma {:induction false} RunSound(w: World, p: Promise, maxSize: nat, events: seq<Event>, raw: bool)
    requires forall e :: e in events ==> Keeps(w, p, e)
    ensures Sound(w, p, Run(w, State(EMPTY, maxSize), events, raw).cache, raw)
  {
    hide SoundEntry, Keeps, ParseWith, Trimmed;
    if events != [] {
      var front, e := events[..|events| - 1], events[|events| - 1];
      RunSound(w, p, maxSize, front, raw);
      var s := Run(w, State(EMPTY, maxSize), front, raw);
      match e {
        case Receive(parts, endpoint) => ParseTransparent(w, p, parts, endpoint, s, raw);
        case Resize(n) => TrimmedSound(w, p, s.cache, n, raw);
      }
    }
  }

  /**
   Over any run, with any evictions and changes of size, every message is parsed as if the cache were empty,
   except for the mark that its header is new.
   */
  lemma Transparent(w: World, p: Promise, maxSize: nat, events: seq<Event>, raw: bool, k: nat)
    requires k < |events| && events[k].Receive? && forall e :: e in events ==> Keeps(w, p, e)
    ensures var s := Run(w, State(EMPTY, maxSize), events[..k], raw);
      Unmarked(ParseWith(w, events[k].parts, events[k].endpoint, s.cache, s.maxSize, raw).0)
        == ParseWith(w, events[k].parts, events[k].endpoint, EMPTY, s.maxSize, raw).0
  {
    hide ParseWith, Sound, Keeps, Run;
    var s := Run(w, State(EMPTY, maxSize), events[..k], raw);
    RunSound(w, p, maxSize, events[..k], raw);
    ParseTransparent(w, p, events[k].parts, events[k].endpoint, s, raw);
  }

  // ------------------------------------------------------------ when the header is marked as new

  /** Messages come from endpoints of the receiver, and no hash is the name of one of them. */
  ghost predicate Individual(w: World, endpoints: set<string>, e: Event) {
    match e
    case Receive(parts, endpoint) =>
      && endpoint.Some? && endpoint.value in endpoints
      && (|parts| >= 2 && (w.decodeMain)(parts[0]).Some? && (w.decodeMain)(parts[0]).value.hash.Some? ==>
           (w.decodeMain)(parts[0]).value.hash.value !in endpoints)
    case Resize(n) => true
  }

  /** The endpoints that messages have come from. */
  function Seen(events: seq<Event>): set<string> {
    if events == [] then {}
    else
      var e := events[|events| - 1];
      Seen(events[..|events| - 1]) + if e.Receive? && e.endpoint.Some? then {e.endpoint.value} else {}
  }

  /** The size of the cache after a run. */
  function SizeAfter(maxSize: nat, events: seq<Event>): nat {
    if events == [] then maxSize
    else if events[|events| - 1].Resize? then events[|events| - 1].maxSize
    else SizeAfter(maxSize, events[..|events| - 1])
  }

  /** After every event there is room for the endpoints seen so far. */
  ghost predicate Roomy(maxSize: nat, events: seq<Event>) {
    events == [] || (Roomy(maxSize, events[..|events| - 1]) && |Seen(events)| <= SizeAfter(maxSize, events))
  }

  /** The hash of the last message of each endpoint that was parsed, after a run. */
  function LastHashes(w: World, s: State, events: seq<Event>, raw: bool): map<string, string> {
    if events == [] then map[]
    else
      var front, e := events[..|events| - 1], events[|events| - 1];
      var before := LastHashes(w, s, front, raw);
      if e.Receive? && e.endpoint.Some? then
        var r := ParseWith(w, e.parts, e.endpoint, Run(w, s, front, raw).cache, Run(w, s, front, raw).maxSize, raw).0;
        if r.Parsed? then before[e.endpoint.value := r.message.hash] else before
      else before
  }

  /** The cache holds, under each endpoint, the hash of the last message that was parsed. */
  ghost predicate Tracks(cache: Limited<string, Info>, last: map<string, string>, endpoints: set<string>) {
    && Consistent(cache) && cache.entries.Keys == last.Keys <= endpoints
    && forall k :: k in last ==> cache.entries[k].hash == last[k]
  }

  /** With room for every endpoint an insertion forgets nothing. */
  lemma NothingForgotten(m: Limited<string, Info>, k: string, v: Info, endpoints: set<string>, maxSize: nat)
    requires Consistent(m) && m.entries.Keys <= endpoints && k in endpoints && |endpoints| <= maxSize
    ensures Consistent(Inserted(m, k, v, maxSize)) && Inserted(m, k, v, maxSize).entries == m.entries[k := v]
  {
    hide Without, Trimmed, LastOf;
    var next := Limited(Without(m.order, k) + [k], m.entries[k := v]);
    WithConsistent(m, k, v);
    ConsistentSize(next);
    assert next.entries.Keys <= endpoints;
    SubsetSize(next.entries.Keys, endpoints);
    TrimNothing(next, maxSize);
  }

  lemma ResizeForgetsNothing(m: Limited<string, Info>, endpoints: set<string>, n: nat)
    requires Consistent(m) && m.entries.Keys <= endpoints && |endpoints| <= n
    ensures Trimmed(m, n) == m
  {
    ConsistentSize(m);
    SubsetSize(m.entries.Keys, endpoints);
    TrimNothing(m, n);
  }

  /** One message: it is marked exactly when its hash is not the last one of its endpoint, and the cache keeps track. */
  lemma MarkedExactly(w: World, endpoints: set<string>, parts: seq<seq<byte>>, ep: string, s: State,
                      last: map<string, string>, raw: bool)
    requires Individual(w, endpoints, Receive(parts, Some(ep))) && Tracks(s.cache, last, endpoints)
    requires |endpoints| <= s.maxSize
    ensures var (r, cache) := ParseWith(w, parts, Some(ep), s.cache, s.maxSize, raw);
      && (r.Parsed? ==> (r.message.headerChanged <==> !(ep in last && last[ep] == r.message.hash)))
      && Tracks(cache, if r.Parsed? then last[ep := r.message.hash] else last, endpoints)
  {
    hide Values, Inserted, Consistent;
    if |parts| >= 2 && (w.decodeMain)(parts[0]).Some? && (w.decodeMain)(parts[0]).value.hash.Some? {
      var main := (w.decodeMain)(parts[0]).value;
      var hash := main.hash.value;
      assert hash !in s.cache.entries;
      if Cached(s.cache, Some(ep), hash) == None && FreshHeader(w, parts[1], main.compression, raw).Found? {
        var h := FreshHeader(w, parts[1], main.compression, raw);
        assert (w.parseChannels)(h.header, raw) == Some(h.channels);
        NothingForgotten(s.cache, ep, Info(hash, h.header, h.channels), endpoints, s.maxSize);
      }
    }
  }

  lemma {:induction false} RunTracks(w: World, endpoints: set<string>, maxSize: nat, events: seq<Event>, raw: bool)
    requires Roomy(maxSize, events) && forall e :: e in events ==> Individual(w, endpoints, e)
    ensures var s := Run(w, State(EMPTY, maxSize), events, raw);
      && s.maxSize == SizeAfter(maxSize, events) && Seen(events) <= endpoints
      && Tracks(s.cache, LastHashes(w, State(EMPTY, maxSize), events, raw), Seen(events))
  {
    hide ParseWith, Trimmed, Individual, Tracks;
    if events == [] {
      EmptyTracks();
    } else {
      var front, e := events[..|events| - 1], events[|events| - 1];
      RunTracks(w, endpoints, maxSize, front, raw);
      var s, last := Run(w, State(EMPTY, maxSize), front, raw), LastHashes(w, State(EMPTY, maxSize), front, raw);
      assert Individual(w, endpoints, e);
      TracksMore(s.cache, last, Seen(front), Seen(events));
      match e {
        case Receive(parts, endpoint) =>
          FromEndpoint(w, endpoints, Seen(events), parts, endpoint);
          MarkedExactly(w, Seen(events), parts, endpoint.value, s, last, raw);
        case Resize(n) => ResizeTracks(s.cache, last, Seen(events), n);
      }
    }
  }

  lemma EmptyTracks()
    ensures Tracks(EMPTY, map[], {})
  {
  }

  lemma TracksMore(cache: Limited<string, Info>, last: map<string, string>, seen: set<string>, more: set<string>)
    requires Tracks(cache, last, seen) && seen <= more
    ensures Tracks(cache, last, more)
  {
    hide Consistent;
  }

  lemma ResizeTracks(cache: Limited<string, Info>, last: map<string, string>, seen: set<string>, n: nat)
    requires Tracks(cache, last, seen) && |seen| <= n
    ensures Tracks(Trimmed(cache, n), last, seen)
  {
    hide Consistent, Trimmed;
    ResizeForgetsNothing(cache, seen, n);
  }

  lemma FromEndpoint(w: World, endpoints: set<string>, seen: set<string>, parts: seq<seq<byte>>,
                     endpoint: Option<string>)
    requires Individual(w, endpoints, Receive(parts, endpoint))
    ensures endpoint.Some? && endpoint.value in endpoints
    ensures seen <= endpoints && endpoint.value in seen ==> Individual(w, seen, Receive(parts, endpoint))
  {
  }

  /**
   Whenever there is room for the endpoints seen so far, however the cache was resized on the way, a parsed
   message is marked as having a new header exactly when its hash is not that of the last message parsed from its
   endpoint.
   */
  lemma HeaderChangedExactly(w: World, endpoints: set<string>, maxSize: nat, events: seq<Event>, raw: bool, k: nat)
    requires k < |events| && events[k].Receive? && Roomy(maxSize, events[..k + 1])
    requires forall e :: e in events ==> Individual(w, endpoints, e)
    ensures var s := Run(w, State(EMPTY, maxSize), events[..k], raw);
      var last := LastHashes(w, State(EMPTY, maxSize), events[..k], raw);
      var ep := events[k].endpoint;
      var r := ParseWith(w, events[k].parts, ep, s.cache, s.maxSize, raw).0;
      ep.Some? && (r.Parsed? ==> (r.message.headerChanged <==> !(ep.value in last && last[ep.value] == r.message.hash)))
  {
    hide ParseWith, Tracks, Run, LastHashes, Individual;
    var front, e := events[..k], events[k];
    assert events[..k + 1][..k] == front && events[..k + 1][k] == e;
    assert Individual(w, endpoints, e);
    var s, last := Run(w, State(EMPTY, maxSize), front, raw), LastHashes(w, State(EMPTY, maxSize), front, raw);
    RunTracks(w, endpoints, maxSize, front, raw);
    var seen := Seen(events[..k + 1]);
    TracksMore(s.cache, last, Seen(front), seen);
    FromEndpoint(w, endpoints, seen, e.parts, e.endpoint);
    MarkedExactly(w, seen, e.parts, e.endpoint.value, s, last, raw);
  }
}
