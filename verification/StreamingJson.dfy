/** Single-pass reading of a recording (internal/storage/streaming_json_reader.go) over the token stream that
    Go's JSON decoder delivers: brackets, braces, and scalar values, keys included, without commas and colons. */
module StreamingJson {
  import opened Common
  import JsonNumber

  datatype Json = Null | Bool(b: bool) | Num(text: string) | Str(s: string) | Arr(items: Items) | Obj(members: Members)
  datatype Items = NoItems | Item(head: Json, tail: Items)
  datatype Members = NoMembers | Member(key: string, value: Json, tail: Members)

  /** Dangling: text is left, but it ends before a token is complete. */
  datatype Token = Delim(c: char) | Scalar(v: Json) | Dangling

  type Stream = seq<Token>

  datatype Error = UnexpectedEnd | UnexpectedToken | WrongType | Rejected

  // ----- Well-formed token streams

  function Tokens(v: Json): Stream {
    match v
    case Arr(items) => [Delim('[')] + ItemTokens(items) + [Delim(']')]
    case Obj(members) => [Delim('{')] + MemberTokens(members) + [Delim('}')]
    case _ => [Scalar(v)]
  }

  function ItemTokens(items: Items): Stream {
    match items
    case NoItems => []
    case Item(v, tail) => Tokens(v) + ItemTokens(tail)
  }

  function MemberTokens(members: Members): Stream {
    match members
    case NoMembers => []
    case Member(key, v, tail) => [Scalar(Str(key))] + Tokens(v) + MemberTokens(tail)
  }

  // ----- The decoder

  /** More: another element or key comes before the current array or object is closed. */
  predicate More(ts: Stream) {
    ts != [] && ts[0] != Delim(']') && ts[0] != Delim('}')
  }

  /** No further token can be had. */
  predicate AtEnd(ts: Stream) {
    ts == [] || ts[0].Dangling?
  }

  predicate IsSuffix(rest: Stream, ts: Stream) {
    |rest| <= |ts| && rest == ts[|ts| - |rest|..]
  }

  /** Decode: the next complete value and the stream after it. */
  function ReadValue(ts: Stream): (r: Result<(Json, Stream), Error>)
    ensures r.Ok? ==> |r.value.1| < |ts|
    decreases |ts|, 0
  {
    if ts == [] then Err(UnexpectedEnd)
    else
      match ts[0]
      case Dangling => Err(UnexpectedEnd)
      case Scalar(v) => Ok((v, ts[1..]))
      case Delim(c) =>
        if c == '[' then
          match ReadItems(ts[1..])
          case Err(e) => Err(e)
          case Ok((items, rest)) => Ok((Arr(items), rest))
        else if c == '{' then
          match ReadMembers(ts[1..])
          case Err(e) => Err(e)
          case Ok((members, rest)) => Ok((Obj(members), rest))
        else Err(UnexpectedToken)
  }

  function ReadItems(ts: Stream): (r: Result<(Items, Stream), Error>)
    ensures r.Ok? ==> |r.value.1| < |ts|
    decreases |ts|, 1
  {
    if ts == [] then Err(UnexpectedEnd)
    else if ts[0] == Delim(']') then Ok((NoItems, ts[1..]))
    else
      match ReadValue(ts)
      case Err(e) => Err(e)
      case Ok((v, rest)) =>
        match ReadItems(rest)
        case Err(e) => Err(e)
        case Ok((tail, rest')) => Ok((Item(v, tail), rest'))
  }

  function ReadMembers(ts: Stream): (r: Result<(Members, Stream), Error>)
    ensures r.Ok? ==> |r.value.1| < |ts|
    decreases |ts|, 1
  {
    if ts == [] then Err(UnexpectedEnd)
    else if ts[0] == Delim('}') then Ok((NoMembers, ts[1..]))
    else if !(ts[0].Scalar? && ts[0].v.Str?) then Err(UnexpectedToken)
    else
      match ReadValue(ts[1..])
      case Err(e) => Err(e)
      case Ok((v, rest)) =>
        match ReadMembers(rest)
        case Err(e) => Err(e)
        case Ok((tail, rest')) => Ok((Member(ts[0].v.s, v, tail), rest'))
  }

  /** A decoded value leaves a suffix of the stream. */
  lemma {:induction false} ValueLeavesSuffix(ts: Stream)
    ensures ReadValue(ts).Ok? ==> IsSuffix(ReadValue(ts).value.1, ts)
    decreases |ts|, 0
  {
    if ts != [] {
      ItemsLeaveSuffix(ts[1..]);
      MembersLeaveSuffix(ts[1..]);
    }
  }

  lemma {:induction false} ItemsLeaveSuffix(ts: Stream)
    ensures ReadItems(ts).Ok? ==> IsSuffix(ReadItems(ts).value.1, ts)
    decreases |ts|, 1
  {
    if ts != [] && ts[0] != Delim(']') && ReadValue(ts).Ok? {
      ValueLeavesSuffix(ts);
      ItemsLeaveSuffix(ReadValue(ts).value.1);
    }
  }

  lemma {:induction false} MembersLeaveSuffix(ts: Stream)
    ensures ReadMembers(ts).Ok? ==> IsSuffix(ReadMembers(ts).value.1, ts)
    decreases |ts|, 1
  {
    if ts != [] && ts[0].Scalar? && ts[0].v.Str? && ReadValue(ts[1..]).Ok? {
      ValueLeavesSuffix(ts[1..]);
      MembersLeaveSuffix(ReadValue(ts[1..]).value.1);
    }
  }

  /** Decoding a value from its own tokens gives it back, whatever follows. */
  lemma {:induction false} DecodeEncode(v: Json, rest: Stream)
    ensures ReadValue(Tokens(v) + rest) == Ok((v, rest))
    decreases v, 1
  {
    var ts := Tokens(v) + rest;
    match v {
      case Arr(items) =>
        DecodeItems(items, rest);
        assert ts[1..] == ItemTokens(items) + ([Delim(']')] + rest);
      case Obj(members) =>
        DecodeMembers(members, rest);
        assert ts[1..] == MemberTokens(members) + ([Delim('}')] + rest);
      case _ =>
        assert ts[1..] == rest;
    }
  }

  lemma ValueStarts(v: Json)
    ensures Tokens(v) != [] && Tokens(v)[0] != Delim(']') && Tokens(v)[0] != Delim('}')
  {}

  lemma {:induction false} DecodeItems(items: Items, rest: Stream)
    ensures ReadItems(ItemTokens(items) + ([Delim(']')] + rest)) == Ok((items, rest))
    decreases items, 0
  {
    var after := [Delim(']')] + rest;
    match items {
      case NoItems =>
        assert ItemTokens(items) + after == after && after[1..] == rest;
      case Item(v, tail) =>
        ValueStarts(v);
        assert ItemTokens(items) + after == Tokens(v) + (ItemTokens(tail) + after);
        DecodeEncode(v, ItemTokens(tail) + after);
        DecodeItems(tail, rest);
    }
  }

  lemma {:induction false} DecodeMembers(members: Members, rest: Stream)
    ensures ReadMembers(MemberTokens(members) + ([Delim('}')] + rest)) == Ok((members, rest))
    decreases members, 0
  {
    var after := [Delim('}')] + rest;
    match members {
      case NoMembers =>
        assert MemberTokens(members) + after == after && after[1..] == rest;
      case Member(key, v, tail) =>
        var ts := MemberTokens(members) + after;
        assert ts[1..] == Tokens(v) + (MemberTokens(tail) + after);
        DecodeEncode(v, MemberTokens(tail) + after);
        DecodeMembers(tail, rest);
    }
  }

  // ----- Skipping

  /** skipToEndOfArray: drop tokens until depth brackets are closed. */
  function Skip(ts: Stream, depth: nat): Result<Stream, Error> {
    if depth == 0 then Ok(ts)
    else if AtEnd(ts) then Err(UnexpectedEnd)
    else if ts[0] == Delim('[') || ts[0] == Delim('{') then Skip(ts[1..], depth + 1)
    else if ts[0] == Delim(']') || ts[0] == Delim('}') then Skip(ts[1..], depth - 1)
    else Skip(ts[1..], depth)
  }

  /** Skipping passes over any complete value without changing depth, however deep it is. */
  lemma {:induction false} SkipValue(v: Json, rest: Stream, depth: nat)
    requires depth > 0
    ensures Skip(Tokens(v) + rest, depth) == Skip(rest, depth)
    decreases v, 1
  {
    var ts := Tokens(v) + rest;
    match v {
      case Arr(items) =>
        assert ts[1..] == ItemTokens(items) + ([Delim(']')] + rest);
        SkipItems(items, [Delim(']')] + rest, depth + 1);
        assert ([Delim(']')] + rest)[1..] == rest;
      case Obj(members) =>
        assert ts[1..] == MemberTokens(members) + ([Delim('}')] + rest);
        SkipMembers(members, [Delim('}')] + rest, depth + 1);
        assert ([Delim('}')] + rest)[1..] == rest;
      case _ =>
        assert ts[1..] == rest;
    }
  }

  lemma {:induction false} SkipItems(items: Items, rest: Stream, depth: nat)
    requires depth > 0
    ensures Skip(ItemTokens(items) + rest, depth) == Skip(rest, depth)
    decreases items, 0
  {
    match items {
      case NoItems => assert ItemTokens(items) + rest == rest;
      case Item(v, tail) =>
        assert ItemTokens(items) + rest == Tokens(v) + (ItemTokens(tail) + rest);
        SkipValue(v, ItemTokens(tail) + rest, depth);
        SkipItems(tail, rest, depth);
    }
  }

  lemma {:induction false} SkipMembers(members: Members, rest: Stream, depth: nat)
    requires depth > 0
    ensures Skip(MemberTokens(members) + rest, depth) == Skip(rest, depth)
    decreases members, 0
  {
    match members {
      case NoMembers => assert MemberTokens(members) + rest == rest;
      case Member(key, v, tail) =>
        var ts := MemberTokens(members) + rest;
        assert ts[1..] == Tokens(v) + (MemberTokens(tail) + rest);
        SkipValue(v, MemberTokens(tail) + rest, depth);
        SkipMembers(tail, rest, depth);
    }
  }

  /** Skipping an array from just past its opening bracket stops just past its own closing bracket. */
  lemma SkipStopsPastArray(items: Items, rest: Stream)
    ensures Skip(ItemTokens(items) + ([Delim(']')] + rest), 1) == Ok(rest)
  {
    SkipItems(items, [Delim(']')] + rest, 1);
    assert ([Delim(']')] + rest)[1..] == rest;
  }

  // ----- Processing a recording

  datatype Metadata = Metadata(worldName: string, missionName: string, missionAuthor: string, endFrame: uint32,
                               captureDelayMs: uint32, extensionVersion: string, addonVersion: string)

  const NO_METADATA := Metadata("", "", "", 0, 0, "", "")

  datatype Kind = Entity | Event | Marker | Time

  /** A callback gets an element and says whether it accepts it. */
  type Callback = Json -> bool

  type Callbacks = map<Kind, Callback>

  datatype Call = Call(kind: Kind, item: Json)

  /** The arrays that are streamed, by key. */
  function KindOf(key: string): Option<Kind> {
    if key == "entities" then Some(Entity)
    else if key == "events" then Some(Event)
    else if key == "Markers" then Some(Marker)
    else if key == "times" then Some(Time)
    else None
  }

  /** Entities and times must be objects, events and markers arrays; null decodes as either. */
  predicate Fits(kind: Kind, item: Json) {
    item.Null? || if kind == Entity || kind == Time then item.Obj? else item.Arr?
  }

  /** uint32 of a float64. */
  function ToUint32(r: real): uint32 {
    Wrap32(Truncate(r))
  }

  /** The number before r toward zero, up to multiples of 2^32. */
  lemma ToUint32Means(r: real, n: int, q: int)
    requires if r >= 0.0 then n as real <= r < (n + 1) as real else (n - 1) as real < r <= n as real
    requires 0 <= n - q * 0x1_0000_0000 < 0x1_0000_0000
    ensures ToUint32(r) == n - q * 0x1_0000_0000
  {
    TruncateMeans(r, n);
    WrapMeans(n, q);
  }

  function WithMetadata(m: Metadata, key: string, v: Json): Metadata {
    if key == "worldName" && v.Str? then m.(worldName := v.s)
    else if key == "missionName" && v.Str? then m.(missionName := v.s)
    else if key == "missionAuthor" && v.Str? then m.(missionAuthor := v.s)
    else if key == "endFrame" && v.Num? then m.(endFrame := ToUint32(JsonNumber.Value(v.text)))
    else if key == "captureDelay" && v.Num? then m.(captureDelayMs := ToUint32(JsonNumber.Value(v.text) * 1000.0))
    else if key == "extensionVersion" && v.Str? then m.(extensionVersion := v.s)
    else if key == "addonVersion" && v.Str? then m.(addonVersion := v.s)
    else m
  }

  /** The reader: a position in the token stream, and the callbacks made so far. */
  class Reader {
    const tokens: Stream
    var pos: nat
    ghost var calls: seq<Call>

    constructor (tokens: Stream)
      ensures this.tokens == tokens && pos == 0 && calls == []
    {
      this.tokens, pos, calls := tokens, 0, [];
    }

    ghost predicate Valid()
      reads this
    {
      pos <= |tokens|
    }

    function Rest(): Stream
      requires pos <= |tokens|
      reads this
    {
      tokens[pos..]
    }

    /** The reader has done what p says: made its calls, and stopped at its error or before its rest. */
    ghost predicate Reads(p: Progress, before: seq<Call>, r: Result<(), Error>)
      requires pos <= |tokens|
      reads this
    {
      && calls == before + p.calls
      && match p.end
         case Ok(rest) => r == Ok(()) && Rest() == rest
         case Err(e) => r == Err(e)
    }

    method Next() returns (r: Result<Token, Error>)
      requires Valid()
      modifies this`pos
      ensures Valid() && pos >= old(pos)
      ensures AtEnd(old(Rest())) ==> r == Err(UnexpectedEnd) && pos == old(pos)
      ensures !AtEnd(old(Rest())) ==> r == Ok(old(Rest())[0]) && Rest() == old(Rest())[1..]
    {
      if pos == |tokens| || tokens[pos].Dangling? {
        return Err(UnexpectedEnd);
      }
      r := Ok(tokens[pos]);
      pos := pos + 1;
    }

    method Decode() returns (r: Result<Json, Error>)
      requires Valid()
      modifies this`pos
      ensures Valid() && pos >= old(pos)
      ensures match ReadValue(old(Rest()))
        case Err(e) => r == Err(e)
        case Ok((v, rest)) => r == Ok(v) && Rest() == rest && pos > old(pos)
    {
      ValueLeavesSuffix(Rest());
      match ReadValue(Rest()) {
        case Err(e) => r := Err(e);
        case Ok((v, rest)) =>
          r := Ok(v);
          pos := |tokens| - |rest|;
      }
    }

    method ExpectArray() returns (r: Result<(), Error>)
      requires Valid()
      modifies this`pos
      ensures Valid() && pos >= old(pos)
      ensures r.Ok? <==> old(Rest()) != [] && old(Rest())[0] == Delim('[')
      ensures r.Ok? ==> Rest() == old(Rest())[1..]
      ensures r.Err? ==> r.error == if AtEnd(old(Rest())) then UnexpectedEnd else UnexpectedToken
    {
      var tok := Next();
      match tok {
        case Err(e) => r := Err(e);
        case Ok(t) => r := if t == Delim('[') then Ok(()) else Err(UnexpectedToken);
      }
    }

    method SkipToEndOfArray() returns (r: Result<(), Error>)
      requires Valid()
      modifies this`pos
      ensures Valid() && pos >= old(pos)
      ensures match Skip(old(Rest()), 1)
        case Err(e) => r == Err(e)
        case Ok(rest) => r == Ok(()) && Rest() == rest
    {
      var depth := 1;
      while depth > 0
        invariant Valid() && pos >= old(pos)
        invariant Skip(Rest(), depth) == Skip(old(Rest()), 1)
        decreases |tokens| - pos, depth
      {
        var tok := Next();
        match tok {
          case Err(e) => return Err(e);
          case Ok(t) =>
            if t == Delim('[') || t == Delim('{') {
              depth := depth + 1;
            } else if t == Delim(']') || t == Delim('}') {
              depth := depth - 1;
            }
        }
      }
      r := Ok(());
    }

    /** streamMapArray and streamSliceArray: both skip the array if there is no callback for it. */
    method StreamArray(kind: Kind, cbs: Callbacks) returns (r: Result<(), Error>)
      requires Valid()
      modifies this`pos, this`calls
      ensures Valid() && pos >= old(pos)
      ensures Reads(ArrayResult(old(Rest()), kind, cbs), old(calls), r)
    {
      var open := ExpectArray();
      if open.Err? {
        return open;
      }
      if kind !in cbs {
        r := SkipToEndOfArray();
        return;
      }
      r := StreamItems(kind, cbs[kind]);
    }

    method StreamItems(kind: Kind, cb: Callback) returns (r: Result<(), Error>)
      requires Valid()
      modifies this`pos, this`calls
      ensures Valid() && pos >= old(pos)
      ensures Reads(ItemsResult(old(Rest()), kind, cb), old(calls), r)
    {
      ghost var made, start := [], Rest();
      while pos < |tokens| && More(Rest())
        invariant Valid() && pos >= old(pos)
        invariant calls == old(calls) + made
        invariant ItemsResult(start, kind, cb) == After(made, ItemsResult(Rest(), kind, cb))
        decreases |tokens| - pos
      {
        ghost var here := Rest();
        var item := Decode();
        if item.Err? {
          assert ItemsResult(here, kind, cb) == Progress([], Err(item.error));
          return Err(item.error);
        }
        if !Fits(kind, item.value) {
          assert ItemsResult(here, kind, cb) == Progress([], Err(WrongType));
          return Err(WrongType);
        }
        ghost var call := [Call(kind, item.value)];
        calls := calls + [Call(kind, item.value)];
        assert calls == old(calls) + (made + call);
        if !cb(item.value) {
          assert ItemsResult(here, kind, cb) == Progress(call, Err(Rejected));
          return Err(Rejected);
        }
        assert ItemsResult(here, kind, cb) == After(call, ItemsResult(Rest(), kind, cb));
        AfterAfter(made, call, ItemsResult(Rest(), kind, cb));
        made := made + call;
      }
      var close := Next();
      match close {
        case Err(e) => r := Err(e);
        case Ok(t) => r := if t == Delim(']') then Ok(()) else Err(UnexpectedToken);
      }
    }

    /** One key's value: an array to stream, or a value of which some become metadata. */
    method ProcessMember(key: string, cbs: Callbacks, meta: Metadata) returns (newMeta: Metadata, r: Result<(), Error>)
      requires Valid()
      modifies this`pos, this`calls
      ensures Valid() && pos >= old(pos)
      ensures Reads(MemberProgress(key, old(Rest()), cbs), old(calls), r)
      ensures newMeta == MetadataAfter(key, old(Rest()), meta)
    {
      newMeta := meta;
      var kind := KindOf(key);
      if kind.Some? {
        r := StreamArray(kind.value, cbs);
        return;
      }
      var val := Decode();
      if val.Err? {
        return newMeta, Err(val.error);
      }
      newMeta := WithMetadata(meta, key, val.value);
      r := Ok(());
    }

    /** Reads the whole recording: the metadata found, and the error that stopped it, if any. */
    method Process(cbs: Callbacks) returns (meta: Metadata, error: Option<Error>)
      requires Valid()
      modifies this`pos, this`calls
      ensures Valid()
      ensures Report(calls, meta, error) == Prepend(old(calls), DocumentReport(old(Rest()), cbs))
    {
      meta := NO_METADATA;
      var tok := Next();
      if tok.Err? {
        return meta, Some(tok.error);
      }
      if tok.value != Delim('{') {
        return meta, Some(UnexpectedToken);
      }
      meta, error := ProcessMembers(cbs);
    }

    method ProcessMembers(cbs: Callbacks) returns (meta: Metadata, error: Option<Error>)
      requires Valid()
      modifies this`pos, this`calls
      ensures Valid()
      ensures Report(calls, meta, error) == Prepend(old(calls), MembersReport(old(Rest()), cbs, NO_METADATA))
    {
      meta := NO_METADATA;
      ghost var goal := Prepend(calls, MembersReport(Rest(), cbs, meta));
      while pos < |tokens| && More(Rest())
        invariant Valid()
        invariant Prepend(calls, MembersReport(Rest(), cbs, meta)) == goal
        decreases |tokens| - pos
      {
        ghost var here, before := Rest(), calls;
        var keyToken := Next();
        if keyToken.Err? || !(keyToken.value.Scalar? && keyToken.value.v.Str?) {
          assert MembersReport(here, cbs, meta) == Report([], meta, Some(UnexpectedToken));
          return meta, Some(UnexpectedToken);
        }
        ghost var p := MemberProgress(keyToken.value.v.s, Rest(), cbs);
        var newMeta, r := ProcessMember(keyToken.value.v.s, cbs, meta);
        if r.Err? {
          assert MembersReport(here, cbs, meta) == Report(p.calls, meta, Some(r.error));
          return meta, Some(r.error);
        }
        assert MembersReport(here, cbs, meta) == Prepend(p.calls, MembersReport(Rest(), cbs, newMeta));
        PrependPrepend(before, p.calls, MembersReport(Rest(), cbs, newMeta));
        meta := newMeta;
      }
      error := None;
    }
  }

  // ----- What a stream means

  /** The calls made, and the stream left over or the error met. */
  datatype Progress = Progress(calls: seq<Call>, end: Result<Stream, Error>)

  function After(calls: seq<Call>, p: Progress): Progress {
    Progress(calls + p.calls, p.end)
  }

  lemma AfterAfter(a: seq<Call>, b: seq<Call>, p: Progress)
    ensures After(a, After(b, p)) == After(a + b, p)
  {}

  /** Elements up to the closing bracket, each given to the callback. */
  function ItemsResult(ts: Stream, kind: Kind, cb: Callback): Progress
    decreases |ts|
  {
    if ts == [] then Progress([], Err(UnexpectedEnd))
    else if !More(ts) then Progress([], if ts[0] == Delim(']') then Ok(ts[1..]) else Err(UnexpectedToken))
    else
      match ReadValue(ts)
      case Err(e) => Progress([], Err(e))
      case Ok((v, rest)) =>
        if !Fits(kind, v) then Progress([], Err(WrongType))
        else if !cb(v) then Progress([Call(kind, v)], Err(Rejected))
        else After([Call(kind, v)], ItemsResult(rest, kind, cb))
  }

  function ArrayResult(ts: Stream, kind: Kind, cbs: Callbacks): Progress {
    if AtEnd(ts) then Progress([], Err(UnexpectedEnd))
    else if ts[0] != Delim('[') then Progress([], Err(UnexpectedToken))
    else if kind !in cbs then Progress([], Skip(ts[1..], 1))
    else ItemsResult(ts[1..], kind, cbs[kind])
  }

  /** The outcome of reading: calls made, metadata, and the error that stopped it, if any. */
  datatype Report = Report(calls: seq<Call>, meta: Metadata, error: Option<Error>)

  function Prepend(calls: seq<Call>, r: Report): Report {
    Report(calls + r.calls, r.meta, r.error)
  }

  lemma PrependPrepend(a: seq<Call>, b: seq<Call>, r: Report)
    ensures Prepend(a, Prepend(b, r)) == Prepend(a + b, r)
  {}

  lemma {:induction false} ItemsShrink(ts: Stream, kind: Kind, cb: Callback)
    ensures var end := ItemsResult(ts, kind, cb).end; end.Ok? ==> |end.value| < |ts|
    decreases |ts|
  {
    if ts != [] && More(ts) && ReadValue(ts).Ok? {
      ItemsShrink(ReadValue(ts).value.1, kind, cb);
    }
  }

  lemma {:induction false} SkipShrinks(ts: Stream, depth: nat)
    ensures Skip(ts, depth).Ok? ==> |Skip(ts, depth).value| <= |ts|
  {
    if depth > 0 && ts != [] {
      SkipShrinks(ts[1..], depth + 1);
      SkipShrinks(ts[1..], depth - 1);
      SkipShrinks(ts[1..], depth);
    }
  }

  lemma ArrayShrinks(ts: Stream, kind: Kind, cbs: Callbacks)
    ensures var end := ArrayResult(ts, kind, cbs).end; end.Ok? ==> |end.value| < |ts|
  {
    if ts != [] {
      SkipShrinks(ts[1..], 1);
      if kind in cbs {
        ItemsShrink(ts[1..], kind, cbs[kind]);
      }
    }
  }

  /** Reading the value of a key: an array to stream, or any value. */
  function MemberProgress(key: string, ts: Stream, cbs: Callbacks): Progress {
    match KindOf(key)
    case Some(kind) => ArrayResult(ts, kind, cbs)
    case None =>
      match ReadValue(ts)
      case Err(e) => Progress([], Err(e))
      case Ok((_, rest)) => Progress([], Ok(rest))
  }

  /** The metadata once the value of a key is read. */
  function MetadataAfter(key: string, ts: Stream, meta: Metadata): Metadata {
    if KindOf(key).Some? || ReadValue(ts).Err? then meta
    else WithMetadata(meta, key, ReadValue(ts).value.0)
  }

  lemma MemberShrinks(key: string, ts: Stream, cbs: Callbacks)
    ensures var end := MemberProgress(key, ts, cbs).end; end.Ok? ==> |end.value| < |ts|
  {
    if KindOf(key).Some? {
      ArrayShrinks(ts, KindOf(key).value, cbs);
    }
  }

  /** Members up to the end of the object. */
  function MembersReport(ts: Stream, cbs: Callbacks, meta: Metadata): Report
    decreases |ts|
  {
    if !More(ts) then Report([], meta, None)
    else if !(ts[0].Scalar? && ts[0].v.Str?) then Report([], meta, Some(UnexpectedToken))
    else
      var key := ts[0].v.s;
      var p := MemberProgress(key, ts[1..], cbs);
      MemberShrinks(key, ts[1..], cbs);
      match p.end
      case Err(e) => Report(p.calls, meta, Some(e))
      case Ok(rest) => Prepend(p.calls, MembersReport(rest, cbs, MetadataAfter(key, ts[1..], meta)))
  }

  function DocumentReport(ts: Stream, cbs: Callbacks): Report {
    if AtEnd(ts) then Report([], NO_METADATA, Some(UnexpectedEnd))
    else if ts[0] != Delim('{') then Report([], NO_METADATA, Some(UnexpectedToken))
    else MembersReport(ts[1..], cbs, NO_METADATA)
  }

  // ----- Well-formed recordings

  /** One call per element, in order. */
  function CallAll(kind: Kind, items: Items): seq<Call> {
    match items
    case NoItems => []
    case Item(v, tail) => [Call(kind, v)] + CallAll(kind, tail)
  }

  predicate AllAccepted(kind: Kind, items: Items, cb: Callback) {
    match items
    case NoItems => true
    case Item(v, tail) => Fits(kind, v) && cb(v) && AllAccepted(kind, tail, cb)
  }

  /** A streamed key holds an array, whose elements its callback, if any, accepts. */
  predicate MemberReadable(key: string, v: Json, cbs: Callbacks) {
    match KindOf(key)
    case Some(kind) => v.Arr? && (kind in cbs ==> AllAccepted(kind, v.items, cbs[kind]))
    case None => true
  }

  predicate Readable(members: Members, cbs: Callbacks) {
    match members
    case NoMembers => true
    case Member(key, v, tail) => MemberReadable(key, v, cbs) && Readable(tail, cbs)
  }

  function MemberCalls(key: string, v: Json, cbs: Callbacks): seq<Call> {
    match KindOf(key)
    case Some(kind) => if v.Arr? && kind in cbs then CallAll(kind, v.items) else []
    case None => []
  }

  function ExpectedCalls(members: Members, cbs: Callbacks): seq<Call> {
    match members
    case NoMembers => []
    case Member(key, v, tail) => MemberCalls(key, v, cbs) + ExpectedCalls(tail, cbs)
  }

  /** The metadata of the document alone. */
  function MetadataOf(members: Members, meta: Metadata): Metadata {
    match members
    case NoMembers => meta
    case Member(key, v, tail) => MetadataOf(tail, MetadataWith(meta, key, v))
  }

  /** The last string under a key, if there is one. */
  function LastString(members: Members, key: string, otherwise: string): string {
    match members
    case NoMembers => otherwise
    case Member(k, v, tail) => LastString(tail, key, if k == key && v.Str? then v.s else otherwise)
  }

  /** The last number under a key, scaled and converted, if there is one. */
  function LastNumber(members: Members, key: string, scale: real, otherwise: uint32): uint32 {
    match members
    case NoMembers => otherwise
    case Member(k, v, tail) =>
      LastNumber(tail, key, scale, if k == key && v.Num? then ToUint32(JsonNumber.Value(v.text) * scale) else otherwise)
  }

  /** Each metadata field is the last value of the right type under its own key; the capture delay is given in
      seconds and kept in milliseconds. */
  lemma {:induction false} MetadataFields(members: Members, meta: Metadata)
    ensures MetadataOf(members, meta) == Metadata(
      LastString(members, "worldName", meta.worldName),
      LastString(members, "missionName", meta.missionName),
      LastString(members, "missionAuthor", meta.missionAuthor),
      LastNumber(members, "endFrame", 1.0, meta.endFrame),
      LastNumber(members, "captureDelay", 1000.0, meta.captureDelayMs),
      LastString(members, "extensionVersion", meta.extensionVersion),
      LastString(members, "addonVersion", meta.addonVersion))
  {
    if members.Member? {
      MetadataFields(members.tail, MetadataWith(meta, members.key, members.value));
    }
  }

  // ----- Which callback gets what

  /** The elements that a kind's callback gets, in order. */
  ghost function Given(calls: seq<Call>, kind: Kind): seq<Json> {
    if calls == [] then []
    else
      var n := |calls| - 1;
      Given(calls[..n], kind) + if calls[n].kind == kind then [calls[n].item] else []
  }

  function ItemList(items: Items): seq<Json> {
    match items
    case NoItems => []
    case Item(v, tail) => [v] + ItemList(tail)
  }

  /** All elements of the arrays under a key, in order. */
  function ElementsUnder(members: Members, key: string): seq<Json> {
    match members
    case NoMembers => []
    case Member(k, v, tail) => (if k == key && v.Arr? then ItemList(v.items) else []) + ElementsUnder(tail, key)
  }

  lemma {:induction false} GivenConcat(a: seq<Call>, b: seq<Call>, kind: Kind)
    ensures Given(a + b, kind) == Given(a, kind) + Given(b, kind)
  {
    if b == [] {
      assert a + b == a;
    } else {
      var n := |b| - 1;
      assert (a + b)[..|a| + n] == a + b[..n];
      GivenConcat(a, b[..n], kind);
    }
  }

  lemma {:induction false} GivenAll(kind: Kind, items: Items, other: Kind)
    ensures Given(CallAll(kind, items), other) == if kind == other then ItemList(items) else []
  {
    match items {
      case NoItems =>
      case Item(v, tail) =>
        GivenAll(kind, tail, other);
        GivenConcat([Call(kind, v)], CallAll(kind, tail), other);
        assert [Call(kind, v)][..0] == [];
    }
  }

  lemma GivenByMember(key: string, v: Json, cbs: Callbacks, kind: Kind, name: string)
    requires forall k :: KindOf(k) == Some(kind) <==> k == name
    ensures Given(MemberCalls(key, v, cbs), kind)
         == if kind in cbs && key == name && v.Arr? then ItemList(v.items) else []
  {
    if KindOf(key).Some? && v.Arr? {
      GivenAll(KindOf(key).value, v.items, kind);
    }
  }

  lemma {:induction false} GivenExactly(members: Members, cbs: Callbacks, kind: Kind, name: string)
    requires forall k :: KindOf(k) == Some(kind) <==> k == name
    ensures Given(ExpectedCalls(members, cbs), kind) == if kind in cbs then ElementsUnder(members, name) else []
  {
    match members {
      case NoMembers =>
      case Member(key, v, tail) =>
        GivenExactly(tail, cbs, kind, name);
        GivenByMember(key, v, cbs, kind, name);
        GivenConcat(MemberCalls(key, v, cbs), ExpectedCalls(tail, cbs), kind);
    }
  }

  /** Each callback gets, in order, exactly the elements of the arrays under its own key. */
  ghost predicate ByKey(calls: seq<Call>, members: Members, cbs: Callbacks) {
    && Given(calls, Entity) == (if Entity in cbs then ElementsUnder(members, "entities") else [])
    && Given(calls, Event) == (if Event in cbs then ElementsUnder(members, "events") else [])
    && Given(calls, Marker) == (if Marker in cbs then ElementsUnder(members, "Markers") else [])
    && Given(calls, Time) == (if Time in cbs then ElementsUnder(members, "times") else [])
  }

  lemma CallsByKey(members: Members, cbs: Callbacks)
    ensures ByKey(ExpectedCalls(members, cbs), members, cbs)
  {
    GivenExactly(members, cbs, Entity, "entities");
    GivenExactly(members, cbs, Event, "events");
    GivenExactly(members, cbs, Marker, "Markers");
    GivenExactly(members, cbs, Time, "times");
  }

  /** What the value under a key must be to be read: entities and times are objects, events and markers arrays, or null,
      and the callback accepts each; without a callback any array will do, and under other keys any value. */
  lemma ReadableByKey(key: string, v: Json, cbs: Callbacks)
    ensures key == "entities" ==> (MemberReadable(key, v, cbs) <==> v.Arr? && (Entity in cbs ==>
              forall item <- ItemList(v.items) :: (item.Obj? || item.Null?) && cbs[Entity](item)))
    ensures key == "times" ==> (MemberReadable(key, v, cbs) <==> v.Arr? && (Time in cbs ==>
              forall item <- ItemList(v.items) :: (item.Obj? || item.Null?) && cbs[Time](item)))
    ensures key == "events" ==> (MemberReadable(key, v, cbs) <==> v.Arr? && (Event in cbs ==>
              forall item <- ItemList(v.items) :: (item.Arr? || item.Null?) && cbs[Event](item)))
    ensures key == "Markers" ==> (MemberReadable(key, v, cbs) <==> v.Arr? && (Marker in cbs ==>
              forall item <- ItemList(v.items) :: (item.Arr? || item.Null?) && cbs[Marker](item)))
    ensures key !in {"entities", "events", "Markers", "times"} ==> MemberReadable(key, v, cbs)
  {
    if v.Arr? && KindOf(key).Some? && KindOf(key).value in cbs {
      AcceptedMeans(KindOf(key).value, v.items, cbs[KindOf(key).value]);
    }
  }

  lemma {:induction false} AcceptedMeans(kind: Kind, items: Items, cb: Callback)
    ensures AllAccepted(kind, items, cb) <==> forall item <- ItemList(items) :: Fits(kind, item) && cb(item)
  {
    match items {
      case NoItems =>
      case Item(v, tail) =>
        AcceptedMeans(kind, tail, cb);
        assert ItemList(items) == [v] + ItemList(tail);
        assert v in ItemList(items);
    }
  }

  lemma {:induction false} ItemsOfArray(items: Items, rest: Stream, kind: Kind, cb: Callback)
    ensures var p := ItemsResult(ItemTokens(items) + ([Delim(']')] + rest), kind, cb);
      if AllAccepted(kind, items, cb) then p == Progress(CallAll(kind, items), Ok(rest)) else p.end.Err?
  {
    hide Tokens, Fits;
    var after := [Delim(']')] + rest;
    match items {
      case NoItems =>
        assert ItemTokens(items) + after == after && after[1..] == rest;
      case Item(v, tail) =>
        ValueStarts(v);
        assert ItemTokens(items) + after == Tokens(v) + (ItemTokens(tail) + after);
        DecodeEncode(v, ItemTokens(tail) + after);
        ItemsOfArray(tail, rest, kind, cb);
    }
  }

  lemma ArrayOfValue(v: Json, rest: Stream, kind: Kind, cbs: Callbacks)
    ensures var p := ArrayResult(Tokens(v) + rest, kind, cbs);
      if v.Arr? && (kind in cbs ==> AllAccepted(kind, v.items, cbs[kind]))
      then p == Progress(if kind in cbs then CallAll(kind, v.items) else [], Ok(rest))
      else p.end.Err?
  {
    var ts := Tokens(v) + rest;
    if v.Arr? {
      assert ts[1..] == ItemTokens(v.items) + ([Delim(']')] + rest);
      SkipStopsPastArray(v.items, rest);
      if kind in cbs {
        ItemsOfArray(v.items, rest, kind, cbs[kind]);
      }
    }
  }

  function Count(members: Members): nat {
    match members
    case NoMembers => 0
    case Member(_, _, tail) => 1 + Count(tail)
  }

  function Take(members: Members, m: nat): Members {
    if m == 0 || members.NoMembers? then NoMembers else Member(members.key, members.value, Take(members.tail, m - 1))
  }

  /** The position of the first member that cannot be read, or the number of members. */
  function FirstUnreadable(members: Members, cbs: Callbacks): nat {
    match members
    case NoMembers => 0
    case Member(key, v, tail) => if MemberReadable(key, v, cbs) then 1 + FirstUnreadable(tail, cbs) else 0
  }

  lemma {:induction false} ReadableMeansAll(members: Members, cbs: Callbacks)
    ensures Readable(members, cbs) <==> FirstUnreadable(members, cbs) == Count(members)
    ensures Take(members, Count(members)) == members && FirstUnreadable(members, cbs) <= Count(members)
  {
    if members.Member? {
      ReadableMeansAll(members.tail, cbs);
    }
  }

  /** Reading the value of a key from its tokens. */
  lemma MemberOfValue(key: string, v: Json, rest: Stream, cbs: Callbacks)
    ensures var p := MemberProgress(key, Tokens(v) + rest, cbs);
      if MemberReadable(key, v, cbs) then p == Progress(MemberCalls(key, v, cbs), Ok(rest)) else p.end.Err?
    ensures KindOf(key).None? ==> ReadValue(Tokens(v) + rest) == Ok((v, rest))
  {
    match KindOf(key) {
      case Some(kind) => ArrayOfValue(v, rest, kind, cbs);
      case None => DecodeEncode(v, rest);
    }
  }

  /** The metadata once a member is past. */
  function MetadataWith(meta: Metadata, key: string, v: Json): Metadata {
    if KindOf(key).Some? then meta else WithMetadata(meta, key, v)
  }

  /** Reading a member and what follows it. */
  lemma OneMember(key: string, v: Json, rest: Stream, cbs: Callbacks, meta: Metadata)
    ensures var r := MembersReport([Scalar(Str(key))] + Tokens(v) + rest, cbs, meta);
      if MemberReadable(key, v, cbs)
      then r == Prepend(MemberCalls(key, v, cbs), MembersReport(rest, cbs, MetadataWith(meta, key, v)))
      else r.error.Some? && r.meta == meta
  {
    var ts := [Scalar(Str(key))] + Tokens(v) + rest;
    assert ts[1..] == Tokens(v) + rest;
    MemberOfValue(key, v, rest, cbs);
  }

  /** Reading the members of a well-formed object succeeds exactly if they are readable; then each callback gets
      exactly the elements of its arrays in order, and the metadata is that of the document. In any case the metadata
      is that of the members before the first unreadable one. */
  lemma {:induction false} MembersOfDocument(members: Members, after: Stream, cbs: Callbacks, meta: Metadata)
    requires !More(after)
    ensures var r := MembersReport(MemberTokens(members) + after, cbs, meta);
      && r.meta == MetadataOf(Take(members, FirstUnreadable(members, cbs)), meta)
      && if Readable(members, cbs)
         then r == Report(ExpectedCalls(members, cbs), MetadataOf(members, meta), None)
         else r.error.Some?
  {
    hide MemberProgress, MemberReadable, MemberCalls, MetadataWith, Tokens;
    match members {
      case NoMembers =>
        assert MemberTokens(members) + after == after;
      case Member(key, v, tail) =>
        assert MemberTokens(members) + after == [Scalar(Str(key))] + Tokens(v) + (MemberTokens(tail) + after);
        OneMember(key, v, MemberTokens(tail) + after, cbs, meta);
        MembersOfDocument(tail, after, cbs, MetadataWith(meta, key, v));
    }
  }

  lemma DocumentOf(inner: Stream, cbs: Callbacks)
    ensures DocumentReport([Delim('{')] + inner, cbs) == MembersReport(inner, cbs, NO_METADATA)
  {
    assert ([Delim('{')] + inner)[1..] == inner;
  }

  /** The closing brace is never consumed: whatever follows the members, if it is not another one, makes no
      difference, be it a closing bracket of the wrong kind or nothing at all. */
  lemma ClosingIgnored(members: Members, after: Stream, cbs: Callbacks)
    requires !More(after)
    ensures DocumentReport([Delim('{')] + (MemberTokens(members) + after), cbs)
         == DocumentReport(Tokens(Obj(members)), cbs) || !Readable(members, cbs)
    ensures DocumentReport([Delim('{')] + (MemberTokens(members) + after), cbs).error.None? <==> Readable(members, cbs)
  {
    var inner := MemberTokens(members) + [Delim('}')];
    DocumentOf(MemberTokens(members) + after, cbs);
    MembersOfDocument(members, after, cbs, NO_METADATA);
    assert Tokens(Obj(members)) == [Delim('{')] + inner;
    DocumentOf(inner, cbs);
    MembersOfDocument(members, [Delim('}')], cbs, NO_METADATA);
  }

  lemma ProcessDocument(members: Members, rest: Stream, cbs: Callbacks)
    ensures var r := DocumentReport(Tokens(Obj(members)) + rest, cbs);
      && r.meta == MetadataOf(Take(members, FirstUnreadable(members, cbs)), NO_METADATA)
      && if Readable(members, cbs)
         then r == Report(ExpectedCalls(members, cbs), MetadataOf(members, NO_METADATA), None)
              && ByKey(r.calls, members, cbs)
         else r.error.Some?
  {
    CallsByKey(members, cbs);
    var inner := MemberTokens(members) + ([Delim('}')] + rest);
    assert Tokens(Obj(members)) + rest == [Delim('{')] + inner;
    DocumentOf(inner, cbs);
    MembersOfDocument(members, [Delim('}')] + rest, cbs, NO_METADATA);
  }

  // ----- What is read is balanced

  /** A value that is read is passed over by skipping as well. */
  lemma {:induction false} ReadSkips(ts: Stream, depth: nat)
    requires depth > 0
    ensures ReadValue(ts).Ok? ==> Skip(ts, depth) == Skip(ReadValue(ts).value.1, depth)
    decreases |ts|, 0
  {
    if ts != [] {
      ItemsSkip(ts[1..], depth + 1);
      MembersSkip(ts[1..], depth + 1);
    }
  }

  lemma {:induction false} ItemsSkip(ts: Stream, depth: nat)
    requires depth > 0
    ensures ReadItems(ts).Ok? ==> Skip(ts, depth) == Skip(ReadItems(ts).value.1, depth - 1)
    decreases |ts|, 1
  {
    if ts != [] && ts[0] != Delim(']') && ReadValue(ts).Ok? {
      ReadSkips(ts, depth);
      ItemsSkip(ReadValue(ts).value.1, depth);
    }
  }

  lemma {:induction false} MembersSkip(ts: Stream, depth: nat)
    requires depth > 0
    ensures ReadMembers(ts).Ok? ==> Skip(ts, depth) == Skip(ReadMembers(ts).value.1, depth - 1)
    decreases |ts|, 1
  {
    if ts != [] && ts[0].Scalar? && ts[0].v.Str? && ReadValue(ts[1..]).Ok? {
      ReadSkips(ts[1..], depth);
      MembersSkip(ReadValue(ts[1..]).value.1, depth);
    }
  }

  lemma {:induction false} StreamedItemsSkip(ts: Stream, kind: Kind, cb: Callback)
    ensures var end := ItemsResult(ts, kind, cb).end; end.Ok? ==> Skip(ts, 1) == Ok(end.value)
    decreases |ts|
  {
    if ts != [] && More(ts) && ReadValue(ts).Ok? {
      ReadSkips(ts, 1);
      StreamedItemsSkip(ReadValue(ts).value.1, kind, cb);
    }
  }

  /** An array or object whose end cannot be reached by skipping is an error, whether decoded, streamed or skipped. */
  lemma UnclosedIsError(key: string, ts: Stream, cbs: Callbacks)
    requires ts != [] && ts[0] in {Delim('['), Delim('{')} && Skip(ts[1..], 1).Err?
    ensures MemberProgress(key, ts, cbs).end.Err?
  {
    ItemsSkip(ts[1..], 1);
    MembersSkip(ts[1..], 1);
    if KindOf(key).Some? && KindOf(key).value in cbs {
      StreamedItemsSkip(ts[1..], KindOf(key).value, cbs[KindOf(key).value]);
    }
  }

  /** Dropping callbacks from a reading that succeeds keeps it succeeding, with the same metadata, and drops
      just their calls. */
  lemma DroppingCallbacks(members: Members, rest: Stream, cbs: Callbacks, fewer: set<Kind>)
    requires DocumentReport(Tokens(Obj(members)) + rest, cbs).error.None?
    ensures var with, without := DocumentReport(Tokens(Obj(members)) + rest, cbs),
                                 DocumentReport(Tokens(Obj(members)) + rest, cbs - fewer);
      without.error.None? && without.meta == with.meta && without.calls == ExpectedCalls(members, cbs - fewer)
  {
    ProcessDocument(members, rest, cbs);
    ProcessDocument(members, rest, cbs - fewer);
    StaysReadable(members, cbs, fewer);
  }

  lemma {:induction false} StaysReadable(members: Members, cbs: Callbacks, fewer: set<Kind>)
    requires Readable(members, cbs)
    ensures Readable(members, cbs - fewer)
  {
    if members.Member? {
      StaysReadable(members.tail, cbs, fewer);
    }
  }

  /** Whether or not a reading succeeds, dropping callbacks lets it come at least as far, and the metadata is that of
      the members it came past. */
  lemma DroppingReadsFurther(members: Members, rest: Stream, cbs: Callbacks, fewer: set<Kind>)
    ensures FirstUnreadable(members, cbs) <= FirstUnreadable(members, cbs - fewer)
    ensures DocumentReport(Tokens(Obj(members)) + rest, cbs - fewer).meta
         == MetadataOf(Take(members, FirstUnreadable(members, cbs - fewer)), NO_METADATA)
  {
    ProcessDocument(members, rest, cbs - fewer);
    ComesFurther(members, cbs, fewer);
  }

  lemma {:induction false} ComesFurther(members: Members, cbs: Callbacks, fewer: set<Kind>)
    ensures FirstUnreadable(members, cbs) <= FirstUnreadable(members, cbs - fewer)
  {
    if members.Member? {
      ComesFurther(members.tail, cbs, fewer);
    }
  }
}
