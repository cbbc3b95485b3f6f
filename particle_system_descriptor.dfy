/**
  The particle system descriptor: the persistent settings of one particle system
  (visibility, lifetime, on-death event, life-scale parameter) and its lists of
  emitter, initializer, behavior, type and finalizer factories; its versioned
  binary serialisation; and the derivation of the default processors.

  A factory is modelled by its type name and an opaque payload (what the factory's
  own Save writes and its own Load reads back). A stream is a sequence of typed
  items; a read that finds no item of the expected kind makes `Load` fail.
*/
module ParticleSystemDescriptor {
  import opened Common

  /** The newest format version (Version_Current). */
  const VERSION_CURRENT: u8 := 7

  /** Type name of the point type factory that is added when a system has no type. */
  const POINT_TYPE_NAME: string := "ezParticleTypePointFactory"

  /** The items a descriptor writes to and reads from a stream. */
  datatype Item =
    | U8Item(byte: u8)
    | BoolItem(flag: bool)
    | U32Item(number: u32)
    | TimeItem(seconds: real)
    | FloatItem(float: real)
    | StringItem(text: string)
    | PayloadItem(data: seq<int>)

  /** A factory: the type it instantiates and the state its own Save writes. */
  datatype Factory = Factory(typeName: string, payload: seq<int>)

  /** The point type factory in its default state. */
  const POINT_TYPE: Factory := Factory(POINT_TYPE_NAME, [])

  /** Finalizers: Age carries the system's lifetime settings; Volume keeps the bounds;
      a dependency finalizer is one requested by another factory. */
  datatype Finalizer =
    | AgeFinalizer(lifeTime: real, lifeTimeVariance: real, onDeathEvent: string, lifeScaleParameter: string)
    | VolumeFinalizer
    | DependencyFinalizer(typeName: string)

  /** The scalar settings of a descriptor. */
  datatype Settings = Settings(
    visible: bool, lifeTime: real, lifeTimeVariance: real, onDeathEvent: string, lifeScaleParameter: string)

  /** What `Save` writes: the settings and the four serialised factory lists. */
  datatype Content = Content(
    settings: Settings,
    emitters: seq<Factory>, initializers: seq<Factory>, behaviors: seq<Factory>, types: seq<Factory>)

  /** Each list's count is written as an unsigned 32-bit number. */
  predicate CountsFit(c: Content) {
    |c.emitters| < U32_MODULUS && |c.initializers| < U32_MODULUS
    && |c.behaviors| < U32_MODULUS && |c.types| < U32_MODULUS
  }

  /** A value read from the front of a stream and the rest of the stream after it. */
  datatype Read<T> = Read(value: T, rest: seq<Item>)

  /** The four list counts of a header; a count the version does not write is 0. */
  datatype Counts = Counts(numEmitters: u32, numInitializers: u32, numBehaviors: u32, numTypes: u32)

  /** The header of a stream: its version, the settings after reading, the four counts. */
  datatype Header = Header(version: u8, settings: Settings, counts: Counts)

  /** The four factory lists of a stream. */
  datatype Lists = Lists(emitters: seq<Factory>, initializers: seq<Factory>, behaviors: seq<Factory>, types: seq<Factory>)

  /** A decoded stream: its version, its content and what follows it. */
  datatype Decoded = Decoded(version: u8, content: Content, rest: seq<Item>)

  // ---------------------------------------------------------------------------
  // Writing

  /** One factory: its type name, then its payload. */
  function EncodeFactories(fs: seq<Factory>): (r: seq<Item>)
    ensures |r| == 2 * |fs|
  {
    if fs == [] then []
    else [StringItem(fs[0].typeName), PayloadItem(fs[0].payload)] + EncodeFactories(fs[1..])
  }

  /** The settings as `Save` writes them: visible, the unused particle maximum 0, lifetime,
      variance, on-death event, life-scale parameter. */
  function EncodeSettings(st: Settings): seq<Item>
  {
    [ BoolItem(st.visible), U32Item(0), TimeItem(st.lifeTime), FloatItem(st.lifeTimeVariance),
      StringItem(st.onDeathEvent), StringItem(st.lifeScaleParameter) ]
  }

  /** The counts of the four serialised lists. */
  function CountsOf(c: Content): Counts
    requires CountsFit(c)
  {
    Counts(|c.emitters|, |c.initializers|, |c.behaviors|, |c.types|)
  }

  function EncodeCounts(n: Counts): seq<Item>
  {
    [U32Item(n.numEmitters), U32Item(n.numInitializers), U32Item(n.numBehaviors), U32Item(n.numTypes)]
  }

  /** The header `Save` writes: the current version, the settings, the counts. */
  function EncodeHeader(c: Content): seq<Item>
    requires CountsFit(c)
  {
    [U8Item(VERSION_CURRENT)] + EncodeSettings(c.settings) + EncodeCounts(CountsOf(c))
  }

  /** The four lists, one after the other. */
  function EncodeLists(c: Content): seq<Item>
  {
    EncodeFactories(c.emitters) + (EncodeFactories(c.initializers)
    + (EncodeFactories(c.behaviors) + EncodeFactories(c.types)))
  }

  /** The whole stream `Save` writes; finalizers are never written. */
  function Encode(c: Content): (r: seq<Item>)
    requires CountsFit(c)
    ensures |r| == 11 + 2 * (|c.emitters| + |c.initializers| + |c.behaviors| + |c.types|)
  {
    EncodeHeader(c) + EncodeLists(c)
  }

  lemma {:induction false} EncodeFactoriesAppend(a: seq<Factory>, b: seq<Factory>)
    ensures EncodeFactories(a + b) == EncodeFactories(a) + EncodeFactories(b)
    decreases |a|
  {
    if a == [] {
      assert a + b == b;
    } else {
      assert (a + b)[1..] == a[1..] + b;
      EncodeFactoriesAppend(a[1..], b);
    }
  }

  /** Appends the type name and payload of every factory of `fs` to `stream`. */
  method WriteFactories(stream: seq<Item>, fs: seq<Factory>) returns (out: seq<Item>)
    ensures out == stream + EncodeFactories(fs)
  {
    out := stream;
    var i := 0;
    while i < |fs|
      invariant 0 <= i <= |fs|
      invariant out == stream + EncodeFactories(fs[..i])
    {
      assert fs[..i + 1] == fs[..i] + [fs[i]];
      EncodeFactoriesAppend(fs[..i], [fs[i]]);
      out := out + [StringItem(fs[i].typeName), PayloadItem(fs[i].payload)];
      i := i + 1;
    }
    assert fs[..i] == fs;
  }

  /** The lists followed by a tail, regrouped to the right. */
  lemma RegroupLists(e: seq<Item>, i: seq<Item>, b: seq<Item>, t: seq<Item>, tail: seq<Item>)
    ensures (e + (i + (b + t))) + tail == e + (i + (b + (t + tail)))
  {
  }

  /** A stream written part by part, regrouped to the right. */
  lemma RegroupStream(h: seq<Item>, e: seq<Item>, i: seq<Item>, b: seq<Item>, t: seq<Item>)
    ensures h + e + i + b + t == h + (e + (i + (b + t)))
  {
  }

  // ---------------------------------------------------------------------------
  // Reading

  function ReadU8(s: seq<Item>): Option<Read<u8>>
  {
    if |s| > 0 && s[0].U8Item? then Some(Read(s[0].byte, s[1..])) else None
  }

  function ReadBool(s: seq<Item>): Option<Read<bool>>
  {
    if |s| > 0 && s[0].BoolItem? then Some(Read(s[0].flag, s[1..])) else None
  }

  function ReadU32(s: seq<Item>): Option<Read<u32>>
  {
    if |s| > 0 && s[0].U32Item? then Some(Read(s[0].number, s[1..])) else None
  }

  function ReadTime(s: seq<Item>): Option<Read<real>>
  {
    if |s| > 0 && s[0].TimeItem? then Some(Read(s[0].seconds, s[1..])) else None
  }

  function ReadFloat(s: seq<Item>): Option<Read<real>>
  {
    if |s| > 0 && s[0].FloatItem? then Some(Read(s[0].float, s[1..])) else None
  }

  function ReadString(s: seq<Item>): Option<Read<string>>
  {
    if |s| > 0 && s[0].StringItem? then Some(Read(s[0].text, s[1..])) else None
  }

  /** The settings part of the header as `Load` reads it for version `v`, each field only
      from the version that introduced it; settings not read keep their `prior` values.
      The particle maximum (from version 2) is read and dropped. */
  function DecodeSettings(s: seq<Item>, v: u8, prior: Settings): Option<Read<Settings>>
  {
    var visible :- if v >= 3 then ReadBool(s) else Some(Read(prior.visible, s));
    var maxParticles :- if v >= 2 then ReadU32(visible.rest) else Some(Read(0, visible.rest));
    var lifeTime :- if v >= 5 then ReadTime(maxParticles.rest) else Some(Read(prior.lifeTime, maxParticles.rest));
    var variance :- if v >= 5 then ReadFloat(lifeTime.rest) else Some(Read(prior.lifeTimeVariance, lifeTime.rest));
    var onDeath :- if v >= 5 then ReadString(variance.rest) else Some(Read(prior.onDeathEvent, variance.rest));
    var lifeScale :- if v >= 7 then ReadString(onDeath.rest) else Some(Read(prior.lifeScaleParameter, onDeath.rest));
    Some(Read(Settings(visible.value, lifeTime.value, variance.value, onDeath.value, lifeScale.value), lifeScale.rest))
  }

  /** The four counts of a version-`v` header: initializers from version 2, types from version 4. */
  function DecodeCounts(s: seq<Item>, v: u8): Option<Read<Counts>>
  {
    var numEmitters :- ReadU32(s);
    var numInitializers :- if v >= 2 then ReadU32(numEmitters.rest) else Some(Read(0, numEmitters.rest));
    var numBehaviors :- ReadU32(numInitializers.rest);
    var numTypes :- if v >= 4 then ReadU32(numBehaviors.rest) else Some(Read(0, numBehaviors.rest));
    Some(Read(Counts(numEmitters.value, numInitializers.value, numBehaviors.value, numTypes.value), numTypes.rest))
  }

  /** The header as `Load` reads it: the version, which must not be newer than the
      current one, then the settings and the counts. */
  function DecodeHeader(s: seq<Item>, prior: Settings): Option<Read<Header>>
  {
    var version :- ReadU8(s);
    if version.value > VERSION_CURRENT then None
    else
      var settings :- DecodeSettings(version.rest, version.value, prior);
      var counts :- DecodeCounts(settings.rest, version.value);
      Some(Read(Header(version.value, settings.value, counts.value), counts.rest))
  }

  /** `count` factories from the front of `s`, each a type name followed by its payload. */
  function DecodeFactories(s: seq<Item>, count: nat): Option<Read<seq<Factory>>>
    decreases count
  {
    if count == 0 then Some(Read([], s))
    else if |s| >= 2 && s[0].StringItem? && s[1].PayloadItem? then
      var more :- DecodeFactories(s[2..], count - 1);
      Some(Read([Factory(s[0].text, s[1].data)] + more.value, more.rest))
    else None
  }

  /** The lists as `Load` reads them after header `h`: emitters, initializers (from
      version 2), behaviors, types (from version 4); a list the version lacks is empty. */
  function DecodeLists(s: seq<Item>, h: Header): Option<Read<Lists>>
  {
    var emitters :- DecodeFactories(s, h.counts.numEmitters);
    var initializers :- if h.version >= 2 then DecodeFactories(emitters.rest, h.counts.numInitializers)
                        else Some(Read([], emitters.rest));
    var behaviors :- DecodeFactories(initializers.rest, h.counts.numBehaviors);
    var types :- if h.version >= 4 then DecodeFactories(behaviors.rest, h.counts.numTypes)
                 else Some(Read([], behaviors.rest));
    Some(Read(Lists(emitters.value, initializers.value, behaviors.value, types.value), types.rest))
  }

  /** The whole stream as `Load` reads it; `prior` are the settings before loading. */
  function Decode(s: seq<Item>, prior: Settings): Option<Decoded>
  {
    var header :- DecodeHeader(s, prior);
    var lists :- DecodeLists(header.rest, header.value);
    Some(Decoded(header.value.version,
                 Content(header.value.settings, lists.value.emitters, lists.value.initializers,
                         lists.value.behaviors, lists.value.types),
                 lists.rest))
  }

  /** `prefix` followed by the decoded factories, or the failure. */
  function Prepend(prefix: seq<Factory>, r: Option<Read<seq<Factory>>>): Option<Read<seq<Factory>>>
  {
    match r
    case None => None
    case Some(rd) => Some(Read(prefix + rd.value, rd.rest))
  }

  lemma PrependNothing(r: Option<Read<seq<Factory>>>)
    ensures Prepend([], r) == r
  {
    match r
    case None =>
    case Some(rd) => assert [] + rd.value == rd.value;
  }

  /** Reads `count` factories from the front of `s`, one at a time. */
  method ReadFactories(s: seq<Item>, count: u32) returns (fs: seq<Factory>, rest: seq<Item>, ok: bool)
    ensures ok <==> DecodeFactories(s, count).Some?
    ensures ok ==> DecodeFactories(s, count) == Some(Read(fs, rest))
  {
    fs := [];
    rest := s;
    var i: nat := 0;
    PrependNothing(DecodeFactories(s, count));
    while i < count
      invariant i <= count
      invariant DecodeFactories(s, count) == Prepend(fs, DecodeFactories(rest, count - i))
      decreases count - i
    {
      if !(|rest| >= 2 && rest[0].StringItem? && rest[1].PayloadItem?) {
        return fs, rest, false;
      }
      var f := Factory(rest[0].text, rest[1].data);
      match DecodeFactories(rest[2..], count - i - 1) {
        case None =>
        case Some(rd) => assert fs + ([f] + rd.value) == (fs + [f]) + rd.value;
      }
      fs := fs + [f];
      rest := rest[2..];
      i := i + 1;
    }
    assert fs + [] == fs;
    ok := true;
  }

  /** Reads the settings part of a version-`v` header, each field only from the version
      that introduced it; the others keep their values in `prior`. */
  method ReadSettings(s: seq<Item>, v: u8, prior: Settings) returns (settings: Option<Read<Settings>>)
    ensures settings == DecodeSettings(s, v, prior)
  {
    var rest := s;
    var st := prior;
    if v >= 3 {
      var r := ReadBool(rest);
      if r.None? { return None; }
      st, rest := st.(visible := r.value.value), r.value.rest;
    }
    if v >= 2 {
      var maxParticles := ReadU32(rest);
      if maxParticles.None? { return None; }
      rest := maxParticles.value.rest;
    }
    if v >= 5 {
      var t := ReadTime(rest);
      if t.None? { return None; }
      st, rest := st.(lifeTime := t.value.value), t.value.rest;
      var f := ReadFloat(rest);
      if f.None? { return None; }
      st, rest := st.(lifeTimeVariance := f.value.value), f.value.rest;
      var e := ReadString(rest);
      if e.None? { return None; }
      st, rest := st.(onDeathEvent := e.value.value), e.value.rest;
    }
    if v >= 7 {
      var l := ReadString(rest);
      if l.None? { return None; }
      st, rest := st.(lifeScaleParameter := l.value.value), l.value.rest;
    }
    settings := Some(Read(st, rest));
  }

  /** Reads the four counts of a version-`v` header. */
  method ReadCounts(s: seq<Item>, v: u8) returns (counts: Option<Read<Counts>>)
    ensures counts == DecodeCounts(s, v)
  {
    var numInitializers: u32, numTypes: u32 := 0, 0;
    var r := ReadU32(s);
    if r.None? { return None; }
    var numEmitters := r.value.value;
    var rest := r.value.rest;
    if v >= 2 {
      r := ReadU32(rest);
      if r.None? { return None; }
      numInitializers, rest := r.value.value, r.value.rest;
    }
    r := ReadU32(rest);
    if r.None? { return None; }
    var numBehaviors := r.value.value;
    rest := r.value.rest;
    if v >= 4 {
      r := ReadU32(rest);
      if r.None? { return None; }
      numTypes, rest := r.value.value, r.value.rest;
    }
    counts := Some(Read(Counts(numEmitters, numInitializers, numBehaviors, numTypes), rest));
  }

  /** Reads the lists after header `h`, factory by factory; the initializers only from
      version 2 and the types only from version 4. */
  method ReadLists(s: seq<Item>, h: Header) returns (lists: Option<Read<Lists>>)
    ensures lists == DecodeLists(s, h)
  {
    var es, ins, bs, ts: seq<Factory> := [], [], [], [];
    var rest := s;
    var read: bool;
    es, rest, read := ReadFactories(rest, h.counts.numEmitters);
    if !read { return None; }
    if h.version >= 2 {
      ins, rest, read := ReadFactories(rest, h.counts.numInitializers);
      if !read { return None; }
    }
    bs, rest, read := ReadFactories(rest, h.counts.numBehaviors);
    if !read { return None; }
    if h.version >= 4 {
      ts, rest, read := ReadFactories(rest, h.counts.numTypes);
      if !read { return None; }
    }
    lists := Some(Read(Lists(es, ins, bs, ts), rest));
  }

  // ---------------------------------------------------------------------------
  // Properties of the format

  /** Encoded factories read back as themselves, leaving what followed them. */
  lemma {:induction false} DecodeEncodedFactories(fs: seq<Factory>, tail: seq<Item>)
    ensures DecodeFactories(EncodeFactories(fs) + tail, |fs|) == Some(Read(fs, tail))
    decreases |fs|
  {
    if fs == [] {
      assert EncodeFactories(fs) + tail == tail;
    } else {
      var pair := [StringItem(fs[0].typeName), PayloadItem(fs[0].payload)];
      var more := EncodeFactories(fs[1..]) + tail;
      assert EncodeFactories(fs) + tail == pair + more;
      assert (pair + more)[2..] == more;
      DecodeEncodedFactories(fs[1..], tail);
      assert [fs[0]] + fs[1..] == fs;
    }
  }

  /** Settings written by `Save` read back as themselves under the current version. */
  lemma DecodeEncodedSettings(st: Settings, prior: Settings, tail: seq<Item>)
    ensures DecodeSettings(EncodeSettings(st) + tail, VERSION_CURRENT, prior) == Some(Read(st, tail))
  {
    var s := EncodeSettings(st) + tail;
    assert s[1..][1..][1..][1..][1..][1..] == tail;
  }

  /** Counts written by `Save` read back under any version that writes all four. */
  lemma DecodeEncodedCounts(n: Counts, v: u8, tail: seq<Item>)
    requires v >= 4
    ensures DecodeCounts(EncodeCounts(n) + tail, v) == Some(Read(n, tail))
  {
    var s := EncodeCounts(n) + tail;
    assert s[1..][1..][1..][1..] == tail;
  }

  /** The header `Save` writes reads back as the current version, the content's settings
      and its list counts. */
  lemma DecodeEncodedHeader(c: Content, prior: Settings, tail: seq<Item>)
    requires CountsFit(c)
    ensures DecodeHeader(EncodeHeader(c) + tail, prior)
      == Some(Read(Header(VERSION_CURRENT, c.settings, CountsOf(c)), tail))
  {
    var s := EncodeHeader(c) + tail;
    var counts := EncodeCounts(CountsOf(c)) + tail;
    assert s[1..] == EncodeSettings(c.settings) + counts;
    DecodeEncodedSettings(c.settings, prior, counts);
    DecodeEncodedCounts(CountsOf(c), VERSION_CURRENT, tail);
  }

  /** The lists `Save` writes read back as themselves under a header of version 4 or later
      carrying their counts. */
  lemma DecodeEncodedLists(c: Content, h: Header, tail: seq<Item>)
    requires CountsFit(c)
    requires h.version >= 4 && h.counts == CountsOf(c)
    ensures DecodeLists(EncodeLists(c) + tail, h)
      == Some(Read(Lists(c.emitters, c.initializers, c.behaviors, c.types), tail))
  {
    var e, i, b, t := EncodeFactories(c.emitters), EncodeFactories(c.initializers),
                      EncodeFactories(c.behaviors), EncodeFactories(c.types);
    RegroupLists(e, i, b, t, tail);
    DecodeEncodedFactories(c.emitters, i + (b + (t + tail)));
    DecodeEncodedFactories(c.initializers, b + (t + tail));
    DecodeEncodedFactories(c.behaviors, t + tail);
    DecodeEncodedFactories(c.types, tail);
  }

  /** Loading what `Save` wrote restores the content exactly and stops right after it,
      whatever follows in the stream and whatever the loading descriptor held before. */
  lemma SaveLoadRoundTrip(c: Content, prior: Settings, tail: seq<Item>)
    requires CountsFit(c)
    ensures Decode(Encode(c) + tail, prior) == Some(Decoded(VERSION_CURRENT, c, tail))
  {
    var h := Header(VERSION_CURRENT, c.settings, CountsOf(c));
    var lists := EncodeLists(c) + tail;
    assert Encode(c) + tail == EncodeHeader(c) + lists;
    DecodeEncodedHeader(c, prior, lists);
    DecodeEncodedLists(c, h, tail);
  }

  /** `Decode` is the header followed by the lists read after it. */
  lemma DecodeOfParts(s: seq<Item>, prior: Settings, header: Read<Header>, lists: Read<Lists>)
    returns (d: Decoded)
    requires DecodeHeader(s, prior) == Some(header)
    requires DecodeLists(header.rest, header.value) == Some(lists)
    ensures d.version == header.value.version && d.rest == lists.rest
    ensures d.content == Content(header.value.settings, lists.value.emitters, lists.value.initializers,
                                 lists.value.behaviors, lists.value.types)
    ensures Decode(s, prior) == Some(d)
  {
    d := Decode(s, prior).value;
  }

  /** A stream that loads has a known version; every setting introduced after that version
      keeps its prior value, and every list introduced after it is empty. */
  lemma VersionGating(s: seq<Item>, prior: Settings)
    requires Decode(s, prior).Some?
    ensures var d := Decode(s, prior).value;
      && d.version <= VERSION_CURRENT
      && (d.version < 3 ==> d.content.settings.visible == prior.visible)
      && (d.version < 5 ==>
            d.content.settings.lifeTime == prior.lifeTime
            && d.content.settings.lifeTimeVariance == prior.lifeTimeVariance
            && d.content.settings.onDeathEvent == prior.onDeathEvent)
      && (d.version < 7 ==> d.content.settings.lifeScaleParameter == prior.lifeScaleParameter)
      && (d.version < 2 ==> d.content.initializers == [])
      && (d.version < 4 ==> d.content.types == [])
  {
    var header := DecodeHeader(s, prior).value;
    var v := header.value.version;
    var version := ReadU8(s).value;
    SettingsVersionGating(version.rest, v, prior);
    ListsVersionGating(header.rest, header.value);
  }

  /** Settings a version does not write keep their prior values. */
  lemma SettingsVersionGating(s: seq<Item>, v: u8, prior: Settings)
    requires DecodeSettings(s, v, prior).Some?
    ensures var st := DecodeSettings(s, v, prior).value.value;
      && (v < 3 ==> st.visible == prior.visible)
      && (v < 5 ==> st.lifeTime == prior.lifeTime && st.lifeTimeVariance == prior.lifeTimeVariance
                    && st.onDeathEvent == prior.onDeathEvent)
      && (v < 7 ==> st.lifeScaleParameter == prior.lifeScaleParameter)
  {
  }

  /** Lists a version does not write are empty. */
  lemma ListsVersionGating(s: seq<Item>, h: Header)
    requires DecodeLists(s, h).Some?
    ensures var l := DecodeLists(s, h).value.value;
      && (h.version < 2 ==> l.initializers == [])
      && (h.version < 4 ==> l.types == [])
  {
  }

  /** A stream of a version newer than the current one is refused, as the development
      build's assertion on the version demands. */
  lemma NewerVersionRefused(s: seq<Item>, prior: Settings)
    requires |s| > 0 && s[0].U8Item? && s[0].byte > VERSION_CURRENT
    ensures Decode(s, prior).None?
  {
  }

  // ---------------------------------------------------------------------------
  // Default processors

  /** Finalizer types requested by the factories of `fs`, given each factory type's
      requested finalizer types. */
  function DependencySet(fs: seq<Factory>, deps: string -> set<string>): set<string>
  {
    if fs == [] then {} else deps(fs[0].typeName) + DependencySet(fs[1..], deps)
  }

  /** A finalizer type is requested exactly when some factory of `fs` requests it. */
  lemma {:induction false} DependencySetMembers(fs: seq<Factory>, deps: string -> set<string>, n: string)
    ensures n in DependencySet(fs, deps) <==> exists i :: 0 <= i < |fs| && n in deps(fs[i].typeName)
    decreases |fs|
  {
    if fs != [] {
      DependencySetMembers(fs[1..], deps, n);
      if n in DependencySet(fs[1..], deps) {
        var i :| 0 <= i < |fs[1..]| && n in deps(fs[1..][i].typeName);
        assert fs[i + 1] == fs[1..][i];
      }
      if exists i :: 0 <= i < |fs| && n in deps(fs[i].typeName) {
        var i :| 0 <= i < |fs| && n in deps(fs[i].typeName);
        if i > 0 {
          assert fs[1..][i - 1] == fs[i];
        }
      }
    }
  }

  /** Adds to `requested` the finalizer types each factory of `fs` requests, factory by factory. */
  method QueryDependencies(fs: seq<Factory>, deps: string -> set<string>, requested: set<string>)
    returns (r: set<string>)
    ensures r == requested + DependencySet(fs, deps)
  {
    r := requested;
    var i := 0;
    while i < |fs|
      invariant 0 <= i <= |fs|
      invariant requested + DependencySet(fs, deps) == r + DependencySet(fs[i..], deps)
    {
      assert fs[i..][1..] == fs[i + 1..];
      r := r + deps(fs[i].typeName);
      i := i + 1;
    }
    assert fs[i..] == [];
  }

  /** The types of the dependency finalizers of `fs`. */
  function FinalizerTypes(fs: seq<Finalizer>): set<string>
  {
    if fs == [] then {}
    else (if fs[0].DependencyFinalizer? then {fs[0].typeName} else {}) + FinalizerTypes(fs[1..])
  }

  lemma {:induction false} FinalizerTypesAppend(a: seq<Finalizer>, b: seq<Finalizer>)
    ensures FinalizerTypes(a + b) == FinalizerTypes(a) + FinalizerTypes(b)
    decreases |a|
  {
    if a == [] {
      assert a + b == b;
    } else {
      assert (a + b)[1..] == a[1..] + b;
      FinalizerTypesAppend(a[1..], b);
    }
  }

  /** A type is among the finalizer types exactly when its dependency finalizer is in `fs`. */
  lemma {:induction false} FinalizerTypesMembers(fs: seq<Finalizer>, n: string)
    ensures n in FinalizerTypes(fs) <==> DependencyFinalizer(n) in fs
    decreases |fs|
  {
    if fs != [] {
      FinalizerTypesMembers(fs[1..], n);
      assert fs == [fs[0]] + fs[1..];
    }
  }

  /** `extra` holds one dependency finalizer for each name of `names` and nothing else. */
  predicate OneFinalizerPerDependency(extra: seq<Finalizer>, names: set<string>) {
    && NoDuplicates(extra)
    && (forall j :: 0 <= j < |extra| ==> extra[j].DependencyFinalizer?)
    && FinalizerTypes(extra) == names
  }

  /** There are exactly as many such finalizers as names, and a name's finalizer is present
      exactly when the name is one of `names`. */
  lemma {:induction false} OneFinalizerPerDependencyExactly(extra: seq<Finalizer>, names: set<string>)
    requires OneFinalizerPerDependency(extra, names)
    ensures |extra| == |names|
    ensures forall n :: n in names <==> DependencyFinalizer(n) in extra
    decreases |extra|
  {
    forall n
      ensures n in names <==> DependencyFinalizer(n) in extra
    {
      FinalizerTypesMembers(extra, n);
    }
    if extra != [] {
      var rest := extra[1..];
      var first := extra[0].typeName;
      var restNames := FinalizerTypes(rest);
      assert OneFinalizerPerDependency(rest, restNames) by {
        forall i, j | 0 <= i < j < |rest|
          ensures rest[i] != rest[j]
        {
          assert rest[i] == extra[i + 1] && rest[j] == extra[j + 1];
        }
        forall j | 0 <= j < |rest|
          ensures rest[j].DependencyFinalizer?
        {
          assert rest[j] == extra[j + 1];
        }
      }
      OneFinalizerPerDependencyExactly(rest, restNames);
      FinalizerTypesMembers(rest, first);
      forall k | 0 <= k < |rest|
        ensures rest[k] != DependencyFinalizer(first)
      {
        assert rest[k] == extra[k + 1];
      }
      assert names == {first} + restNames;
    }
  }

  /** The type list after default processing: a point type when there was none. */
  function WithDefaultType(types: seq<Factory>): (r: seq<Factory>)
    ensures |r| >= 1
    ensures types != [] ==> r == types
    ensures types == [] ==> r == [POINT_TYPE]
  {
    if types == [] then [POINT_TYPE] else types
  }

  /** Default processing only adds: the types already there stay first and in order,
      every system ends up with a type, and a second pass adds nothing. */
  lemma DefaultTypeStable(types: seq<Factory>)
    ensures types <= WithDefaultType(types)
    ensures WithDefaultType(types) != []
    ensures WithDefaultType(WithDefaultType(types)) == WithDefaultType(types)
  {
  }

  /** The finalizers every system has, in front of the requested ones. */
  function DefaultFinalizers(settings: Settings): seq<Finalizer>
  {
    [AgeFinalizer(settings.lifeTime, settings.lifeTimeVariance, settings.onDeathEvent, settings.lifeScaleParameter),
     VolumeFinalizer]
  }

  /** The finalizers default processing appends: Age and Volume for `settings`, then one
      per finalizer type requested by the initializers `ins`, behaviors `bs` and types `ts`. */
  predicate DefaultProcessorsAppended(added: seq<Finalizer>, settings: Settings,
                                      ins: seq<Factory>, bs: seq<Factory>, ts: seq<Factory>,
                                      deps: string -> set<string>)
  {
    && |added| >= 2
    && added[..2] == DefaultFinalizers(settings)
    && OneFinalizerPerDependency(added[2..], DependencySet(ins, deps) + DependencySet(bs, deps) + DependencySet(ts, deps))
  }

  /** Appending the defaults, then the requested finalizers, appends what
      `DefaultProcessorsAppended` describes and keeps what was there. */
  lemma DefaultsAppended(before: seq<Finalizer>, settings: Settings, extra: seq<Finalizer>,
                         ins: seq<Factory>, bs: seq<Factory>, ts: seq<Factory>, deps: string -> set<string>)
    requires OneFinalizerPerDependency(extra, DependencySet(ins, deps) + DependencySet(bs, deps) + DependencySet(ts, deps))
    ensures var all := before + DefaultFinalizers(settings) + extra;
      && all[..|before|] == before
      && DefaultProcessorsAppended(all[|before|..], settings, ins, bs, ts, deps)
  {
    var all := before + DefaultFinalizers(settings) + extra;
    assert all[|before|..][..2] == DefaultFinalizers(settings);
    assert all[|before|..][2..] == extra;
  }

  /** Appending the finalizer of a new name keeps one finalizer per name. */
  lemma AddDependencyFinalizer(extra: seq<Finalizer>, names: set<string>, n: string)
    requires OneFinalizerPerDependency(extra, names)
    requires n !in names
    ensures OneFinalizerPerDependency(extra + [DependencyFinalizer(n)], names + {n})
  {
    FinalizerTypesMembers(extra, n);
    FinalizerTypesAppend(extra, [DependencyFinalizer(n)]);
    assert FinalizerTypes([DependencyFinalizer(n)]) == {n};
  }

  /** One finalizer per requested finalizer type, in the (unspecified) order of the set. */
  method DependencyFinalizers(requested: set<string>) returns (extra: seq<Finalizer>)
    ensures OneFinalizerPerDependency(extra, requested)
  {
    var remaining := requested;
    ghost var done := {};
    extra := [];
    while remaining != {}
      invariant done + remaining == requested && done !! remaining
      invariant OneFinalizerPerDependency(extra, done)
      decreases |remaining|
    {
      var n :| n in remaining;
      AddDependencyFinalizer(extra, done, n);
      extra := extra + [DependencyFinalizer(n)];
      done := done + {n};
      remaining := remaining - {n};
    }
    assert done == requested;
  }

  /** One particle system's descriptor. */
  class Descriptor {
    var visible: bool
    var lifeTime: real
    var lifeTimeVariance: real
    var onDeathEvent: string
    var lifeScaleParameter: string
    var emitters: seq<Factory>
    var initializers: seq<Factory>
    var behaviors: seq<Factory>
    var types: seq<Factory>
    var finalizers: seq<Finalizer>

    /** A new descriptor is visible and holds no factory. */
    constructor ()
      ensures visible
      ensures emitters == [] && initializers == [] && behaviors == [] && types == [] && finalizers == []
    {
      visible := true;
      lifeTime := 0.0;
      lifeTimeVariance := 0.0;
      onDeathEvent := "";
      lifeScaleParameter := "";
      emitters, initializers, behaviors, types, finalizers := [], [], [], [], [];
    }

    function CurrentSettings(): Settings
      reads this
    {
      Settings(visible, lifeTime, lifeTimeVariance, onDeathEvent, lifeScaleParameter)
    }

    function CurrentContent(): Content
      reads this
    {
      Content(CurrentSettings(), emitters, initializers, behaviors, types)
    }

    method ClearEmitters()
      modifies this
      ensures emitters == []
      ensures CurrentSettings() == old(CurrentSettings())
      ensures initializers == old(initializers) && behaviors == old(behaviors)
      ensures types == old(types) && finalizers == old(finalizers)
    {
      emitters := [];
    }

    method ClearInitializers()
      modifies this
      ensures initializers == []
      ensures CurrentSettings() == old(CurrentSettings())
      ensures emitters == old(emitters) && behaviors == old(behaviors)
      ensures types == old(types) && finalizers == old(finalizers)
    {
      initializers := [];
    }

    method ClearBehaviors()
      modifies this
      ensures behaviors == []
      ensures CurrentSettings() == old(CurrentSettings())
      ensures emitters == old(emitters) && initializers == old(initializers)
      ensures types == old(types) && finalizers == old(finalizers)
    {
      behaviors := [];
    }

    method ClearTypes()
      modifies this
      ensures types == []
      ensures CurrentSettings() == old(CurrentSettings())
      ensures emitters == old(emitters) && initializers == old(initializers)
      ensures behaviors == old(behaviors) && finalizers == old(finalizers)
    {
      types := [];
    }

    method ClearFinalizers()
      modifies this
      ensures finalizers == []
      ensures CurrentSettings() == old(CurrentSettings())
      ensures emitters == old(emitters) && initializers == old(initializers)
      ensures behaviors == old(behaviors) && types == old(types)
    {
      finalizers := [];
    }

    /** Appends Age and Volume, adds a point type when there is no type, then appends one
        finalizer per distinct finalizer type requested by an initializer, behavior or type
        (`deps` gives each factory type's requests; the order of these is unspecified). */
    method SetupDefaultProcessors(deps: string -> set<string>)
      modifies this
      ensures CurrentSettings() == old(CurrentSettings())
      ensures emitters == old(emitters) && initializers == old(initializers) && behaviors == old(behaviors)
      ensures types == WithDefaultType(old(types))
      ensures |finalizers| >= |old(finalizers)| && finalizers[..|old(finalizers)|] == old(finalizers)
      ensures DefaultProcessorsAppended(finalizers[|old(finalizers)|..], CurrentSettings(),
                                        initializers, behaviors, types, deps)
    {
      ghost var before := finalizers;
      var settings := CurrentSettings();
      finalizers := finalizers + DefaultFinalizers(settings);
      if types == [] {
        types := types + [POINT_TYPE];
      }
      var requested := QueryDependencies(initializers, deps, {});
      requested := QueryDependencies(behaviors, deps, requested);
      requested := QueryDependencies(types, deps, requested);
      assert requested == DependencySet(initializers, deps) + DependencySet(behaviors, deps) + DependencySet(types, deps);
      var extra := DependencyFinalizers(requested);
      finalizers := finalizers + extra;
      DefaultsAppended(before, settings, extra, initializers, behaviors, types, deps);
    }

    /** Writes the descriptor: `Encode` of its content. */
    method Save() returns (stream: seq<Item>)
      requires CountsFit(CurrentContent())
      ensures stream == Encode(CurrentContent())
    {
      stream := [U8Item(VERSION_CURRENT)];
      stream := stream + [BoolItem(visible), U32Item(0)];
      stream := stream + [TimeItem(lifeTime), FloatItem(lifeTimeVariance)];
      stream := stream + [StringItem(onDeathEvent), StringItem(lifeScaleParameter)];
      stream := stream + [U32Item(|emitters|), U32Item(|initializers|), U32Item(|behaviors|), U32Item(|types|)];
      ghost var h := stream;
      assert h == EncodeHeader(CurrentContent());
      stream := WriteFactories(stream, emitters);
      stream := WriteFactories(stream, initializers);
      stream := WriteFactories(stream, behaviors);
      stream := WriteFactories(stream, types);
      RegroupStream(h, EncodeFactories(emitters), EncodeFactories(initializers),
                    EncodeFactories(behaviors), EncodeFactories(types));
    }

    /** Reads the version, then the settings into the fields, then the counts. */
    method ReadHeader(stream: seq<Item>) returns (header: Option<Read<Header>>)
      modifies this
      ensures header == DecodeHeader(stream, old(CurrentSettings()))
      ensures header.Some? ==> CurrentSettings() == header.value.value.settings
      ensures emitters == old(emitters) && initializers == old(initializers) && behaviors == old(behaviors)
      ensures types == old(types) && finalizers == old(finalizers)
    {
      var version := ReadU8(stream);
      if version.None? || version.value.value > VERSION_CURRENT {
        return None;
      }
      var settings := ReadSettings(version.value.rest, version.value.value, CurrentSettings());
      if settings.None? {
        return None;
      }
      var st := settings.value.value;
      visible, lifeTime, lifeTimeVariance := st.visible, st.lifeTime, st.lifeTimeVariance;
      onDeathEvent, lifeScaleParameter := st.onDeathEvent, st.lifeScaleParameter;
      var counts := ReadCounts(settings.value.rest, version.value.value);
      if counts.None? {
        return None;
      }
      header := Some(Read(Header(version.value.value, st, counts.value.value), counts.value.rest));
    }

    /** The state `Load` leaves after reading `d`: its settings and lists, a point type
        when it had none, the two default finalizers and one per requested finalizer type. */
    predicate HoldsLoaded(d: Decoded, deps: string -> set<string>)
      reads this
    {
      && CurrentSettings() == d.content.settings
      && emitters == d.content.emitters
      && initializers == d.content.initializers
      && behaviors == d.content.behaviors
      && types == WithDefaultType(d.content.types)
      && DefaultProcessorsAppended(finalizers, d.content.settings, initializers, behaviors, types, deps)
    }

    /** Clears all five lists, reads the header field by field as the stream's version
        dictates, reads each list factory by factory, then sets up the default processors.
        Fails, with all lists empty, on a newer version or a malformed stream. */
    method Load(stream: seq<Item>, deps: string -> set<string>) returns (ok: bool)
      modifies this
      ensures ok <==> Decode(stream, old(CurrentSettings())).Some?
      ensures !ok ==> emitters == [] && initializers == [] && behaviors == [] && types == [] && finalizers == []
      ensures ok ==> HoldsLoaded(Decode(stream, old(CurrentSettings())).value, deps)
    {
      ghost var prior := CurrentSettings();
      ClearEmitters();
      ClearInitializers();
      ClearBehaviors();
      ClearFinalizers();
      ClearTypes();
      assert CurrentSettings() == prior;

      var header := ReadHeader(stream);
      if header.None? {
        assert Decode(stream, prior).None?;
        return false;
      }
      var lists := ReadLists(header.value.rest, header.value.value);
      if lists.None? {
        assert Decode(stream, prior).None?;
        return false;
      }
      var h, l := header.value.value, lists.value.value;
      ghost var d := DecodeOfParts(stream, prior, header.value, lists.value);
      assert CurrentSettings() == h.settings;
      emitters, initializers := l.emitters, l.initializers;
      behaviors, types := l.behaviors, l.types;
      assert CurrentSettings() == h.settings;
      ghost var before := finalizers;
      assert before == [];
      SetupDefaultProcessors(deps);
      assert finalizers[|before|..] == finalizers;
      assert CurrentSettings() == d.content.settings;
      assert DefaultProcessorsAppended(finalizers, d.content.settings, initializers, behaviors, types, deps);
      ok := true;
    }
  }

  /** Loading into one descriptor what another saved reproduces the other's settings and
      factory lists; only a missing type is replaced by the point type. */
  method CopyThroughStream(source: Descriptor, target: Descriptor, deps: string -> set<string>)
    returns (ok: bool)
    requires CountsFit(source.CurrentContent())
    modifies target
    ensures ok
    ensures target.CurrentSettings() == old(source.CurrentSettings())
    ensures target.emitters == old(source.emitters) && target.initializers == old(source.initializers)
    ensures target.behaviors == old(source.behaviors)
    ensures target.types == WithDefaultType(old(source.types))
  {
    var stream := source.Save();
    ghost var c := source.CurrentContent();
    SaveLoadRoundTrip(c, target.CurrentSettings(), []);
    assert stream + [] == stream;
    ok := target.Load(stream, deps);
  }
}
