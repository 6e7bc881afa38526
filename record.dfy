/** The JSON record redisSaveData builds for one aircraft: the members it may write, in the order
    it writes them, the text they form, and the writer that appends that text through the bounded
    cursor. */
module Record {
  import opened Strings
  import opened HexFormat
  import opened Cursor
  import opened Enums
  import opened Aircraft
  import opened JsonEscape
  import opened FlagLists
  import opened NavModeLists

  /** The member names of the record, in the order the record may write them. */
  datatype Key =
    | HexKey | TypeKey | FlightKey | AltBaroKey | AltGeomKey | GsKey | IasKey | TasKey | MachKey
    | TrackKey | TrackRateKey | RollKey | MagHeadingKey | TrueHeadingKey | BaroRateKey | GeomRateKey
    | SquawkKey | EmergencyKey | CategoryKey | NavQnhKey | NavAltitudeMcpKey | NavAltitudeFmsKey
    | NavHeadingKey | NavModesKey | LatKey | LonKey | NicKey | RcKey | SeenPosKey | VersionKey
    | NicBaroKey | NacPKey | NacVKey | SilKey | SilTypeKey | GvaKey | SdaKey | AlertKey | SpiKey
    | MlatKey | TisbKey | MessagesKey | SeenKey | RssiKey

  /** The JSON name of each member. */
  function KeyName(k: Key): string
  {
    match k
    case HexKey => "hex"
    case TypeKey => "type"
    case FlightKey => "flight"
    case AltBaroKey => "alt_baro"
    case AltGeomKey => "alt_geom"
    case GsKey => "gs"
    case IasKey => "ias"
    case TasKey => "tas"
    case MachKey => "mach"
    case TrackKey => "track"
    case TrackRateKey => "track_rate"
    case RollKey => "roll"
    case MagHeadingKey => "mag_heading"
    case TrueHeadingKey => "true_heading"
    case BaroRateKey => "baro_rate"
    case GeomRateKey => "geom_rate"
    case SquawkKey => "squawk"
    case EmergencyKey => "emergency"
    case CategoryKey => "category"
    case NavQnhKey => "nav_qnh"
    case NavAltitudeMcpKey => "nav_altitude_mcp"
    case NavAltitudeFmsKey => "nav_altitude_fms"
    case NavHeadingKey => "nav_heading"
    case NavModesKey => "nav_modes"
    case LatKey => "lat"
    case LonKey => "lon"
    case NicKey => "nic"
    case RcKey => "rc"
    case SeenPosKey => "seen_pos"
    case VersionKey => "version"
    case NicBaroKey => "nic_baro"
    case NacPKey => "nac_p"
    case NacVKey => "nac_v"
    case SilKey => "sil"
    case SilTypeKey => "sil_type"
    case GvaKey => "gva"
    case SdaKey => "sda"
    case AlertKey => "alert"
    case SpiKey => "spi"
    case MlatKey => "mlat"
    case TisbKey => "tisb"
    case MessagesKey => "messages"
    case SeenKey => "seen"
    case RssiKey => "rssi"
  }

  /** One member of the JSON object, `"key":value`, with the value already in JSON form. */
  datatype Member = Member(key: Key, value: string)

  /** A member the writer appends, as `,"key":value`, only when `present` holds. */
  datatype Entry = Entry(present: bool, member: Member)

  function Render(m: Member): string
  {
    "\"" + KeyName(m.key) + "\":" + m.value
  }

  /** `,"key":`, what every member append of the record starts with. */
  function Opening(key: string): string
  {
    ",\"" + key + "\":"
  }

  /** What one conditional append of the record writes. */
  function Show(e: Entry): string
  {
    if e.present then "," + Render(e.member) else ""
  }

  /** What a run of conditional appends writes. */
  function Flat(es: seq<Entry>): string
  {
    if es == [] then "" else Flat(es[..|es| - 1]) + Show(es[|es| - 1])
  }

  /** The members a run of conditional appends writes, in order. */
  function Present(es: seq<Entry>): seq<Member>
  {
    if es == [] then []
    else
      var e := es[|es| - 1];
      Present(es[..|es| - 1]) + (if e.present then [e.member] else [])
  }

  function RenderAll(ms: seq<Member>): (r: seq<string>)
    ensures |r| == |ms|
  {
    if ms == [] then [] else RenderAll(ms[..|ms| - 1]) + [Render(ms[|ms| - 1])]
  }

  /** A JSON string value whose text needs no escaping (or is already escaped). */
  function Str(s: string): string
  {
    Quoted(Quote, s)
  }

  /** A numeric member: written when the field is valid, its printf rendering as value. */
  function Numeric(a: Aircraft, f: Field, key: Key): Entry
  {
    Entry(Valid(a, f), Member(key, a.shown(f)))
  }

  /** `"hex":"%s%06x"`: "~" for a non-ICAO address, then the 24-bit address in lower case. */
  function HexMember(a: Aircraft): (r: Member)
    ensures r.key == HexKey
    ensures |r.value| == (if NonIcao(a) then 9 else 8)
    ensures r.value[0] == '"' && r.value[|r.value| - 1] == '"'
    ensures r.value[1] == '~' <==> NonIcao(a)
    ensures var d := r.value[|r.value| - 7..|r.value| - 1]; InCase(d, false) && ParseHex(d) == Address24(a)
  {
    assert Pow16(6) == NonIcaoBit;
    HexExactWidth(Address24(a), 6, false);
    ParseHexOfHex(Address24(a), 6, false);
    var h := Hex(Address24(a), 6, false);
    var v := Str((if NonIcao(a) then "~" else "") + h);
    assert v[|v| - 7..|v| - 1] == h;
    Member(HexKey, v)
  }

  function TypeEntry(a: Aircraft): Entry
  {
    Entry(a.addrType != AdsbIcao, Member(TypeKey, Str(AddrTypeToken(a.addrType))))
  }

  function FlightEntry(a: Aircraft): Entry
  {
    Entry(Valid(a, Callsign), Member(FlightKey, Str(JsonEscaped(a.callsign))))
  }

  /** The "ground" sentinel when the ground rule holds, otherwise the barometric altitude when it
      is valid and its reliability is at least 3. */
  function BaroEntry(a: Aircraft): (r: Entry)
    ensures r.member.key == AltBaroKey
    ensures OnGround(a) ==> r.present && r.member.value == "\"ground\""
    ensures !OnGround(a) ==> (r.present <==> Valid(a, AltitudeBaro) && a.altitudeBaroReliable >= 3)
  {
    if OnGround(a) then Entry(true, Member(AltBaroKey, Str("ground")))
    else Entry(Valid(a, AltitudeBaro) && a.altitudeBaroReliable >= 3, Member(AltBaroKey, a.shown(AltitudeBaro)))
  }

  /** The geometric altitude, only off the ground rule and when valid. */
  function GeomEntry(a: Aircraft): (r: Entry)
    ensures r.member.key == AltGeomKey
    ensures OnGround(a) ==> !r.present
    ensures !OnGround(a) ==> (r.present <==> Valid(a, AltitudeGeom))
  {
    Entry(!OnGround(a) && Valid(a, AltitudeGeom), Member(AltGeomKey, a.shown(AltitudeGeom)))
  }

  function NavModesEntry(a: Aircraft): Entry
  {
    Entry(Valid(a, NavModes), Member(NavModesKey, "[" + NavModesText(a.navModes, Quote, Comma) + "]"))
  }

  /** `,"key":` followed by append_flags for `source`: always written. */
  function SourcesEntry(a: Aircraft, key: Key, source: int): Entry
  {
    Entry(true, Member(key, FlagsText(a, source)))
  }

  /** The append of redisSaveData for key `k`: the member it writes for `a`, and whether it writes
      it. "hex" and the closing members are always written; the five position members share the
      one test of the position append. */
  function EntryFor(a: Aircraft, k: Key): (e: Entry)
    ensures e.member.key == k
  {
    match k
    case HexKey => Entry(true, HexMember(a))
    case TypeKey => TypeEntry(a)
    case FlightKey => FlightEntry(a)
    case AltBaroKey => BaroEntry(a)
    case AltGeomKey => GeomEntry(a)
    case GsKey => Numeric(a, Gs, GsKey)
    case IasKey => Numeric(a, Ias, IasKey)
    case TasKey => Numeric(a, Tas, TasKey)
    case MachKey => Numeric(a, Mach, MachKey)
    case TrackKey => Numeric(a, Track, TrackKey)
    case TrackRateKey => Numeric(a, TrackRate, TrackRateKey)
    case RollKey => Numeric(a, Roll, RollKey)
    case MagHeadingKey => Numeric(a, MagHeading, MagHeadingKey)
    case TrueHeadingKey => Numeric(a, TrueHeading, TrueHeadingKey)
    case BaroRateKey => Numeric(a, BaroRate, BaroRateKey)
    case GeomRateKey => Numeric(a, GeomRate, GeomRateKey)
    case SquawkKey => Entry(Valid(a, Squawk), Member(SquawkKey, Str(Hex(a.squawk, 4, false))))
    case EmergencyKey => Entry(Valid(a, EmergencyField), Member(EmergencyKey, Str(EmergencyToken(a.emergency))))
    case CategoryKey => Entry(a.category != 0, Member(CategoryKey, Str(Hex(a.category, 2, true))))
    case NavQnhKey => Numeric(a, NavQnh, NavQnhKey)
    case NavAltitudeMcpKey => Numeric(a, NavAltitudeMcp, NavAltitudeMcpKey)
    case NavAltitudeFmsKey => Numeric(a, NavAltitudeFms, NavAltitudeFmsKey)
    case NavHeadingKey => Numeric(a, NavHeading, NavHeadingKey)
    case NavModesKey => NavModesEntry(a)
    case LatKey => Entry(Valid(a, Position), Member(LatKey, a.position.lat))
    case LonKey => Entry(Valid(a, Position), Member(LonKey, a.position.lon))
    case NicKey => Entry(Valid(a, Position), Member(NicKey, a.position.nic))
    case RcKey => Entry(Valid(a, Position), Member(RcKey, a.position.rc))
    case SeenPosKey => Entry(Valid(a, Position), Member(SeenPosKey, a.position.seenPos))
    case VersionKey => Entry(a.adsbVersion >= 0, Member(VersionKey, a.versionText))
    case NicBaroKey => Numeric(a, NicBaro, NicBaroKey)
    case NacPKey => Numeric(a, NacP, NacPKey)
    case NacVKey => Numeric(a, NacV, NacVKey)
    case SilKey => Numeric(a, Sil, SilKey)
    case SilTypeKey => Entry(a.silType != SilInvalid, Member(SilTypeKey, Str(SilTypeToken(a.silType))))
    case GvaKey => Numeric(a, Gva, GvaKey)
    case SdaKey => Numeric(a, Sda, SdaKey)
    case AlertKey => Numeric(a, Alert, AlertKey)
    case SpiKey => Numeric(a, Spi, SpiKey)
    case MlatKey => SourcesEntry(a, MlatKey, SourceMlat)
    case TisbKey => SourcesEntry(a, TisbKey, SourceTisb)
    case MessagesKey => Entry(true, Member(MessagesKey, a.messagesText))
    case SeenKey => Entry(true, Member(SeenKey, a.seenText))
    case RssiKey => Entry(true, Member(RssiKey, a.rssiText))
  }

  /** The number of members a record can hold. */
  const KeyCount: nat := 44

  /** The place of each member in the record: "hex" first, then the appends in the order
      redisSaveData makes them. */
  function Rank(k: Key): nat
  {
    match k
    case HexKey => 0
    case TypeKey => 1
    case FlightKey => 2
    case AltBaroKey => 3
    case AltGeomKey => 4
    case GsKey => 5
    case IasKey => 6
    case TasKey => 7
    case MachKey => 8
    case TrackKey => 9
    case TrackRateKey => 10
    case RollKey => 11
    case MagHeadingKey => 12
    case TrueHeadingKey => 13
    case BaroRateKey => 14
    case GeomRateKey => 15
    case SquawkKey => 16
    case EmergencyKey => 17
    case CategoryKey => 18
    case NavQnhKey => 19
    case NavAltitudeMcpKey => 20
    case NavAltitudeFmsKey => 21
    case NavHeadingKey => 22
    case NavModesKey => 23
    case LatKey => 24
    case LonKey => 25
    case NicKey => 26
    case RcKey => 27
    case SeenPosKey => 28
    case VersionKey => 29
    case NicBaroKey => 30
    case NacPKey => 31
    case NacVKey => 32
    case SilKey => 33
    case SilTypeKey => 34
    case GvaKey => 35
    case SdaKey => 36
    case AlertKey => 37
    case SpiKey => 38
    case MlatKey => 39
    case TisbKey => 40
    case MessagesKey => 41
    case SeenKey => 42
    case RssiKey => 43
  }

  /** The member at place `n` of the record. */
  function KeyAt(n: nat): Key
    requires n < KeyCount
  {
    if n == 0 then HexKey
    else if n == 1 then TypeKey
    else if n == 2 then FlightKey
    else if n == 3 then AltBaroKey
    else if n == 4 then AltGeomKey
    else if n == 5 then GsKey
    else if n == 6 then IasKey
    else if n == 7 then TasKey
    else if n == 8 then MachKey
    else if n == 9 then TrackKey
    else if n == 10 then TrackRateKey
    else if n == 11 then RollKey
    else if n == 12 then MagHeadingKey
    else if n == 13 then TrueHeadingKey
    else if n == 14 then BaroRateKey
    else if n == 15 then GeomRateKey
    else if n == 16 then SquawkKey
    else if n == 17 then EmergencyKey
    else if n == 18 then CategoryKey
    else if n == 19 then NavQnhKey
    else if n == 20 then NavAltitudeMcpKey
    else if n == 21 then NavAltitudeFmsKey
    else if n == 22 then NavHeadingKey
    else if n == 23 then NavModesKey
    else if n == 24 then LatKey
    else if n == 25 then LonKey
    else if n == 26 then NicKey
    else if n == 27 then RcKey
    else if n == 28 then SeenPosKey
    else if n == 29 then VersionKey
    else if n == 30 then NicBaroKey
    else if n == 31 then NacPKey
    else if n == 32 then NacVKey
    else if n == 33 then SilKey
    else if n == 34 then SilTypeKey
    else if n == 35 then GvaKey
    else if n == 36 then SdaKey
    else if n == 37 then AlertKey
    else if n == 38 then SpiKey
    else if n == 39 then MlatKey
    else if n == 40 then TisbKey
    else if n == 41 then MessagesKey
    else if n == 42 then SeenKey
    else RssiKey
  }

  /** Every member after "hex", in the order redisSaveData appends them. */
  function KeyOrder(): seq<Key>
  {
    seq(KeyCount - 1, i requires 0 <= i < KeyCount - 1 => KeyAt(i + 1))
  }

  /** The members of the closing append. */
  const CounterKeys: seq<Key> := [MessagesKey, SeenKey, RssiKey]

  /** The appends after "hex" that redisSaveData makes one test at a time. */
  const BodyKeys: seq<Key> := KeyOrder()[..|KeyOrder()| - |CounterKeys|]

  /** Each member has one place in the record. */
  lemma RankPlaces(k: Key)
    ensures Rank(k) < KeyCount && KeyAt(Rank(k)) == k
  {
    match k
    case HexKey =>
    case TypeKey =>
    case FlightKey =>
    case AltBaroKey =>
    case AltGeomKey =>
    case GsKey =>
    case IasKey =>
    case TasKey =>
    case MachKey =>
    case TrackKey =>
    case TrackRateKey =>
    case RollKey =>
    case MagHeadingKey =>
    case TrueHeadingKey =>
    case BaroRateKey =>
    case GeomRateKey =>
    case SquawkKey =>
    case EmergencyKey =>
    case CategoryKey =>
    case NavQnhKey =>
    case NavAltitudeMcpKey =>
    case NavAltitudeFmsKey =>
    case NavHeadingKey =>
    case NavModesKey =>
    case LatKey =>
    case LonKey =>
    case NicKey =>
    case RcKey =>
    case SeenPosKey =>
    case VersionKey =>
    case NicBaroKey =>
    case NacPKey =>
    case NacVKey =>
    case SilKey =>
    case SilTypeKey =>
    case GvaKey =>
    case SdaKey =>
    case AlertKey =>
    case SpiKey =>
    case MlatKey =>
    case TisbKey =>
    case MessagesKey =>
    case SeenKey =>
    case RssiKey =>
  }

  /** Each place holds one member. */
  lemma PlaceRanks(n: nat)
    requires n < KeyCount
    ensures Rank(KeyAt(n)) == n
  {
  }

  /** The run after "hex" lists every member except "hex". */
  lemma Listed(k: Key)
    ensures k in KeyOrder() <==> k != HexKey
  {
    RankPlaces(k);
    if k != HexKey {
      assert KeyOrder()[Rank(k) - 1] == k;
    }
    forall i | 0 <= i < |KeyOrder()|
      ensures KeyOrder()[i] != HexKey
    {
      PlaceRanks(i + 1);
    }
  }

  /** The run after "hex" is the conditional appends followed by the closing append. */
  lemma KeyOrderSplit()
    ensures KeyOrder() == BodyKeys + CounterKeys
  {
    assert KeyOrder()[|BodyKeys|..] == CounterKeys;
  }

  /** The members of the one position append. */
  const PositionKeys: seq<Key> := [LatKey, LonKey, NicKey, RcKey, SeenPosKey]

  /** The appends for `keys`, in order. */
  function Appends(a: Aircraft, keys: seq<Key>): (r: seq<Entry>)
    ensures |r| == |keys|
  {
    if keys == [] then [] else Appends(a, keys[..|keys| - 1]) + [EntryFor(a, keys[|keys| - 1])]
  }

  /** Every conditional append after "hex", in the order the record writes them. */
  function Entries(a: Aircraft): seq<Entry>
  {
    Appends(a, KeyOrder())
  }

  /** The record text for aircraft `a` as the appends produce it, before any clamping to the
      buffer. */
  function RecordText(a: Aircraft): (r: string)
    ensures |r| >= 2 && r[0] == '{' && r[|r| - 1] == '}'
  {
    "{" + Render(HexMember(a)) + Flat(Entries(a)) + "}"
  }

  /** The members of the record, "hex" first. */
  function Members(a: Aircraft): seq<Member>
  {
    [HexMember(a)] + Present(Entries(a))
  }

  /** The record-building part of redisSaveData for one aircraft: `{"hex":...`, the tests of
      BodyKeys in order, then the closing append of the counters and "}". The escaper's scratch
      buffer is distinct from the record buffer. */
  method WriteRecord(buf: array<char>, end: nat, a: Aircraft, escaper: JsonEscaper) returns (q: nat)
    requires end <= buf.Length && escaper.buf != buf && escaper.buf.Length == ScratchSize
    modifies buf, escaper.buf
    ensures buf[end..] == old(buf[end..])
    ensures Holds(buf[..], RecordText(a), end) && Terminated(buf[..], RecordText(a), end)
    ensures q == |RecordText(a)|
  {
    q := PutHead(buf, end, a);
    ghost var head := "{" + Render(HexMember(a));
    q := PutKeys(buf, q, end, a, BodyKeys, escaper, head);
    ghost var body := head + Flat(Appends(a, BodyKeys));
    q := Emit(buf, q, end, ClosingText(a), body);
    Closing(a);
  }

  /** `{"hex":"%s%06x"` at the start of an empty buffer. */
  method PutHead(buf: array<char>, end: nat, a: Aircraft) returns (q: nat)
    requires end <= buf.Length
    modifies buf
    ensures buf[end..] == old(buf[end..])
    ensures Holds(buf[..], "{" + Render(HexMember(a)), end)
    ensures q == |"{" + Render(HexMember(a))|
  {
    ghost var empty: string := [];
    q := Emit(buf, 0, end, "{" + Render(HexMember(a)), empty);
    assert empty + ("{" + Render(HexMember(a))) == "{" + Render(HexMember(a));
  }

  /** The tests of `keys`, one after the other. */
  method PutKeys(buf: array<char>, p: nat, end: nat, a: Aircraft, keys: seq<Key>, escaper: JsonEscaper,
                 ghost text: string) returns (q: nat)
    requires Holds(buf[..], text, end) && p == |text|
    requires escaper.buf != buf && escaper.buf.Length == ScratchSize
    modifies buf, escaper.buf
    ensures buf[end..] == old(buf[end..])
    ensures Holds(buf[..], text + Flat(Appends(a, keys)), end)
    ensures q == |text + Flat(Appends(a, keys))|
  {
    q := p;
    assert Appends(a, keys)[..0] == [];
    for i := 0 to |keys|
      invariant Holds(buf[..], Put(a, keys, i, text), end) && q == |Put(a, keys, i, text)|
      invariant buf[end..] == old(buf[end..])
    {
      q := PutNext(buf, q, end, a, keys, i, escaper, text);
    }
    assert Appends(a, keys)[..|keys|] == Appends(a, keys);
  }

  /** What the first `i` tests of `keys` have appended to `text`. */
  ghost function Put(a: Aircraft, keys: seq<Key>, i: nat, text: string): string
    requires i <= |keys|
  {
    text + Flat(Appends(a, keys)[..i])
  }

  /** One pass of PutKeys' loop: the test of `keys[i]`. */
  method PutNext(buf: array<char>, p: nat, end: nat, a: Aircraft, keys: seq<Key>, i: nat, escaper: JsonEscaper,
                 ghost text: string) returns (q: nat)
    requires i < |keys|
    requires Holds(buf[..], Put(a, keys, i, text), end) && p == |Put(a, keys, i, text)|
    requires escaper.buf != buf && escaper.buf.Length == ScratchSize
    modifies buf, escaper.buf
    ensures buf[end..] == old(buf[end..])
    ensures Holds(buf[..], Put(a, keys, i + 1, text), end) && q == |Put(a, keys, i + 1, text)|
  {
    FlatStep(Appends(a, keys), i, text);
    AppendsIndex(a, keys, i);
    q := PutKey(buf, p, end, a, keys[i], escaper, Put(a, keys, i, text));
  }

  /** One test of redisSaveData: the flight goes through the escaper, nav_modes through
      append_nav_modes, mlat and tisb through append_flags, and every other member is one
      conditional safe_snprintf. */
  method PutKey(buf: array<char>, p: nat, end: nat, a: Aircraft, k: Key, escaper: JsonEscaper,
                ghost text: string) returns (q: nat)
    requires Holds(buf[..], text, end) && p == |text|
    requires escaper.buf != buf && escaper.buf.Length == ScratchSize
    modifies buf, escaper.buf
    ensures buf[end..] == old(buf[end..])
    ensures Holds(buf[..], text + Show(EntryFor(a, k)), end)
    ensures q == |text + Show(EntryFor(a, k))|
  {
    if k == FlightKey {
      q := WriteFlight(buf, p, end, a, escaper, text);
    } else if k == NavModesKey {
      q := WriteNavModes(buf, p, end, a, text);
    } else if k == MlatKey || k == TisbKey {
      q := WriteFlags(buf, p, end, a, k, text);
    } else {
      q := PutEntry(buf, p, end, EntryFor(a, k), text);
    }
  }

  /** One `if (cond) p = safe_snprintf(p, end, ",\"key\":...", ...)`. */
  method PutEntry(buf: array<char>, p: nat, end: nat, e: Entry, ghost text: string) returns (q: nat)
    requires Holds(buf[..], text, end) && p == |text|
    modifies buf
    ensures buf[end..] == old(buf[end..])
    ensures Holds(buf[..], text + Show(e), end)
    ensures q == |text + Show(e)|
  {
    q := p;
    if e.present {
      q := Emit(buf, q, end, Opening(KeyName(e.member.key)) + e.member.value, text);
      ShowPresent(e.member.key, e.member.value);
    } else {
      assert text + Show(e) == text;
    }
  }

  /** `,"flight":"%s"` with the escaped callsign, when the callsign is valid: the callsign is
      escaped only then. */
  method WriteFlight(buf: array<char>, p: nat, end: nat, a: Aircraft, escaper: JsonEscaper,
                     ghost text: string) returns (q: nat)
    requires Holds(buf[..], text, end) && p == |text|
    requires escaper.buf != buf && escaper.buf.Length == ScratchSize
    modifies buf, escaper.buf
    ensures buf[end..] == old(buf[end..])
    ensures Holds(buf[..], text + Show(EntryFor(a, FlightKey)), end)
    ensures q == |text + Show(EntryFor(a, FlightKey))|
  {
    assert EntryFor(a, FlightKey) == FlightEntry(a);
    q := p;
    if Valid(a, Callsign) {
      var flight := escaper.Escape(a.callsign);
      q := PutEntry(buf, q, end, Entry(true, Member(FlightKey, Str(flight))), text);
    } else {
      assert text + Show(FlightEntry(a)) == text;
    }
  }

  /** `,"nav_modes":[`, append_nav_modes with `"` quotes and `,` separators, then `]`, when the
      modes are valid. */
  method WriteNavModes(buf: array<char>, p: nat, end: nat, a: Aircraft, ghost text: string) returns (q: nat)
    requires Holds(buf[..], text, end) && p == |text|
    modifies buf
    ensures buf[end..] == old(buf[end..])
    ensures Holds(buf[..], text + Show(EntryFor(a, NavModesKey)), end)
    ensures q == |text + Show(EntryFor(a, NavModesKey))|
  {
    assert EntryFor(a, NavModesKey) == NavModesEntry(a);
    q := p;
    if Valid(a, NavModes) {
      var names := NavModesText(a.navModes, Quote, Comma);
      q := Emit(buf, q, end, Opening(KeyName(NavModesKey)) + "[", text);
      ghost var started := text + (Opening(KeyName(NavModesKey)) + "[");
      q := AppendNavModes(buf, q, end, a.navModes, "\"", ",", started);
      ghost var listed := started + names;
      q := Emit(buf, q, end, "]", listed);
      NavModesMember(text, names);
    } else {
      assert text + Show(NavModesEntry(a)) == text;
    }
  }

  /** `,"mlat":` followed by append_flags for SOURCE_MLAT, or `,"tisb":` followed by append_flags
      for SOURCE_TISB. */
  method WriteFlags(buf: array<char>, p: nat, end: nat, a: Aircraft, key: Key, ghost text: string)
    returns (q: nat)
    requires key == MlatKey || key == TisbKey
    requires Holds(buf[..], text, end) && p == |text|
    modifies buf
    ensures buf[end..] == old(buf[end..])
    ensures Holds(buf[..], text + Show(EntryFor(a, key)), end)
    ensures q == |text + Show(EntryFor(a, key))|
  {
    var source := if key == MlatKey then SourceMlat else SourceTisb;
    assert EntryFor(a, key) == SourcesEntry(a, key, source);
    q := Emit(buf, p, end, Opening(KeyName(key)), text);
    ghost var started := text + Opening(KeyName(key));
    q := AppendFlags(buf, q, end, a, source, started);
    KeyedMember(text, key, FlagsText(a, source));
  }

  /** The format of the closing append: the message count, the seconds since last seen, the
      RSSI, and "}". */
  function ClosingText(a: Aircraft): (r: string)
    ensures |r| > 0 && r[0] == ',' && r[|r| - 1] == '}'
  {
    Opening(KeyName(MessagesKey)) + a.messagesText + Opening(KeyName(SeenKey)) + a.seenText
      + Opening(KeyName(RssiKey)) + a.rssiText + "}"
  }

  /** `,"key":` followed by the value writes the member `"key":value`. */
  lemma KeyedMember(text: string, key: Key, value: string)
    ensures (text + Opening(KeyName(key))) + value == text + Show(Entry(true, Member(key, value)))
  {
    ShowPresent(key, value);
  }

  /** `,"nav_modes":[`, the names, then `]` write the member `"nav_modes":[names]`. */
  lemma NavModesMember(text: string, names: string)
    ensures (text + (Opening(KeyName(NavModesKey)) + "[")) + names + "]" == text + Show(Entry(true, Member(NavModesKey, "[" + names + "]")))
  {
    ShowPresent(NavModesKey, "[" + names + "]");
  }

  /** The closing append completes the record text. */
  lemma Closing(a: Aircraft)
    ensures "{" + Render(HexMember(a)) + Flat(Appends(a, BodyKeys)) + ClosingText(a) == RecordText(a)
  {
    var head, body, counters := "{" + Render(HexMember(a)), Appends(a, BodyKeys), Appends(a, CounterKeys);
    KeyOrderSplit();
    AppendsConcat(a, BodyKeys, CounterKeys);
    FlatAppend(body, counters);
    CountersText(a);
    Associate(head, Flat(body), Flat(counters) + "}");
    Associate(head + Flat(body), Flat(counters), "}");
    Associate(head, Flat(body), Flat(counters));
  }

  /** The closing append writes the three counters and the closing brace. */
  lemma CountersText(a: Aircraft)
    ensures ClosingText(a) == Flat(Appends(a, CounterKeys)) + "}"
  {
    var e1, e2, e3 := EntryFor(a, MessagesKey), EntryFor(a, SeenKey), EntryFor(a, RssiKey);
    AppendsThree(a, MessagesKey, SeenKey, RssiKey);
    FlatThree(e1, e2, e3);
    ShowPresent(MessagesKey, a.messagesText);
    ShowPresent(SeenKey, a.seenText);
    ShowPresent(RssiKey, a.rssiText);
    var x := Show(e1);
    Associate(x, Opening(KeyName(SeenKey)), a.seenText);
    Associate(x + Opening(KeyName(SeenKey)) + a.seenText, Opening(KeyName(RssiKey)), a.rssiText);
  }

  lemma AppendsThree(a: Aircraft, k: Key, l: Key, m: Key)
    ensures Appends(a, [k, l, m]) == [EntryFor(a, k), EntryFor(a, l), EntryFor(a, m)]
  {
    assert [k, l, m][..2] == [k, l];
    assert [k, l][..1] == [k];
    assert [k][..0] == [];
    assert Appends(a, [k]) == [EntryFor(a, k)];
    assert Appends(a, [k, l]) == [EntryFor(a, k), EntryFor(a, l)];
  }

  lemma FlatThree(x: Entry, y: Entry, z: Entry)
    ensures Flat([x, y, z]) == Show(x) + Show(y) + Show(z)
  {
    assert [x, y, z][..2] == [x, y];
    assert [x, y][..1] == [x];
    assert [x][..0] == [];
    assert Flat([x]) == Show(x);
    assert Flat([x, y]) == Show(x) + Show(y);
  }

  /** A present member is written as `,"key":` followed by its value. */
  lemma ShowPresent(key: Key, value: string)
    ensures Show(Entry(true, Member(key, value))) == Opening(KeyName(key)) + value
  {
  }

  /** One more conditional append extends the text by what that append writes. */
  lemma FlatStep(es: seq<Entry>, i: nat, text: string)
    requires i < |es|
    ensures text + Flat(es[..i + 1]) == (text + Flat(es[..i])) + Show(es[i])
  {
    assert es[..i + 1][..i] == es[..i];
  }

  lemma {:induction false} FlatAppend(xs: seq<Entry>, ys: seq<Entry>)
    ensures Flat(xs + ys) == Flat(xs) + Flat(ys)
    decreases |ys|
  {
    if ys != [] {
      var init := ys[..|ys| - 1];
      assert (xs + ys)[..|xs + ys| - 1] == xs + init;
      FlatAppend(xs, init);
      Associate(Flat(xs), Flat(init), Show(ys[|ys| - 1]));
    } else {
      assert xs + ys == xs;
    }
  }

  /** The appends of two key lists in a row are those of each. */
  lemma {:induction false} AppendsConcat(a: Aircraft, xs: seq<Key>, ys: seq<Key>)
    ensures Appends(a, xs + ys) == Appends(a, xs) + Appends(a, ys)
    decreases |ys|
  {
    if ys == [] {
      assert xs + ys == xs;
    } else {
      var init := ys[..|ys| - 1];
      assert (xs + ys)[..|xs + ys| - 1] == xs + init;
      AppendsConcat(a, xs, init);
    }
  }

  /** The i-th append of a key list is the append of its i-th key. */
  lemma {:induction false} AppendsIndex(a: Aircraft, keys: seq<Key>, i: nat)
    requires i < |keys|
    ensures Appends(a, keys)[i] == EntryFor(a, keys[i])
    decreases |keys|
  {
    if i < |keys| - 1 {
      AppendsIndex(a, keys[..|keys| - 1], i);
    }
  }

  // ---------------------------------------------------------------------------------------------
  // The record as a JSON object

  /** The record is a JSON object: its members, "hex" first, rendered and separated by commas
      between braces, with no comma before the first member or after the last. */
  lemma RecordIsObject(a: Aircraft)
    ensures RecordText(a) == "{" + Join(RenderAll(Members(a)), ",") + "}"
  {
    var h := [HexMember(a)];
    assert RenderAll(h) == [Render(HexMember(a))] by {
      assert h[..0] == [];
    }
    FlatJoin(h, Entries(a));
    Associate("{", Render(HexMember(a)), Flat(Entries(a)));
  }

  /** Appending a run of conditional members to a non-empty member list joins the members it
      writes. */
  lemma {:induction false} FlatJoin(ms: seq<Member>, es: seq<Entry>)
    requires ms != []
    ensures Join(RenderAll(ms), ",") + Flat(es) == Join(RenderAll(ms + Present(es)), ",")
    decreases |es|
  {
    if es == [] {
      assert ms + Present(es) == ms;
    } else {
      FlatJoin(ms, es[..|es| - 1]);
      FlatJoinStep(ms, es);
    }
  }

  /** The last append of a run keeps the written text equal to the joined members. */
  lemma FlatJoinStep(ms: seq<Member>, es: seq<Entry>)
    requires ms != [] && es != []
    requires Join(RenderAll(ms), ",") + Flat(es[..|es| - 1]) == Join(RenderAll(ms + Present(es[..|es| - 1])), ",")
    ensures Join(RenderAll(ms), ",") + Flat(es) == Join(RenderAll(ms + Present(es)), ",")
  {
    var init, e := es[..|es| - 1], es[|es| - 1];
    var head, before := Join(RenderAll(ms), ","), ms + Present(init);
    assert Flat(es) == Flat(init) + Show(e);
    Associate(head, Flat(init), Show(e));
    if e.present {
      assert Present(es) == Present(init) + [e.member];
      Associate(ms, Present(init), [e.member]);
      JoinMore(before, e.member);
    } else {
      PresentSkips(es);
    }
  }

  /** An absent last append adds no member. */
  lemma PresentSkips(es: seq<Entry>)
    requires es != [] && !es[|es| - 1].present
    ensures Present(es) == Present(es[..|es| - 1])
  {
    var p := Present(es[..|es| - 1]);
    assert p + [] == p;
  }

  /** One more member adds a comma and its rendering to the joined list. */
  lemma JoinMore(ms: seq<Member>, m: Member)
    requires ms != []
    ensures Join(RenderAll(ms), ",") + ("," + Render(m)) == Join(RenderAll(ms + [m]), ",")
  {
    assert RenderAll(ms + [m]) == RenderAll(ms) + [Render(m)] by {
      assert (ms + [m])[..|ms|] == ms;
    }
    JoinSnoc(RenderAll(ms), Render(m), ",");
    Associate(Join(RenderAll(ms), ","), ",", Render(m));
  }

  /** A member is written by a run of appends exactly when an append for it is present. */
  lemma {:induction false} PresentMember(es: seq<Entry>, m: Member)
    ensures m in Present(es) <==> Entry(true, m) in es
  {
    if es != [] {
      var init, e := es[..|es| - 1], es[|es| - 1];
      PresentMember(init, m);
      assert es == init + [e];
    }
  }

  /** `r` opens with `{"hex":"`, then "~" exactly when `nonIcao`, then six lower-case hex digits
      that read back as `address`, then the closing quote. */
  predicate HexHead(r: string, nonIcao: bool, address: nat)
  {
    var d := if nonIcao then 1 else 0;
    && |r| > 14 + d
    && r[..8] == "{\"hex\":\""
    && (nonIcao <==> r[8] == '~')
    && |r[8 + d..14 + d]| == 6
    && InCase(r[8 + d..14 + d], false)
    && ParseHex(r[8 + d..14 + d]) == address
    && r[14 + d] == '"'
  }

  /** `r` opens with the "hex" member of `address` and ends, after it, with "}". */
  predicate OpensWithHex(r: string, nonIcao: bool, address: nat)
  {
    HexHead(r, nonIcao, address) && |r| > 15 + (if nonIcao then 1 else 0) && r[|r| - 1] == '}'
  }

  /** The head is NUL-free. */
  lemma HexHeadNulFree(r: string, nonIcao: bool, address: nat)
    requires HexHead(r, nonIcao, address)
    ensures NUL !in r[..15 + (if nonIcao then 1 else 0)]
  {
    var d := if nonIcao then 1 else 0;
    forall i | 0 <= i < 15 + d
      ensures r[i] != NUL
    {
      if i < 8 {
        assert r[i] == r[..8][i];
      } else if 8 + d <= i < 14 + d {
        assert r[i] == r[8 + d..14 + d][i - 8 - d];
      }
    }
  }

  /** A text that agrees with a head on its first characters has that head too. */
  lemma HexHeadKept(r: string, s: string, nonIcao: bool, address: nat)
    requires HexHead(r, nonIcao, address)
    requires |s| >= 15 + (if nonIcao then 1 else 0)
    requires s[..15 + (if nonIcao then 1 else 0)] == r[..15 + (if nonIcao then 1 else 0)]
    ensures HexHead(s, nonIcao, address)
  {
    var d := if nonIcao then 1 else 0;
    assert forall i | 0 <= i < 15 + d :: s[i] == s[..15 + d][i] == r[..15 + d][i] == r[i];
    assert s[..8] == r[..8];
    assert s[8 + d..14 + d] == r[8 + d..14 + d];
  }

  /** Every record starts with the "hex" member of its address and ends with "}". */
  lemma RecordShape(a: Aircraft)
    ensures OpensWithHex(RecordText(a), NonIcao(a), Address24(a))
  {
    var tilde := if NonIcao(a) then "~" else "";
    var digits := Hex(Address24(a), 6, false);
    assert Pow16(6) == NonIcaoBit;
    HexExactWidth(Address24(a), 6, false);
    ParseHexOfHex(Address24(a), 6, false);
    HexLead(a, tilde, digits, Flat(Entries(a)));
    var rest := Flat(Entries(a)) + "}";
    LeadShape(tilde, digits, rest);
    Opens("{\"hex\":\"" + tilde + digits + "\"" + rest, NonIcao(a), tilde, digits, rest);
  }

  lemma Opens(r: string, nonIcao: bool, tilde: string, digits: string, rest: string)
    requires tilde == (if nonIcao then "~" else "") && |digits| == 6 && InCase(digits, false)
    requires |rest| >= 1 && rest[|rest| - 1] == '}'
    requires r == "{\"hex\":\"" + tilde + digits + "\"" + rest
    ensures OpensWithHex(r, nonIcao, ParseHex(digits))
  {
    LeadShape(tilde, digits, rest);
  }

  /** Where the parts of `{"hex":"<tilde><digits>"<rest>` lie. */
  lemma LeadShape(tilde: string, digits: string, rest: string)
    requires |tilde| <= 1 && |digits| == 6 && |rest| >= 1
    ensures var d := |tilde|;
      var r := "{\"hex\":\"" + tilde + digits + "\"" + rest;
      && |r| > 15 + d
      && r[..8] == "{\"hex\":\""
      && r[8..8 + d] == tilde
      && (d == 0 ==> r[8] == digits[0])
      && r[8 + d..14 + d] == digits
      && r[14 + d] == '"'
      && r[|r| - 1] == rest[|rest| - 1]
  {
    var r := "{\"hex\":\"" + tilde + digits + "\"" + rest;
    var d := |tilde|;
    assert r == "{\"hex\":\"" + (tilde + digits + "\"" + rest);
    assert r[8..] == tilde + digits + "\"" + rest;
  }

  /** The "hex" member with its opening brace, written out. */
  lemma HexLead(a: Aircraft, tilde: string, digits: string, body: string)
    requires tilde == (if NonIcao(a) then "~" else "") && digits == Hex(Address24(a), 6, false)
    ensures "{" + Render(HexMember(a)) + body + "}" == "{\"hex\":\"" + tilde + digits + "\"" + (body + "}")
  {
    assert HexMember(a) == Member(HexKey, Quoted(Quote, tilde + digits));
    HexRendered(tilde, digits);
    Associate("{" + Render(HexMember(a)), body, "}");
  }

  /** The opening of the record around the "hex" value `tilde + digits`. */
  lemma HexRendered(tilde: string, digits: string)
    ensures "{" + Render(Member(HexKey, Quoted(Quote, tilde + digits))) == "{\"hex\":\"" + tilde + digits + "\""
  {
    Associate("{\"hex\":\"", tilde, digits);
  }

  // ---------------------------------------------------------------------------------------------
  // Which members a record holds

  /** A run of appends holds a present append for `m` exactly when `m`'s key is in the run and
      that key's append is present with `m`. */
  lemma {:induction false} AppendsHold(a: Aircraft, keys: seq<Key>, m: Member)
    ensures Entry(true, m) in Appends(a, keys) <==> m.key in keys && EntryFor(a, m.key) == Entry(true, m)
    decreases |keys|
  {
    if keys != [] {
      var init, k := keys[..|keys| - 1], keys[|keys| - 1];
      AppendsHold(a, init, m);
      assert keys == init + [k];
    }
  }

  /** What the record holds: "hex", and any member whose key has an append in the record's run
      that is present and writes that member. */
  lemma MemberOf(a: Aircraft, m: Member)
    ensures m in Members(a) <==> m == HexMember(a) || (m.key != HexKey && EntryFor(a, m.key) == Entry(true, m))
  {
    Listed(m.key);
    PresentMember(Entries(a), m);
    AppendsHold(a, KeyOrder(), m);
  }

  /** A present append writes its member. */
  lemma Written(a: Aircraft, m: Member)
    requires m.key != HexKey && EntryFor(a, m.key) == Entry(true, m)
    ensures m in Members(a)
  {
    MemberOf(a, m);
  }

  /** A member whose key is in the run is written exactly when its append is present. */
  lemma ListedEntry(a: Aircraft, e: Entry)
    requires e.member.key != HexKey && EntryFor(a, e.member.key) == e
    ensures e.member in Members(a) <==> e.present
  {
    MemberOf(a, e.member);
  }

  /** A written member other than "hex" comes from the present append of its key. */
  lemma WrittenBy(a: Aircraft, m: Member)
    requires m in Members(a) && m.key != HexKey
    ensures EntryFor(a, m.key) == Entry(true, m)
  {
    MemberOf(a, m);
  }

  /** A key is written exactly when it is "hex" or its append is in the run and present. */
  lemma KeyWritten(a: Aircraft, k: Key)
    ensures k in KeysOf(Members(a)) <==> k == HexKey || EntryFor(a, k).present
  {
    Listed(k);
    MembersInOrder(a);
    WrittenKeysHold(a, KeyOrder(), k);
  }

  lemma {:induction false} WrittenKeysHold(a: Aircraft, keys: seq<Key>, k: Key)
    ensures k in WrittenKeys(a, keys) <==> k in keys && EntryFor(a, k).present
    decreases |keys|
  {
    if keys != [] {
      var init := keys[..|keys| - 1];
      WrittenKeysHold(a, init, k);
      assert keys == init + [keys[|keys| - 1]];
    }
  }

  /** The keys of a list of members, in order. */
  function KeysOf(ms: seq<Member>): (r: seq<Key>)
    ensures |r| == |ms|
  {
    if ms == [] then [] else KeysOf(ms[..|ms| - 1]) + [ms[|ms| - 1].key]
  }

  /** The keys of `keys` whose appends are present for `a`, in order. */
  function WrittenKeys(a: Aircraft, keys: seq<Key>): (r: seq<Key>)
    ensures |r| <= |keys|
  {
    if keys == [] then []
    else
      var k := keys[|keys| - 1];
      WrittenKeys(a, keys[..|keys| - 1]) + (if EntryFor(a, k).present then [k] else [])
  }

  /** The record writes "hex", then the keys of the present appends, in the order redisSaveData
      tests them. */
  lemma MembersInOrder(a: Aircraft)
    ensures KeysOf(Members(a)) == [HexKey] + WrittenKeys(a, KeyOrder())
  {
    HeadKeys(a, HexMember(a), KeyOrder());
  }

  /** No member name occurs twice in a record: the JSON object has distinct keys. */
  lemma KeysDistinct(a: Aircraft)
    ensures forall i, j :: 0 <= i < j < |KeysOf(Members(a))| ==> KeysOf(Members(a))[i] != KeysOf(Members(a))[j]
  {
    MembersInOrder(a);
    WrittenRanksIncrease(a);
  }

  /** Keys whose places in the record strictly increase. */
  predicate RankIncreasing(ks: seq<Key>)
  {
    forall i, j :: 0 <= i < j < |ks| ==> Rank(ks[i]) < Rank(ks[j])
  }

  /** "hex", then the written keys, have strictly increasing places, so no key repeats. */
  lemma WrittenRanksIncrease(a: Aircraft)
    ensures RankIncreasing([HexKey] + WrittenKeys(a, KeyOrder()))
    ensures forall i, j :: 0 <= i < j < |[HexKey] + WrittenKeys(a, KeyOrder())| ==>
      ([HexKey] + WrittenKeys(a, KeyOrder()))[i] != ([HexKey] + WrittenKeys(a, KeyOrder()))[j]
  {
    KeyOrderIncreasing();
    WrittenIncreasing(a, KeyOrder());
    var ws := WrittenKeys(a, KeyOrder());
    forall k | k in ws
      ensures Rank(k) > 0
    {
      WrittenKeysHold(a, KeyOrder(), k);
      Listed(k);
      RankPlaces(k);
    }
    HeadIncreasing(ws);
  }

  lemma HeadIncreasing(ws: seq<Key>)
    requires RankIncreasing(ws)
    requires forall k | k in ws :: Rank(k) > 0
    ensures RankIncreasing([HexKey] + ws)
  {
    var ks := [HexKey] + ws;
    forall i, j | 0 <= i < j < |ks|
      ensures Rank(ks[i]) < Rank(ks[j])
    {
      assert ks[j] == ws[j - 1];
      if i > 0 {
        assert ks[i] == ws[i - 1];
      }
    }
  }

  /** The record order itself has strictly increasing places. */
  lemma KeyOrderIncreasing()
    ensures RankIncreasing(KeyOrder())
  {
    forall i, j | 0 <= i < j < |KeyOrder()|
      ensures Rank(KeyOrder()[i]) < Rank(KeyOrder()[j])
    {
      PlaceRanks(i + 1);
      PlaceRanks(j + 1);
    }
  }

  /** Keeping only the written keys keeps the places increasing. */
  lemma {:induction false} WrittenIncreasing(a: Aircraft, keys: seq<Key>)
    requires RankIncreasing(keys)
    ensures RankIncreasing(WrittenKeys(a, keys))
    decreases |keys|
  {
    if keys != [] {
      var init, k := keys[..|keys| - 1], keys[|keys| - 1];
      assert RankIncreasing(init) by {
        forall i, j | 0 <= i < j < |init|
          ensures Rank(init[i]) < Rank(init[j])
        {
          assert init[i] == keys[i] && init[j] == keys[j];
        }
      }
      WrittenIncreasing(a, init);
      var before := WrittenKeys(a, init);
      if EntryFor(a, k).present {
        forall x | x in before
          ensures Rank(x) < Rank(k)
        {
          WrittenKeysHold(a, init, x);
          var m :| 0 <= m < |init| && init[m] == x;
          assert keys[m] == x;
        }
        var ws := before + [k];
        forall i, j | 0 <= i < j < |ws|
          ensures Rank(ws[i]) < Rank(ws[j])
        {
          assert ws[i] == before[i];
          if j < |before| {
            assert ws[j] == before[j];
          } else {
            assert before[i] in before;
          }
        }
      } else {
        assert WrittenKeys(a, keys) == before + [];
        assert before + [] == before;
      }
    }
  }

  lemma HeadKeys(a: Aircraft, h: Member, keys: seq<Key>)
    ensures KeysOf([h] + Present(Appends(a, keys))) == [h.key] + WrittenKeys(a, keys)
  {
    PresentKeys(a, keys);
    KeysOfAppend([h], Present(Appends(a, keys)));
    assert KeysOf([h]) == [h.key] by {
      assert [h][..0] == [];
    }
  }

  lemma {:induction false} PresentKeys(a: Aircraft, keys: seq<Key>)
    ensures KeysOf(Present(Appends(a, keys))) == WrittenKeys(a, keys)
    decreases |keys|
  {
    if keys != [] {
      var init, k := keys[..|keys| - 1], keys[|keys| - 1];
      PresentKeys(a, init);
      var before := Present(Appends(a, init));
      if EntryFor(a, k).present {
        KeysOfAppend(before, [EntryFor(a, k).member]);
      } else {
        assert Present(Appends(a, keys)) == before + [];
        assert before + [] == before;
      }
    }
  }

  lemma {:induction false} KeysOfAppend(xs: seq<Member>, ys: seq<Member>)
    ensures KeysOf(xs + ys) == KeysOf(xs) + KeysOf(ys)
    decreases |ys|
  {
    if ys == [] {
      assert xs + ys == xs;
    } else {
      var init := ys[..|ys| - 1];
      assert (xs + ys)[..|xs + ys| - 1] == xs + init;
      KeysOfAppend(xs, init);
    }
  }

  /** The ground rule: an aircraft reported on the ground by a checked Mode S source or better
      gets `"alt_baro":"ground"`, no other barometric altitude, and no geometric altitude. */
  lemma GroundRule(a: Aircraft)
    requires OnGround(a)
    ensures Member(AltBaroKey, Str("ground")) in Members(a)
    ensures forall m | m in Members(a) :: m.key != AltGeomKey && (m.key == AltBaroKey ==> m.value == Str("ground"))
  {
    GroundWritten(a);
    forall m | m in Members(a)
      ensures m.key != AltGeomKey && (m.key == AltBaroKey ==> m.value == Str("ground"))
    {
      GroundMember(a, m);
    }
  }

  lemma GroundWritten(a: Aircraft)
    requires OnGround(a)
    ensures Member(AltBaroKey, Str("ground")) in Members(a)
  {
    AltitudesListed(a);
    Written(a, Member(AltBaroKey, Str("ground")));
  }

  lemma GroundMember(a: Aircraft, m: Member)
    requires OnGround(a) && m in Members(a)
    ensures m.key != AltGeomKey && (m.key == AltBaroKey ==> m.value == Str("ground"))
  {
    if m.key == AltGeomKey || m.key == AltBaroKey {
      AltitudesListed(a);
      WrittenBy(a, m);
    }
  }

  lemma AltitudesListed(a: Aircraft)
    ensures EntryFor(a, AltBaroKey) == BaroEntry(a)
    ensures EntryFor(a, AltGeomKey) == GeomEntry(a)
  {
  }

  /** Off the ground, the barometric altitude is written exactly when it is valid and its
      reliability is at least 3, and no other barometric altitude is written. */
  lemma BaroRule(a: Aircraft)
    requires !OnGround(a)
    ensures Member(AltBaroKey, a.shown(AltitudeBaro)) in Members(a) <==>
      Valid(a, AltitudeBaro) && a.altitudeBaroReliable >= 3
    ensures forall m | m in Members(a) && m.key == AltBaroKey ::
      m.value == a.shown(AltitudeBaro) && Valid(a, AltitudeBaro) && a.altitudeBaroReliable >= 3
  {
    AltitudesListed(a);
    ListedEntry(a, BaroEntry(a));
    forall m | m in Members(a) && m.key == AltBaroKey
      ensures m.value == a.shown(AltitudeBaro) && Valid(a, AltitudeBaro) && a.altitudeBaroReliable >= 3
    {
      WrittenBy(a, m);
    }
  }

  /** Off the ground, the geometric altitude is written exactly when it is valid, and no other
      geometric altitude is written. */
  lemma GeomRule(a: Aircraft)
    requires !OnGround(a)
    ensures Member(AltGeomKey, a.shown(AltitudeGeom)) in Members(a) <==> Valid(a, AltitudeGeom)
    ensures forall m | m in Members(a) && m.key == AltGeomKey :: m.value == a.shown(AltitudeGeom)
  {
    AltitudesListed(a);
    ListedEntry(a, GeomEntry(a));
    forall m | m in Members(a) && m.key == AltGeomKey
      ensures m.value == a.shown(AltitudeGeom)
    {
      WrittenBy(a, m);
    }
  }

  /** "type" is written exactly when the address type is not adsb_icao. */
  lemma TypeRule(a: Aircraft)
    ensures Member(TypeKey, Str(AddrTypeToken(a.addrType))) in Members(a) <==> a.addrType != AdsbIcao
  {
    assert EntryFor(a, TypeKey) == TypeEntry(a);
    ListedEntry(a, TypeEntry(a));
  }

  /** "category" is written, as two upper-case hex digits, exactly when the category is not 0. */
  lemma CategoryRule(a: Aircraft)
    ensures Member(CategoryKey, Str(Hex(a.category, 2, true))) in Members(a) <==> a.category != 0
  {
    var e := Entry(a.category != 0, Member(CategoryKey, Str(Hex(a.category, 2, true))));
    assert EntryFor(a, CategoryKey) == e;
    ListedEntry(a, e);
  }

  /** "version" is written exactly when the ADS-B version is not negative. */
  lemma VersionRule(a: Aircraft)
    ensures Member(VersionKey, a.versionText) in Members(a) <==> a.adsbVersion >= 0
  {
    var e := Entry(a.adsbVersion >= 0, Member(VersionKey, a.versionText));
    assert EntryFor(a, VersionKey) == e;
    ListedEntry(a, e);
  }

  /** "sil_type" is written exactly when the SIL type is not SIL_INVALID. */
  lemma SilTypeRule(a: Aircraft)
    ensures Member(SilTypeKey, Str(SilTypeToken(a.silType))) in Members(a) <==> a.silType != SilInvalid
  {
    var e := Entry(a.silType != SilInvalid, Member(SilTypeKey, Str(SilTypeToken(a.silType))));
    assert EntryFor(a, SilTypeKey) == e;
    ListedEntry(a, e);
  }

  /** The five position members come from one append: each is written exactly when the position
      is valid. */
  lemma PositionRule(a: Aircraft)
    ensures forall k | k in PositionKeys :: k in KeysOf(Members(a)) <==> Valid(a, Position)
  {
    forall k | k in PositionKeys
      ensures k in KeysOf(Members(a)) <==> Valid(a, Position)
    {
      KeyWritten(a, k);
      PositionTest(a, k);
    }
  }

  lemma PositionTest(a: Aircraft, k: Key)
    requires k in PositionKeys
    ensures k != HexKey && EntryFor(a, k).present == Valid(a, Position)
  {
  }

  /** A numeric member (speeds, track, headings, rates, autopilot settings, integrity figures) is
      written, with its rendering, exactly when its field is valid. */
  lemma NumericRule(a: Aircraft, k: Key, f: Field)
    requires k != HexKey && EntryFor(a, k) == Numeric(a, f, k)
    ensures Member(k, a.shown(f)) in Members(a) <==> Valid(a, f)
    ensures forall m | m in Members(a) && m.key == k :: m.value == a.shown(f)
  {
    ListedEntry(a, Numeric(a, f, k));
    forall m | m in Members(a) && m.key == k
      ensures m.value == a.shown(f)
    {
      WrittenBy(a, m);
    }
  }

  /** Every record carries the mlat and tisb lists and the counters, and ends with the RSSI. */
  lemma AlwaysPresent(a: Aircraft)
    ensures Member(MlatKey, FlagsText(a, SourceMlat)) in Members(a)
    ensures Member(TisbKey, FlagsText(a, SourceTisb)) in Members(a)
    ensures Member(MessagesKey, a.messagesText) in Members(a)
    ensures Member(SeenKey, a.seenText) in Members(a)
    ensures Members(a)[|Members(a)| - 1] == Member(RssiKey, a.rssiText)
  {
    SourcesPresent(a);
    CountersPresent(a);
    LastIsRssi(a);
  }

  lemma SourcesPresent(a: Aircraft)
    ensures Member(MlatKey, FlagsText(a, SourceMlat)) in Members(a)
    ensures Member(TisbKey, FlagsText(a, SourceTisb)) in Members(a)
  {
    AlwaysWritten(a, SourcesEntry(a, MlatKey, SourceMlat));
    AlwaysWritten(a, SourcesEntry(a, TisbKey, SourceTisb));
  }

  lemma CountersPresent(a: Aircraft)
    ensures Member(MessagesKey, a.messagesText) in Members(a)
    ensures Member(SeenKey, a.seenText) in Members(a)
  {
    AlwaysWritten(a, Entry(true, Member(MessagesKey, a.messagesText)));
    AlwaysWritten(a, Entry(true, Member(SeenKey, a.seenText)));
  }

  /** The appends of mlat, tisb, the message count and the seconds since last seen have no
      test: each always writes its member. */
  lemma AlwaysWritten(a: Aircraft, e: Entry)
    requires e == SourcesEntry(a, MlatKey, SourceMlat) || e == SourcesEntry(a, TisbKey, SourceTisb) ||
             e == Entry(true, Member(MessagesKey, a.messagesText)) || e == Entry(true, Member(SeenKey, a.seenText))
    ensures e.member in Members(a)
  {
    Written(a, e.member);
  }

  lemma LastIsRssi(a: Aircraft)
    ensures Members(a)[|Members(a)| - 1] == Member(RssiKey, a.rssiText)
  {
    LastEntry(a);
    LastMember(HexMember(a), Entries(a));
  }

  /** The last append is the present rssi member. */
  lemma LastEntry(a: Aircraft)
    ensures Entries(a) != [] && Entries(a)[|Entries(a)| - 1] == EntryFor(a, RssiKey)
    ensures EntryFor(a, RssiKey) == Entry(true, Member(RssiKey, a.rssiText))
  {
    AppendsIndex(a, KeyOrder(), |KeyOrder()| - 1);
    assert KeyOrder()[|KeyOrder()| - 1] == RssiKey;
  }

  /** A present last append writes the last member. */
  lemma LastMember(h: Member, es: seq<Entry>)
    requires es != [] && es[|es| - 1].present
    ensures ([h] + Present(es))[|[h] + Present(es)| - 1] == es[|es| - 1].member
  {
  }

}
