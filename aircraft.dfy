/** The part of readsb's `struct aircraft` that the Redis serializer reads, as a snapshot value.
    Validity records, enum fields and integer fields keep their meaning; the printf renderings of
    floating-point and decimal values are carried as already-formatted text. */
module Aircraft {
  import opened Enums
  import JsonEscape

  /** Unsigned 64-bit and 32-bit values (uint64_t times, uint32_t addresses). */
  const TwoTo64: nat := 0x1_0000_0000_0000_0000
  type U64 = n: nat | n < TwoTo64
  type U32 = n: nat | n < 0x1_0000_0000

  /** datasource_t codes the serializer compares against (readsb.h, not part of this model). */
  const SourceMlat: int := 4
  const SourceModeSChecked: int := 7
  const SourceTisb: int := 8

  /** MODES_NON_ICAO_ADDRESS: bit 24 of the address marks an address that is not an ICAO one. */
  const NonIcaoBit: nat := 0x100_0000

  /** The fields that carry a `data_validity` record. */
  datatype Field =
    | Callsign | AltitudeBaro | AltitudeGeom | Gs | Ias | Tas | Mach | Track | TrackRate | Roll
    | MagHeading | TrueHeading | BaroRate | GeomRate | Squawk | EmergencyField | NavQnh
    | NavAltitudeMcp | NavAltitudeFms | NavHeading | NavModes | Position | NicBaro | NacP | NacV
    | Sil | Gva | Sda | AirgroundField | Alert | Spi

  /** A field's `data_validity`: the source that last set it, and whether `trackDataValid` holds
      for it now (the test itself lives outside redis.c). */
  datatype Validity = Validity(source: int, valid: bool)

  /** airground_t */
  datatype AirGround = AgInvalid | AgGround | AgAirborne | AgUncertain

  /** The printf renderings of the position member: `%f` lat and lon, `%u` nic and rc, and the
      `%.1f` seconds since the position was updated. */
  datatype PositionText = PositionText(lat: string, lon: string, nic: string, rc: string, seenPos: string)

  datatype Aircraft = Aircraft(
    addr: U32,
    addrType: AddrType,
    messages: int,
    seen: U64,
    callsign: seq<JsonEscape.Byte>,
    airground: AirGround,
    altitudeBaroReliable: int,
    squawk: nat,
    emergency: Emergency,
    category: nat,
    navModes: bv32,
    adsbVersion: int,
    silType: SilType,
    validity: Field -> Validity,
    /** printf rendering of each numeric field (`%d`, `%u`, `%.1f`, ... after unit conversion) */
    shown: Field -> string,
    position: PositionText,
    versionText: string,
    messagesText: string,
    seenText: string,
    rssiText: string)

  /** trackDataValid(&a->f_valid) */
  predicate Valid(a: Aircraft, f: Field)
  {
    a.validity(f).valid
  }

  /** The non-ICAO flag of the address. */
  predicate NonIcao(a: Aircraft)
  {
    (a.addr / NonIcaoBit) % 2 == 1
  }

  /** `addr & 0xFFFFFF`: the 24-bit address proper. */
  function Address24(a: Aircraft): (r: nat)
    ensures r < NonIcaoBit
  {
    a.addr % NonIcaoBit
  }

  /** The ground rule: a valid air/ground state from a checked Mode S source or better that says
      the aircraft is on the ground. */
  predicate OnGround(a: Aircraft)
  {
    Valid(a, AirgroundField) && a.validity(AirgroundField).source >= SourceModeSChecked &&
    a.airground == AgGround
  }

  /** Address and flag recombine to the low 25 bits of the address: the 24-bit address and the
      non-ICAO flag together identify `addr & 0x1FFFFFF`. */
  lemma AddressSplit(a: Aircraft)
    ensures a.addr % (2 * NonIcaoBit) == Address24(a) + (if NonIcao(a) then NonIcaoBit else 0)
  {
    var n := NonIcaoBit;
    assert a.addr == (a.addr / n) * n + a.addr % n;
    assert a.addr / n == 2 * ((a.addr / n) / 2) + (a.addr / n) % 2;
    assert a.addr == (2 * n) * ((a.addr / n) / 2) + ((a.addr / n) % 2) * n + a.addr % n;
  }
}
