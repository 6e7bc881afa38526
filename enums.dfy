/** The enum-to-token tables of redis.c: address type, emergency state and SIL type. Each table
    maps its named cases to fixed lower-case tokens and every other stored value to a fallback. */
module Enums {

  /** addrtype_t: the eight cases the switch names, and any other value the field may hold.
      `OtherAddrType(code)` stands for a stored value that is none of the eight named ones;
      `code` is never the value of a named case. */
  datatype AddrType =
    | AdsbIcao | AdsbIcaoNt | AdsrIcao | TisbIcao
    | AdsbOther | AdsrOther | TisbOther | TisbTrackfile
    | OtherAddrType(code: int)

  /** emergency_t: the seven named states, and any other (reserved) code. `code` in
      `OtherEmergency(code)` is never the value of a named state. */
  datatype Emergency =
    | EmergencyNone | General | Lifeguard | Minfuel | Nordo | Unlawful | Downed
    | OtherEmergency(code: int)

  /** sil_type_t: SIL_INVALID, the three named cases, and any other value. `code` in
      `OtherSilType(code)` is never the value of a named case. */
  datatype SilType = SilInvalid | SilUnknown | SilPerHour | SilPerSample | OtherSilType(code: int)

  /** A token that can stand between double quotes in the record without escaping. */
  predicate IsPlainToken(s: string)
  {
    |s| > 0 && forall i :: 0 <= i < |s| ==> 'a' <= s[i] <= 'z' || s[i] == '_'
  }

  /** addrtype_enum_string */
  function AddrTypeToken(t: AddrType): (r: string)
    ensures IsPlainToken(r)
    ensures t.OtherAddrType? ==> r == "unknown"
  {
    match t
    case AdsbIcao => "adsb_icao"
    case AdsbIcaoNt => "adsb_icao_nt"
    case AdsrIcao => "adsr_icao"
    case TisbIcao => "tisb_icao"
    case AdsbOther => "adsb_other"
    case AdsrOther => "adsr_other"
    case TisbOther => "tisb_other"
    case TisbTrackfile => "tisb_trackfile"
    case OtherAddrType(_) => "unknown"
  }

  /** emergency_enum_string */
  function EmergencyToken(e: Emergency): (r: string)
    ensures IsPlainToken(r)
    ensures e.OtherEmergency? ==> r == "reserved"
  {
    match e
    case EmergencyNone => "none"
    case General => "general"
    case Lifeguard => "lifeguard"
    case Minfuel => "minfuel"
    case Nordo => "nordo"
    case Unlawful => "unlawful"
    case Downed => "downed"
    case OtherEmergency(_) => "reserved"
  }

  /** sil_type_enum_string: SIL_INVALID and unnamed values both fall to "invalid". */
  function SilTypeToken(t: SilType): (r: string)
    ensures IsPlainToken(r)
    ensures (t.SilInvalid? || t.OtherSilType?) ==> r == "invalid"
  {
    match t
    case SilUnknown => "unknown"
    case SilPerHour => "perhour"
    case SilPerSample => "persample"
    case _ => "invalid"
  }

  /** Named address types get distinct tokens, none of them the fallback: a consumer can recover
      the address type from its token. */
  lemma AddrTypeTokenDistinct(s: AddrType, t: AddrType)
    requires !s.OtherAddrType? && !t.OtherAddrType?
    ensures AddrTypeToken(s) == AddrTypeToken(t) <==> s == t
    ensures AddrTypeToken(s) != "unknown"
  {
  }

  /** Named emergency states get distinct tokens, none of them "reserved". */
  lemma EmergencyTokenDistinct(s: Emergency, t: Emergency)
    requires !s.OtherEmergency? && !t.OtherEmergency?
    ensures EmergencyToken(s) == EmergencyToken(t) <==> s == t
    ensures EmergencyToken(s) != "reserved"
  {
  }

  /** The three named SIL types get distinct tokens, none of them "invalid". */
  lemma SilTypeTokenDistinct(s: SilType, t: SilType)
    requires (s.SilUnknown? || s.SilPerHour? || s.SilPerSample?)
    requires (t.SilUnknown? || t.SilPerHour? || t.SilPerSample?)
    ensures SilTypeToken(s) == SilTypeToken(t) <==> s == t
    ensures SilTypeToken(s) != "invalid"
  {
  }
}
