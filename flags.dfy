/** append_flags of redis.c: the JSON list of the names of the fields whose validity record names a
    given data source (`"mlat":[...]` and `"tisb":[...]` of the record). */
module FlagLists {
  import opened Strings
  import opened Cursor
  import opened Aircraft

  /** The fields append_flags tests, in its order. */
  const FlagFields: seq<Field> := [
    Callsign, AltitudeBaro, AltitudeGeom, Gs, Ias, Tas, Mach, Track, TrackRate, Roll, MagHeading,
    TrueHeading, BaroRate, GeomRate, Squawk, EmergencyField, NavQnh, NavAltitudeMcp, NavAltitudeFms,
    NavHeading, NavModes, Position, NicBaro, NacP, NacV, Sil, Gva, Sda
  ]

  /** The name append_flags writes for a field checked on its own; the barometric altitude is
      named "altitude". The position and the SIL are written as several names (FlagNamesOf). */
  function FlagName(f: Field): (r: string)
    ensures |r| > 0 && forall i :: 0 <= i < |r| ==> 'a' <= r[i] <= 'z' || r[i] == '_'
  {
    match f
    case Callsign => "callsign"
    case AltitudeBaro => "altitude"
    case AltitudeGeom => "alt_geom"
    case Gs => "gs"
    case Ias => "ias"
    case Tas => "tas"
    case Mach => "mach"
    case Track => "track"
    case TrackRate => "track_rate"
    case Roll => "roll"
    case MagHeading => "mag_heading"
    case TrueHeading => "true_heading"
    case BaroRate => "baro_rate"
    case GeomRate => "geom_rate"
    case Squawk => "squawk"
    case EmergencyField => "emergency"
    case NavQnh => "nav_qnh"
    case NavAltitudeMcp => "nav_altitude_mcp"
    case NavAltitudeFms => "nav_altitude_fms"
    case NavHeading => "nav_heading"
    case NavModes => "nav_modes"
    case Position => "lat"
    case NicBaro => "nic_baro"
    case NacP => "nac_p"
    case NacV => "nac_v"
    case Sil => "sil"
    case Gva => "gva"
    case Sda => "sda"
    case AirgroundField => "airground"
    case Alert => "alert"
    case Spi => "spi"
  }

  /** The place of a field's test in append_flags; -1 for the fields it does not test. */
  function FlagOrder(f: Field): int
  {
    match f
    case Callsign => 0
    case AltitudeBaro => 1
    case AltitudeGeom => 2
    case Gs => 3
    case Ias => 4
    case Tas => 5
    case Mach => 6
    case Track => 7
    case TrackRate => 8
    case Roll => 9
    case MagHeading => 10
    case TrueHeading => 11
    case BaroRate => 12
    case GeomRate => 13
    case Squawk => 14
    case EmergencyField => 15
    case NavQnh => 16
    case NavAltitudeMcp => 17
    case NavAltitudeFms => 18
    case NavHeading => 19
    case NavModes => 20
    case Position => 21
    case NicBaro => 22
    case NacP => 23
    case NacV => 24
    case Sil => 25
    case Gva => 26
    case Sda => 27
    case AirgroundField => -1
    case Alert => -1
    case Spi => -1
  }

  /** FlagFields lists the 28 tests of append_flags in order. */
  lemma FlagFieldsOrder()
    ensures |FlagFields| == 28
    ensures forall i | 0 <= i < |FlagFields| :: FlagOrder(FlagFields[i]) == i
  {
  }

  /** append_flags tests 28 fields, each once; airground, alert and spi are not among them. */
  lemma FlagFieldsDistinct()
    ensures |FlagFields| == 28
    ensures forall i, j | 0 <= i < j < |FlagFields| :: FlagFields[i] != FlagFields[j]
    ensures forall f | FlagOrder(f) < 0 :: f !in FlagFields
  {
    FlagFieldsOrder();
  }

  /** The names append_flags writes for a field whose source matches: the position expands to
      "lat", "lon", "nic", "rc" and the SIL to "sil", "sil_type". */
  function FlagNamesOf(f: Field): (r: seq<string>)
    ensures r != []
  {
    if f.Position? then ["lat", "lon", "nic", "rc"]
    else if f.Sil? then ["sil", "sil_type"]
    else [FlagName(f)]
  }

  const Quote: string := "\""
  const Comma: string := ","

  /** Whether field `f` is listed for `source`: only the source is compared, not whether the
      field is currently valid. */
  predicate Matches(a: Aircraft, source: int, f: Field)
  {
    a.validity(f).source == source
  }

  /** The names that the tests of `fields`, in order, contribute for `source`. */
  function Names(a: Aircraft, source: int, fields: seq<Field>): (r: seq<string>)
  {
    if fields == [] then []
    else
      var f := fields[|fields| - 1];
      Names(a, source, fields[..|fields| - 1]) + (if Matches(a, source, f) then FlagNamesOf(f) else [])
  }

  /** All the names append_flags lists for `source`. */
  function FlagNames(a: Aircraft, source: int): (r: seq<string>)
  {
    Names(a, source, FlagFields)
  }

  /** The text append_flags appends: the quoted names joined by commas, in brackets. */
  function FlagsText(a: Aircraft, source: int): (r: string)
    ensures |r| >= 2 && r[0] == '[' && r[|r| - 1] == ']'
  {
    "[" + Join(QuoteAll(Quote, FlagNames(a, source)), Comma) + "]"
  }

  /** What one matching test of append_flags appends: each name quoted and followed by a comma. */
  function FlagAppend(f: Field): (r: string)
  {
    Suffixed(QuoteAll(Quote, FlagNamesOf(f)), Comma)
  }

  /** The text the tests of `fields` append after "[": each matching field's names, each quoted
      and followed by a comma. */
  function Listing(a: Aircraft, source: int, fields: seq<Field>): (r: string)
  {
    Suffixed(QuoteAll(Quote, Names(a, source, fields)), Comma)
  }

  /** append_flags: "[", then `"name",` for every matching test, then the cursor steps back over
      the last comma if anything was written, then "]". */
  method AppendFlags(buf: array<char>, p: nat, end: nat, a: Aircraft, source: int, ghost text: string)
    returns (q: nat)
    requires Holds(buf[..], text, end) && p == |text|
    modifies buf
    ensures buf[end..] == old(buf[end..])
    ensures Holds(buf[..], text + FlagsText(a, source), end)
    ensures Terminated(buf[..], text + FlagsText(a, source), end)
    ensures q == |text + FlagsText(a, source)|
  {
    q := AppendList(buf, p, end, a, source, FlagFields, text);
  }

  /** The bracketed list append_flags writes for the tests of `fields`. */
  method AppendList(buf: array<char>, p: nat, end: nat, a: Aircraft, source: int, fields: seq<Field>,
                    ghost text: string) returns (q: nat)
    requires Holds(buf[..], text, end) && p == |text|
    modifies buf
    ensures buf[end..] == old(buf[end..])
    ensures Holds(buf[..], text + ("[" + Join(QuoteAll(Quote, Names(a, source, fields)), Comma) + "]"), end)
    ensures Terminated(buf[..], text + ("[" + Join(QuoteAll(Quote, Names(a, source, fields)), Comma) + "]"), end)
    ensures q == |text + ("[" + Join(QuoteAll(Quote, Names(a, source, fields)), Comma) + "]")|
  {
    q := Emit(buf, p, end, "[", text);
    ghost var open := text + "[";
    var start := q;
    q := AppendMatching(buf, q, end, a, source, fields, open);
    ghost var joined := Join(QuoteAll(Quote, Names(a, source, fields)), Comma);
    ListingDone(a, source, fields, open);
    q := CloseList(buf, q, end, start, open, Listing(a, source, fields), joined);
    Bracketed(text, joined);
  }

  /** `[`, the names, then `]`, appended one after the other, append the bracketed list. */
  lemma Bracketed(text: string, joined: string)
    ensures text + "[" + joined + "]" == text + ("[" + joined + "]")
  {
    Associate(text, "[", joined);
    Associate(text, "[" + joined, "]");
  }

  /** The end of append_flags: `if (p != start) --p;` steps back over the comma after the last
      name, then "]" closes the list. */
  method CloseList(buf: array<char>, p: nat, end: nat, start: nat, ghost open: string, ghost listing: string,
                   ghost joined: string) returns (q: nat)
    requires Holds(buf[..], open + listing, end) && p == |open + listing| && start == |open|
    requires listing == [] ==> open + listing + "]" == open + joined + "]"
    requires listing != [] ==> (open + listing)[..|open + listing| - 1] + "]" == open + joined + "]"
    modifies buf
    ensures buf[end..] == old(buf[end..])
    ensures Holds(buf[..], open + joined + "]", end) && Terminated(buf[..], open + joined + "]", end)
    ensures q == |open + joined + "]"|
  {
    ghost var written := open + listing;
    q := p;
    if q != start {
      StepBackKeeps(buf[..], written, end);
      q := q - 1;
      written := written[..|written| - 1];
    }
    q := Emit(buf, q, end, "]", written);
  }

  /** The run of tests in append_flags: for each field of `fields` in order, its names are
      appended when its source matches. */
  method AppendMatching(buf: array<char>, p: nat, end: nat, a: Aircraft, source: int, fields: seq<Field>,
                        ghost open: string) returns (q: nat)
    requires Holds(buf[..], open, end) && p == |open|
    modifies buf
    ensures buf[end..] == old(buf[end..])
    ensures Holds(buf[..], open + Listing(a, source, fields), end)
    ensures q == |open + Listing(a, source, fields)|
  {
    ghost var written := open;
    q := p;
    var i := 0;
    assert fields[..0] == [];
    while i < |fields|
      invariant 0 <= i <= |fields|
      invariant written == open + Listing(a, source, fields[..i])
      invariant Holds(buf[..], written, end) && q == |written|
      invariant buf[end..] == old(buf[end..])
    {
      ListingStep(a, source, fields, i, open);
      q := AppendField(buf, q, end, a, source, fields[i], written);
      written := written + Added(a, source, fields[i]);
      i := i + 1;
    }
    assert fields[..i] == fields;
  }

  /** What one test of append_flags appends: the field's names when its source matches. */
  function Added(a: Aircraft, source: int, f: Field): (r: string)
  {
    if Matches(a, source, f) then FlagAppend(f) else []
  }

  /** One test of append_flags: `if (a->f_valid.source == source)` append the field's names,
      each quoted and followed by a comma. */
  method AppendField(buf: array<char>, p: nat, end: nat, a: Aircraft, source: int, f: Field,
                     ghost text: string) returns (q: nat)
    requires Holds(buf[..], text, end) && p == |text|
    modifies buf
    ensures buf[end..] == old(buf[end..])
    ensures Holds(buf[..], text + Added(a, source, f), end)
    ensures q == |text + Added(a, source, f)|
  {
    q := p;
    if a.validity(f).source == source {
      q := Emit(buf, q, end, FlagAppend(f), text);
    } else {
      assert text + Added(a, source, f) == text;
    }
  }

  /** One test of append_flags: a matching field adds its names to the listing, any other field
      adds nothing. */
  lemma ListingStep(a: Aircraft, source: int, fields: seq<Field>, i: nat, open: string)
    requires i < |fields|
    ensures open + Listing(a, source, fields[..i + 1]) ==
      open + Listing(a, source, fields[..i]) + Added(a, source, fields[i])
  {
    NamesStep(a, source, fields, i);
    var before := Names(a, source, fields[..i]);
    if Matches(a, source, fields[i]) {
      QuotedListAppend(before, FlagNamesOf(fields[i]));
    } else {
      assert before + [] == before;
    }
  }

  lemma NamesStep(a: Aircraft, source: int, fields: seq<Field>, i: nat)
    requires i < |fields|
    ensures Names(a, source, fields[..i + 1]) ==
      Names(a, source, fields[..i]) + (if Matches(a, source, fields[i]) then FlagNamesOf(fields[i]) else [])
  {
    assert fields[..i + 1][..i] == fields[..i];
  }

  /** Quoting and comma-terminating a concatenation of name lists is doing so to each in turn. */
  lemma QuotedListAppend(before: seq<string>, added: seq<string>)
    ensures Suffixed(QuoteAll(Quote, before + added), Comma) ==
      Suffixed(QuoteAll(Quote, before), Comma) + Suffixed(QuoteAll(Quote, added), Comma)
  {
    QuoteAllAppend(Quote, before, added);
    SuffixedAppend(QuoteAll(Quote, before), QuoteAll(Quote, added), Comma);
  }

  /** After the last test the listing is empty exactly when nothing matched; otherwise it is the
      joined list with one extra comma, which the step back removes. */
  lemma ListingDone(a: Aircraft, source: int, fields: seq<Field>, open: string)
    ensures Listing(a, source, fields) == [] ==>
      open + Listing(a, source, fields) + "]" == open + Join(QuoteAll(Quote, Names(a, source, fields)), Comma) + "]"
    ensures Listing(a, source, fields) != [] ==>
      (open + Listing(a, source, fields))[..|open + Listing(a, source, fields)| - 1] + "]" ==
      open + Join(QuoteAll(Quote, Names(a, source, fields)), Comma) + "]"
  {
    var listed := QuoteAll(Quote, Names(a, source, fields));
    if listed != [] {
      SuffixedIsJoinPlusSep(listed, Comma);
      assert (open + Suffixed(listed, Comma))[..|open + Suffixed(listed, Comma)| - 1] == open + Join(listed, Comma);
    }
  }

  /** The names of a concatenation of field lists are the names of each, in order. */
  lemma {:induction false} NamesAppend(a: Aircraft, source: int, xs: seq<Field>, ys: seq<Field>)
    ensures Names(a, source, xs + ys) == Names(a, source, xs) + Names(a, source, ys)
    decreases |ys|
  {
    if ys == [] {
      assert xs + ys == xs;
    } else {
      var init, f := ys[..|ys| - 1], ys[|ys| - 1];
      var tail := if Matches(a, source, f) then FlagNamesOf(f) else [];
      assert (xs + ys)[..|xs + ys| - 1] == xs + init && (xs + ys)[|xs + ys| - 1] == f;
      assert Names(a, source, xs + ys) == Names(a, source, xs + init) + tail;
      NamesAppend(a, source, xs, init);
      assert Names(a, source, ys) == Names(a, source, init) + tail;
    }
  }

  /** A name is listed exactly when some checked field matches and writes it. */
  lemma {:induction false} NamesMember(a: Aircraft, source: int, fields: seq<Field>, name: string)
    ensures name in Names(a, source, fields) <==>
      exists i :: 0 <= i < |fields| && Matches(a, source, fields[i]) && name in FlagNamesOf(fields[i])
  {
    if fields != [] {
      var init, f := fields[..|fields| - 1], fields[|fields| - 1];
      NamesMember(a, source, init, name);
      var last := if Matches(a, source, f) then FlagNamesOf(f) else [];
      assert name in Names(a, source, fields) <==> name in Names(a, source, init) || name in last;
      if name in Names(a, source, init) {
        var i :| 0 <= i < |init| && Matches(a, source, init[i]) && name in FlagNamesOf(init[i]);
        assert fields[i] == init[i];
      }
      if exists i :: 0 <= i < |fields| && Matches(a, source, fields[i]) && name in FlagNamesOf(fields[i]) {
        var i :| 0 <= i < |fields| && Matches(a, source, fields[i]) && name in FlagNamesOf(fields[i]);
        if i < |init| {
          assert init[i] == fields[i];
        }
      }
    }
  }

  /** No name is listed exactly when no checked field that has names matches. */
  lemma {:induction false} NamesEmpty(a: Aircraft, source: int, fields: seq<Field>)
    ensures Names(a, source, fields) == [] <==> forall i :: 0 <= i < |fields| ==> !Matches(a, source, fields[i])
  {
    if fields != [] {
      var init := fields[..|fields| - 1];
      NamesEmpty(a, source, init);
      assert forall i :: 0 <= i < |init| ==> init[i] == fields[i];
    }
  }

  /** The list is the empty list "[]" exactly when no checked field's source is `source`. */
  lemma FlagsEmptyIff(a: Aircraft, source: int)
    ensures FlagsText(a, source) == "[]" <==>
      forall i :: 0 <= i < |FlagFields| ==> a.validity(FlagFields[i]).source != source
  {
    var names := FlagNames(a, source);
    NamesEmpty(a, source, FlagFields);
    if names != [] {
      var quoted := QuoteAll(Quote, names);
      JoinNonEmpty(quoted, Comma);
      assert |FlagsText(a, source)| > 2;
    }
  }

  /** Joining a non-empty list of non-empty items gives a non-empty text ending with the last
      item's last character. */
  lemma JoinNonEmpty(xs: seq<string>, sep: string)
    requires xs != [] && xs[|xs| - 1] != []
    ensures |Join(xs, sep)| >= |xs[|xs| - 1]|
    ensures Join(xs, sep)[|Join(xs, sep)| - 1] == xs[|xs| - 1][|xs[|xs| - 1]| - 1]
  {
  }

  /** No comma stands before the closing bracket: after "[" comes either "]" or a quoted name. */
  lemma NoCommaBeforeClose(a: Aircraft, source: int)
    ensures FlagsText(a, source)[|FlagsText(a, source)| - 2] == '"' ||
      FlagsText(a, source) == "[]"
  {
    var quoted := QuoteAll(Quote, FlagNames(a, source));
    if quoted != [] {
      var last := quoted[|quoted| - 1];
      assert last == Quote + FlagNames(a, source)[|quoted| - 1] + Quote;
      JoinNonEmpty(quoted, Comma);
      var j := Join(quoted, Comma);
      assert FlagsText(a, source)[|FlagsText(a, source)| - 2] == j[|j| - 1];
    }
  }

  /** The names written for the field at index `k` of a test order appear as one block, between
      the names of the earlier and of the later tests. */
  lemma NamesAround(a: Aircraft, source: int, fields: seq<Field>, k: nat)
    requires k < |fields|
    ensures Names(a, source, fields) ==
      Names(a, source, fields[..k]) +
      (if Matches(a, source, fields[k]) then FlagNamesOf(fields[k]) else []) +
      Names(a, source, fields[k + 1..])
  {
    assert fields == fields[..k + 1] + fields[k + 1..];
    assert fields[..k + 1][..k] == fields[..k];
    NamesAppend(a, source, fields[..k + 1], fields[k + 1..]);
  }

  /** "lat" is listed exactly when the position's source matches, and then the names "lat",
      "lon", "nic", "rc" stand together where the position is checked. */
  lemma PositionExpands(a: Aircraft, source: int)
    ensures "lat" in FlagNames(a, source) <==> a.validity(Position).source == source
    ensures a.validity(Position).source == source ==>
      FlagNames(a, source) ==
      Names(a, source, FlagFields[..21]) + ["lat", "lon", "nic", "rc"] + Names(a, source, FlagFields[22..])
  {
    NamesMember(a, source, FlagFields, "lat");
    assert FlagFields[21] == Position;
    forall i | 0 <= i < |FlagFields| && "lat" in FlagNamesOf(FlagFields[i])
      ensures FlagFields[i] == Position
    {
      OnlyPositionWritesLat(FlagFields[i]);
    }
    NamesAround(a, source, FlagFields, 21);
  }

  /** "sil" is listed exactly when the SIL's source matches, and then "sil" and "sil_type" stand
      together where the SIL is checked. */
  lemma SilExpands(a: Aircraft, source: int)
    ensures "sil" in FlagNames(a, source) <==> a.validity(Sil).source == source
    ensures a.validity(Sil).source == source ==>
      FlagNames(a, source) ==
      Names(a, source, FlagFields[..25]) + ["sil", "sil_type"] + Names(a, source, FlagFields[26..])
  {
    NamesMember(a, source, FlagFields, "sil");
    assert FlagFields[25] == Sil;
    forall i | 0 <= i < |FlagFields| && "sil" in FlagNamesOf(FlagFields[i])
      ensures FlagFields[i] == Sil
    {
      OnlySilWritesSil(FlagFields[i]);
    }
    NamesAround(a, source, FlagFields, 25);
  }

  /** Only the position test writes "lat". */
  lemma OnlyPositionWritesLat(f: Field)
    ensures "lat" in FlagNamesOf(f) <==> f == Position
  {
  }

  /** Only the SIL test writes "sil". */
  lemma OnlySilWritesSil(f: Field)
    ensures "sil" in FlagNamesOf(f) <==> f == Sil
  {
  }

  /** The lists depend only on the sources recorded for the checked fields, not on whether those
      fields are still valid: two aircraft that agree on every recorded source get the same list. */
  lemma FlagsIgnoreValidity(a: Aircraft, b: Aircraft, source: int)
    requires forall f :: a.validity(f).source == b.validity(f).source
    ensures FlagsText(a, source) == FlagsText(b, source)
  {
    NamesAgree(a, b, source, FlagFields);
  }

  lemma {:induction false} NamesAgree(a: Aircraft, b: Aircraft, source: int, fields: seq<Field>)
    requires forall f :: a.validity(f).source == b.validity(f).source
    ensures Names(a, source, fields) == Names(b, source, fields)
  {
    if fields != [] {
      NamesAgree(a, b, source, fields[..|fields| - 1]);
    }
  }
}
