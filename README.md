# Redis record serializer of readsb, in Dafny

This project models `redis.c` of the czadsb fork of readsb. On every cycle, `redisSaveData`
walks the table of tracked aircraft and drops two kinds of aircraft:

- bad decodes: fewer than two messages;
- stale aircraft: not seen for more than 90 seconds, with the age computed as an unsigned 64-bit
  difference.

Each remaining aircraft becomes one JSON object, written into a 512 KiB buffer through the bounded
append cursor `safe_snprintf`. The object is stored with `SET` under a key built from the
aircraft's address, and the key then gets `EXPIRE 60`.

The object is built as follows:

- It starts with `"hex"`: a `~` for a non-ICAO address, then six lower-case hex digits.
- A fixed sequence of conditional members follows, with the ground rule for the altitudes.
- The callsign passes through the JSON string escaper `jsonEscapeString`, which writes into a
  1024-byte static scratch buffer.
- The autopilot modes are listed by `append_nav_modes`.
- Two lists of field names are written by `append_flags`: the mlat list and the tisb list.
- It closes with the message count, the seconds since last seen and the RSSI.

The modules follow the file's structure:

- `Cursor`: `safe_snprintf` on an `array<char>`, with a cursor invariant. The buffer holds the
  part of the logical text that fits, NUL-terminated, and the cursor is the length of the whole
  logical text, as `vsnprintf`'s return value makes it.
- `HexFormat`: `%0Nx` and `%0NX`, with a parser that proves them injective.
- `Enums`: the three `switch` tables.
- `JsonEscape`: `jsonEscapeString`. It is a class that owns the scratch buffer, and its loop is
  proved against an escaping function and its inverse.
- `Aircraft`: the fields of `struct aircraft` that the serializer reads.
- `FlagLists`: `append_flags`.
- `NavModeLists`: `nav_modes_names` and `append_nav_modes`.
- `Record`: the member list of the object and the methods that write it.
- `Publisher`: `redisSaveData`, with the Redis connection modelled as the log of the commands sent
  to it.

Three details of `redis.c` are easy to misread; the model follows the code:

- The key and the `"hex"` member are not rendered alike. The key is `%s%06X`: a `~` or a
  **space**, then **upper-case** digits. The member is `%s%06x`: a `~` or nothing, then
  **lower-case** digits. `Publisher.KeyShape`, `Publisher.KeysDistinguish` and
  `Publisher.ValueNamesKey` prove that each still identifies the aircraft.
- The escaper lets byte 127 through unescaped. Its test is `ch > 127`, not `ch > 126`.
- The escaper's cap is checked before each byte. A `\u` escape that starts within six characters
  of the cap is cut short by `safe_snprintf`; `JsonEscape.EscapeStepCut` models this.

## Model

| member | source | states |
|---|---|---|
| Cursor.SafeSnprintf | redis.c:9-15 | the buffer gets `s` written at `p`, clamped to `end` and NUL-terminated, with nothing outside `[p, end)` changed; the returned cursor is `p` plus the length of `s`, whether or not `s` fit |
| Cursor.Appended | redis.c:12 | the effect of `vsnprintf(p < end ? p : NULL, …)`: no change when `p >= end`; when the text fits, it is written whole and terminated; when it does not, it is cut at `end - 1` and NUL-terminated; nothing after the terminator changes |
| Cursor.AppendKeeps | redis.c:9-15 | one append keeps the cursor invariant for the longer logical text, and leaves the visible text NUL-terminated |
| Cursor.Emit | redis.c:9-15 | an append as the record builders use it: the invariant and the termination hold for `text + s`, and the cursor is the length of `text + s`; nothing at or after `end` changes |
| Cursor.StepBackKeeps | redis.c:143-144 | `--p` after a non-empty listing keeps the invariant for the text without its last character |
| Cursor.BufferReadsAsText | redis.c:316 | what `%s` reads from a terminated buffer depends only on the logical text, clamped to the buffer |
| Cursor.CStr | redis.c:316 | the `%s` read of a buffer: a NUL-free prefix of the buffer, followed in the buffer by a NUL whenever it is shorter than the buffer |
| Cursor.CStrStopsAtNul | redis.c:316 | a C-string read stops at the first NUL |
| HexFormat.Hex | redis.c:229 | `%0Nx`/`%0NX` has at least N digits, all in the requested case |
| HexFormat.ParseHexOfHex | redis.c:229 | parsing the rendering gives the value back, whatever the width and case |
| HexFormat.HexInjective | redis.c:316 | two values render alike only if they are equal |
| HexFormat.HexExactWidth | redis.c:229 | a value below 16^N renders as exactly N digits (six for a 24-bit address) |
| HexFormat.UpperOfLowerHex | redis.c:316 | `%06X` is `%06x` with its letters upper-cased |
| Enums.AddrTypeToken | redis.c:17-38 | every token is quote- and escape-free; values outside the switch give "unknown" |
| Enums.AddrTypeTokenDistinct | redis.c:17-38 | the eight named address types get eight distinct tokens, none of them "unknown" |
| Enums.EmergencyToken | redis.c:61-72 | every token is plain; unnamed codes give "reserved" |
| Enums.EmergencyTokenDistinct | redis.c:61-72 | named emergency states get distinct tokens, none of them "reserved" |
| Enums.SilTypeToken | redis.c:74-81 | every token is plain; SIL_INVALID and unnamed values give "invalid" |
| Enums.SilTypeTokenDistinct | redis.c:74-81 | the three named SIL types get distinct tokens, none of them "invalid" |
| JsonEscape.EscapeChar | redis.c:46-54 | one byte's escape contains no NUL and has length 2 for `"` and `\`, 6 for bytes below 32 or above 127, and 1 otherwise |
| JsonEscape.EscapeCharShape | redis.c:47-54 | a backslash before `"` or `\`; `\u` and four lower-case hex digits whose value is the byte; otherwise the byte itself |
| JsonEscape.Input | redis.c:45 | the loop reads the input up to its first NUL |
| JsonEscape.EscapeFrom | redis.c:43-55 | what the loop writes from output offset `out` ends at most one character past the cap (`buf + 1014`), and contains no NUL |
| JsonEscape.JsonEscaped | redis.c:40-59 | the returned string is at most 1015 characters and contains no NUL |
| JsonEscape.EscapeFromIsPrefix | redis.c:45-55 | the capped output is always a prefix of the uncapped escape of the input: the cap only drops characters from the end |
| JsonEscape.EscapeStepWhole | redis.c:45-55 | a byte whose escape fits is written whole, and the loop continues after it |
| JsonEscape.EscapeStepCut | redis.c:50-51 | a `\u` escape that does not fit before the cap is cut short and ends the output |
| JsonEscape.EscapeFromEnded | redis.c:45 | nothing more is written once the input is exhausted, reaches its NUL, or the output reaches the cap |
| JsonEscape.EscapeUncapped | redis.c:43-45 | when the whole escape fits before the cap, nothing is dropped |
| JsonEscape.UnescapeEscapeAll | redis.c:46-54 | unescaping the escape of any byte string gives the string back: escaping loses nothing |
| JsonEscape.UnescapeStep | redis.c:46-54 | each escape reads back as the byte it came from, whatever follows it |
| JsonEscape.JsonEscapedRoundTrip | redis.c:40-59 | for an input whose escape fits, the escaper's output reads back as the input up to its NUL |
| JsonEscape.UnicodeWritten | redis.c:51 | what `safe_snprintf` leaves in the scratch buffer after a `\u` escape, written whole or cut at the cap |
| JsonEscape.JsonEscaper.constructor | redis.c:41 | the scratch buffer is a fresh array of 1024 characters |
| JsonEscape.JsonEscaper.StoreChar | redis.c:48-49 | `*out++ = c` extends the written text by `c` and advances the output by one, leaving the rest of the scratch buffer as it was |
| JsonEscape.JsonEscaper.PutUnicode | redis.c:50-51 | the `\u%04x` branch advances the output by six; it writes the whole escape and a NUL when that fits before the cap, and otherwise its cut prefix and a NUL; nothing after the terminator changes |
| JsonEscape.JsonEscaper.EscapeByte | redis.c:46-54 | one pass of the loop body writes the byte's escape, whole or cut, and advances the output by its length; nothing after the escape and its terminator changes |
| JsonEscape.JsonEscaper.EscapeStep | redis.c:45-55 | one loop iteration keeps the written text a prefix of the final output and reports when a cut escape ended it |
| JsonEscape.JsonEscaper.Escape | redis.c:40-59 | the loop leaves exactly `JsonEscaped(str)` in the scratch buffer and returns it as the C string the buffer holds |
| Aircraft.Address24 | redis.c:229 | `addr & 0xFFFFFF` is below 2^24 |
| Aircraft.AddressSplit | redis.c:229 | the 24-bit address and the non-ICAO bit together are the low 25 bits of `addr` |
| FlagLists.FlagNamesOf | redis.c:87-142 | each test writes at least one name (the position test writes four, the SIL test two) |
| FlagLists.FlagName | redis.c:87-142 | the name written for a field is a non-empty run of lower-case letters and underscores, so it needs no escaping between quotes |
| FlagLists.FlagFieldsOrder | redis.c:87-138 | FlagFields holds the 28 fields append_flags tests, each at the place of its test |
| FlagLists.FlagFieldsDistinct | redis.c:87-138 | append_flags tests 28 fields, none twice; airground, alert and spi are not tested |
| FlagLists.FlagsText | redis.c:83-147 | the list opens with `[` and closes with `]` |
| FlagLists.AppendFlags | redis.c:83-147 | `append_flags` appends exactly `FlagsText(a, source)`, terminated, with the cursor invariant kept and nothing at or after `end` changed |
| FlagLists.AppendList | redis.c:84-145 | `[`, the quoted names of the matching tests joined by commas, then `]` |
| FlagLists.AppendMatching | redis.c:86-142 | the tests in order append `"name",` for each name of each matching field |
| FlagLists.AppendField | redis.c:87-88 | one test appends the field's names only when its source matches |
| FlagLists.CloseList | redis.c:143-145 | `if (p != start) --p;` followed by `]` turns the comma-terminated listing into the comma-joined list |
| FlagLists.ListingDone | redis.c:143-144 | the listing is empty exactly when no name matched; otherwise it is the joined names plus one trailing comma |
| FlagLists.NamesMember | redis.c:87-142 | a name is listed exactly when some field in the list's order matches and writes it |
| FlagLists.NamesEmpty | redis.c:87-142 | no name is listed exactly when no field in the list's order matches |
| FlagLists.FlagsEmptyIff | redis.c:83-147 | the list is `[]` exactly when no listed field's recorded source is `source` |
| FlagLists.NoCommaBeforeClose | redis.c:143-145 | the character before `]` is a quote or `[`, never a comma |
| FlagLists.PositionExpands | redis.c:129-130 | "lat" is listed exactly when the position's source matches, and then "lat","lon","nic","rc" stand together |
| FlagLists.SilExpands | redis.c:137-138 | "sil" is listed exactly when the SIL's source matches, and then "sil","sil_type" stand together |
| FlagLists.OnlyPositionWritesLat | redis.c:129-130 | only the position test writes "lat" |
| FlagLists.OnlySilWritesSil | redis.c:137-138 | only the SIL test writes "sil" |
| FlagLists.FlagsIgnoreValidity | redis.c:87-142 | the lists depend only on the recorded sources, not on whether the fields are still valid |
| NavModeLists.SetNames | redis.c:164-167 | at most one name per table row |
| NavModeLists.NavModeTableRows | redis.c:149-160 | nav_modes_names has six rows with distinct names; each flag is a nonzero bit within the known modes and no two flags share a bit |
| NavModeLists.NavModesText | redis.c:162-178 | no set mode writes nothing; otherwise the text starts with the first set mode's name between quotes |
| NavModeLists.AppendNavModes | redis.c:162-178 | `append_nav_modes` appends the quoted names of the set modes, in table order, joined by `sep`, and changes nothing at or after `end` |
| NavModeLists.AppendSetNames | redis.c:162-178 | the walk over any table appends exactly the joined quoted names of the rows whose bit is set |
| NavModeLists.WalkRow | redis.c:164-175 | one pass of the loop extends the text written for the rows before row `i` to the text for the rows up to and including it, keeping `first` exact and nothing at or after `end` changed |
| NavModeLists.AppendRow | redis.c:165-174 | one row writes the separator only when a name was written before, then its quoted name, and clears `first` exactly when something has been written |
| NavModeLists.SetNamesMember | redis.c:164-167 | a name is listed exactly when some row with that name has its bit set |
| NavModeLists.ModeNamesMember | redis.c:149-167 | a mode name is written exactly when its bit is set in `flags` |
| NavModeLists.SetNamesAgree | redis.c:165 | two flag words that agree on every row's bit list the same names |
| NavModeLists.KnownBitsKept | redis.c:153-158 | masking with the six known bits keeps every row's test |
| NavModeLists.UnknownBitsIgnored | redis.c:165 | bits outside the table change nothing, and a word with no known bit writes nothing |
| NavModeLists.SeparatorsBetweenNames | redis.c:169-174 | k names are written with exactly k - 1 commas: separators stand only between names |
| Record.EntryFor | redis.c:229-314 | the append for each key writes a member under that key |
| Record.HexMember | redis.c:229 | the "hex" member is a quoted string with a leading `~` exactly for a non-ICAO address (nine characters then, eight otherwise), whose last six characters are lower-case hex digits that read back as the 24-bit address |
| Record.BaroEntry | redis.c:234-238 | alt_baro is "ground" and always written under the ground rule; otherwise written exactly when valid with reliability at least 3 |
| Record.GeomEntry | redis.c:234-241 | alt_geom is never written under the ground rule; otherwise written exactly when valid |
| Record.RankPlaces | redis.c:229-314 | each member name has one place in the record order |
| Record.PlaceRanks | redis.c:229-314 | each place of the record order holds one member name |
| Record.Listed | redis.c:230-314 | every member name except "hex" has an append after the "hex" member |
| Record.KeyOrderSplit | redis.c:230-314 | the appends are the conditional tests followed by the closing append of messages, seen and rssi |
| Record.WriteRecord | redis.c:229-314 | the record writer leaves `RecordText(a)` in the buffer, clamped to `end` and NUL-terminated, with the cursor at its full length and nothing at or after `end` changed |
| Record.RecordText | redis.c:229-314 | the record text opens with `{` and closes with `}` |
| Record.PutHead | redis.c:229 | `{"hex":"%s%06x"` is written at the start of the buffer |
| Record.PutKeys | redis.c:230-309 | the tests of a key run, one after the other, append what each append writes |
| Record.PutNext | redis.c:230-309 | one pass of that run appends exactly the next test's text, keeping the cursor invariant and everything at or after `end` |
| Record.PutKey | redis.c:230-309 | one test appends exactly what the append for its key writes |
| Record.PutEntry | redis.c:230-231 | one conditional `safe_snprintf` appends `,"key":value` exactly when its condition holds |
| Record.WriteFlight | redis.c:232-233 | `"flight"` carries the escaper's output, and only when the callsign is valid |
| Record.WriteNavModes | redis.c:278-282 | `"nav_modes"` is `[` plus the names plus `]`, and only when the modes are valid |
| Record.WriteFlags | redis.c:306-309 | `"mlat"` and `"tisb"` are always written, with `append_flags` for SOURCE_MLAT and SOURCE_TISB |
| Record.Closing | redis.c:311-314 | the closing append completes the record text |
| Record.ClosingText | redis.c:311-314 | the closing append starts with a member separator and ends the object with `}` |
| Record.CountersText | redis.c:311 | the closing format writes messages, seen and rssi, then `}` |
| Record.RecordIsObject | redis.c:229-314 | the record is a JSON object: `{`, the members rendered and joined by commas, `}` |
| Record.RecordShape | redis.c:229 | every record opens with `{"hex":"`, then `~` exactly for a non-ICAO address, then six lower-case digits that parse to the 24-bit address, and ends with `}` |
| Record.MembersInOrder | redis.c:229-314 | the record writes "hex", then the keys of the present appends in source order |
| Record.KeysDistinct | redis.c:229-314 | no member name occurs twice in a record, so the JSON object has distinct keys |
| Record.MemberOf | redis.c:229-314 | a member is in the record exactly when it is the "hex" member or the present append of its key |
| Record.KeyWritten | redis.c:229-314 | a key is written exactly when it is "hex" or its append is present |
| Record.ListedEntry | redis.c:230-314 | a member other than "hex" is written exactly when its append is present |
| Record.GroundRule | redis.c:234-235 | an aircraft on the ground by a checked Mode S source or better has `"alt_baro":"ground"` and no `"alt_geom"` |
| Record.BaroRule | redis.c:236-238 | off the ground, `"alt_baro"` is written exactly when it is valid and reliable (at least 3), with its rendered value |
| Record.GeomRule | redis.c:239-240 | off the ground, `"alt_geom"` is written exactly when it is valid, with its rendered value |
| Record.TypeRule | redis.c:230-231 | `"type"` is written exactly when the address type is not adsb_icao |
| Record.CategoryRule | redis.c:268-269 | `"category"` is written as `%02X` exactly when the category is not 0 |
| Record.VersionRule | redis.c:285-286 | `"version"` is written exactly when the ADS-B version is not negative |
| Record.SilTypeRule | redis.c:295-296 | `"sil_type"` is written exactly when the SIL type is not SIL_INVALID |
| Record.PositionRule | redis.c:283-284 | lat, lon, nic, rc and seen_pos are each written exactly when the position is valid |
| Record.NumericRule | redis.c:242-304 | a numeric member is written exactly when its field is valid, always with that field's rendering |
| Record.AlwaysPresent | redis.c:306-314 | every record has mlat and tisb lists, messages and seen, and ends with rssi |
| Record.LastIsRssi | redis.c:311-314 | rssi is the last member of every record |
| Publisher.RedisClient.constructor | redis.c:202-204 | a new connection has issued no commands |
| Publisher.RedisClient.Send | redis.c:316-317 | `eredis_w_cmd` queues its command after those already issued |
| Publisher.Age | redis.c:227 | `now - seen` in uint64_t: the age that, added to `seen`, wraps round to `now` |
| Publisher.Passes | redis.c:224-228 | an aircraft with fewer than two messages is dropped; one seen no later than now passes exactly when seen at most 90000 ms ago (with enough messages) |
| Publisher.RedisKey | redis.c:316 | the key is seven characters, starting with `~` exactly for a non-ICAO address |
| Publisher.Value | redis.c:316 | the stored value is NUL-free, shorter than the 512 KiB buffer, and a prefix of the record text |
| Publisher.Batch | redis.c:224-317 | one aircraft gives two commands when it passes and none otherwise, all on its key, SET carrying its record and EXPIRE 60 seconds |
| Publisher.Publish | redis.c:222-321 | the walk issues exactly two commands per passing aircraft |
| Publisher.Passing | redis.c:224-228 | the passing aircraft are taken from the walk and satisfy both filters |
| Publisher.SaveData | redis.c:216-323 | the walk issues exactly the commands of `Publish` for the aircraft in walk order, after those already issued |
| Publisher.SaveAircraft | redis.c:224-319 | one aircraft adds its SET and EXPIRE when it passes both filters, and nothing otherwise |
| Publisher.Store | redis.c:316-317 | the SET of the record under the key, then the EXPIRE of that key for 60 seconds |
| Publisher.RenderRecord | redis.c:219-220 | the record written into a fresh 512 KiB buffer and read back as a C string is `Value(a)` |
| Publisher.PublishAppend | redis.c:222-223 | walking two runs in a row issues the commands of each in turn |
| Publisher.PublishPairs | redis.c:222-321 | the commands come in pairs, one pair per passing aircraft in walk order: SET of its record under its key, then EXPIRE of that key for 60 seconds |
| Publisher.StoredIff | redis.c:316 | a record is stored under a key exactly when some passing aircraft has that key and that record |
| Publisher.StoredEvery | redis.c:316 | every passing aircraft is stored |
| Publisher.ExpiryIff | redis.c:317 | an expiry is issued for a key exactly when some passing aircraft has that key, and always for 60 seconds |
| Publisher.StalenessRule | redis.c:227-228 | an aircraft seen up to `now` passes exactly when it has two messages and is at most 90000 ms old; one seen after `now` wraps round, and passes only when `seen - now` is at least 2^64 - 90000 |
| Publisher.KeyShape | redis.c:316 | the key is `~` or a space, then six upper-case digits that parse to the 24-bit address |
| Publisher.KeysDistinguish | redis.c:316 | two aircraft share a key exactly when the low 25 bits of their addresses agree |
| Publisher.KeysAgree | redis.c:316 | the key determines, and is determined by, the non-ICAO flag and the 24-bit address |
| Publisher.ValueIsRecord | redis.c:219-220 | the stored value is a prefix of the record that fits the buffer, and is the whole record when the record fits and has no NUL |
| Publisher.ValueNamesKey | redis.c:316 | whatever the record holds and however long it is, the stored value opens with the `"hex"` member, whose `~` marker agrees with the key's and whose digits read back as the key's address |
| Publisher.KeyMatchesRecord | redis.c:316 | when the record fits the buffer and has no NUL, the stored value is the whole record: it opens with the key's `"hex"` member and ends with `}` |

## Left out

- Floating-point and decimal output is not modelled. This covers `convert_altitude`,
  `convert_speed` and the metric flag, the `(int)` casts, `log10` of the signal levels, and
  printf's `%f`, `%.1f`, `%d`, `%u` and `%ld`. Each value's rendering is carried as text in the
  aircraft snapshot (`shown`, `position`, `versionText`, `messagesText`, `seenText`, `rssiText`).
  The hex formats `%06x`, `%06X`, `%04x` and `%02X` are modelled exactly.
- `trackDataValid` is not part of this model. Its answer for each field is the snapshot's
  `validity(f).valid`.
- `mstime()` becomes the `now` parameter of `SaveData`.
- The hash-bucket walk over `Modes.aircrafts` becomes a sequence of aircraft in walk order.
- The eredis library is replaced by a log of the `SET` and `EXPIRE` commands issued. This leaves
  out `redisInit`'s host and port, the writer thread and the connection itself, `redisCleanup`'s
  shutdown, and the command results.
- `malloc`/`free` of the record buffer become a fresh array per aircraft. Allocation failure is
  not modelled.
- The unused global `message` buffer is left out, and so is the store to `_messageNow`.
- The readsb.h constants are taken from readsb's declarations, since readsb.h is not part of this
  model:
  - the datasource codes SOURCE_MLAT 4, SOURCE_MODE_S_CHECKED 7 and SOURCE_TISB 8;
  - the NAV_MODE bits 1 to 32;
  - MODES_NON_ICAO_ADDRESS, which is 2^24.
- The unrolled `if` chains of `append_flags` and `redisSaveData` are modelled as loops over tables
  with the same fields, names, order and conditions: `FlagFields`, and the record's key order.
- The position append writes five members in one `safe_snprintf`. It is modelled as five members
  that share one condition, which gives the same text.
- `Publisher.SaveData` takes a ghost `record` function, required to agree with `Value` on every
  aircraft. Its postcondition states the command log in terms of that function, not in terms of
  `Value` directly.
- `Record.NumericRule` requires that the key's append is the `Numeric` append of the given field.
  It is stated once for all the numeric members, not once per member.
- `JsonEscape.JsonEscaper.Escape` returns the escaped text as a value. Callers of
  `jsonEscapeString` that hold on to the returned buffer, and so see the static buffer change on the next call,
  are not modelled; the single caller copies the text into the record at once.
- `JsonEscape.JsonEscaper.Escape` takes the end of the input sequence, as well as a NUL, as the end of
  the C string. A `char` array with no NUL, which the C loop would read past, is not modelled.
