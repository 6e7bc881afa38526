/** redisSaveData of redis.c: every aircraft with at least two messages, seen within the last 90
    seconds, is written as one JSON record and stored under its address with a SET, followed by an
    EXPIRE of 60 seconds. The Redis connection is a log of the commands issued. */
module Publisher {
  import opened Strings
  import opened HexFormat
  import opened Cursor
  import opened Aircraft
  import opened JsonEscape
  import opened Record

  /** `int buflen = 256*2048`: the size of each record buffer. */
  const BufLen: nat := 256 * 2048

  /** Records expire 60 seconds after they were stored. */
  const ExpireSeconds: int := 60

  /** Aircraft not seen for more than 90000 ms are stale. */
  const StaleAfter: nat := 90000

  /** Aircraft with fewer messages are taken for bad decodes. */
  const MinMessages: int := 2

  /** The commands redisSaveData issues through eredis_w_cmd. */
  datatype Command = Set(key: string, value: string) | Expire(key: string, seconds: int)

  /** The Redis connection, as the commands written to it in order. */
  class RedisClient {
    var log: seq<Command>

    constructor()
      ensures log == []
    {
      log := [];
    }

    /** eredis_w_cmd: queues one command. */
    method Send(c: Command)
      modifies this
      ensures log == old(log) + [c]
    {
      log := log + [c];
    }
  }

  /** `now - a->seen` in uint64_t arithmetic: the age that, added to `seen`, wraps to `now`. */
  function Age(now: U64, seen: U64): (r: U64)
    ensures (seen + r) % TwoTo64 == now
  {
    (now - seen) % TwoTo64
  }

  /** The two filters of the loop: enough messages, and not stale. */
  function Passes(a: Aircraft, now: U64): (r: bool)
    ensures a.messages < MinMessages ==> !r
    ensures a.seen <= now && now - a.seen > StaleAfter ==> !r
    ensures a.messages >= MinMessages && a.seen <= now && now - a.seen <= StaleAfter ==> r
  {
    a.messages >= MinMessages && Age(now, a.seen) <= StaleAfter
  }

  /** The key `%s%06X`: "~" for a non-ICAO address and a space otherwise, then the 24-bit address
      in upper case. */
  function RedisKey(a: Aircraft): (r: string)
    ensures |r| == 7
    ensures r[0] == '~' <==> NonIcao(a)
  {
    Pow16Six();
    HexExactWidth(Address24(a), 6, true);
    (if NonIcao(a) then "~" else " ") + Hex(Address24(a), 6, true)
  }

  /** The value: the buffer after the record was written into a fresh buffer of BufLen
      characters, read as a C string. */
  function Value(a: Aircraft): (r: string)
    ensures NUL !in r
    ensures |r| < BufLen
    ensures r <= RecordText(a)
  {
    CStr(Clamp(RecordText(a), BufLen))
  }

  /** The commands for one aircraft: a SET of its record then an EXPIRE, when it passes. The
      rendering of the record is a parameter: redisSaveData stores `Value`, and the properties of
      the command stream hold whatever the record is. */
  function Batch(a: Aircraft, now: U64, record: Aircraft -> string): (r: seq<Command>)
    ensures |r| == (if Passes(a, now) then 2 else 0)
    ensures forall i | 0 <= i < |r| :: r[i].key == RedisKey(a)
    ensures forall i | 0 <= i < |r| && r[i].Set? :: r[i].value == record(a)
    ensures forall i | 0 <= i < |r| && r[i].Expire? :: r[i].seconds == ExpireSeconds
  {
    if Passes(a, now) then [Set(RedisKey(a), record(a)), Expire(RedisKey(a), ExpireSeconds)] else []
  }

  /** The commands for a walk over `aircraft`, in walk order. */
  function Publish(aircraft: seq<Aircraft>, now: U64, record: Aircraft -> string): (r: seq<Command>)
    ensures |r| == 2 * |Passing(aircraft, now)|
  {
    if aircraft == [] then []
    else Publish(aircraft[..|aircraft| - 1], now, record) + Batch(aircraft[|aircraft| - 1], now, record)
  }

  /** The aircraft that pass the filters, in walk order. */
  function Passing(aircraft: seq<Aircraft>, now: U64): (r: seq<Aircraft>)
    ensures |r| <= |aircraft|
    ensures forall a | a in r :: a in aircraft && Passes(a, now)
  {
    if aircraft == [] then []
    else
      var a := aircraft[|aircraft| - 1];
      Passing(aircraft[..|aircraft| - 1], now) + (if Passes(a, now) then [a] else [])
  }

  /** `record` renders every aircraft as `Value` does. */
  ghost predicate Renders(record: Aircraft -> string)
  {
    forall a {:trigger Value(a)} :: record(a) == Value(a)
  }

  /** redisSaveData over the aircraft of the table, walked in `aircraft` order: the commands
      issued are those of Publish for the records `Value` renders. Each record is written into a
      fresh buffer, and the escaper's scratch buffer is the only other state it changes. */
  method SaveData(client: RedisClient, escaper: JsonEscaper, aircraft: seq<Aircraft>, now: U64,
                  ghost record: Aircraft -> string)
    requires escaper.buf.Length == ScratchSize && Renders(record)
    modifies client, escaper.buf
    ensures client.log == old(client.log) + Publish(aircraft, now, record)
  {
    ghost var start := client.log;
    for i := 0 to |aircraft|
      invariant client.log == start + Publish(aircraft[..i], now, record)
    {
      PublishStep(aircraft, i, now, record);
      SaveAircraft(client, escaper, aircraft[i], now, record);
      Associate(start, Publish(aircraft[..i], now, record), Batch(aircraft[i], now, record));
    }
    assert aircraft[..|aircraft|] == aircraft;
  }

  /** The body of the walk for one aircraft: the two filters, then the record stored under the
      aircraft's key and given its expiry. */
  method SaveAircraft(client: RedisClient, escaper: JsonEscaper, a: Aircraft, now: U64,
                      ghost record: Aircraft -> string)
    requires escaper.buf.Length == ScratchSize && Renders(record)
    modifies client, escaper.buf
    ensures client.log == old(client.log) + Batch(a, now, record)
  {
    if a.messages < MinMessages {
      return;
    }
    if Age(now, a.seen) > StaleAfter {
      return;
    }
    var value := RenderRecord(escaper, a, record);
    Store(client, RedisKey(a), value);
  }

  /** The two eredis_w_cmd calls: the SET of the record under the key, then the EXPIRE. */
  method Store(client: RedisClient, key: string, value: string)
    modifies client
    ensures client.log == old(client.log) + [Set(key, value), Expire(key, ExpireSeconds)]
  {
    client.Send(Set(key, value));
    client.Send(Expire(key, ExpireSeconds));
  }

  /** The record written into a fresh buffer of BufLen characters, read back as a C string. */
  method RenderRecord(escaper: JsonEscaper, a: Aircraft, ghost record: Aircraft -> string) returns (value: string)
    requires escaper.buf.Length == ScratchSize && Renders(record)
    modifies escaper.buf
    ensures value == record(a)
  {
    var buf := new char[BufLen];
    var p := WriteRecord(buf, BufLen, a, escaper);
    BufferReadsAsText(buf[..], RecordText(a), BufLen);
    value := CStr(buf[..]);
    assert value == Value(a);
  }

  lemma PublishStep(aircraft: seq<Aircraft>, i: nat, now: U64, record: Aircraft -> string)
    requires i < |aircraft|
    ensures Publish(aircraft[..i + 1], now, record) == Publish(aircraft[..i], now, record) + Batch(aircraft[i], now, record)
  {
    assert aircraft[..i + 1][..i] == aircraft[..i];
  }

  /** Walking two runs one after the other issues the commands of each in turn. */
  lemma {:induction false} PublishAppend(xs: seq<Aircraft>, ys: seq<Aircraft>, now: U64, record: Aircraft -> string)
    ensures Publish(xs + ys, now, record) == Publish(xs, now, record) + Publish(ys, now, record)
    decreases |ys|
  {
    if ys == [] {
      assert xs + ys == xs;
    } else {
      var init := ys[..|ys| - 1];
      assert (xs + ys)[..|xs + ys| - 1] == xs + init;
      PublishAppend(xs, init, now, record);
      Associate(Publish(xs, now, record), Publish(init, now, record), Batch(ys[|ys| - 1], now, record));
    }
  }

  /** The commands come in pairs, one pair per passing aircraft in walk order: the SET of its
      record under its key, then the EXPIRE of that key after 60 seconds. */
  lemma {:induction false} PublishPairs(aircraft: seq<Aircraft>, now: U64, record: Aircraft -> string)
    ensures |Publish(aircraft, now, record)| == 2 * |Passing(aircraft, now)|
    ensures forall k :: 0 <= k < |Passing(aircraft, now)| ==>
      var a := Passing(aircraft, now)[k];
      Publish(aircraft, now, record)[2 * k] == Set(RedisKey(a), record(a)) &&
      Publish(aircraft, now, record)[2 * k + 1] == Expire(RedisKey(a), ExpireSeconds)
  {
    if aircraft != [] {
      var init, a := aircraft[..|aircraft| - 1], aircraft[|aircraft| - 1];
      PublishPairs(init, now, record);
      var before, ps := Publish(init, now, record), Passing(init, now);
      assert Publish(aircraft, now, record) == before + Batch(a, now, record);
      assert Passing(aircraft, now) == ps + (if Passes(a, now) then [a] else []);
      forall k | 0 <= k < |Passing(aircraft, now)|
        ensures var b := Passing(aircraft, now)[k];
          Publish(aircraft, now, record)[2 * k] == Set(RedisKey(b), record(b)) &&
          Publish(aircraft, now, record)[2 * k + 1] == Expire(RedisKey(b), ExpireSeconds)
      {
        if k < |ps| {
          assert Passing(aircraft, now)[k] == ps[k];
        } else {
          assert Passing(aircraft, now)[k] == a;
        }
      }
    }
  }

  /** A record is stored under a key exactly when some passing aircraft has that key and that
      record: filtered aircraft leave no trace. */
  lemma {:induction false} StoredIff(aircraft: seq<Aircraft>, now: U64, record: Aircraft -> string, key: string, value: string)
    ensures Set(key, value) in Publish(aircraft, now, record) <==>
      exists a :: a in aircraft && Passes(a, now) && key == RedisKey(a) && value == record(a)
  {
    if Set(key, value) in Publish(aircraft, now, record) {
      var a := StoredFrom(aircraft, now, record, key, value);
    }
    if exists a :: a in aircraft && Passes(a, now) && key == RedisKey(a) && value == record(a) {
      var a :| a in aircraft && Passes(a, now) && key == RedisKey(a) && value == record(a);
      StoredEvery(aircraft, now, record, a);
    }
  }

  lemma {:induction false} StoredFrom(aircraft: seq<Aircraft>, now: U64, record: Aircraft -> string,
                                      key: string, value: string)
    returns (a: Aircraft)
    requires Set(key, value) in Publish(aircraft, now, record)
    ensures a in aircraft && Passes(a, now) && key == RedisKey(a) && value == record(a)
  {
    var init, last := aircraft[..|aircraft| - 1], aircraft[|aircraft| - 1];
    if Set(key, value) in Publish(init, now, record) {
      a := StoredFrom(init, now, record, key, value);
    } else {
      assert Set(key, value) in Batch(last, now, record);
      a := last;
    }
  }

  lemma {:induction false} StoredEvery(aircraft: seq<Aircraft>, now: U64, record: Aircraft -> string, a: Aircraft)
    requires a in aircraft && Passes(a, now)
    ensures Set(RedisKey(a), record(a)) in Publish(aircraft, now, record)
  {
    var init, last := aircraft[..|aircraft| - 1], aircraft[|aircraft| - 1];
    assert aircraft == init + [last];
    if a == last {
      assert Set(RedisKey(a), record(a)) in Batch(last, now, record);
    } else {
      assert a in init;
      StoredEvery(init, now, record, a);
    }
  }

  /** Every key that is stored is also given the 60-second expiry, and every expiry is 60
      seconds on a key that was stored. */
  lemma {:induction false} ExpiryIff(aircraft: seq<Aircraft>, now: U64, record: Aircraft -> string, key: string, seconds: int)
    ensures Expire(key, seconds) in Publish(aircraft, now, record) <==>
      seconds == ExpireSeconds && exists a :: a in aircraft && Passes(a, now) && key == RedisKey(a)
  {
    if Expire(key, seconds) in Publish(aircraft, now, record) {
      var a := ExpiryFrom(aircraft, now, record, key, seconds);
    }
    if seconds == ExpireSeconds && exists a :: a in aircraft && Passes(a, now) && key == RedisKey(a) {
      var a :| a in aircraft && Passes(a, now) && key == RedisKey(a);
      ExpiryEvery(aircraft, now, record, a);
    }
  }

  lemma {:induction false} ExpiryFrom(aircraft: seq<Aircraft>, now: U64, record: Aircraft -> string,
                                      key: string, seconds: int)
    returns (a: Aircraft)
    requires Expire(key, seconds) in Publish(aircraft, now, record)
    ensures seconds == ExpireSeconds && a in aircraft && Passes(a, now) && key == RedisKey(a)
  {
    var init, last := aircraft[..|aircraft| - 1], aircraft[|aircraft| - 1];
    if Expire(key, seconds) in Publish(init, now, record) {
      a := ExpiryFrom(init, now, record, key, seconds);
    } else {
      assert Expire(key, seconds) in Batch(last, now, record);
      a := last;
    }
  }

  lemma {:induction false} ExpiryEvery(aircraft: seq<Aircraft>, now: U64, record: Aircraft -> string, a: Aircraft)
    requires a in aircraft && Passes(a, now)
    ensures Expire(RedisKey(a), ExpireSeconds) in Publish(aircraft, now, record)
  {
    var init, last := aircraft[..|aircraft| - 1], aircraft[|aircraft| - 1];
    assert aircraft == init + [last];
    if a == last {
      assert Expire(RedisKey(a), ExpireSeconds) in Batch(last, now, record);
    } else {
      assert a in init;
      ExpiryEvery(init, now, record, a);
    }
  }

  /** The staleness filter on the unsigned difference: an aircraft seen up to `now` passes when
      it was seen at most 90000 ms ago; one whose `seen` lies after `now` wraps around, and
      passes only when `seen` is within 90000 ms of wrapping back to `now`. */
  lemma StalenessRule(a: Aircraft, now: U64)
    ensures a.seen <= now ==> (Passes(a, now) <==> a.messages >= MinMessages && now - a.seen <= StaleAfter)
    ensures now < a.seen ==>
      (Passes(a, now) <==> a.messages >= MinMessages && a.seen - now >= TwoTo64 - StaleAfter)
  {
    if now < a.seen {
      assert Age(now, a.seen) == now - a.seen + TwoTo64;
    }
  }

  lemma Pow16Six()
    ensures Pow16(6) == NonIcaoBit
  {
    assert Pow16(1) == 16;
    assert Pow16(2) == 256;
    assert Pow16(3) == 4096;
    assert Pow16(4) == 65536;
    assert Pow16(5) == 1048576;
  }

  /** The key is the non-ICAO marker and exactly six upper-case hex digits; they are the record's
      lower-case "hex" digits in upper case, and they read back as the 24-bit address. */
  lemma KeyShape(a: Aircraft)
    ensures |RedisKey(a)| == 7
    ensures RedisKey(a)[0] == (if NonIcao(a) then '~' else ' ')
    ensures RedisKey(a)[1..] == UpperAll(Hex(Address24(a), 6, false))
    ensures InCase(RedisKey(a)[1..], true) && ParseHex(RedisKey(a)[1..]) == Address24(a)
  {
    var digits := Hex(Address24(a), 6, true);
    assert RedisKey(a)[1..] == digits;
    Pow16Six();
    HexExactWidth(Address24(a), 6, true);
    UpperOfLowerHex(Address24(a), 6);
    ParseHexOfHex(Address24(a), 6, true);
  }

  /** Two aircraft share a key exactly when their addresses agree on the 24 address bits and the
      non-ICAO bit. */
  lemma KeysDistinguish(a: Aircraft, b: Aircraft)
    ensures RedisKey(a) == RedisKey(b) <==> a.addr % (2 * NonIcaoBit) == b.addr % (2 * NonIcaoBit)
  {
    KeysAgree(a, b);
    AddressSplit(a);
    AddressSplit(b);
    SplitAgree(Address24(a), Address24(b), NonIcao(a), NonIcao(b));
  }

  /** The key is determined by, and determines, the non-ICAO flag and the 24-bit address. */
  lemma KeysAgree(a: Aircraft, b: Aircraft)
    ensures RedisKey(a) == RedisKey(b) <==> NonIcao(a) == NonIcao(b) && Address24(a) == Address24(b)
  {
    KeyShape(a);
    KeyShape(b);
    if RedisKey(a) == RedisKey(b) {
      assert RedisKey(a)[0] == RedisKey(b)[0];
      assert RedisKey(a)[1..] == RedisKey(b)[1..];
    }
  }

  lemma SplitAgree(x: nat, y: nat, f: bool, g: bool)
    requires x < NonIcaoBit && y < NonIcaoBit
    ensures x + (if f then NonIcaoBit else 0) == y + (if g then NonIcaoBit else 0) <==> x == y && f == g
  {
  }

  /** The value is a prefix of the record that fits the buffer with its terminating NUL, and it
      is the whole record when the record fits and holds no NUL. */
  lemma ValueIsRecord(a: Aircraft)
    ensures Value(a) <= RecordText(a) && |Value(a)| < BufLen
    ensures |RecordText(a)| < BufLen && NUL !in RecordText(a) ==> Value(a) == RecordText(a)
  {
    var r := RecordText(a);
    if |r| < BufLen && NUL !in r {
      assert Clamp(r, BufLen) == r;
      CStrWhole(r);
    }
  }

  /** When the record fits, the key and the stored record name the same aircraft: the record
      opens with the "hex" member, whose "~" marker agrees with the key's and whose digits read
      back as the address the key's digits read back as (KeyShape). */
  /** Whatever the record's length and contents, the stored value opens with the "hex" member,
      whose "~" marker agrees with the key's and whose digits read back as the key's address:
      the member is at the head of the record, fits the buffer and holds no NUL. */
  lemma ValueNamesKey(a: Aircraft)
    ensures HexHead(Value(a), RedisKey(a)[0] == '~', Address24(a))
  {
    var t := RecordText(a);
    var nonIcao := NonIcao(a);
    var k := 15 + (if nonIcao then 1 else 0);
    RecordShape(a);
    HexHeadNulFree(t, nonIcao, Address24(a));
    var c := Clamp(t, BufLen);
    assert |c| >= k && c[..k] == t[..k];
    CStrKeeps(c, k);
    HexHeadKept(t, Value(a), nonIcao, Address24(a));
  }

  lemma KeyMatchesRecord(a: Aircraft)
    requires |RecordText(a)| < BufLen && NUL !in RecordText(a)
    ensures OpensWithHex(Value(a), RedisKey(a)[0] == '~', Address24(a))
  {
    ValueIsRecord(a);
    RecordShape(a);
  }
}
