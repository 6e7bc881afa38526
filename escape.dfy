/** The string escaper of redis.c (`jsonEscapeString`): a C string is rendered into a static
    1024-byte scratch buffer so that it can stand between double quotes in the record. */
module JsonEscape {
  import opened Strings
  import opened Cursor
  import opened HexFormat

  /** A C `char` as the escaper reads it (`unsigned char ch = *in`). */
  type Byte = c: char | c as int < 256

  /** sizeof(buf) of the static scratch buffer. */
  const ScratchSize: nat := 1024
  /** Writing stops once the output reaches buf + sizeof(buf) - 10. */
  const EscapeLimit: nat := ScratchSize - 10

  /** The bytes the escaper renders as `\u%04x`: below 32 or above 127 (127 itself passes). */
  predicate NeedsUnicode(c: Byte)
  {
    (c as int) < 32 || (c as int) > 127
  }

  /** The escape of one byte: `"` and `\` get a backslash, bytes below 32 or above 127 become
      `\u` and four lower-case hex digits of the byte, every other byte is copied. */
  function EscapeChar(c: Byte): (r: string)
    ensures NUL !in r
    ensures |r| == if c == '"' || c == '\\' then 2 else if NeedsUnicode(c) then 6 else 1
  {
    if c == '"' || c == '\\' then ['\\', c]
    else if NeedsUnicode(c) then
      assert Pow16(4) == 65536;
      HexExactWidth(c as int, 4, false);
      "\\u" + Hex(c as int, 4, false)
    else [c]
  }

  /** What each escape looks like: a backslash and the byte, `\u` and four lower-case hex
      digits that read back as the byte, or the byte itself. */
  lemma EscapeCharShape(c: Byte)
    ensures (c == '"' || c == '\\') ==> EscapeChar(c) == ['\\', c]
    ensures !(c == '"' || c == '\\') && NeedsUnicode(c) ==>
      var r := EscapeChar(c);
      r[..2] == "\\u" && InCase(r[2..], false) && ParseHex(r[2..]) == c as int
    ensures !(c == '"' || c == '\\') && !NeedsUnicode(c) ==> EscapeChar(c) == [c]
  {
    if !(c == '"' || c == '\\') && NeedsUnicode(c) {
      assert Pow16(4) == 65536;
      HexExactWidth(c as int, 4, false);
      ParseHexOfHex(c as int, 4, false);
      var h := Hex(c as int, 4, false);
      assert ("\\u" + h)[2..] == h;
    }
  }

  /** The escape of every byte, in input order, with no cap. */
  function EscapeAll(s: seq<Byte>): (r: string)
    ensures NUL !in r
  {
    if s == [] then [] else EscapeChar(s[0]) + EscapeAll(s[1..])
  }

  /** The input as the escaper's loop reads it: up to the first NUL. */
  function Input(s: seq<Byte>): (r: seq<Byte>)
    ensures r <= s && NUL !in r
    ensures |r| < |s| ==> s[|r|] == NUL
  {
    if s == [] || s[0] == NUL then [] else [s[0]] + Input(s[1..])
  }

  /** What the escaping loop writes, as a C string, when it resumes at input `s` with the output
      cursor at `out`: it stops at the input's NUL or once `out` reaches EscapeLimit. A `\u`
      escape that does not fit before EscapeLimit is cut short by safe_snprintf, which writes
      what fits and a NUL at EscapeLimit - 1, and moves the cursor past EscapeLimit. */
  function EscapeFrom(s: seq<Byte>, out: nat): (r: string)
    requires out <= EscapeLimit + 1
    ensures out + |r| <= EscapeLimit + 1
    ensures NUL !in r
    decreases |s|
  {
    if s == [] || s[0] == NUL || out >= EscapeLimit then []
    else if !Fits(s[0], out) then
      EscapeChar(s[0])[..EscapeLimit - out - 1]
    else EscapeChar(s[0]) + EscapeFrom(s[1..], out + |EscapeChar(s[0])|)
  }

  /** One step of the escaping loop that writes the next byte's whole escape: after the output
      `done`, that escape is followed by the output of the rest of the input. */
  lemma EscapeStepWhole(s: seq<Byte>, i: nat, out: nat, done: string, whole: string, next: nat)
    requires i < |s| && s[i] != NUL && out < EscapeLimit && Fits(s[i], out)
    requires done + EscapeFrom(s[i..], out) == whole
    requires next == out + |EscapeChar(s[i])|
    ensures next <= EscapeLimit + 1
    ensures (done + EscapeChar(s[i])) + EscapeFrom(s[i + 1..], next) == whole
  {
    var t, e := s[i..], EscapeChar(s[i]);
    assert t[0] == s[i] && t[1..] == s[i + 1..];
    EscapeFromWhole(t, out);
    Associate(done, e, EscapeFrom(s[i + 1..], next));
  }

  /** The step where a `\u` escape does not fit: it is cut short and ends the output. */
  lemma EscapeStepCut(s: seq<Byte>, i: nat, out: nat, done: string, whole: string)
    requires i < |s| && s[i] != NUL && out < EscapeLimit
    requires !Fits(s[i], out)
    requires done + EscapeFrom(s[i..], out) == whole
    ensures done + EscapeChar(s[i])[..EscapeLimit - out - 1] == whole
  {
    var t := s[i..];
    assert t[0] == s[i];
    EscapeFromCut(t, out);
  }

  /** Whether the escape of `c` written at `out` lands whole: only a `\\u` escape can be cut. */
  predicate Fits(c: Byte, out: nat)
  {
    !(NeedsUnicode(c) && !(c == '"' || c == '\\') && out + 6 >= EscapeLimit)
  }

  /** The loop has nothing left to write once the input is exhausted, reaches its NUL, or the
      cursor has reached EscapeLimit. */
  lemma EscapeFromEnded(s: seq<Byte>, i: nat, out: nat)
    requires i <= |s| && out <= EscapeLimit + 1
    requires !(i < |s| && s[i] != NUL && out < EscapeLimit)
    ensures EscapeFrom(s[i..], out) == []
  {
    if i < |s| {
      assert s[i..][0] == s[i];
    }
  }

  /** The string jsonEscapeString returns. */
  function JsonEscaped(s: seq<Byte>): (r: string)
    ensures |r| <= EscapeLimit + 1
    ensures NUL !in r
  {
    EscapeFrom(s, 0)
  }

  /** The escaped output is always a prefix of the uncapped escape of the input: what is written
      is written in input order, and the cap only drops a tail. */
  lemma {:induction false} EscapeFromIsPrefix(s: seq<Byte>, out: nat)
    requires out <= EscapeLimit + 1
    ensures EscapeFrom(s, out) <= EscapeAll(Input(s))
    decreases |s|
  {
    if !(s == [] || s[0] == NUL || out >= EscapeLimit) {
      var e, rest := EscapeChar(s[0]), EscapeAll(Input(s[1..]));
      EscapeAllHead(s);
      if Fits(s[0], out) {
        var next := out + |e|;
        EscapeFromWhole(s, out);
        EscapeFromIsPrefix(s[1..], next);
        PrefixExtend(e, EscapeFrom(s[1..], next), rest);
      } else {
        EscapeFromCut(s, out);
        CutPrefix(e, EscapeLimit - out - 1, rest);
      }
    }
  }

  /** The uncapped escape of an input that does not start with its NUL: the first byte's escape,
      then the escape of the rest. */
  lemma EscapeAllHead(s: seq<Byte>)
    requires s != [] && s[0] != NUL
    ensures EscapeAll(Input(s)) == EscapeChar(s[0]) + EscapeAll(Input(s[1..]))
  {
    assert Input(s) == [s[0]] + Input(s[1..]);
    assert ([s[0]] + Input(s[1..]))[1..] == Input(s[1..]);
  }

  /** A byte whose escape fits is written whole, and the loop goes on after it. */
  lemma EscapeFromWhole(s: seq<Byte>, out: nat)
    requires s != [] && s[0] != NUL && out < EscapeLimit && Fits(s[0], out)
    ensures out + |EscapeChar(s[0])| <= EscapeLimit + 1
    ensures EscapeFrom(s, out) == EscapeChar(s[0]) + EscapeFrom(s[1..], out + |EscapeChar(s[0])|)
  {
  }

  /** A `\u` escape that does not fit is cut short and ends the output. */
  lemma EscapeFromCut(s: seq<Byte>, out: nat)
    requires s != [] && s[0] != NUL && out < EscapeLimit && !Fits(s[0], out)
    ensures EscapeFrom(s, out) == EscapeChar(s[0])[..EscapeLimit - out - 1]
  {
  }

  lemma PrefixExtend(e: string, x: string, y: string)
    requires x <= y
    ensures e + x <= e + y
  {
    assert (e + y)[..|e + x|] == e + x;
  }

  lemma CutPrefix(e: string, k: nat, rest: string)
    requires k <= |e|
    ensures e[..k] <= e + rest
  {
    assert (e + rest)[..k] == e[..k];
  }

  lemma {:induction false} EscapeFromUncapped(s: seq<Byte>, out: nat)
    requires out + |EscapeAll(Input(s))| < EscapeLimit
    ensures EscapeFrom(s, out) == EscapeAll(Input(s))
    decreases |s|
  {
    if s != [] && s[0] != NUL {
      assert Input(s) == [s[0]] + Input(s[1..]);
      assert ([s[0]] + Input(s[1..]))[1..] == Input(s[1..]);
      EscapeFromUncapped(s[1..], out + |EscapeChar(s[0])|);
    }
  }

  /** When the whole escape fits before the cap, nothing is dropped. */
  lemma EscapeUncapped(s: seq<Byte>)
    requires |EscapeAll(Input(s))| < EscapeLimit
    ensures JsonEscaped(s) == EscapeAll(Input(s))
  {
    EscapeFromUncapped(s, 0);
  }

  /** Reads an escaped string back: `\"` and `\\` give the escaped character, `\u` and four hex
      digits of a value below 256 give that byte, anything else is taken as it is. */
  function Unescape(t: string): (r: string)
    decreases |t|
  {
    if t == [] then []
    else if |t| >= 2 && t[0] == '\\' && (t[1] == '"' || t[1] == '\\') then [t[1]] + Unescape(t[2..])
    else if |t| >= 6 && t[0] == '\\' && t[1] == 'u' && AllHex(t[2..6]) && ParseHex(t[2..6]) < 256 then
      [ParseHex(t[2..6]) as char] + Unescape(t[6..])
    else [t[0]] + Unescape(t[1..])
  }

  /** Escaping loses nothing: unescaping the escape of any byte string gives it back. */
  lemma {:induction false} UnescapeEscapeAll(s: seq<Byte>)
    ensures Unescape(EscapeAll(s)) == s
    decreases |s|
  {
    if s != [] {
      UnescapeEscapeAll(s[1..]);
      UnescapeStep(s[0], EscapeAll(s[1..]));
      assert s == [s[0]] + s[1..];
    }
  }

  /** Unescaping reads one byte's escape back as that byte and goes on with what follows. */
  lemma UnescapeStep(c: Byte, rest: string)
    ensures Unescape(EscapeChar(c) + rest) == [c] + Unescape(rest)
  {
    var e := EscapeChar(c);
    var t := e + rest;
    EscapeCharShape(c);
    if c == '"' || c == '\\' {
      assert t[2..] == rest;
    } else if NeedsUnicode(c) {
      assert t[2..6] == e[2..];
      assert t[6..] == rest;
    } else {
      assert t[1..] == rest;
    }
  }

  /** For an input whose escape fits, the escaper's output reads back as the input up to its NUL. */
  lemma JsonEscapedRoundTrip(s: seq<Byte>)
    requires |EscapeAll(Input(s))| < EscapeLimit
    ensures Unescape(JsonEscaped(s)) == Input(s)
  {
    EscapeUncapped(s);
    UnescapeEscapeAll(Input(s));
  }

  /** What safe_snprintf leaves in the scratch buffer after a `\u` escape written at `before`:
      the whole escape when it fits before EscapeLimit, otherwise the part that fits and a NUL. */
  lemma UnicodeWritten(prior: seq<char>, now: seq<char>, before: nat, e: string, done: string)
    requires EscapeLimit <= |prior| && |e| == 6
    requires now == Appended(prior, before, EscapeLimit, e)
    requires before < EscapeLimit && |done| == before && prior[..before] == done
    ensures before + 6 < EscapeLimit ==> now[..before + 6] == done + e
    ensures before + 6 >= EscapeLimit ==>
      now[..EscapeLimit - 1] == done + e[..EscapeLimit - before - 1] && now[EscapeLimit - 1] == NUL
  {
    assert now[..before] == done;
    if before + 6 < EscapeLimit {
      assert now[..before + 6] == now[..before] + now[before..before + 6];
    } else {
      assert now[..EscapeLimit - 1] == now[..before] + now[before..EscapeLimit - 1];
    }
  }

  /** A buffer holding `done` and then a terminator reads back as `done`. */
  lemma ReadsBackAsWritten(b: seq<char>, done: string)
    requires |done| < |b| && b[..|done|] == done && b[|done|] == NUL && NUL !in done
    ensures CStr(b) == done
  {
    assert b == done + [NUL] + b[|done| + 1..];
    CStrStopsAtNul(done, b[|done| + 1..]);
  }

  /** The static scratch buffer of jsonEscapeString. */
  class JsonEscaper {
    const buf: array<char>

    constructor ()
      ensures buf.Length == ScratchSize && fresh(buf)
    {
      buf := new char[ScratchSize];
    }

    /** One `*out++ = c` of the escaping loop: a store with no bound check. */
    method StoreChar(out: nat, c: char, ghost done: string) returns (next: nat)
      requires out < buf.Length && buf[..out] == done
      modifies buf
      ensures next == out + 1 && buf[..next] == done + [c]
      ensures buf[next..] == old(buf[next..])
    {
      buf[out] := c;
      next := out + 1;
    }

    /** The `\\u%04x` branch of the escaping loop: a bounded append of the byte's escape, which
        stops one short of EscapeLimit and terminates there when the escape does not fit. */
    method PutUnicode(out: nat, ch: Byte, ghost done: string) returns (next: nat)
      requires buf.Length == ScratchSize && out < EscapeLimit && |done| == out && buf[..out] == done
      requires NeedsUnicode(ch) && !(ch == '"' || ch == '\\')
      modifies buf
      ensures next == out + 6
      ensures out + 6 < EscapeLimit ==> buf[..next] == done + EscapeChar(ch)
      ensures out + 6 >= EscapeLimit ==>
        buf[..EscapeLimit - 1] == done + EscapeChar(ch)[..EscapeLimit - out - 1] && buf[EscapeLimit - 1] == NUL
      ensures out + 6 < EscapeLimit ==> buf[next] == NUL && buf[next + 1..] == old(buf[next + 1..])
      ensures buf[EscapeLimit..] == old(buf[EscapeLimit..])
    {
      ghost var prior := buf[..];
      next := SafeSnprintf(buf, out, EscapeLimit, "\\u" + Hex(ch as int, 4, false));
      UnicodeWritten(prior, buf[..], out, EscapeChar(ch), done);
    }

    /** One pass of the escaping loop's body: the byte's escape is written at `out`, the two-
        character and one-character escapes by direct stores, the `\\u` escape by a bounded
        append that is cut short and terminated when it does not fit. */
    method EscapeByte(out: nat, ch: Byte, ghost done: string) returns (next: nat)
      requires buf.Length == ScratchSize && out < EscapeLimit && |done| == out && buf[..out] == done
      modifies buf
      ensures next == out + |EscapeChar(ch)|
      ensures Fits(ch, out) ==> buf[..next] == done + EscapeChar(ch)
      ensures !Fits(ch, out) ==>
        buf[..EscapeLimit - 1] == done + EscapeChar(ch)[..EscapeLimit - out - 1] && buf[EscapeLimit - 1] == NUL
      ensures !NeedsUnicode(ch) ==> buf[next..] == old(buf[next..])
      ensures NeedsUnicode(ch) && Fits(ch, out) ==> buf[next] == NUL && buf[next + 1..] == old(buf[next + 1..])
      ensures !Fits(ch, out) ==> buf[EscapeLimit..] == old(buf[EscapeLimit..])
    {
      if ch == '"' || ch == '\\' {
        next := StoreChar(out, '\\', done);
        next := StoreChar(next, ch, done + ['\\']);
      } else if (ch as int) < 32 || (ch as int) > 127 {
        next := PutUnicode(out, ch, done);
      } else {
        next := StoreChar(out, ch, done);
      }
    }

    /** One pass of the escaping loop over input byte `i`, with the output so far `done` a prefix
        of the returned string `whole`: either the byte's whole escape is written and the rest
        of the input still yields the rest of `whole`, or the escape is cut short, terminated,
        and `whole` is complete. */
    method EscapeStep(str: seq<Byte>, i: nat, out: nat, ghost done: string, ghost whole: string)
      returns (next: nat, ghost written: string, ghost cut: bool)
      requires buf.Length == ScratchSize && i < |str| && str[i] != NUL && out < EscapeLimit
      requires out == |done| && buf[..out] == done && NUL !in done
      requires done + EscapeFrom(str[i..], out) == whole
      modifies buf
      ensures next <= EscapeLimit + 5 && |written| < buf.Length
      ensures buf[..|written|] == written && NUL !in written
      ensures !cut ==>
        next == |written| && next <= EscapeLimit + 1 && written + EscapeFrom(str[i + 1..], next) == whole
      ensures cut ==>
        next >= EscapeLimit && |written| == EscapeLimit - 1 && written == whole && buf[|written|] == NUL
    {
      var ch := str[i];
      next := EscapeByte(out, ch, done);
      if Fits(ch, out) {
        EscapeStepWhole(str, i, out, done, whole, next);
        written, cut := done + EscapeChar(ch), false;
      } else {
        EscapeStepCut(str, i, out, done, whole);
        written, cut := done + EscapeChar(ch)[..EscapeLimit - out - 1], true;
      }
    }

    /** jsonEscapeString: escapes `str` into the scratch buffer and returns the C string the
        buffer then holds. Every write, including the final terminator, lands inside the buffer. */
    method Escape(str: seq<Byte>) returns (r: string)
      requires buf.Length == ScratchSize
      modifies buf
      ensures r == JsonEscaped(str)
      ensures r == CStr(buf[..])
    {
      var i := 0;
      var out := 0;
      ghost var done: string := [];
      ghost var cut := false;
      ghost var whole := JsonEscaped(str);
      assert str[0..] == str;
      while i < |str| && str[i] != NUL && out < EscapeLimit
        invariant 0 <= i <= |str|
        invariant out <= EscapeLimit + 5
        invariant |done| <= out && |done| < buf.Length
        invariant buf[..|done|] == done && NUL !in done
        invariant !cut ==> out == |done| && out <= EscapeLimit + 1 && done + EscapeFrom(str[i..], out) == whole
        invariant cut ==> out >= EscapeLimit && |done| == EscapeLimit - 1 && done == whole && buf[|done|] == NUL
        decreases |str| - i
      {
        out, done, cut := EscapeStep(str, i, out, done, whole);
        i := i + 1;
      }
      if !cut {
        EscapeFromEnded(str, i, out);
      }
      ghost var kept := buf[..|done| + 1];
      buf[out] := NUL;
      assert buf[..|done|] == kept[..|done|];
      ReadsBackAsWritten(buf[..], done);
      r := CStr(buf[..]);
    }
  }
}
