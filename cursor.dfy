/** The bounded append cursor of redis.c (`safe_snprintf`): formatted text is written at offset
    `p` of a caller's buffer, never at or past `end`, and the returned cursor always moves by the
    full length of the text. The text is given already formatted. */
module Cursor {

  const NUL: char := '\0'

  function Min(a: int, b: int): int { if a <= b then a else b }

  /** The buffer after vsnprintf(p < end ? p : NULL, p < end ? end - p : 0, ...) has produced `s`:
      at most end - p - 1 characters of `s` and a NUL after them, and nothing at all once p >= end. */
  function Appended(b: seq<char>, p: nat, end: nat, s: string): (r: seq<char>)
    requires end <= |b|
    ensures |r| == |b|
    ensures forall i :: 0 <= i < |b| && (i < p || end <= i) ==> r[i] == b[i]
    ensures end <= p ==> r == b
    ensures p + |s| < end ==> r[p..p + |s|] == s && r[p + |s|] == NUL
    ensures p < end <= p + |s| ==> r[p..end - 1] == s[..end - 1 - p] && r[end - 1] == NUL
    ensures forall i :: p + |s| < i < |b| ==> r[i] == b[i]
  {
    if p < end then
      var n := Min(|s|, end - p - 1);
      b[..p] + s[..n] + [NUL] + b[p + n + 1..]
    else b
  }

  /** safe_snprintf: writes `s` at `p` as far as it fits before `end`, and returns `p + |s|`. */
  method SafeSnprintf(buf: array<char>, p: nat, end: nat, s: string) returns (q: nat)
    requires end <= buf.Length
    modifies buf
    ensures buf[..] == Appended(old(buf[..]), p, end, s)
    ensures q == p + |s|
  {
    if p < end {
      var n := Min(|s|, end - p - 1);
      var i := 0;
      while i < n
        invariant 0 <= i <= n
        invariant forall k :: 0 <= k < buf.Length && !(p <= k < p + i) ==> buf[k] == old(buf[k])
        invariant forall k :: 0 <= k < i ==> buf[p + k] == s[k]
      {
        buf[p + i] := s[i];
        i := i + 1;
      }
      buf[p + n] := NUL;
      ghost var want := Appended(old(buf[..]), p, end, s);
      assert forall k :: 0 <= k < buf.Length ==> buf[..][k] == want[k];
    }
    q := p + |s|;
  }

  /** How many characters of the logical text `text` are kept by a buffer that ends at `end`. */
  function Visible(text: string, end: nat): (v: nat)
    ensures end > 0 ==> v < end && v <= |text|
    ensures end > 0 && |text| < end ==> v == |text|
  {
    if end == 0 then 0 else Min(|text|, end - 1)
  }

  /** The part of the logical text that the buffer keeps. */
  function Clamp(text: string, end: nat): (r: string)
    ensures r <= text
    ensures end > 0 ==> |r| < end
    ensures end > 0 && |text| < end ==> r == text
  {
    text[..Visible(text, end)]
  }

  /** Cursor invariant: after the appends whose concatenation is `text` (the cursor being |text|),
      the buffer begins with the kept part of `text`, and once the text has reached `end` the
      last writable byte holds the terminator. */
  ghost predicate Holds(b: seq<char>, text: string, end: nat)
  {
    end <= |b| &&
    b[..Visible(text, end)] == Clamp(text, end) &&
    (0 < end <= |text| ==> b[end - 1] == NUL)
  }

  /** The kept text is NUL-terminated inside the buffer. */
  ghost predicate Terminated(b: seq<char>, text: string, end: nat)
    requires end <= |b|
  {
    end > 0 ==> b[Visible(text, end)] == NUL
  }

  /** Appending keeps the invariant for the longer text and terminates it, whether or not `s`
      fits: repeated appends past the end leave memory and the kept text unchanged. */
  lemma AppendKeeps(b: seq<char>, text: string, end: nat, s: string)
    requires Holds(b, text, end)
    ensures Holds(Appended(b, |text|, end, s), text + s, end)
    ensures Terminated(Appended(b, |text|, end, s), text + s, end)
  {
    var r := Appended(b, |text|, end, s);
    var p := |text|;
    if end > 0 {
      var v := Visible(text + s, end);
      if p < end {
        assert forall i :: 0 <= i < v ==> r[i] == (text + s)[i] by {
          forall i | 0 <= i < v ensures r[i] == (text + s)[i] {
            if i < p {
              assert r[i] == b[i] == b[..Visible(text, end)][i];
            } else if p + |s| < end {
              assert r[p..p + |s|][i - p] == s[i - p];
            } else {
              assert r[p..end - 1][i - p] == s[..end - 1 - p][i - p];
            }
          }
        }
        assert r[..v] == (text + s)[..v];
      } else {
        assert v == end - 1 == Visible(text, end);
        assert r[..v] == b[..v] == text[..v] == (text + s)[..v];
      }
    }
  }

  /** Stepping the cursor back by one (append_flags' `--p`) keeps the invariant for the shorter text. */
  lemma StepBackKeeps(b: seq<char>, text: string, end: nat)
    requires Holds(b, text, end) && |text| > 0
    ensures Holds(b, text[..|text| - 1], end)
  {
    var shorter := text[..|text| - 1];
    var v := Visible(shorter, end);
    assert v <= Visible(text, end);
    assert b[..v] == b[..Visible(text, end)][..v];
    assert shorter[..v] == text[..v];
  }

  /** The text a reader of the buffer sees: everything before the first NUL (a C string). */
  function CStr(b: seq<char>): (r: string)
    ensures NUL !in r
    ensures r <= b
    ensures |r| < |b| ==> b[|r|] == NUL
  {
    if b == [] || b[0] == NUL then [] else [b[0]] + CStr(b[1..])
  }

  /** A C-string read keeps every character before the first NUL. */
  lemma CStrKeeps(b: seq<char>, k: nat)
    requires k <= |b| && NUL !in b[..k]
    ensures |CStr(b)| >= k && CStr(b)[..k] == b[..k]
  {
  }

  lemma {:induction false} CStrStopsAtNul(x: string, y: seq<char>)
    ensures CStr(x + [NUL] + y) == CStr(x)
    decreases |x|
  {
    if x == [] {
      assert (x + [NUL] + y)[0] == NUL;
    } else {
      assert (x + [NUL] + y)[1..] == x[1..] + [NUL] + y;
      CStrStopsAtNul(x[1..], y);
    }
  }

  /** A text without NUL reads back whole. */
  lemma CStrWhole(b: seq<char>)
    requires NUL !in b
    ensures CStr(b) == b
  {
  }

  /** What a reader of a terminated buffer sees is determined by the logical text alone. */
  lemma BufferReadsAsText(b: seq<char>, text: string, end: nat)
    requires Holds(b, text, end) && end > 0 && Terminated(b, text, end)
    ensures CStr(b) == CStr(Clamp(text, end))
  {
    var v := Visible(text, end);
    assert b == b[..v] + [NUL] + b[v + 1..];
    CStrStopsAtNul(b[..v], b[v + 1..]);
  }

  /** One append of the record builders: safe_snprintf with the cursor invariant carried along. */
  method Emit(buf: array<char>, p: nat, end: nat, s: string, ghost text: string) returns (q: nat)
    requires Holds(buf[..], text, end) && p == |text|
    modifies buf
    ensures Holds(buf[..], text + s, end) && Terminated(buf[..], text + s, end)
    ensures q == |text + s|
    ensures buf[end..] == old(buf[end..])
  {
    AppendKeeps(buf[..], text, end, s);
    q := SafeSnprintf(buf, p, end, s);
  }
}
