/** Text helpers shared by the list builders: separator-joined and separator-terminated lists. */
module Strings {

  /** The items of `xs` with `sep` between each two consecutive items (never before the first
      nor after the last). */
  function Join(xs: seq<string>, sep: string): (r: string)
    ensures xs == [] ==> r == []
    ensures |xs| == 1 ==> r == xs[0]
  {
    if |xs| == 0 then []
    else if |xs| == 1 then xs[0]
    else Join(xs[..|xs| - 1], sep) + sep + xs[|xs| - 1]
  }

  /** Every item of `xs` followed by `sep`: what a builder produces when it appends
      "item," for each item before removing the final separator. */
  function Suffixed(xs: seq<string>, sep: string): (r: string)
  {
    if xs == [] then [] else Suffixed(xs[..|xs| - 1], sep) + xs[|xs| - 1] + sep
  }

  /** Concatenation regroups freely; stated once so that proofs over long texts can cite it. */
  lemma Associate<T>(x: seq<T>, y: seq<T>, z: seq<T>)
    ensures x + (y + z) == x + y + z
  {
  }

  /** `q` + `name` + `q`. */
  function Quoted(q: string, name: string): (r: string)
  {
    q + name + q
  }

  /** Each item wrapped in `q`, in the same order. */
  function QuoteAll(q: string, xs: seq<string>): (r: seq<string>)
    ensures |r| == |xs|
  {
    if xs == [] then [] else QuoteAll(q, xs[..|xs| - 1]) + [Quoted(q, xs[|xs| - 1])]
  }

  lemma {:induction false} QuoteAllIndex(q: string, xs: seq<string>, k: nat)
    requires k < |xs|
    ensures QuoteAll(q, xs)[k] == Quoted(q, xs[k])
    decreases |xs|
  {
    if k < |xs| - 1 {
      QuoteAllIndex(q, xs[..|xs| - 1], k);
    }
  }

  /** Number of occurrences of `c` in `s`. */
  function Count(s: string, c: char): (n: nat)
    ensures n <= |s|
    ensures c !in s ==> n == 0
  {
    if s == [] then 0 else Count(s[..|s| - 1], c) + (if s[|s| - 1] == c then 1 else 0)
  }

  lemma {:induction false} CountAppend(s: string, t: string, c: char)
    ensures Count(s + t, c) == Count(s, c) + Count(t, c)
    decreases |t|
  {
    if t == [] {
      assert s + t == s;
    } else {
      assert (s + t)[..|s + t| - 1] == s + t[..|t| - 1];
      CountAppend(s, t[..|t| - 1], c);
    }
  }

  /** A joined list begins with its first item. */
  lemma {:induction false} JoinStarts(xs: seq<string>, sep: string)
    requires xs != []
    ensures xs[0] <= Join(xs, sep)
    decreases |xs|
  {
    if |xs| > 1 {
      JoinStarts(xs[..|xs| - 1], sep);
    }
  }

  /** Appending one more item to a non-empty list adds exactly one separator. */
  lemma JoinSnoc(xs: seq<string>, x: string, sep: string)
    requires xs != []
    ensures Join(xs + [x], sep) == Join(xs, sep) + sep + x
  {
    assert (xs + [x])[..|xs|] == xs;
  }

  lemma SuffixedSnoc(xs: seq<string>, x: string, sep: string)
    ensures Suffixed(xs + [x], sep) == Suffixed(xs, sep) + x + sep
  {
    assert (xs + [x])[..|xs|] == xs;
  }

  /** Terminating every item with `sep` is joining them and adding one trailing `sep`:
      so dropping the last character of a non-empty terminated list yields the joined list. */
  lemma {:induction false} SuffixedIsJoinPlusSep(xs: seq<string>, sep: string)
    requires xs != []
    ensures Suffixed(xs, sep) == Join(xs, sep) + sep
    decreases |xs|
  {
    var init := xs[..|xs| - 1];
    if init == [] {
      assert Suffixed(init, sep) == [];
    } else {
      SuffixedIsJoinPlusSep(init, sep);
    }
  }

  lemma {:induction false} SuffixedAppend(xs: seq<string>, ys: seq<string>, sep: string)
    ensures Suffixed(xs + ys, sep) == Suffixed(xs, sep) + Suffixed(ys, sep)
    decreases |ys|
  {
    if ys == [] {
      assert xs + ys == xs;
    } else {
      var init := ys[..|ys| - 1];
      assert xs + ys == (xs + init) + [ys[|ys| - 1]];
      SuffixedSnoc(xs + init, ys[|ys| - 1], sep);
      SuffixedAppend(xs, init, sep);
      SuffixedSnoc(init, ys[|ys| - 1], sep);
    }
  }

  lemma {:induction false} QuoteAllAppend(q: string, xs: seq<string>, ys: seq<string>)
    ensures QuoteAll(q, xs + ys) == QuoteAll(q, xs) + QuoteAll(q, ys)
    decreases |ys|
  {
    if ys == [] {
      assert xs + ys == xs;
    } else {
      var init := ys[..|ys| - 1];
      assert (xs + ys)[..|xs + ys| - 1] == xs + init;
      QuoteAllAppend(q, xs, init);
    }
  }

  /** A list of k items, none containing the one-character separator, holds exactly k - 1
      separators: separators stand only between items. */
  lemma {:induction false} JoinSeparatorCount(xs: seq<string>, c: char)
    requires xs != []
    requires forall i :: 0 <= i < |xs| ==> c !in xs[i]
    ensures Count(Join(xs, [c]), c) == |xs| - 1
    decreases |xs|
  {
    if |xs| > 1 {
      var init := xs[..|xs| - 1];
      JoinSeparatorCount(init, c);
      CountAppend(Join(init, [c]) + [c], xs[|xs| - 1], c);
      CountAppend(Join(init, [c]), [c], c);
      assert Count([c], c) == 1 by {
        assert [c][..0] == [];
      }
    }
  }
}
