/** nav_modes_names and append_nav_modes of redis.c: the names of the autopilot modes whose bits
    are set, in table order, each wrapped in a quote string and separated by a separator string. */
module NavModeLists {
  import opened Strings
  import opened Cursor
  import opened Bits

  /** One row of nav_modes_names: a nav_modes_t bit and its name. */
  datatype NavModeName = NavModeName(flag: bv32, name: string)

  /** nav_modes_names without its {0, NULL} sentinel; the bits are NAV_MODE_AUTOPILOT through
      NAV_MODE_TCAS of readsb.h (not part of this model). */
  const NavModeTable: seq<NavModeName> := [
    NavModeName(1, "autopilot"),
    NavModeName(2, "vnav"),
    NavModeName(4, "althold"),
    NavModeName(8, "approach"),
    NavModeName(16, "lnav"),
    NavModeName(32, "tcas")
  ]

  /** The bits the table knows. */
  const KnownModes: bv32 := 63

  /** Whether the row's bit is set in `flags` (`flags & nav_modes_names[i].flag`). */
  predicate IsSet(flags: bv32, row: NavModeName)
  {
    flags & row.flag != 0
  }

  /** The names of the rows of `table` whose bit is set in `flags`, in table order. */
  function SetNames(flags: bv32, table: seq<NavModeName>): (r: seq<string>)
    ensures |r| <= |table|
  {
    if table == [] then []
    else
      var row := table[|table| - 1];
      SetNames(flags, table[..|table| - 1]) + (if IsSet(flags, row) then [row.name] else [])
  }

  /** The mode names append_nav_modes writes for `flags`. */
  function ModeNames(flags: bv32): (r: seq<string>)
  {
    SetNames(flags, NavModeTable)
  }

  /** The text append_nav_modes appends: each name as quote + name + quote, with `sep` between
      consecutive names only. */
  function NavModesText(flags: bv32, quote: string, sep: string): (r: string)
    ensures ModeNames(flags) == [] ==> r == []
    ensures ModeNames(flags) != [] ==> Quoted(quote, ModeNames(flags)[0]) <= r
  {
    var quoted := QuoteAll(quote, ModeNames(flags));
    if quoted == [] then Join(quoted, sep)
    else
      JoinStarts(quoted, sep);
      QuoteAllIndex(quote, ModeNames(flags), 0);
      Join(quoted, sep)
  }

  /** nav_modes_names: six rows with distinct names, each flag a nonzero bit of the known modes,
      no two flags sharing a bit. */
  lemma NavModeTableRows()
    ensures |NavModeTable| == 6
    ensures forall i | 0 <= i < |NavModeTable| :: NavModeTable[i].flag != 0 && NavModeTable[i].flag & KnownModes == NavModeTable[i].flag
    ensures forall i, j | 0 <= i < j < |NavModeTable| ::
      NavModeTable[i].flag & NavModeTable[j].flag == 0 && NavModeTable[i].name != NavModeTable[j].name
  {
    forall i, j | 0 <= i < j < |NavModeTable|
      ensures NavModeTable[i].flag & NavModeTable[j].flag == 0
    {
      assert NavModeTable[i].flag == 1 << i && NavModeTable[j].flag == 1 << j;
    }
  }

  /** append_nav_modes: walks nav_modes_names and appends the quoted names of the set modes. */
  method AppendNavModes(buf: array<char>, p: nat, end: nat, flags: bv32, quote: string, sep: string,
                        ghost text: string) returns (q: nat)
    requires Holds(buf[..], text, end) && p == |text|
    modifies buf
    ensures buf[end..] == old(buf[end..])
    ensures Holds(buf[..], text + NavModesText(flags, quote, sep), end)
    ensures q == |text + NavModesText(flags, quote, sep)|
  {
    q := AppendSetNames(buf, p, end, flags, NavModeTable, quote, sep, text);
  }

  /** The walk of append_nav_modes over any table: for each row whose bit is set, the separator
      unless this is the first name written, then the quoted name. */
  method AppendSetNames(buf: array<char>, p: nat, end: nat, flags: bv32, table: seq<NavModeName>,
                        quote: string, sep: string, ghost text: string) returns (q: nat)
    requires Holds(buf[..], text, end) && p == |text|
    modifies buf
    ensures buf[end..] == old(buf[end..])
    ensures Holds(buf[..], text + Join(QuoteAll(quote, SetNames(flags, table)), sep), end)
    ensures q == |text + Join(QuoteAll(quote, SetNames(flags, table)), sep)|
  {
    var first := true;
    q := p;
    var i := 0;
    assert table[..0] == [];
    while i < |table|
      invariant 0 <= i <= |table|
      invariant first <==> SetNames(flags, table[..i]) == []
      invariant Holds(buf[..], Walked(flags, table, i, quote, sep, text), end)
      invariant q == |Walked(flags, table, i, quote, sep, text)|
      invariant buf[end..] == old(buf[end..])
    {
      q, first := WalkRow(buf, q, end, flags, table, i, quote, sep, first, text);
      i := i + 1;
    }
    assert table[..i] == table;
  }

  /** The text after the walk has passed the first `i` rows of `table`. */
  function Walked(flags: bv32, table: seq<NavModeName>, i: nat, quote: string, sep: string, text: string): string
    requires i <= |table|
  {
    text + Join(QuoteAll(quote, SetNames(flags, table[..i])), sep)
  }

  /** One pass of the walk, over row `i`: what the rows before it wrote is extended to what the
      rows up to and including it write. */
  method WalkRow(buf: array<char>, p: nat, end: nat, flags: bv32, table: seq<NavModeName>, i: nat,
                 quote: string, sep: string, first: bool, ghost text: string) returns (q: nat, stillFirst: bool)
    requires i < |table|
    requires first <==> SetNames(flags, table[..i]) == []
    requires Holds(buf[..], Walked(flags, table, i, quote, sep, text), end)
    requires p == |Walked(flags, table, i, quote, sep, text)|
    modifies buf
    ensures stillFirst <==> SetNames(flags, table[..i + 1]) == []
    ensures Holds(buf[..], Walked(flags, table, i + 1, quote, sep, text), end)
    ensures q == |Walked(flags, table, i + 1, quote, sep, text)|
    ensures buf[end..] == old(buf[end..])
  {
    SetNamesStep(flags, table, i);
    q, stillFirst := AppendRow(buf, p, end, flags, table[i], quote, sep, first, SetNames(flags, table[..i]), text);
  }

  /** One row of the walk: when its bit is set, the separator unless no name was written yet,
      then the quoted name. */
  method AppendRow(buf: array<char>, p: nat, end: nat, flags: bv32, row: NavModeName, quote: string,
                   sep: string, first: bool, ghost names: seq<string>, ghost text: string)
    returns (q: nat, stillFirst: bool)
    requires first <==> names == []
    requires Holds(buf[..], text + Join(QuoteAll(quote, names), sep), end)
    requires p == |text + Join(QuoteAll(quote, names), sep)|
    modifies buf
    ensures buf[end..] == old(buf[end..])
    ensures var next := names + (if IsSet(flags, row) then [row.name] else []);
      && (stillFirst <==> next == [])
      && Holds(buf[..], text + Join(QuoteAll(quote, next), sep), end)
      && q == |text + Join(QuoteAll(quote, next), sep)|
  {
    q, stillFirst := p, first;
    if flags & row.flag != 0 {
      ghost var written := text + Join(QuoteAll(quote, names), sep);
      if !first {
        q := Emit(buf, q, end, sep, written);
        written := written + sep;
      } else {
        written := text;
      }
      q := Emit(buf, q, end, quote + row.name + quote, written);
      NamedStep(names, row.name, quote, sep, text);
      stillFirst := false;
    } else {
      assert names + [] == names;
    }
  }

  /** One row of the walk: the names of the first i + 1 rows are those of the first i, and the
      row's name if its bit is set. */
  lemma SetNamesStep(flags: bv32, table: seq<NavModeName>, i: nat)
    requires i < |table|
    ensures SetNames(flags, table[..i + 1]) ==
      SetNames(flags, table[..i]) + (if IsSet(flags, table[i]) then [table[i].name] else [])
  {
    assert table[..i + 1][..i] == table[..i];
  }

  /** Writing one more name after `names`: a separator first unless the list was empty. */
  lemma NamedStep(names: seq<string>, name: string, quote: string, sep: string, text: string)
    ensures text + Join(QuoteAll(quote, names + [name]), sep) ==
      (if names == [] then text else text + Join(QuoteAll(quote, names), sep) + sep) + (quote + name + quote)
  {
    QuoteAllAppend(quote, names, [name]);
    assert QuoteAll(quote, [name]) == [Quoted(quote, name)];
    if names != [] {
      JoinSnoc(QuoteAll(quote, names), Quoted(quote, name), sep);
    }
  }

  /** Every listed name is the name of a table row whose bit is set, and every such row is
      listed. */
  lemma {:induction false} SetNamesMember(flags: bv32, table: seq<NavModeName>, name: string)
    ensures name in SetNames(flags, table) <==>
      exists i :: 0 <= i < |table| && table[i].name == name && IsSet(flags, table[i])
  {
    if table != [] {
      var init, row := table[..|table| - 1], table[|table| - 1];
      SetNamesMember(flags, init, name);
      assert name in SetNames(flags, table) <==>
        name in SetNames(flags, init) || (name == row.name && IsSet(flags, row));
      if name in SetNames(flags, init) {
        var i :| 0 <= i < |init| && init[i].name == name && IsSet(flags, init[i]);
        assert table[i] == init[i];
      }
      if exists i :: 0 <= i < |table| && table[i].name == name && IsSet(flags, table[i]) {
        var i :| 0 <= i < |table| && table[i].name == name && IsSet(flags, table[i]);
        if i < |init| {
          assert init[i] == table[i];
        }
      }
    }
  }

  /** A mode name is written exactly when its bit is set. */
  lemma ModeNamesMember(flags: bv32, name: string)
    ensures name in ModeNames(flags) <==>
      exists i :: 0 <= i < |NavModeTable| && NavModeTable[i].name == name && IsSet(flags, NavModeTable[i])
  {
    SetNamesMember(flags, NavModeTable, name);
  }

  /** Only the bits of the table matter: two flag words that agree on every row's bit list the
      same names. */
  lemma {:induction false} SetNamesAgree(flags: bv32, other: bv32, table: seq<NavModeName>)
    requires forall i :: 0 <= i < |table| ==> IsSet(flags, table[i]) == IsSet(other, table[i])
    ensures SetNames(flags, table) == SetNames(other, table)
  {
    if table != [] {
      var init := table[..|table| - 1];
      assert forall i :: 0 <= i < |init| ==> init[i] == table[i];
      SetNamesAgree(flags, other, init);
    }
  }

  /** Masking with the known modes keeps every row's bit. */
  lemma KnownBitsKept(flags: bv32)
    ensures forall i :: 0 <= i < |NavModeTable| ==> IsSet(flags & KnownModes, NavModeTable[i]) == IsSet(flags, NavModeTable[i])
  {
    KnownBits(flags);
  }

  /** Bits outside the table produce nothing. */
  lemma UnknownBitsIgnored(flags: bv32)
    ensures NavModesText(flags, "\"", ",") == NavModesText(flags & KnownModes, "\"", ",")
    ensures flags & KnownModes == 0 ==> NavModesText(flags, "\"", ",") == []
  {
    KnownBitsKept(flags);
    SetNamesAgree(flags, flags & KnownModes, NavModeTable);
    if flags & KnownModes == 0 {
      NoBitsNoNames(flags & KnownModes, NavModeTable);
    }
  }

  lemma {:induction false} NoBitsNoNames(flags: bv32, table: seq<NavModeName>)
    requires flags == 0
    ensures SetNames(flags, table) == []
  {
    if table != [] {
      NoBitsNoNames(flags, table[..|table| - 1]);
    }
  }

  /** A character that no row's name contains appears in no listed name. */
  lemma {:induction false} SetNamesAvoid(flags: bv32, table: seq<NavModeName>, c: char)
    requires forall i :: 0 <= i < |table| ==> c !in table[i].name
    ensures forall k :: 0 <= k < |SetNames(flags, table)| ==> c !in SetNames(flags, table)[k]
  {
    if table != [] {
      var init := table[..|table| - 1];
      assert forall i :: 0 <= i < |init| ==> init[i] == table[i];
      SetNamesAvoid(flags, init, c);
    }
  }

  /** The JSON rendering of k modes ("\"" quotes, "," separator) holds exactly k - 1 commas:
      commas stand only between names. */
  lemma SeparatorsBetweenNames(flags: bv32)
    requires ModeNames(flags) != []
    ensures Count(NavModesText(flags, "\"", ","), ',') == |ModeNames(flags)| - 1
  {
    var names := ModeNames(flags);
    var quoted := QuoteAll("\"", names);
    SetNamesAvoid(flags, NavModeTable, ',');
    forall k | 0 <= k < |quoted| ensures ',' !in quoted[k] {
      QuoteAllIndex("\"", names, k);
    }
    JoinSeparatorCount(quoted, ',');
  }
}
