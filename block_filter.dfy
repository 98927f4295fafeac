/** `filter_by_block_id`: select the rows of a Script table that belong to a
    block, found by the zero-padded block number in their `blockId`.
    Digits are the ASCII digits '0'..'9'. */
module BlockFilter {
  import opened Frames
  import opened Seqs

  predicate IsDigit(c: char) {
    '0' <= c <= '9'
  }

  predicate AllDigits(s: string) {
    forall i :: 0 <= i < |s| ==> IsDigit(s[i])
  }

  predicate NoDigit(s: string) {
    forall i :: 0 <= i < |s| ==> !IsDigit(s[i])
  }

  function DigitValue(c: char): nat
    requires IsDigit(c)
  {
    c as int - '0' as int
  }

  function DigitChar(d: nat): (c: char)
    requires d < 10
    ensures IsDigit(c) && DigitValue(c) == d
  {
    ('0' as int + d) as char
  }

  /** 10 to the power k. */
  function Pow10(k: nat): (p: nat)
    ensures p >= 1
  {
    if k == 0 then 1 else 10 * Pow10(k - 1)
  }

  /** The number a string of decimal digits denotes, as Python's `int` reads
      it: leading zeros add nothing, and k digits denote less than 10^k. */
  function Value(s: string): (v: nat)
    requires AllDigits(s)
    ensures v < Pow10(|s|)
  {
    if s == [] then 0 else 10 * Value(s[..|s| - 1]) + DigitValue(s[|s| - 1])
  }

  /** The decimal form of n without leading zeros ("0" for zero). */
  function Decimal(n: nat): (s: string)
    ensures 1 <= |s| && AllDigits(s)
    ensures |s| > 1 ==> s[0] != '0'
    ensures Value(s) == n
  {
    if n < 10 then [DigitChar(n)]
    else
      var s := Decimal(n / 10) + [DigitChar(n % 10)];
      assert s[..|s| - 1] == Decimal(n / 10);
      s
  }

  /** A digit string that starts with a non-zero digit denotes a positive number. */
  lemma {:induction false} ValuePositive(s: string)
    requires AllDigits(s) && |s| >= 1 && s[0] != '0'
    ensures Value(s) >= 1
  {
    if |s| > 1 {
      ValuePositive(s[..|s| - 1]);
    }
  }

  /** Reading a canonical digit string and writing the number back gives the
      same string: Decimal and Value are inverse on strings without leading zeros. */
  lemma {:induction false} DecimalOfValue(s: string)
    requires AllDigits(s) && |s| >= 1 && (|s| > 1 ==> s[0] != '0')
    ensures Decimal(Value(s)) == s
  {
    if |s| > 1 {
      var init := s[..|s| - 1];
      ValuePositive(init);
      DecimalOfValue(init);
      assert Value(s) / 10 == Value(init) && Value(s) % 10 == DigitValue(s[|s| - 1]);
      assert s == init + [s[|s| - 1]];
    }
  }

  function Zeros(n: nat): (z: string)
    ensures |z| == n && forall i :: 0 <= i < n ==> z[i] == '0'
  {
    if n == 0 then [] else Zeros(n - 1) + ['0']
  }

  /** Leading zeros do not change the value of a digit string. */
  lemma {:induction false} ValueAfterZeros(n: nat, s: string)
    requires AllDigits(s)
    ensures AllDigits(Zeros(n) + s) && Value(Zeros(n) + s) == Value(s)
  {
    var z := Zeros(n) + s;
    if s == [] {
      assert z == Zeros(n);
      if n > 0 {
        assert z[..|z| - 1] == Zeros(n - 1) + [];
        ValueAfterZeros(n - 1, []);
      }
    } else {
      var init := s[..|s| - 1];
      assert z[..|z| - 1] == Zeros(n) + init;
      ValueAfterZeros(n, init);
    }
  }

  /** `f"{n:03d}"`: the decimal form of n, left-padded with '0' to three
      characters, never truncated. */
  function Pad3(n: nat): (s: string)
    ensures AllDigits(s) && Value(s) == n
    ensures |s| == if |Decimal(n)| < 3 then 3 else |Decimal(n)|
    ensures s[|s| - |Decimal(n)|..] == Decimal(n)
    ensures forall i :: 0 <= i < |s| - |Decimal(n)| ==> s[i] == '0'
  {
    var d := Decimal(n);
    var z := if |d| < 3 then 3 - |d| else 0;
    ValueAfterZeros(z, d);
    Zeros(z) + d
  }

  /** The longest prefix of s made of digits. */
  function LeadingDigits(s: string): (d: string)
    ensures |d| <= |s| && d == s[..|d|] && AllDigits(d)
    ensures |d| < |s| ==> !IsDigit(s[|d|])
  {
    if s == [] || !IsDigit(s[0]) then []
    else [s[0]] + LeadingDigits(s[1..])
  }

  /** d is the first maximal run of digits in s, and it starts at position i. */
  ghost predicate IsFirstRun(s: string, i: nat, d: string) {
    && i + |d| <= |s|
    && s[i..i + |d|] == d
    && |d| >= 1 && AllDigits(d)
    && (forall j :: 0 <= j < i ==> !IsDigit(s[j]))
    && (i + |d| == |s| || !IsDigit(s[i + |d|]))
  }

  /** The position of the first digit of s, if s has one. */
  function FirstDigitPosition(s: string): (r: Option<nat>)
    ensures r.None? <==> NoDigit(s)
    ensures r.Some? ==> r.value < |s| && IsDigit(s[r.value])
    ensures r.Some? ==> forall j :: 0 <= j < r.value ==> !IsDigit(s[j])
  {
    if s == [] then None
    else if IsDigit(s[0]) then Some(0)
    else
      match FirstDigitPosition(s[1..])
      case None => None
      case Some(i) => Some(i + 1)
  }

  /** `re.search(r"\d+", s).group()`: the first maximal run of digits, or None
      when s has no digit (where the source's `.group()` raises). */
  function FirstDigitRun(s: string): (r: Option<string>)
    ensures r.None? <==> NoDigit(s)
    ensures r.Some? ==> exists i :: IsFirstRun(s, i, r.value)
  {
    match FirstDigitPosition(s)
    case None => None
    case Some(i) =>
      var d := LeadingDigits(s[i..]);
      assert s[i..][0] == s[i];
      assert IsFirstRun(s, i, d);
      Some(d)
  }

  /** The key the rows are matched against: the block number, parsed from the
      first run of digits of the name, written with at least three digits. */
  function BlockKey(blockName: string): (r: Option<string>)
    ensures r.None? <==> NoDigit(blockName)
    ensures r.Some? ==> AllDigits(r.value) && |r.value| >= 3
    ensures r.Some? ==> exists i, d :: IsFirstRun(blockName, i, d) && r.value == Pad3(Value(d))
  {
    match FirstDigitRun(blockName)
    case None => None
    case Some(d) => Some(Pad3(Value(d)))
  }

  /** sub occurs in s starting at position i. */
  predicate OccursAt(s: string, sub: string, i: nat) {
    i + |sub| <= |s| && s[i..i + |sub|] == sub
  }

  /** `str.contains(sub)`; the key is digits only, so the regular expression
      pandas builds from it matches exactly the literal occurrences. A string
      never contains a longer one. */
  predicate Contains(s: string, sub: string): (b: bool)
    ensures b ==> |sub| <= |s|
  {
    (|sub| <= |s| && s[..|sub|] == sub) || (|s| > 0 && Contains(s[1..], sub))
  }

  /** Contains holds exactly when sub occurs somewhere in s. */
  lemma {:induction false} ContainsIffOccurs(s: string, sub: string)
    ensures Contains(s, sub) <==> exists i: nat :: OccursAt(s, sub, i)
  {
    if |sub| <= |s| && s[..|sub|] == sub {
      assert OccursAt(s, sub, 0);
    } else if |s| > 0 {
      ContainsIffOccurs(s[1..], sub);
      if Contains(s[1..], sub) {
        var i: nat :| OccursAt(s[1..], sub, i);
        assert s[i + 1..i + 1 + |sub|] == s[1..][i..i + |sub|];
        assert OccursAt(s, sub, i + 1);
      }
      if i: nat :| OccursAt(s, sub, i) {
        assert i != 0;
        assert s[1..][i - 1..i - 1 + |sub|] == s[i..i + |sub|];
        assert OccursAt(s[1..], sub, i - 1);
      }
    }
  }

  /** The row mask `df.blockId.str.contains(key)`: the key occurs somewhere
      in the row's `blockId`. */
  predicate HasKey(row: StateRow, key: string): (b: bool)
    ensures b ==> |key| <= |row.blockId|
    ensures b <==> exists i: nat :: OccursAt(row.blockId, key, i)
  {
    ContainsIffOccurs(row.blockId, key);
    Contains(row.blockId, key)
  }

  /** `filter_by_block_id`: fails unless the table has a `blockId` column
      (checked first), fails when the block name has no digit, and otherwise
      keeps, in order and unchanged, exactly the rows whose `blockId` contains
      the zero-padded block number. */
  function FilterByBlockId(t: Table<StateRow>, blockName: string): (r: Result<Table<StateRow>>)
    ensures "blockId" !in t.columns ==> r == Err(MissingColumn("blockId"))
    ensures "blockId" in t.columns && NoDigit(blockName) ==> r == Err(NoBlockNumber)
    ensures r.Ok? <==> "blockId" in t.columns && !NoDigit(blockName)
    ensures r.Ok? ==> r.value.columns == t.columns
    ensures r.Ok? ==> forall k :: 0 <= k < |r.value.rows| ==>
      r.value.rows[k] in t.rows && Contains(r.value.rows[k].blockId, BlockKey(blockName).value)
    ensures r.Ok? ==> forall k :: 0 <= k < |t.rows| && Contains(t.rows[k].blockId, BlockKey(blockName).value) ==>
      t.rows[k] in r.value.rows
  {
    if "blockId" !in t.columns then Err(MissingColumn("blockId"))
    else
      match BlockKey(blockName)
      case None => Err(NoBlockNumber)
      case Some(key) => Ok(Table(t.columns, Filter(t.rows, row => HasKey(row, key))))
  }

  /** The selected rows are the input rows at the increasing positions whose
      `blockId` contains the key: order is kept and no row is altered. */
  lemma FilterByBlockIdKeepsOrder(t: Table<StateRow>, blockName: string)
    requires FilterByBlockId(t, blockName).Ok?
    ensures var key := BlockKey(blockName).value;
            var rows := FilterByBlockId(t, blockName).value.rows;
            var idx := KeptPositions(t.rows, row => HasKey(row, key));
            && |rows| == |idx|
            && IncreasingBelow(idx, |t.rows|)
            && (forall k :: 0 <= k < |rows| ==> rows[k] == t.rows[idx[k]])
            && (forall i :: 0 <= i < |t.rows| ==> (i in idx <==> Contains(t.rows[i].blockId, key)))
  {
    var key := BlockKey(blockName).value;
    FilterIsSelection(t.rows, row => HasKey(row, key));
  }

  /** Filtering the result again by the same block name returns it unchanged. */
  lemma FilterByBlockIdIdempotent(t: Table<StateRow>, blockName: string)
    requires FilterByBlockId(t, blockName).Ok?
    ensures FilterByBlockId(FilterByBlockId(t, blockName).value, blockName)
         == FilterByBlockId(t, blockName)
  {
    var key := BlockKey(blockName).value;
    var once := FilterByBlockId(t, blockName).value;
    FilterKeepsAll(once.rows, row => HasKey(row, key));
  }

  lemma Pad3Small()
    ensures Pad3(7) == "007"
  {
    assert Decimal(7) == "7";
    assert Zeros(2) == "00" by {
      assert Zeros(1) == "0";
    }
  }

  /** Leading zeros in the name are dropped before padding. */
  lemma BlockKeyLeadingZeros()
    ensures BlockKey("T0007") == Some("007")
  {
    var s := "T0007";
    assert FirstDigitPosition(s[1..]) == Some(0);
    assert FirstDigitPosition(s) == Some(1);
    assert LeadingDigits("0007") == "0007" by {
      assert LeadingDigits("7") == "7";
      assert LeadingDigits("07") == "07";
      assert LeadingDigits("007") == "007";
    }
    assert Value("0007") == 7 by {
      ValueAfterZeros(3, "7");
      assert Zeros(3) + "7" == "0007";
      assert Zeros(3) == "000" by {
        assert Zeros(1) == "0";
        assert Zeros(2) == "00";
      }
    }
    Pad3Small();
  }

  lemma BlockKeyOfB7()
    ensures BlockKey("B7") == Some("007")
  {
    assert FirstDigitPosition("B7") == Some(1) by {
      assert FirstDigitPosition("7") == Some(0);
    }
    assert LeadingDigits("7") == "7";
    assert Value("7") == 7;
    Pad3Small();
  }

  lemma NoZeroZeroSevenIn017()
    ensures !Contains("017_xyz", "007")
  {
    var s := "017_xyz";
    ContainsIffOccurs(s, "007");
    forall i: nat ensures !OccursAt(s, "007", i) {
      if i + 3 <= |s| {
        assert s[i..i + 3][1] == s[i + 1];
        assert s[i + 1] != '0';
      }
    }
  }

  lemma FilterExampleRows(a: StateRow, b: StateRow)
    requires a.blockId == "007_abc" && b.blockId == "017_xyz"
    ensures Filter([a, b], row => HasKey(row, "007")) == [a]
  {
    NoZeroZeroSevenIn017();
    assert a.blockId[..3] == "007";
    assert HasKey(a, "007") && !HasKey(b, "007");
    assert [a, b][1..] == [b];
  }

  /** For "B7" the row "007_abc" is kept and "017_xyz" is dropped. */
  lemma FilterByBlockIdExample()
    ensures var a, b := StateRow("007_abc", 1, 2), StateRow("017_xyz", 1, 2);
            FilterByBlockId(Table({"blockId"}, [a, b]), "B7") == Ok(Table({"blockId"}, [a]))
  {
    var a, b := StateRow("007_abc", 1, 2), StateRow("017_xyz", 1, 2);
    BlockKeyOfB7();
    FilterExampleRows(a, b);
  }
}
