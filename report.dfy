/** The report printed by `count_releases`, and the function as a whole.
    Each element of a report is the argument of one `print` call. */
module Report {
  import opened Wrappers
  import opened Decimal
  import opened Packages
  import opened LengthSort

  /** `"-" * 80`. */
  const Rule: string := Dashes(80)

  /** `"-" * n`. */
  function Dashes(n: nat): (r: string)
    ensures |r| == n && forall i :: 0 <= i < n ==> r[i] == '-'
  {
    if n == 0 then "" else Dashes(n - 1) + "-"
  }

  /** The first `print`; it begins with a newline, as in the source. */
  const Header: string :=
    "\nPackages with names longer than 30 characters (after trimming '" + Prefix + "'):"

  const OriginalLabel: string := "Original: "
  const TrimmedLabel: string := "Trimmed:  "
  const LengthLabel: string := "Length:   "
  const LengthUnit: string := " characters"
  const LoadErrorLabel: string := "Error loading JSON file: "

  /** The four lines printed for one entry. */
  function EntryLines(e: Entry): (r: seq<string>)
    ensures |r| == 4
  {
    [ OriginalLabel + e.original,
      TrimmedLabel + e.trimmed,
      LengthLabel + NatToString(e.length) + LengthUnit,
      Rule ]
  }

  /** The entry blocks, one after another, in list order. */
  function Blocks(entries: seq<Entry>): (r: seq<string>)
    ensures |r| == 4 * |entries|
    ensures forall k :: 0 <= k < |entries| ==> r[4 * k..4 * k + 4] == EntryLines(entries[k])
  {
    if entries == [] then []
    else
      var rest := Blocks(entries[1..]);
      var r := EntryLines(entries[0]) + rest;
      assert forall k :: 1 <= k < |entries| ==>
        r[4 * k..4 * k + 4] == rest[4 * (k - 1)..4 * (k - 1) + 4];
      r
  }

  /** The whole report for an already sorted list of entries. */
  function ReportLines(entries: seq<Entry>): (r: seq<string>)
    ensures |r| == 2 + 4 * |entries|
    ensures r[0] == Header && r[1] == Rule
  {
    [Header, Rule] + Blocks(entries)
  }

  /** Block `k` of the report, line by line: the original name, the trimmed
      name, the length in decimal, and a rule of 80 dashes. */
  lemma ReportBlock(entries: seq<Entry>, k: nat)
    requires k < |entries|
    ensures 2 + 4 * k + 3 < |ReportLines(entries)|
    ensures ReportLines(entries)[2 + 4 * k] == OriginalLabel + entries[k].original
    ensures ReportLines(entries)[2 + 4 * k + 1] == TrimmedLabel + entries[k].trimmed
    ensures ReportLines(entries)[2 + 4 * k + 2] ==
      LengthLabel + NatToString(entries[k].length) + LengthUnit
    ensures ReportLines(entries)[2 + 4 * k + 3] == Rule
    ensures |Rule| == 80 && forall i :: 0 <= i < |Rule| ==> Rule[i] == '-'
  {
    var r := ReportLines(entries);
    var b := Blocks(entries);
    assert r[2..] == b;
    assert b[4 * k..4 * k + 4] == EntryLines(entries[k]);
    assert r[2 + 4 * k] == b[4 * k] == EntryLines(entries[k])[0];
    assert r[2 + 4 * k + 1] == b[4 * k + 1] == EntryLines(entries[k])[1];
    assert r[2 + 4 * k + 2] == b[4 * k + 2] == EntryLines(entries[k])[2];
    assert r[2 + 4 * k + 3] == b[4 * k + 3] == EntryLines(entries[k])[3];
  }

  /** Reads one four-line block back into the entry it was printed from. */
  function ParseEntry(block: seq<string>): (r: Option<Entry>)
    requires |block| == 4
    ensures r.Some? ==> EntryLines(r.value) == block
  {
    var l0, l1, l2 := block[0], block[1], block[2];
    if StartsWith(l0, OriginalLabel) && StartsWith(l1, TrimmedLabel)
      && |l2| >= |LengthLabel| + |LengthUnit| && StartsWith(l2, LengthLabel)
      && l2[|l2| - |LengthUnit|..] == LengthUnit && block[3] == Rule
    then
      // A length is written without leading zeros, so a block with one is
      // not the printed form of any entry.
      var digits := l2[|LengthLabel|..|l2| - |LengthUnit|];
      match ParseNat(digits)
      case None => None
      case Some(n) =>
        if |digits| == 1 || digits[0] != '0' then
          assert l0 == OriginalLabel + l0[|OriginalLabel|..];
          assert l1 == TrimmedLabel + l1[|TrimmedLabel|..];
          assert l2 == LengthLabel + digits + LengthUnit;
          Some(Entry(l0[|OriginalLabel|..], l1[|TrimmedLabel|..], n))
        else None
    else None
  }

  /** A printed block reads back as the entry it was printed from. */
  lemma EntryRoundTrip(e: Entry)
    ensures ParseEntry(EntryLines(e)) == Some(e)
  {
    var b := EntryLines(e);
    var digits := NatToString(e.length);
    assert (OriginalLabel + e.original)[..|OriginalLabel|] == OriginalLabel;
    assert (OriginalLabel + e.original)[|OriginalLabel|..] == e.original;
    assert (TrimmedLabel + e.trimmed)[..|TrimmedLabel|] == TrimmedLabel;
    assert (TrimmedLabel + e.trimmed)[|TrimmedLabel|..] == e.trimmed;
    var l2 := b[2];
    assert l2 == LengthLabel + digits + LengthUnit;
    assert l2[..|LengthLabel|] == LengthLabel;
    assert l2[|l2| - |LengthUnit|..] == LengthUnit;
    assert l2[|LengthLabel|..|l2| - |LengthUnit|] == digits;
    ParseNatToString(e.length);
  }

  /** Reads a run of printed blocks back into their entries. */
  function ParseBlocks(lines: seq<string>): (r: Option<seq<Entry>>)
    ensures r.Some? ==> Blocks(r.value) == lines
    decreases |lines|
  {
    if lines == [] then Some([])
    else if |lines| < 4 then None
    else
      match ParseEntry(lines[..4])
      case None => None
      case Some(e) =>
        match ParseBlocks(lines[4..])
        case None => None
        case Some(es) =>
          assert ([e] + es)[1..] == es;
          assert lines == lines[..4] + lines[4..];
          Some([e] + es)
  }

  /** Reads a whole report back into the entries it lists. */
  function ParseReport(lines: seq<string>): (r: Option<seq<Entry>>)
    ensures r.Some? ==> ReportLines(r.value) == lines
  {
    if |lines| >= 2 && lines[0] == Header && lines[1] == Rule then
      assert lines == [Header, Rule] + lines[2..];
      ParseBlocks(lines[2..])
    else None
  }

  lemma {:induction false} BlocksRoundTrip(entries: seq<Entry>)
    ensures ParseBlocks(Blocks(entries)) == Some(entries)
  {
    if entries != [] {
      var b := Blocks(entries);
      assert b[..4] == EntryLines(entries[0]);
      assert b[4..] == Blocks(entries[1..]);
      EntryRoundTrip(entries[0]);
      BlocksRoundTrip(entries[1..]);
      assert [entries[0]] + entries[1..] == entries;
    }
  }

  /** The report determines the entries it was printed from: each block
      carries one entry, in list order, and nothing else is printed. */
  lemma ReportRoundTrip(entries: seq<Entry>)
    ensures ParseReport(ReportLines(entries)) == Some(entries)
  {
    var r := ReportLines(entries);
    assert r[2..] == Blocks(entries);
    BlocksRoundTrip(entries);
  }

  /** `count_releases` after the JSON document has been loaded (or has
      failed to load with the given message). */
  method CountReleases(loaded: Result<seq<Package>, string>) returns (output: seq<string>)
    requires loaded.Success? ==> AllNamed(loaded.value)
    ensures loaded.Failure? ==> output == [LoadErrorLabel + loaded.error]
    ensures loaded.Success? ==> output == ReportLines(SortByLengthDesc(LongNames(loaded.value)))
  {
    if loaded.Failure? {
      return [LoadErrorLabel + loaded.error];
    }
    var longNames := CollectLongNames(loaded.value);
    longNames := SortByLengthDesc(longNames);
    output := ReportLines(longNames);
  }

  /** What a report over loaded records lists: exactly the entries of the
      records whose trimmed name is longer than 30 characters, each of them
      well formed, one block per qualifying record. (Their order is stated by
      `SortByLengthDesc` and `SortStable`, and that nothing else is printed
      by `ReportRoundTrip`.) */
  lemma ReportedEntries(data: seq<Package>)
    requires AllNamed(data)
    ensures |ReportLines(SortByLengthDesc(LongNames(data)))| == 2 + 4 * |QualifyingIndices(data)|
    ensures forall k :: 0 <= k < |SortByLengthDesc(LongNames(data))| ==>
      WellFormed(SortByLengthDesc(LongNames(data))[k])
    ensures forall i :: 0 <= i < |data| ==>
      (Qualifies(data[i]) <==> EntryOf(data[i]) in SortByLengthDesc(LongNames(data)))
  {
    var listed := SortByLengthDesc(LongNames(data));
    LongNamesSelect(data);
    forall k | 0 <= k < |listed| ensures WellFormed(listed[k]) {
      assert listed[k] in multiset(LongNames(data));
    }
    forall i | 0 <= i < |data| ensures Qualifies(data[i]) <==> EntryOf(data[i]) in listed {
      LongNamesMembership(data, i);
      assert EntryOf(data[i]) in listed <==> EntryOf(data[i]) in multiset(listed);
    }
  }
}
