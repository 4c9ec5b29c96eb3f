/** Package records, the name prefix trim, and the long-name filter of
    `count_releases` (scripts/terraform/count_avm_releases.py). */
module Packages {
  import opened Wrappers

  /** One object of the loaded JSON array. Only its `name` key is read;
      `None` stands for an object that has no such key. */
  datatype Package = Package(name: Option<string>)

  /** One collected record: `{"original", "trimmed", "length"}`. */
  datatype Entry = Entry(original: string, trimmed: string, length: nat)

  /** The module prefix removed before measuring a name. */
  const Prefix: string := "terraform-azurerm-avm-res-"

  /** A trimmed name is reported when it is longer than this. */
  const Threshold: nat := 30

  /** Python's `str.startswith`. */
  predicate StartsWith(s: string, p: string) {
    |p| <= |s| && s[..|p|] == p
  }

  /** `t` is a trailing part of `s`. */
  predicate IsSuffix(t: string, s: string) {
    |t| <= |s| && s[|s| - |t|..] == t
  }

  /** The name with the prefix removed when, and only when, it starts with it. */
  function Trim(name: string): (r: string)
    ensures |r| <= |name|
    ensures r == name || name == Prefix + r
  {
    if StartsWith(name, Prefix) then name[|Prefix|..] else name
  }

  /** The two cases of the trim, with the prefix length written out; either
      way the trimmed name is a trailing part of the name. */
  lemma TrimCases(name: string)
    ensures StartsWith(name, Prefix) ==> Trim(name) == name[26..]
    ensures !StartsWith(name, Prefix) ==> Trim(name) == name
    ensures IsSuffix(Trim(name), name)
  {
  }

  /** Putting the prefix in front of a name and trimming gives the name back. */
  lemma TrimPrefixed(s: string)
    ensures Trim(Prefix + s) == s
  {
    assert (Prefix + s)[..|Prefix|] == Prefix;
  }

  /** The trim shortens a name by exactly the prefix length, or not at all. */
  lemma TrimLength(name: string)
    ensures StartsWith(name, Prefix) <==> |Trim(name)| == |name| - |Prefix|
    ensures !StartsWith(name, Prefix) <==> |Trim(name)| == |name|
  {
  }

  /** Every record carries a `name` (the source indexes `package["name"]`
      without a guard). */
  predicate AllNamed(data: seq<Package>) {
    forall i :: 0 <= i < |data| ==> data[i].name.Some?
  }

  /** The record's trimmed name is longer than the threshold. */
  predicate Qualifies(p: Package)
    requires p.name.Some?
  {
    |Trim(p.name.value)| > Threshold
  }

  /** The entry the filter collects for a record. */
  function EntryOf(p: Package): (e: Entry)
    requires p.name.Some?
    ensures e.original == p.name.value && e.length == |e.trimmed|
    ensures WellFormed(e) <==> Qualifies(p)
  {
    var t := Trim(p.name.value);
    Entry(p.name.value, t, |t|)
  }

  /** What every collected entry satisfies. */
  predicate WellFormed(e: Entry) {
    e.length > Threshold && e.length == |e.trimmed| && e.trimmed == Trim(e.original)
  }

  /** The entries of the qualifying records, in input order. */
  function LongNames(data: seq<Package>): (r: seq<Entry>)
    requires AllNamed(data)
    ensures |r| <= |data|
    ensures forall k :: 0 <= k < |r| ==> WellFormed(r[k])
  {
    if data == [] then []
    else
      var rest := LongNames(data[..|data| - 1]);
      var p := data[|data| - 1];
      if Qualifies(p) then rest + [EntryOf(p)] else rest
  }

  /** The positions of the qualifying records, in increasing order. */
  function QualifyingIndices(data: seq<Package>): (idx: seq<nat>)
    requires AllNamed(data)
    ensures forall k :: 0 <= k < |idx| ==> idx[k] < |data| && Qualifies(data[idx[k]])
    ensures forall k, l :: 0 <= k < l < |idx| ==> idx[k] < idx[l]
    ensures forall i :: 0 <= i < |data| && Qualifies(data[i]) ==> i in idx
  {
    if data == [] then []
    else
      var rest := QualifyingIndices(data[..|data| - 1]);
      if Qualifies(data[|data| - 1]) then rest + [|data| - 1] else rest
  }

  /** The filter keeps exactly one entry per qualifying record, in input
      order, and no other record contributes. */
  lemma {:induction false} LongNamesSelect(data: seq<Package>)
    requires AllNamed(data)
    ensures |LongNames(data)| == |QualifyingIndices(data)|
    ensures forall k :: 0 <= k < |LongNames(data)| ==>
      LongNames(data)[k] == EntryOf(data[QualifyingIndices(data)[k]])
  {
    if data != [] {
      var init := data[..|data| - 1];
      LongNamesSelect(init);
      assert forall i :: 0 <= i < |init| ==> init[i] == data[i];
    }
  }

  /** A record's entry is collected if and only if the record qualifies. */
  lemma {:induction false} LongNamesMembership(data: seq<Package>, i: nat)
    requires AllNamed(data) && i < |data|
    ensures Qualifies(data[i]) <==> EntryOf(data[i]) in LongNames(data)
  {
    if EntryOf(data[i]) in LongNames(data) {
      assert WellFormed(EntryOf(data[i]));
    }
    if Qualifies(data[i]) {
      LongNamesSelect(data);
      var idx := QualifyingIndices(data);
      var k :| 0 <= k < |idx| && idx[k] == i;
      assert LongNames(data)[k] == EntryOf(data[i]);
    }
  }

  /** A prefixed module name whose remainder has 31 characters is kept, with
      the prefix removed. */
  lemma {:induction false} LongNamesExample()
    ensures LongNames([Package(Some(Prefix + "network-security-group-extended"))])
      == [Entry(Prefix + "network-security-group-extended", "network-security-group-extended", 31)]
  {
    var rest := "network-security-group-extended";
    var data := [Package(Some(Prefix + rest))];
    TrimPrefixed(rest);
    assert data[..0] == [];
  }

  /** A short name without the prefix is not kept. */
  lemma {:induction false} ShortNameExample()
    ensures LongNames([Package(Some("avm-res-storage-account"))]) == []
  {
    var data := [Package(Some("avm-res-storage-account"))];
    assert data[..0] == [];
  }

  /** The loop of `count_releases` that builds `long_names`. */
  method CollectLongNames(data: seq<Package>) returns (longNames: seq<Entry>)
    requires AllNamed(data)
    ensures longNames == LongNames(data)
  {
    longNames := [];
    for i := 0 to |data|
      invariant longNames == LongNames(data[..i])
    {
      var name := data[i].name.value;
      var trimmed := Trim(name);
      if |trimmed| > Threshold {
        longNames := longNames + [Entry(name, trimmed, |trimmed|)];
      }
      assert data[..i + 1][..i] == data[..i];
    }
    assert data[..|data|] == data;
  }
}
