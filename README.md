# Long-name reporter for Azure Verified Modules packages

This project models `count_releases` in `scripts/terraform/count_avm_releases.py`.
Despite its name, the function reports packages with long names. It takes a loaded JSON
array of package records and removes the module prefix `terraform-azurerm-avm-res-`
from each `name` that starts with it. It keeps the records whose trimmed name is longer
than 30 characters, sorts them longest first, and prints a report with three lines per
record (original name, trimmed name, length) followed by a rule of 80 dashes.

The model is split into modules:

- `Wrappers` (`wrappers.dfy`): `Option` and `Result`.
- `Packages` (`packages.dfy`): the package record, the prefix trim, the filter as a
  specification function (`LongNames`), and the filter loop as a method
  (`CollectLongNames`) proved against it.
- `LengthSort` (`length_sort.dfy`): `sorted(..., key=length, reverse=True)` as a stable
  insertion sort on values. It is proved to be a permutation that is non-increasing in
  length and stable. It is also proved to be the only arrangement with those properties.
- `Decimal` (`decimal.dfy`): how an f-string writes a length in decimal, with a parser
  that reads it back.
- `Report` (`report.dfy`): the printed lines, a parser that recovers the entries from
  them, and `CountReleases`, the whole function after loading.

A record is `Package(name: Option<string>)`, where `None` means the JSON object has no
`name` key. The source reads `package["name"]` without a guard, so the filter requires
`AllNamed`: every record has a name.

The report is a `seq<string>` with one element per `print` call. The first element is
the header. As in the source, the header starts with a newline.

The comment on line 20 of the source says 36 characters, but the code on line 21
compares with 30. The model follows the code (`Packages.Threshold` is 30).

`Packages.LongNamesExample` pins down one concrete case. The trimmed name
`network-security-group-extended` has 31 characters, one more than the threshold, so it
is reported.

## Model

| member | source | states |
|---|---|---|
| `Packages.Trim` | scripts/terraform/count_avm_releases.py:12-18 | the trimmed name is either the name unchanged or the name with the prefix in front of it removed, and it is never longer than the name |
| `Packages.TrimCases` | scripts/terraform/count_avm_releases.py:18 | a name that starts with the prefix loses its first 26 characters; any other name is unchanged; the result is always a suffix of the name |
| `Packages.TrimPrefixed` | scripts/terraform/count_avm_releases.py:12-18 | trimming `prefix + s` gives back `s` |
| `Packages.TrimLength` | scripts/terraform/count_avm_releases.py:18 | the trim shortens a name by exactly the prefix length if and only if the name starts with the prefix, and leaves the length unchanged if and only if it does not |
| `Packages.EntryOf` | scripts/terraform/count_avm_releases.py:22-26 | an entry records the original name, its length equals the length of its trimmed name, and it is well formed (over 30, the trim of the original) exactly when the record qualifies |
| `Packages.LongNames` | scripts/terraform/count_avm_releases.py:15-26 | every collected entry has length over 30, that length is the length of its trimmed name, and its trimmed name is the trim of its original name; there are never more entries than records |
| `Packages.QualifyingIndices` | scripts/terraform/count_avm_releases.py:15-21 | the qualifying record positions are strictly increasing, and they include exactly the records whose trimmed name is longer than 30 |
| `Packages.LongNamesSelect` | scripts/terraform/count_avm_releases.py:15-26 | entry k of the filtered list is the entry of the k-th qualifying record, in input order, with exactly one entry per qualifying record |
| `Packages.LongNamesMembership` | scripts/terraform/count_avm_releases.py:15-26 | a record's entry is in the filtered list if and only if the record's trimmed name is longer than 30 |
| `Packages.LongNamesExample` | scripts/terraform/count_avm_releases.py:15-26 | a prefixed name with a 31-character remainder yields one entry holding the remainder and length 31 |
| `Packages.ShortNameExample` | scripts/terraform/count_avm_releases.py:15-26 | a 23-character name without the prefix yields no entry |
| `Packages.CollectLongNames` | scripts/terraform/count_avm_releases.py:13-26 | the loop builds exactly the filtered list, given that every record has a name |
| `LengthSort.Insert` | scripts/terraform/count_avm_releases.py:28 | inserting one entry makes the list one entry longer |
| `LengthSort.InsertPermutation` | scripts/terraform/count_avm_releases.py:28 | inserting adds exactly the inserted entry and removes nothing |
| `LengthSort.InsertOrdered` | scripts/terraform/count_avm_releases.py:28 | inserting into a longest-first list keeps it longest first |
| `LengthSort.SortByLengthDesc` | scripts/terraform/count_avm_releases.py:28 | the sorted list is a permutation of its input, and no entry in it is longer than one before it |
| `LengthSort.InsertOfLength` | scripts/terraform/count_avm_releases.py:28 | an inserted entry goes after every entry of its own length; entries of other lengths keep their order |
| `LengthSort.SortStable` | scripts/terraform/count_avm_releases.py:28 | for every length, the entries of that length keep their input order in the sorted list |
| `LengthSort.OrderedUnique` | scripts/terraform/count_avm_releases.py:28 | two non-increasing lists that agree on their entries of every length, in order, are equal |
| `LengthSort.SortCharacterized` | scripts/terraform/count_avm_releases.py:28 | any non-increasing list that keeps each length's entries in input order equals the sort, so the sort matches Python's stable `sorted(..., reverse=True)` |
| `Decimal.NatToString` | scripts/terraform/count_avm_releases.py:36 | a length is written as a non-empty run of decimal digits with no leading zero; it is one digit exactly when the length is below 10 |
| `Decimal.ParseNat` | scripts/terraform/count_avm_releases.py:36 | a string is read as a number exactly when it is a non-empty run of digits, and a numeral without a leading zero is exactly the rendering of the number read |
| `Decimal.ParseNatToString` | scripts/terraform/count_avm_releases.py:36 | reading a written length back gives the same length |
| `Decimal.DigitsRoundTrip` | scripts/terraform/count_avm_releases.py:36 | a numeral without a leading zero is exactly how its value is written |
| `Decimal.NatToStringInjective` | scripts/terraform/count_avm_releases.py:36 | different lengths are written differently |
| `Report.Dashes` | scripts/terraform/count_avm_releases.py:31 | `"-" * n` has n characters, all of them dashes |
| `Report.EntryLines` | scripts/terraform/count_avm_releases.py:34-37 | each entry prints exactly four lines |
| `Report.Blocks` | scripts/terraform/count_avm_releases.py:33-37 | entries print 4 lines each, and lines 4k to 4k+3 are the block of entry k |
| `Report.ReportLines` | scripts/terraform/count_avm_releases.py:30-37 | the report has 2 + 4n lines for n entries, starting with the header and a rule |
| `Report.ReportBlock` | scripts/terraform/count_avm_releases.py:30-37 | lines 3 to 6 of entry k's block are its original name, its trimmed name, its length in decimal followed by " characters", and a rule of 80 dashes |
| `Report.ParseEntry` | scripts/terraform/count_avm_releases.py:34-37 | a block that reads as an entry is exactly that entry's printed block |
| `Report.ParseBlocks` | scripts/terraform/count_avm_releases.py:33-37 | lines that read as a list of entries are exactly those entries' printed blocks |
| `Report.ParseReport` | scripts/terraform/count_avm_releases.py:30-37 | a report that reads as a list of entries is exactly the report of that list |
| `Report.EntryRoundTrip` | scripts/terraform/count_avm_releases.py:34-37 | one entry's block reads back as that entry |
| `Report.BlocksRoundTrip` | scripts/terraform/count_avm_releases.py:33-37 | the printed blocks read back as the whole list, in order |
| `Report.ReportRoundTrip` | scripts/terraform/count_avm_releases.py:30-37 | a report reads back as exactly the entries it was printed from, so it prints nothing else |
| `Report.CountReleases` | scripts/terraform/count_avm_releases.py:4-37 | a load failure prints only "Error loading JSON file: " and the error; otherwise the output is the report of the filtered list, sorted longest first |
| `Report.ReportedEntries` | scripts/terraform/count_avm_releases.py:15-37 | the report for loaded records has 2 + 4 lines per qualifying record, every listed entry is well formed, and a record's entry is listed if and only if its trimmed name is longer than 30 |

## Left out

- Opening the file and `json.load` (lines 5-10) are I/O and a foreign parser. The model takes the parse outcome as input: `Result<seq<Package>, string>`. The failure case carries the text of the exception, and the model prints the error line for it and nothing else.
- `print` is modelled as the returned sequence of lines, one element per call. The newline each call appends is not modelled. The header element keeps its leading newline, but because one element stands for one `print` call, the blank line it prints is not a separate element: the printed text has 3 + 4n lines where `ReportLines` has 2 + 4n elements.
- The model assumes the loaded document is a JSON array of objects. The source loops over whatever `json.load` returns: a top-level object is walked by its keys (so `{}` prints only the header and the rule, and a non-empty one raises `TypeError` at line 16), and an array element that is not an object raises `TypeError` at line 16. `Result<seq<Package>, string>` represents neither case.
- The `__main__` argument-count check and usage message (lines 39-43) are command-line plumbing and are not modelled.
- The release-count reporter is another script, and its source is not part of this model.
- The `KeyError` raised for a record without `name` (line 16) is not modelled as an exception. `AllNamed` is a precondition instead.
- A `name` whose JSON value is not a string is not modelled: `Package.name` is typed as a string. JSON keys other than `name` are never read and are not represented.
- Python's `len` counts code points. Dafny's `string` is a sequence of Unicode scalar values, so the two agree except for lone surrogates, which are not modelled.
- The sort is modelled on values. It is an insertion sort rather than Python's Timsort. `LengthSort.SortCharacterized` shows that the two give the same result.
