# Lookup-table loading for flow-log tagging

This project models `load_lookup` in `main.py`, the one piece of logic in the
repository. It reads the records of a lookup CSV and builds a dictionary.
The key is the pair (destination port, protocol number) and the value is the
record's tag.

For each record, in order, the loop does four things:

1. it reads `dstport` and converts it with Python's `int`;
2. it reads `protocol` and converts it with `int`;
3. it reads `tag`;
4. it stores the tag under the pair, overwriting any earlier tag for that pair.

A missing column raises `KeyError`. The handler sits around the whole loop,
so loading stops at that record and the table built so far is returned.
A field that `int` rejects raises `ValueError`. Nothing catches it, so the
call fails and returns no table.

Modules:

- `Wrappers` (`wrappers.dfy`) defines `Option`.
- `PyInt` (`pyint.dfy`) models Python's `int(s)` on decimal strings as
  `ParseInt`, and `str(n)` as `FormatInt`. These are proved inverse
  (`int(str(n)) == n`), leaving aside CPython's limit on the number of digits
  (see "## Left out").
- `Lookup` (`lookup.dfy`) has the rest:
  - `Step` gives the loop body's verdict on one record: stored,
    missing column, or bad integer. `ReadRow` is the method that performs
    those reads and conversions and is proved to agree with `Step`.
  - `Run` is the reference definition of the whole loop. It stores the
    entries of the leading records that complete (`Processed`, `Entries`)
    last-write-wins (`Fold`), and the first record that does not complete
    decides how the call ends.
  - `LoadLookup` is the loop itself, a `while` loop over the records that
    updates a map. It is proved to return `Load(rows)`, which is
    `Run(Steps(rows))`.
  - The `Outcome` datatype tells apart the three ways a call ends:
    `Completed`, `StoppedAtMissingColumn` (with the partial table, the record
    index and the missing column) and `IntParseError` (no table).
    `Outcome.Returned()` is what the Python caller receives: the table, or
    `None` when the call raises.

The tool this loader belongs to is meant to go on to tag flow logs and count
them, but that code is not in the repository. Two points of the loader's own
behaviour, as the code has it, are easy to misread:

- the key uses the protocol **number** (`int(row["protocol"])`), not a
  protocol name;
- a missing column does not abort loading with an error. The `KeyError` is
  caught, and the partial table is returned.

## Model

| member | source | states |
|---|---|---|
| `PyInt.ParseInt` | main.py:11-12 | `int(s)` succeeds exactly on an optional sign followed by at least one ASCII digit (no digit limit, see "## Left out"); a negative result only comes from a leading `-`, and a leading `-` never gives a positive result |
| `PyInt.ParseFormat` | main.py:11-12 | `int(str(n)) == n` for every integer (no digit limit), so every port and protocol number can be written in a form the loader reads back exactly |
| `PyInt.ParseSigned` | main.py:11-12 | a `+` before a digit string leaves its value unchanged and a `-` negates it, so with `ParseFormat` and `ParseLeadingZero` the value of every accepted string is fixed (`"+443"` is 443, `"-007"` is -7) |
| `PyInt.ParseLeadingZero` | main.py:11-12 | zero-padded fields such as `"007"` are accepted and have the value of the unpadded numeral |
| `PyInt.DigitsValueOfFormat` | main.py:11-12 | the digits `str` writes for a natural number denote that number |
| `Lookup.Step` | main.py:11-14 | a record is stored exactly when `dstport` and `protocol` are present and convert and `tag` is present; the key is the two converted values and the value is the `tag` field; a reported missing column is absent and one of the three columns; a reported bad integer is present, rejected by `int`, and is `dstport` or `protocol`; a failure is reported only after every earlier read and conversion succeeded |
| `Lookup.ReadRow` | main.py:11-13 | the reads and conversions, in the source's order with an exit at the first failure, give exactly the verdict `Step` describes |
| `Lookup.Steps` | main.py:10 | one verdict per record, in record order |
| `Lookup.Processed` | main.py:9-16 | the number of leading records that complete: all records before it complete, and the record at that index (if any) does not |
| `Lookup.Entries` | main.py:11-14 | the stored (key, tag) pairs of completing records, one per record, in order |
| `Lookup.Load` | main.py:5-17 | reference definition of the whole call: the outcome of `Run` on the per-record verdicts; `LoadLookup` is proved equal to it |
| `Lookup.Run` | main.py:9-17 | reference definition of the loop: the table of the leading completing records, ended as `Completed`, as `StoppedAtMissingColumn` at the first missing column, or as `IntParseError` at the first failed conversion |
| `Lookup.Fold` | main.py:14 | the table left by storing the pairs one after another, a later pair overwriting an earlier one; its properties are the `Fold…` lemmas below |
| `Lookup.LoadLookup` | main.py:6-17 | the loop returns exactly `Load(rows)`: the last-write-wins table of the leading completing records, and the outcome decided by the first record that does not complete; no records give the empty table |
| `Lookup.EntriesSnoc` | main.py:10-14 | one more completing record appends exactly its own pair to the stored entries |
| `Lookup.FoldDomain` | main.py:14 | a key is in the table exactly when some stored pair has that key |
| `Lookup.FoldValue` | main.py:14 | every key holds the tag of a stored pair with that key, and no later pair has the key |
| `Lookup.FoldLastWriteWins` | main.py:14 | the pair last stored under a key decides the key's tag |
| `Lookup.FoldSize` | main.py:10-14 | the table has no more entries than pairs stored |
| `Lookup.RunStopsAt` | main.py:9-17 | the first record that does not complete ends the load: on a missing column the table of the records before it is returned, with the record index and column; on a failed conversion the call raises with that index and column |
| `Lookup.RunIgnoresLaterRows` | main.py:9-16 | once a load stops or raises, appending further records changes nothing |
| `Lookup.RunRaisesOnlyOnBadInteger` | main.py:11-15 | the call returns no table exactly when some record, all of whose predecessors complete, has a failed conversion; a missing column alone never makes the call raise |
| `Lookup.RunTableFromProcessedRows` | main.py:10-17 | every entry of the returned table is the key and tag of a record the loop finished, with no later finished record having that key; the table has at most as many entries as finished records |
| `Lookup.RunKeepsEveryFinishedKey` | main.py:10-17 | the key of every record the loop finished is in the returned table |
| `Lookup.RunLastRowWins` | main.py:14 | under the key of a finished record after which no finished record has that key, the returned table holds that record's tag: of several finished records with one key, the last decides |
| `Lookup.ExampleStopsAtMissingProtocol` | main.py:9-17 | a concrete load: a repeated key keeps the later tag, a record without `protocol` ends the load with the partial table, and the malformed record after it is never looked at |
| `Lookup.ExampleRaisesOnNonNumericPort` | main.py:11-15 | a concrete load: a non-numeric `dstport` makes the call raise, even when an earlier record was stored and the same record lacks `protocol` |

## Left out

- Opening the file and `csv.DictReader` (main.py:7-8): this is file I/O plus
  a library parser. Records are taken as already-parsed maps from column name
  to text. Because `DictReader` gives every record the header's keys, a
  column missing from the header stops loading at the first record. The
  result is then an empty table, or a `ValueError` when an earlier field of
  that record does not convert (header `dstport,tag`, first record `abc,x`).
  The general stop-at-the-record rule covers both cases.
- `DictReader` fills the fields a short record lacks with `None`. When a
  missing field is `dstport` or `protocol`, `int(None)` raises `TypeError`,
  which is not caught either. When only `tag` is missing, main.py:14 stores
  `None` as the tag and loading continues. `DictReader` also puts the extra
  fields of a long record under the key `None`. A record here maps strings
  to strings, so none of these cases arises in the model.
- `FileNotFoundError` and other errors from `open`: these are I/O, and they
  propagate unchanged.
- The `print` of the `KeyError` message (main.py:16): console output that
  has no effect on the returned table.
- The `__main__` block (main.py:20-21): one call with a fixed path.
- Protocol-name resolution, the 146-252 reserved range, tag classification,
  the tag and port/protocol counters and the report layout: no code for them
  exists in the repository, so there is nothing to model.
- ParseInt: rejects strings Python's `int` accepts. Python strips surrounding
  whitespace, allows single underscores between digits and accepts non-ASCII
  Unicode digits. On such strings the model reports a `ValueError` where
  Python returns a number. It also has no digit limit: CPython 3.11 and later
  (and the 3.10.7, 3.9.14, 3.8.14 and 3.7.14 releases) raise `ValueError` in
  `int(s)` and in `str(n)` beyond `sys.get_int_max_str_digits()` digits,
  4300 by default. A record whose `dstport` has 4301 digits makes the Python
  call raise with no table, while the model stores it and goes on.
- ParseFormat: holds for every integer only without that digit limit.
- Dictionary order: a Python `dict` remembers insertion order and a Dafny
  `map` has none. Nothing in `load_lookup` reads that order, so the model
  says which keys and values the table holds but not their order.
