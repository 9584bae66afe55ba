/**
 * `load_lookup` (main.py): the loop that folds the records of a lookup CSV
 * into a table keyed by (destination port, protocol number) whose values are
 * tags.
 *
 * Each record is a dictionary from column name to field text. For each
 * record, in order, the loop reads `dstport` and converts it with `int`,
 * reads `protocol` and converts it with `int`, reads `tag`, and stores the
 * tag under the pair; a later record with the same pair overwrites an
 * earlier one. A missing column raises `KeyError`, which is caught around
 * the whole loop: loading stops at that record and the table built so far
 * is returned. A field `int` rejects raises `ValueError`, which nothing
 * catches: the call fails and no table is returned.
 */
module Lookup {
  import opened Wrappers
  import opened PyInt

  /** One CSV record: column name to field text. */
  type Row = map<string, string>

  /** (destination port, protocol number) */
  type Key = (int, int)

  type Table = map<Key, string>

  /** One stored pair: key and tag. */
  type Entry = (Key, string)

  const DstPortColumn: string := "dstport"
  const ProtocolColumn: string := "protocol"
  const TagColumn: string := "tag"

  /** What the loop body does with one record. */
  datatype RowStep =
    | Insert(key: Key, tag: string)   // all reads and conversions succeeded
    | MissingColumn(column: string)   // a read raised KeyError
    | BadInteger(column: string)      // a conversion raised ValueError

  /** How a call of `load_lookup` ends. */
  datatype Outcome =
    | Completed(table: Table)                  // every record was stored
    | StoppedAtMissingColumn(table: Table, row: nat, column: string)
                                               // KeyError at record `row`; `table` is still returned
    | IntParseError(row: nat, column: string)  // ValueError escaped from record `row`
  {
    /** The table the caller receives, or `None` when the call raises. */
    function Returned(): Option<Table> {
      if IntParseError? then None else Some(table)
    }
  }

  /** Every read and conversion the loop body performs before it reads
      `column` succeeds on `row`. */
  predicate ReachesRead(row: Row, column: string) {
    && (column in {ProtocolColumn, TagColumn} ==>
          DstPortColumn in row && ParseInt(row[DstPortColumn]).Some?)
    && (column == TagColumn ==>
          ProtocolColumn in row && ParseInt(row[ProtocolColumn]).Some?)
  }

  /**
   * The loop body on one record. The reads and conversions happen in the
   * order the source performs them, so the first one that fails decides:
   * a non-numeric `dstport` raises ValueError even when `protocol` is absent.
   */
  function Step(row: Row): (r: RowStep)
    ensures r.Insert? <==>
      && DstPortColumn in row && ParseInt(row[DstPortColumn]).Some?
      && ProtocolColumn in row && ParseInt(row[ProtocolColumn]).Some?
      && TagColumn in row
    ensures r.Insert? ==>
      && r.key == (ParseInt(row[DstPortColumn]).value, ParseInt(row[ProtocolColumn]).value)
      && r.tag == row[TagColumn]
    ensures r.MissingColumn? ==>
      r.column !in row && r.column in {DstPortColumn, ProtocolColumn, TagColumn}
    ensures r.BadInteger? ==>
      r.column in row && ParseInt(row[r.column]).None? && r.column in {DstPortColumn, ProtocolColumn}
    ensures !r.Insert? ==> ReachesRead(row, r.column)
  {
    if DstPortColumn !in row then MissingColumn(DstPortColumn)
    else if ParseInt(row[DstPortColumn]).None? then BadInteger(DstPortColumn)
    else if ProtocolColumn !in row then MissingColumn(ProtocolColumn)
    else if ParseInt(row[ProtocolColumn]).None? then BadInteger(ProtocolColumn)
    else if TagColumn !in row then MissingColumn(TagColumn)
    else Insert((ParseInt(row[DstPortColumn]).value, ParseInt(row[ProtocolColumn]).value), row[TagColumn])
  }

  /** The loop body's verdict on each record, in order. */
  function Steps(rows: seq<Row>): (ss: seq<RowStep>)
    ensures |ss| == |rows|
    ensures forall j :: 0 <= j < |rows| ==> ss[j] == Step(rows[j])
  {
    if rows == [] then [] else [Step(rows[0])] + Steps(rows[1..])
  }

  /** What `load_lookup` does with its records. */
  function Load(rows: seq<Row>): Outcome {
    Run(Steps(rows))
  }

  // ---------------------------------------------------------------------
  // The loop's control flow, over the verdicts of the loop body

  /** Every record completes the loop body. */
  predicate AllInsert(ss: seq<RowStep>) {
    forall j :: 0 <= j < |ss| ==> ss[j].Insert?
  }

  /** The number of leading records that complete the loop body. */
  function Processed(ss: seq<RowStep>): (n: nat)
    ensures n <= |ss|
    ensures AllInsert(ss[..n])
    ensures n < |ss| ==> !ss[n].Insert?
  {
    if ss == [] then 0
    else if ss[0].Insert? then
      var n := 1 + Processed(ss[1..]);
      assert ss[..n] == [ss[0]] + ss[1..][..n - 1];
      n
    else 0
  }

  /** The (key, tag) pairs that records which all complete store, in order. */
  function Entries(ss: seq<RowStep>): (es: seq<Entry>)
    requires AllInsert(ss)
    ensures |es| == |ss|
    ensures forall j :: 0 <= j < |ss| ==> ss[j] == Insert(es[j].0, es[j].1)
    decreases |ss|
  {
    if ss == [] then []
    else
      var init := ss[..|ss| - 1];
      assert forall j :: 0 <= j < |init| ==> init[j] == ss[j];
      Entries(init) + [(ss[|ss| - 1].key, ss[|ss| - 1].tag)]
  }

  /** The dictionary that storing the entries one after another leaves. */
  function Fold(es: seq<Entry>): Table
    decreases |es|
  {
    if es == [] then map[] else Fold(es[..|es| - 1])[es[|es| - 1].0 := es[|es| - 1].1]
  }

  /**
   * The loop over the verdicts: store the entries of the records that
   * complete, up to the first that does not; that record decides how the
   * call ends.
   */
  function Run(ss: seq<RowStep>): Outcome {
    var n := Processed(ss);
    var table := Fold(Entries(ss[..n]));
    if n == |ss| then Completed(table)
    else match ss[n]
      case MissingColumn(c) => StoppedAtMissingColumn(table, n, c)
      case BadInteger(c) => IntParseError(n, c)
  }

  /** The reads and conversions of the loop body on one record, in the
      source's order; the first that fails ends the body. */
  method ReadRow(row: Row) returns (step: RowStep)
    ensures step == Step(row)
  {
    if DstPortColumn !in row {
      return MissingColumn(DstPortColumn);
    }
    var dstport := ParseInt(row[DstPortColumn]);
    if dstport.None? {
      return BadInteger(DstPortColumn);
    }
    if ProtocolColumn !in row {
      return MissingColumn(ProtocolColumn);
    }
    var protocol := ParseInt(row[ProtocolColumn]);
    if protocol.None? {
      return BadInteger(ProtocolColumn);
    }
    if TagColumn !in row {
      return MissingColumn(TagColumn);
    }
    var tag := row[TagColumn];
    return Insert((dstport.value, protocol.value), tag);
  }

  /** The loop of `load_lookup`, over records already read from the file. */
  method LoadLookup(rows: seq<Row>) returns (r: Outcome)
    ensures r == Load(rows)
    ensures rows == [] ==> r == Completed(map[])
  {
    ghost var ss := Steps(rows);
    var lookup: Table := map[];
    var i := 0;
    while i < |rows|
      invariant i <= |rows|
      invariant AllInsert(ss[..i])
      invariant lookup == Fold(Entries(ss[..i]))
    {
      var step := ReadRow(rows[i]);
      assert step == ss[i];
      match step
      case MissingColumn(column) =>
        RunStopsAt(ss, i);
        return StoppedAtMissingColumn(lookup, i, column);
      case BadInteger(column) =>
        RunStopsAt(ss, i);
        return IntParseError(i, column);
      case Insert(key, tag) =>
        EntriesSnoc(ss, i);
        lookup := lookup[key := tag];
        i := i + 1;
    }
    assert ss[..i] == ss;
    return Completed(lookup);
  }

  /** One more completing record extends the stored entries by its pair. */
  lemma EntriesSnoc(ss: seq<RowStep>, i: nat)
    requires i < |ss| && AllInsert(ss[..i]) && ss[i].Insert?
    ensures AllInsert(ss[..i + 1])
    ensures Entries(ss[..i + 1]) == Entries(ss[..i]) + [(ss[i].key, ss[i].tag)]
  {
  }

  // ---------------------------------------------------------------------
  // Properties of the fold

  /** A key is in the table exactly when some entry has it. */
  lemma {:induction false} FoldDomain(es: seq<Entry>, k: Key)
    ensures k in Fold(es) <==> exists j :: 0 <= j < |es| && es[j].0 == k
    decreases |es|
  {
    if es != [] {
      var init := es[..|es| - 1];
      FoldDomain(init, k);
      if exists j :: 0 <= j < |init| && init[j].0 == k {
        var j :| 0 <= j < |init| && init[j].0 == k;
        assert es[j] == init[j];
      }
      if exists j :: 0 <= j < |es| && es[j].0 == k {
        var j :| 0 <= j < |es| && es[j].0 == k;
        if j < |init| { assert init[j] == es[j]; }
      }
    }
  }

  /** Every key holds the tag of some entry with that key, and no later
      entry has the key. */
  lemma {:induction false} FoldValue(es: seq<Entry>, k: Key)
    requires k in Fold(es)
    ensures exists j :: 0 <= j < |es| && es[j] == (k, Fold(es)[k]) &&
                        forall i :: j < i < |es| ==> es[i].0 != k
    decreases |es|
  {
    var init := es[..|es| - 1];
    if es[|es| - 1].0 != k {
      FoldValue(init, k);
      var j :| 0 <= j < |init| && init[j] == (k, Fold(init)[k]) &&
               forall i :: j < i < |init| ==> init[i].0 != k;
      assert es[j] == init[j];
      forall i | j < i < |es| ensures es[i].0 != k {
        if i < |init| { assert es[i] == init[i]; }
      }
    }
  }

  /** The value under a key is the tag of the LAST entry with that key. */
  lemma {:induction false} FoldLastWriteWins(es: seq<Entry>, j: nat)
    requires j < |es|
    requires forall i :: j < i < |es| ==> es[i].0 != es[j].0
    ensures es[j].0 in Fold(es) && Fold(es)[es[j].0] == es[j].1
    decreases |es|
  {
    var init := es[..|es| - 1];
    if j < |init| {
      assert init[j] == es[j];
      forall i | j < i < |init| ensures init[i].0 != init[j].0 {
        assert init[i] == es[i];
      }
      FoldLastWriteWins(init, j);
    }
  }

  /** The table has at most one entry per stored pair. */
  lemma {:induction false} FoldSize(es: seq<Entry>)
    ensures |Fold(es)| <= |es|
    decreases |es|
  {
    if es != [] {
      var init := es[..|es| - 1];
      FoldSize(init);
      var t := Fold(init);
      var k := es[|es| - 1].0;
      if k in t {
        assert t[k := es[|es| - 1].1].Keys == t.Keys;
      } else {
        assert t[k := es[|es| - 1].1].Keys == t.Keys + {k};
      }
    }
  }

  // ---------------------------------------------------------------------
  // Properties of the whole load

  /** The record count at which every earlier record completes and the
      record there (if any) does not is the processed count. */
  lemma ProcessedIs(ss: seq<RowStep>, j: nat)
    requires j <= |ss| && AllInsert(ss[..j])
    requires j < |ss| ==> !ss[j].Insert?
    ensures Processed(ss) == j
  {
    var n := Processed(ss);
    assert forall k :: 0 <= k < j ==> ss[..j][k] == ss[k];
    assert forall k :: 0 <= k < n ==> ss[..n][k] == ss[k];
  }

  /** The first record that does not complete ends the load. On a missing
      column the table built by the records before it is returned and nothing
      for that record is stored; on a failed conversion nothing is returned. */
  lemma RunStopsAt(ss: seq<RowStep>, j: nat)
    requires j < |ss|
    requires AllInsert(ss[..j])
    requires !ss[j].Insert?
    ensures ss[j].MissingColumn? ==>
      Run(ss) == StoppedAtMissingColumn(Fold(Entries(ss[..j])), j, ss[j].column)
    ensures ss[j].BadInteger? ==> Run(ss) == IntParseError(j, ss[j].column)
  {
    ProcessedIs(ss, j);
  }

  /** Once a load stops, the records after the stopping one are never looked at. */
  lemma RunIgnoresLaterRows(ss: seq<RowStep>, more: seq<RowStep>)
    requires !Run(ss).Completed?
    ensures Run(ss + more) == Run(ss)
  {
    var n := Processed(ss);
    var all := ss + more;
    assert all[..n] == ss[..n];
    assert all[n] == ss[n];
    RunStopsAt(all, n);
  }

  /** A missing column never makes the call raise: the call raises exactly
      when the first record that does not complete has a failed conversion. */
  lemma RunRaisesOnlyOnBadInteger(ss: seq<RowStep>)
    ensures Run(ss).Returned().None? <==>
      exists j :: 0 <= j < |ss| && AllInsert(ss[..j]) && ss[j].BadInteger?
  {
  }

  /** A returned table is the one the finished records built. */
  lemma RunReturnedTable(ss: seq<RowStep>, t: Table)
    requires Run(ss).Returned() == Some(t)
    ensures t == Fold(Entries(ss[..Processed(ss)]))
  {
  }

  /** Every record the loop finished has its key in a returned table. */
  lemma RunKeepsEveryFinishedKey(ss: seq<RowStep>, t: Table)
    requires Run(ss).Returned() == Some(t)
    ensures forall j :: 0 <= j < Processed(ss) ==> ss[j].key in t
  {
    var n := Processed(ss);
    var done := ss[..n];
    var es := Entries(done);
    RunReturnedTable(ss, t);
    forall j | 0 <= j < n ensures ss[j].key in t {
      assert done[j] == ss[j];
      FoldDomain(es, es[j].0);
    }
  }

  /** The keys of a returned table are keys of records the loop finished
      (and, by `RunKeepsEveryFinishedKey`, all of them). Every entry carries the tag of a finished record with
      its key after which no finished record has that key, and there are no
      more entries than finished records. */
  lemma RunTableFromProcessedRows(ss: seq<RowStep>, t: Table)
    requires Run(ss).Returned() == Some(t)
    ensures |t| <= Processed(ss)
    ensures forall k :: k in t ==> exists j :: 0 <= j < Processed(ss) && ss[j] == Insert(k, t[k]) &&
                                      forall i :: j < i < Processed(ss) ==> ss[i].key != k
  {
    var n := Processed(ss);
    RunReturnedTable(ss, t);
    FoldSize(Entries(ss[..n]));
    PrefixTableOrigin(ss, n);
  }

  /** Every entry of the table the first `n` records build is the key and
      tag of one of them, after which none of them has that key. */
  lemma PrefixTableOrigin(ss: seq<RowStep>, n: nat)
    requires n <= |ss| && AllInsert(ss[..n])
    ensures forall k :: k in Fold(Entries(ss[..n])) ==>
      exists j :: 0 <= j < n && ss[j] == Insert(k, Fold(Entries(ss[..n]))[k]) &&
                  forall i :: j < i < n ==> ss[i].key != k
  {
    var done := ss[..n];
    var es := Entries(done);
    var t := Fold(es);
    forall k | k in t
      ensures exists j :: 0 <= j < n && ss[j] == Insert(k, t[k]) &&
                          forall i :: j < i < n ==> ss[i].key != k
    {
      FoldValue(es, k);
      var j :| 0 <= j < |es| && es[j] == (k, t[k]) && forall i :: j < i < |es| ==> es[i].0 != k;
      assert done[j] == ss[j];
      forall i | j < i < n ensures ss[i].key != k {
        assert done[i] == ss[i];
      }
    }
  }

  /** The returned table holds, under the key of a finished record, that
      record's tag when no later finished record has the same key: of
      several finished records with one key, the last decides. */
  lemma RunLastRowWins(ss: seq<RowStep>, t: Table, j: nat)
    requires Run(ss).Returned() == Some(t)
    requires j < Processed(ss)
    requires forall m :: j < m < Processed(ss) ==> ss[m].key != ss[j].key
    ensures ss[j].key in t && t[ss[j].key] == ss[j].tag
  {
    var n := Processed(ss);
    var done := ss[..n];
    var es := Entries(done);
    RunReturnedTable(ss, t);
    assert done[j] == ss[j];
    forall m | j < m < |es| ensures es[m].0 != es[j].0 {
      assert done[m] == ss[m];
    }
    FoldLastWriteWins(es, j);
  }

  // ---------------------------------------------------------------------
  // Worked examples

  /** The loop body's verdicts on the records of the first example. */
  lemma ExampleStopsSteps()
    ensures Steps([
      map["dstport" := "443", "protocol" := "6", "tag" := "web"],
      map["dstport" := "443", "protocol" := "6", "tag" := "https"],
      map["dstport" := "25", "tag" := "mail"],
      map["dstport" := "x"]
    ]) == [Insert((443, 6), "web"), Insert((443, 6), "https"),
           MissingColumn("protocol"), BadInteger("dstport")]
  {
    var r0 := map["dstport" := "443", "protocol" := "6", "tag" := "web"];
    var r1 := map["dstport" := "443", "protocol" := "6", "tag" := "https"];
    var r2 := map["dstport" := "25", "tag" := "mail"];
    var r3 := map["dstport" := "x"];
    assert ParseInt("443") == Some(443) by { ParseFormat(443); assert FormatInt(443) == "443"; }
    assert ParseInt("6") == Some(6) by { ParseFormat(6); assert FormatInt(6) == "6"; }
    assert ParseInt("25") == Some(25) by { ParseFormat(25); assert FormatInt(25) == "25"; }
    assert ParseInt("x") == None by { assert !IsDigit("x"[0]); }
    assert Step(r0) == Insert((443, 6), "web");
    assert Step(r1) == Insert((443, 6), "https");
    assert Step(r2) == MissingColumn("protocol");
    assert Step(r3) == BadInteger("dstport");
  }

  /** A repeated key keeps the later tag; a record without `protocol` ends
      the load, so neither it nor the malformed record after it has any effect. */
  lemma ExampleStopsAtMissingProtocol()
    ensures Load([
      map["dstport" := "443", "protocol" := "6", "tag" := "web"],
      map["dstport" := "443", "protocol" := "6", "tag" := "https"],
      map["dstport" := "25", "tag" := "mail"],
      map["dstport" := "x"]
    ]) == StoppedAtMissingColumn(map[(443, 6) := "https"], 2, "protocol")
  {
    ExampleStopsSteps();
    var ss := [Insert((443, 6), "web"), Insert((443, 6), "https"),
               MissingColumn("protocol"), BadInteger("dstport")];
    var done := [Insert((443, 6), "web"), Insert((443, 6), "https")];
    assert ss[..2] == done;
    assert Entries(done) == [((443, 6), "web"), ((443, 6), "https")] by {
      assert done[..1] == [Insert((443, 6), "web")];
    }
    assert Fold([((443, 6), "web"), ((443, 6), "https")]) == map[(443, 6) := "https"] by {
      assert [((443, 6), "web"), ((443, 6), "https")][..1] == [((443, 6), "web")];
    }
    RunStopsAt(ss, 2);
  }

  /** A conversion failure before any missing column makes the call raise,
      even when earlier records were stored. */
  lemma ExampleRaisesOnNonNumericPort()
    ensures Load([
      map["dstport" := "22", "protocol" := "6", "tag" := "ssh"],
      map["dstport" := "ssh", "tag" := "ssh"]
    ]).Returned() == None
  {
    var r0 := map["dstport" := "22", "protocol" := "6", "tag" := "ssh"];
    var r1 := map["dstport" := "ssh", "tag" := "ssh"];
    assert ParseInt("22") == Some(22) by { ParseFormat(22); assert FormatInt(22) == "22"; }
    assert ParseInt("6") == Some(6) by { ParseFormat(6); assert FormatInt(6) == "6"; }
    assert ParseInt("ssh") == None by { assert !IsDigit("ssh"[0]); }
    assert Step(r0) == Insert((22, 6), "ssh");
    assert Step(r1) == BadInteger("dstport");
    var ss := Steps([r0, r1]);
    assert ss[0] == Step(r0) && ss[1] == Step(r1);
    assert AllInsert(ss[..1]);
    RunStopsAt(ss, 1);
  }
}
