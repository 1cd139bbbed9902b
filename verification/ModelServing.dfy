/** The model-serving run that the scheduler starts for a base timestamp: where it can stop, the
    order of its table writes, and the evidence that it leaves. */
module ModelServing {
  import opened Wrappers
  import opened Database

  /** Forecast horizons per feature vector. */
  const HORIZONS: nat := 4

  /** The run ids that the scheduler lanes make up, and any other. */
  datatype RunId = ServicePmax(base: int) | ServiceAnomaly(origin: int) | Named(name: string)

  /** The packet id of an evidence row is hashed from the run id and the forecast origin. */
  datatype Packet = Packet(run: RunId, origin: int)

  datatype EvidenceRow = EvidenceRow(writesEnabled: bool, pmaxPredictions: nat)

  type EvidenceTable = map<Packet, EvidenceRow>

  predicate Counts(row: EvidenceRow) {
    row.writesEnabled && row.pmaxPredictions > 0
  }

  /** The bases that pmax_serving_evidence_exists finds evidence for. */
  function CountingBases(evidence: EvidenceTable): set<int> {
    set p | p in evidence && Counts(evidence[p]) :: p.origin
  }

  datatype Table =
    | PmaxForecast | PmaxLog | PmaxEvaluation | AnomalyWarning | AnomalyLog | AnomalyEvaluation | ServingEvidence

  datatype TableBatch = TableBatch(table: Table, rows: nat)

  datatype ServingArgs = ServingArgs(run: RunId, base: int, executeWrite: bool, skipPmax: bool)

  /** What a run meets: whether a gate, a read or a prediction ends it before it has a batch, the
      P-Max feature vectors and anomaly rows it gets, whether the environment allows writes, the
      table whose transaction does not go well, if any, and how the database answers that one,
      and whether the run is still alive to report after its last write. */
  datatype Meets = Meets(stops: bool, features: nat, anomalies: nat, writesAllowed: bool,
                         fails: Option<Table>, answer: Reply, reports: bool)
  {
    function ReplyFor(table: Table): Reply {
      if fails == Some(table) then answer else Committed
    }
  }

  /** What the caller learns, and the evidence table afterwards. */
  datatype Served = Served(ok: bool, evidence: EvidenceTable)

  function PmaxRows(args: ServingArgs, meets: Meets): nat {
    if args.skipPmax then 0 else meets.features * HORIZONS
  }

  /** build_model_serving_write_batch: the tables in the order in which they are written. */
  function Batches(pmaxRows: nat, anomalies: nat): seq<TableBatch> {
    [TableBatch(PmaxForecast, pmaxRows),
     TableBatch(PmaxLog, if pmaxRows > 0 then 1 else 0),
     TableBatch(PmaxEvaluation, 0),
     TableBatch(AnomalyWarning, anomalies),
     TableBatch(AnomalyLog, if anomalies > 0 then 1 else 0),
     TableBatch(AnomalyEvaluation, 0),
     TableBatch(ServingEvidence, 1)]
  }

  /** The evidence row of a run that writes. */
  function EvidenceOf(args: ServingArgs, meets: Meets): EvidenceRow {
    EvidenceRow(args.executeWrite, PmaxRows(args, meets))
  }

  function PacketOf(args: ServingArgs): Packet {
    Packet(args.run, args.base)
  }

  /** Transaction after transaction, until one is not answered with a commit. */
  function WriteFrom(batches: seq<TableBatch>, meets: Meets, packet: Packet, row: EvidenceRow,
                     evidence: EvidenceTable): Served
    decreases |batches|
  {
    if batches == [] then Served(true, evidence)
    else if batches[0].rows == 0 then WriteFrom(batches[1..], meets, packet, row, evidence)
    else
      var reply := meets.ReplyFor(batches[0].table);
      var after := if batches[0].table.ServingEvidence? && reply != Refused then evidence[packet := row] else evidence;
      if reply == Committed then WriteFrom(batches[1..], meets, packet, row, after) else Served(false, after)
  }

  /** main of the run. A run without writes reports success although it wrote nothing. */
  function AfterServing(args: ServingArgs, meets: Meets, evidence: EvidenceTable): Served {
    if meets.stops || (!args.skipPmax && meets.features == 0) then Served(false, evidence)
    else if !args.executeWrite then Served(meets.reports, evidence)
    else if !meets.writesAllowed then Served(false, evidence)
    else
      var batches := Batches(PmaxRows(args, meets), meets.anomalies);
      var written := WriteFrom(batches, meets, PacketOf(args), EvidenceOf(args, meets), evidence);
      written.(ok := written.ok && meets.reports)
  }

  /** write_model_serving_batch: the loop over the tables. */
  method WriteBatch(batches: seq<TableBatch>, meets: Meets, packet: Packet, row: EvidenceRow, evidence: EvidenceTable)
    returns (written: Served)
    ensures written == WriteFrom(batches, meets, packet, row, evidence)
  {
    var after := evidence;
    var i := 0;
    while i < |batches|
      invariant 0 <= i <= |batches|
      invariant WriteFrom(batches[i..], meets, packet, row, after) == WriteFrom(batches, meets, packet, row, evidence)
    {
      var batch := batches[i];
      assert batches[i..][0] == batch && batches[i..][1..] == batches[i + 1..];
      i := i + 1;
      if batch.rows == 0 {
        continue;
      }
      var reply := meets.ReplyFor(batch.table);
      if batch.table.ServingEvidence? && reply != Refused {
        after := after[packet := row];
      }
      if reply != Committed {
        return Served(false, after);
      }
    }
    written := Served(true, after);
  }

  method RunModelServing(args: ServingArgs, meets: Meets, evidence: EvidenceTable) returns (served: Served)
    ensures served == AfterServing(args, meets, evidence)
    ensures served.ok && args.executeWrite && !args.skipPmax ==> args.base in CountingBases(served.evidence)
  {
    if args.executeWrite && !args.skipPmax {
      SuccessLeavesEvidence(args, meets, evidence);
    }
    if meets.stops || (!args.skipPmax && meets.features == 0) {
      return Served(false, evidence);
    }
    if !args.executeWrite {
      return Served(meets.reports, evidence);
    }
    if !meets.writesAllowed {
      return Served(false, evidence);
    }
    var pmaxRows := if args.skipPmax then 0 else meets.features * HORIZONS;
    var row := EvidenceRow(args.executeWrite, pmaxRows);
    served := WriteBatch(Batches(pmaxRows, meets.anomalies), meets, Packet(args.run, args.base), row, evidence);
    served := Served(served.ok && meets.reports, served.evidence);
  }

  /** Whatever fails, the evidence table is as before or has the run's own row; when all writes
      are in, it has that row if the evidence table was among them. */
  lemma {:induction false} WritesOwnRow(batches: seq<TableBatch>, meets: Meets, packet: Packet, row: EvidenceRow,
                                        evidence: EvidenceTable)
    ensures var written := WriteFrom(batches, meets, packet, row, evidence);
            && (written.evidence == evidence || written.evidence == evidence[packet := row])
            && (written.ok && (exists b :: b in batches && b.table.ServingEvidence? && b.rows > 0) ==>
                  written.evidence == evidence[packet := row])
    decreases |batches|
  {
    if batches != [] {
      assert batches == [batches[0]] + batches[1..];
      WritesOwnRow(batches[1..], meets, packet, row, evidence);
      WritesOwnRow(batches[1..], meets, packet, row, evidence[packet := row]);
      assert evidence[packet := row][packet := row] == evidence[packet := row];
    }
  }

  lemma ServingWritesOwnRow(args: ServingArgs, meets: Meets, evidence: EvidenceTable)
    ensures var served := AfterServing(args, meets, evidence);
            var own := evidence[PacketOf(args) := EvidenceOf(args, meets)];
            && (served.evidence == evidence || served.evidence == own)
            && (served.ok && args.executeWrite ==> served.evidence == own)
            && (served.evidence != evidence ==> args.executeWrite && (!args.skipPmax ==> meets.features > 0))
  {
    var batches := Batches(PmaxRows(args, meets), meets.anomalies);
    WritesOwnRow(batches, meets, PacketOf(args), EvidenceOf(args, meets), evidence);
    assert batches[6] in batches && batches[6].table.ServingEvidence?;
  }

  lemma CountingRowAdds(evidence: EvidenceTable, packet: Packet, row: EvidenceRow)
    requires Counts(row)
    ensures CountingBases(evidence[packet := row]) == CountingBases(evidence) + {packet.origin}
  {
    var after := evidence[packet := row];
    assert packet in after && Counts(after[packet]);
    forall b | b in CountingBases(evidence)
      ensures b in CountingBases(after)
    {
      var p :| p in evidence && Counts(evidence[p]) && p.origin == b;
      assert p in after && Counts(after[p]);
    }
    forall b | b in CountingBases(after)
      ensures b in CountingBases(evidence) + {packet.origin}
    {
      var p :| p in after && Counts(after[p]) && p.origin == b;
      assert p != packet ==> p in evidence && Counts(evidence[p]);
    }
  }

  /** A run that writes and makes P-Max predictions succeeds only with counting evidence for its
      base, touches the evidence of no other base and takes none away. */
  lemma SuccessLeavesEvidence(args: ServingArgs, meets: Meets, evidence: EvidenceTable)
    requires args.executeWrite && !args.skipPmax
    ensures var served := AfterServing(args, meets, evidence);
            && (served.ok ==> args.base in CountingBases(served.evidence))
            && CountingBases(evidence) <= CountingBases(served.evidence) <= CountingBases(evidence) + {args.base}
  {
    ServingWritesOwnRow(args, meets, evidence);
    if meets.features > 0 {
      CountingRowAdds(evidence, PacketOf(args), EvidenceOf(args, meets));
    }
  }

  /** Success means evidence, for whatever the run meets, if and only if the run is told to
      write and not to skip P-Max. */
  lemma SuccessMeansEvidenceIff(args: ServingArgs)
    ensures (forall meets, evidence ::
               AfterServing(args, meets, evidence).ok
               ==> args.base in CountingBases(AfterServing(args, meets, evidence).evidence))
            <==> args.executeWrite && !args.skipPmax
  {
    if args.executeWrite && !args.skipPmax {
      forall meets, evidence | AfterServing(args, meets, evidence).ok
        ensures args.base in CountingBases(AfterServing(args, meets, evidence).evidence)
      {
        SuccessLeavesEvidence(args, meets, evidence);
      }
    } else {
      var meets := Meets(false, 1, 0, true, None, Committed, true);
      AllWritesGoWell(Batches(PmaxRows(args, meets), 0), meets, PacketOf(args), EvidenceOf(args, meets), map[]);
      ServingWritesOwnRow(args, meets, map[]);
      var served := AfterServing(args, meets, map[]);
      assert served.ok;
      assert forall p :: p in served.evidence ==> !Counts(served.evidence[p]);
    }
  }

  lemma {:induction false} AllWritesGoWell(batches: seq<TableBatch>, meets: Meets, packet: Packet, row: EvidenceRow,
                                           evidence: EvidenceTable)
    requires meets.fails.None?
    ensures WriteFrom(batches, meets, packet, row, evidence).ok
    decreases |batches|
  {
    if batches != [] {
      AllWritesGoWell(batches[1..], meets, packet, row, evidence);
      AllWritesGoWell(batches[1..], meets, packet, row, evidence[packet := row]);
    }
  }

  /** The converse fails: a run that dies after its last write leaves evidence for a base that
      its caller never learns of. */
  lemma EvidenceWithoutSuccess(args: ServingArgs, meets: Meets, evidence: EvidenceTable)
    requires args.executeWrite && !args.skipPmax
    requires !meets.stops && meets.features > 0 && meets.writesAllowed && meets.fails.None? && !meets.reports
    ensures var served := AfterServing(args, meets, evidence);
            !served.ok && args.base in CountingBases(served.evidence)
  {
    var batches := Batches(PmaxRows(args, meets), meets.anomalies);
    AllWritesGoWell(batches, meets, PacketOf(args), EvidenceOf(args, meets), evidence);
    WritesOwnRow(batches, meets, PacketOf(args), EvidenceOf(args, meets), evidence);
    assert batches[6] in batches && batches[6].table.ServingEvidence?;
    CountingRowAdds(evidence, PacketOf(args), EvidenceOf(args, meets));
  }

  // ----- Where a run stops, table by table -----------------------------------------------

  /** A run gets as far as its first write. */
  predicate Writes(args: ServingArgs, meets: Meets) {
    args.executeWrite && !meets.stops && meets.writesAllowed && (args.skipPmax || meets.features > 0)
  }

  /** The run has rows for the table: a log row goes with the rows it logs, and evaluations have none. */
  predicate HasRows(args: ServingArgs, meets: Meets, table: Table) {
    match table
    case PmaxForecast => !args.skipPmax && meets.features > 0
    case PmaxLog => !args.skipPmax && meets.features > 0
    case PmaxEvaluation => false
    case AnomalyWarning => meets.anomalies > 0
    case AnomalyLog => meets.anomalies > 0
    case AnomalyEvaluation => false
    case ServingEvidence => true
  }

  /** The table whose transaction goes wrong, if it is one that the run writes. */
  predicate FailsAt(args: ServingArgs, meets: Meets, table: Table) {
    meets.fails == Some(table) && meets.answer != Committed && HasRows(args, meets, table)
  }

  /** The evidence is written last: the run's own row is in exactly if the run writes, no other table
      it writes fails, and the database does not refuse the evidence itself. The row has four
      predictions for each feature vector. */
  lemma EvidenceIff(args: ServingArgs, meets: Meets, evidence: EvidenceTable)
    ensures var predictions := if args.skipPmax then 0 else 4 * meets.features;
            AfterServing(args, meets, evidence).evidence
            == if Writes(args, meets)
                  && (forall table :: table != ServingEvidence ==> !FailsAt(args, meets, table))
                  && !(meets.fails == Some(ServingEvidence) && meets.answer == Refused)
               then evidence[Packet(args.run, args.base) := EvidenceRow(true, predictions)]
               else evidence
  {
    WrittenInOrder(args, meets, evidence);
  }

  /** A run reports success exactly if it is alive to do so, no gate stops it, and, when it is told to
      write, it may and every table it writes is committed. */
  lemma SuccessIff(args: ServingArgs, meets: Meets, evidence: EvidenceTable)
    ensures AfterServing(args, meets, evidence).ok <==>
            && meets.reports && !meets.stops && (args.skipPmax || meets.features > 0)
            && (args.executeWrite ==> meets.writesAllowed && forall table :: !FailsAt(args, meets, table))
  {
    WrittenInOrder(args, meets, evidence);
  }

  /** Every table that has rows is answered with a commit. */
  ghost predicate Smooth(batches: seq<TableBatch>, meets: Meets) {
    forall k :: 0 <= k < |batches| && batches[k].rows > 0 ==> meets.ReplyFor(batches[k].table) == Committed
  }

  /** Tables before the evidence leave it alone; it is reached exactly if they go well. */
  lemma {:induction false} FrontThenLast(front: seq<TableBatch>, last: TableBatch, meets: Meets, packet: Packet,
                                         row: EvidenceRow, evidence: EvidenceTable)
    requires forall k :: 0 <= k < |front| ==> front[k].table != ServingEvidence
    ensures WriteFrom(front + [last], meets, packet, row, evidence)
         == if Smooth(front, meets) then WriteFrom([last], meets, packet, row, evidence) else Served(false, evidence)
    decreases |front|
  {
    if front == [] {
      assert front + [last] == [last];
    } else {
      assert (front + [last])[1..] == front[1..] + [last];
      FrontThenLast(front[1..], last, meets, packet, row, evidence);
      assert Smooth(front, meets) <==>
        (front[0].rows > 0 ==> meets.ReplyFor(front[0].table) == Committed) && Smooth(front[1..], meets) by {
        assert front == [front[0]] + front[1..];
      }
    }
  }

  /** The tables of a run that are written before its evidence. */
  function Predictions(args: ServingArgs, meets: Meets): seq<TableBatch> {
    Batches(PmaxRows(args, meets), meets.anomalies)[..6]
  }

  lemma SmoothIff(args: ServingArgs, meets: Meets)
    ensures Smooth(Predictions(args, meets), meets) <==>
            forall table :: table != ServingEvidence ==> !FailsAt(args, meets, table)
  {
    var front := Predictions(args, meets);
    if Smooth(front, meets) {
      forall table | table != ServingEvidence
        ensures !FailsAt(args, meets, table)
      {
        var place := match table
          case PmaxForecast => 0
          case PmaxLog => 1
          case PmaxEvaluation => 2
          case AnomalyWarning => 3
          case AnomalyLog => 4
          case _ => 5;
        assert front[place].table == table;
        assert front[place].rows > 0 <==> HasRows(args, meets, table);
      }
    }
    forall k | 0 <= k < 6 && front[k].rows > 0 && meets.ReplyFor(front[k].table) != Committed
      ensures FailsAt(args, meets, front[k].table) && front[k].table != ServingEvidence
    {
    }
  }

  lemma LastTable(last: TableBatch, meets: Meets, packet: Packet, row: EvidenceRow, evidence: EvidenceTable)
    requires last.table == ServingEvidence && last.rows > 0
    ensures WriteFrom([last], meets, packet, row, evidence)
         == Served(meets.ReplyFor(ServingEvidence) == Committed,
                   if meets.ReplyFor(ServingEvidence) == Refused then evidence else evidence[packet := row])
  {
    assert [last][1..] == [];
  }

  /** The loop over the tables of a run. */
  lemma WrittenInOrder(args: ServingArgs, meets: Meets, evidence: EvidenceTable)
    ensures var written := WriteFrom(Batches(PmaxRows(args, meets), meets.anomalies), meets, PacketOf(args),
                                     EvidenceOf(args, meets), evidence);
            && (written.ok <==> forall table :: !FailsAt(args, meets, table))
            && written.evidence
               == if (forall table :: table != ServingEvidence ==> !FailsAt(args, meets, table))
                     && !(meets.fails == Some(ServingEvidence) && meets.answer == Refused)
                  then evidence[PacketOf(args) := EvidenceOf(args, meets)] else evidence
  {
    var front, last := Predictions(args, meets), TableBatch(ServingEvidence, 1);
    assert Batches(PmaxRows(args, meets), meets.anomalies) == front + [last];
    FrontThenLast(front, last, meets, PacketOf(args), EvidenceOf(args, meets), evidence);
    SmoothIff(args, meets);
    LastTable(last, meets, PacketOf(args), EvidenceOf(args, meets), evidence);
    assert FailsAt(args, meets, ServingEvidence) <==> meets.ReplyFor(ServingEvidence) != Committed;
  }

  /** The bases with evidence: those of a row of a run that may write and made predictions. */
  lemma CountingIff(evidence: EvidenceTable, base: int)
    ensures base in CountingBases(evidence) <==>
            exists p :: p in evidence && p.origin == base
                        && evidence[p].writesEnabled && evidence[p].pmaxPredictions >= 1
  {
    if p :| p in evidence && p.origin == base && evidence[p].writesEnabled && evidence[p].pmaxPredictions >= 1 {
      assert Counts(evidence[p]);
    }
  }
}
