/** forensic/src/findings.rs: the anomalies the partition stages record, and their severity. */
module Findings {
  import opened Entropy
  import opened Wipe

  datatype Severity = Info | Low | Medium | High | Critical

  const PRE_PARTITION_BENIGN_LBA := 63

  datatype AnomalyKind =
    | ResidualEntry(index: nat, lbaStart: nat, lbaCount: nat)
    | InvalidPartitionStatus(index: nat, status: nat)
    | OverlappingPartitions(a: nat, b: nat, aEnd: nat, bStart: nat)
    | OutOfBounds(index: nat, lastLba: nat, diskLastLba: nat)
    | ChsLbaInconsistency(index: nat)
    | EbrCycle
    | EbrExcessiveDepth(depth: nat)
    | EbrSlackData(ebrLba: nat, entropy: Exact)
    | PrePartitionSpace(lbaStart: nat, lbaEnd: nat, byteSize: nat)
    | InterPartitionGap(lbaStart: nat, lbaEnd: nat, byteSize: nat)
    | PostPartitionSpace(lbaStart: nat, lbaEnd: nat, byteSize: nat)
    | WipedRegion(lbaStart: nat, pattern: FillPattern)
    | CarvedArtifact(kind: string)
    | VbrHiddenSectorsMismatch(index: nat, bpbHidden: nat, lbaStart: nat)
    | SignatureMismatch(index: nat, declared: nat, detected: int)
  {
    function Severity(): Severity {
      match this
      case OverlappingPartitions(_, _, _, _) => Critical
      case EbrCycle => Critical
      case OutOfBounds(_, _, _) => High
      case EbrExcessiveDepth(_) => High
      case WipedRegion(_, _) => High
      case VbrHiddenSectorsMismatch(_, _, _) => High
      case EbrSlackData(_, entropy) => if entropy.Exceeds(HIGH_ENTROPY_THRESHOLD) then High else Medium
      case PrePartitionSpace(start, _, _) => if start < PRE_PARTITION_BENIGN_LBA then Low else Medium
      case ResidualEntry(_, _, _) => Medium
      case ChsLbaInconsistency(_) => Medium
      case InvalidPartitionStatus(_, _) => Medium
      case InterPartitionGap(_, _, _) => Medium
      case SignatureMismatch(_, _, _) => Medium
      case CarvedArtifact(_) => Low
      case PostPartitionSpace(_, _, _) => Info
    }
  }

  datatype Anomaly = Anomaly(severity: Severity, kind: AnomalyKind, offset: nat)

  /** `Anomaly::new`: the severity is derived from the kind. */
  function NewAnomaly(kind: AnomalyKind, offset: nat): Anomaly {
    Anomaly(kind.Severity(), kind, offset)
  }

  /** `[NewAnomaly(kind, offset)]` when `cond` holds, else nothing. */
  function OnlyIf(cond: bool, kind: AnomalyKind, offset: nat): seq<Anomaly> {
    if cond then [NewAnomaly(kind, offset)] else []
  }

  /** The accumulator every stage records into. */
  class Recorder {
    var anomalies: seq<Anomaly>

    constructor ()
      ensures anomalies == []
    {
      anomalies := [];
    }

    method Record(kind: AnomalyKind, offset: nat)
      modifies this
      ensures anomalies == old(anomalies) + [NewAnomaly(kind, offset)]
    {
      anomalies := anomalies + [NewAnomaly(kind, offset)];
    }
  }
}
