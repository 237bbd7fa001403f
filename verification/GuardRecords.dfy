/** The records a guard campaign replay reads (analysis/freeze_p9_guard.py): the metadata entries
    of its markers, and the stored evidence of thermal attempts, block-attempts, blocks and cases.
    A `conforms` flag stands for the stored fields of a record that are compared one by one with
    constants or with the telemetry aggregator's output. */
module GuardRecords {
  import opened Common
  import opened Telemetry
  import opened ThermalWindow
  import opened Registry
  import GuardBound

  const BLOCKS: nat := 10
  const EVENTS_PER_BLOCK: nat := 1000
  const THERMAL_MAX_ATTEMPTS: nat := 3
  const BLOCK_MAX_ATTEMPTS: nat := 3
  const HANDOFF_MAX_NS: int := 500000000

  /** The eight clocks of a thermal handoff and whether each follows the one before it strictly
      within the bound. */
  datatype Handoff = Handoff(boundaryNs: int, clocks: seq<int>, within: bool)

  /** Marker metadata besides case, block, label, attempt and thermal attempt. */
  datatype Extra =
    | NoMore
    | Successful(flag: bool)
    | CheckEntries(index: int, sampleNs: int, passed: bool, consecutive: int, window: Option<Window>)
    | BoundaryEntries(sampleNs: int, consecutive: int, window: Option<Window>)
    | QualificationEntries(boundaryNs: int, cleanupNs: int, sample: Option<int>)
    | QualificationResultEntries(heldOut: bool, boundaryNs: int, cleanupNs: int, qualificationNs: int,
      sample: Option<int>,
        passed: bool, failure: Option<Failure>)
    | PrepareEntries(heldOut: bool)
    | StartEntries(heldOut: bool, workers: seq<int>, critical: int, boundaryNs: int)
    | ReleaseEntries(heldOut: bool, critical: int, boundaryNs: int)
    | ResumeEntries(heldOut: bool, critical: int, workers: seq<int>, boundaryNs: int)
    | ActualStartEntries(heldOut: bool, startNs: int, outcome: Outcome, passed: bool)
    | BlockResultEntries(heldOut: bool, startNs: int, endNs: int, actualNs: int, handoff: Handoff, valid: bool)
    | EndEntries(heldOut: bool, valid: bool)
    | ProtocolEntries(frozen: bool)
    | OtherEntries

  type GuardMarker = Marker<Extra>
  type GuardEvidence = Evidence<Extra, ThermalKey>

  datatype Precondition = Precondition(
    tag: string, startNs: int, endNs: int, cleanupNs: int, lastWindow: Option<Window>,
    checks: seq<Extra>, conforms: bool)

  datatype Qualification = Qualification(
    attempt: int, boundaryNs: int, cleanupNs: int, qualificationNs: int, outcome: Outcome, passed: bool)

  datatype PreReleaseFailure = QualificationFailed(failure: Failure) | HandoffExceeded

  datatype ThermalAttempt = ThermalAttempt(
    attempt: int, tag: string, precondition: Precondition, qualification: Qualification, resultNs: int,
    paused: map<int, string>, startNs: Option<int>, releaseNs: Option<int>, preReleasePassed: bool,
    failure: Option<PreReleaseFailure>)

  datatype ActualStart = ActualStart(startNs: int, outcome: Outcome, passed: bool)

  datatype BlockAttempt = BlockAttempt(
    attempt: int, valid: bool,
    prepareNs: int, startNs: int, releaseNs: int, resumeNs: int, actualNs: int, resultNs: int, endNs: int,
    measurementStartNs: int, measurementEndNs: int,
    thermalAttempts: seq<ThermalAttempt>, selected: int, handoff: Handoff, actual: ActualStart, conforms: bool,
    criticalTrace: string, criticalJson: string, workerJson: seq<string>)

  datatype Block = Block(block: int, selected: int, attempts: seq<BlockAttempt>)

  /** A case of the fixed protocol, and the stored evidence of one. */
  datatype Case = Case(caseId: string, heldOut: bool, clients: seq<GuardBound.Client>)

  datatype CaseEntry = CaseEntry(identity: Case, blocks: seq<Block>)

  /** Raw files after decoding: a drain trace, a critical result or a worker result. */
  datatype Content =
    | CriticalCsv(drains: seq<real>)
    | CriticalResult(startNs: int, endNs: int, pid: int, conforms: bool)
    | WorkerResult(pid: int, startNs: int, endNs: int, conforms: bool)
    | Undecodable

  type Files = map<string, File<Content>>

  /** What identifies a thermal attempt across the campaign. */
  datatype ThermalKey = ThermalKey(caseId: string, block: nat, attempt: nat, thermal: nat)

  /** The identity entries that the markers of one block-attempt share. */
  datatype Identity = Identity(caseId: string, heldOut: bool, block: nat, attempt: nat)

  // ------------------------------------------------------------------
  // Lookups
  // ------------------------------------------------------------------

  function ByName(name: Name): Query { Query(name, None, None, None, None, None) }

  function ByTag(name: Name, tag: string): Query { Query(name, None, None, Some(tag), None, None) }

  function QualificationQuery(tag: string, thermal: nat): Query {
    Query(ThermalStartQualification, None, None, Some(tag), Some(thermal), None)
  }

  function QualificationResultQuery(id: Identity, tag: string, thermal: nat): Query {
    Query(ThermalStartQualificationResult, Some(id.caseId), Some(id.block), Some(tag), Some(id.attempt), Some(thermal))
  }

  function ByThermal(name: Name, id: Identity, thermal: int): Query {
    Query(name, Some(id.caseId), Some(id.block), None, Some(id.attempt), Some(thermal))
  }

  function ByAttempt(name: Name, id: Identity): Query {
    Query(name, Some(id.caseId), Some(id.block), None, Some(id.attempt), None)
  }

  function TagMetadata(tag: string, rest: Extra): Metadata<Extra> {
    Metadata(None, None, Some(tag), None, None, rest)
  }

  function AttemptMetadata(id: Identity, rest: Extra): Metadata<Extra> {
    Metadata(Some(id.caseId), Some(id.block), None, Some(id.attempt), None, rest)
  }

  function ThermalMetadata(id: Identity, thermal: int, rest: Extra): Metadata<Extra> {
    Metadata(Some(id.caseId), Some(id.block), None, Some(id.attempt), Some(thermal), rest)
  }
}
