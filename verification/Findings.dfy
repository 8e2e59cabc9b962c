/** Verdicts, as the diff, the suppressions and the score read them (internal/finding/finding.go). */
module Findings {
  import opened Basics
  import opened Ids

  datatype Verdict = Pass | Fail | NotApplicable | Skipped | Unknown

  datatype Severity = Critical | High | Medium | Low | Info {
    function Weight(): nat {
      match this
      case Critical => 4
      case High => 3
      case Medium => 2
      case Low => 1
      case Info => 0
    }
  }

  /** An accepted risk, and the verdict it covers. */
  datatype Suppression = Suppression(justification: ID, expiresAt: ID, original: Verdict)

  /** skippedBy is empty unless a profile put the check out of scope. */
  datatype Finding = Finding(
    checkID: ID, subject: ID, result: Verdict, severity: Severity, fingerprint: ID,
    skippedBy: ID, suppression: Option<Suppression>)

  const NONE := ID("")

  /** FAIL or UNKNOWN. */
  predicate IsOpen(v: Verdict) { v.Fail? || v.Unknown? }

  predicate DistinctFingerprints(fs: seq<Finding>) {
    forall i, j | 0 <= i < j < |fs| :: fs[i].fingerprint != fs[j].fingerprint
  }
}
