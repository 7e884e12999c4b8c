/**
 * The abstract failure model of a prepared SQL statement. The database is not
 * modelled; only WHETHER a step fails is, and that is chosen by the caller
 * (an oracle), so every operation stays deterministic and its effect can be
 * stated exactly.
 */
module Sql {

  import opened Wrappers

  /** Which step of a prepared statement the database rejects, if any.
      `ExecFault(k)` makes the k-th execution (counting from 0) fail;
      a statement that is executed once fails under `ExecFault(0)` only. */
  datatype Fault = NoFault | PrepareFault | ExecFault(at: nat)

  /** The error a store operation reports, without the driver's detail. */
  datatype StoreError = PrepareFailed | ExecFailed

  /** How many of `n` planned executions complete before the first failure. */
  function Executed(n: nat, fault: Fault): (k: nat)
    ensures k <= n
    ensures fault.NoFault? ==> k == n
    ensures fault.PrepareFault? ==> k == 0
    ensures fault.ExecFault? ==> k == (if fault.at < n then fault.at else n)
  {
    match fault
    case NoFault => n
    case PrepareFault => 0
    case ExecFault(at) => if at < n then at else n
  }

  /** The error returned by an operation that prepares a statement once and
      executes it `n` times, stopping at the first failing execution. */
  function Outcome(n: nat, fault: Fault): (err: Option<StoreError>)
    ensures err == Some(PrepareFailed) <==> fault.PrepareFault?
    ensures err == Some(ExecFailed) <==> fault.ExecFault? && fault.at < n
    ensures err.None? <==> !fault.PrepareFault? && Executed(n, fault) == n
  {
    match fault
    case NoFault => None
    case PrepareFault => Some(PrepareFailed)
    case ExecFault(at) => if at < n then Some(ExecFailed) else None
  }

  /** A batch reports an error exactly when some planned execution did not
      complete: a silent partial batch cannot happen. */
  lemma ShortfallIsReported(n: nat, fault: Fault)
    ensures Executed(n, fault) < n ==> Outcome(n, fault).Some?
    ensures Outcome(n, fault) == Some(ExecFailed) <==> !fault.PrepareFault? && Executed(n, fault) < n
    ensures n == 0 ==> (Outcome(n, fault).Some? <==> fault.PrepareFault?)
  {
  }

  /** Planning more executions never completes fewer, and below the failing
      execution the longer batch completes the shorter one in full. */
  lemma ExecutedMonotone(n: nat, m: nat, fault: Fault)
    requires n <= m
    ensures Executed(n, fault) <= Executed(m, fault)
    ensures Executed(m, fault) >= n ==> Executed(n, fault) == n
  {
  }
}
