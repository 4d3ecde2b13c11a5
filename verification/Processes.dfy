/** What the processes of a plan share (lib/process.h). */
module Processes {
  import opened Ring

  /** What a call of a process tells the scheduler. */
  datatype Return =
    | FAIL
    | COMPLETE
    | RUNNING
    | WAIT_ON_IN0
    | WAIT_ON_IN1
    | WAIT_ON_IN_EITHER
    | WAIT_ON_IN_BOTH
    | WAIT_ON_OUT0
    | WAIT_ON_OUT1

  /**
   An output ring holds exactly what was sent to it and not yet consumed by the next process, with
   the producers' guard kept.
   */
  ghost predicate Carries<T(0)>(out: Fifo<T>, sent: seq<T>, taken: nat)
    reads out, out.buf
  {
    && out.Valid() && out.Guarded()
    && taken <= |sent| && out.Contents() == sent[taken..]
  }
}
