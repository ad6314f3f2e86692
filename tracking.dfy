/**
 * The optional call-tracking list shared by the join and eliminate
 * operations: a caller-owned, append-only log of (operation, variable) pairs.
 */
module Tracking {
  import opened Factors

  /** The first component of a record: 'join' or 'eliminate'. */
  datatype Operation = JoinOperation | EliminateOperation

  datatype Record = Record(operation: Operation, variable: Variable)

  class CallTrackingList {
    var records: seq<Record>

    constructor ()
      ensures records == []
    {
      records := [];
    }

    /** list.append */
    method Append(r: Record)
      modifies this
      ensures records == old(records) + [r]
    {
      records := records + [r];
    }
  }
}
