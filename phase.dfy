/**
  The state of one workload phase: request, insert and delete counters, the
  operation-mix thresholds, and one owned chooser per operation kind. A null
  chooser means that operation kind is disabled in the phase.

  Only the item-count interface of a chooser is modelled; the distribution it
  draws keys from is not.
 */
module PhaseState {

  newtype uint32 = x: int | 0 <= x < 0x1_0000_0000

  /** A key chooser over [0, itemCount). */
  class Chooser {
    var itemCount: nat

    constructor (itemCount: nat)
      ensures this.itemCount == itemCount
    {
      this.itemCount := itemCount;
    }

    method SetItemCount(n: nat)
      modifies this
      ensures itemCount == n
    {
      itemCount := n;
    }

    method IncreaseItemCountBy(delta: nat)
      modifies this
      ensures itemCount == old(itemCount) + delta
    {
      itemCount := itemCount + delta;
    }
  }

  class Phase {
    var phaseId: nat

    var numInserts: nat
    var numInsertsLeft: nat
    var numRequests: nat
    var numRequestsLeft: nat
    var numDeletes: nat
    var numDeletesLeft: nat

    var readThres: uint32
    var rmwThres: uint32
    var negativereadThres: uint32
    var scanThres: uint32
    var updateThres: uint32
    var deleteThres: uint32

    var maxScanLength: nat

    var readChooser: Chooser?
    var rmwChooser: Chooser?
    var negativereadChooser: Chooser?
    var scanChooser: Chooser?
    var scanLengthChooser: Chooser?
    var updateChooser: Chooser?
    var deleteChooser: Chooser?

    /** All seven chooser pointers, in declaration order. */
    ghost function Choosers(): seq<Chooser?>
      reads this
    {
      [readChooser, rmwChooser, negativereadChooser, scanChooser,
       scanLengthChooser, updateChooser, deleteChooser]
    }

    /** Each chooser is owned by exactly one pointer: a non-null pointer equals none of the others. */
    ghost predicate Valid()
      reads this
    {
      && (readChooser != null ==>
            readChooser != rmwChooser && readChooser != negativereadChooser
            && readChooser != scanChooser && readChooser != scanLengthChooser
            && readChooser != updateChooser && readChooser != deleteChooser)
      && (rmwChooser != null ==>
            rmwChooser != negativereadChooser && rmwChooser != scanChooser
            && rmwChooser != scanLengthChooser && rmwChooser != updateChooser
            && rmwChooser != deleteChooser)
      && (negativereadChooser != null ==>
            negativereadChooser != scanChooser && negativereadChooser != scanLengthChooser
            && negativereadChooser != updateChooser && negativereadChooser != deleteChooser)
      && (scanChooser != null ==>
            scanChooser != scanLengthChooser && scanChooser != updateChooser
            && scanChooser != deleteChooser)
      && (scanLengthChooser != null ==>
            scanLengthChooser != updateChooser && scanLengthChooser != deleteChooser)
      && (updateChooser != null ==>
            updateChooser != deleteChooser)
    }

    constructor (phaseId: nat)
      ensures Valid()
      ensures this.phaseId == phaseId
      ensures numInserts == 0 && numInsertsLeft == 0
      ensures numRequests == 0 && numRequestsLeft == 0
      ensures numDeletes == 0 && numDeletesLeft == 0
      ensures readThres == 0 && rmwThres == 0 && negativereadThres == 0
      ensures scanThres == 0 && updateThres == 0 && deleteThres == 0
      ensures maxScanLength == 0
      ensures forall c :: c in Choosers() ==> c == null
      ensures !HasNext()
    {
      this.phaseId := phaseId;
      numInserts, numInsertsLeft := 0, 0;
      numRequests, numRequestsLeft := 0, 0;
      numDeletes, numDeletesLeft := 0, 0;
      readThres, rmwThres, negativereadThres := 0, 0, 0;
      scanThres, updateThres, deleteThres := 0, 0, 0;
      maxScanLength := 0;
      readChooser, rmwChooser, negativereadChooser, scanChooser := null, null, null, null;
      scanLengthChooser, updateChooser, deleteChooser := null, null, null;
    }

    /** Requests remain exactly when the remaining-request counter is positive. */
    function HasNext(): (r: bool)
      reads this
      ensures r <==> numRequestsLeft != 0
    {
      numRequestsLeft > 0
    }

    /**
      Sets the population of every enabled key chooser to n. The scan-length
      chooser, the phase's own fields and which choosers are enabled do not change.
     */
    method SetItemCount(n: nat)
      requires Valid()
      modifies readChooser, rmwChooser, negativereadChooser, scanChooser, updateChooser, deleteChooser
      ensures readChooser != null ==> readChooser.itemCount == n
      ensures rmwChooser != null ==> rmwChooser.itemCount == n
      ensures negativereadChooser != null ==> negativereadChooser.itemCount == n
      ensures scanChooser != null ==> scanChooser.itemCount == n
      ensures updateChooser != null ==> updateChooser.itemCount == n
      ensures deleteChooser != null ==> deleteChooser.itemCount == n
      ensures scanLengthChooser != null ==> scanLengthChooser.itemCount == old(scanLengthChooser.itemCount)
      ensures unchanged(this) && Valid()
    {
      if readChooser != null {
        readChooser.SetItemCount(n);
      }
      if rmwChooser != null {
        rmwChooser.SetItemCount(n);
      }
      if negativereadChooser != null {
        negativereadChooser.SetItemCount(n);
      }
      if scanChooser != null {
        scanChooser.SetItemCount(n);
      }
      if updateChooser != null {
        updateChooser.SetItemCount(n);
      }
      if deleteChooser != null {
        deleteChooser.SetItemCount(n);
      }
    }

    /**
      Grows the population of every enabled key chooser by delta. The
      scan-length chooser, the phase's own fields and which choosers are
      enabled do not change.
     */
    method IncreaseItemCountBy(delta: nat)
      requires Valid()
      modifies readChooser, rmwChooser, negativereadChooser, scanChooser, updateChooser, deleteChooser
      ensures readChooser != null ==> readChooser.itemCount == old(readChooser.itemCount) + delta
      ensures rmwChooser != null ==> rmwChooser.itemCount == old(rmwChooser.itemCount) + delta
      ensures negativereadChooser != null ==>
                negativereadChooser.itemCount == old(negativereadChooser.itemCount) + delta
      ensures scanChooser != null ==> scanChooser.itemCount == old(scanChooser.itemCount) + delta
      ensures updateChooser != null ==> updateChooser.itemCount == old(updateChooser.itemCount) + delta
      ensures deleteChooser != null ==> deleteChooser.itemCount == old(deleteChooser.itemCount) + delta
      ensures scanLengthChooser != null ==> scanLengthChooser.itemCount == old(scanLengthChooser.itemCount)
      ensures unchanged(this) && Valid()
    {
      if readChooser != null {
        readChooser.IncreaseItemCountBy(delta);
      }
      if rmwChooser != null {
        rmwChooser.IncreaseItemCountBy(delta);
      }
      if negativereadChooser != null {
        negativereadChooser.IncreaseItemCountBy(delta);
      }
      if scanChooser != null {
        scanChooser.IncreaseItemCountBy(delta);
      }
      if updateChooser != null {
        updateChooser.IncreaseItemCountBy(delta);
      }
      if deleteChooser != null {
        deleteChooser.IncreaseItemCountBy(delta);
      }
    }
  }
}
