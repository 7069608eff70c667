/** The two-entry ping-pong register slice (axis_switch_reg_slice, and axis_register_ip_handler
    built with BYPASS = 0). `T` is everything one entry stores: tdata, tkeep, tdest and tlast. */
module RegSlices {
  import opened Fifo

  /** What the registers stand for: the oldest beat is in the entry that is read next. The pattern
      "read entry free, other entry occupied" has no meaning as a queue and is never reached. */
  function Decode<T>(entry0: T, entry1: T, status: (bool, bool), readTgl: bool): Queue<T> {
    var (first, second) := if readTgl then (entry1, entry0) else (entry0, entry1);
    if status.0 && status.1 then Two(first, second)
    else if if readTgl then status.1 else status.0 then One(first)
    else Empty
  }

  /** The toggle and status patterns that occur: the two toggles agree iff both entries or none are
      occupied, and a single occupied entry is the one to be read next. */
  predicate Coherent(status: (bool, bool), writeTgl: bool, readTgl: bool) {
    && (status.0 == status.1 <==> writeTgl == readTgl)
    && (status.0 != status.1 ==> if readTgl then status.1 else status.0)
  }

  class RegSlice<T> {
    const zero: T              // the value every payload register takes on reset
    const data: array<T>       // tdata_r, tkeep_r, tdest_r and tlast_r, by entry
    var status: (bool, bool)   // status_r
    var writeTgl: bool         // write_tgl_r
    var readTgl: bool          // read_tgl_r

    ghost var queue: Queue<T>  // the queue the registers stand for, oldest beat first

    ghost predicate Valid()
      reads this, data
    {
      && data.Length == 2
      && Coherent(status, writeTgl, readTgl)
      && queue == Decode(data[0], data[1], status, readTgl)
    }

    constructor (zero: T)
      ensures Valid() && fresh(data) && queue == Empty && this.zero == zero
    {
      this.zero := zero;
      data := new T[2](_ => zero);
      status := (false, false);
      writeTgl, readTgl := false, false;
      queue := Empty;
    }

    /** The combinational outputs before the clock edge. `mBeat` is whatever the read entry holds. */
    method Ports() returns (sReady: bool, mValid: bool, mBeat: T)
      requires Valid()
      ensures sReady == queue.CanAccept()
      ensures mValid == queue.Head().Some?
      ensures mValid ==> queue.Head() == Some(mBeat)
    {
      sReady := status != (true, true);
      mValid := if readTgl then status.1 else status.0;
      mBeat := data[if readTgl then 1 else 0];
    }

    /** One rising clock edge. */
    method ClockEdge(aresetn: bool, sBeat: T, sValid: bool, mReady: bool)
      requires Valid()
      modifies this, data
      ensures Valid()
      ensures queue == if aresetn then old(queue).Step(Some(sBeat).If(sValid), mReady) else Empty
    {
      if !aresetn {
        data[0], data[1] := zero, zero;
        status := (false, false);
        writeTgl, readTgl := false, false;
        queue := Empty;
        return;
      }
      var wrEn := status != (true, true) && sValid;
      var rdEn := (if readTgl then status.1 else status.0) && mReady;
      queue := queue.Step(Some(sBeat).If(sValid), mReady);
      // The two non-blocking assignments to status_r never meet in one bit.
      assert wrEn && rdEn ==> writeTgl != readTgl;
      if wrEn {
        data[if writeTgl then 1 else 0] := sBeat;
        status := if writeTgl then (status.0, true) else (true, status.1);
        writeTgl := !writeTgl;
      }
      if rdEn {
        status := if readTgl then (status.0, false) else (false, status.1);
        readTgl := !readTgl;
      }
    }
  }
}
