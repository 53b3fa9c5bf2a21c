/** struct unizip_stream_s, as far as the adapters use it. Pointers are integer addresses. */
module UnizipStream {
  import opened Words

  /** The fields of a unizip_stream at one moment. */
  datatype Snapshot = Snapshot(nextIn: int, availIn: u32, totalIn: nat, nextOut: int, availOut: u32, totalOut: nat)

  class Strm {
    var nextIn: int
    var availIn: u32
    var totalIn: nat
    var nextOut: int
    var availOut: u32
    var totalOut: nat

    constructor ()
    {
      nextIn, nextOut, availIn, availOut, totalIn, totalOut := 0, 0, 0, 0, 0, 0;
    }

    function Now(): Snapshot
      reads this
    {
      Snapshot(nextIn, availIn, totalIn, nextOut, availOut, totalOut)
    }

    method Set(s: Snapshot)
      modifies this
      ensures Now() == s
    {
      nextIn, availIn, totalIn := s.nextIn, s.availIn, s.totalIn;
      nextOut, availOut, totalOut := s.nextOut, s.availOut, s.totalOut;
    }
  }
}
