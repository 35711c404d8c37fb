/** The traffic counters of one client, with C's field widths. */
module Counters {
  const UINT32_RANGE: int := 0x1_0000_0000
  const UINT64_RANGE: int := 0x1_0000_0000_0000_0000

  /** The values of an event counter. */
  datatype Tally = Tally(sentMessages: nat, sentBytes: nat, rcvdMessages: nat, rcvdBytes: nat) {
    function Sent(n: nat): Tally {
      this.(sentMessages := (sentMessages + 1) % UINT32_RANGE, sentBytes := (sentBytes + n) % UINT64_RANGE)
    }

    function Received(n: nat): Tally {
      this.(rcvdMessages := (rcvdMessages + 1) % UINT32_RANGE, rcvdBytes := (rcvdBytes + n) % UINT64_RANGE)
    }
  }

  const ZERO := Tally(0, 0, 0, 0)

  lemma AddModulo(x: nat, n: nat, m: nat)
    requires m == UINT32_RANGE || m == UINT64_RANGE
    ensures (x % m + n) % m == (x + n) % m
  {
  }

  class EventCounter {
    var sentMessages: nat
    var sentBytes: nat
    var rcvdMessages: nat
    var rcvdBytes: nat

    constructor ()
      ensures Values() == ZERO
    {
      sentMessages, sentBytes, rcvdMessages, rcvdBytes := 0, 0, 0, 0;
    }

    function Values(): Tally
      reads this
    {
      Tally(sentMessages, sentBytes, rcvdMessages, rcvdBytes)
    }

    method CountSent(n: nat)
      modifies this
      ensures Values() == old(Values()).Sent(n)
    {
      sentMessages := (sentMessages + 1) % UINT32_RANGE;
      sentBytes := (sentBytes + n) % UINT64_RANGE;
    }

    method CountReceived(n: nat)
      modifies this
      ensures Values() == old(Values()).Received(n)
    {
      rcvdMessages := (rcvdMessages + 1) % UINT32_RANGE;
      rcvdBytes := (rcvdBytes + n) % UINT64_RANGE;
    }
  }
}
