/** `write_message`: sending a message over writes that may be short, may stall or may fail. */
module Writing {
  import opened Bytes

  /** What a `write` call returns: the kernel takes at most `n` bytes, or there is an error. */
  datatype WriteResult = Wrote(n: nat) | Again | Broken

  /** How `write_message` comes back. It has not come back while the results it was given run out. */
  datatype Status = Ok | Error | Blocked

  datatype Delivery = Delivery(status: Status, sent: nat)

  function Min(a: nat, b: nat): nat {
    if a < b then a else b
  }

  /** The call with `total` of `length` bytes sent, against the results of the writes to come. */
  function Deliver(length: nat, total: nat, results: seq<WriteResult>): (d: Delivery)
    requires total <= length
    ensures total <= d.sent <= length
    decreases |results|
  {
    if results == [] then Delivery(Blocked, total)
    else match results[0]
      case Wrote(n) =>
        var k := Min(n, length - total);
        if total + k == length then Delivery(Ok, length) else Deliver(length, total + k, results[1..])
      case Again => Deliver(length, total, results[1..])
      case Broken => Delivery(Error, total)
  }

  /** The bytes that the writes take, up to the first that breaks. */
  function Taken(results: seq<WriteResult>): nat {
    if results == [] || results[0].Broken? then 0
    else (if results[0].Wrote? then results[0].n else 0) + Taken(results[1..])
  }

  /** Exactly the bytes that the writes took count as sent, and the call comes back with OK when that is all of
      them, with an error when a write broke before, and not at all when the results run out. */
  lemma {:induction false} SentIsTaken(length: nat, total: nat, results: seq<WriteResult>)
    requires total < length
    ensures var d := Deliver(length, total, results);
            && d.sent == Min(length, total + Taken(results))
            && (d.status.Ok? <==> total + Taken(results) >= length)
            && (d.status.Error? <==> total + Taken(results) < length && Broken in results)
    decreases |results|
  {
    if results != [] {
      assert Broken in results <==> results[0] == Broken || Broken in results[1..];
      match results[0]
      case Wrote(n) =>
        if total + Min(n, length - total) < length {
          SentIsTaken(length, total + Min(n, length - total), results[1..]);
        }
      case Again =>
        SentIsTaken(length, total, results[1..]);
      case Broken =>
    }
  }

  /** How many of the results bring nothing: EAGAIN and writes of no bytes. */
  function Stalls(results: seq<WriteResult>): nat {
    if results == [] then 0
    else (if results[0] == Again || results[0] == Wrote(0) then 1 else 0) + Stalls(results[1..])
  }

  /** Success is reported exactly when everything was sent, and a broken connection is the only error. */
  lemma {:induction false} OkMeansAll(length: nat, total: nat, results: seq<WriteResult>)
    requires total < length
    ensures var d := Deliver(length, total, results);
            && (d.status.Ok? <==> d.sent == length)
            && (d.status.Error? ==> Broken in results)
    decreases |results|
  {
    if results != [] {
      match results[0]
      case Wrote(n) =>
        var k := Min(n, length - total);
        if total + k < length {
          OkMeansAll(length, total + k, results[1..]);
        }
      case Again =>
        OkMeansAll(length, total, results[1..]);
      case Broken =>
    }
  }

  /** A call that has not come back has made progress with every result that was no stall; so with
      finitely many stalls it comes back. */
  lemma {:induction false} StallsBoundTheLoop(length: nat, total: nat, results: seq<WriteResult>)
    requires total < length
    ensures Deliver(length, total, results).status.Blocked?
            ==> |results| <= Stalls(results) + (Deliver(length, total, results).sent - total)
    ensures |results| >= Stalls(results) + (length - total) ==> !Deliver(length, total, results).status.Blocked?
    decreases |results|
  {
    if results != [] {
      match results[0]
      case Wrote(n) =>
        var k := Min(n, length - total);
        if total + k < length {
          StallsBoundTheLoop(length, total + k, results[1..]);
          OkMeansAll(length, total + k, results[1..]);
        }
      case Again =>
        StallsBoundTheLoop(length, total, results[1..]);
        OkMeansAll(length, total, results[1..]);
      case Broken =>
    }
  }

  /**
   `write_message` with the sequence of results its writes get. The bytes accepted by the socket are the
   first `|sent|` bytes of the message, each once and in order.
   */
  method WriteMessage(msg: seq<Byte>, results: seq<WriteResult>) returns (status: Status, sent: seq<Byte>)
    requires msg != []
    ensures Delivery(status, |sent|) == Deliver(|msg|, 0, results)
    ensures sent <= msg && |sent| == Min(|msg|, Taken(results))
    ensures status.Ok? <==> Taken(results) >= |msg|
    ensures status.Error? <==> Taken(results) < |msg| && Broken in results
  {
    SentIsTaken(|msg|, 0, results);
    var offset, totalbytes, remaining := 0, 0, |msg|;
    sent := [];
    var i := 0;
    while i < |results|
      invariant 0 <= i <= |results|
      invariant 0 <= offset == totalbytes == |msg| - remaining < |msg|
      invariant sent == msg[..totalbytes]
      invariant Deliver(|msg|, 0, results) == Deliver(|msg|, totalbytes, results[i..])
    {
      match results[i] {
        case Wrote(n) =>
          var numbytes := Min(n, remaining);
          sent := sent + msg[offset..offset + numbytes];
          if numbytes == |msg| {
            return Ok, sent;
          }
          offset, totalbytes, remaining := offset + numbytes, totalbytes + numbytes, remaining - numbytes;
          if totalbytes == |msg| {
            return Ok, sent;
          }
        case Again =>
        case Broken =>
          return Error, sent;
      }
      i := i + 1;
    }
    status := Blocked;
  }

  // ---------------------------------------------------------------- the answer to a protocol version 2 request

  /** `connection refused` as protocol version 2 sends it: 20 bytes, the last one zero. */
  const REFUSAL: seq<Byte> :=
    [69, 99, 111, 110, 110, 101, 99, 116, 105, 111, 110, 32, 114, 101, 102, 117, 115, 101, 100, 0]

  const EMPTY: seq<Byte> := [0]

  function At(results: seq<seq<WriteResult>>, i: nat): seq<WriteResult> {
    if i < |results| then results[i] else []
  }

  /** The bytes of one refusal and of the empty message behind it, as far as their writes take them; errors of
      these writes are ignored. The second component tells that a write has not come back. */
  function Refuse(results: seq<seq<WriteResult>>, i: nat): (r: (seq<Byte>, bool))
    ensures |r.0| <= 21
  {
    var d := Deliver(|REFUSAL|, 0, At(results, i));
    if d.status.Blocked? then (REFUSAL[..d.sent], true)
    else
      var e := Deliver(|EMPTY|, 0, At(results, i + 1));
      (REFUSAL[..d.sent] + EMPTY[..e.sent], e.status.Blocked?)
  }

  /** The refusal is the letter `E`, the text `connection refused` and a NUL, and then a message of one NUL; each goes
      out as far as its writes take it, the second one also when the first one broke. */
  lemma RefusalIsText(results: seq<seq<WriteResult>>, i: nat)
    ensures var text := "Econnection refused\0";
            var first, second := Taken(At(results, i)), Taken(At(results, i + 1));
            && |text| == |REFUSAL| == 20 && (forall k :: 0 <= k < 20 ==> REFUSAL[k] == text[k] as int)
            && (first < 20 && Broken !in At(results, i) ==> Refuse(results, i) == (REFUSAL[..first], true))
            && (first >= 20 || Broken in At(results, i)
                ==> Refuse(results, i).0 == REFUSAL[..Min(20, first)] + (if second > 0 then [0] else [])
                    && (Refuse(results, i).1 <==> second == 0 && Broken !in At(results, i + 1)))
  {
    SentIsTaken(20, 0, At(results, i));
    SentIsTaken(1, 0, At(results, i + 1));
  }

  /** `pgprtdbg_write_connection_refused_old` and `pgprtdbg_write_empty`, one after the other. */
  method SendRefusal(results: seq<seq<WriteResult>>, i: nat) returns (sent: seq<Byte>, stuck: bool)
    ensures (sent, stuck) == Refuse(results, i)
  {
    hide Deliver;
    var status, part := WriteMessage(REFUSAL, At(results, i));
    assert part == REFUSAL[..|part|];
    if status.Blocked? {
      return part, true;
    }
    var status', part' := WriteMessage(EMPTY, At(results, i + 1));
    assert part' == EMPTY[..|part'|];
    sent, stuck := part + part', status'.Blocked?;
  }
}
