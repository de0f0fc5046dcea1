/**
 * The polling loop of `read_input`, as a function of the answers the reads
 * give. Every read answers with data, a timeout, another USB error (with its
 * error number) or, standing for Ctrl+C, an interrupt.
 */
module Polling {
  import opened Basics
  import opened Decoder

  /** The answer to one read of the endpoint. */
  datatype ReadEvent = Data(bytes: seq<byte>) | TimeoutErr | UsbErr(code: int) | Interrupt

  /** The error number treated as "Operation timed out" (ETIMEDOUT). */
  const TimedOut: int := 110

  /** An answer after which the loop simply reads again. */
  predicate IsTimeout(e: ReadEvent) {
    e.TimeoutErr? || (e.UsbErr? && e.code == TimedOut)
  }

  /** An answer that ends the loop: an interrupt or any other USB error. */
  predicate IsStop(e: ReadEvent) {
    e.Interrupt? || (e.UsbErr? && e.code != TimedOut)
  }

  /** How the loop ended, or `Running` when the answers given so far have not
      ended it. `NoDevice` is the reader's own case: a read attempted on a
      reader that holds no device raises an error that leaves the loop and
      `read_input`; `Poll` never gives it. */
  datatype Stop = Interrupted | UsbFailure(code: int) | NoDevice | Running

  /** What a run of the loop shows: one decoder outcome per call of the
      decoder, and how the loop ended. */
  datatype PollResult = PollResult(shown: seq<Outcome>, stop: Stop)

  /** The loop over a sequence of answers. */
  function Poll(events: seq<ReadEvent>): PollResult {
    if events == [] then PollResult([], Running)
    else
      var rest := Poll(events[1..]);
      match events[0]
      case Data(bytes) =>
        if bytes == [] then rest else PollResult([Decode(bytes)] + rest.shown, rest.stop)
      case TimeoutErr => rest
      case UsbErr(code) => if code == TimedOut then rest else PollResult([], UsbFailure(code))
      case Interrupt => PollResult([], Interrupted)
  }

  /** How a stopping answer ends the loop. */
  function StopOf(e: ReadEvent): (s: Stop)
    requires IsStop(e)
    ensures s != Running
  {
    if e.Interrupt? then Interrupted else UsbFailure(e.code)
  }

  /** The non-empty payloads among the answers, in order. */
  function Payloads(events: seq<ReadEvent>): seq<seq<byte>> {
    if events == [] then []
    else
      (if events[0].Data? && events[0].bytes != [] then [events[0].bytes] else [])
      + Payloads(events[1..])
  }

  /** The decoder applied to each payload. */
  function DecodeAll(payloads: seq<seq<byte>>): (r: seq<Outcome>)
    ensures |r| == |payloads| && forall k :: 0 <= k < |r| ==> r[k] == Decode(payloads[k])
  {
    if payloads == [] then [] else [Decode(payloads[0])] + DecodeAll(payloads[1..])
  }

  /** Each non-empty payload is collected once, at its place; nothing else is. */
  lemma {:induction false} PayloadsAppend(events: seq<ReadEvent>, e: ReadEvent)
    ensures Payloads(events + [e])
            == Payloads(events) + (if e.Data? && e.bytes != [] then [e.bytes] else [])
  {
    if events == [] {
      assert [e][1..] == [];
    } else {
      assert (events + [e])[1..] == events[1..] + [e];
      PayloadsAppend(events[1..], e);
    }
  }

  lemma DecodeAllCons(a: seq<ReadEvent>)
    requires a != []
    ensures DecodeAll(Payloads(a))
            == (if a[0].Data? && a[0].bytes != [] then [Decode(a[0].bytes)] else [])
               + DecodeAll(Payloads(a[1..]))
  {
    var p := Payloads(a[1..]);
    if a[0].Data? && a[0].bytes != [] {
      var q := [a[0].bytes] + p;
      assert q[0] == a[0].bytes && q[1..] == p;
    } else {
      assert Payloads(a) == p;
    }
  }

  /** A timeout, at any point, changes nothing about the run. */
  lemma {:induction false} TimeoutsNeverStop(a: seq<ReadEvent>, t: ReadEvent, b: seq<ReadEvent>)
    requires IsTimeout(t)
    ensures Poll(a + [t] + b) == Poll(a + b)
  {
    if a == [] {
      assert ([t] + b)[1..] == b;
      assert a + [t] + b == [t] + b && a + b == b;
    } else {
      assert (a + [t] + b)[0] == a[0] && (a + [t] + b)[1..] == a[1..] + [t] + b;
      assert (a + b)[0] == a[0] && (a + b)[1..] == a[1..] + b;
      TimeoutsNeverStop(a[1..], t, b);
    }
  }

  /** Without a stopping answer the loop keeps running, and every non-empty
      payload is decoded, once and in order. */
  lemma {:induction false} NoStopKeepsPolling(a: seq<ReadEvent>)
    requires forall k :: 0 <= k < |a| ==> !IsStop(a[k])
    ensures Poll(a) == PollResult(DecodeAll(Payloads(a)), Running)
  {
    if a != [] {
      NoStopKeepsPolling(a[1..]);
      DecodeAllCons(a);
    }
  }

  /** The first stopping answer ends the loop: what follows it is never read,
      and exactly the non-empty payloads before it are decoded. */
  lemma {:induction false} FirstStopEndsPolling(a: seq<ReadEvent>, e: ReadEvent, b: seq<ReadEvent>)
    requires forall k :: 0 <= k < |a| ==> !IsStop(a[k])
    requires IsStop(e)
    ensures Poll(a + [e] + b) == PollResult(DecodeAll(Payloads(a)), StopOf(e))
  {
    if a == [] {
      assert a + [e] + b == [e] + b;
    } else {
      assert (a + [e] + b)[0] == a[0] && (a + [e] + b)[1..] == a[1..] + [e] + b;
      FirstStopEndsPolling(a[1..], e, b);
      DecodeAllCons(a);
    }
  }

  /** An empty answer is read past without calling the decoder. */
  lemma {:induction false} EmptyDataIsNotDecoded(a: seq<ReadEvent>, b: seq<ReadEvent>)
    ensures Poll(a + [Data([])] + b) == Poll(a + b)
  {
    if a == [] {
      assert a + [Data([])] + b == [Data([])] + b && ([Data([])] + b)[1..] == b;
      assert a + b == b;
    } else {
      assert (a + [Data([])] + b)[0] == a[0];
      assert (a + [Data([])] + b)[1..] == a[1..] + [Data([])] + b;
      assert (a + b)[0] == a[0] && (a + b)[1..] == a[1..] + b;
      EmptyDataIsNotDecoded(a[1..], b);
    }
  }

  /** Two timeouts, one report, then a fatal error: one outcome shown, and the
      loop ends on the error. */
  lemma PollExample(report: seq<byte>, code: int)
    requires report != [] && code != TimedOut
    ensures Poll([TimeoutErr, TimeoutErr, Data(report), UsbErr(code)])
            == PollResult([Decode(report)], UsbFailure(code))
  {
    var events := [TimeoutErr, TimeoutErr, Data(report), UsbErr(code)];
    assert events[1..] == [TimeoutErr, Data(report), UsbErr(code)];
    assert events[1..][1..] == [Data(report), UsbErr(code)];
    assert events[1..][1..][1..] == [UsbErr(code)];
    assert Poll([UsbErr(code)]) == PollResult([], UsbFailure(code));
    assert Poll([Data(report), UsbErr(code)]) == PollResult([Decode(report)], UsbFailure(code));
  }
}
