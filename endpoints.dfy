/**
 * Choosing the endpoint that reports are read from. The descriptor fields are
 * those of section 9.6.6 of the USB 2.0 specification: bit 7 of
 * bEndpointAddress is the direction (set for IN), bits 1..0 of bmAttributes
 * the transfer type (3 for interrupt).
 */
module Endpoints {
  import opened Basics

  /** An endpoint descriptor as the USB library presents it: the two fields
      the scan tests. */
  datatype Endpoint = Endpoint(address: byte, attributes: byte)

  /** `usb.util.ENDPOINT_IN`. */
  const EndpointIn: byte := 0x80

  /** `usb.util.ENDPOINT_TYPE_INTR`. */
  const EndpointTypeInterrupt: byte := 0x03

  /** `usb.util.endpoint_direction`: the direction bit of an address. */
  function Direction(address: byte): byte {
    address & 0x80
  }

  /** The test the scan applies to every endpoint: IN and interrupt. */
  predicate Suitable(ep: Endpoint) {
    Direction(ep.address) == EndpointIn && ep.attributes & 0x03 == EndpointTypeInterrupt
  }

  /** The endpoints of all interfaces, interface by interface, in scan order. */
  function Flatten(interfaces: seq<seq<Endpoint>>): seq<Endpoint> {
    if interfaces == [] then []
    else Flatten(interfaces[..|interfaces| - 1]) + interfaces[|interfaces| - 1]
  }

  /** The last suitable endpoint of a scan, if any. */
  function LastSuitable(eps: seq<Endpoint>): Option<Endpoint> {
    if eps == [] then None
    else if Suitable(eps[|eps| - 1]) then Some(eps[|eps| - 1])
    else LastSuitable(eps[..|eps| - 1])
  }

  /** An OUT endpoint or one of another transfer type is never selected. */
  lemma {:induction false} SelectedIsSuitable(eps: seq<Endpoint>)
    requires LastSuitable(eps).Some?
    ensures LastSuitable(eps).value in eps
    ensures Suitable(LastSuitable(eps).value)
    ensures LastSuitable(eps).value.address & 0x80 == 0x80
    ensures LastSuitable(eps).value.attributes & 0x03 == 0x03
  {
    if !Suitable(eps[|eps| - 1]) {
      SelectedIsSuitable(eps[..|eps| - 1]);
    }
  }

  /** Nothing is selected exactly when no endpoint is suitable. */
  lemma {:induction false} NoneSelectedIffNoneSuitable(eps: seq<Endpoint>)
    ensures LastSuitable(eps).None? <==> forall k :: 0 <= k < |eps| ==> !Suitable(eps[k])
  {
    if eps != [] && !Suitable(eps[|eps| - 1]) {
      var front := eps[..|eps| - 1];
      NoneSelectedIffNoneSuitable(front);
      assert forall k :: 0 <= k < |front| ==> front[k] == eps[k];
    }
  }

  /** The selected endpoint is suitable and no suitable endpoint follows it. */
  lemma {:induction false} SelectedIsLast(eps: seq<Endpoint>)
    requires LastSuitable(eps).Some?
    ensures exists k :: 0 <= k < |eps| && eps[k] == LastSuitable(eps).value
                        && forall j :: k < j < |eps| ==> !Suitable(eps[j])
  {
    var n := |eps| - 1;
    if Suitable(eps[n]) {
      assert eps[n] == LastSuitable(eps).value;
    } else {
      var front := eps[..n];
      SelectedIsLast(front);
      var k :| 0 <= k < |front| && front[k] == LastSuitable(front).value
               && forall j :: k < j < |front| ==> !Suitable(front[j]);
      assert eps[k] == front[k];
      forall j | k < j < |eps| ensures !Suitable(eps[j]) {
        if j < n {
          assert eps[j] == front[j];
        }
      }
    }
  }

  /** A later suitable endpoint always takes over from an earlier one. */
  lemma {:induction false} LaterMatchWins(front: seq<Endpoint>, back: seq<Endpoint>)
    ensures LastSuitable(front + back)
            == if LastSuitable(back).Some? then LastSuitable(back) else LastSuitable(front)
  {
    if back != [] {
      var s := front + back;
      assert s[|s| - 1] == back[|back| - 1];
      assert s[..|s| - 1] == front + back[..|back| - 1];
      LaterMatchWins(front, back[..|back| - 1]);
    } else {
      assert front + back == front;
    }
  }

  /** The positions of the scan: endpoint `j` of interface `i` sits at the
      length of the interfaces before `i`, plus `j`. */
  lemma {:induction false} FlattenHoldsEveryEndpoint(interfaces: seq<seq<Endpoint>>, i: nat, j: nat)
    requires i < |interfaces| && j < |interfaces[i]|
    ensures |Flatten(interfaces[..i])| + j < |Flatten(interfaces)|
    ensures Flatten(interfaces)[|Flatten(interfaces[..i])| + j] == interfaces[i][j]
  {
    var n := |interfaces| - 1;
    var front := interfaces[..n];
    if i == n {
      assert interfaces[..i] == front;
    } else {
      FlattenHoldsEveryEndpoint(front, i, j);
      assert front[..i] == interfaces[..i];
      assert front[i] == interfaces[i];
    }
  }

  /** Scanning two lists of interfaces one after the other is scanning their
      concatenation. */
  lemma {:induction false} FlattenConcat(a: seq<seq<Endpoint>>, b: seq<seq<Endpoint>>)
    ensures Flatten(a + b) == Flatten(a) + Flatten(b)
  {
    if b == [] {
      assert a + b == a;
    } else {
      assert (a + b)[..|a + b| - 1] == a + b[..|b| - 1];
      FlattenConcat(a, b[..|b| - 1]);
    }
  }

  /** A single interface is scanned as exactly its own endpoints. */
  lemma FlattenOne(s: seq<Endpoint>)
    ensures Flatten([s]) == s
  {
    assert [s][..0] == [];
  }
}
