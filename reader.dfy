/**
 * The reader object of the script: it finds the gamepad, picks its
 * interrupt-IN endpoint and polls it, and `RunReader` sequences the three
 * steps as the script's entry point does. The USB library's answers (whether
 * a backend was obtained, what the device search returned, the configuration and the
 * answer to every read) are inputs.
 */
module Reader {
  import opened Basics
  import opened Decoder
  import opened Endpoints
  import opened Polling

  /** The answer to activating the device's configuration and listing its
      interfaces. `Configured` is a full listing, interface by interface, of
      the endpoints of each. `ConfigurationError` is a USB error before the
      scan starts. `ScanError` is an error raised part-way through the scan,
      after the interfaces and endpoints in `scanned` were visited. */
  datatype Configuration =
    | Configured(interfaces: seq<seq<Endpoint>>)
    | ConfigurationError
    | ScanError(scanned: seq<seq<Endpoint>>)

  /** A located device, known by the configuration it answers with. */
  datatype Device = Device(configuration: Configuration)

  /** What `setup_device` leaves in `endpoint`: the last suitable endpoint of
      the scan, or, when there is none, what was there before. */
  function AfterScan(interfaces: seq<seq<Endpoint>>, before: Option<Endpoint>): Option<Endpoint> {
    if LastSuitable(Flatten(interfaces)).Some? then LastSuitable(Flatten(interfaces)) else before
  }

  class GamePadReader {
    /** Vendor 0x045e (Microsoft), product 0x028e (the controller). */
    const vendorId: int
    const productId: int
    /** Whether a USB backend was obtained when the reader was made. */
    const backend: bool
    var device: Option<Device>
    var endpoint: Option<Endpoint>

    constructor (backendLoaded: bool)
      ensures vendorId == 0x045e && productId == 0x028e
      ensures backend == backendLoaded
      ensures device == None && endpoint == None
    {
      vendorId, productId := 0x045e, 0x028e;
      backend := backendLoaded;
      device, endpoint := None, None;
    }

    /** `find_device`, given what the device search answered. */
    method FindDevice(located: Option<Device>) returns (found: bool)
      modifies this`device
      ensures !backend ==> !found && device == old(device)
      ensures backend ==> device == located && found == located.Some?
    {
      if !backend {
        return false;
      }
      device := located;
      found := device.Some?;
    }

    /** The scan of `setup_device`: every endpoint of every interface, each
        suitable one replacing the choice so far. */
    method Scan(interfaces: seq<seq<Endpoint>>)
      modifies this`endpoint
      ensures endpoint == AfterScan(interfaces, old(endpoint))
    {
      for i := 0 to |interfaces|
        invariant endpoint == AfterScan(interfaces[..i], old(endpoint))
      {
        var intf := interfaces[i];
        assert Flatten(interfaces[..i]) + intf[..0] == Flatten(interfaces[..i]);
        for j := 0 to |intf|
          invariant endpoint
                    == if LastSuitable(Flatten(interfaces[..i]) + intf[..j]).Some?
                       then LastSuitable(Flatten(interfaces[..i]) + intf[..j]) else old(endpoint)
        {
          var ep := intf[j];
          assert (Flatten(interfaces[..i]) + intf[..j + 1])[..|Flatten(interfaces[..i])| + j]
                 == Flatten(interfaces[..i]) + intf[..j];
          if Suitable(ep) {
            endpoint := Some(ep);
          }
        }
        assert interfaces[..i + 1][..i] == interfaces[..i];
        assert intf[..|intf|] == intf;
      }
      assert interfaces[..|interfaces|] == interfaces;
    }

    /** `setup_device`: without a device or on an error before the scan,
        nothing changes; otherwise the scan runs. An error part-way through
        the scan still fails the setup, but the endpoints it stored stay. */
    method SetupDevice() returns (ok: bool)
      modifies this`endpoint
      ensures device.None? || device.value.configuration.ConfigurationError? ==>
                !ok && endpoint == old(endpoint)
      ensures device.Some? && device.value.configuration.Configured? ==>
                endpoint == AfterScan(device.value.configuration.interfaces, old(endpoint))
                && ok == endpoint.Some?
      ensures device.Some? && device.value.configuration.ScanError? ==>
                endpoint == AfterScan(device.value.configuration.scanned, old(endpoint))
                && !ok
    {
      if device.None? {
        return false;
      }
      match device.value.configuration
      case ConfigurationError =>
        return false;
      case ScanError(scanned) =>
        Scan(scanned);
        return false;
      case Configured(interfaces) =>
        Scan(interfaces);
        ok := endpoint.Some?;
    }

    /** `read_input`: nothing without an endpoint; otherwise read until an
        interrupt or a USB error other than a timeout, handing every non-empty
        answer to the decoder, and attempt the release once the loop is left.
        With an endpoint but no device, the first read raises before anything
        is read, and no release is attempted. */
    method ReadInput(events: seq<ReadEvent>) returns (run: Option<PollResult>, releaseAttempted: bool)
      ensures endpoint.None? ==> run == None && !releaseAttempted
      ensures endpoint.Some? && device.None? ==> run == Some(PollResult([], NoDevice)) && !releaseAttempted
      ensures endpoint.Some? && device.Some? ==> run == Some(Poll(events))
      ensures releaseAttempted <==> endpoint.Some? && device.Some? && Poll(events).stop != Running
    {
      if endpoint.None? {
        return None, false;
      }
      if device.None? {
        // The read is attempted on no device at all: the error it raises is
        // none the loop catches, and the `finally` clause finds no device to
        // release.
        return Some(PollResult([], NoDevice)), false;
      }
      var shown: seq<Outcome> := [];
      var stop := Running;
      var i := 0;
      while i < |events|
        invariant 0 <= i <= |events|
        invariant stop == Running
        invariant Poll(events) == PollResult(shown + Poll(events[i..]).shown, Poll(events[i..]).stop)
      {
        var event := events[i];
        ghost var rest := events[i..];
        assert rest[0] == event && rest[1..] == events[i + 1..];
        i := i + 1;
        match event
        case Data(bytes) =>
          if bytes != [] {
            var outcome := ProcessData(bytes);
            shown := shown + [outcome];
          }
        case TimeoutErr =>
          continue;
        case UsbErr(code) =>
          if code == TimedOut {
            continue;
          }
          stop := UsbFailure(code);
          assert Poll(rest) == PollResult([], stop);
          break;
        case Interrupt =>
          stop := Interrupted;
          assert Poll(rest) == PollResult([], stop);
          break;
      }
      if stop == Running {
        assert events[i..] == [];
      }
      assert shown + [] == shown;
      run := Some(PollResult(shown, stop));
      releaseAttempted := false;
      if stop != Running {
        // The `finally` clause, reached once the loop is left: there is a
        // device, so the release is attempted, and whatever it raises is
        // swallowed.
        releaseAttempted := true;
      }
    }
  }

  /** The script's entry point: exit code 1 when no device or no endpoint is
      found. Otherwise setup succeeded and reading began: exit code 0 stands
      for that, and `run` says how far the answers given took the loop; a run
      that is still `Running` is a process that has not exited yet. */
  method RunReader(backendLoaded: bool, located: Option<Device>, events: seq<ReadEvent>)
    returns (exitCode: int, run: Option<PollResult>)
    ensures exitCode == 0 || exitCode == 1
    ensures exitCode == 1 <==> !backendLoaded || located.None?
                               || !located.value.configuration.Configured?
                               || LastSuitable(Flatten(located.value.configuration.interfaces)).None?
    ensures exitCode == 0 ==> run == Some(Poll(events))
    ensures exitCode == 1 ==> run == None
  {
    var reader := new GamePadReader(backendLoaded);
    var found := reader.FindDevice(located);
    if !found {
      return 1, None;
    }
    var ready := reader.SetupDevice();
    if !ready {
      return 1, None;
    }
    var released;
    run, released := reader.ReadInput(events);
    exitCode := 0;
  }
}
