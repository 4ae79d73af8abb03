// The requests of the driver's only client as it packs them (app/src/Service/SplitTunnelClient.cpp,
// app/driver/Ioctl.h), and what the driver does on each: every field is little-endian.
module ClientRequests {
  import opened Options
  import opened DriverSpec
  import opened PackedPaths
  import D = Driver

  type Uint32Value = v: int | 0 <= v < 0x1_0000_0000

  function Bytes(v: Uint32Value): (b: seq<Byte>)
    ensures |b| == 4
  {
    [v % 0x100, v / 0x100 % 0x100, v / 0x1_0000 % 0x100, v / 0x100_0000]
  }

  // An IPv4 and an IPv6 source address, each with the index of its interface.
  datatype PhysicalAddresses = PhysicalAddresses(
    index4: Uint32Value, index6: Uint32Value, address4: seq<Byte>, address6: seq<Byte>)
  {
    predicate Valid() {
      |address4| == 4 && |address6| == 16
    }

    function Payload(): seq<Byte> {
      Bytes(index4) + Bytes(index6) + address4 + address6
    }
  }

  // Enabling, or choosing the mode, takes any value: zero turns off, any other turns on. What follows the four bytes is
  // not read.
  lemma ValueIsRead(upcase: CaseTable, s: State, v: Uint32Value, after: seq<Byte>, granted: nat -> bool)
    ensures D.Controlled(upcase, s, D.SetEnabledCode, Bytes(v) + after, granted)
         == (D.Success, Step(upcase, s, SetEnabled(v != 0)))
    ensures D.Controlled(upcase, s, D.SetModeCode, Bytes(v) + after, granted)
         == (D.Success, Step(upcase, s, SetMode(v != 0)))
  {
  }

  // The addresses are stored as they were packed: each field is found where the client put it.
  lemma AddressesAreStored(upcase: CaseTable, s: State, p: PhysicalAddresses, after: seq<Byte>, granted: nat -> bool)
    requires p.Valid()
    ensures var (status, t) := D.Controlled(upcase, s, D.SetPhysicalCode, p.Payload() + after, granted);
            && status == D.Success && t == Step(upcase, s, SetPhysical(p.Payload()))
            && t.physical[..4] == Bytes(p.index4) && t.physical[4..8] == Bytes(p.index6)
            && t.physical[8..12] == p.address4 && t.physical[12..] == p.address6
  {
    var b := p.Payload() + after;
    assert |p.Payload()| == 28 && b[..28] == p.Payload();
  }

  // A path list installs what it packs, after a clear; with no paths it installs none.
  lemma PathsAreInstalled(upcase: CaseTable, s: State, ps: seq<Path>)
    requires |ps| < 0x1_0000_0000
    ensures D.Controlled(upcase, s, D.SetPathsCode, Encode(ps), ALWAYS)
         == (D.Success, Step(upcase, Step(upcase, s, Clear), Install(if ps == [] then None else Some(StoredAll(ps)))))
  {
    DecodeEncode(ps);
  }

  // A clear needs no payload. A payload cut short, a list the pool has no array for, and an unknown code change
  // nothing.
  lemma OthersChangeNothing(upcase: CaseTable, s: State, code: D.IoControl, buf: seq<Byte>, granted: nat -> bool)
    ensures D.Controlled(upcase, s, D.ClearCode, buf, granted) == (D.Success, Step(upcase, s, Clear))
    ensures D.Controlled(upcase, s, D.OtherCode, buf, granted) == (D.InvalidDeviceRequest, s)
    ensures |buf| < 4 && code in {D.SetEnabledCode, D.SetModeCode, D.SetPathsCode, D.SetPhysicalCode} ==>
              D.Controlled(upcase, s, code, buf, granted) == (D.BufferTooSmall, s)
    ensures |buf| < 28 ==> D.Controlled(upcase, s, D.SetPhysicalCode, buf, granted) == (D.BufferTooSmall, s)
    ensures |buf| >= 4 && Uint32(buf) > 0 && !granted(0) ==>
              D.Controlled(upcase, s, D.SetPathsCode, buf, granted) == (D.InsufficientResources, s)
  {
  }
}
