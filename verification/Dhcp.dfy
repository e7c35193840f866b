/** What the server reads out of a DHCP packet, and the boot file it answers with. */
module Dhcp {
  import opened Seqs

  const TINKERBELL: seq<byte> := [84, 105, 110, 107, 101, 114, 98, 101, 108, 108]
  const IPXE: seq<byte> := [105, 80, 88, 69]
  const PXE_CLIENT: seq<byte> := [80, 88, 69, 67, 108, 105, 101, 110, 116]
  const HTTP_CLIENT: seq<byte> := [72, 84, 84, 80, 67, 108, 105, 101, 110, 116]

  const OPT_MESSAGE_TYPE: nat := 53
  const OPT_CLASS_IDENTIFIER: nat := 60
  const OPT_USER_CLASS: nat := 77
  const OPT_ARCH: nat := 93
  const OPT_INTERFACE: nat := 94
  const OPT_MACHINE_ID: nat := 97
  const OPT_SERVER_ID: nat := 54

  /** A URL, as far as it is configured: the parts of Go's `url.URL` that matter here. */
  datatype Url = Url(scheme: string, host: string, path: string)

  function Ascii(s: string): (b: seq<byte>)
    requires forall i :: 0 <= i < |s| ==> s[i] < 128 as char
    ensures |b| == |s|
  {
    seq(|s|, i requires 0 <= i < |s| => s[i] as int)
  }

  /** The names that decide, as text. */
  lemma WellKnownNames()
    ensures TINKERBELL == Ascii("Tinkerbell") && IPXE == Ascii("iPXE")
    ensures PXE_CLIENT == Ascii("PXEClient") && HTTP_CLIENT == Ascii("HTTPClient")
  {
  }

  /** The boot file name, by what it points to. */
  datatype Boot =
    | NoFile                                               // the header is left empty
    | Script(url: Url)
    | HttpBinary(server: Url, mac: seq<byte>, name: string)
    | TftpBinary(host: string, mac: seq<byte>, name: string)
    | Bare(name: string)
    | NoScriptDefined                                      // "/no-ipxe-script-defined"
    | NotAllowed                                           // "/netboot-not-allowed"

  datatype MessageType = Discover | Offer | Request | Ack | Release | Other(code: nat)

  /** A packet as the handlers see it: headers, decoded architectures and options by code. */
  datatype Packet = Packet(
    bootRequest: bool,
    kind: MessageType,
    mac: seq<byte>,
    xid: nat,
    giaddr: seq<byte>,
    archs: seq<nat>,
    options: map<nat, seq<byte>>)

  function Opt(p: Packet, code: nat): seq<byte> { if code in p.options then p.options[code] else [] }

  // ---------------------------------------------------------------------------------------------
  // Architecture
  // ---------------------------------------------------------------------------------------------

  const RPI_PREFIXES: seq<seq<byte>> :=
    [[0xb8, 0x27, 0xeb], [0xdc, 0xa6, 0x32], [0xe4, 0x5f, 0x01], [0x28, 0xcd, 0xc1], [0xd8, 0x3a, 0xdd]]

  const RPI_ARCH: nat := 41
  const UNKNOWN_ARCH: nat := 255

  predicate IsRpi(mac: seq<byte>) { exists k :: 0 <= k < |RPI_PREFIXES| && RPI_PREFIXES[k] <= mac }

  method IsRaspberryPi(mac: seq<byte>) returns (r: bool)
    ensures r == IsRpi(mac)
  {
    for k := 0 to |RPI_PREFIXES|
      invariant forall j :: 0 <= j < k ==> !(RPI_PREFIXES[j] <= mac)
    {
      if RPI_PREFIXES[k] <= mac {
        return true;
      }
    }
    return false;
  }

  /** The first architecture with a known name, or the unknown one. */
  function FirstNamed(archs: seq<nat>, named: nat -> bool): nat {
    if archs == [] then UNKNOWN_ARCH else if named(archs[0]) then archs[0] else FirstNamed(archs[1..], named)
  }

  /** The client's architecture: a Raspberry Pi's own, whatever option 93 says, or the first named. */
  function ArchOf(p: Packet, named: nat -> bool): nat {
    if IsRpi(p.mac) then RPI_ARCH else FirstNamed(p.archs, named)
  }

  method Arch(p: Packet, named: nat -> bool) returns (a: nat)
    ensures a == ArchOf(p, named)
  {
    var rpi := IsRaspberryPi(p.mac);
    if rpi {
      return RPI_ARCH;
    }
    for i := 0 to |p.archs|
      invariant FirstNamed(p.archs, named) == FirstNamed(p.archs[i..], named)
    {
      if named(p.archs[i]) {
        return p.archs[i];
      }
    }
    return UNKNOWN_ARCH;
  }

  /** No architecture before the one chosen has a name. */
  lemma {:induction false} FirstNamedIsFirst(archs: seq<nat>, named: nat -> bool)
    ensures (exists i :: 0 <= i < |archs| && archs[i] == FirstNamed(archs, named) && named(archs[i]) &&
                         forall j :: 0 <= j < i ==> !named(archs[j]))
         || (FirstNamed(archs, named) == UNKNOWN_ARCH && forall j :: 0 <= j < |archs| ==> !named(archs[j]))
  {
    if archs != [] {
      if named(archs[0]) {
        assert archs[0] == FirstNamed(archs, named);
      } else {
        FirstNamedIsFirst(archs[1..], named);
        if i :| 0 <= i < |archs[1..]| && archs[1..][i] == FirstNamed(archs[1..], named) && named(archs[1..][i]) &&
                forall j :: 0 <= j < i ==> !named(archs[1..][j]) {
          assert forall j :: 0 <= j < i + 1 ==> !named(archs[j]) by {
            forall j | 0 <= j < i + 1 ensures !named(archs[j]) {
              if 0 < j { assert archs[j] == archs[1..][j - 1]; }
            }
          }
          assert archs[i + 1] == FirstNamed(archs, named);
        } else {
          forall j | 0 <= j < |archs| ensures !named(archs[j]) {
            if 0 < j { assert archs[j] == archs[1..][j - 1]; }
          }
        }
      }
    }
  }

  /** `ArchToBootFile`; the empty name for an architecture without a binary. */
  function BinaryFor(arch: nat): string {
    if arch <= 5 then "undionly.kpxe"
    else if arch <= 9 || arch == 15 || arch == 16 then "ipxe.efi"
    else if arch == 10 || arch == 11 || arch == 18 || arch == 19 || arch == RPI_ARCH then "snp.efi"
    else ""
  }

  /** Which architectures, by their number in the IANA registry, each binary is for. */
  lemma BinariesByArchitecture(arch: nat)
    ensures BinaryFor(arch) == "undionly.kpxe" <==> arch in {0, 1, 2, 3, 4, 5}
    ensures BinaryFor(arch) == "ipxe.efi" <==> arch in {6, 7, 8, 9, 15, 16}
    ensures BinaryFor(arch) == "snp.efi" <==> arch in {10, 11, 18, 19, 41}
    ensures BinaryFor(arch) == "" <==> arch !in {0, 1, 2, 3, 4, 5, 6, 7, 8, 9, 10, 11, 15, 16, 18, 19, 41}
  {
    assert |"undionly.kpxe"| == 13 && |"ipxe.efi"| == 8 && |"snp.efi"| == 7;
  }

  /** A Raspberry Pi, known by the first three bytes of its address, gets the ARM binary whatever it reports. */
  lemma PiGetsArmBinary(p: Packet, named: nat -> bool)
    requires |p.mac| >= 3
    requires p.mac[..3] in {[0xb8, 0x27, 0xeb], [0xdc, 0xa6, 0x32], [0xe4, 0x5f, 0x01], [0x28, 0xcd, 0xc1], [0xd8, 0x3a, 0xdd]}
    ensures BinaryFor(ArchOf(p, named)) == "snp.efi"
  {
    var x := p.mac[..3];
    assert x == RPI_PREFIXES[0] || x == RPI_PREFIXES[1] || x == RPI_PREFIXES[2] || x == RPI_PREFIXES[3] || x == RPI_PREFIXES[4];
    var k :| 0 <= k < |RPI_PREFIXES| && x == RPI_PREFIXES[k];
    assert RPI_PREFIXES[k] <= p.mac;
  }

  // ---------------------------------------------------------------------------------------------
  // A valid netboot client
  // ---------------------------------------------------------------------------------------------

  datatype Problem = BadType | NoClassId | BadClassId | NoArch | NoInterface | BadGuidStart | BadGuidLength

  predicate IsHttp(p: Packet) { HTTP_CLIENT <= Opt(p, OPT_CLASS_IDENTIFIER) }

  /** Discover or Request; option 60 naming PXEClient or HTTPClient; options 93 and 94 present;
      option 97 absent, empty, or 17 bytes starting with zero. */
  predicate NetbootClient(p: Packet) {
    && (p.kind.Discover? || p.kind.Request?)
    && OPT_CLASS_IDENTIFIER in p.options
    && (PXE_CLIENT <= Opt(p, OPT_CLASS_IDENTIFIER) || IsHttp(p))
    && OPT_ARCH in p.options
    && OPT_INTERFACE in p.options
    && (|Opt(p, OPT_MACHINE_ID)| == 0 || (|Opt(p, OPT_MACHINE_ID)| == 17 && Opt(p, OPT_MACHINE_ID)[0] == 0))
  }

  /** `IsNetbootClient` collects what is wrong with a packet; nothing is, exactly for a netboot client. */
  method NetbootProblems(p: Packet) returns (err: seq<Problem>)
    ensures err == [] <==> NetbootClient(p)
  {
    err := [];
    if !p.kind.Discover? && !p.kind.Request? {
      err := err + [BadType];
    }
    if OPT_CLASS_IDENTIFIER !in p.options {
      err := err + [NoClassId];
    }
    if !(PXE_CLIENT <= Opt(p, OPT_CLASS_IDENTIFIER)) && !(HTTP_CLIENT <= Opt(p, OPT_CLASS_IDENTIFIER)) {
      err := err + [BadClassId];
    }
    if OPT_ARCH !in p.options {
      err := err + [NoArch];
    }
    if OPT_INTERFACE !in p.options {
      err := err + [NoInterface];
    }
    var guid := Opt(p, OPT_MACHINE_ID);
    if |guid| == 17 {
      if guid[0] != 0 {
        err := err + [BadGuidStart];
      }
    } else if |guid| != 0 {
      err := err + [BadGuidLength];
    }
  }

  // ---------------------------------------------------------------------------------------------
  // The boot file
  // ---------------------------------------------------------------------------------------------

  /** What `NewInfo` extracts. */
  datatype Info = Info(mac: seq<byte>, userClass: seq<byte>, http: bool, binary: string)

  function NewInfo(p: Packet, arch: nat): Info {
    Info(p.mac, Opt(p, OPT_USER_CLASS), IsHttp(p), BinaryFor(arch))
  }

  /** The user classes that end the chainload loop. */
  predicate EndsLoop(custom: seq<byte>, userClass: seq<byte>) {
    userClass == TINKERBELL || (custom != [] && userClass == custom)
  }

  /** `Bootfile`; the order of the cases matters. */
  function Bootfile(i: Info, custom: seq<byte>, script: Option<Url>, httpServer: Option<Url>, tftp: string): Boot {
    if EndsLoop(custom, i.userClass) then
      if script.Some? then Script(script.value) else NoScriptDefined
    else if i.http then
      if httpServer.Some? then HttpBinary(httpServer.value, i.mac, i.binary) else NoScriptDefined
    else if i.userClass == IPXE then TftpBinary(tftp, i.mac, i.binary)
    else if i.binary != "" then Bare(i.binary)
    else NoScriptDefined
  }

  predicate IsBinary(b: Boot) { b.HttpBinary? || b.TftpBinary? || b.Bare? }
}
