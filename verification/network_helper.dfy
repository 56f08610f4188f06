/**
 * The selection rules of the network helpers: the first interface of a kind
 * that is up, its MAC address as text, the last IPv4 address of the host and
 * the first free port of a range.  The lists the operating system supplies
 * (interfaces, host addresses, listeners and connections) are parameters.
 */
module NetworkHelper {
  import opened Wrappers
  import opened Bytes

  // ----- interfaces and MAC addresses -----

  datatype NetworkInterfaceType = Ethernet | Wireless80211 | Loopback | Tunnel | Ppp | OtherType(code: int)

  datatype OperationalStatus = Up | Down | Testing | UnknownStatus | Dormant | NotPresent | LowerLayerDown

  /** An interface as enumerated: its type, its status and the bytes of its physical address. */
  datatype NetworkInterface = NetworkInterface(
    interfaceType: NetworkInterfaceType,
    status: OperationalStatus,
    physicalAddress: seq<byte>)

  /** The position of the first element of `s` that satisfies `p`, if any. */
  function FirstMatch<T>(s: seq<T>, p: T -> bool): (r: Option<nat>)
    ensures r.Some? ==> r.value < |s| && p(s[r.value]) && forall j :: 0 <= j < r.value ==> !p(s[j])
    ensures r.None? ==> forall j :: 0 <= j < |s| ==> !p(s[j])
  {
    if |s| == 0 then None
    else if p(s[0]) then Some(0)
    else match FirstMatch(s[1..], p)
      case None => None
      case Some(i) => Some(i + 1)
  }

  /** `BitConverter.ToString`: each byte as two upper-case digits, separated by dashes. */
  function BitConverterToString(bytes: seq<byte>): (s: string)
    ensures |s| == if |bytes| == 0 then 0 else 3 * |bytes| - 1
  {
    if |bytes| == 0 then ""
    else if |bytes| == 1 then Hex2(bytes[0] as int, true)
    else BitConverterToString(bytes[..|bytes| - 1]) + "-" + Hex2(bytes[|bytes| - 1] as int, true)
  }

  /** `string.Replace(char, char)`. */
  function Replace(s: string, from: char, to: char): (t: string)
    ensures |t| == |s|
  {
    seq(|s|, i requires 0 <= i < |s| => if s[i] == from then to else s[i])
  }

  /** The text of a MAC address: `BitConverter.ToString` with the dashes turned into colons. */
  function FormatMac(bytes: seq<byte>): (s: string)
    ensures |s| == if |bytes| == 0 then 0 else 3 * |bytes| - 1
  {
    Replace(BitConverterToString(bytes), '-', ':')
  }

  /** Byte `k` of the address is spelled at positions `3k`, `3k + 1`, and a dash follows all but the last. */
  lemma {:induction false} BitConverterPairAt(bytes: seq<byte>, k: nat)
    requires k < |bytes|
    ensures BitConverterToString(bytes)[3 * k..3 * k + 2] == Hex2(bytes[k] as int, true)
    ensures k < |bytes| - 1 ==> BitConverterToString(bytes)[3 * k + 2] == '-'
  {
    if |bytes| > 1 {
      var front := bytes[..|bytes| - 1];
      var s := BitConverterToString(bytes);
      assert s == BitConverterToString(front) + "-" + Hex2(bytes[|bytes| - 1] as int, true);
      if k < |bytes| - 1 {
        BitConverterPairAt(front, k);
        assert s[3 * k..3 * k + 2] == BitConverterToString(front)[3 * k..3 * k + 2];
      }
    }
  }

  /**
   * The MAC text of `n` bytes has `3n - 1` characters: byte `k` as two
   * upper-case digits at positions `3k` and `3k + 1`, and a colon after every
   * byte but the last.
   */
  lemma MacPairAt(bytes: seq<byte>, k: nat)
    requires k < |bytes|
    ensures FormatMac(bytes)[3 * k..3 * k + 2] == Hex2(bytes[k] as int, true)
    ensures k < |bytes| - 1 ==> FormatMac(bytes)[3 * k + 2] == ':'
  {
    BitConverterPairAt(bytes, k);
    var s := BitConverterToString(bytes);
    var h := Hex2(bytes[k] as int, true);
    assert s[3 * k] == h[0] && s[3 * k + 1] == h[1];
  }

  /** Whether the two characters at `3k` and `3k + 1` are hexadecimal digits. */
  predicate HexPairAt(s: string, k: nat) {
    3 * k + 1 < |s| && IsHexChar(s[3 * k]) && IsHexChar(s[3 * k + 1])
  }

  /** The byte spelled by the two digits at `3k` and `3k + 1`. */
  function PairValue(s: string, k: nat): byte
    requires HexPairAt(s, k)
  {
    (HexValue(s[3 * k]) * 16 + HexValue(s[3 * k + 1])) as byte
  }

  /** Reads a MAC text back into its bytes. */
  function ParseMac(s: string): (bytes: seq<byte>)
    requires forall k :: 0 <= k < (|s| + 1) / 3 ==> HexPairAt(s, k)
    ensures |bytes| == (|s| + 1) / 3
  {
    seq((|s| + 1) / 3, k requires 0 <= k < (|s| + 1) / 3 => PairValue(s, k))
  }

  /** The MAC text determines the address: reading it back gives the bytes. */
  lemma ParseFormatMac(bytes: seq<byte>)
    ensures var s := FormatMac(bytes);
      (forall k :: 0 <= k < (|s| + 1) / 3 ==> HexPairAt(s, k)) && ParseMac(s) == bytes
  {
    var s := FormatMac(bytes);
    assert (|s| + 1) / 3 == |bytes|;
    forall k | 0 <= k < |bytes|
      ensures HexPairAt(s, k) && PairValue(s, k) == bytes[k]
    {
      MacPairAt(bytes, k);
      var h := Hex2(bytes[k] as int, true);
      assert s[3 * k] == h[0] && s[3 * k + 1] == h[1];
    }
  }

  /** `GetPhysicalAddress` of the chosen interface, or null when none was chosen. */
  function MacText(nics: seq<NetworkInterface>, chosen: Option<nat>): Option<string>
    requires chosen.Some? ==> chosen.value < |nics|
  {
    match chosen
    case None => None
    case Some(i) => Some(FormatMac(nics[i].physicalAddress))
  }

  /** An interface of the requested type that is up. */
  predicate IsUpOfType(nic: NetworkInterface, pType: NetworkInterfaceType) {
    nic.interfaceType == pType && nic.status == Up
  }

  /**
   * Scans the interfaces in enumeration order and stops at the first one of
   * type `pType` that is up; returns its MAC text, or null when there is
   * none.
   */
  method GetFirstMacAddress(allNetworkInterfaces: seq<NetworkInterface>, pType: NetworkInterfaceType)
    returns (str: Option<string>)
    ensures str == MacText(allNetworkInterfaces, FirstMatch(allNetworkInterfaces, nic => IsUpOfType(nic, pType)))
  {
    ghost var p := (nic: NetworkInterface) => IsUpOfType(nic, pType);
    var mac: Option<seq<byte>> := None;
    ghost var chosen: Option<nat> := None;
    var num := 0;
    while num < |allNetworkInterfaces|
      invariant 0 <= num <= |allNetworkInterfaces|
      invariant mac.None? && forall j :: 0 <= j < num ==> !p(allNetworkInterfaces[j])
    {
      var nic := allNetworkInterfaces[num];
      if nic.interfaceType == pType && nic.status == Up {
        mac := Some(nic.physicalAddress);
        chosen := Some(num);
        break;
      }
      if mac.None? {
        num := num + 1;
      } else {
        break;
      }
    }
    FirstMatchIs(allNetworkInterfaces, p, chosen);
    if mac.None? {
      str := None;
    } else {
      str := Some(FormatMac(mac.value));
    }
  }

  /** An interface that `GetMacAddress` accepts: up, and wired or wireless. */
  predicate IsUpEthernetOrWireless(nic: NetworkInterface) {
    (nic.interfaceType == Ethernet && nic.status == Up) ||
    (nic.interfaceType == Wireless80211 && nic.status == Up)
  }

  /**
   * Scans the interfaces in enumeration order and stops at the first
   * Ethernet or wireless interface that is up; returns its MAC text, or null
   * when there is none.
   */
  method GetMacAddress(allNetworkInterfaces: seq<NetworkInterface>) returns (str: Option<string>)
    ensures str == MacText(allNetworkInterfaces, FirstMatch(allNetworkInterfaces, IsUpEthernetOrWireless))
  {
    var mac: Option<seq<byte>> := None;
    ghost var chosen: Option<nat> := None;
    var num := 0;
    while num < |allNetworkInterfaces|
      invariant 0 <= num <= |allNetworkInterfaces|
      invariant mac.None? && chosen.None?
      invariant forall j :: 0 <= j < num ==> !IsUpEthernetOrWireless(allNetworkInterfaces[j])
    {
      var nic := allNetworkInterfaces[num];
      if nic.interfaceType == Ethernet && nic.status == Up {
        mac := Some(nic.physicalAddress);
        chosen := Some(num);
      } else if nic.interfaceType == Wireless80211 && nic.status == Up {
        mac := Some(nic.physicalAddress);
        chosen := Some(num);
      }
      if mac.None? {
        num := num + 1;
      } else {
        break;
      }
    }
    FirstMatchIs(allNetworkInterfaces, IsUpEthernetOrWireless, chosen);
    if mac.None? {
      str := None;
    } else {
      str := Some(FormatMac(mac.value));
    }
  }

  /** A position satisfying the first-match conditions is the first match. */
  lemma FirstMatchIs<T>(s: seq<T>, p: T -> bool, i: Option<nat>)
    requires i.Some? ==> i.value < |s| && p(s[i.value]) && forall j :: 0 <= j < i.value ==> !p(s[j])
    requires i.None? ==> forall j :: 0 <= j < |s| ==> !p(s[j])
    ensures FirstMatch(s, p) == i
  {
    var r := FirstMatch(s, p);
    assert r.Some? && i.Some? ==> !p(s[r.value]) || !(r.value < i.value);
    assert r.Some? && i.Some? ==> !p(s[i.value]) || !(i.value < r.value);
  }

  // ----- host addresses -----

  datatype AddressFamily = InterNetwork | InterNetworkV6 | Unix | AppleTalk | Unspecified | UnknownFamily

  /** `AddressFamily.ToString()`: the name of the enumeration member. */
  function FamilyName(f: AddressFamily): (name: string)
    ensures name == "InterNetwork" <==> f == InterNetwork
  {
    match f
    case InterNetwork => "InterNetwork"
    case InterNetworkV6 => "InterNetworkV6"
    case Unix => "Unix"
    case AppleTalk => "AppleTalk"
    case Unspecified => "Unspecified"
    case UnknownFamily => "Unknown"
  }

  /** An address of the host: its family and its text (`IPAddress.ToString()`). */
  datatype IPAddress = IPAddress(family: AddressFamily, text: string)

  /** The test `GetLocalIp` applies: the family's name is "InterNetwork". */
  predicate IsInterNetworkName(address: IPAddress) {
    FamilyName(address.family) == "InterNetwork"
  }

  /** Comparing the family's name selects exactly the IPv4 addresses. */
  lemma InterNetworkNameIsIPv4(address: IPAddress)
    ensures IsInterNetworkName(address) <==> address.family == InterNetwork
  {
    if address.family == InterNetworkV6 {
      assert |FamilyName(address.family)| != |"InterNetwork"|;
    }
  }

  /** The position of the last element of `s` that satisfies `p`, if any. */
  function LastMatch<T>(s: seq<T>, p: T -> bool): (r: Option<nat>)
    ensures r.Some? ==> r.value < |s| && p(s[r.value]) && forall j :: r.value < j < |s| ==> !p(s[j])
    ensures r.None? ==> forall j :: 0 <= j < |s| ==> !p(s[j])
  {
    if |s| == 0 then None
    else if p(s[|s| - 1]) then Some(|s| - 1)
    else LastMatch(s[..|s| - 1], p)
  }

  /** The text of the chosen address, or null when none was chosen. */
  function AddressText(addresses: seq<IPAddress>, chosen: Option<nat>): Option<string>
    requires chosen.Some? ==> chosen.value < |addresses|
  {
    match chosen
    case None => None
    case Some(i) => Some(addresses[i].text)
  }

  /**
   * Walks the host's address list to its end, remembering the text of every
   * IPv4 address it meets: the result is the last IPv4 address of the list,
   * or null when the list has none.
   */
  method GetLocalIp(addressList: seq<IPAddress>) returns (ip: Option<string>)
    ensures ip == AddressText(addressList, LastMatch(addressList, IsInterNetworkName))
  {
    ip := None;
    ghost var chosen: Option<nat> := None;
    for i := 0 to |addressList|
      invariant chosen == LastMatch(addressList[..i], IsInterNetworkName)
      invariant chosen.Some? ==> chosen.value < i
      invariant ip == AddressText(addressList, chosen)
    {
      assert addressList[..i + 1][..i] == addressList[..i];
      var ipAddress := addressList[i];
      if FamilyName(ipAddress.family) == "InterNetwork" {
        ip := Some(ipAddress.text);
        chosen := Some(i);
      }
    }
    assert addressList[..|addressList|] == addressList;
  }

  /** The public address of the host: not implemented, always the empty text. */
  function GetPublicIp(): (ip: string)
    ensures |ip| == 0
  {
    ""
  }

  // ----- ports -----

  datatype TcpState =
    | Closed | Listen | SynSent | SynReceived | Established | FinWait1 | FinWait2
    | CloseWait | Closing | LastAck | TimeWait | DeleteTcb | UnknownState

  /** An active TCP connection: the port of its local end point and its state. */
  datatype TcpConnection = TcpConnection(localPort: int, state: TcpState)

  /** The local ports of the connections that are not closed, in order. */
  function OpenConnectionPorts(connections: seq<TcpConnection>): (ports: seq<int>)
    ensures forall port :: port in ports <==>
      exists c :: c in connections && c.state != Closed && c.localPort == port
  {
    if |connections| == 0 then []
    else
      var rest := OpenConnectionPorts(connections[1..]);
      assert forall c :: c in connections <==> c == connections[0] || c in connections[1..];
      if connections[0].state != Closed then [connections[0].localPort] + rest else rest
  }

  /** The ports in use: those of the open connections, then the TCP listeners, then the UDP listeners. */
  function UsedPorts(tcpListeners: seq<int>, udpListeners: seq<int>, connections: seq<TcpConnection>): (used: seq<int>)
    ensures forall port :: port in used <==>
      (exists c :: c in connections && c.state != Closed && c.localPort == port) ||
      port in tcpListeners || port in udpListeners
  {
    OpenConnectionPorts(connections) + tcpListeners + udpListeners
  }

  /** The smallest port of `[from, to)` that is not in `used`, if any. */
  function FirstFreePort(used: seq<int>, from: int, to: int): (r: Option<int>)
    decreases to - from
    ensures r.Some? ==> from <= r.value < to && r.value !in used && forall q :: from <= q < r.value ==> q in used
    ensures r.None? ==> forall q :: from <= q < to ==> q in used
  {
    if from >= to then None
    else if from !in used then Some(from)
    else FirstFreePort(used, from + 1, to)
  }

  /** The exception thrown when the range has no usable port. */
  const OutOfPorts: Exception := ApplicationException("Out of unused ports")

  /**
   * Collects the ports in use, then tries the ports of `[portStartIndex,
   * portEndIndex)` in increasing order and stops at the first one not in use.
   * Zero doubles as "none found", so a first free port 0 is reported as
   * failure like an exhausted range.  The port returned is free, every
   * smaller port of the range is in use, and it is not 0.
   */
  method GetFreePortInRange(
    tcpListeners: seq<int>, udpListeners: seq<int>, tcpConnections: seq<TcpConnection>,
    portStartIndex: int, portEndIndex: int)
    returns (r: Result<int, Exception>)
    ensures r == match FirstFreePort(UsedPorts(tcpListeners, udpListeners, tcpConnections), portStartIndex, portEndIndex)
      case None => Failure(OutOfPorts)
      case Some(port) => if port == 0 then Failure(OutOfPorts) else Success(port)
    ensures var used := UsedPorts(tcpListeners, udpListeners, tcpConnections);
      r.Success? ==>
        portStartIndex <= r.value < portEndIndex && r.value != 0 && r.value !in used &&
        forall q :: portStartIndex <= q < r.value ==> q in used
    ensures var used := UsedPorts(tcpListeners, udpListeners, tcpConnections);
      r.Failure? <==>
        (forall q :: portStartIndex <= q < portEndIndex ==> q in used) ||
        (portStartIndex <= 0 < portEndIndex && 0 !in used && forall q :: portStartIndex <= q < 0 ==> q in used)
    ensures r.Failure? ==> r.error == OutOfPorts
  {
    var usedPorts := OpenConnectionPorts(tcpConnections);
    usedPorts := usedPorts + tcpListeners;
    usedPorts := usedPorts + udpListeners;
    var unusedPort := 0;
    var port := portStartIndex;
    while port < portEndIndex
      invariant portStartIndex <= port
      invariant portStartIndex <= portEndIndex ==> port <= portEndIndex
      invariant unusedPort == 0
      invariant FirstFreePort(usedPorts, port, portEndIndex) == FirstFreePort(usedPorts, portStartIndex, portEndIndex)
      decreases portEndIndex - port
    {
      if port !in usedPorts {
        unusedPort := port;
        break;
      }
      port := port + 1;
    }
    if unusedPort == 0 {
      r := Failure(OutOfPorts);
    } else {
      r := Success(unusedPort);
    }
  }
}
