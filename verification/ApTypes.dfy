// The records of ctx.h.
module ApTypes {
  import opened Bytes

  const AP_CAPACITY: nat := 1028
  const PACKET_BUF_SIZE: nat := 20
  const CHANNELS_COUNT: nat := 7
  const SSID_BUF: nat := 33  // 32 bytes and the terminator of a name of 32 bytes

  type Mac = m: seq<Byte> | |m| == 6 witness [0, 0, 0, 0, 0, 0]

  datatype View = Main | Detail

  // struct ap.
  datatype Ap = Ap(
    lastSeen: int,
    rx: U32,
    tx: U32,
    beacons: U32,
    retries: U32,
    mac: Mac,
    ssid: seq<Byte>,
    ssidLen: Byte,
    colPair: int,
    freqs: seq<U16>,
    freqNum: Byte,
    view: View)

  // struct hdr_info; the direction is not used by the tracker.
  datatype Header = Header(
    src: Mac,
    dst: Mac,
    bssid: Mac,
    kind: Byte,
    subtype: Byte,
    retry: bool,
    len: U16,
    tods: bool,
    fromds: bool)

  // struct radiotap_info.
  datatype Radiotap = Radiotap(rssi: int, freq: U16, flags: U16)

  // struct action_frame.
  datatype Action = Action(cat: Byte, code: Byte)

  // struct packet_info.
  datatype Packet = Packet(hdr: Header, rt: Radiotap, action: Action)

  const ZERO_MAC: Mac := [0, 0, 0, 0, 0, 0]
  const ZERO_AP: Ap :=
    Ap(0, 0, 0, 0, 0, ZERO_MAC, seq<Byte>(SSID_BUF, i => 0), 0, 0, seq<U16>(CHANNELS_COUNT, i => 0), 0, Main)
  const ZERO_PACKET: Packet :=
    Packet(Header(ZERO_MAC, ZERO_MAC, ZERO_MAC, 0, 0, false, 0, false, false), Radiotap(0, 0, 0), Action(0, 0))

  const MANAGEMENT: Byte := 0
  const PROBE_REQUEST: Byte := 4
  const PROBE_RESPONSE: Byte := 5
  const BEACON: Byte := 8
  const ACTION: Byte := 13
  const ACTION_NOACK: Byte := 14
}
