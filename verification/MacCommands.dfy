/**
 The MAC command tables (lorawan-mac.h, lorawan-mac.cpp): which first byte starts which command,
 and how long the command is, in each direction.  The program spells the same correspondence out
 six times; each copy is transcribed here, and `TablesAgree` and `ParsersAgree` tie them together.
 */
module MacCommands {
  import opened Bytes

  const MAC_RESET_SIZE := 2
  const MAC_LINK_CHECK_SIZE := 3
  const MAC_LINK_ADR_REQ_SIZE := 5
  const MAC_DUTY_CYCLE_SIZE := 2
  const MAC_RXRARAMSETUP_REQ_SIZE := 5
  const MAC_EMPTY_SIZE := 1
  const MAC_NEWCHANNEL_REQ_SIZE := 6
  const MAC_TIMINGSETUP_SIZE := 2
  const MAC_TXPARAMSETUP_SIZE := 2
  const MAC_DLCHANNEL_REQ_SIZE := 5
  const MAC_REKEY_RESP_SIZE := 2
  const MAC_ADRPARAMSETUP_SIZE := 2
  const MAC_DEVICETIME_SIZE := 4
  const MAC_FORCEREJOIN_SIZE := 3
  const MAC_REJOINPARAMSETUP_REQ_SIZE := 2
  const MAC_PINGSLOTCHANNEL_REQ_SIZE := 5
  const MAC_BEACONTIMING_SIZE := 4
  const MAC_BEACONFREQUENCY_REQ_SIZE := 4
  const MAC_DEVICEMODE_SIZE := 2
  const MAC_LINK_ADR_RESP_SIZE := 2
  const MAC_RXRARAMSETUP_RESP_SIZE := 2
  const MAC_DEVSTATUS_SIZE := 3
  const MAC_NEWCHANNEL_RESP_SIZE := 2
  const MAC_DLCHANNEL_RESP_SIZE := 2
  const MAC_REKEY_REQ_SIZE := 2
  const MAC_REJOINPARAMSETUP_RESP_SIZE := 2
  const MAC_PINGSLOTINFO_SIZE := 2
  const MAC_PINGSLOTCHANNEL_RESP_SIZE := 2
  const MAC_BEACONFREQUENCY_RESP_SIZE := 2

  const ERR_CODE_MAC_TOO_SHORT := -5050
  const ERR_CODE_MAC_INVALID := -5051
  const ERR_CODE_MAC_UNKNOWN_EXTENSION := -5052

  datatype CommandType = Known | Proprietary | Invalid

  function IsMacCommand(cmd: Byte): CommandType {
    if cmd >= 0x80 then Proprietary
    else if cmd == 0 || 0x14 <= cmd <= 0x1f || 0x21 <= cmd <= 0x7f then Invalid
    else Known
  }

  /** `commandSize`; `clientSide` means sent by the gateway. */
  function CommandSize(command: Byte, clientSide: bool): nat {
    if clientSide then
      match command {
        case 0x01 => MAC_RESET_SIZE
        case 0x02 => MAC_LINK_CHECK_SIZE
        case 0x03 => MAC_LINK_ADR_REQ_SIZE
        case 0x04 => MAC_DUTY_CYCLE_SIZE
        case 0x05 => MAC_RXRARAMSETUP_REQ_SIZE
        case 0x06 => MAC_EMPTY_SIZE
        case 0x07 => MAC_NEWCHANNEL_REQ_SIZE
        case 0x08 => MAC_TIMINGSETUP_SIZE
        case 0x09 => MAC_TXPARAMSETUP_SIZE
        case 0x0a => MAC_DLCHANNEL_REQ_SIZE
        case 0x0b => MAC_REKEY_RESP_SIZE
        case 0x0c => MAC_ADRPARAMSETUP_SIZE
        case 0x0d => MAC_DEVICETIME_SIZE
        case 0x0e => MAC_FORCEREJOIN_SIZE
        case 0x0f => MAC_REJOINPARAMSETUP_REQ_SIZE
        case 0x10 => MAC_EMPTY_SIZE
        case 0x11 => MAC_PINGSLOTCHANNEL_REQ_SIZE
        case 0x12 => MAC_BEACONTIMING_SIZE
        case 0x13 => MAC_BEACONFREQUENCY_REQ_SIZE
        case 0x20 => MAC_DEVICEMODE_SIZE
        case _ => 0
      }
    else
      match command {
        case 0x01 => MAC_RESET_SIZE
        case 0x02 => MAC_EMPTY_SIZE
        case 0x03 => MAC_LINK_ADR_RESP_SIZE
        case 0x04 => MAC_EMPTY_SIZE
        case 0x05 => MAC_RXRARAMSETUP_RESP_SIZE
        case 0x06 => MAC_DEVSTATUS_SIZE
        case 0x07 => MAC_NEWCHANNEL_RESP_SIZE
        case 0x08 => MAC_EMPTY_SIZE
        case 0x09 => MAC_EMPTY_SIZE
        case 0x0a => MAC_DLCHANNEL_RESP_SIZE
        case 0x0b => MAC_REKEY_REQ_SIZE
        case 0x0c => MAC_EMPTY_SIZE
        case 0x0d => MAC_EMPTY_SIZE
        case 0x0e => MAC_EMPTY_SIZE
        case 0x0f => MAC_REJOINPARAMSETUP_RESP_SIZE
        case 0x10 => MAC_PINGSLOTINFO_SIZE
        case 0x11 => MAC_PINGSLOTCHANNEL_RESP_SIZE
        case 0x12 => MAC_EMPTY_SIZE
        case 0x13 => MAC_BEACONFREQUENCY_RESP_SIZE
        case 0x20 => MAC_DEVICEMODE_SIZE
        case _ => 0
      }
  }

  /** The two macros: too short an input is an error, otherwise the size is returned. */
  function Sized(sz: nat, size: nat): int {
    if sz < size then ERR_CODE_MAC_TOO_SHORT else size
  }

  /** `parseClientSide`: the size of the first command, or a negative error. */
  function ParseClientSide(value: seq<Byte>): int {
    if |value| < 1 then ERR_CODE_MAC_TOO_SHORT
    else
      match value[0] {
        case 0x01 => Sized(|value|, MAC_RESET_SIZE)
        case 0x02 => Sized(|value|, MAC_LINK_CHECK_SIZE)
        case 0x03 => Sized(|value|, MAC_LINK_ADR_REQ_SIZE)
        case 0x04 => Sized(|value|, MAC_DUTY_CYCLE_SIZE)
        case 0x05 => Sized(|value|, MAC_RXRARAMSETUP_REQ_SIZE)
        case 0x06 => Sized(|value|, MAC_EMPTY_SIZE)
        case 0x07 => Sized(|value|, MAC_NEWCHANNEL_REQ_SIZE)
        case 0x08 => Sized(|value|, MAC_TIMINGSETUP_SIZE)
        case 0x09 => Sized(|value|, MAC_TXPARAMSETUP_SIZE)
        case 0x0a => Sized(|value|, MAC_DLCHANNEL_REQ_SIZE)
        case 0x0b => Sized(|value|, MAC_REKEY_RESP_SIZE)
        case 0x0c => Sized(|value|, MAC_ADRPARAMSETUP_SIZE)
        case 0x0d => Sized(|value|, MAC_DEVICETIME_SIZE)
        case 0x0e => Sized(|value|, MAC_FORCEREJOIN_SIZE)
        case 0x0f => Sized(|value|, MAC_REJOINPARAMSETUP_REQ_SIZE)
        case 0x10 => Sized(|value|, MAC_EMPTY_SIZE)
        case 0x11 => Sized(|value|, MAC_PINGSLOTCHANNEL_REQ_SIZE)
        case 0x12 => Sized(|value|, MAC_BEACONTIMING_SIZE)
        case 0x13 => Sized(|value|, MAC_BEACONFREQUENCY_REQ_SIZE)
        case 0x20 => Sized(|value|, MAC_DEVICEMODE_SIZE)
        case _ => ERR_CODE_MAC_INVALID
      }
  }

  /** `parseServerSide`. */
  function ParseServerSide(value: seq<Byte>): int {
    if |value| < 1 then ERR_CODE_MAC_TOO_SHORT
    else
      match value[0] {
        case 0x01 => Sized(|value|, MAC_RESET_SIZE)
        case 0x02 => Sized(|value|, MAC_EMPTY_SIZE)
        case 0x03 => Sized(|value|, MAC_LINK_ADR_RESP_SIZE)
        case 0x04 => Sized(|value|, MAC_EMPTY_SIZE)
        case 0x05 => Sized(|value|, MAC_RXRARAMSETUP_RESP_SIZE)
        case 0x06 => Sized(|value|, MAC_DEVSTATUS_SIZE)
        case 0x07 => Sized(|value|, MAC_NEWCHANNEL_RESP_SIZE)
        case 0x08 => Sized(|value|, MAC_EMPTY_SIZE)
        case 0x09 => Sized(|value|, MAC_EMPTY_SIZE)
        case 0x0a => Sized(|value|, MAC_DLCHANNEL_RESP_SIZE)
        case 0x0b => Sized(|value|, MAC_REKEY_REQ_SIZE)
        case 0x0c => Sized(|value|, MAC_EMPTY_SIZE)
        case 0x0d => Sized(|value|, MAC_EMPTY_SIZE)
        case 0x0e => Sized(|value|, MAC_EMPTY_SIZE)
        case 0x0f => Sized(|value|, MAC_REJOINPARAMSETUP_RESP_SIZE)
        case 0x10 => Sized(|value|, MAC_PINGSLOTINFO_SIZE)
        case 0x11 => Sized(|value|, MAC_PINGSLOTCHANNEL_RESP_SIZE)
        case 0x12 => Sized(|value|, MAC_EMPTY_SIZE)
        case 0x13 => Sized(|value|, MAC_BEACONFREQUENCY_RESP_SIZE)
        case 0x20 => Sized(|value|, MAC_DEVICEMODE_SIZE)
        case _ => ERR_CODE_MAC_INVALID
      }
  }

  /** `parseClientSidePtr`. */
  function ParseClientSidePtr(value: seq<Byte>): int {
    if |value| < 1 then ERR_CODE_MAC_TOO_SHORT
    else
      match value[0] {
        case 0x01 => Sized(|value|, MAC_RESET_SIZE)
        case 0x02 => Sized(|value|, MAC_LINK_CHECK_SIZE)
        case 0x03 => Sized(|value|, MAC_LINK_ADR_REQ_SIZE)
        case 0x04 => Sized(|value|, MAC_DUTY_CYCLE_SIZE)
        case 0x05 => Sized(|value|, MAC_RXRARAMSETUP_REQ_SIZE)
        case 0x06 => Sized(|value|, MAC_EMPTY_SIZE)
        case 0x07 => Sized(|value|, MAC_NEWCHANNEL_REQ_SIZE)
        case 0x08 => Sized(|value|, MAC_TIMINGSETUP_SIZE)
        case 0x09 => Sized(|value|, MAC_TXPARAMSETUP_SIZE)
        case 0x0a => Sized(|value|, MAC_DLCHANNEL_REQ_SIZE)
        case 0x0b => Sized(|value|, MAC_REKEY_RESP_SIZE)
        case 0x0c => Sized(|value|, MAC_ADRPARAMSETUP_SIZE)
        case 0x0d => Sized(|value|, MAC_DEVICETIME_SIZE)
        case 0x0e => Sized(|value|, MAC_FORCEREJOIN_SIZE)
        case 0x0f => Sized(|value|, MAC_REJOINPARAMSETUP_REQ_SIZE)
        case 0x10 => Sized(|value|, MAC_EMPTY_SIZE)
        case 0x11 => Sized(|value|, MAC_PINGSLOTCHANNEL_REQ_SIZE)
        case 0x12 => Sized(|value|, MAC_BEACONTIMING_SIZE)
        case 0x13 => Sized(|value|, MAC_BEACONFREQUENCY_REQ_SIZE)
        case 0x20 => Sized(|value|, MAC_DEVICEMODE_SIZE)
        case _ => if value[0] < 0x80 then ERR_CODE_MAC_INVALID else ERR_CODE_MAC_UNKNOWN_EXTENSION
      }
  }

  /** `parseServerSidePtr`. */
  function ParseServerSidePtr(value: seq<Byte>): int {
    if |value| < 1 then ERR_CODE_MAC_TOO_SHORT
    else
      match value[0] {
        case 0x01 => Sized(|value|, MAC_RESET_SIZE)
        case 0x02 => Sized(|value|, MAC_EMPTY_SIZE)
        case 0x03 => Sized(|value|, MAC_LINK_ADR_RESP_SIZE)
        case 0x04 => Sized(|value|, MAC_EMPTY_SIZE)
        case 0x05 => Sized(|value|, MAC_RXRARAMSETUP_RESP_SIZE)
        case 0x06 => Sized(|value|, MAC_DEVSTATUS_SIZE)
        case 0x07 => Sized(|value|, MAC_NEWCHANNEL_RESP_SIZE)
        case 0x08 => Sized(|value|, MAC_EMPTY_SIZE)
        case 0x09 => Sized(|value|, MAC_EMPTY_SIZE)
        case 0x0a => Sized(|value|, MAC_DLCHANNEL_RESP_SIZE)
        case 0x0b => Sized(|value|, MAC_REKEY_REQ_SIZE)
        case 0x0c => Sized(|value|, MAC_EMPTY_SIZE)
        case 0x0d => Sized(|value|, MAC_EMPTY_SIZE)
        case 0x0e => Sized(|value|, MAC_EMPTY_SIZE)
        case 0x0f => Sized(|value|, MAC_REJOINPARAMSETUP_RESP_SIZE)
        case 0x10 => Sized(|value|, MAC_PINGSLOTINFO_SIZE)
        case 0x11 => Sized(|value|, MAC_PINGSLOTCHANNEL_RESP_SIZE)
        case 0x12 => Sized(|value|, MAC_EMPTY_SIZE)
        case 0x13 => Sized(|value|, MAC_BEACONFREQUENCY_RESP_SIZE)
        case 0x20 => Sized(|value|, MAC_DEVICEMODE_SIZE)
        case _ => if value[0] < 0x80 then ERR_CODE_MAC_INVALID else ERR_CODE_MAC_UNKNOWN_EXTENSION
      }
  }

  function ParsePtr(value: seq<Byte>, clientSide: bool): int {
    if clientSide then ParseClientSidePtr(value) else ParseServerSidePtr(value)
  }

  function ParseCopy(value: seq<Byte>, clientSide: bool): int {
    if clientSide then ParseClientSide(value) else ParseServerSide(value)
  }

  /** One complete command: a known identifier and exactly the bytes that go with it. */
  predicate WellFormed(command: seq<Byte>, clientSide: bool) {
    |command| >= 1 && IsMacCommand(command[0]) == Known && |command| == CommandSize(command[0], clientSide)
  }

  /** No command can be taken from the front of `rest`. */
  predicate Stuck(rest: seq<Byte>, clientSide: bool) {
    rest == [] || IsMacCommand(rest[0]) != Known || |rest| < CommandSize(rest[0], clientSide)
  }

  /** The classification and the size table cover the same identifiers. */
  lemma TablesAgree(cmd: Byte, clientSide: bool)
    ensures IsMacCommand(cmd) == Known <==> CommandSize(cmd, clientSide) > 0
    ensures CommandSize(cmd, clientSide) <= MAC_NEWCHANNEL_REQ_SIZE
  {}

  /** Both parsers accept exactly the inputs that start with a complete command and return its
      size; on the others they differ only in how they report a proprietary identifier. */
  lemma ParsersAgree(value: seq<Byte>, clientSide: bool)
    ensures ParsePtr(value, clientSide) < 0 <==> Stuck(value, clientSide)
    ensures ParsePtr(value, clientSide) >= 0 ==> ParsePtr(value, clientSide) == CommandSize(value[0], clientSide)
    ensures ParsePtr(value, clientSide) < 0 ==>
              ParsePtr(value, clientSide) ==
              if value == [] || IsMacCommand(value[0]) == Known then ERR_CODE_MAC_TOO_SHORT
              else if IsMacCommand(value[0]) == Proprietary then ERR_CODE_MAC_UNKNOWN_EXTENSION
              else ERR_CODE_MAC_INVALID
    ensures ParseCopy(value, clientSide) ==
            if ParsePtr(value, clientSide) == ERR_CODE_MAC_UNKNOWN_EXTENSION then ERR_CODE_MAC_INVALID
            else ParsePtr(value, clientSide)
  {
    if value != [] { TablesAgree(value[0], clientSide); }
  }
}
