/**
 The packed records of the MAC commands (lorawan-mac.h:81-331), each as the widths of its fields in bits, and
 what the parsers make of commands built from them.
 */
module MacRecords {
  import opened Bytes
  import opened MacCommands
  import opened MacStream

  // ---------- the records ----------

  const RESET: nat := 4 + 4
  const EMPTY: nat := 0
  const LINK_CHECK: nat := 8 + 8
  const LINK_ADR_REQ: nat := 4 + 4 + 16 + 4 + 3 + 1
  const LINK_ADR_RESP: nat := 1 + 1 + 1 + 5
  const DUTY_CYCLE: nat := 4 + 4
  const RXRARAMSETUP_REQ: nat := 4 + 3 + 1 + 24
  const RXRARAMSETUP_RESP: nat := 1 + 1 + 1 + 5
  const DEVSTATUS: nat := 8 + 8
  const NEWCHANNEL_REQ: nat := 8 + 24 + 4 + 4
  const NEWCHANNEL_RESP: nat := 1 + 1 + 6
  const TIMINGSETUP: nat := 4 + 4
  const TXPARAMSETUP: nat := 4 + 1 + 1 + 2
  const DLCHANNEL_REQ: nat := 8 + 24
  const DLCHANNEL_RESP: nat := 1 + 1 + 6
  const REKEY_REQ: nat := 4 + 4
  const REKEY_RESP: nat := 8
  const ADRPARAMSETUP: nat := 4 + 4
  const DEVICETIME: nat := 32 + 8
  const FORCEREJOIN: nat := 4 + 3 + 1 + 3 + 3 + 2
  const REJOINPARAMSETUP_REQ: nat := 4 + 4
  const REJOINPARAMSETUP_RESP: nat := 1 + 7
  const PINGSLOTINFO: nat := 3 + 5
  const PINGSLOTCHANNEL_REQ: nat := 4 + 4 + 24
  const PINGSLOTCHANNEL_RESP: nat := 1 + 1 + 6
  const BEACONTIMING: nat := 8 + 16
  const BEACONFREQUENCY_REQ: nat := 24
  const BEACONFREQUENCY_RESP: nat := 1 + 7
  const DEVICEMODE: nat := 8

  datatype Record = Record(bits: nat) | NoRecord

  /** What follows the identifier, sent by the gateway or by the end device. */
  function RecordOf(id: Byte, clientSide: bool): Record {
    match id {
      case 0x01 => Record(RESET)
      case 0x02 => Record(if clientSide then LINK_CHECK else EMPTY)
      case 0x03 => Record(if clientSide then LINK_ADR_REQ else LINK_ADR_RESP)
      case 0x04 => Record(if clientSide then DUTY_CYCLE else EMPTY)
      case 0x05 => Record(if clientSide then RXRARAMSETUP_REQ else RXRARAMSETUP_RESP)
      case 0x06 => Record(if clientSide then EMPTY else DEVSTATUS)
      case 0x07 => Record(if clientSide then NEWCHANNEL_REQ else NEWCHANNEL_RESP)
      case 0x08 => Record(if clientSide then TIMINGSETUP else EMPTY)
      case 0x09 => Record(if clientSide then TXPARAMSETUP else EMPTY)
      case 0x0a => Record(if clientSide then DLCHANNEL_REQ else DLCHANNEL_RESP)
      case 0x0b => Record(if clientSide then REKEY_RESP else REKEY_REQ)
      case 0x0c => Record(if clientSide then ADRPARAMSETUP else EMPTY)
      case 0x0d => Record(if clientSide then DEVICETIME else EMPTY)
      case 0x0e => Record(if clientSide then FORCEREJOIN else EMPTY)
      case 0x0f => Record(if clientSide then REJOINPARAMSETUP_REQ else REJOINPARAMSETUP_RESP)
      case 0x10 => Record(if clientSide then EMPTY else PINGSLOTINFO)
      case 0x11 => Record(if clientSide then PINGSLOTCHANNEL_REQ else PINGSLOTCHANNEL_RESP)
      case 0x12 => Record(if clientSide then BEACONTIMING else EMPTY)
      case 0x13 => Record(if clientSide then BEACONFREQUENCY_REQ else BEACONFREQUENCY_RESP)
      case 0x20 => Record(DEVICEMODE)
      case _ => NoRecord
    }
  }

  /** Bytes of a command: the identifier and its record. */
  function RecordSize(r: Record): nat
    requires r.Record?
  {
    1 + r.bits / 8
  }

  /** The one command whose size is not that of its record: the gateway's answer to a time request. */
  predicate IsTimeAnswer(id: Byte, clientSide: bool) {
    id == 0x0d && clientSide
  }

  /**
   The size table is that of the records, for every identifier and both directions, except for the
   time answer, which has two bytes more than the parsers take.
   */
  lemma SizesAreRecords(id: Byte, clientSide: bool)
    ensures IsMacCommand(id).Known? <==> RecordOf(id, clientSide).Record?
    ensures RecordOf(id, clientSide).Record? ==>
              (CommandSize(id, clientSide) == RecordSize(RecordOf(id, clientSide))
               <==> !IsTimeAnswer(id, clientSide))
    ensures IsTimeAnswer(id, clientSide) ==>
              CommandSize(id, clientSide) == 4 && RecordSize(RecordOf(id, clientSide)) == 6
    ensures RecordOf(id, clientSide).Record? ==> RecordOf(id, clientSide).bits % 8 == 0
  {}

  // ---------- commands built from records ----------

  /** An identifier and the bytes of its record. */
  predicate IsWhole(command: seq<Byte>, clientSide: bool) {
    && command != [] && RecordOf(command[0], clientSide).Record?
    && |command| == RecordSize(RecordOf(command[0], clientSide))
  }

  /** Commands of whole records, the time answer apart, are found again in any concatenation. */
  lemma {:induction false} RecordsDecode(commands: seq<seq<Byte>>, clientSide: bool)
    requires forall i | 0 <= i < |commands| ::
               IsWhole(commands[i], clientSide) && !IsTimeAnswer(commands[i][0], clientSide)
    ensures Commands(Concat(commands), clientSide) == commands && Rest(Concat(commands), clientSide) == []
  {
    forall i | 0 <= i < |commands| ensures WellFormed(commands[i], clientSide) {
      SizesAreRecords(commands[i][0], clientSide);
    }
    UniquelyDecodable(commands, clientSide);
  }

  /** A single whole command is found as such if and only if it is no time answer. */
  lemma WholeIffNotTimeAnswer(command: seq<Byte>, clientSide: bool)
    requires IsWhole(command, clientSide)
    ensures Commands(command, clientSide) == [command] <==> !IsTimeAnswer(command[0], clientSide)
  {
    SizesAreRecords(command[0], clientSide);
    ConcatSingle(command);
    if IsTimeAnswer(command[0], clientSide) {
      TimeAnswerIsCut(command);
    } else {
      RecordsDecode([command], clientSide);
    }
  }

  /** Of a time answer the first four bytes are taken, and what follows is read as commands. */
  lemma TimeAnswerIsCut(value: seq<Byte>)
    requires |value| >= 4 && value[0] == 0x0d
    ensures Commands(value, true) == [value[..4]] + Commands(value[4..], true)
    ensures Rest(value, true) == Rest(value[4..], true)
  {
    var c, later := value[..4], value[4..];
    CommandsParse(later, true);
    TimeAnswerFirst(c);
    ParseFirst(value, c, Commands(later, true), Rest(later, true), true);
    ParseUnique(value, [c] + Commands(later, true), Rest(later, true), true);
  }

  lemma TimeAnswerFirst(c: seq<Byte>)
    requires |c| == 4 && c[0] == 0x0d
    ensures WellFormed(c, true)
  {}

  lemma ParseFirst(value: seq<Byte>, c: seq<Byte>, commands: seq<seq<Byte>>, rest: seq<Byte>, clientSide: bool)
    requires |c| <= |value| && c == value[..|c|] && WellFormed(c, clientSide)
    requires IsParse(value[|c|..], commands, rest, clientSide)
    ensures IsParse(value, [c] + commands, rest, clientSide)
  {
    assert ([c] + commands)[1..] == commands;
    assert Concat([c] + commands) == c + Concat(commands);
    assert value == c + value[|c|..];
    forall i | 0 <= i < |commands| + 1 ensures WellFormed(([c] + commands)[i], clientSide) {}
  }
}
