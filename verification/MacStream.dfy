/**
 Cutting an FOpts byte string into MAC commands (lorawan-mac.cpp).  The pointer loop
 `MacPtr::parse` and the copying loop of `MacDataList` are both proved to find the one and only
 maximal decomposition of their input, and the encoding is uniquely decodable.
 */
module MacStream {
  import opened Bytes
  import opened MacCommands
  import opened TextCodec

  // ---------- what a parse is ----------

  /** `data` is `commands` end to end, followed by `rest`, from which nothing more can be taken. */
  predicate IsParse(data: seq<Byte>, commands: seq<seq<Byte>>, rest: seq<Byte>, clientSide: bool) {
    && data == Concat(commands) + rest
    && (forall i | 0 <= i < |commands| :: WellFormed(commands[i], clientSide))
    && Stuck(rest, clientSide)
  }

  function Commands(data: seq<Byte>, clientSide: bool): seq<seq<Byte>> {
    if Stuck(data, clientSide) then []
    else
      TablesAgree(data[0], clientSide);
      var n := CommandSize(data[0], clientSide);
      [data[..n]] + Commands(data[n..], clientSide)
  }

  function Rest(data: seq<Byte>, clientSide: bool): seq<Byte> {
    if Stuck(data, clientSide) then data
    else
      TablesAgree(data[0], clientSide);
      Rest(data[CommandSize(data[0], clientSide)..], clientSide)
  }

  /** Commands and rest tile the input: nothing lost, nothing repeated, nothing left parsable. */
  lemma {:induction false} CommandsParse(data: seq<Byte>, clientSide: bool)
    ensures IsParse(data, Commands(data, clientSide), Rest(data, clientSide), clientSide)
  {
    if !Stuck(data, clientSide) {
      TablesAgree(data[0], clientSide);
      var n := CommandSize(data[0], clientSide);
      CommandsParse(data[n..], clientSide);
      OneMore(data, n, Commands(data[n..], clientSide), Rest(data[n..], clientSide), clientSide);
    }
  }

  lemma OneMore(data: seq<Byte>, n: nat, tail: seq<seq<Byte>>, rest: seq<Byte>, clientSide: bool)
    requires n <= |data| && WellFormed(data[..n], clientSide) && IsParse(data[n..], tail, rest, clientSide)
    ensures IsParse(data, [data[..n]] + tail, rest, clientSide)
  {
    var c := [data[..n]] + tail;
    assert c[1..] == tail;
    assert data == data[..n] + data[n..];
    assert data[..n] + (Concat(tail) + rest) == (data[..n] + Concat(tail)) + rest;
    forall i | 0 <= i < |c| ensures WellFormed(c[i], clientSide) {
      if i > 0 { assert c[i] == tail[i - 1]; }
    }
  }

  /** There is only one way to parse: where commands end is determined by the bytes alone. */
  lemma {:induction false} ParseUnique(data: seq<Byte>, commands: seq<seq<Byte>>, rest: seq<Byte>, clientSide: bool)
    requires IsParse(data, commands, rest, clientSide)
    ensures commands == Commands(data, clientSide) && rest == Rest(data, clientSide)
    decreases |commands|
  {
    if commands == [] {
      assert data == rest;
    } else {
      var c := commands[0];
      assert WellFormed(c, clientSide);
      assert data == c + (Concat(commands[1..]) + rest);
      assert data[0] == c[0] && data[..|c|] == c;
      assert data[|c|..] == Concat(commands[1..]) + rest;
      ParseUnique(data[|c|..], commands[1..], rest, clientSide);
    }
  }

  /** Decoding undoes encoding, so no two lists of commands share an encoding. */
  lemma {:induction false} UniquelyDecodable(commands: seq<seq<Byte>>, clientSide: bool)
    requires forall i | 0 <= i < |commands| :: WellFormed(commands[i], clientSide)
    ensures Commands(Concat(commands), clientSide) == commands
    ensures Rest(Concat(commands), clientSide) == []
  {
    assert Concat(commands) == Concat(commands) + [];
    ParseUnique(Concat(commands), commands, [], clientSide);
  }

  /** A longer input can only extend the parse: complete commands never change when bytes arrive. */
  lemma ParseExtends(data: seq<Byte>, more: seq<Byte>, clientSide: bool)
    ensures Commands(data + more, clientSide)
         == Commands(data, clientSide) + Commands(Rest(data, clientSide) + more, clientSide)
  {
    var c, r := Commands(data, clientSide), Rest(data, clientSide);
    CommandsParse(data, clientSide);
    CommandsParse(r + more, clientSide);
    JoinParses(c, r, more, Commands(r + more, clientSide), Rest(r + more, clientSide), clientSide);
    ParseUnique(data + more, c + Commands(r + more, clientSide), Rest(r + more, clientSide), clientSide);
  }

  lemma JoinParses(c: seq<seq<Byte>>, r: seq<Byte>, more: seq<Byte>, d: seq<seq<Byte>>, q: seq<Byte>, clientSide: bool)
    requires forall i | 0 <= i < |c| :: WellFormed(c[i], clientSide)
    requires IsParse(r + more, d, q, clientSide)
    ensures IsParse(Concat(c) + r + more, c + d, q, clientSide)
  {
    ConcatAppend(c, d);
    Regroup(Concat(c), r, more, Concat(d), q);
    forall i | 0 <= i < |c + d|
      ensures WellFormed((c + d)[i], clientSide)
    {
      if i < |c| { assert WellFormed(c[i], clientSide); } else { assert WellFormed(d[i - |c|], clientSide); }
    }
  }

  lemma Regroup(a: seq<Byte>, r: seq<Byte>, more: seq<Byte>, b: seq<Byte>, q: seq<Byte>)
    requires r + more == b + q
    ensures a + r + more == (a + b) + q
  {
    assert a + r + more == a + (r + more);
  }

  // ---------- the pointer loop ----------

  /** Where each piece starts when the pieces are laid end to end. */
  function Starts(pieces: seq<seq<Byte>>): (s: seq<nat>)
    ensures |s| == |pieces|
  {
    if pieces == [] then []
    else Starts(pieces[..|pieces| - 1]) + [|Concat(pieces[..|pieces| - 1])|]
  }

  /** A start and the piece's length cut exactly that piece out of the whole. */
  lemma {:induction false} StartsCutPieces(pieces: seq<seq<Byte>>, rest: seq<Byte>, k: nat)
    requires k < |pieces|
    ensures var data, o := Concat(pieces) + rest, Starts(pieces)[k];
            o + |pieces[k]| <= |data| && data[o..o + |pieces[k]|] == pieces[k]
    ensures Starts(pieces)[k] == if k == 0 then 0 else Starts(pieces)[k - 1] + |pieces[k - 1]|
    decreases |pieces|
  {
    var n := |pieces| - 1;
    var front, last := pieces[..n], pieces[n];
    assert pieces == front + [last];
    ConcatAppend(front, [last]);
    ConcatSingle(last);
    if k < n {
      StartsCutPieces(front, last + rest, k);
      assert Concat(front) + (last + rest) == Concat(pieces) + rest;
    } else if n > 0 {
      StartsCutPieces(front, last + rest, n - 1);
      var f2 := front[..n - 1];
      assert front == f2 + [front[n - 1]];
      ConcatAppend(f2, [front[n - 1]]);
      ConcatSingle(front[n - 1]);
    }
  }

  class MacPtr {
    /** The vector of pointers, as positions in the parsed buffer. */
    var mac: seq<nat>
    var errorcode: int
    var clientSide: bool

    constructor (parseData: seq<Byte>, aClientSide: bool, uninitialized: int)
      ensures clientSide == aClientSide
      ensures mac == Starts(Commands(parseData, clientSide))
      ensures parseData != [] ==> (errorcode == 0 <==> Rest(parseData, clientSide) == []) && errorcode <= 0
    {
      clientSide := aClientSide;
      mac, errorcode := [], 0;
      new;
      Parse(parseData, uninitialized);
    }

    /** `uninitialized` is what the result variable happens to hold before the loop. */
    method Parse(parseData: seq<Byte>, uninitialized: int)
      modifies this
      ensures clientSide == old(clientSide)
      ensures mac == Starts(Commands(parseData, clientSide))
      ensures parseData != [] ==> (errorcode == 0 <==> Rest(parseData, clientSide) == []) && errorcode <= 0
      ensures parseData != [] && errorcode != 0 ==> errorcode == ParsePtr(Rest(parseData, clientSide), clientSide)
      ensures parseData == [] ==> errorcode == if uninitialized < 0 then uninitialized else 0
    {
      var r := uninitialized;
      var p: nat, size: nat := 0, |parseData|;
      mac := [];
      ghost var done: seq<seq<Byte>> := [];
      while size > 0
        invariant p + size == |parseData|
        invariant clientSide == old(clientSide)
        invariant Consumed(parseData, done, p, clientSide)
        invariant mac == Starts(done)
        invariant if p == 0 then r == uninitialized else r >= 0
      {
        r := ParsePtr(parseData[p..], clientSide);
        ParsersAgree(parseData[p..], clientSide);
        if r < 0 {
          break;
        }
        ConsumedStep(parseData, done, p, r, clientSide);
        done := done + [parseData[p..p + r]];
        size := size - r;
        p := p + r;
        mac := mac + [p - r];
        assert done[..|done| - 1] + [done[|done| - 1]] == done;
      }
      errorcode := if r < 0 then r else 0;
      ParsersAgree(parseData[p..], clientSide);
      ConsumedAll(parseData, done, p, clientSide);
    }
  }

  /** The first `p` bytes of `data` are the commands `done`, end to end. */
  predicate Consumed(data: seq<Byte>, done: seq<seq<Byte>>, p: nat, clientSide: bool) {
    && p <= |data|
    && data[..p] == Concat(done)
    && forall i | 0 <= i < |done| :: WellFormed(done[i], clientSide)
  }

  lemma ConsumedStep(data: seq<Byte>, done: seq<seq<Byte>>, p: nat, r: int, clientSide: bool)
    requires Consumed(data, done, p, clientSide)
    requires !Stuck(data[p..], clientSide) && r == CommandSize(data[p], clientSide)
    ensures 0 < r && p + r <= |data|
    ensures Consumed(data, done + [data[p..p + r]], p + r, clientSide)
    ensures Starts(done + [data[p..p + r]]) == Starts(done) + [p]
  {
    TablesAgree(data[p], clientSide);
    var c := data[p..p + r];
    assert (done + [c])[..|done|] == done;
    ConcatAppend(done, [c]);
    ConcatSingle(c);
    assert data[..p] + c == data[..p + r];
  }

  lemma ConsumedAll(data: seq<Byte>, done: seq<seq<Byte>>, p: nat, clientSide: bool)
    requires Consumed(data, done, p, clientSide) && Stuck(data[p..], clientSide)
    ensures done == Commands(data, clientSide) && data[p..] == Rest(data, clientSide)
  {
    assert data == data[..p] + data[p..];
    ParseUnique(data, done, data[p..], clientSide);
  }

  // ---------- the copying loop ----------

  /** Size of the MAC_COMMAND union: the longest command. */
  const COMMAND_CAPACITY: nat := MAC_NEWCHANNEL_REQ_SIZE

  type CommandBuffer = b: seq<Byte> | |b| == COMMAND_CAPACITY witness [0, 0, 0, 0, 0, 0]

  datatype MacData = MacData(command: CommandBuffer, errcode: int, isClientSide: bool)
  {
    /** `MacData::size`. */
    function Size(): (n: nat)
      ensures n <= COMMAND_CAPACITY
    {
      TablesAgree(command[0], isClientSide);
      if errcode != 0 then 0 else CommandSize(command[0], isClientSide)
    }

    /** `MacData::toHexString`. */
    function ToHexString(): string {
      HexString(command[..Size()])
    }
  }

  /** The command at the start of a buffer, read in the given direction. */
  function Shown(b: CommandBuffer, clientSide: bool): seq<Byte> {
    TablesAgree(b[0], clientSide);
    b[..CommandSize(b[0], clientSide)]
  }

  /** The bytes a list element carries, read in the given direction. */
  function Carried(d: MacData, clientSide: bool): seq<Byte> {
    Shown(d.command, clientSide)
  }

  /** The buffer after a command was copied over its front. */
  function Overlay(b: CommandBuffer, command: seq<Byte>): CommandBuffer {
    if |command| < COMMAND_CAPACITY then command + b[|command|..] else command[..COMMAND_CAPACITY]
  }

  /** The one buffer all commands are copied to, after `commands`; it starts with zeros. */
  function Buffer(commands: seq<seq<Byte>>): CommandBuffer {
    if commands == [] then [0, 0, 0, 0, 0, 0]
    else Overlay(Buffer(commands[..|commands| - 1]), commands[|commands| - 1])
  }

  lemma BufferNext(commands: seq<seq<Byte>>, c: seq<Byte>)
    ensures Buffer(commands + [c]) == Overlay(Buffer(commands), c)
  {
    assert (commands + [c])[..|commands|] == commands;
  }

  /** Byte `j` of the buffer comes from the latest command that is long enough, `commands[i]`. */
  lemma {:induction false} LeftoverByte(commands: seq<seq<Byte>>, i: nat, j: nat)
    requires i < |commands| && j < COMMAND_CAPACITY && j < |commands[i]|
    requires forall k | i < k < |commands| :: |commands[k]| <= j
    ensures Buffer(commands)[j] == commands[i][j]
  {
    if i < |commands| - 1 { LeftoverByte(commands[..|commands| - 1], i, j); }
  }

  /** Each element holds the buffer as it was after its command. */
  predicate Buffered(list: seq<MacData>, commands: seq<seq<Byte>>) {
    |list| == |commands| && forall k | 0 <= k < |list| :: list[k].command == Buffer(commands[..k + 1])
  }

  lemma BufferedNext(list: seq<MacData>, commands: seq<seq<Byte>>, c: seq<Byte>, d: MacData)
    requires Buffered(list, commands) && d.command == Overlay(Buffer(commands), c)
    ensures Buffered(list + [d], commands + [c])
  {
    BufferNext(commands, c);
    forall k | 0 <= k < |list| + 1 ensures (list + [d])[k].command == Buffer((commands + [c])[..k + 1]) {
      FrontOf(commands, c, k);
    }
  }

  lemma FrontOf(commands: seq<seq<Byte>>, c: seq<Byte>, k: nat)
    requires k <= |commands|
    ensures (commands + [c])[..k + 1] == if k < |commands| then commands[..k + 1] else commands + [c]
  {}

  function AllCarried(list: seq<MacData>, clientSide: bool): (s: seq<seq<Byte>>)
    ensures |s| == |list|
  {
    seq(|list|, k requires 0 <= k < |list| => Carried(list[k], clientSide))
  }

  /** The elements of the list after `c` bytes, and the buffer they were copied from. */
  predicate Copied(value: seq<Byte>, list: seq<MacData>, command: CommandBuffer, c: nat, clientSide: bool) {
    && Consumed(value, AllCarried(list, clientSide), c, clientSide)
    && Buffered(list, AllCarried(list, clientSide)) && command == Buffer(AllCarried(list, clientSide))
  }

  lemma CopyStep(value: seq<Byte>, list: seq<MacData>, command: CommandBuffer, c: nat, r: nat, clientSide: bool)
    requires Copied(value, list, command, c, clientSide)
    requires !Stuck(value[c..], clientSide) && r == CommandSize(value[c], clientSide)
    ensures 0 < r <= COMMAND_CAPACITY && c + r <= |value|
    ensures var next := Overlay(command, value[c..c + r]);
            && next == value[c..c + r] + command[r..]
            && Copied(value, list + [MacData(next, 0, false)], next, c + r, clientSide)
  {
    TablesAgree(value[c], clientSide);
    var done, p := AllCarried(list, clientSide), value[c..c + r];
    var d := MacData(Overlay(command, p), 0, false);
    ConsumedStep(value, done, c, r, clientSide);
    BufferedNext(list, done, p, d);
    BufferNext(done, p);
    assert Carried(d, clientSide) == p;
    assert AllCarried(list + [d], clientSide) == done + [p];
  }

  lemma CopyStart(value: seq<Byte>, clientSide: bool)
    ensures Copied(value, [], [0, 0, 0, 0, 0, 0], 0, clientSide)
  {}

  lemma CopyEnd(value: seq<Byte>, list: seq<MacData>, c: nat, clientSide: bool)
    requires Consumed(value, AllCarried(list, clientSide), c, clientSide) && Stuck(value[c..], clientSide)
    requires Buffered(list, AllCarried(list, clientSide))
    ensures AllCarried(list, clientSide) == Commands(value, clientSide)
    ensures Buffered(list, Commands(value, clientSide))
  {
    ConsumedAll(value, AllCarried(list, clientSide), c, clientSide);
  }

  /** One call of the parser: it fails when the rest is stuck, and otherwise copies a command over the buffer. */
  method CopyNext(value: seq<Byte>, ghost list: seq<MacData>, command: CommandBuffer, c: nat, clientSide: bool)
    returns (r: int, next: CommandBuffer)
    requires Copied(value, list, command, c, clientSide)
    ensures r < 0 ==> Stuck(value[c..], clientSide)
    ensures r >= 0 ==>
              0 < r && c + r <= |value| && Copied(value, list + [MacData(next, 0, false)], next, c + r, clientSide)
  {
    r, next := ParseCopy(value[c..], clientSide), command;
    ParsersAgree(value[c..], clientSide);
    if r >= 0 {
      CopyStep(value, list, command, c, r, clientSide);
      next := value[c..c + r] + command[r..];
    }
  }

  class MacDataList {
    var list: seq<MacData>
    var isClientSide: bool

    constructor (value: seq<Byte>, clientSide: bool)
      ensures isClientSide == clientSide
      ensures AllCarried(list, clientSide) == Commands(value, clientSide)
      ensures forall k | 0 <= k < |list| :: list[k].errcode == 0 && !list[k].isClientSide
      ensures Buffered(list, Commands(value, clientSide))
    {
      isClientSide := clientSide;
      list := [];
      new;
      var command: CommandBuffer := [0, 0, 0, 0, 0, 0];
      var c: nat, sz: nat := 0, |value|;
      CopyStart(value, clientSide);
      while true
        invariant c + sz == |value|
        invariant isClientSide == clientSide
        invariant Copied(value, list, command, c, clientSide)
        invariant forall k | 0 <= k < |list| :: list[k].errcode == 0 && !list[k].isClientSide
        decreases sz
      {
        var r;
        r, command := CopyNext(value, list, command, c, clientSide);
        if r < 0 {
          break;
        }
        list := list + [MacData(command, 0, false)];
        sz := sz - r;
        c := c + r;
      }
      CopyEnd(value, list, c, clientSide);
    }

    method Size() returns (sz: nat)
      requires forall k | 0 <= k < |list| :: list[k].errcode == 0 && !list[k].isClientSide
      ensures sz == |Concat(AllCarried(list, false))|
    {
      sz := 0;
      for i := 0 to |list|
        invariant sz == |Concat(AllCarried(list[..i], false))|
      {
        CarriedStep(list, i);
        sz := sz + list[i].Size();
      }
      assert list[..|list|] == list;
    }

    method ToHexString() returns (s: string)
      requires forall k | 0 <= k < |list| :: list[k].errcode == 0 && !list[k].isClientSide
      ensures s == HexString(Concat(AllCarried(list, false)))
    {
      s := "";
      for i := 0 to |list|
        invariant s == HexString(Concat(AllCarried(list[..i], false)))
      {
        CarriedStep(list, i);
        HexAppend(Concat(AllCarried(list[..i], false)), Carried(list[i], false));
        s := s + list[i].ToHexString();
      }
      assert list[..|list|] == list;
    }
  }

  lemma CarriedStep(list: seq<MacData>, i: nat)
    requires i < |list|
    ensures Concat(AllCarried(list[..i + 1], false)) == Concat(AllCarried(list[..i], false)) + Carried(list[i], false)
  {
    assert AllCarried(list[..i + 1], false) == AllCarried(list[..i], false) + [Carried(list[i], false)];
    ConcatAppend(AllCarried(list[..i], false), [Carried(list[i], false)]);
    ConcatSingle(Carried(list[i], false));
  }

  /** For traffic sent by the end device, the list's total size and hex text are those of the
      consumed part of the input. */
  method EndDeviceList(value: seq<Byte>) returns (size: nat, hex: string)
    ensures size == |value| - |Rest(value, false)|
    ensures hex == HexString(value[..size])
  {
    var l := new MacDataList(value, false);
    size := l.Size();
    hex := l.ToHexString();
    CommandsParse(value, false);
    assert value[..size] == Concat(Commands(value, false));
  }

  // ---------- the list for traffic sent by the gateway ----------

  /** A known command has the same size in both directions exactly for four identifiers. */
  lemma SameSizeBothWays(id: Byte)
    requires IsMacCommand(id).Known?
    ensures CommandSize(id, true) == CommandSize(id, false) <==> id == 0x01 || id == 0x0b || id == 0x0f || id == 0x20
  {}

  /** Sizes of the commands, read off their identifiers for a direction, added up. */
  function SizeSum(commands: seq<seq<Byte>>, clientSide: bool): nat {
    if commands == [] then 0
    else
      (if commands[0] == [] then 0 else CommandSize(commands[0][0], clientSide)) + SizeSum(commands[1..], clientSide)
  }

  lemma {:induction false} SizeSumIsLength(commands: seq<seq<Byte>>, clientSide: bool)
    requires forall i | 0 <= i < |commands| :: WellFormed(commands[i], clientSide)
    ensures SizeSum(commands, clientSide) == |Concat(commands)|
  {
    if commands != [] {
      assert WellFormed(commands[0], clientSide);
      SizeSumIsLength(commands[1..], clientSide);
    }
  }

  lemma {:induction false} SizesAddUp(parts: seq<seq<Byte>>, commands: seq<seq<Byte>>, clientSide: bool)
    requires |parts| == |commands|
    requires forall k | 0 <= k < |parts| :: commands[k] != [] && |parts[k]| == CommandSize(commands[k][0], clientSide)
    ensures |Concat(parts)| == SizeSum(commands, clientSide)
  {
    if parts != [] { SizesAddUp(parts[1..], commands[1..], clientSide); }
  }

  /**
   What the list for the gateway direction shows of its commands: as many bytes of the buffer after each
   as the command has when the end device sends it, the last of them left over from earlier commands.
   */
  function Printed(commands: seq<seq<Byte>>): (parts: seq<seq<Byte>>)
    ensures |parts| == |commands|
  {
    seq(|commands|, k requires 0 <= k < |commands| => Shown(Buffer(commands[..k + 1]), false))
  }

  lemma BufferStarts(commands: seq<seq<Byte>>, k: nat)
    requires k < |commands| && WellFormed(commands[k], true)
    ensures |commands[k]| == CommandSize(commands[k][0], true) <= COMMAND_CAPACITY
    ensures Buffer(commands[..k + 1])[..|commands[k]|] == commands[k]
    ensures |Printed(commands)[k]| == CommandSize(commands[k][0], false)
  {
    TablesAgree(commands[k][0], true);
    assert commands[..k + 1] == commands[..k] + [commands[k]];
    BufferNext(commands[..k], commands[k]);
    assert Buffer(commands[..k + 1])[0] == commands[k][0];
  }

  lemma PrintedSize(commands: seq<seq<Byte>>)
    requires forall k | 0 <= k < |commands| :: WellFormed(commands[k], true)
    ensures |Concat(Printed(commands))| == SizeSum(commands, false)
  {
    forall k | 0 <= k < |commands|
      ensures commands[k] != [] && |Printed(commands)[k]| == CommandSize(commands[k][0], false)
    {
      BufferStarts(commands, k);
    }
    SizesAddUp(Printed(commands), commands, false);
  }

  /**
   For traffic sent by the gateway the elements still count as sent by the end device.  The total size
   is the one consumed if and only if the sizes of the commands found add up alike in both directions,
   and the text is the one consumed if and only if what is printed of them is, end to end.
   */
  method GatewayList(value: seq<Byte>) returns (size: nat, hex: string)
    ensures |hex| == 2 * size
    ensures hex == HexString(Concat(Printed(Commands(value, true))))
    ensures hex == HexString(Concat(Commands(value, true)))
       <==> Concat(Printed(Commands(value, true))) == Concat(Commands(value, true))
    ensures size == SizeSum(Commands(value, true), false)
    ensures |value| - |Rest(value, true)| == SizeSum(Commands(value, true), true)
    ensures size == |value| - |Rest(value, true)|
       <==> SizeSum(Commands(value, true), false) == SizeSum(Commands(value, true), true)
  {
    var l := new MacDataList(value, true);
    size := l.Size();
    CommandsParse(value, true);
    SizeSumIsLength(Commands(value, true), true);
    assert AllCarried(l.list, false) == Printed(Commands(value, true));
    PrintedSize(Commands(value, true));
    hex := l.ToHexString();
    HexTells(Concat(Printed(Commands(value, true))), Concat(Commands(value, true)));
  }

  /** Without the two identifiers that are longer from the device, text and size are right in the same cases. */
  lemma TextIffSameSize(commands: seq<seq<Byte>>)
    requires forall i | 0 <= i < |commands| :: WellFormed(commands[i], true) && !LongerFromDevice(commands[i][0])
    ensures Concat(Printed(commands)) == Concat(commands) <==> forall i | 0 <= i < |commands| :: SameSize(commands[i])
  {
    PrintedSize(commands);
    SizeSumIsLength(commands, true);
    SumsAgree(commands);
    if forall i | 0 <= i < |commands| :: SameSize(commands[i]) { SameSizesPrinted(commands); }
  }

  lemma SameSizesPrinted(commands: seq<seq<Byte>>)
    requires forall k | 0 <= k < |commands| :: WellFormed(commands[k], true) && SameSize(commands[k])
    ensures Printed(commands) == commands
  {
    forall k | 0 <= k < |commands| ensures Printed(commands)[k] == commands[k] {
      assert SameSize(commands[k]);
      BufferStarts(commands, k);
    }
  }

  /** An identifier whose command is longer when the end device sends it. */
  predicate LongerFromDevice(id: Byte) {
    id == 0x06 || id == 0x10
  }

  predicate SameSize(command: seq<Byte>) {
    command != [] && CommandSize(command[0], true) == CommandSize(command[0], false)
  }

  /**
   Sizes can only cancel out through device status and ping slot requests: without them the sums agree
   exactly when every identifier has the same size in both directions.
   */
  lemma {:induction false} SumsAgree(commands: seq<seq<Byte>>)
    requires forall i | 0 <= i < |commands| :: WellFormed(commands[i], true) && !LongerFromDevice(commands[i][0])
    ensures SizeSum(commands, false) <= SizeSum(commands, true)
    ensures SizeSum(commands, false) == SizeSum(commands, true)
       <==> forall i | 0 <= i < |commands| :: SameSize(commands[i])
  {
    if commands != [] {
      var c, rest := commands[0], commands[1..];
      assert WellFormed(c, true) && !LongerFromDevice(c[0]);
      TablesAgree(c[0], true);
      ShorterFromDevice(c[0]);
      SumsAgree(rest);
      assert forall i | 1 <= i < |commands| :: commands[i] == rest[i - 1];
      assert forall i | 0 <= i < |rest| :: rest[i] == commands[i + 1];
    }
  }

  lemma ShorterFromDevice(id: Byte)
    requires IsMacCommand(id).Known? && !LongerFromDevice(id)
    ensures CommandSize(id, false) <= CommandSize(id, true)
  {}

  /**
   A LinkCheck answer of three bytes is reported as one byte; a status request after it hides the error.
   When the answer is all status identifiers, even the text is right, by the two bytes left over in the buffer.
   */
  method GatewayListWitnesses() returns (wrong: nat, cancelled: nat, text: string)
    ensures wrong == 1 && |Rest([2, 20, 1], true)| == 0
    ensures cancelled == 4 && |Rest([2, 20, 1, 6], true)| == 0
    ensures Commands([2, 6, 6, 6], true) == [[2, 6, 6], [6]] && text == HexString([2, 6, 6, 6])
  {
    LinkCheckAlone();
    StatusAfterLinkCheck(20, 1);
    StatusAfterLinkCheck(6, 6);
    var size, other;
    wrong, other := GatewayList([2, 20, 1]);
    cancelled, other := GatewayList([2, 20, 1, 6]);
    size, text := GatewayList([2, 6, 6, 6]);
    PrintedLeftover();
  }

  lemma ShownLeftover(first: CommandBuffer, second: CommandBuffer)
    requires first[0] == 2 && second[..3] == [6, 6, 6]
    ensures Shown(first, false) == [2] && Shown(second, false) == [6, 6, 6]
  {
    assert second[0] == second[..3][0];
  }

  lemma PrintedLeftover()
    ensures Concat(Printed([[2, 6, 6], [6]])) == [2, 6, 6, 6]
  {
    var c: seq<seq<Byte>> := [[2, 6, 6], [6]];
    assert c[..1] == [[2, 6, 6]] && c[..2] == c;
    assert Buffer(c[..1]) == [2, 6, 6, 0, 0, 0] by { BufferNext([], [2, 6, 6]); assert [] + [[2, 6, 6]] == c[..1]; }
    assert Buffer(c) == [6, 6, 6, 0, 0, 0] by { BufferNext(c[..1], [6]); assert c[..1] + [[6]] == c; }
    ShownLeftover(Buffer(c[..1]), Buffer(c[..2]));
    assert Printed(c)[0] == [2] && Printed(c)[1] == [6, 6, 6];
    assert Printed(c) == [[2], [6, 6, 6]];
    assert [[2], [6, 6, 6]][1..] == [[6, 6, 6]];
    ConcatSingle<Byte>([6, 6, 6]);
  }

  lemma LinkCheckAlone()
    ensures Commands([2, 20, 1], true) == [[2, 20, 1]] && Rest([2, 20, 1], true) == []
    ensures SizeSum([[2, 20, 1]], false) == 1
  {
    assert IsParse([2, 20, 1], [[2, 20, 1]], [], true) by {
      ConcatSingle<Byte>([2, 20, 1]);
      assert WellFormed([2, 20, 1], true);
    }
    ParseUnique([2, 20, 1], [[2, 20, 1]], [], true);
    assert [[2, 20, 1]][1..] == [];
  }

  lemma StatusAfterLinkCheck(margin: Byte, gateways: Byte)
    ensures Commands([2, margin, gateways, 6], true) == [[2, margin, gateways], [6]]
    ensures Rest([2, margin, gateways, 6], true) == [] && SizeSum([[2, margin, gateways], [6]], false) == 4
  {
    var value, commands := [2, margin, gateways, 6], [[2, margin, gateways], [6]];
    assert commands[1..] == [[6]] && [[6]][1..] == [];
    assert IsParse(value, commands, [], true) by {
      ConcatSingle<Byte>([6]);
      assert WellFormed([2, margin, gateways], true) && WellFormed([6], true);
    }
    ParseUnique(value, commands, [], true);
  }
}
