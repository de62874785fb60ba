/**
 * The SPI port the script talks through and a mock device behind it,
 * standing in for the M25P16 with a simplified command set. Every
 * exchange is recorded in the port's log together with the reply, so
 * that what the script sends can be stated and checked.
 */
module Device {
  import opened Wire

  /** One exchange: the bytes sent under one chip select and the bytes read back. */
  datatype Transfer = Transfer(sent: seq<Byte>, received: seq<Byte>)

  /**
   * The mock device. `id` answers Read Identification; `polls` is the
   * stream of bytes answering the one-byte identification reads that the
   * script uses as status polls (0x00, ready, once it runs out); `status`
   * answers Read Status; `store` is the memory array, where an address
   * that is not a key holds the erased value 0xFF. Unlike an M25P16,
   * the mock has no write-enable latch of its own, stores every page
   * program, answers Fast Read without a dummy byte and decodes all 24
   * address bits.
   */
  datatype Chip = Chip(id: seq<Byte>, status: Byte, polls: seq<Byte>, store: map<nat, Byte>)

  const ERASED: Byte := 0xFF

  function Cell(store: map<nat, Byte>, address: nat): Byte {
    if address in store then store[address] else ERASED
  }

  /** Bitwise AND of two bytes: programming a NOR cell can only clear bits. */
  function And(x: Byte, y: Byte): Byte {
    ((x as bv8) & (y as bv8)) as int
  }

  /** Page Program on the memory array: each addressed cell becomes `old & data`. */
  function Program(store: map<nat, Byte>, address: nat, data: seq<Byte>): map<nat, Byte>
    decreases |data|
  {
    if data == [] then store
    else Program(store[address := And(Cell(store, address), data[0])], address + 1, data[1..])
  }

  function ReadBack(store: map<nat, Byte>, address: nat, length: nat): seq<Byte> {
    seq<Byte>(length, i requires 0 <= i => Cell(store, address + i))
  }

  /** The first `length` bytes of `bytes`, then 0xFF: an undriven data line reads high. */
  function Fit(bytes: seq<Byte>, length: nat): seq<Byte> {
    seq(length, i requires 0 <= i => if i < |bytes| then bytes[i] else 0xFF)
  }

  function NextPoll(polls: seq<Byte>): Byte {
    if polls == [] then 0x00 else polls[0]
  }

  function Drop(polls: seq<Byte>): seq<Byte> {
    if polls == [] then [] else polls[1..]
  }

  /** What the mock answers to `command` when `length` bytes are read. */
  function Reply(chip: Chip, command: seq<Byte>, length: nat): (reply: seq<Byte>)
    ensures |reply| == length
  {
    if command == [READ_ID] && length == 1 then [NextPoll(chip.polls)]
    else if command == [READ_ID] then Fit(chip.id, length)
    else if command == [READ_STATUS] then Fit([chip.status], length)
    else if |command| == 4 && command[0] == FAST_READ then ReadBack(chip.store, BigEndian(command[1..]), length)
    else Fit([], length)
  }

  /** The mock after an exchange: a poll consumes the stream, a page program writes the store. */
  function Next(chip: Chip, command: seq<Byte>, length: nat): Chip {
    if command == [READ_ID] && length == 1 then chip.(polls := Drop(chip.polls))
    else match ParsePageProgram(command)
      case Some(w) => chip.(store := Program(chip.store, w.address, w.data))
      case None => chip
  }

  /** `0xFF & x == x`: programming an erased cell stores the data byte. */
  lemma AndErased(x: Byte)
    ensures And(ERASED, x) == x
  {
    assert (0xFF as bv8) & (x as bv8) == x as bv8;
  }

  /** Page Program changes exactly the cells it addresses, each to `old & data`. */
  lemma {:induction false} CellAfterProgram(store: map<nat, Byte>, address: nat, data: seq<Byte>, a: nat)
    ensures Cell(Program(store, address, data), a)
         == if address <= a < address + |data| then And(Cell(store, a), data[a - address]) else Cell(store, a)
    decreases |data|
  {
    if data != [] {
      var next := store[address := And(Cell(store, address), data[0])];
      CellAfterProgram(next, address + 1, data[1..], a);
    }
  }

  /**
   * The SPI port of the script (`slave`), wired to the mock device.
   * `log` lists every exchange so far, oldest first.
   */
  class Bus {
    var chip: Chip
    var log: seq<Transfer>

    constructor (device: Chip)
      ensures chip == device && log == []
    {
      chip := device;
      log := [];
    }

    /** `slave.exchange(command, length)`: one chip-select-scoped exchange. */
    method Exchange(command: seq<Byte>, length: nat) returns (reply: seq<Byte>)
      modifies this
      ensures reply == Reply(old(chip), command, length) && |reply| == length
      ensures chip == Next(old(chip), command, length)
      ensures log == old(log) + [Transfer(command, reply)]
    {
      reply := Reply(chip, command, length);
      chip := Next(chip, command, length);
      log := log + [Transfer(command, reply)];
    }
  }
}
