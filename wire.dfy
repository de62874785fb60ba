/**
 * What travels on the SPI wire between the programming script and an
 * M25P16 serial flash: the opcodes the script uses, the status bits it
 * tests, the three-byte address and the page-program frame.
 */
module Wire {

  /** A byte as the script handles it: a Python int in 0..255. */
  type Byte = b: int | 0 <= b < 256

  datatype Option<T> = None | Some(value: T)

  const READ_ID: Byte := 0x9F
  const WRITE_ENABLE: Byte := 0x06
  const READ_STATUS: Byte := 0x05
  const PAGE_PROGRAM: Byte := 0x02
  const FAST_READ: Byte := 0x0B

  /** Bytes per page-program command. */
  const PAGE_SIZE: nat := 256
  /** The identification value of an M25P16 that the script insists on. */
  const EXPECTED_ID: nat := 0x2020
  /** Number of byte addresses a three-byte address can name. */
  const ADDRESS_SPACE: nat := 0x100_0000

  /** `status & 0x1 == 1`: the device is still busy with a write. */
  function Busy(status: Byte): (busy: bool)
    ensures busy <==> (status as bv8) & 0x1 == 0x1
  {
    status % 2 == 1
  }

  /** `status & 0x2 != 0`: the write-enable latch is set. */
  function WriteEnabled(status: Byte): (enabled: bool)
    ensures enabled <==> (status as bv8) & 0x2 != 0
  {
    (status / 2) % 2 == 1
  }

  /** The number a byte string denotes, most significant byte first. */
  function BigEndian(bytes: seq<Byte>): nat
  {
    if bytes == [] then 0 else BigEndian(bytes[..|bytes| - 1]) * 256 + bytes[|bytes| - 1]
  }

  /**
   * `(address >> 16) & 0xFF, (address >> 8) & 0xFF, address & 0xFF`:
   * the address as three bytes, most significant first; bits above the
   * 24th are dropped by the masks, so the bytes denote the address
   * modulo 2^24.
   */
  function AddressBytes(address: nat): (bytes: seq<Byte>)
    ensures |bytes| == 3
    ensures BigEndian(bytes) == address % ADDRESS_SPACE
    ensures address < ADDRESS_SPACE ==> BigEndian(bytes) == address
  {
    AddressDigits(address);
    [(address / 0x1_0000) % 0x100, (address / 0x100) % 0x100, address % 0x100]
  }

  /**
   * The identification reply the script accepts: it denotes 0x2020, so a
   * two-byte reply is accepted exactly when it is 0x20 0x20.
   */
  function IdMatches(reply: seq<Byte>): (matches: bool)
    ensures |reply| == 2 ==> (matches <==> reply == [0x20, 0x20])
  {
    TwoBytes(reply);
    BigEndian(reply) == EXPECTED_ID
  }

  /**
   * Page Program: opcode, three address bytes, then the page's data. The
   * device reads back the address (modulo 2^24) and the page unchanged.
   */
  function PageProgram(address: nat, page: seq<Byte>): (frame: seq<Byte>)
    ensures |frame| == 4 + |page|
    ensures frame[0] == PAGE_PROGRAM && frame[4..] == page
    ensures ParsePageProgram(frame) == Some(PageWrite(address % ADDRESS_SPACE, page))
  {
    var frame := [PAGE_PROGRAM] + AddressBytes(address) + page;
    assert frame[1..4] == AddressBytes(address);
    assert frame[4..] == page;
    frame
  }

  /** Fast Read at an address, as the script sends it (no dummy byte). */
  function FastRead(address: nat): (command: seq<Byte>)
    ensures |command| == 4 && command[0] == FAST_READ
    ensures BigEndian(command[1..]) == address % ADDRESS_SPACE
  {
    var command := [FAST_READ] + AddressBytes(address);
    assert command[1..] == AddressBytes(address);
    command
  }

  /** A page-program command as the device decodes it. */
  datatype PageWrite = PageWrite(address: nat, data: seq<Byte>)

  function ParsePageProgram(command: seq<Byte>): Option<PageWrite>
  {
    if |command| >= 4 && command[0] == PAGE_PROGRAM
    then Some(PageWrite(BigEndian(command[1..4]), command[4..]))
    else None
  }

  lemma ThreeBytes(b0: Byte, b1: Byte, b2: Byte)
    ensures BigEndian([b0, b1, b2]) == b0 as int * 0x1_0000 + b1 as int * 0x100 + b2
  {
    assert [b0, b1, b2][..2] == [b0, b1];
    assert [b0, b1][..1] == [b0];
    assert [b0][..0] == [];
    assert BigEndian([b0]) == b0;
    assert BigEndian([b0, b1]) == b0 as int * 0x100 + b1;
  }

  /** The three masked bytes of an address denote it modulo 2^24. */
  lemma AddressDigits(address: nat)
    ensures BigEndian([(address / 0x1_0000) % 0x100, (address / 0x100) % 0x100, address % 0x100])
      == address % ADDRESS_SPACE
  {
    var h := address / 0x100;
    var hh := h / 0x100;
    var b0, b1, b2 := hh % 0x100, h % 0x100, address % 0x100;
    assert hh == address / 0x1_0000;
    ThreeBytes(b0, b1, b2);
    assert [(address / 0x1_0000) % 0x100, (address / 0x100) % 0x100, address % 0x100] == [b0, b1, b2];
    var low := b0 as int * 0x1_0000 + b1 as int * 0x100 + b2;
    assert address == (hh / 0x100) * ADDRESS_SPACE + low;
    assert low < ADDRESS_SPACE;
    DivideSpace(hh / 0x100, low);
  }

  /** Division of `q * 2^24 + r` by 2^24, for `r` below 2^24. */
  lemma DivideSpace(q: nat, r: nat)
    requires r < ADDRESS_SPACE
    ensures (q * ADDRESS_SPACE + r) % ADDRESS_SPACE == r
  {
  }

  /** A byte string of length two denotes its first byte times 256 plus its second. */
  lemma TwoBytes(bytes: seq<Byte>)
    ensures |bytes| == 2 ==> bytes == [bytes[0], bytes[1]]
    ensures |bytes| == 2 ==> BigEndian(bytes) == bytes[0] as int * 256 + bytes[1]
  {
    if |bytes| == 2 {
      assert bytes[..1] == [bytes[0]];
      assert [bytes[0]][..0] == [];
      assert BigEndian([bytes[0]]) == bytes[0];
    }
  }

  /** Any three bytes are the encoding of the address they denote. */
  lemma AddressBytesOfBigEndian(bytes: seq<Byte>)
    requires |bytes| == 3
    ensures BigEndian(bytes) < ADDRESS_SPACE
    ensures AddressBytes(BigEndian(bytes)) == bytes
  {
    var b0, b1, b2 := bytes[0], bytes[1], bytes[2];
    assert bytes == [b0, b1, b2];
    ThreeBytes(b0, b1, b2);
    var h := b0 as int * 0x100 + b1;
    var a := BigEndian(bytes);
    assert a == h * 0x100 + b2 && a == b0 as int * 0x1_0000 + (b1 as int * 0x100 + b2);
    DivideByte(h, b2);
    DivideByte(b0, b1);
    DivideWord(b0, b1 as int * 0x100 + b2);
    assert a / 0x1_0000 == b0;
    DivideByte(0, b0);
    assert a / 0x1_0000 % 0x100 == b0;
    assert a / 0x100 % 0x100 == b1;
    assert a % 0x100 == b2;
    assert AddressBytes(a) == [b0, b1, b2];
  }

  /** Division of `q * 256 + r` by 256, for a byte `r`. */
  lemma DivideByte(q: nat, r: Byte)
    ensures (q * 0x100 + r) / 0x100 == q
    ensures (q * 0x100 + r) % 0x100 == r
  {
  }

  /** Division of `q * 65536 + r` by 65536, for `r` below 65536. */
  lemma DivideWord(q: nat, r: nat)
    requires r < 0x1_0000
    ensures (q * 0x1_0000 + r) / 0x1_0000 == q
  {
  }

  /** Two addresses below 2^24 are sent as the same bytes only if equal. */
  lemma AddressBytesInjective(a: nat, b: nat)
    requires a < ADDRESS_SPACE && b < ADDRESS_SPACE
    requires AddressBytes(a) == AddressBytes(b)
    ensures a == b
  {
  }

  /** Whatever the device accepts as a page program is a frame the script could build. */
  lemma ParsePageProgramInverse(command: seq<Byte>)
    requires ParsePageProgram(command).Some?
    ensures var w := ParsePageProgram(command).value;
      w.address < ADDRESS_SPACE && PageProgram(w.address, w.data) == command
  {
    AddressBytesOfBigEndian(command[1..4]);
    assert command == [command[0]] + command[1..4] + command[4..];
  }

  /** A value as Python 3 compares it on the identification check: a byte string or an int. */
  datatype PyValue = PyBytes(bytes: seq<Byte>) | PyInt(n: int)

  /** Python 3 equality: a byte string never equals an int. */
  predicate PyEquals(x: PyValue, y: PyValue) {
    match (x, y)
    case (PyBytes(a), PyBytes(b)) => a == b
    case (PyInt(a), PyInt(b)) => a == b
    case _ => false
  }

  /** `jedec_id != 0x2020` is false: the check as written, on the byte string the exchange returns. */
  predicate IdAcceptedAsWritten(reply: seq<Byte>) {
    PyEquals(PyBytes(reply), PyInt(EXPECTED_ID))
  }

  /**
   * As written, the identification check turns every device away, the
   * M25P16's own reply 0x20 0x20 included, which the decoded check accepts.
   */
  lemma IdCheckAsWrittenRejectsM25P16(reply: seq<Byte>)
    ensures !IdAcceptedAsWritten(reply)
    ensures IdMatches([0x20, 0x20]) && !IdAcceptedAsWritten([0x20, 0x20])
  {
  }

  /** Taking one more element of a sequence appends that element. */
  lemma TakeOneMore<T>(s: seq<T>, k: nat)
    requires k < |s|
    ensures s[..k + 1] == s[..k] + [s[k]]
  {
  }

  /** Concatenation of sequences is associative. */
  lemma AppendAssoc<T>(a: seq<T>, b: seq<T>, c: seq<T>)
    ensures a + (b + c) == (a + b) + c
  {
  }
}
