/** A stand-in for the `smbus.SMBus` handle that `read_voltage` drives.
    The real class performs I2C transfers; here every call is appended to a
    trace, byte reads are answered from a finite list of status replies and
    word reads from one data word. */
module SmBus {

  /** Values the SMBus calls take and return: Python ints in range. */
  type Byte = x: int | 0 <= x < 0x100
  type Word = x: int | 0 <= x < 0x1_0000

  /** One bus transfer, with the reply the device gave for reads. */
  datatype BusOp =
    | WriteByte(addr: int, cmd: Byte)
    | WriteByteData(addr: int, cmd: Byte, data: Byte)
    | ReadByteData(addr: int, cmd: Byte, reply: Byte)
    | ReadWordData(addr: int, cmd: Byte, word: Word)

  class Bus {
    /** Every transfer issued so far, oldest first. */
    var trace: seq<BusOp>
    /** The replies the device will give to the next byte reads, in order. */
    var statusReplies: seq<Byte>
    /** The word the device returns to a word read, in SMBus byte order. */
    var dataWord: Word

    constructor (replies: seq<Byte>, word: Word)
      ensures trace == [] && statusReplies == replies && dataWord == word
    {
      trace := [];
      statusReplies := replies;
      dataWord := word;
    }

    /** `write_byte(addr, cmd)`: a command byte with no data. */
    method WriteByte(addr: int, cmd: Byte)
      modifies this`trace
      ensures trace == old(trace) + [BusOp.WriteByte(addr, cmd)]
    {
      trace := trace + [BusOp.WriteByte(addr, cmd)];
    }

    /** `write_byte_data(addr, cmd, data)`: a command byte followed by one data byte. */
    method WriteByteData(addr: int, cmd: Byte, data: Byte)
      modifies this`trace
      ensures trace == old(trace) + [BusOp.WriteByteData(addr, cmd, data)]
    {
      trace := trace + [BusOp.WriteByteData(addr, cmd, data)];
    }

    /** `read_byte_data(addr, cmd)`: the device answers with its next status reply. */
    method ReadByteData(addr: int, cmd: Byte) returns (value: Byte)
      requires statusReplies != []
      modifies this`trace, this`statusReplies
      ensures value == old(statusReplies[0])
      ensures statusReplies == old(statusReplies[1..])
      ensures trace == old(trace) + [BusOp.ReadByteData(addr, cmd, value)]
    {
      value := statusReplies[0];
      statusReplies := statusReplies[1..];
      trace := trace + [BusOp.ReadByteData(addr, cmd, value)];
    }

    /** `read_word_data(addr, cmd)`: the device answers with its data word. */
    method ReadWordData(addr: int, cmd: Byte) returns (value: Word)
      modifies this`trace
      ensures value == dataWord
      ensures trace == old(trace) + [BusOp.ReadWordData(addr, cmd, value)]
    {
      value := dataWord;
      trace := trace + [BusOp.ReadWordData(addr, cmd, value)];
    }
  }
}
