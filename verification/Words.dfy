/** Unsigned integers of a fixed width. */
module Words {
  type Byte = b: int | 0 <= b < 0x100
  type Port = p: int | 0 <= p < 0x1_0000
  type Word = w: int | 0 <= w < 0x1_0000_0000

  /** The port that two bytes in network order spell. */
  function FromNetwork(high: Byte, low: Byte): (port: Port) {
    0x100 * high + low
  }

  /** Every port, written with its high byte first, reads back, and has no other spelling. */
  lemma {:induction false} NetworkOrder(port: Port, high: Byte, low: Byte)
    ensures FromNetwork(high, low) == port <==> high == port / 0x100 && low == port % 0x100
  {
  }
}
