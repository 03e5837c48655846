/** The IEEE 488.2 status byte (STB) as the USBTMC bridge touches it: named bit
    masks (section 11.2 of IEEE 488.2) and the two mask operations every caller uses,
    "set these bits" and "clear these bits", each leaving every other bit alone. */
module StatusByte {

  /** Questionable status summary (bit 3); read by the host, never written by the bridge. */
  const QUESTIONABLE: bv8 := 0x08
  /** Message available (bit 4): a reply is waiting to be read. */
  const MAV: bv8 := 0x10
  /** Standard event status summary (bit 5). */
  const SER: bv8 := 0x20
  /** Request service (bit 6). */
  const SRQ: bv8 := 0x40

  /** `stb |= mask`: every bit of the mask is set, every other bit keeps its value. */
  function SetBits(stb: bv8, mask: bv8): (r: bv8)
    ensures r & mask == mask
    ensures r & !mask == stb & !mask
  {
    stb | mask
  }

  /** `stb &= ~mask`: every bit of the mask is clear, every other bit keeps its value. */
  function ClearBits(stb: bv8, mask: bv8): (r: bv8)
    ensures r & mask == 0
    ensures r & !mask == stb & !mask
  {
    stb & !mask
  }
}
