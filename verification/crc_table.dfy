// The constant table of c_monitor/util.c.

/** The 256 precomputed remainders, indexed by one byte.  The source writes them as one array; here
    the high nibble picks a row of sixteen and the low nibble the entry, in the same order. */
module CrcTable {

  function IsoPoly(i: bv8): bv64 {
    match i >> 4
    case 0x0 => (match i & 0x0F
      case 0x0 => 0x00000000_00000000 case 0x1 => 0x01B00000_00000000
      case 0x2 => 0x03600000_00000000 case 0x3 => 0x02D00000_00000000
      case 0x4 => 0x06C00000_00000000 case 0x5 => 0x07700000_00000000
      case 0x6 => 0x05A00000_00000000 case 0x7 => 0x04100000_00000000
      case 0x8 => 0x0D800000_00000000 case 0x9 => 0x0C300000_00000000
      case 0xA => 0x0EE00000_00000000 case 0xB => 0x0F500000_00000000
      case 0xC => 0x0B400000_00000000 case 0xD => 0x0AF00000_00000000
      case 0xE => 0x08200000_00000000 case _ => 0x09900000_00000000)
    case 0x1 => (match i & 0x0F
      case 0x0 => 0x1B000000_00000000 case 0x1 => 0x1AB00000_00000000
      case 0x2 => 0x18600000_00000000 case 0x3 => 0x19D00000_00000000
      case 0x4 => 0x1DC00000_00000000 case 0x5 => 0x1C700000_00000000
      case 0x6 => 0x1EA00000_00000000 case 0x7 => 0x1F100000_00000000
      case 0x8 => 0x16800000_00000000 case 0x9 => 0x17300000_00000000
      case 0xA => 0x15E00000_00000000 case 0xB => 0x14500000_00000000
      case 0xC => 0x10400000_00000000 case 0xD => 0x11F00000_00000000
      case 0xE => 0x13200000_00000000 case _ => 0x12900000_00000000)
    case 0x2 => (match i & 0x0F
      case 0x0 => 0x36000000_00000000 case 0x1 => 0x37B00000_00000000
      case 0x2 => 0x35600000_00000000 case 0x3 => 0x34D00000_00000000
      case 0x4 => 0x30C00000_00000000 case 0x5 => 0x31700000_00000000
      case 0x6 => 0x33A00000_00000000 case 0x7 => 0x32100000_00000000
      case 0x8 => 0x3B800000_00000000 case 0x9 => 0x3A300000_00000000
      case 0xA => 0x38E00000_00000000 case 0xB => 0x39500000_00000000
      case 0xC => 0x3D400000_00000000 case 0xD => 0x3CF00000_00000000
      case 0xE => 0x3E200000_00000000 case _ => 0x3F900000_00000000)
    case 0x3 => (match i & 0x0F
      case 0x0 => 0x2D000000_00000000 case 0x1 => 0x2CB00000_00000000
      case 0x2 => 0x2E600000_00000000 case 0x3 => 0x2FD00000_00000000
      case 0x4 => 0x2BC00000_00000000 case 0x5 => 0x2A700000_00000000
      case 0x6 => 0x28A00000_00000000 case 0x7 => 0x29100000_00000000
      case 0x8 => 0x20800000_00000000 case 0x9 => 0x21300000_00000000
      case 0xA => 0x23E00000_00000000 case 0xB => 0x22500000_00000000
      case 0xC => 0x26400000_00000000 case 0xD => 0x27F00000_00000000
      case 0xE => 0x25200000_00000000 case _ => 0x24900000_00000000)
    case 0x4 => (match i & 0x0F
      case 0x0 => 0x6C000000_00000000 case 0x1 => 0x6DB00000_00000000
      case 0x2 => 0x6F600000_00000000 case 0x3 => 0x6ED00000_00000000
      case 0x4 => 0x6AC00000_00000000 case 0x5 => 0x6B700000_00000000
      case 0x6 => 0x69A00000_00000000 case 0x7 => 0x68100000_00000000
      case 0x8 => 0x61800000_00000000 case 0x9 => 0x60300000_00000000
      case 0xA => 0x62E00000_00000000 case 0xB => 0x63500000_00000000
      case 0xC => 0x67400000_00000000 case 0xD => 0x66F00000_00000000
      case 0xE => 0x64200000_00000000 case _ => 0x65900000_00000000)
    case 0x5 => (match i & 0x0F
      case 0x0 => 0x77000000_00000000 case 0x1 => 0x76B00000_00000000
      case 0x2 => 0x74600000_00000000 case 0x3 => 0x75D00000_00000000
      case 0x4 => 0x71C00000_00000000 case 0x5 => 0x70700000_00000000
      case 0x6 => 0x72A00000_00000000 case 0x7 => 0x73100000_00000000
      case 0x8 => 0x7A800000_00000000 case 0x9 => 0x7B300000_00000000
      case 0xA => 0x79E00000_00000000 case 0xB => 0x78500000_00000000
      case 0xC => 0x7C400000_00000000 case 0xD => 0x7DF00000_00000000
      case 0xE => 0x7F200000_00000000 case _ => 0x7E900000_00000000)
    case 0x6 => (match i & 0x0F
      case 0x0 => 0x5A000000_00000000 case 0x1 => 0x5BB00000_00000000
      case 0x2 => 0x59600000_00000000 case 0x3 => 0x58D00000_00000000
      case 0x4 => 0x5CC00000_00000000 case 0x5 => 0x5D700000_00000000
      case 0x6 => 0x5FA00000_00000000 case 0x7 => 0x5E100000_00000000
      case 0x8 => 0x57800000_00000000 case 0x9 => 0x56300000_00000000
      case 0xA => 0x54E00000_00000000 case 0xB => 0x55500000_00000000
      case 0xC => 0x51400000_00000000 case 0xD => 0x50F00000_00000000
      case 0xE => 0x52200000_00000000 case _ => 0x53900000_00000000)
    case 0x7 => (match i & 0x0F
      case 0x0 => 0x41000000_00000000 case 0x1 => 0x40B00000_00000000
      case 0x2 => 0x42600000_00000000 case 0x3 => 0x43D00000_00000000
      case 0x4 => 0x47C00000_00000000 case 0x5 => 0x46700000_00000000
      case 0x6 => 0x44A00000_00000000 case 0x7 => 0x45100000_00000000
      case 0x8 => 0x4C800000_00000000 case 0x9 => 0x4D300000_00000000
      case 0xA => 0x4FE00000_00000000 case 0xB => 0x4E500000_00000000
      case 0xC => 0x4A400000_00000000 case 0xD => 0x4BF00000_00000000
      case 0xE => 0x49200000_00000000 case _ => 0x48900000_00000000)
    case 0x8 => (match i & 0x0F
      case 0x0 => 0xD8000000_00000000 case 0x1 => 0xD9B00000_00000000
      case 0x2 => 0xDB600000_00000000 case 0x3 => 0xDAD00000_00000000
      case 0x4 => 0xDEC00000_00000000 case 0x5 => 0xDF700000_00000000
      case 0x6 => 0xDDA00000_00000000 case 0x7 => 0xDC100000_00000000
      case 0x8 => 0xD5800000_00000000 case 0x9 => 0xD4300000_00000000
      case 0xA => 0xD6E00000_00000000 case 0xB => 0xD7500000_00000000
      case 0xC => 0xD3400000_00000000 case 0xD => 0xD2F00000_00000000
      case 0xE => 0xD0200000_00000000 case _ => 0xD1900000_00000000)
    case 0x9 => (match i & 0x0F
      case 0x0 => 0xC3000000_00000000 case 0x1 => 0xC2B00000_00000000
      case 0x2 => 0xC0600000_00000000 case 0x3 => 0xC1D00000_00000000
      case 0x4 => 0xC5C00000_00000000 case 0x5 => 0xC4700000_00000000
      case 0x6 => 0xC6A00000_00000000 case 0x7 => 0xC7100000_00000000
      case 0x8 => 0xCE800000_00000000 case 0x9 => 0xCF300000_00000000
      case 0xA => 0xCDE00000_00000000 case 0xB => 0xCC500000_00000000
      case 0xC => 0xC8400000_00000000 case 0xD => 0xC9F00000_00000000
      case 0xE => 0xCB200000_00000000 case _ => 0xCA900000_00000000)
    case 0xA => (match i & 0x0F
      case 0x0 => 0xEE000000_00000000 case 0x1 => 0xEFB00000_00000000
      case 0x2 => 0xED600000_00000000 case 0x3 => 0xECD00000_00000000
      case 0x4 => 0xE8C00000_00000000 case 0x5 => 0xE9700000_00000000
      case 0x6 => 0xEBA00000_00000000 case 0x7 => 0xEA100000_00000000
      case 0x8 => 0xE3800000_00000000 case 0x9 => 0xE2300000_00000000
      case 0xA => 0xE0E00000_00000000 case 0xB => 0xE1500000_00000000
      case 0xC => 0xE5400000_00000000 case 0xD => 0xE4F00000_00000000
      case 0xE => 0xE6200000_00000000 case _ => 0xE7900000_00000000)
    case 0xB => (match i & 0x0F
      case 0x0 => 0xF5000000_00000000 case 0x1 => 0xF4B00000_00000000
      case 0x2 => 0xF6600000_00000000 case 0x3 => 0xF7D00000_00000000
      case 0x4 => 0xF3C00000_00000000 case 0x5 => 0xF2700000_00000000
      case 0x6 => 0xF0A00000_00000000 case 0x7 => 0xF1100000_00000000
      case 0x8 => 0xF8800000_00000000 case 0x9 => 0xF9300000_00000000
      case 0xA => 0xFBE00000_00000000 case 0xB => 0xFA500000_00000000
      case 0xC => 0xFE400000_00000000 case 0xD => 0xFFF00000_00000000
      case 0xE => 0xFD200000_00000000 case _ => 0xFC900000_00000000)
    case 0xC => (match i & 0x0F
      case 0x0 => 0xB4000000_00000000 case 0x1 => 0xB5B00000_00000000
      case 0x2 => 0xB7600000_00000000 case 0x3 => 0xB6D00000_00000000
      case 0x4 => 0xB2C00000_00000000 case 0x5 => 0xB3700000_00000000
      case 0x6 => 0xB1A00000_00000000 case 0x7 => 0xB0100000_00000000
      case 0x8 => 0xB9800000_00000000 case 0x9 => 0xB8300000_00000000
      case 0xA => 0xBAE00000_00000000 case 0xB => 0xBB500000_00000000
      case 0xC => 0xBF400000_00000000 case 0xD => 0xBEF00000_00000000
      case 0xE => 0xBC200000_00000000 case _ => 0xBD900000_00000000)
    case 0xD => (match i & 0x0F
      case 0x0 => 0xAF000000_00000000 case 0x1 => 0xAEB00000_00000000
      case 0x2 => 0xAC600000_00000000 case 0x3 => 0xADD00000_00000000
      case 0x4 => 0xA9C00000_00000000 case 0x5 => 0xA8700000_00000000
      case 0x6 => 0xAAA00000_00000000 case 0x7 => 0xAB100000_00000000
      case 0x8 => 0xA2800000_00000000 case 0x9 => 0xA3300000_00000000
      case 0xA => 0xA1E00000_00000000 case 0xB => 0xA0500000_00000000
      case 0xC => 0xA4400000_00000000 case 0xD => 0xA5F00000_00000000
      case 0xE => 0xA7200000_00000000 case _ => 0xA6900000_00000000)
    case 0xE => (match i & 0x0F
      case 0x0 => 0x82000000_00000000 case 0x1 => 0x83B00000_00000000
      case 0x2 => 0x81600000_00000000 case 0x3 => 0x80D00000_00000000
      case 0x4 => 0x84C00000_00000000 case 0x5 => 0x85700000_00000000
      case 0x6 => 0x87A00000_00000000 case 0x7 => 0x86100000_00000000
      case 0x8 => 0x8F800000_00000000 case 0x9 => 0x8E300000_00000000
      case 0xA => 0x8CE00000_00000000 case 0xB => 0x8D500000_00000000
      case 0xC => 0x89400000_00000000 case 0xD => 0x88F00000_00000000
      case 0xE => 0x8A200000_00000000 case _ => 0x8B900000_00000000)
    case _ => (match i & 0x0F
      case 0x0 => 0x99000000_00000000 case 0x1 => 0x98B00000_00000000
      case 0x2 => 0x9A600000_00000000 case 0x3 => 0x9BD00000_00000000
      case 0x4 => 0x9FC00000_00000000 case 0x5 => 0x9E700000_00000000
      case 0x6 => 0x9CA00000_00000000 case 0x7 => 0x9D100000_00000000
      case 0x8 => 0x94800000_00000000 case 0x9 => 0x95300000_00000000
      case 0xA => 0x97E00000_00000000 case 0xB => 0x96500000_00000000
      case 0xC => 0x92400000_00000000 case 0xD => 0x93F00000_00000000
      case 0xE => 0x91200000_00000000 case _ => 0x90900000_00000000)
  }
}
