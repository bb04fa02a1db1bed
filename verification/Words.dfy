/** The 16-bit characters of the converters. */
module Words {
  type Word = x: int | 0 <= x < 0x10000
}
