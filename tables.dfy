/** The two constant tables of the Ultima V dialogue fixer: the ordered list of
    byte patches and the checksum each known dialogue file must have. */
module Tables {

  /** One byte of a file: Python's `bytes` element. */
  type Byte = b: int | 0 <= b < 256

  /** One entry of the patch table: the file it applies to, the byte offset,
      the bytes expected there in an unpatched file and the bytes to put in
      their place. */
  datatype Fix = Fix(file: string, offset: nat, expected: seq<Byte>, replacement: seq<Byte>)

  /** The name the backup of `file` is copied to. */
  function OrigName(file: string): string {
    "orig-" + file
  }

  /** Distinct files have distinct backup names, and no backup name is the
      name of a file that does not start with "orig-". */
  lemma OrigNameInjective(a: string, b: string)
    ensures OrigName(a) == OrigName(b) ==> a == b
    ensures |b| < 5 || b[..5] != "orig-" ==> b != OrigName(a)
  {
    if OrigName(a) == OrigName(b) {
      assert a == OrigName(a)[5..] && b == OrigName(b)[5..];
    }
    if b == OrigName(a) {
      assert b[..5] == "orig-";
    }
  }

  /** The patch table, in the order the fixer visits it. The bytes are opaque
      here; what they mean in the dialogue format is not part of this model. */
  const Fixes: seq<Fix> := [
    Fix("CASTLE.TLK", 0x1b2f,
        [0xE7, 0xEF, 0xF2, 0xEE, 0x00, 0xE8, 0xE1, 0xF3, 0xF3, 0x00, 0x87, 0x00],
        [0xE7, 0xEF, 0xF2, 0xEE, 0x00, 0x87, 0x00, 0xE8, 0xE1, 0xF3, 0xF3, 0x00]),
    Fix("TOWNE.TLK", 0x06fd, [0xB4], [0xB3]),
    Fix("DWELLING.TLK", 0x1D6C,
        [0xF2, 0xEF, 0xF9, 0xE1, 0x00, 0x87, 0x00, 0xE3, 0xEF, 0xE9, 0xEE],
        [0xF2, 0xEF, 0xF9, 0x00, 0x87, 0x00, 0xE3, 0xEF, 0xE9, 0xEE, 0xED]),
    Fix("DWELLING.TLK", 0x1f0d,
        [            0xA7, 0xD4, 0xE9, 0xF3, 0xA0, 0xE9, 0xEE, 0xE4, 0xE5, 0xE5, 0xE4,
         0x37, 0xE8, 0xEF, 0xEE, 0xEF, 0xF2, 0xA1, 0xA2, 0x8D, 0x8D, 0x88, 0xA2, 0x8D,
         0x8D, 0xFF, 0x00, 0x90, 0x9F, 0xC0],
        [0xF9, 0x00, 0xA7, 0xD4, 0xE9, 0xF3, 0xA0, 0xE9, 0xEE, 0xE4, 0xE5, 0xE5, 0xE4,
         0x37, 0xE8, 0xEF, 0xEE, 0xEF, 0xF2, 0xA1, 0xA2, 0x8D, 0x8D, 0x88, 0xA2, 0x8D,
         0x8D, 0xFF, 0x00, 0x90, 0x9F, 0xC0]),
    Fix("DWELLING.TLK", 0x15a3,
        [0xC9, 0x8E, 0xA7, 0x8E, 0xC1, 0x8E, 0xA2, 0xAC, 0xA0, 0x8E, 0xC9, 0x8E, 0xA7, 0x8E, 0xC1],
        [0xC5, 0x8E, 0xA7, 0x8E, 0xC2, 0x8E, 0xA2, 0xAC, 0xA0, 0x8E, 0xC9, 0x8E, 0xA7, 0x8E, 0xC3]),
    Fix("TOWNE.TLK", 0x3634, [0x00, 0xA2, 0x8D, 0x8D, 0x83], [0xA2, 0x8D, 0xA0, 0x8D, 0x8F]),
    // The expected byte is the decimal 28 as written, the replacement 0x28.
    Fix("KEEP.TLK", 0x12a9, [28], [0x28])
  ]

  /** The known files with their expected MD5 digests in lower-case hex, in
      the dictionary's insertion order, which is the order they are visited. */
  const Sums: seq<(string, string)> := [
    ("CASTLE.TLK", "fde54ae7c8852cf52eae3312615997d3"),
    ("DWELLING.TLK", "28c5669eccccea184c66a488c854fbd5"),
    ("KEEP.TLK", "e4fa8962d36a88c81d8cc09dcce82a46"),
    ("TOWNE.TLK", "325f55a2f0b533ca53851296d538a1a6")
  ]
}
