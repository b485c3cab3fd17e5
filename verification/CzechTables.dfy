/** The weight tables of MySQL/ctype-win1250ch.c. */
module CzechTables {
  import opened Bytes
  import opened Czech

  /** Number `k` of sixteen bytes. */
  function Pick(k: nat, x0: byte, x1: byte, x2: byte, x3: byte, x4: byte, x5: byte, x6: byte, x7: byte,
                x8: byte, x9: byte, xa: byte, xb: byte, xc: byte, xd: byte, xe: byte, xf: byte): byte
    requires k < 16
  {
    match k
    case 0 => x0 case 1 => x1 case 2 => x2 case 3 => x3 case 4 => x4 case 5 => x5 case 6 => x6 case 7 => x7
    case 8 => x8 case 9 => x9 case 10 => xa case 11 => xb case 12 => xc case 13 => xd case 14 => xe case 15 => xf
  }

  /** `_sort_order_win1250ch1`, sixteen bytes to a row. */
  function SortOrder1(b: byte): byte {
    var k := b % 16;
    match b / 16
    case 0x0 => Pick(k, 0x81, 0x81, 0x81, 0x81, 0x81, 0x81, 0x81, 0x81, 0x81, 0x81, 0x81, 0x81, 0x81, 0x81, 0x81, 0x81)
    case 0x1 => Pick(k, 0x81, 0x81, 0x81, 0x81, 0x81, 0x81, 0x81, 0x81, 0x81, 0x81, 0x81, 0x81, 0x81, 0x81, 0x81, 0x81)
    case 0x2 => Pick(k, 0x82, 0x83, 0x84, 0x85, 0x86, 0x87, 0x88, 0x89, 0x8a, 0x8b, 0x8c, 0x8d, 0x8e, 0x8f, 0x90, 0x91)
    case 0x3 => Pick(k, 0x92, 0x93, 0x94, 0x95, 0x96, 0x97, 0x98, 0x99, 0x9a, 0x9b, 0x9c, 0x9d, 0x9e, 0x9f, 0xa0, 0xa1)
    case 0x4 => Pick(k, 0xa2, 0xa4, 0xa5, 0xff, 0xa8, 0xa9, 0xaa, 0xab, 0xac, 0xae, 0xaf, 0xb0, 0xb1, 0xb2, 0xb3, 0xb4)
    case 0x5 => Pick(k, 0xb5, 0xb6, 0xb7, 0xb9, 0xbc, 0xbd, 0xbe, 0xbf, 0xc0, 0xc1, 0xc2, 0xc4, 0xc5, 0xc6, 0xc7, 0xc8)
    case 0x6 => Pick(k, 0xc9, 0xa4, 0xa5, 0xff, 0xa8, 0xa9, 0xaa, 0xab, 0xac, 0xae, 0xaf, 0xb0, 0xb1, 0xb2, 0xb3, 0xb4)
    case 0x7 => Pick(k, 0xb5, 0xb6, 0xb7, 0xb9, 0xbc, 0xbd, 0xbe, 0xbf, 0xc0, 0xc1, 0xc2, 0xca, 0xcb, 0xcc, 0xcd, 0x81)
    case 0x8 => Pick(k, 0x81, 0x81, 0xce, 0x81, 0xcf, 0xd0, 0xd1, 0xd2, 0x81, 0xd3, 0xba, 0xd4, 0xb9, 0xbc, 0xc3, 0xc2)
    case 0x9 => Pick(k, 0x81, 0xd5, 0xd6, 0xd7, 0xd8, 0xd9, 0xda, 0xdb, 0x81, 0xdc, 0xba, 0xdd, 0xb9, 0xbc, 0xc3, 0xc2)
    case 0xa => Pick(k, 0x82, 0xde, 0xdf, 0xb1, 0xe0, 0xa4, 0xe1, 0xe2, 0xe3, 0xe4, 0xb9, 0xe5, 0xe6, 0xe7, 0xe8, 0xc2)
    case 0xb => Pick(k, 0xe9, 0xea, 0xeb, 0xb1, 0xed, 0xee, 0x81, 0xef, 0xf0, 0xa4, 0xb9, 0xf1, 0xb1, 0xf2, 0xb1, 0xc2)
    case 0xc => Pick(k, 0xb7, 0xa4, 0xa4, 0xa4, 0xa4, 0xb1, 0xa6, 0xa6, 0xa7, 0xa9, 0xa9, 0xa9, 0xa9, 0xae, 0xae, 0xa8)
    case 0xd => Pick(k, 0xa8, 0xb3, 0xb3, 0xb4, 0xb4, 0xb4, 0xb4, 0xf3, 0xb8, 0xbd, 0xbd, 0xbd, 0xbd, 0xc1, 0xbc, 0xbb)
    case 0xe => Pick(k, 0xb7, 0xa4, 0xa4, 0xa4, 0xa4, 0xb1, 0xa6, 0xa6, 0xa7, 0xa9, 0xa9, 0xa9, 0xa9, 0xae, 0xae, 0xa8)
    case 0xf => Pick(k, 0xa8, 0xb3, 0xb3, 0xb4, 0xb4, 0xb4, 0xb4, 0xf4, 0xb8, 0xbd, 0xbd, 0xbd, 0xbd, 0xc1, 0xbc, 0xf5)
  }

  /** `_sort_order_win1250ch2`, sixteen bytes to a row. */
  function SortOrder2(b: byte): byte {
    var k := b % 16;
    match b / 16
    case 0x0 => Pick(k, 0x02, 0x03, 0x04, 0x05, 0x06, 0x07, 0x08, 0x09, 0x0a, 0x0b, 0x0c, 0x0d, 0x0e, 0x0f, 0x10, 0x11)
    case 0x1 => Pick(k, 0x12, 0x13, 0x14, 0x15, 0x16, 0x17, 0x18, 0x19, 0x1a, 0x1b, 0x1c, 0x1d, 0x1e, 0x1f, 0x20, 0x21)
    case 0x2 => Pick(k, 0x01, 0x01, 0x01, 0x01, 0x01, 0x01, 0x01, 0x01, 0x01, 0x01, 0x01, 0x01, 0x01, 0x01, 0x01, 0x01)
    case 0x3 => Pick(k, 0x01, 0x01, 0x01, 0x01, 0x01, 0x01, 0x01, 0x01, 0x01, 0x01, 0x01, 0x01, 0x01, 0x01, 0x01, 0x01)
    case 0x4 => Pick(k, 0x01, 0x01, 0x01, 0xff, 0x01, 0x01, 0x01, 0x01, 0x01, 0x01, 0x01, 0x01, 0x01, 0x01, 0x01, 0x01)
    case 0x5 => Pick(k, 0x01, 0x01, 0x01, 0x01, 0x01, 0x01, 0x01, 0x01, 0x01, 0x01, 0x01, 0x01, 0x01, 0x01, 0x01, 0x01)
    case 0x6 => Pick(k, 0x01, 0x02, 0x02, 0xff, 0x02, 0x02, 0x02, 0x02, 0x02, 0x02, 0x02, 0x02, 0x02, 0x02, 0x02, 0x02)
    case 0x7 => Pick(k, 0x02, 0x02, 0x02, 0x02, 0x02, 0x02, 0x02, 0x02, 0x02, 0x02, 0x02, 0x01, 0x01, 0x01, 0x01, 0x22)
    case 0x8 => Pick(k, 0x23, 0x24, 0x01, 0x25, 0x01, 0x01, 0x01, 0x01, 0x26, 0x01, 0x01, 0x01, 0x03, 0x03, 0x01, 0x05)
    case 0x9 => Pick(k, 0x27, 0x01, 0x01, 0x01, 0x01, 0x01, 0x01, 0x01, 0x28, 0x01, 0x02, 0x01, 0x04, 0x04, 0x02, 0x06)
    case 0xa => Pick(k, 0x02, 0x01, 0x01, 0x07, 0x01, 0x11, 0x01, 0x01, 0x01, 0x01, 0x05, 0x01, 0x01, 0x01, 0x01, 0x03)
    case 0xb => Pick(k, 0x01, 0x01, 0x01, 0x08, 0x01, 0x01, 0x29, 0x01, 0x01, 0x12, 0x06, 0x01, 0x05, 0x01, 0x06, 0x04)
    case 0xc => Pick(k, 0x03, 0x03, 0x05, 0x07, 0x09, 0x03, 0x03, 0x05, 0x01, 0x03, 0x09, 0x07, 0x05, 0x03, 0x05, 0x03)
    case 0xd => Pick(k, 0x05, 0x03, 0x05, 0x03, 0x05, 0x09, 0x07, 0x01, 0x01, 0x05, 0x03, 0x09, 0x07, 0x03, 0x05, 0x01)
    case 0xe => Pick(k, 0x04, 0x04, 0x06, 0x08, 0x0a, 0x04, 0x04, 0x06, 0x02, 0x04, 0x0a, 0x08, 0x06, 0x04, 0x06, 0x04)
    case 0xf => Pick(k, 0x06, 0x04, 0x06, 0x04, 0x06, 0x0a, 0x08, 0x01, 0x02, 0x06, 0x04, 0x0a, 0x08, 0x04, 0x06, 0x01)
  }

  const WIN1250CH := Tables(SortOrder1, SortOrder2)

  lemma FirstPass(b: byte)
    ensures SortOrder1(b) >= 0x81 && (SortOrder1(b) == 0xff <==> IsC(b))
  {
  }

  lemma SecondPass(b: byte)
    ensures (SortOrder2(b) == 0xff <==> IsC(b)) && (IsC(b) || 1 <= SortOrder2(b) < 0x81)
  {
  }

  /** The tables have the shape that the two-pass comparison relies on. */
  lemma Win1250chValid()
    ensures WIN1250CH.Valid()
  {
    forall b: byte ensures WIN1250CH.Ok(b) {
      FirstPass(b);
      SecondPass(b);
    }
  }

  /** The stream of "a" exactly fills a key of two bytes, and the terminator goes behind it. */
  lemma BehindKeyExample(before: byte)
    ensures Stream(WIN1250CH, [0x61]) == [0xa4, 0x02] && BehindKey(WIN1250CH, [0x61], 2, before) == 0
  {
    var t, s := WIN1250CH, [0x61];
    assert Weights(t, 0, s, 1) == [] && Weights(t, 1, s, 1) == [];
    assert ElementWeight(t, 0, s, 0) == 0xa4 && ElementWeight(t, 1, s, 0) == 0x02;
    assert Weights(t, 0, s, 0) == [0xa4] && Weights(t, 1, s, 0) == [0x02];
  }
}
