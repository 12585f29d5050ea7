/** The lookup table of the decompressor and what its entries mean. */
module SnappyTable {
  import opened Bytes
  import opened SnappyFormat

  //// char_table, four rows of eight at a time

  function Rows0(r: int): seq<int> {
    if r == 0 then [0x0001, 0x0804, 0x1001, 0x2001, 0x0002, 0x0805, 0x1002, 0x2002]
    else if r == 1 then [0x0003, 0x0806, 0x1003, 0x2003, 0x0004, 0x0807, 0x1004, 0x2004]
    else if r == 2 then [0x0005, 0x0808, 0x1005, 0x2005, 0x0006, 0x0809, 0x1006, 0x2006]
    else [0x0007, 0x080a, 0x1007, 0x2007, 0x0008, 0x080b, 0x1008, 0x2008]
  }

  function Rows1(r: int): seq<int> {
    if r == 0 then [0x0009, 0x0904, 0x1009, 0x2009, 0x000a, 0x0905, 0x100a, 0x200a]
    else if r == 1 then [0x000b, 0x0906, 0x100b, 0x200b, 0x000c, 0x0907, 0x100c, 0x200c]
    else if r == 2 then [0x000d, 0x0908, 0x100d, 0x200d, 0x000e, 0x0909, 0x100e, 0x200e]
    else [0x000f, 0x090a, 0x100f, 0x200f, 0x0010, 0x090b, 0x1010, 0x2010]
  }

  function Rows2(r: int): seq<int> {
    if r == 0 then [0x0011, 0x0a04, 0x1011, 0x2011, 0x0012, 0x0a05, 0x1012, 0x2012]
    else if r == 1 then [0x0013, 0x0a06, 0x1013, 0x2013, 0x0014, 0x0a07, 0x1014, 0x2014]
    else if r == 2 then [0x0015, 0x0a08, 0x1015, 0x2015, 0x0016, 0x0a09, 0x1016, 0x2016]
    else [0x0017, 0x0a0a, 0x1017, 0x2017, 0x0018, 0x0a0b, 0x1018, 0x2018]
  }

  function Rows3(r: int): seq<int> {
    if r == 0 then [0x0019, 0x0b04, 0x1019, 0x2019, 0x001a, 0x0b05, 0x101a, 0x201a]
    else if r == 1 then [0x001b, 0x0b06, 0x101b, 0x201b, 0x001c, 0x0b07, 0x101c, 0x201c]
    else if r == 2 then [0x001d, 0x0b08, 0x101d, 0x201d, 0x001e, 0x0b09, 0x101e, 0x201e]
    else [0x001f, 0x0b0a, 0x101f, 0x201f, 0x0020, 0x0b0b, 0x1020, 0x2020]
  }

  function Rows4(r: int): seq<int> {
    if r == 0 then [0x0021, 0x0c04, 0x1021, 0x2021, 0x0022, 0x0c05, 0x1022, 0x2022]
    else if r == 1 then [0x0023, 0x0c06, 0x1023, 0x2023, 0x0024, 0x0c07, 0x1024, 0x2024]
    else if r == 2 then [0x0025, 0x0c08, 0x1025, 0x2025, 0x0026, 0x0c09, 0x1026, 0x2026]
    else [0x0027, 0x0c0a, 0x1027, 0x2027, 0x0028, 0x0c0b, 0x1028, 0x2028]
  }

  function Rows5(r: int): seq<int> {
    if r == 0 then [0x0029, 0x0d04, 0x1029, 0x2029, 0x002a, 0x0d05, 0x102a, 0x202a]
    else if r == 1 then [0x002b, 0x0d06, 0x102b, 0x202b, 0x002c, 0x0d07, 0x102c, 0x202c]
    else if r == 2 then [0x002d, 0x0d08, 0x102d, 0x202d, 0x002e, 0x0d09, 0x102e, 0x202e]
    else [0x002f, 0x0d0a, 0x102f, 0x202f, 0x0030, 0x0d0b, 0x1030, 0x2030]
  }

  function Rows6(r: int): seq<int> {
    if r == 0 then [0x0031, 0x0e04, 0x1031, 0x2031, 0x0032, 0x0e05, 0x1032, 0x2032]
    else if r == 1 then [0x0033, 0x0e06, 0x1033, 0x2033, 0x0034, 0x0e07, 0x1034, 0x2034]
    else if r == 2 then [0x0035, 0x0e08, 0x1035, 0x2035, 0x0036, 0x0e09, 0x1036, 0x2036]
    else [0x0037, 0x0e0a, 0x1037, 0x2037, 0x0038, 0x0e0b, 0x1038, 0x2038]
  }

  function Rows7(r: int): seq<int> {
    if r == 0 then [0x0039, 0x0f04, 0x1039, 0x2039, 0x003a, 0x0f05, 0x103a, 0x203a]
    else if r == 1 then [0x003b, 0x0f06, 0x103b, 0x203b, 0x003c, 0x0f07, 0x103c, 0x203c]
    else if r == 2 then [0x0801, 0x0f08, 0x103d, 0x203d, 0x1001, 0x0f09, 0x103e, 0x203e]
    else [0x1801, 0x0f0a, 0x103f, 0x203f, 0x2001, 0x0f0b, 0x1040, 0x2040]
  }

  /** The entry the format asks for: extra bytes in bits 11-13, offset/256 in bits
      8-10, length in bits 0-7 (1 where a literal's length is in the extra bytes). */
  function Layout(c: int): int {
    if c % 4 == 0 then (if c / 4 < 60 then c / 4 + 1 else 2048 * (c / 4 - 59) + 1)
    else if c % 4 == 1 then 2048 + 256 * (c / 32) + (c / 4 % 8 + 4)
    else if c % 4 == 2 then 4096 + (c / 4 + 1)
    else 8192 + (c / 4 + 1)
  }

  method LookUp0(r: int, k: int) returns (entry: int)
    requires 0 <= r < 4 && 0 <= k < 8
    ensures entry == Layout(0 + 8 * r + k)
  {
    entry := Rows0(r)[k];
  }

  method LookUp1(r: int, k: int) returns (entry: int)
    requires 0 <= r < 4 && 0 <= k < 8
    ensures entry == Layout(32 + 8 * r + k)
  {
    entry := Rows1(r)[k];
  }

  method LookUp2(r: int, k: int) returns (entry: int)
    requires 0 <= r < 4 && 0 <= k < 8
    ensures entry == Layout(64 + 8 * r + k)
  {
    entry := Rows2(r)[k];
  }

  method LookUp3(r: int, k: int) returns (entry: int)
    requires 0 <= r < 4 && 0 <= k < 8
    ensures entry == Layout(96 + 8 * r + k)
  {
    entry := Rows3(r)[k];
  }

  method LookUp4(r: int, k: int) returns (entry: int)
    requires 0 <= r < 4 && 0 <= k < 8
    ensures entry == Layout(128 + 8 * r + k)
  {
    entry := Rows4(r)[k];
  }

  method LookUp5(r: int, k: int) returns (entry: int)
    requires 0 <= r < 4 && 0 <= k < 8
    ensures entry == Layout(160 + 8 * r + k)
  {
    entry := Rows5(r)[k];
  }

  method LookUp6(r: int, k: int) returns (entry: int)
    requires 0 <= r < 4 && 0 <= k < 8
    ensures entry == Layout(192 + 8 * r + k)
  {
    entry := Rows6(r)[k];
  }

  method LookUp7(r: int, k: int) returns (entry: int)
    requires 0 <= r < 4 && 0 <= k < 8
    ensures entry == Layout(224 + 8 * r + k)
  {
    entry := Rows7(r)[k];
  }

  /** char_table[c]: every entry of the table is the layout of its tag byte. */
  method CharTable(c: byte) returns (entry: int)
    ensures entry == Layout(c as int)
  {
    hide Layout;
    var n := c as int;
    var r, k := n / 8 % 4, n % 8;
    assert n == 32 * (n / 32) + 8 * r + k;
    if n < 128 {
      if n < 32 { entry := LookUp0(r, k); }
      else if n < 64 { entry := LookUp1(r, k); }
      else if n < 96 { entry := LookUp2(r, k); }
      else { entry := LookUp3(r, k); }
    } else {
      if n < 160 { entry := LookUp4(r, k); }
      else if n < 192 { entry := LookUp5(r, k); }
      else if n < 224 { entry := LookUp6(r, k); }
      else { entry := LookUp7(r, k); }
    }
  }

  /** The fields that the decompressor cuts out of an entry. */
  lemma EntryFields(c: byte)
    ensures Layout(c as int) / 2048 == ExtraBytes(c)
    ensures c as int % 4 == 1 ==> Layout(c as int) / 256 % 8 == c as int / 32 && Layout(c as int) % 256 == c as int / 4 % 8 + 4
    ensures c as int % 4 >= 2 ==> Layout(c as int) / 256 % 8 == 0 && Layout(c as int) % 256 == c as int / 4 + 1
  {
  }
}
