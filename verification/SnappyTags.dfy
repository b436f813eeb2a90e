/** The decoder's tag table, transcribed, and what its entries mean. */
module SnappyTags {
  import opened Arithmetic
  import opened Bytes
  import opened SnappyFormat

  /** Entry `i` of one line of eight. */
  function Line(i: nat, e0: uint16, e1: uint16, e2: uint16, e3: uint16,
                e4: uint16, e5: uint16, e6: uint16, e7: uint16): uint16
  {
    if i == 0 then e0 else if i == 1 then e1 else if i == 2 then e2 else if i == 3 then e3
    else if i == 4 then e4 else if i == 5 then e5 else if i == 6 then e6 else e7
  }

  /** Bits 0..7 of an entry: length; bits 8..10: offset / 256; bits 11..13: trailing bytes. */
  function CharTable(c: byte): (entry: uint16) {
    TableLine(c / 8, c % 8)
  }

  function TableLine(line: nat, i: nat): (entry: uint16) {
    match line
    case 0 => Line(i, 0x0001, 0x0804, 0x1001, 0x2001, 0x0002, 0x0805, 0x1002, 0x2002)
    case 1 => Line(i, 0x0003, 0x0806, 0x1003, 0x2003, 0x0004, 0x0807, 0x1004, 0x2004)
    case 2 => Line(i, 0x0005, 0x0808, 0x1005, 0x2005, 0x0006, 0x0809, 0x1006, 0x2006)
    case 3 => Line(i, 0x0007, 0x080a, 0x1007, 0x2007, 0x0008, 0x080b, 0x1008, 0x2008)
    case 4 => Line(i, 0x0009, 0x0904, 0x1009, 0x2009, 0x000a, 0x0905, 0x100a, 0x200a)
    case 5 => Line(i, 0x000b, 0x0906, 0x100b, 0x200b, 0x000c, 0x0907, 0x100c, 0x200c)
    case 6 => Line(i, 0x000d, 0x0908, 0x100d, 0x200d, 0x000e, 0x0909, 0x100e, 0x200e)
    case 7 => Line(i, 0x000f, 0x090a, 0x100f, 0x200f, 0x0010, 0x090b, 0x1010, 0x2010)
    case 8 => Line(i, 0x0011, 0x0a04, 0x1011, 0x2011, 0x0012, 0x0a05, 0x1012, 0x2012)
    case 9 => Line(i, 0x0013, 0x0a06, 0x1013, 0x2013, 0x0014, 0x0a07, 0x1014, 0x2014)
    case 10 => Line(i, 0x0015, 0x0a08, 0x1015, 0x2015, 0x0016, 0x0a09, 0x1016, 0x2016)
    case 11 => Line(i, 0x0017, 0x0a0a, 0x1017, 0x2017, 0x0018, 0x0a0b, 0x1018, 0x2018)
    case 12 => Line(i, 0x0019, 0x0b04, 0x1019, 0x2019, 0x001a, 0x0b05, 0x101a, 0x201a)
    case 13 => Line(i, 0x001b, 0x0b06, 0x101b, 0x201b, 0x001c, 0x0b07, 0x101c, 0x201c)
    case 14 => Line(i, 0x001d, 0x0b08, 0x101d, 0x201d, 0x001e, 0x0b09, 0x101e, 0x201e)
    case 15 => Line(i, 0x001f, 0x0b0a, 0x101f, 0x201f, 0x0020, 0x0b0b, 0x1020, 0x2020)
    case 16 => Line(i, 0x0021, 0x0c04, 0x1021, 0x2021, 0x0022, 0x0c05, 0x1022, 0x2022)
    case 17 => Line(i, 0x0023, 0x0c06, 0x1023, 0x2023, 0x0024, 0x0c07, 0x1024, 0x2024)
    case 18 => Line(i, 0x0025, 0x0c08, 0x1025, 0x2025, 0x0026, 0x0c09, 0x1026, 0x2026)
    case 19 => Line(i, 0x0027, 0x0c0a, 0x1027, 0x2027, 0x0028, 0x0c0b, 0x1028, 0x2028)
    case 20 => Line(i, 0x0029, 0x0d04, 0x1029, 0x2029, 0x002a, 0x0d05, 0x102a, 0x202a)
    case 21 => Line(i, 0x002b, 0x0d06, 0x102b, 0x202b, 0x002c, 0x0d07, 0x102c, 0x202c)
    case 22 => Line(i, 0x002d, 0x0d08, 0x102d, 0x202d, 0x002e, 0x0d09, 0x102e, 0x202e)
    case 23 => Line(i, 0x002f, 0x0d0a, 0x102f, 0x202f, 0x0030, 0x0d0b, 0x1030, 0x2030)
    case 24 => Line(i, 0x0031, 0x0e04, 0x1031, 0x2031, 0x0032, 0x0e05, 0x1032, 0x2032)
    case 25 => Line(i, 0x0033, 0x0e06, 0x1033, 0x2033, 0x0034, 0x0e07, 0x1034, 0x2034)
    case 26 => Line(i, 0x0035, 0x0e08, 0x1035, 0x2035, 0x0036, 0x0e09, 0x1036, 0x2036)
    case 27 => Line(i, 0x0037, 0x0e0a, 0x1037, 0x2037, 0x0038, 0x0e0b, 0x1038, 0x2038)
    case 28 => Line(i, 0x0039, 0x0f04, 0x1039, 0x2039, 0x003a, 0x0f05, 0x103a, 0x203a)
    case 29 => Line(i, 0x003b, 0x0f06, 0x103b, 0x203b, 0x003c, 0x0f07, 0x103c, 0x203c)
    case 30 => Line(i, 0x0801, 0x0f08, 0x103d, 0x203d, 0x1001, 0x0f09, 0x103e, 0x203e)
    case _ => Line(i, 0x1801, 0x0f0a, 0x103f, 0x203f, 0x2001, 0x0f0b, 0x1040, 0x2040)
  }

  function EntryLength(entry: uint16): nat { entry % 0x100 }

  function EntryOffset(entry: uint16): nat { entry / 0x100 % 8 * 0x100 }

  function EntryTrailer(entry: uint16): nat { entry / 0x800 }

  /** The entry the format prescribes for a tag with the given kind and upper six bits. */
  ghost function FormatEntry(kind: nat, up: nat): nat {
    if kind == 0 then if up < 60 then up + 1 else 0x800 * (up - 59) + 1
    else if kind == 1 then 0x804 + 0x100 * (up / 8) + up % 8
    else if kind == 2 then 0x1001 + up
    else 0x2001 + up
  }

  lemma LiteralLines(r: nat, h: nat)
    requires r < 32 && h < 2
    ensures TableLine(r, 4 * h) == FormatEntry(0, 2 * r + h)
  {
    hide TableLine, FormatEntry;
    if r < 16 {
      LowerLiteralLines(r, h);
    } else {
      UpperLiteralLines(r, h);
    }
  }

  lemma LowerLiteralLines(r: nat, h: nat)
    requires r < 32 && h < 2 && r < 16
    ensures TableLine(r, 4 * h) == FormatEntry(0, 2 * r + h)
  {
  }

  lemma UpperLiteralLines(r: nat, h: nat)
    requires r < 32 && h < 2 && r >= 16
    ensures TableLine(r, 4 * h) == FormatEntry(0, 2 * r + h)
  {
  }

  lemma ShortCopyLines(q: nat, j: nat, h: nat)
    requires q < 8 && j < 4 && h < 2
    ensures TableLine(4 * q + j, 4 * h + 1) == 0x804 + 0x100 * q + 2 * j + h
  {
    hide TableLine, FormatEntry;
    if q < 4 {
      LowerShortCopyLines(q, j, h);
    } else {
      UpperShortCopyLines(q, j, h);
    }
  }

  lemma LowerShortCopyLines(q: nat, j: nat, h: nat)
    requires q < 8 && j < 4 && h < 2 && q < 4
    ensures TableLine(4 * q + j, 4 * h + 1) == 0x804 + 0x100 * q + 2 * j + h
  {
  }

  lemma UpperShortCopyLines(q: nat, j: nat, h: nat)
    requires q < 8 && j < 4 && h < 2 && q >= 4
    ensures TableLine(4 * q + j, 4 * h + 1) == 0x804 + 0x100 * q + 2 * j + h
  {
  }

  lemma CopyLines(r: nat, h: nat)
    requires r < 32 && h < 2
    ensures TableLine(r, 4 * h + 2) == FormatEntry(2, 2 * r + h)
  {
    hide TableLine, FormatEntry;
    if r < 16 {
      LowerCopyLines(r, h);
    } else {
      UpperCopyLines(r, h);
    }
  }

  lemma LowerCopyLines(r: nat, h: nat)
    requires r < 32 && h < 2 && r < 16
    ensures TableLine(r, 4 * h + 2) == FormatEntry(2, 2 * r + h)
  {
  }

  lemma UpperCopyLines(r: nat, h: nat)
    requires r < 32 && h < 2 && r >= 16
    ensures TableLine(r, 4 * h + 2) == FormatEntry(2, 2 * r + h)
  {
  }

  lemma LongCopyLines(r: nat, h: nat)
    requires r < 32 && h < 2
    ensures TableLine(r, 4 * h + 3) == FormatEntry(3, 2 * r + h)
  {
    hide TableLine, FormatEntry;
    if r < 16 {
      LowerLongCopyLines(r, h);
    } else {
      UpperLongCopyLines(r, h);
    }
  }

  lemma LowerLongCopyLines(r: nat, h: nat)
    requires r < 32 && h < 2 && r < 16
    ensures TableLine(r, 4 * h + 3) == FormatEntry(3, 2 * r + h)
  {
  }

  lemma UpperLongCopyLines(r: nat, h: nat)
    requires r < 32 && h < 2 && r >= 16
    ensures TableLine(r, 4 * h + 3) == FormatEntry(3, 2 * r + h)
  {
  }

  lemma FieldsOfEntry(kind: nat, up: nat)
    requires kind < 4 && up < 64
    ensures var e := FormatEntry(kind, up);
      && e / 0x800 == (if kind == 0 then if up < 60 then 0 else up - 59 else if kind < 3 then kind else 4)
      && e % 0x100 == (if kind == 1 then 4 + up % 8 else if kind > 1 || up < 60 then up + 1 else 1)
      && e / 0x100 % 8 == (if kind == 1 then up / 8 else 0)
  {
    if kind == 1 {
      FieldsOf(FormatEntry(kind, up), 1, up / 8, 4 + up % 8);
    } else if kind == 0 {
      FieldsOf(FormatEntry(kind, up), if up < 60 then 0 else up - 59, 0, if up < 60 then up + 1 else 1);
    } else {
      FieldsOf(FormatEntry(kind, up), if kind < 3 then kind else 4, 0, up + 1);
    }
  }

  lemma FieldsOf(e: int, trailer: int, high: int, length: int)
    requires e == 0x800 * trailer + 0x100 * high + length && 0 <= high < 8 && 0 <= length < 0x100
    ensures e / 0x800 == trailer && e % 0x100 == length && e / 0x100 % 8 == high
  {
    QuotientUnique(e, 0x800, trailer, 0x100 * high + length);
    QuotientUnique(e, 0x100, 8 * trailer + high, length);
    QuotientUnique(8 * trailer + high, 8, trailer, high);
  }

  lemma ShortCopyEntry(r: nat, h: nat)
    requires h < 2
    ensures FormatEntry(1, 2 * r + h) == 0x804 + 0x100 * (r / 4) + 2 * (r % 4) + h
  {
  }

  lemma EntryOf(c: byte)
    ensures CharTable(c) == FormatEntry(c % 4, c / 4)
  {
    hide TableLine, FormatEntry;
    var r, h := c / 8, c % 8 / 4;
    assert c % 8 == 4 * h + c % 4 && c / 4 == 2 * r + h;
    LiteralLines(r, h);
    ShortCopyLines(r / 4, r % 4, h);
    ShortCopyEntry(r, h);
    CopyLines(r, h);
    LongCopyLines(r, h);
  }

  /** Every entry of the table is what the format prescribes for its tag: the trailer width, the
      length and the part of the offset that the tag byte itself holds. */
  lemma TableMatchesFormat(c: byte)
    ensures var e := CharTable(c);
      && EntryTrailer(e) == HeaderSize(c) - 1
      && EntryLength(e) == (if c % 4 == 1 then 4 + c / 4 % 8 else if c % 4 > 1 || c < 240 then c / 4 + 1 else 1)
      && EntryOffset(e) == (if c % 4 == 1 then c as int / 32 * 0x100 else 0)
  {
    hide CharTable, FormatEntry;
    EntryOf(c);
    FieldsOfEntry(c % 4, c / 4);
  }
}
