/** FAT entries of 12, 16 and 32 bits packed in bytes, as get_cluster and put_cluster read and write them
    (kern/fs/fat/fat_base.c:401-487; "FAT Data Structure" in the Microsoft FAT32 File System Specification 1.03). */
module FatEntries {
  import opened Sectors

  datatype FatType = Fat12 | Fat16 | Fat32

  /** First byte of the entry of a cluster. */
  function Offset(t: FatType, c: nat): nat {
    match t
    case Fat12 => c * 3 / 2
    case Fat16 => c * 2
    case Fat32 => c * 4
  }

  function Length(t: FatType): nat {
    if t == Fat32 then 4 else 2
  }

  /** LD_WORD and LD_DWORD. */
  function Word(b0: nat, b1: nat): nat {
    b0 + 256 * b1
  }

  function Dword(b0: nat, b1: nat, b2: nat, b3: nat): nat {
    b0 + 256 * b1 + 0x1_0000 * b2 + 0x100_0000 * b3
  }

  function Entry(t: FatType, fat: seq<byte>, c: nat): nat
    requires Offset(t, c) + Length(t) <= |fat|
  {
    var o := Offset(t, c);
    match t
    case Fat12 =>
      var wc := Word(fat[o], fat[o + 1]);
      if c % 2 == 1 then wc / 16 else wc % 0x1000
    case Fat16 => Word(fat[o], fat[o + 1])
    case Fat32 => Dword(fat[o], fat[o + 1], fat[o + 2], fat[o + 3]) % 0x1000_0000
  }

  /** A 32-bit entry with its four reserved bits, as fatbase_getfree compares it with zero. */
  function RawEntry32(fat: seq<byte>, c: nat): nat
    requires 4 * c + 4 <= |fat|
  {
    Dword(fat[4 * c], fat[4 * c + 1], fat[4 * c + 2], fat[4 * c + 3])
  }

  /** All 32-bit entries with their reserved bits. */
  function RawEntries32(fat: seq<byte>, n: nat): (t: seq<nat>)
    requires 4 * n <= |fat|
    ensures |t| == n && forall c :: 0 <= c < n ==> t[c] == RawEntry32(fat, c)
  {
    seq(n, c requires 0 <= c < n => RawEntry32(fat, c))
  }

  lemma Entry32Masked(fat: seq<byte>, c: nat)
    requires 4 * c + 4 <= |fat|
    ensures Offset(Fat32, c) == 4 * c && Entry(Fat32, fat, c) == RawEntry32(fat, c) % 0x1000_0000
  {
  }

  /** The entry of cluster c is the c-th field of 12, 16 or 32 bits, low byte first, of which the last has 28 in use.
      Two fields of 12 bits share their middle byte, the even one having its lower half. */
  lemma EntryIsField(fat: seq<byte>, c: nat)
    ensures 3 * c / 2 + 2 <= |fat| ==>
      var lo: int, hi: int := fat[3 * c / 2], fat[3 * c / 2 + 1];
      Entry(Fat12, fat, c) == if c % 2 == 0 then lo + 0x100 * (hi % 16) else lo / 16 + 0x10 * hi
    ensures 2 * c + 2 <= |fat| ==>
      var b0: int, b1: int := fat[2 * c], fat[2 * c + 1]; Entry(Fat16, fat, c) == b0 + 0x100 * b1
    ensures 4 * c + 4 <= |fat| ==>
      var b0: int, b1: int, b2: int, b3: int := fat[4 * c], fat[4 * c + 1], fat[4 * c + 2], fat[4 * c + 3];
      Entry(Fat32, fat, c) == b0 + 0x100 * b1 + 0x1_0000 * b2 + 0x100_0000 * (b3 % 16)
  {
    if 4 * c + 4 <= |fat| {
      Low28(fat[4 * c], fat[4 * c + 1], fat[4 * c + 2], fat[4 * c + 3]);
    }
    if 3 * c / 2 + 2 <= |fat| {
      Low12(fat[3 * c / 2], fat[3 * c / 2 + 1]);
      High12(fat[3 * c / 2], fat[3 * c / 2 + 1]);
    }
  }

  lemma Low28(b0: nat, b1: nat, b2: nat, b3: nat)
    requires b0 < 256 && b1 < 256 && b2 < 256 && b3 < 256
    ensures Dword(b0, b1, b2, b3) % 0x1000_0000 == b0 + 0x100 * b1 + 0x1_0000 * b2 + 0x100_0000 * (b3 % 16)
  {
    var low, q := b0 + 0x100 * b1 + 0x1_0000 * b2 + 0x100_0000 * (b3 % 16), b3 / 16;
    assert Dword(b0, b1, b2, b3) == low + 0x1000_0000 * q && low < 0x1000_0000;
    Mod28(low, q);
  }

  lemma Mod28(low: nat, q: nat)
    requires low < 0x1000_0000
    ensures (low + 0x1000_0000 * q) % 0x1000_0000 == low
  {
  }

  lemma Low12(b0: nat, b1: nat)
    requires b0 < 256 && b1 < 256
    ensures Word(b0, b1) % 0x1000 == b0 + 0x100 * (b1 % 16)
  {
    assert b1 == 16 * (b1 / 16) + b1 % 16;
  }

  lemma High12(b0: nat, b1: nat)
    requires b0 < 256 && b1 < 256
    ensures Word(b0, b1) / 16 == b0 / 16 + 0x10 * b1
  {
  }

  /** The two bytes a 12-bit entry shares with its neighbours. */
  function LowByte12(c: nat, was: byte, v: nat): byte {
    if c % 2 == 1 then was % 16 + 16 * (v % 16) else v % 256
  }

  function HighByte12(c: nat, was: byte, v: nat): byte {
    if c % 2 == 1 then v / 16 % 256 else was / 16 * 16 + v / 256 % 16
  }

  function Store(t: FatType, fat: seq<byte>, c: nat, v: nat): (r: seq<byte>)
    requires Offset(t, c) + Length(t) <= |fat|
    ensures |r| == |fat|
  {
    var o := Offset(t, c);
    match t
    case Fat12 => fat[o := LowByte12(c, fat[o], v)][o + 1 := HighByte12(c, fat[o + 1], v)]
    case Fat16 => fat[o := v % 256][o + 1 := v / 256 % 256]
    case Fat32 =>
      fat[o := v % 256][o + 1 := v / 256 % 256][o + 2 := v / 0x1_0000 % 256][o + 3 := v / 0x100_0000 % 256]
  }

  /** The part of a value that fits in an entry. */
  function Truncated(t: FatType, v: nat): nat {
    match t
    case Fat12 => v % 0x1000
    case Fat16 => v % 0x1_0000
    case Fat32 => v % 0x1000_0000
  }

  lemma TwoBytes(v: nat)
    ensures Word(v % 256, v / 256 % 256) == v % 0x1_0000
  {
  }

  lemma FourBytes(v: nat)
    requires v < 0x1_0000_0000
    ensures Dword(v % 256, v / 256 % 256, v / 0x1_0000 % 256, v / 0x100_0000 % 256) == v
  {
    var a := v / 256;
    var b := a / 256;
    var c := b / 256;
    assert v / 0x1_0000 == b && v / 0x100_0000 == c && c < 256;
    assert v == 256 * a + v % 256 && a == 256 * b + a % 256 && b == 256 * c + b % 256;
  }

  lemma Odd12Same(was: byte, v: nat)
    ensures Word(was % 16 + 16 * (v % 16), v / 16 % 256) / 16 == v % 0x1000
  {
    assert v % 0x1000 == v % 16 + 16 * (v / 16 % 256);
  }

  lemma Even12Same(was: byte, v: nat)
    ensures Word(v % 256, was / 16 * 16 + v / 256 % 16) % 0x1000 == v % 0x1000
  {
    var q: nat := was / 16;
    assert v % 0x1000 == v % 256 + 256 * (v / 256 % 16);
    assert Word(v % 256, q * 16 + v / 256 % 16) == v % 0x1000 + 0x1000 * q;
    Mod12(v % 0x1000, q);
  }

  lemma Mod12(x: nat, q: nat)
    ensures (x + 0x1000 * q) % 0x1000 == x % 0x1000
  {
  }

  /** An odd cluster's low byte is the high byte of the even cluster below it. */
  lemma Odd12Shares(lo: byte, b: byte, v: nat)
    ensures Word(lo, b % 16 + 16 * (v % 16)) % 0x1000 == Word(lo, b) % 0x1000
  {
    var q, r, w: nat := b / 16, b % 16, v % 16;
    assert Word(lo, b) == Word(lo, r) + 0x1000 * q;
    assert Word(lo, r + 16 * w) == Word(lo, r) + 0x1000 * w;
    Mod12(Word(lo, r), q);
    Mod12(Word(lo, r), w);
  }

  /** An even cluster's high byte is the low byte of the odd cluster above it. */
  lemma Even12Shares(b: byte, hi: byte, v: nat)
    ensures Word(b / 16 * 16 + v / 256 % 16, hi) / 16 == Word(b, hi) / 16
  {
    var q, r, x: nat := b / 16, b % 16, v / 256 % 16;
    Div16(q + 16 * hi, x);
    Div16(q + 16 * hi, r);
    assert Word(b, hi) == 16 * (q + 16 * hi) + r && Word(q * 16 + x, hi) == 16 * (q + 16 * hi) + x;
  }

  lemma Div16(q: nat, x: nat)
    requires x < 16
    ensures (16 * q + x) / 16 == q
  {
  }

  lemma Offset12Split(c: nat)
    ensures Offset(Fat12, c) == 3 * (c / 2) + c % 2
  {
  }

  lemma Offset12(c: nat, d: nat)
    requires c != d
    ensures Offset(Fat12, c) != Offset(Fat12, d)
    ensures Offset(Fat12, d) == Offset(Fat12, c) + 1 <==> d == c + 1 && c % 2 == 0
    ensures d + 1 == c && c % 2 == 1 ==> Offset(Fat12, c) == Offset(Fat12, d) + 1
  {
    Offset12Split(c);
    Offset12Split(d);
  }

  /** A 12-bit entry in terms of the two bytes at its offset. */
  function Pick12(c: nat, lo: nat, hi: nat): nat {
    if c % 2 == 1 then Word(lo, hi) / 16 else Word(lo, hi) % 0x1000
  }

  lemma Pick12Same(c: nat, lo: byte, hi: byte, v: nat)
    ensures Pick12(c, LowByte12(c, lo, v), HighByte12(c, hi, v)) == v % 0x1000
  {
    hide Word;
    if c % 2 == 1 {
      Odd12Same(lo, v);
    } else {
      Even12Same(hi, v);
    }
  }

  lemma Entry12Pick(fat: seq<byte>, d: nat)
    requires Offset(Fat12, d) + 2 <= |fat|
    ensures Entry(Fat12, fat, d) == Pick12(d, fat[Offset(Fat12, d)], fat[Offset(Fat12, d) + 1])
  {
    hide Word;
  }

  lemma Store12Bytes(fat: seq<byte>, c: nat, v: nat, j: nat)
    requires Offset(Fat12, c) + 2 <= |fat| && j < |fat|
    ensures |Store(Fat12, fat, c, v)| == |fat|
    ensures var o := Offset(Fat12, c);
      Store(Fat12, fat, c, v)[j] ==
        if j == o then LowByte12(c, fat[o], v) else if j == o + 1 then HighByte12(c, fat[o + 1], v) else fat[j]
  {
    hide LowByte12;
    hide HighByte12;
  }

  lemma Entry12Store(fat: seq<byte>, c: nat, v: nat, d: nat)
    requires Offset(Fat12, c) + 2 <= |fat| && Offset(Fat12, d) + 2 <= |fat|
    ensures Entry(Fat12, Store(Fat12, fat, c, v), d) == if d == c then v % 0x1000 else Entry(Fat12, fat, d)
  {
    hide Word;
    hide LowByte12;
    hide HighByte12;
    hide Store;
    hide Entry;
    hide Pick12;
    hide Offset;
    var o, p, fat' := Offset(Fat12, c), Offset(Fat12, d), Store(Fat12, fat, c, v);
    Store12Bytes(fat, c, v, p);
    Store12Bytes(fat, c, v, p + 1);
    Entry12Pick(fat, d);
    Entry12Pick(fat', d);
    if d == c {
      Pick12Same(c, fat[o], fat[o + 1], v);
    } else {
      Offset12(c, d);
      Offset12(d, c);
      if d + 1 == c && c % 2 == 1 {
        Below12(c, fat[p], fat[o], v);
      } else if d == c + 1 && c % 2 == 0 {
        Above12(c, fat[o + 1], fat[p + 1], v);
      }
    }
  }

  lemma Below12(c: nat, lo: byte, b: byte, v: nat)
    requires c % 2 == 1
    ensures Pick12(c - 1, lo, LowByte12(c, b, v)) == Pick12(c - 1, lo, b)
  {
    hide Word;
    Odd12Shares(lo, b, v);
  }

  lemma Above12(c: nat, b: byte, hi: byte, v: nat)
    requires c % 2 == 0
    ensures Pick12(c + 1, HighByte12(c, b, v), hi) == Pick12(c + 1, b, hi)
  {
    hide Word;
    assert (c + 1) % 2 == 1 && HighByte12(c, b, v) == b / 16 * 16 + v / 256 % 16;
    Even12Shares(b, hi, v);
  }

  /** Reading after writing: the value truncated to the entry's width; every other entry is as before. */
  lemma EntryStore(t: FatType, fat: seq<byte>, c: nat, v: nat, d: nat)
    requires Offset(t, c) + Length(t) <= |fat| && Offset(t, d) + Length(t) <= |fat| && v < 0x1_0000_0000
    ensures Entry(t, Store(t, fat, c, v), d) == if d == c then Truncated(t, v) else Entry(t, fat, d)
  {
    match t
    case Fat12 => Entry12Store(fat, c, v, d);
    case Fat16 => TwoBytes(v);
    case Fat32 => FourBytes(v);
  }
}
