/** The FAT12 table of the virtual disk: 12-bit entries packed two to three bytes, written with the
    firmware's update routine, which takes the upper nibble of an even entry from the wrong byte. */
module Fat12 {
  import opened Bytes

  const TABLE_SIZE: nat := 512
  const END_OF_CHAIN := 0xFFF
  const MEDIA_ENTRY := 0xFF8

  /** Highest cluster index whose table offset fits the routine's 8-bit offset. */
  const LAST_INDEX: nat := 170

  /** Offset of an entry in the table, in the routine's 8-bit variable. */
  function TableOffset(index: nat): Byte { (index + index / 2) % 0x100 }

  /** First byte of an odd entry: the nibble of the entry before it stays. */
  function OddLow(x: Byte, entry: Word): Byte { Or(And(x, 0x0F), And(entry, 0x0F) * 16) % 0x100 }

  /** Second byte of an even entry, given the first. */
  function EvenHigh(x: Byte, entry: Word): Byte { Or(And(x, 0xF0), entry / 0x100) % 0x100 }

  /** UpdateFAT12ClusterEntry. */
  function SetEntry(t: seq<Byte>, index: nat, entry: Word): (r: seq<Byte>)
    requires |t| == TABLE_SIZE
    ensures |r| == TABLE_SIZE
  {
    var o := TableOffset(index);
    if index % 2 == 1 then t[o := OddLow(t[o], entry)][o + 1 := entry / 16 % 0x100]
    else t[o := entry % 0x100][o + 1 := EvenHigh(entry % 0x100, entry)]
  }

  /** A 12-bit entry, as section "FAT Data Structure" of the FAT specification defines it. */
  function Entry(t: seq<Byte>, index: nat): nat
    requires |t| == TABLE_SIZE && index <= LAST_INDEX
  {
    var o := index + index / 2;
    var low, high: int := t[o], t[o + 1];
    if index % 2 == 1 then low / 16 + 16 * high else low + 0x100 * (high % 16)
  }

  // Nibbles.

  lemma LowNibble(x: nat)
    ensures And(x, 0x0F) == x % 16
  {
    Pow2Of8();
    AndLowMask(x, 4);
  }

  lemma HighNibble(x: Byte)
    ensures And(x, 0xF0) == x / 16 * 16
  {
    hide And;
    MaskShift(x, 0x78);
    MaskShift(x / 2, 0x3C);
    MaskShift(x / 2 / 2, 0x1E);
    MaskShift(x / 2 / 2 / 2, 0x0F);
    LowNibble(x / 2 / 2 / 2 / 2);
    assert x / 2 / 2 / 2 / 2 == x / 16;
  }

  lemma JoinNibbles(low: nat, high: nat)
    requires low < 16
    ensures Or(low, high * 16) == high * 16 + low && Or(high * 16, low) == high * 16 + low
  {
    hide Or, Pow2;
    Pow2Of8();
    OrDisjoint(high, low, 4);
  }

  lemma OddLowNibbles(x: Byte, c: nat)
    requires c <= 0xFFF
    ensures OddLow(x, c) == x % 16 + 16 * (c % 16)
  {
    hide And, Or;
    LowNibble(x);
    LowNibble(c);
    JoinNibbles(x % 16, c % 16);
  }

  lemma EvenHighNibbles(x: Byte, c: nat)
    requires c <= 0xFFF
    ensures EvenHigh(x, c) == x / 16 * 16 + c / 0x100
  {
    hide And, Or;
    HighNibble(x);
    JoinNibbles(c / 0x100, x / 16);
  }

  lemma Offsets(a: nat)
    ensures 2 * a <= LAST_INDEX ==> TableOffset(2 * a) == 3 * a && (2 * a) % 2 == 0 && (2 * a) / 2 == a
    ensures 2 * a + 1 <= LAST_INDEX ==>
            TableOffset(2 * a + 1) == 3 * a + 1 && (2 * a + 1) % 2 == 1 && (2 * a + 1) / 2 == a
  {
    assert (2 * a) / 2 == a && (2 * a + 1) / 2 == a;
  }

  /** The update of entry 2a + 1, in arithmetic. */
  lemma SetOdd(t: seq<Byte>, a: nat, c: nat)
    requires |t| == TABLE_SIZE && 2 * a + 1 <= LAST_INDEX && c <= 0xFFF
    ensures SetEntry(t, 2 * a + 1, c) == t[3 * a + 1 := t[3 * a + 1] % 16 + 16 * (c % 16)][3 * a + 2 := c / 16]
  {
    hide OddLow, TableOffset;
    OddLowNibbles(t[3 * a + 1], c);
    Offsets(a);
  }

  /** The update of entry 2a, in arithmetic: the byte shared with entry 2a + 1 takes its upper
      nibble from the entry being written. */
  lemma SetEven(t: seq<Byte>, a: nat, c: nat)
    requires |t| == TABLE_SIZE && 2 * a <= LAST_INDEX && c <= 0xFFF
    ensures SetEntry(t, 2 * a, c) == t[3 * a := c % 0x100][3 * a + 1 := c % 0x100 / 16 * 16 + c / 0x100]
  {
    hide EvenHigh, TableOffset;
    EvenHighNibbles(c % 0x100, c);
    Offsets(a);
  }

  lemma EntryOdd(t: seq<Byte>, a: nat)
    requires |t| == TABLE_SIZE && 2 * a + 1 <= LAST_INDEX
    ensures Entry(t, 2 * a + 1) == t[3 * a + 1] as int / 16 + 16 * (t[3 * a + 2] as int)
  {
    hide TableOffset;
    Offsets(a);
  }

  lemma EntryEven(t: seq<Byte>, a: nat)
    requires |t| == TABLE_SIZE && 2 * a <= LAST_INDEX
    ensures Entry(t, 2 * a) == t[3 * a] as int + 0x100 * (t[3 * a + 1] as int % 16)
  {
    hide TableOffset;
    Offsets(a);
  }

  /** An odd entry and its neighbour after an update of the odd one. */
  lemma OddPair(x: Byte, c: nat)
    requires c <= 0xFFF
    ensures var x' := x % 16 + 16 * (c % 16);
            x' / 16 + 16 * (c / 16) == c && x' % 16 == x % 16
  {
  }

  /** Writing an odd entry stores it and preserves every other entry. */
  lemma WriteOdd(t: seq<Byte>, index: nat, c: nat, j: nat)
    requires |t| == TABLE_SIZE && index % 2 == 1 && index <= LAST_INDEX && j <= LAST_INDEX && c <= 0xFFF
    ensures Entry(SetEntry(t, index, c), j) == if j == index then c else Entry(t, j)
  {
    hide SetEntry, Entry;
    if j % 2 == 1 {
      OddBesideOdd(t, index / 2, c, j / 2);
    } else {
      OddBesideEven(t, index / 2, c, j / 2);
    }
  }

  lemma OddBesideOdd(t: seq<Byte>, a: nat, c: nat, b: nat)
    requires |t| == TABLE_SIZE && 2 * a + 1 <= LAST_INDEX && 2 * b + 1 <= LAST_INDEX && c <= 0xFFF
    ensures Entry(SetEntry(t, 2 * a + 1, c), 2 * b + 1) == if b == a then c else Entry(t, 2 * b + 1)
  {
    hide SetEntry, Entry;
    SetOdd(t, a, c);
    OddPair(t[3 * a + 1], c);
    EntryOdd(t, b);
    EntryOdd(SetEntry(t, 2 * a + 1, c), b);
  }

  lemma OddBesideEven(t: seq<Byte>, a: nat, c: nat, b: nat)
    requires |t| == TABLE_SIZE && 2 * a + 1 <= LAST_INDEX && 2 * b <= LAST_INDEX && c <= 0xFFF
    ensures Entry(SetEntry(t, 2 * a + 1, c), 2 * b) == Entry(t, 2 * b)
  {
    hide SetEntry, Entry;
    SetOdd(t, a, c);
    OddPair(t[3 * a + 1], c);
    EntryEven(t, b);
    EntryEven(SetEntry(t, 2 * a + 1, c), b);
  }

  /** Writing an even entry stores it and disturbs at most the entry behind it, whose low four bits
      become the upper four bits of the low byte written. */
  lemma WriteEven(t: seq<Byte>, index: nat, c: nat, j: nat)
    requires |t| == TABLE_SIZE && index % 2 == 0 && index <= LAST_INDEX && j <= LAST_INDEX && c <= 0xFFF
    ensures Entry(SetEntry(t, index, c), j) ==
      if j == index then c
      else if j == index + 1 then Entry(t, j) / 16 * 16 + c % 0x100 / 16
      else Entry(t, j)
  {
    hide SetEntry, Entry;
    if j % 2 == 1 {
      EvenBesideOdd(t, index / 2, c, j / 2);
    } else {
      EvenBesideEven(t, index / 2, c, j / 2);
    }
  }

  lemma EvenBesideOdd(t: seq<Byte>, a: nat, c: nat, b: nat)
    requires |t| == TABLE_SIZE && 2 * a <= LAST_INDEX && 2 * b + 1 <= LAST_INDEX && c <= 0xFFF
    ensures Entry(SetEntry(t, 2 * a, c), 2 * b + 1) ==
      if b == a then Entry(t, 2 * b + 1) / 16 * 16 + c % 0x100 / 16 else Entry(t, 2 * b + 1)
  {
    hide SetEntry, Entry;
    SetEven(t, a, c);
    EvenPair(c);
    EntryOdd(t, b);
    EntryOdd(SetEntry(t, 2 * a, c), b);
    Shifted(t[3 * b + 1], t[3 * b + 2]);
  }

  lemma EvenBesideEven(t: seq<Byte>, a: nat, c: nat, b: nat)
    requires |t| == TABLE_SIZE && 2 * a <= LAST_INDEX && 2 * b <= LAST_INDEX && c <= 0xFFF
    ensures Entry(SetEntry(t, 2 * a, c), 2 * b) == if b == a then c else Entry(t, 2 * b)
  {
    hide SetEntry, Entry;
    SetEven(t, a, c);
    EvenPair(c);
    EntryEven(t, b);
    EntryEven(SetEntry(t, 2 * a, c), b);
  }

  lemma EvenPair(c: nat)
    requires c <= 0xFFF
    ensures var y' := c % 0x100 / 16 * 16 + c / 0x100;
            c % 0x100 + 0x100 * (y' % 16) == c && y' / 16 == c % 0x100 / 16
  {
  }

  lemma Shifted(y: Byte, z: Byte)
    ensures (y as int / 16 + 16 * (z as int)) / 16 * 16 == 16 * z
  {
  }

  // Cluster chains.

  /** What the chain routine stores for the k-th cluster. */
  function NextCluster(start: nat, len: nat, k: nat): nat {
    if k + 1 == len then END_OF_CHAIN else start + k + 1
  }

  /** The table after the first k steps of UpdateFAT12ClusterChain; cluster numbers are 16-bit. */
  function SetChain(t: seq<Byte>, start: Word, len: nat, k: nat): (r: seq<Byte>)
    requires |t| == TABLE_SIZE
    ensures |r| == TABLE_SIZE
  {
    if k == 0 then t
    else
      SetEntry(SetChain(t, start, len, k - 1), (start + k - 1) % 0x1_0000, NextCluster(start, len, k - 1) % 0x1_0000)
  }

  /** Every cluster of the chain points to the next one, and the last one ends it. */
  ghost predicate IsChain(t: seq<Byte>, start: nat, len: nat) {
    && |t| == TABLE_SIZE && start + len <= LAST_INDEX + 1
    && forall j | start <= j < start + len :: Entry(t, j) == NextCluster(start, len, j - start)
  }

  lemma ChainNone(t: seq<Byte>, start: Word, len: nat)
    requires |t| == TABLE_SIZE
    ensures SetChain(t, start, len, 0) == t
  {
  }

  lemma ChainStep(t: seq<Byte>, start: Word, len: nat, k: nat)
    requires |t| == TABLE_SIZE && 0 < k <= len && start + len <= LAST_INDEX + 1
    ensures SetChain(t, start, len, k) ==
            SetEntry(SetChain(t, start, len, k - 1), start + k - 1, NextCluster(start, len, k - 1))
  {
    hide SetEntry;
  }

  /** What the chain routine does to any one entry: its own k clusters are linked, the entry behind
      them has its low four bits overwritten if the last write was to an even entry, and all other
      entries are unchanged. */
  lemma {:induction false} ChainEntries(t: seq<Byte>, start: Word, len: nat, k: nat, j: nat)
    requires |t| == TABLE_SIZE && 2 <= start && k <= len && start + len <= LAST_INDEX + 1 && j <= LAST_INDEX
    ensures Entry(SetChain(t, start, len, k), j) ==
      if start <= j < start + k then NextCluster(start, len, j - start)
      else if j == start + k && k > 0 && j % 2 == 1 then
        Entry(t, j) / 16 * 16 + NextCluster(start, len, k - 1) % 0x100 / 16
      else Entry(t, j)
  {
    hide SetEntry, Entry, SetChain;
    if k == 0 {
      ChainNone(t, start, len);
    } else {
      ChainEntries(t, start, len, k - 1, j);
      var i, c := start + k - 1, NextCluster(start, len, k - 1);
      ChainStep(t, start, len, k);
      if i % 2 == 1 {
        WriteOdd(SetChain(t, start, len, k - 1), i, c, j);
      } else {
        WriteEven(SetChain(t, start, len, k - 1), i, c, j);
      }
    }
  }

  /** The whole table: the two reserved entries and the chains of the two files. */
  function FatTable(flashStart: Word, flashLen: nat, eepromStart: Word, eepromLen: nat): (r: seq<Byte>)
    ensures |r| == TABLE_SIZE
  {
    var reserved := SetEntry(SetEntry(seq(TABLE_SIZE, _ => 0), 0, MEDIA_ENTRY), 1, END_OF_CHAIN);
    SetChain(SetChain(reserved, flashStart, flashLen, flashLen), eepromStart, eepromLen, eepromLen)
  }

  /** FAT12 tables decode correctly in spite of the misplaced nibble. For files on disjoint cluster
      ranges the reserved entries and the EEPROM chain are right, and the FLASH chain is right unless
      the EEPROM chain, which is written last, ends on the even entry just before it. */
  lemma FatDecodes(f: Word, n: nat, e: Word, m: nat)
    requires 2 <= f && 2 <= e && n > 0 && m > 0
    requires f + n <= LAST_INDEX + 1 && e + m <= LAST_INDEX + 1
    requires f + n <= e || e + m <= f
    ensures var t := FatTable(f, n, e, m);
            && Entry(t, 0) == MEDIA_ENTRY && Entry(t, 1) == END_OF_CHAIN
            && IsChain(t, e, m)
            && (IsChain(t, f, n) <==> !(e + m == f && f % 2 == 1 && n > 1))
  {
    hide SetEntry, Entry, SetChain;
    var zero := seq(TABLE_SIZE, _ => 0);
    var first := SetEntry(zero, 0, MEDIA_ENTRY);
    var reserved := SetEntry(first, 1, END_OF_CHAIN);
    var flash := SetChain(reserved, f, n, n);
    var t := FatTable(f, n, e, m);
    WriteEven(zero, 0, MEDIA_ENTRY, 0);
    WriteOdd(first, 1, END_OF_CHAIN, 0);
    WriteOdd(first, 1, END_OF_CHAIN, 1);
    forall j | 0 <= j < 2 ensures Entry(t, j) == Entry(reserved, j) {
      ChainEntries(reserved, f, n, n, j);
      ChainEntries(flash, e, m, m, j);
    }
    forall j | e <= j < e + m ensures Entry(t, j) == NextCluster(e, m, j - e) {
      ChainEntries(flash, e, m, m, j);
    }
    forall j | f <= j < f + n
      ensures Entry(t, j) == NextCluster(f, n, j - f) <==> !(j == e + m && j % 2 == 1 && n > 1)
    {
      ChainEntries(reserved, f, n, n, j);
      ChainEntries(flash, e, m, m, j);
      LowBits(j);
    }
    assert Entry(t, f) == NextCluster(f, n, f - f) <==> !(f == e + m && f % 2 == 1 && n > 1);
  }

  /** An entry that points to an even cluster never has all its low four bits set. */
  lemma LowBits(j: nat)
    ensures j % 2 == 1 ==> (j + 1) / 16 * 16 + END_OF_CHAIN % 0x100 / 16 != j + 1
    ensures END_OF_CHAIN / 16 * 16 + END_OF_CHAIN % 0x100 / 16 == END_OF_CHAIN
  {
  }

  /** A table whose FLASH chain is broken: EEPROM.BIN on cluster 2, FLASH.BIN on clusters 3 and 4. */
  lemma FatBreaks()
    ensures !IsChain(FatTable(3, 2, 2, 1), 3, 2)
  {
    hide FatTable, IsChain;
    FatDecodes(3, 2, 2, 1);
  }
}
