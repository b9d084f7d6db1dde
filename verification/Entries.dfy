/**
 Which page-table entry an address selects, by arithmetic on the address alone.
 */
module Entries {
  import opened Words
  import opened PageWalk
  import opened Rights

  /** Base and width of the address field of each level; level 0 is the page table. */
  function Fields(c: WalkConfig): (r: seq<(nat, nat)>)
    ensures |r| == 5
  {
    [(c.ptBase, c.ptWidth), (c.dir1Base, c.dir1Width), (c.dir2Base, c.dir2Width), (c.dir3Base, c.dir3Width), (c.dir4Base, c.dir4Width)]
  }

  function Power8(n: nat): (r: nat)
    ensures r >= 1
  {
    if n == 0 then 1 else 8 * Power8(n - 1)
  }

  /** Bytes per entry: 8, 64, 512 or 4096. */
  function EntryBytes(c: WalkConfig): nat { Power8(c.pteWidth + 1) }

  function Selected(c: WalkConfig, a: Word, level: nat): nat
    requires level <= 4
  {
    a / Pow2(Fields(c)[level].0) % Pow2(Fields(c)[level].1)
  }

  function EntryAddress(c: WalkConfig, a: Word, table: Word, level: nat): nat
    requires level <= 4
  {
    BitOr(table, Selected(c, a, level) * EntryBytes(c)) % TWO48
  }

  /** A table starts at a multiple of its size. */
  predicate AlignedTable(c: WalkConfig, table: Word, level: nat)
    requires level <= 4
  {
    var size := Pow2(Fields(c)[level].1) * EntryBytes(c);
    size > 0 && table % size == 0
  }

  // ---- The walker loads the selected entry -------------------------------------------------------

  lemma {:induction false} BytesArePower(n: nat)
    ensures Pow2(3 * n) == Power8(n)
  {
    if n > 0 {
      BytesArePower(n - 1);
      assert Pow2(3 * n) == 2 * Pow2(3 * n - 1) && Pow2(3 * n - 1) == 2 * Pow2(3 * n - 2) && Pow2(3 * n - 2) == 2 * Pow2(3 * n - 3);
    }
  }

  lemma {:induction false} OrMod(a: nat, b: nat, k: nat)
    ensures BitOr(a % Pow2(k), b) % Pow2(k) == BitOr(a, b) % Pow2(k)
    decreases k
  {
    hide BitOr, Pow2;
    LowMod(a, k);
    LowMod(BitOr(a, b), k);
    LowMod(BitOr(Low(a, k), b), k);
    OrLow(a, b, k);
  }

  lemma {:induction false} OrLow(a: nat, b: nat, k: nat)
    ensures Low(BitOr(Low(a, k), b), k) == Low(BitOr(a, b), k)
    decreases k
  {
    if k > 0 {
      OrLow(a / 2, b / 2, k - 1);
      HalfOfLow(a, k);
      OrHalves(a, b);
      OrHalves(Low(a, k), b);
    }
  }

  lemma OrHalves(a: nat, b: nat)
    ensures BitOr(a, b) / 2 == BitOr(a / 2, b / 2)
    ensures BitOr(a, b) % 2 == if a % 2 == 1 || b % 2 == 1 then 1 else 0
  {
  }

  lemma SelectedIndex(c: WalkConfig, a: Word, level: nat)
    requires level <= 4
    ensures Index(a, DirBase(c, level), DirWidth(c, level)) == Selected(c, a, level)
    ensures Pow2(EntryShift(c)) == EntryBytes(c)
  {
    hide Shr, Low, Pow2;
    ShrDiv(a, DirBase(c, level));
    LowMod(Shr(a, DirBase(c, level)), DirWidth(c, level));
    BytesArePower(c.pteWidth + 1);
  }

  /** helper_lddir reads the entry that the address field of the level selects. */
  lemma LoadsSelected(c: WalkConfig, mem: Memory, a: Word, table: Word, level: nat)
    requires 1 <= level <= 4 && !FlagHuge(table)
    ensures DirAddress(c, a, table, level) % TWO48 == EntryAddress(c, a, table, level)
    ensures LdDir(c, mem, a, table, level) == mem(EntryAddress(c, a, table, level))
  {
    hide Index, Selected, EntryBytes, BitOr, Pow2, FlagHuge;
    SelectedIndex(c, a, level);
    assert Pow2(48) == TWO48 by { Pow2Values(); }
    OrMod(table, Selected(c, a, level) * EntryBytes(c), 48);
  }

  /** helper_ldpte with the parity of the address reads the entry that its page-table field selects. */
  lemma LoadsPage(c: WalkConfig, mem: Memory, a: Word, table: Word)
    requires c.ptWidth >= 1 && !FlagHuge(table)
    ensures LdPte(c, mem, a, table, Bit(a, c.ptBase)) == mem(EntryAddress(c, a, table, 0))
  {
    hide Index, Selected, EntryBytes, BitOr, Pow2, FlagHuge, Shr, Low;
    SelectedIndex(c, a, 0);
    EvenIndex(a, c.ptBase, c.ptWidth);
    ParityBit(a, c.ptBase);
  }

  // ---- Which addresses share an entry --------------------------------------------------------------

  lemma {:induction false} SameBits(x: nat, y: nat, k: nat, j: nat)
    requires j < k && Low(x, k) == Low(y, k)
    ensures Shr(x, j) % 2 == Shr(y, j) % 2
    decreases k
  {
    if j > 0 { SameBits(x / 2, y / 2, k - 1, j - 1); }
  }

  lemma {:induction false} DifferentBit(x: nat, y: nat, k: nat) returns (j: nat)
    requires Low(x, k) != Low(y, k)
    ensures j < k && Shr(x, j) % 2 != Shr(y, j) % 2
    decreases k
  {
    if x % 2 != y % 2 {
      j := 0;
    } else {
      j := DifferentBit(x / 2, y / 2, k - 1);
      j := j + 1;
    }
  }

  lemma FieldBit(a: nat, base: nat, j: nat)
    ensures Shr(Shr(a, base), j) % 2 == 1 <==> Bit(a, base + j)
  {
    ShrSplit(a, base, base + j);
    ShrDiv(a, base + j);
  }

  lemma FieldBitsAgree(c: WalkConfig, a: Word, b: Word, level: nat)
    requires level <= 4
    ensures var (base, width) := Fields(c)[level];
            Selected(c, a, level) == Selected(c, b, level) <==> forall k: nat :: base <= k < base + width ==> Bit(a, k) == Bit(b, k)
  {
    hide Pow2, Shr, Low, Bit;
    var (base, width) := Fields(c)[level];
    var x, y := Shr(a, base), Shr(b, base);
    LowMod(a, base);
    LowMod(b, base);
    LowMod(x, width);
    LowMod(y, width);
    if Low(x, width) == Low(y, width) {
      forall k: nat | base <= k < base + width
        ensures Bit(a, k) == Bit(b, k)
      {
        SameBits(x, y, width, k - base);
        FieldBit(a, base, k - base);
        FieldBit(b, base, k - base);
      }
    } else {
      var j := DifferentBit(x, y, width);
      FieldBit(a, base, j);
      FieldBit(b, base, j);
    }
  }

  lemma EntryInTable(c: WalkConfig, a: Word, table: Word, level: nat)
    requires Ordered(c) && level <= 4 && AlignedTable(c, table, level)
    ensures EntryAddress(c, a, table, level) == table % TWO48 + Selected(c, a, level) * EntryBytes(c) && EntryBytes(c) >= 1
  {
    hide BitOr, Pow2, Selected, EntryBytes;
    var width, e := Fields(c)[level].1, 3 * (c.pteWidth + 1);
    assert width <= 30 by { assert width == DirWidth(c, level); }
    assert Pow2(e) == EntryBytes(c) by { SelectedIndex(c, a, level); }
    assert Pow2(width) * EntryBytes(c) == Pow2(width + e) by { Pow2Add(width, e); }
    var x, n := Selected(c, a, level), EntryBytes(c);
    assert x < Pow2(width) by { SelectedRange(c, a, level); }
    assert x * n < Pow2(width + e) by { BelowProduct(x, Pow2(width), n); }
    assert x * n >= 0 by { MulMono(0, x, n); }
    OffsetAdded(table, x * n, width + e);
  }

  lemma BelowProduct(x: int, m: int, n: int)
    requires x < m && n >= 1
    ensures x * n < m * n
  {
    MulMono(x + 1, m, n);
  }

  lemma SelectedRange(c: WalkConfig, a: Word, level: nat)
    requires level <= 4
    ensures Selected(c, a, level) < Pow2(Fields(c)[level].1)
  {
    hide Pow2;
  }

  /** Or-ing an offset into an aligned table adds it, below 2^48. */
  lemma OffsetAdded(table: Word, off: nat, k: nat)
    requires k <= 48 && off < Pow2(k) && table % Pow2(k) == 0
    ensures BitOr(table, off) % TWO48 == table % TWO48 + off
  {
    hide BitOr, Pow2;
    OrDisjoint(table, off, k);
    Pow2Add(k, 48 - k);
    assert Pow2(48) == TWO48 by { Pow2Values(); }
    InsideBlock(table, off, Pow2(k), Pow2(48 - k));
  }

  /** A block that starts at a multiple of its size does not cross a multiple of a larger power. */
  lemma InsideBlock(t: nat, x: nat, size: int, k: int)
    requires size > 0 && k > 0 && t % size == 0 && x < size
    ensures size * k > 0 && (t + x) % (size * k) == t % (size * k) + x
  {
    MulMono(1, k, size);
    var m := t / size;
    assert t == m * size;
    var q, r := m / k, m % k;
    assert m == q * k + r;
    assert t == q * (size * k) + r * size by {
      assert (q * k + r) * size == q * k * size + r * size;
      MulAssoc(q, k, size);
      assert k * size == size * k;
    }
    assert r * size + x < size * k by {
      MulMono(r + 1, k, size);
      assert (r + 1) * size == r * size + size && k * size == size * k;
    }
    MulMono(0, r, size);
    DivUnique(t, size * k, q, r * size);
    DivUnique(t + x, size * k, q, r * size + x);
  }

  lemma SidesOfProduct(x: int, y: int, n: int)
    requires n >= 1
    ensures x * n == y * n <==> x == y
  {
    if x < y { MulMono(x + 1, y, n); }
    if y < x { MulMono(y + 1, x, n); }
  }

  /** In an aligned table entries lie side by side, so two addresses select the same one exactly when they agree on
      every bit of the level's field. */
  lemma SameEntryIff(c: WalkConfig, a: Word, b: Word, table: Word, level: nat)
    requires Ordered(c) && level <= 4 && AlignedTable(c, table, level)
    ensures EntryAddress(c, a, table, level) == table % TWO48 + Selected(c, a, level) * EntryBytes(c)
    ensures var (base, width) := Fields(c)[level];
            EntryAddress(c, a, table, level) == EntryAddress(c, b, table, level)
            <==> forall k: nat :: base <= k < base + width ==> Bit(a, k) == Bit(b, k)
  {
    hide Selected, EntryBytes, EntryAddress, Pow2, Shr, Low, Bit;
    EntryInTable(c, a, table, level);
    EntryInTable(c, b, table, level);
    var (base, width) := Fields(c)[level];
    FieldBitsAgree(c, a, b, level);
    var n, x, y := EntryBytes(c), Selected(c, a, level), Selected(c, b, level);
    assert x * n == y * n <==> x == y by { SidesOfProduct(x, y, n); }
  }
}
