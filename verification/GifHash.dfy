/** The encoder's dictionary: open addressing with linear probing over 8192 words, each
    holding a 20-bit key (prefix code and pixel) above a 12-bit code. */
module GifHash {
  import opened Common
  import opened Bits

  const TABLE_SIZE := 8192
  const KEY_BITS := 13

  /** The probe after slot `h`: `(h + 1) & 0x1FFF`. */
  function NextSlot(h: nat): nat { BitAnd(h + 1, Ones(KEY_BITS)) }

  lemma NextSlotWraps(h: nat)
    requires h < 8192
    ensures NextSlot(h) == if h == 8191 then 0 else h + 1
  {
    SmallPowers();
    if h == 8191 {
      PackedWord(1, 0, 13);
    } else {
      MaskBounds(h + 1, 13);
    }
  }

  /** The slot a key is first looked for in. */
  function KeyItem(key: nat): (h: nat)
    ensures h < 8192
  {
    SmallPowers();
    var x := BitXor(ShiftRight(key, 12), key);
    MaskBounds(x, KEY_BITS);
    BitAnd(x, Ones(KEY_BITS))
  }

  /** The slot of a key: the key and its upper bits, folded together. */
  lemma KeyItemIs(key: nat)
    ensures KeyItem(key) == BitXor(key / 4096, key) % 8192
  {
    SmallPowers();
    ShiftIsPower(key, 12);
    MaskIsRemainder(BitXor(ShiftRight(key, 12), key), 13);
  }

  /** Slot `i` is probed before slot `to` by a search that starts at slot `from`. */
  predicate Before(from: int, to: int, i: int)
  {
    if from <= to then from <= i < to else i >= from || i < to
  }

  function Distance(from: int, to: int): int
  {
    if from <= to then to - from else to - from + 8192
  }

  /** One probe further on, short of slot `e`. */
  lemma Advance(from: int, h: int, e: int)
    requires 0 <= from < 8192 && 0 <= h < 8192 && 0 <= e < 8192
    requires h != e && Distance(h, e) <= Distance(from, e)
    ensures 0 <= NextSlot(h) < 8192
    ensures Distance(NextSlot(h), e) == Distance(h, e) - 1
    ensures forall i :: 0 <= i < 8192 ==> (Before(from, NextSlot(h), i) <==> Before(from, h, i) || i == h)
  {
    NextSlotWraps(h);
  }

  /** Fewer than n numbers leave one of 0 .. n-1 out. */
  lemma {:induction false} Pigeonhole(s: set<int>, n: nat) returns (e: int)
    requires |s| < n
    ensures 0 <= e < n && e !in s
  {
    if n - 1 !in s {
      e := n - 1;
    } else {
      e := Pigeonhole(s - {n - 1}, n - 1);
    }
  }

  class GifHashTable {
    /** The width of an `unsigned long`. */
    const wordBits: nat
    const table: array<nat>
    /** The map that the table stands for, the slot of each key, and the key in each slot. */
    ghost var entries: map<nat, nat>
    ghost var slot: map<nat, int>
    ghost var owner: map<int, nat>

    function EmptyWord(): nat { Ones(wordBits) }

    /** The key of an empty word. */
    function Sentinel(): nat { ShiftRight(EmptyWord(), 12) }

    function PutKey(key: nat): nat { BitAnd(ShiftLeft(key, 12), Ones(wordBits)) }

    function Item(key: nat, code: nat): nat { BitOr(PutKey(key), BitAnd(code, Ones(12))) }

    ghost predicate Shape()
    {
      (wordBits == 32 || wordBits == 64) && table.Length == 8192
    }

    ghost predicate Valid()
      reads this, table
    {
      && Shape()
      && (forall i :: i in owner ==> 0 <= i < 8192)
      && |owner| == |entries|
      && (forall i {:trigger SlotOk(i)} :: 0 <= i < 8192 ==> SlotOk(i))
      && (forall key {:trigger EntryOk(key)} :: key in entries ==> EntryOk(key))
    }

    ghost predicate SlotOk(i: int)
      requires Shape() && 0 <= i < 8192
      reads this, table
    {
      if i in owner then
        owner[i] in entries && table[i] == Item(owner[i], entries[owner[i]])
      else
        table[i] == EmptyWord()
    }

    /** The search for a key comes to its slot over occupied slots only. */
    ghost predicate EntryOk(key: nat)
      requires key in entries
      reads this
    {
      && key < 0xF_FFFF && entries[key] <= 4095
      && key in slot && slot[key] in owner && owner[slot[key]] == key
      && forall i {:trigger Before(KeyItem(key), slot[key], i)} ::
           0 <= i < 8192 && Before(KeyItem(key), slot[key], i) ==> i in owner
    }

    constructor (wordBits: nat)
      requires wordBits == 32 || wordBits == 64
      ensures Valid() && entries == map[] && fresh(table)
      ensures this.wordBits == wordBits
    {
      this.wordBits := wordBits;
      table := new nat[TABLE_SIZE];
      new;
      Clear();
    }

    method Clear()
      requires Shape()
      modifies this, table
      ensures Valid() && entries == map[]
    {
      forall i | 0 <= i < TABLE_SIZE {
        table[i] := EmptyWord();
      }
      entries, slot, owner := map[], map[], map[];
    }

    /** The key and the code of a stored word; only the empty word has the sentinel key. */
    lemma ItemParts(key: nat, code: nat)
      requires wordBits == 32 || wordBits == 64
      requires key < 0xF_FFFF && code <= 4095
      ensures ShiftRight(Item(key, code), 12) == key != Sentinel()
      ensures BitAnd(Item(key, code), Ones(12)) == code
    {
      KeyFitsWord(key);
      assert Pow2(12) == 4096 by { SmallPowers(); }
      MaskBounds(code, 12);
      OrCommutes(ShiftLeft(key, 12), code);
      OrOfDisjointBits(code, key, 12);
      PackedWord(key, code, 12);
      SentinelKey();
    }

    /** No bit of a key is shifted out, even of 32 bits. */
    lemma KeyFitsWord(key: nat)
      requires wordBits == 32 || wordBits == 64
      requires key < 0xF_FFFF
      ensures PutKey(key) == ShiftLeft(key, 12)
    {
      hide Pow2, ShiftLeft, BitAnd;
      TwentyBits();
      NoLowBits(key);
      PackedBound(0, 12, key, 20);
      Pow2Monotone(32, wordBits);
      MaskBounds(ShiftLeft(key, 12), wordBits);
    }

    lemma NoLowBits(key: nat)
      ensures 0 + ShiftLeft(key, 12) == ShiftLeft(key, 12) && 0 < Pow2(12)
    {}

    lemma SentinelKey()
      requires wordBits == 32 || wordBits == 64
      ensures Sentinel() >= 0xF_FFFF
    {
      hide Pow2, ShiftLeft, ShiftRight, BitAnd;
      AllOnes(wordBits - 12, 12);
      PackedWord(Ones(wordBits - 12), Ones(12), 12);
      Pow2Monotone(20, wordBits - 12);
      TwentyBits();
    }

    /** What a probe sees in slot `i`. */
    lemma Probe(i: int)
      requires Valid() && 0 <= i < 8192
      ensures var key := ShiftRight(table[i], 12);
              if i in owner then
                key == owner[i] != Sentinel() && key in entries
                && BitAnd(table[i], Ones(12)) == entries[key]
              else key == Sentinel()
    {
      assert SlotOk(i);
      if i in owner {
        assert EntryOk(owner[i]);
        ItemParts(owner[i], entries[owner[i]]);
      }
    }

    /** Adds a key that is not in the table yet. */
    method Insert(key: nat, code: nat)
      requires Valid() && |entries| < 8192
      requires key < 0xF_FFFF && code <= 4095 && key !in entries
      modifies this, table
      ensures Valid() && entries == old(entries)[key := code]
    {
      var h := KeyItem(key);
      ghost var e := Pigeonhole(owner.Keys, 8192);
      Probe(h);
      while ShiftRight(table[h], 12) != Sentinel()
        invariant h < 8192
        invariant h in owner <==> ShiftRight(table[h], 12) != Sentinel()
        invariant Distance(h, e) <= Distance(KeyItem(key), e)
        invariant forall i :: 0 <= i < 8192 && Before(KeyItem(key), h, i) ==> i in owner
        decreases Distance(h, e)
        modifies {}
      {
        Advance(KeyItem(key), h, e);
        h := NextSlot(h);
        Probe(h);
      }
      Store(h, key, code);
    }

    /** Fills the first empty slot that a search for the key comes to. */
    method Store(h: nat, key: nat, code: nat)
      requires Valid() && 0 <= h < 8192 && h !in owner
      requires key < 0xF_FFFF && code <= 4095 && key !in entries
      requires forall i :: 0 <= i < 8192 && Before(KeyItem(key), h, i) ==> i in owner
      modifies this, table
      ensures Valid() && entries == old(entries)[key := code]
    {
      table[h] := Item(key, code);
      entries := entries[key := code];
      slot := slot[key := h];
      owner := owner[h := key];
      forall i | 0 <= i < 8192
        ensures SlotOk(i)
      {
        if i != h {
          assert old(SlotOk(i));
        }
      }
      forall k | k in entries
        ensures EntryOk(k)
      {
        if k != key {
          assert old(EntryOk(k));
        }
      }
    }

    /** The code of a key, or -1. */
    method Exists(key: nat) returns (code: int)
      requires Valid() && |entries| < 8192
      requires key < 0xF_FFFF
      ensures code == if key in entries then entries[key] else -1
    {
      var h := KeyItem(key);
      ghost var e := Pigeonhole(owner.Keys, 8192);
      Probe(h);
      var found := ShiftRight(table[h], 12);
      while found != Sentinel()
        invariant h < 8192 && found == ShiftRight(table[h], 12)
        invariant h in owner <==> found != Sentinel()
        invariant h in owner ==> found == owner[h]
        invariant Distance(h, e) <= Distance(KeyItem(key), e)
        invariant Missed(key, h)
        decreases Distance(h, e)
        modifies {}
      {
        Probe(h);
        if key == found {
          return BitAnd(table[h], Ones(12));
        }
        Advance(KeyItem(key), h, e);
        MissedNext(key, h);
        h := NextSlot(h);
        Probe(h);
        found := ShiftRight(table[h], 12);
      }
      NotThere(key, h);
      return -1;
    }

    /** The probes before slot `h` did not meet the key. */
    ghost predicate Missed(key: nat, h: int)
      reads this
    {
      forall i :: 0 <= i < 8192 && Before(KeyItem(key), h, i) ==> i in owner ==> owner[i] != key
    }

    lemma MissedNext(key: nat, h: int)
      requires Missed(key, h) && 0 <= h < 8192 && (h in owner ==> owner[h] != key)
      requires forall i :: 0 <= i < 8192 ==>
                 (Before(KeyItem(key), NextSlot(h), i) <==> Before(KeyItem(key), h, i) || i == h)
      ensures Missed(key, NextSlot(h))
    {}

    /** A search that ends at an empty slot without having met the key. */
    lemma NotThere(key: nat, h: int)
      requires Valid() && 0 <= h < 8192 && h !in owner
      requires Missed(key, h)
      ensures key !in entries
    {
      var home := if key in slot then slot[key] else 0;
      assert home == h || Before(KeyItem(key), h, home) || Before(KeyItem(key), home, h);
      assert key in entries ==> EntryOk(key);
    }
  }
}
