/** The encoder keeps no strings: a table entry is the code of a shorter string and one more
    pixel, packed into the key of a hash table. Both views find the same entries. */
module GifDictionary {
  import opened Common
  import opened Bits
  import opened Lzw

  /** The key of code `prefix` followed by pixel `p`. */
  function Key(prefix: nat, p: byte): nat
  {
    ShiftLeft(prefix, 8) + p
  }

  lemma KeyInjective(c: nat, p: byte, d: nat, q: byte)
    ensures Key(c, p) == Key(d, q) ==> c == d && p == q
    ensures c < 4095 ==> Key(c, p) < 0xF_FFFF
  {
    EightBits();
    PackedWord(c, p, 8);
    PackedWord(d, q, 8);
    if c < 4095 {
      assert ShiftLeft(4094, 8) == 0xF_FE00;
      hide Pow2, ShiftLeft, ShiftRight, BitAnd;
      ShiftMonotone(c, 4094, 8);
    }
  }

  /** Key `k` stands for string `s` of the table. */
  ghost predicate KeyFor(table: map<Str, nat>, k: nat, s: Str)
  {
    && |s| >= 2 && Known(table, Front(s))
    && k == Key(CodeOf(table, Front(s)), s[|s| - 1])
  }

  /** The map from keys to codes is the table of strings. */
  ghost predicate Represents(table: map<Str, nat>, entries: map<nat, nat>)
  {
    && |entries| == |table|
    && (forall s {:trigger Entered(table, entries, s)} :: s in table ==> Entered(table, entries, s))
    && (forall k {:trigger Backed(table, entries, k)} :: k in entries ==> Backed(table, entries, k))
  }

  ghost predicate Entered(table: map<Str, nat>, entries: map<nat, nat>, s: Str)
    requires s in table
  {
    exists k :: KeyFor(table, k, s) && k in entries && entries[k] == table[s]
  }

  ghost predicate Backed(table: map<Str, nat>, entries: map<nat, nat>, k: nat)
    requires k in entries
  {
    exists s :: KeyFor(table, k, s) && s in table && entries[k] == table[s]
  }

  lemma CodeBelowTable(bpp: nat, table: map<Str, nat>, s: Str)
    requires BitsPerPixel(bpp) && GoodTable(bpp, table) && Known(table, s) && Pixels(bpp, s)
    ensures CodeOf(table, s) < First(bpp) + |table|
    ensures CodeOf(table, s) < Clear(bpp) <==> |s| == 1
    ensures CodeOf(table, s) != Clear(bpp)
  {
    CodeRanges(bpp);
    if |s| == 1 {
      assert s[0] < Clear(bpp);
    } else {
      assert Entry(bpp, table, s);
    }
  }

  /** Different strings of the table have different codes. */
  lemma CodesDiffer(bpp: nat, table: map<Str, nat>, strings: seq<Str>, s: Str, t: Str)
    requires BitsPerPixel(bpp) && GoodTable(bpp, table) && SameTable(bpp, table, strings)
    requires Known(table, s) && Known(table, t) && Pixels(bpp, s) && Pixels(bpp, t)
    requires CodeOf(table, s) == CodeOf(table, t)
    ensures s == t
  {
    CodeBelowTable(bpp, table, s);
    CodeBelowTable(bpp, table, t);
    if |s| == 1 {
      assert s == [s[0]] && t == [t[0]];
    } else {
      assert Placed(bpp, table, strings, s) && Placed(bpp, table, strings, t);
    }
  }

  lemma FrontAndLast(s: Str, p: byte)
    ensures Front(s + [p]) == s && (s + [p])[|s|] == p
    ensures s != [] ==> s == Front(s) + [s[|s| - 1]]
  {}

  /** A key in the map is that of the longer string only. */
  lemma KeyOfLonger(bpp: nat, table: map<Str, nat>, strings: seq<Str>, s: Str, p: byte, t: Str)
    requires BitsPerPixel(bpp) && GoodTable(bpp, table) && SameTable(bpp, table, strings)
    requires s != [] && Known(table, s) && Pixels(bpp, s)
    requires t in table && KeyFor(table, Key(CodeOf(table, s), p), t)
    ensures t == s + [p]
  {
    assert Entry(bpp, table, t);
    KeyInjective(CodeOf(table, Front(t)), t[|t| - 1], CodeOf(table, s), p);
    assert Pixels(bpp, Front(t));
    CodesDiffer(bpp, table, strings, Front(t), s);
    FrontAndLast(t, p);
  }

  /** Looking the key up finds the longer string's code, or finds that there is none. */
  lemma LookupAgrees(bpp: nat, table: map<Str, nat>, strings: seq<Str>, entries: map<nat, nat>, s: Str, p: byte)
    requires BitsPerPixel(bpp) && First(bpp) + |table| <= MAX_CODE
    requires GoodTable(bpp, table) && SameTable(bpp, table, strings) && Represents(table, entries)
    requires s != [] && Known(table, s) && Pixels(bpp, s)
    ensures var k := Key(CodeOf(table, s), p);
            && k < 0xF_FFFF
            && (k in entries <==> Known(table, s + [p]))
            && (k in entries ==> entries[k] == CodeOf(table, s + [p]))
  {
    var k := Key(CodeOf(table, s), p);
    CodeBelowTable(bpp, table, s);
    KeyInjective(CodeOf(table, s), p, 0, 0);
    FrontAndLast(s, p);
    if s + [p] in table {
      assert Entered(table, entries, s + [p]);
    } else if k in entries {
      assert Backed(table, entries, k);
      var t :| KeyFor(table, k, t) && t in table && entries[k] == table[t];
      KeyOfLonger(bpp, table, strings, s, p, t);
    }
  }

  /** Inserting the key under the running code enters the longer string. */
  lemma InsertAgrees(table: map<Str, nat>, entries: map<nat, nat>, s: Str, p: byte, next: nat)
    requires Represents(table, entries)
    requires s != [] && Known(table, s) && s + [p] !in table
    requires Key(CodeOf(table, s), p) !in entries
    ensures Represents(table[s + [p] := next], entries[Key(CodeOf(table, s), p) := next])
  {
    var k := Key(CodeOf(table, s), p);
    var longer := table[s + [p] := next];
    var entries' := entries[k := next];
    FrontAndLast(s, p);
    assert KeyFor(longer, k, s + [p]);
    forall t | t in longer
      ensures Entered(longer, entries', t)
    {
      if t != s + [p] {
        assert Entered(table, entries, t);
        var j :| KeyFor(table, j, t) && j in entries && entries[j] == table[t];
        KeyStays(table, s + [p], next, j, t);
      }
    }
    forall j | j in entries'
      ensures Backed(longer, entries', j)
    {
      if j != k {
        assert Backed(table, entries, j);
        var t :| KeyFor(table, j, t) && t in table && entries[j] == table[t];
        KeyStays(table, s + [p], next, j, t);
      }
    }
  }

  lemma KeyStays(table: map<Str, nat>, s: Str, next: nat, k: nat, t: Str)
    requires s !in table && KeyFor(table, k, t)
    ensures KeyFor(table[s := next], k, t)
  {}
}
