/** Data sub-blocks (sections 15 and 16 of the GIF89a specification): the compressed bytes
    travel in blocks of at most 255 bytes, each preceded by its length, and an empty block
    ends them. */
module SubBlocks {
  import opened Common
  import opened Bits

  const BLOCK_SIZE := 255
  const FLUSH_OUTPUT := 4096

  // ----- the format

  /** The sub-block chain that carries `payload`, with its terminator. */
  function Chain(payload: seq<byte>): (s: seq<byte>)
  {
    if payload == [] then [0]
    else
      var n: byte := if |payload| < BLOCK_SIZE then |payload| else BLOCK_SIZE;
      [n] + payload[..n] + Chain(payload[n..])
  }

  /** How a chain of sub-blocks ends: with an empty block, after which `after` follows, or
      too early, inside a block or before its length. */
  datatype Ending = Terminated(after: seq<byte>) | Truncated

  /** The bytes carried by the complete sub-blocks at the front of `s`. */
  function Payload(s: seq<byte>): seq<byte>
  {
    if s == [] || s[0] == 0 || |s| <= s[0] then []
    else s[1..1 + s[0]] + Payload(s[1 + s[0]..])
  }

  function EndingOf(s: seq<byte>): Ending
  {
    if s == [] then Truncated
    else if s[0] == 0 then Terminated(s[1..])
    else if |s| <= s[0] then Truncated
    else EndingOf(s[1 + s[0]..])
  }

  lemma OneBlock(n: byte, block: seq<byte>, rest: seq<byte>)
    requires n == |block| > 0
    ensures Payload([n] + block + rest) == block + Payload(rest)
    ensures EndingOf([n] + block + rest) == EndingOf(rest)
  {
    var s := [n] + block + rest;
    assert s[1..1 + n] == block && s[1 + n..] == rest;
  }

  /** What the first byte of a chain tells. */
  lemma FirstBlock(s: seq<byte>)
    ensures s == [] || (s[0] > 0 && |s| <= s[0]) ==> Payload(s) == [] && EndingOf(s) == Truncated
    ensures s != [] && s[0] == 0 ==> Payload(s) == [] && EndingOf(s) == Terminated(s[1..])
    ensures s != [] && 0 < s[0] < |s| ==>
              && Payload(s) == s[1..1 + s[0]] + Payload(s[1 + s[0]..])
              && EndingOf(s) == EndingOf(s[1 + s[0]..])
  {}

  /** Reading a chain gives its payload back, and finds what follows it in the file. */
  lemma {:induction false} ChainRoundTrip(payload: seq<byte>, after: seq<byte>)
    ensures Payload(Chain(payload) + after) == payload
    ensures EndingOf(Chain(payload) + after) == Terminated(after)
  {
    var s := Chain(payload) + after;
    if payload == [] {
      assert s[1..] == after;
    } else {
      var n: byte := if |payload| < BLOCK_SIZE then |payload| else BLOCK_SIZE;
      ChainRoundTrip(payload[n..], after);
      Regroup([n] + payload[..n], Chain(payload[n..]), after);
      OneBlock(n, payload[..n], Chain(payload[n..]) + after);
    }
  }

  /** Numbers of any widths come back through the bytes of a chain, which ends where the rest of
      the file begins. */
  lemma CodesRoundTrip(codes: seq<Code>, after: seq<byte>)
    requires Fitting(codes)
    ensures var file := Chain(BitsToBytes(Packed(codes))) + after;
            && Unpacked(BytesToBits(Payload(file)), Widths(codes)) == Some(Values(codes))
            && EndingOf(file) == Terminated(after)
  {
    hide *;
    var bits := Packed(codes);
    ChainRoundTrip(BitsToBytes(bits), after);
    BitsSurviveBytes(bits);
    var all := BytesToBits(BitsToBytes(bits));
    assert all == bits + all[|bits|..];
    UnpackPacked(codes, all[|bits|..]);
  }

  // ----- the writer

  /** The blocks that leave the buffer before the chain is flushed. */
  ghost function FullBlocks(payload: seq<byte>): seq<byte>
    requires |payload| % 255 == 0
  {
    if payload == [] then [] else [BLOCK_SIZE] + payload[..BLOCK_SIZE] + FullBlocks(payload[BLOCK_SIZE..])
  }

  lemma NoBlocks(base: seq<byte>)
    ensures base + FullBlocks([]) == base
  {}

  /** A chain that ends with a block that need not be full. */
  function Ended(last: seq<byte>): seq<byte>
    requires |last| <= BLOCK_SIZE
  {
    if last == [] then [0] else [|last| as byte] + last + [0]
  }

  lemma LastBlock(last: seq<byte>)
    requires |last| <= BLOCK_SIZE
    ensures Chain(last) == Ended(last)
    ensures |last| == BLOCK_SIZE ==> FullBlocks(last) == [BLOCK_SIZE] + last
  {
    assert last[|last|..] == [] && last[..|last|] == last;
  }

  lemma NextBlock(block: seq<byte>, rest: seq<byte>)
    requires |block| == BLOCK_SIZE
    ensures Chain(block + rest) == [BLOCK_SIZE] + block + Chain(rest)
    ensures |rest| % 255 == 0 ==> FullBlocks(block + rest) == [BLOCK_SIZE] + block + FullBlocks(rest)
  {
    assert (block + rest)[..BLOCK_SIZE] == block && (block + rest)[BLOCK_SIZE..] == rest;
  }

  /** Byte for byte: a length byte before every 255 bytes, 255 but for the last block, and an empty
      block at the end. */
  lemma {:induction false} ChainBytes(payload: seq<byte>)
    ensures var s := Chain(payload);
            && |s| == |payload| + (|payload| + 254) / 255 + 1 && s[|s| - 1] == 0
            && (forall i :: 0 <= i < |payload| ==> s[i + i / 255 + 1] == payload[i])
            && (forall k :: 0 <= k && 255 * k < |payload| ==>
                  s[256 * k] == if |payload| - 255 * k < 255 then |payload| - 255 * k else 255)
    decreases |payload|
  {
    hide Chain;
    if |payload| <= 255 {
      LastBlock(payload);
    } else {
      var block, rest := payload[..255], payload[255..];
      assert payload == block + rest;
      ChainBytes(rest);
      NextBlock(block, rest);
      BytesBehind(block, rest, Chain(rest));
    }
  }

  lemma BytesBehind(block: seq<byte>, rest: seq<byte>, t: seq<byte>)
    requires |block| == 255 && rest != [] && |t| == |rest| + (|rest| + 254) / 255 + 1 && t[|t| - 1] == 0
    requires forall i :: 0 <= i < |rest| ==> t[i + i / 255 + 1] == rest[i]
    requires forall k :: 0 <= k && 255 * k < |rest| ==>
               t[256 * k] == if |rest| - 255 * k < 255 then |rest| - 255 * k else 255
    ensures var s, payload := [255] + block + t, block + rest;
            && |s| == |payload| + (|payload| + 254) / 255 + 1 && s[|s| - 1] == 0
            && (forall i :: 0 <= i < |payload| ==> s[i + i / 255 + 1] == payload[i])
            && (forall k :: 0 <= k && 255 * k < |payload| ==>
                  s[256 * k] == if |payload| - 255 * k < 255 then |payload| - 255 * k else 255)
  {
    var s, payload := [255] + block + t, block + rest;
    OneBlockMore(|rest| + 254);
    forall i | 0 <= i < |payload|
      ensures i + i / 255 + 1 < |s| && s[i + i / 255 + 1] == payload[i]
    {
      if i >= 255 {
        OneBlockMore(i - 255);
        assert rest[i - 255] == payload[i];
      }
    }
    forall k | 0 <= k && 255 * k < |payload|
      ensures 256 * k < |s| && s[256 * k] == if |payload| - 255 * k < 255 then |payload| - 255 * k else 255
    {
      if k > 0 {
        assert s[256 * k] == t[256 * (k - 1)];
      }
    }
  }

  lemma OneBlockMore(j: nat)
    ensures (j + 255) / 255 == j / 255 + 1
  {}

  /** Dumping a full buffer adds a block; flushing the last one completes the chain. */
  lemma {:induction false} ChainFromBlocks(done: seq<byte>, last: seq<byte>)
    requires |done| % 255 == 0 && |last| <= BLOCK_SIZE
    ensures |last| == BLOCK_SIZE ==> FullBlocks(done + last) == FullBlocks(done) + [BLOCK_SIZE] + last
    ensures Chain(done + last) == FullBlocks(done) + Ended(last)
  {
    if done == [] {
      assert done + last == last;
      LastBlock(last);
    } else {
      hide *;
      var block, rest := done[..BLOCK_SIZE], done[BLOCK_SIZE..];
      assert done == block + rest && done + last == block + (rest + last);
      NextBlock(block, rest);
      NextBlock(block, rest + last);
      ChainFromBlocks(rest, last);
      var first: seq<byte> := [BLOCK_SIZE] + block;
      Regroup(first, FullBlocks(rest), Ended(last));
      Regroup(first, FullBlocks(rest), [BLOCK_SIZE]);
      Regroup(first, FullBlocks(rest) + [BLOCK_SIZE], last);
    }
  }

  /** The output file and the 256-byte buffer of the block being filled; `buf[0]` is its
      length so far. */
  class BlockWriter {
    var file: seq<byte>
    const buf: array<byte>
    /** What the file held when the chain began, and the bytes put in since. */
    ghost var base: seq<byte>
    ghost var payload: seq<byte>
    /** The part of `payload` that has left the buffer. */
    ghost var done: seq<byte>

    ghost predicate Valid()
      reads this, buf
    {
      && buf.Length == 256
      && |done| % 255 == 0
      && payload == done + buf[1..1 + buf[0]]
      && file == base + FullBlocks(done)
    }

    constructor (contents: seq<byte>)
      ensures Valid() && fresh(buf) && file == base == contents && payload == []
    {
      file := contents;
      buf := new byte[256](_ => 0);
      base := contents;
      payload, done := [], [];
    }

    /** Writes one byte straight to the file and starts a new chain after it. */
    method StartChain(b: byte)
      requires buf.Length == 256
      modifies this, buf
      ensures Valid() && file == base == old(file) + [b] && payload == []
    {
      file := file + [b];
      buf[0] := 0;
      base := file;
      payload, done := [], [];
    }

    method Put(c: int)
      requires Valid()
      requires 0 <= c < 256 || c == FLUSH_OUTPUT
      modifies this, buf
      ensures Valid()
      ensures c != FLUSH_OUTPUT ==> base == old(base) && payload == old(payload) + [c as byte]
      ensures c == FLUSH_OUTPUT ==> file == base == old(base) + Chain(old(payload)) && payload == []
    {
      hide Chain, FullBlocks;
      var n: int := buf[0];
      ghost var last := buf[1..1 + n];
      ChainFromBlocks(done, last);
      NoBlocks(base + Chain(payload));
      assert buf[..1 + n] == [|last| as byte] + last;
      if c == FLUSH_OUTPUT {
        ghost var blocks := FullBlocks(done);
        if n != 0 {
          file := file + buf[..1 + n];
          Regroup(base, blocks, buf[..1 + n]);
          blocks := blocks + buf[..1 + n];
        }
        buf[0] := 0;
        file := file + buf[..1];
        assert buf[..1] == [0];
        Regroup(base, blocks, [0]);
        assert blocks + [0] == Chain(payload);
        base, payload, done := file, [], [];
      } else {
        if n == BLOCK_SIZE {
          file := file + buf[..1 + n];
          Regroup(base, FullBlocks(done), buf[..1 + n]);
          Regroup(FullBlocks(done), [BLOCK_SIZE], last);
          buf[0], n := 0, 0;
          done, last := payload, [];
        }
        n := n + 1;
        buf[0] := n;
        buf[n] := c;
        payload := payload + [c];
        assert buf[1..1 + n] == last + [c];
        Regroup(done, last, [c]);
      }
    }
  }

  // ----- the reader

  /** One byte of a block taken, and the rest of it. */
  lemma OneByteOn(block: seq<byte>, i: nat, n: nat, rest: seq<byte>)
    requires n > 0 && i + n <= |block|
    ensures [block[i]] + (block[i + 1..i + n] + rest) == block[i..i + n] + rest
    ensures n == 1 ==> block[i + 1..i + n] + rest == rest
  {}

  /** The input file and the buffer of the block being read. `buf[0]` counts the bytes not
      read yet; once the first byte is taken, `buf[1]` is the index of the next one. */
  class BlockReader {
    const file: seq<byte>
    var pos: nat
    const buf: array<byte>

    ghost predicate Valid()
      reads this, buf
    {
      && buf.Length == 256
      && pos <= |file|
      && (buf[0] > 0 ==> 2 <= buf[1] && buf[0] <= 256 - buf[1] as int)
    }

    /** The bytes still to come in this chain of sub-blocks. */
    ghost function Left(): seq<byte>
      requires Valid()
      reads this, buf
    {
      if buf[0] == 0 then Payload(file[pos..])
      else buf[buf[1]..buf[1] as int + buf[0]] + Payload(file[pos..])
    }

    ghost function End(): Ending
      requires Valid()
      reads this, buf
    {
      EndingOf(file[pos..])
    }

    constructor (contents: seq<byte>)
      ensures Valid() && fresh(buf) && file == contents && pos == 0 && buf[0] == 0
    {
      file := contents;
      pos := 0;
      buf := new byte[256](_ => 0);
    }

    method ReadByte() returns (ok: bool, b: byte)
      requires Valid()
      modifies this, buf
      ensures Valid() && buf[..] == old(buf[..])
      ensures ok <==> old(pos) < |file|
      ensures ok ==> b == file[old(pos)] && pos == old(pos) + 1
      ensures !ok ==> pos == old(pos)
    {
      ok, b := pos < |file|, 0;
      if ok {
        b := file[pos];
        pos := pos + 1;
      }
    }

    /** Reads the length of a block, and the block. */
    method FetchBlock() returns (ok: bool)
      requires buf.Length == 256 && pos <= |file|
      modifies this, buf
      ensures pos <= |file|
      ensures !ok ==> Payload(file[old(pos)..]) == [] && EndingOf(file[old(pos)..]) == Truncated
      ensures ok ==> pos > old(pos)
      ensures ok && buf[0] == 0 ==> buf[1] == old(buf[1])
      ensures ok && buf[0] == 0 ==>
                Payload(file[old(pos)..]) == [] && EndingOf(file[old(pos)..]) == Terminated(file[pos..])
      ensures ok && buf[0] > 0 ==>
                && Payload(file[old(pos)..]) == buf[1..1 + buf[0]] + Payload(file[pos..])
                && EndingOf(file[old(pos)..]) == EndingOf(file[pos..])
    {
      hide Payload, EndingOf;
      ghost var rest := file[pos..];
      FirstBlock(rest);
      if pos == |file| {
        return false;
      }
      var n := file[pos];
      pos := pos + 1;
      if |file| - pos < n {
        return false;
      }
      assert rest[1..1 + n] == file[pos..pos + n] && rest[1 + n..] == file[pos + n..];
      buf[0] := n;
      forall i | 0 <= i < n {
        buf[1 + i] := file[pos + i];
      }
      pos := pos + n;
      assert buf[1..1 + n] == rest[1..1 + n];
      return true;
    }

    /** Takes byte `i`, the first of the block's bytes not read yet. The index of the byte
        after it is itself a byte, and wraps around at the end of a full block; so does the
        number of bytes left, if there are none. */
    method TakeAt(i: int) returns (b: byte)
      requires buf.Length == 256 && pos <= |file|
      requires 1 <= i < 256 && i + buf[0] <= 256
      modifies this, buf
      ensures pos == old(pos)
      ensures old(buf[0]) > 0 ==> Valid() && [b] + Left() == old(buf[i..i + buf[0]]) + Payload(file[pos..])
      ensures old(buf[0]) == 0 ==> b == old(buf[i]) && buf[0] == 255 && buf[1] == (i + 1) % 256
    {
      hide Payload, EndingOf;
      var n: int := buf[0];
      ghost var was := buf[..];
      b := buf[i];
      buf[1] := (i + 1) % 256;
      buf[0] := (n + 255) % 256;
      if n > 0 {
        OneByteOn(was, i, n, Payload(file[pos..]));
        assert buf[0] as int == n - 1;
        if n > 1 {
          assert buf[1] as int == i + 1;
          assert buf[i + 1..i + n] == was[i + 1..i + n];
        }
      }
    }

    /** Delivers the next byte of the chain. Behind the empty block that ends a chain the code
        goes on: it delivers a byte of the last block again, and takes 255 more for unread. */
    method NextByte() returns (ok: bool, b: byte)
      requires Valid()
      modifies this, buf
      ensures old(Left()) != [] ==> ok && Valid() && End() == old(End()) && old(Left()) == [b] + Left()
      ensures old(Left()) == [] && old(End()).Truncated? ==> !ok
      ensures old(Left()) == [] && old(End()).Terminated? ==>
                ok && b == old(buf[1]) && buf[0] == 255 && buf[1] == 2 && !Valid()
                && pos <= |file| && file[pos..] == old(End()).after
    {
      hide Payload, EndingOf;
      ok, b := true, 0;
      if buf[0] == 0 {
        ok := FetchBlock();
        if ok {
          b := TakeAt(1);
        }
      } else {
        b := TakeAt(buf[1]);
      }
    }

    /** Passes over the blocks not read yet, up to and including the empty one. */
    method SkipChain() returns (ok: bool)
      requires Valid()
      modifies this, buf
      ensures ok <==> old(End()).Terminated?
      ensures ok ==> Valid() && buf[0] == 0 && file[pos..] == old(End()).after
    {
      ghost var end := End();
      while true
        invariant pos <= |file| && EndingOf(file[pos..]) == end
        decreases |file| - pos
      {
        ok := FetchBlock();
        if !ok || buf[0] == 0 {
          return;
        }
      }
    }
  }
}
