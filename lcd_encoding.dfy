/** The 4-bit nibble protocol of the LCD6x20 driver and the way its
    `write_lcd` packs nibble sequences into block writes of the MCP23008 port
    expander, as pure functions from (strobe line, bitmask, values) to the
    events the transport sees. */
module LcdEncoding {
  import opened Transport
  import opened Seqs

  // MCP23008 registers that write_lcd touches
  const IODIR: Byte := 0x00
  const IOCON: Byte := 0x05
  const GPIO: Byte := 0x09

  /** Register-select line: set for character data, clear for commands. */
  const DATA_RS: Byte := 0x02

  /** Port bits 3..6 carry the LCD's four data lines. */
  const DATA_LINES: Byte := 0x78

  // The two commands after which write_lcd sleeps
  const CLEARDISPLAY: Byte := 0x01
  const RETURNHOME: Byte := 0x02

  /** The block-transfer ceiling of the expander, in bytes, and the number of
      values whose four-byte encodings fill one block. */
  const BLOCK_SIZE := 32
  const VALUES_PER_BLOCK := 8

  /** The byte a four-byte strobe sequence latches into the LCD: the data
      lines of the second byte give the high nibble, those of the fourth the
      low nibble. */
  function Nibbles(q: seq<Byte>): Byte
    requires |q| == 4
  {
    (((q[1] >> 3) & 0x0F) << 4) | ((q[3] >> 3) & 0x0F)
  }

  /** The port state that carries nibble `n` on the data lines, strobe low. */
  function Nibble(mask: Byte, n: Byte): Byte
    requires n < 16
  {
    mask | (n << 3)
  }

  /** The two port states of a value keep `mask`, with or without the strobe
      bit; a strobe bit outside the data lines shows only through `mask`; and
      with `mask` clear on the data lines, the states give the value back. */
  lemma NibbleStates(cs: Byte, mask: Byte, v: Byte)
    ensures var hi := Nibble(mask, v >> 4);
            var lo := Nibble(mask, v & 0x0F);
            && hi & mask == mask && lo & mask == mask
            && (hi | cs) & mask == mask && (lo | cs) & mask == mask
            && (cs & DATA_LINES == 0 ==> hi & cs == mask & cs && lo & cs == mask & cs)
            && (mask & DATA_LINES == 0 ==> (((hi >> 3) & 0x0F) << 4) | ((lo >> 3) & 0x0F) == v)
  {
  }

  /** The port states that clock value `v` into the LCD half selected by the
      strobe bit `cs`: high nibble with the strobe raised, then lowered; low
      nibble the same way. */
  function Out4(cs: Byte, mask: Byte, v: Byte): (q: seq<Byte>)
    ensures |q| == 4
  {
    var hi := Nibble(mask, v >> 4);
    var lo := Nibble(mask, v & 0x0F);
    [hi | cs, hi, lo | cs, lo]
  }

  /** Out4's four states: the strobe is raised in the first and third and
      dropped in the second and fourth, every state keeps `mask`, and the data
      lines carry `v` back (the nibble round trip) when `mask` leaves them
      clear. */
  lemma Out4Spec(cs: Byte, mask: Byte, v: Byte)
    ensures var q := Out4(cs, mask, v);
            && q[0] == q[1] | cs && q[2] == q[3] | cs
            && (cs & DATA_LINES == 0 ==> q[1] & cs == mask & cs && q[3] & cs == mask & cs)
            && (forall j :: 0 <= j < 4 ==> q[j] & mask == mask)
            && (mask & DATA_LINES == 0 ==> Nibbles(q) == v)
  {
    Out4Strobe(cs, mask, v);
    Out4KeepsMask(cs, mask, v);
    Out4RoundTrip(cs, mask, v);
  }

  lemma Out4Strobe(cs: Byte, mask: Byte, v: Byte)
    ensures var q := Out4(cs, mask, v);
            && q[0] == q[1] | cs && q[2] == q[3] | cs
            && (cs & DATA_LINES == 0 ==> q[1] & cs == mask & cs && q[3] & cs == mask & cs)
  {
    NibbleStates(cs, mask, v);
  }

  lemma Out4KeepsMask(cs: Byte, mask: Byte, v: Byte)
    ensures var q := Out4(cs, mask, v);
            forall j :: 0 <= j < 4 ==> q[j] & mask == mask
  {
    NibbleStates(cs, mask, v);
  }

  lemma Out4RoundTrip(cs: Byte, mask: Byte, v: Byte)
    ensures mask & DATA_LINES == 0 ==> Nibbles(Out4(cs, mask, v)) == v
  {
    NibbleStates(cs, mask, v);
  }

  /** The Out4 sequences of all of `vs`, one after the other. */
  function Encode(cs: Byte, mask: Byte, vs: seq<Byte>): (e: seq<Byte>)
    ensures |e| == 4 * |vs|
  {
    if vs == [] then [] else Encode(cs, mask, vs[..|vs| - 1]) + Out4(cs, mask, vs[|vs| - 1])
  }

  /** The four bytes of an encoding at value index `k` are Out4 of that value. */
  lemma {:induction false} EncodeAt(cs: Byte, mask: Byte, vs: seq<Byte>, k: nat)
    requires k < |vs|
    ensures Encode(cs, mask, vs)[4 * k..4 * k + 4] == Out4(cs, mask, vs[k])
    decreases |vs|
  {
    var init := vs[..|vs| - 1];
    var e := Encode(cs, mask, vs);
    assert e == Encode(cs, mask, init) + Out4(cs, mask, vs[|vs| - 1]);
    if k < |vs| - 1 {
      EncodeAt(cs, mask, init, k);
      assert e[4 * k..4 * k + 4] == Encode(cs, mask, init)[4 * k..4 * k + 4];
    } else {
      assert e[4 * k..4 * k + 4] == e[|Encode(cs, mask, init)|..];
    }
  }

  lemma {:induction false} EncodeAppend(cs: Byte, mask: Byte, a: seq<Byte>, b: seq<Byte>)
    ensures Encode(cs, mask, a + b) == Encode(cs, mask, a) + Encode(cs, mask, b)
    decreases |b|
  {
    if b != [] {
      var b' := b[..|b| - 1];
      assert (a + b)[..|a + b| - 1] == a + b';
      EncodeAppend(cs, mask, a, b');
    } else {
      assert a + b == a;
    }
  }

  /** Every byte of an encoding carries `mask`. */
  lemma EncodeCarriesMask(cs: Byte, mask: Byte, vs: seq<Byte>)
    ensures forall x :: x in Encode(cs, mask, vs) ==> x & mask == mask
  {
    var e := Encode(cs, mask, vs);
    forall x | x in e
      ensures x & mask == mask
    {
      var j :| 0 <= j < |e| && e[j] == x;
      var k := j / 4;
      EncodeAt(cs, mask, vs, k);
      assert e[4 * k..4 * k + 4][j - 4 * k] == x;
      Out4Spec(cs, mask, vs[k]);
    }
  }

  /** The concatenation of a sequence of blocks. */
  function Flatten(bs: seq<seq<Byte>>): seq<Byte>
  {
    if bs == [] then [] else Flatten(bs[..|bs| - 1]) + bs[|bs| - 1]
  }

  lemma {:induction false} FlattenAppend(xs: seq<seq<Byte>>, ys: seq<seq<Byte>>)
    ensures Flatten(xs + ys) == Flatten(xs) + Flatten(ys)
    decreases |ys|
  {
    if ys != [] {
      assert (xs + ys)[..|xs + ys| - 1] == xs + ys[..|ys| - 1];
      FlattenAppend(xs, ys[..|ys| - 1]);
    } else {
      assert xs + ys == xs;
    }
  }

  /** The full 32-byte blocks that the values `w` fill, eight values each. */
  function FullBlocks(cs: Byte, mask: Byte, w: seq<Byte>): (bs: seq<seq<Byte>>)
    ensures |bs| == |w| / VALUES_PER_BLOCK
  {
    seq(|w| / 8, k requires 0 <= k < |w| / 8 => Encode(cs, mask, w[8 * k..8 * k + 8]))
  }

  /** Every full block holds 32 bytes. */
  lemma FullBlocksSize(cs: Byte, mask: Byte, w: seq<Byte>)
    ensures forall k :: 0 <= k < |FullBlocks(cs, mask, w)| ==> |FullBlocks(cs, mask, w)[k]| == BLOCK_SIZE
  {
  }

  /** The values of `w` after its last full group of eight. */
  function Leftover(w: seq<Byte>): (r: seq<Byte>)
    ensures |r| == |w| % VALUES_PER_BLOCK && |r| < VALUES_PER_BLOCK
  {
    w[8 * (|w| / 8)..]
  }

  /** The values before the open group and the open group make up `w`. */
  lemma LeftoverSplit(w: seq<Byte>)
    ensures w == w[..|w| - |Leftover(w)|] + Leftover(w)
  {
  }

  /** The blocks that hold the encodings of `w`: the full blocks and, when
      values are left over, one shorter block. */
  function AllBlocks(cs: Byte, mask: Byte, w: seq<Byte>): seq<seq<Byte>>
  {
    FullBlocks(cs, mask, w) + if Leftover(w) == [] then [] else [Encode(cs, mask, Leftover(w))]
  }

  /** How the blocks change when one more value arrives: an eighth value in
      the open group closes a block. */
  lemma StepBlocks(cs: Byte, mask: Byte, w: seq<Byte>, v: Byte)
    ensures Leftover(w + [v]) == if |w| % 8 == 7 then [] else Leftover(w) + [v]
    ensures FullBlocks(cs, mask, w + [v]) ==
      if |w| % 8 == 7 then FullBlocks(cs, mask, w) + [Encode(cs, mask, Leftover(w) + [v])]
      else FullBlocks(cs, mask, w)
    ensures AllBlocks(cs, mask, w + [v]) == FullBlocks(cs, mask, w) + [Encode(cs, mask, Leftover(w) + [v])]
  {
    LeftoverSnoc(w, v);
    FullBlocksSnoc(cs, mask, w, v);
  }

  lemma LeftoverSnoc(w: seq<Byte>, v: Byte)
    ensures Leftover(w + [v]) == if |w| % 8 == 7 then [] else Leftover(w) + [v]
  {
    var w' := w + [v];
    if |w| % 8 != 7 {
      assert |w'| / 8 == |w| / 8;
    }
  }

  lemma FullBlocksSnoc(cs: Byte, mask: Byte, w: seq<Byte>, v: Byte)
    ensures FullBlocks(cs, mask, w + [v]) ==
      if |w| % 8 == 7 then FullBlocks(cs, mask, w) + [Encode(cs, mask, Leftover(w) + [v])]
      else FullBlocks(cs, mask, w)
  {
    var w' := w + [v];
    var m := |w| / 8;
    var old_ := FullBlocks(cs, mask, w);
    var new_ := FullBlocks(cs, mask, w');
    forall k | 0 <= k < m
      ensures new_[k] == old_[k]
    {
      assert w'[8 * k..8 * k + 8] == w[8 * k..8 * k + 8];
    }
    if |w| % 8 == 7 {
      assert |w'| / 8 == m + 1;
      assert w'[8 * m..8 * m + 8] == Leftover(w) + [v];
      assert new_ == old_ + [Encode(cs, mask, Leftover(w) + [v])];
    } else {
      assert |w'| / 8 == m;
      assert new_ == old_;
    }
  }

  /** Flushed blocks and the open group together encode every value seen. */
  lemma {:induction false} BlocksCoverEncoding(cs: Byte, mask: Byte, w: seq<Byte>)
    ensures Flatten(FullBlocks(cs, mask, w)) + Encode(cs, mask, Leftover(w)) == Encode(cs, mask, w)
    decreases |w|
  {
    if w == [] {
      assert Leftover(w) == [];
    } else {
      var w0 := w[..|w| - 1];
      assert w == w0 + [w[|w| - 1]];
      BlocksCoverEncoding(cs, mask, w0);
      CoverSnoc(cs, mask, w0, w[|w| - 1]);
    }
  }

  lemma CoverSnoc(cs: Byte, mask: Byte, w0: seq<Byte>, v: Byte)
    requires Flatten(FullBlocks(cs, mask, w0)) + Encode(cs, mask, Leftover(w0)) == Encode(cs, mask, w0)
    ensures Flatten(FullBlocks(cs, mask, w0 + [v])) + Encode(cs, mask, Leftover(w0 + [v])) == Encode(cs, mask, w0 + [v])
  {
    var f0 := FullBlocks(cs, mask, w0);
    var l0 := Leftover(w0);
    var ev := Encode(cs, mask, [v]);
    StepBlocks(cs, mask, w0, v);
    EncodeAppend(cs, mask, l0, [v]);
    EncodeAppend(cs, mask, w0, [v]);
    if |w0| % 8 == 7 {
      CloseGroup(f0, Encode(cs, mask, l0), ev, Encode(cs, mask, w0));
    } else {
      Assoc(Flatten(f0), Encode(cs, mask, l0), ev);
    }
  }

  lemma FlattenSnoc(bs: seq<seq<Byte>>, b: seq<Byte>)
    ensures Flatten(bs + [b]) == Flatten(bs) + b
  {
    assert (bs + [b])[..|bs|] == bs;
  }

  /** Closing the open group into a block keeps the flattened total. */
  lemma CloseGroup(f0: seq<seq<Byte>>, open: seq<Byte>, next: seq<Byte>, total: seq<Byte>)
    requires Flatten(f0) + open == total
    ensures Flatten(f0 + [open + next]) + [] == total + next
  {
    FlattenSnoc(f0, open + next);
    Assoc(Flatten(f0), open, next);
  }

  /** What the list form of write_lcd emits: the blocks concatenate to the
      encodings of all values, in order, every block but the last holds 32
      bytes, the last is non-empty, and there are ceil(n / 8) of them. */
  lemma AllBlocksSpec(cs: Byte, mask: Byte, w: seq<Byte>)
    ensures Flatten(AllBlocks(cs, mask, w)) == Encode(cs, mask, w)
    ensures |AllBlocks(cs, mask, w)| == (|w| + 7) / 8
    ensures forall k :: 0 <= k < |AllBlocks(cs, mask, w)| - 1 ==> |AllBlocks(cs, mask, w)[k]| == BLOCK_SIZE
    ensures forall k :: 0 <= k < |AllBlocks(cs, mask, w)| ==> 0 < |AllBlocks(cs, mask, w)[k]| <= BLOCK_SIZE
  {
    AllBlocksFlatten(cs, mask, w);
    AllBlocksSizes(cs, mask, w);
  }

  lemma AllBlocksFlatten(cs: Byte, mask: Byte, w: seq<Byte>)
    ensures Flatten(AllBlocks(cs, mask, w)) == Encode(cs, mask, w)
  {
    if Leftover(w) == [] {
      FlattenWhole(cs, mask, w);
    } else {
      FlattenWithRest(cs, mask, w);
    }
  }

  lemma FlattenWhole(cs: Byte, mask: Byte, w: seq<Byte>)
    requires Leftover(w) == []
    ensures Flatten(AllBlocks(cs, mask, w)) == Encode(cs, mask, w)
  {
    BlocksCoverEncoding(cs, mask, w);
    var full := FullBlocks(cs, mask, w);
    assert AllBlocks(cs, mask, w) == full;
    assert Encode(cs, mask, []) == [];
    assert Flatten(full) + [] == Flatten(full);
  }

  lemma FlattenWithRest(cs: Byte, mask: Byte, w: seq<Byte>)
    requires Leftover(w) != []
    ensures Flatten(AllBlocks(cs, mask, w)) == Encode(cs, mask, w)
  {
    BlocksCoverEncoding(cs, mask, w);
    var full := FullBlocks(cs, mask, w);
    var b := Encode(cs, mask, Leftover(w));
    assert AllBlocks(cs, mask, w) == full + [b];
    FlattenSnoc(full, b);
  }

  lemma AllBlocksSizes(cs: Byte, mask: Byte, w: seq<Byte>)
    ensures |AllBlocks(cs, mask, w)| == (|w| + 7) / 8
    ensures forall k :: 0 <= k < |AllBlocks(cs, mask, w)| - 1 ==> |AllBlocks(cs, mask, w)[k]| == BLOCK_SIZE
    ensures forall k :: 0 <= k < |AllBlocks(cs, mask, w)| ==> 0 < |AllBlocks(cs, mask, w)[k]| <= BLOCK_SIZE
  {
    var full := FullBlocks(cs, mask, w);
    var lo := Leftover(w);
    FullBlocksSize(cs, mask, w);
    if lo == [] {
      assert AllBlocks(cs, mask, w) == full + [];
    } else {
      var b := Encode(cs, mask, lo);
      assert AllBlocks(cs, mask, w) == full + [b];
      assert 0 < |b| < BLOCK_SIZE;
    }
  }

  /** The index of the last value that forces a flush when write_lcd is given
      text: the last character, or index `cols` when the text is longer. */
  function TextLast(n: nat, cols: int): (last: int)
    ensures last <= n - 1
    ensures n <= cols + 1 ==> last == n - 1
    ensures n > cols + 1 ==> last == cols
  {
    var last := n - 1;
    if last > cols then cols else last
  }

  /** The blocks write_lcd's loop emits for values `vs` when the forced flush
      falls on index `last`: every group up to and including index `last`,
      then only the groups after it that fill a whole block. */
  function LoopBlocks(cs: Byte, mask: Byte, vs: seq<Byte>, last: int): seq<seq<Byte>>
    requires last < |vs|
  {
    if last < 0 then FullBlocks(cs, mask, vs)
    else AllBlocks(cs, mask, vs[..last + 1]) + FullBlocks(cs, mask, vs[last + 1..])
  }

  /** With the forced flush on the last value, the loop emits AllBlocks. */
  lemma LoopBlocksToEnd(cs: Byte, mask: Byte, vs: seq<Byte>)
    ensures LoopBlocks(cs, mask, vs, |vs| - 1) == AllBlocks(cs, mask, vs)
  {
    if vs == [] {
      assert AllBlocks(cs, mask, vs) == [];
    } else {
      assert vs[..|vs|] == vs;
      assert FullBlocks(cs, mask, vs[|vs|..]) == [];
    }
  }

  /** The full blocks alone encode the values before the open group. */
  lemma FullBlocksFlatten(cs: Byte, mask: Byte, w: seq<Byte>)
    ensures Flatten(FullBlocks(cs, mask, w)) == Encode(cs, mask, w[..|w| - |w| % 8])
  {
    var lo := Leftover(w);
    var p := w[..|w| - |lo|];
    LeftoverSplit(w);
    BlocksCoverEncoding(cs, mask, w);
    EncodeAppend(cs, mask, p, lo);
    CancelRight(Flatten(FullBlocks(cs, mask, w)), Encode(cs, mask, p), Encode(cs, mask, lo));
  }

  lemma CancelRight<T>(a: seq<T>, b: seq<T>, c: seq<T>)
    requires a + c == b + c
    ensures a == b
  {
    assert |a| == |b|;
    assert a == (a + c)[..|a|];
    assert b == (b + c)[..|b|];
  }

  /** What the text form of write_lcd emits for a text longer than
      `cols + 1`: exactly the encodings of a prefix of the text, the one that
      leaves out the trailing partial group after the forced flush at index
      `cols`, so that those characters are never written. */
  lemma TextOverflowDropsTail(cs: Byte, mask: Byte, vs: seq<Byte>, cols: int)
    requires |vs| > cols + 1
    ensures Flatten(LoopBlocks(cs, mask, vs, TextLast(|vs|, cols))) == Encode(cs, mask, vs[..Kept(|vs|, cols)])
  {
    if cols < 0 {
      OverflowWithoutFlush(cs, mask, vs, cols);
    } else {
      OverflowAfterFlush(cs, mask, vs, cols);
    }
  }

  /** How many leading values of an `n`-character text write_lcd writes
      when `n > cols + 1`: all of them but the partial group after the
      forced flush at index `cols` (after no flush when `cols` is negative). */
  function Kept(n: nat, cols: int): (kept: nat)
    requires n > cols + 1
    ensures n - 8 < kept <= n
    ensures cols >= 0 ==> cols + 1 <= kept
  {
    var start := if cols < 0 then 0 else cols + 1;
    n - (n - start) % 8
  }

  lemma OverflowWithoutFlush(cs: Byte, mask: Byte, vs: seq<Byte>, cols: int)
    requires cols < 0 && |vs| > cols + 1
    ensures Flatten(LoopBlocks(cs, mask, vs, TextLast(|vs|, cols))) == Encode(cs, mask, vs[..Kept(|vs|, cols)])
  {
    assert LoopBlocks(cs, mask, vs, TextLast(|vs|, cols)) == FullBlocks(cs, mask, vs);
    assert Kept(|vs|, cols) == |vs| - |vs| % 8;
    FullBlocksFlatten(cs, mask, vs);
  }

  lemma OverflowAfterFlush(cs: Byte, mask: Byte, vs: seq<Byte>, cols: int)
    requires 0 <= cols && |vs| > cols + 1
    ensures Flatten(LoopBlocks(cs, mask, vs, TextLast(|vs|, cols))) == Encode(cs, mask, vs[..Kept(|vs|, cols)])
  {
    var head := vs[..cols + 1];
    var tail := vs[cols + 1..];
    var kept := Kept(|vs|, cols);
    var body := tail[..|tail| - |tail| % 8];
    var all := AllBlocks(cs, mask, head);
    var full := FullBlocks(cs, mask, tail);
    calc {
      Flatten(LoopBlocks(cs, mask, vs, TextLast(|vs|, cols)));
      { assert TextLast(|vs|, cols) == cols; }
      Flatten(LoopBlocks(cs, mask, vs, cols));
      Flatten(all + full);
      { FlattenAppend(all, full); }
      Flatten(all) + Flatten(full);
      { AllBlocksFlatten(cs, mask, head); FullBlocksFlatten(cs, mask, tail); }
      Encode(cs, mask, head) + Encode(cs, mask, body);
      { EncodeAppend(cs, mask, head, body); }
      Encode(cs, mask, head + body);
      { PrefixSplit(vs, cols + 1, kept); }
      Encode(cs, mask, vs[..kept]);
    }
  }

  lemma PrefixSplit<T>(s: seq<T>, i: nat, j: nat)
    requires i <= j <= |s|
    ensures s[..j] == s[..i] + s[i..][..j - i]
  {
  }

  /** Every block the loop of write_lcd emits is non-empty and at most 32
      bytes. */
  lemma LoopBlocksBounded(cs: Byte, mask: Byte, vs: seq<Byte>, last: int)
    requires last < |vs|
    ensures forall b :: b in LoopBlocks(cs, mask, vs, last) ==> 0 < |b| <= BLOCK_SIZE
  {
    if last < 0 {
      FullBlocksBounded(cs, mask, vs);
    } else {
      var all := AllBlocks(cs, mask, vs[..last + 1]);
      var full := FullBlocks(cs, mask, vs[last + 1..]);
      assert LoopBlocks(cs, mask, vs, last) == all + full;
      AllBlocksSizes(cs, mask, vs[..last + 1]);
      forall b | b in all
        ensures 0 < |b| <= BLOCK_SIZE
      {
        var k :| 0 <= k < |all| && all[k] == b;
      }
      FullBlocksBounded(cs, mask, vs[last + 1..]);
    }
  }

  lemma FullBlocksBounded(cs: Byte, mask: Byte, w: seq<Byte>)
    ensures forall b :: b in FullBlocks(cs, mask, w) ==> |b| == BLOCK_SIZE
  {
    var full := FullBlocks(cs, mask, w);
    FullBlocksSize(cs, mask, w);
    forall b | b in full
      ensures |b| == BLOCK_SIZE
    {
      var k :| 0 <= k < |full| && full[k] == b;
    }
  }

  /** Every byte of every block the loop of write_lcd emits carries `mask`. */
  lemma LoopBlocksCarryMask(cs: Byte, mask: Byte, vs: seq<Byte>, last: int)
    requires last < |vs|
    ensures forall b :: b in LoopBlocks(cs, mask, vs, last) ==> forall x :: x in b ==> x & mask == mask
  {
    if last < 0 {
      FullBlocksCarryMask(cs, mask, vs);
    } else {
      AllBlocksCarryMask(cs, mask, vs[..last + 1]);
      FullBlocksCarryMask(cs, mask, vs[last + 1..]);
    }
  }

  lemma FullBlocksCarryMask(cs: Byte, mask: Byte, w: seq<Byte>)
    ensures forall b :: b in FullBlocks(cs, mask, w) ==> forall x :: x in b ==> x & mask == mask
  {
    var bs := FullBlocks(cs, mask, w);
    forall b | b in bs
      ensures forall x :: x in b ==> x & mask == mask
    {
      var k :| 0 <= k < |bs| && bs[k] == b;
      EncodeCarriesMask(cs, mask, w[8 * k..8 * k + 8]);
    }
  }

  lemma AllBlocksCarryMask(cs: Byte, mask: Byte, w: seq<Byte>)
    ensures forall b :: b in AllBlocks(cs, mask, w) ==> forall x :: x in b ==> x & mask == mask
  {
    FullBlocksCarryMask(cs, mask, w);
    EncodeCarriesMask(cs, mask, Leftover(w));
  }

  /** Whether write_lcd sleeps after this call: a clear or return-home
      command, given as a single byte in command mode. */
  predicate IsSlow(value: Value, charMode: bool)
  {
    !charMode && value.Single? && (value.b == CLEARDISPLAY || value.b == RETURNHOME)
  }

  /** The three forms of value write_lcd accepts. */
  datatype Value =
    | Single(b: Byte)          // an int: one command or character
    | Bytes(items: seq<Byte>)  // a list of ints
    | Text(chars: seq<Byte>)   // a str, as its character codes

  /** The bitmask write_lcd puts under every nibble: the backlight bits, and
      the register-select bit in character mode. */
  function Bitmask(led: Byte, charMode: bool): (m: Byte)
    ensures m & !DATA_RS == led & !DATA_RS
    ensures charMode ==> m & DATA_RS == DATA_RS
    ensures !charMode ==> m == led
  {
    if charMode then led | DATA_RS else led
  }

  /** The blocks write_lcd sends to the GPIO register for `value`. */
  function PayloadBlocks(cs: Byte, mask: Byte, value: Value, cols: int): seq<seq<Byte>>
  {
    match value
    case Single(b) => [Out4(cs, mask, b)]
    case Bytes(vs) => LoopBlocks(cs, mask, vs, |vs| - 1)
    case Text(vs) => LoopBlocks(cs, mask, vs, TextLast(|vs|, cols))
  }

  /** One block write to GPIO per block, in order. */
  function GpioWrites(bs: seq<seq<Byte>>): (evs: seq<Event>)
    ensures |evs| == |bs|
  {
    if bs == [] then [] else GpioWrites(bs[..|bs| - 1]) + [WriteRegisters(GPIO, bs[|bs| - 1])]
  }

  /** The k-th write is the k-th block, to GPIO. */
  lemma {:induction false} GpioWritesAt(bs: seq<seq<Byte>>)
    ensures forall k :: 0 <= k < |bs| ==> GpioWrites(bs)[k] == WriteRegisters(GPIO, bs[k])
  {
    if bs != [] {
      GpioWritesAt(bs[..|bs| - 1]);
    }
  }

  /** Everything one call of write_lcd(cs, value, charMode) sends, given the
      driver's backlight bits and column count. */
  function WriteLcdEvents(cs: Byte, value: Value, charMode: bool, led: Byte, cols: int): (evs: seq<Event>)
  {
    [WriteRegister(IOCON, 0x20)]
    + GpioWrites(PayloadBlocks(cs, Bitmask(led, charMode), value, cols))
    + [WriteRegister(IOCON, 0)]
    + if IsSlow(value, charMode) then [Sleep(15000)] else []
  }

  /** The shape of every write_lcd call: the sequential-mode bit is set
      first and cleared last (a sleep may follow for clear and home), and
      every write in between is a block write to GPIO of at most 32 bytes
      whose every byte carries the backlight bits, and the register-select
      bit in character mode. */
  lemma WriteLcdShape(cs: Byte, value: Value, charMode: bool, led: Byte, cols: int)
    ensures var evs := WriteLcdEvents(cs, value, charMode, led, cols);
            var n := |evs| - if IsSlow(value, charMode) then 1 else 0;
            && 2 <= n
            && evs[0] == WriteRegister(IOCON, 0x20)
            && evs[n - 1] == WriteRegister(IOCON, 0)
            && (IsSlow(value, charMode) ==> evs[n] == Sleep(15000))
            && forall j :: 0 < j < n - 1 ==>
                 && evs[j].WriteRegisters? && evs[j].start == GPIO
                 && 0 < |evs[j].data| <= BLOCK_SIZE
                 && forall x :: x in evs[j].data ==> x & Bitmask(led, charMode) == Bitmask(led, charMode)
  {
    var mask := Bitmask(led, charMode);
    var bs := PayloadBlocks(cs, mask, value, cols);
    var gw := GpioWrites(bs);
    var tail: seq<Event> := if IsSlow(value, charMode) then [Sleep(15000)] else [];
    Framed(WriteRegister(IOCON, 0x20), gw, WriteRegister(IOCON, 0), tail);
    PayloadBlocksWellFormed(cs, mask, value, cols);
    GpioWritesAt(bs);
    var evs := WriteLcdEvents(cs, value, charMode, led, cols);
    forall j | 0 < j < 1 + |bs|
      ensures && evs[j].WriteRegisters? && evs[j].start == GPIO
              && 0 < |evs[j].data| <= BLOCK_SIZE
              && forall x :: x in evs[j].data ==> x & mask == mask
    {
      assert evs[j] == WriteRegisters(GPIO, bs[j - 1]);
      assert bs[j - 1] in bs;
    }
  }

  /** Where the parts of a framed sequence sit. */
  lemma Framed<T>(a: T, mid: seq<T>, z: T, tail: seq<T>)
    ensures var s := [a] + mid + [z] + tail;
            && |s| == |mid| + 2 + |tail|
            && s[0] == a && s[|mid| + 1] == z
            && (forall j :: 0 < j < |mid| + 1 ==> s[j] == mid[j - 1])
            && (forall j :: 0 <= j < |tail| ==> s[|mid| + 2 + j] == tail[j])
  {
  }

  /** Every block write_lcd sends for a value is non-empty, at most 32 bytes,
      and carries the bitmask in every byte. */
  lemma PayloadBlocksWellFormed(cs: Byte, mask: Byte, value: Value, cols: int)
    ensures forall b :: b in PayloadBlocks(cs, mask, value, cols) ==>
              0 < |b| <= BLOCK_SIZE && forall x :: x in b ==> x & mask == mask
  {
    match value {
      case Single(v) =>
        SingleBlockWellFormed(cs, mask, v);
      case Bytes(vs) =>
        LoopBlocksWellFormed(cs, mask, vs, |vs| - 1);
      case Text(vs) =>
        LoopBlocksWellFormed(cs, mask, vs, TextLast(|vs|, cols));
    }
  }

  lemma SingleBlockWellFormed(cs: Byte, mask: Byte, v: Byte)
    ensures forall b :: b in [Out4(cs, mask, v)] ==>
              0 < |b| <= BLOCK_SIZE && forall x :: x in b ==> x & mask == mask
  {
    var q := Out4(cs, mask, v);
    Out4KeepsMask(cs, mask, v);
    forall x | x in q
      ensures x & mask == mask
    {
      var j :| 0 <= j < 4 && q[j] == x;
    }
  }

  lemma LoopBlocksWellFormed(cs: Byte, mask: Byte, vs: seq<Byte>, last: int)
    requires last < |vs|
    ensures forall b :: b in LoopBlocks(cs, mask, vs, last) ==>
              0 < |b| <= BLOCK_SIZE && forall x :: x in b ==> x & mask == mask
  {
    LoopBlocksBounded(cs, mask, vs, last);
    LoopBlocksCarryMask(cs, mask, vs, last);
  }
}
