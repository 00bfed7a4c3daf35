/** StringArena (src/StringArena.cpp): a bump allocator that copies key
    tokens into large character blocks. Each copy is NUL-terminated and the
    cursor advances by the copy's length rounded up to the alignment grain.
    A fresh block is taken when the current one runs out, and the block size
    grows by an integer factor until it reaches a limit. Blocks are never
    released before clear, so every view handed out stays readable. */
module StringArenaModel {
  import opened Wrappers

  /** 2 to the power n. */
  function Pow2(n: nat): (r: nat)
    ensures r >= 1
  {
    if n == 0 then 1 else 2 * Pow2(n - 1)
  }

  /** alignSize: ((size >> align) + 1) << align, on unbounded integers. */
  function AlignSize(size: nat, align: nat): nat
  {
    (size / Pow2(align) + 1) * Pow2(align)
  }

  /** The aligned size is a whole number of grains, strictly above size and
      at most one grain above it. */
  lemma AlignSizeBounds(size: nat, align: nat)
    ensures AlignSize(size, align) % Pow2(align) == 0
    ensures size < AlignSize(size, align) <= size + Pow2(align)
  {
    var g := Pow2(align);
    var q := size / g;
    assert size == q * g + size % g;
    assert AlignSize(size, align) == (q + 1) * g == q * g + g;
    MultipleMod(q + 1, g);
  }

  lemma MultipleMod(k: nat, g: nat)
    requires g > 0
    ensures (k * g) % g == 0
  {
    var x := k * g;
    var q := x / g;
    var r := x % g;
    assert (k - q) * g == r by {
      assert x == q * g + r;
    }
    if k - q >= 1 {
      assert false;
    } else if k - q <= -1 {
      assert false;
    }
  }

  /** getAlignBit: the shift for an alignment in bytes. Byte alignment maps to
      shift 1, a two-byte grain. Any other value is refused (the source throws
      logic_error). */
  function GetAlignBit(alignBytes: nat): Option<nat>
  {
    match alignBytes
    case 1 => Some(1)
    case 4 => Some(2)
    case 8 => Some(3)
    case 16 => Some(4)
    case 32 => Some(5)
    case 64 => Some(6)
    case 128 => Some(7)
    case _ => None
  }

  /** Exactly the seven listed alignments are accepted; above one byte the
      grain is the alignment itself, for one byte it is two. */
  lemma GetAlignBitAccepts(alignBytes: nat)
    ensures GetAlignBit(alignBytes).Some? <==> alignBytes in {1, 4, 8, 16, 32, 64, 128}
    ensures GetAlignBit(alignBytes).Some? && alignBytes > 1 ==> Pow2(GetAlignBit(alignBytes).value) == alignBytes
    ensures GetAlignBit(alignBytes).Some? ==> 1 <= GetAlignBit(alignBytes).value <= 7
    ensures alignBytes == 1 ==> Pow2(GetAlignBit(alignBytes).value) == 2
  {
    if alignBytes in {1, 4, 8, 16, 32, 64, 128} {
      assert Pow2(1) == 2;
      assert Pow2(2) == 4;
      assert Pow2(3) == 8;
      assert Pow2(4) == 16;
      assert Pow2(5) == 32;
      assert Pow2(6) == 64;
      assert Pow2(7) == 128;
    }
  }

  /** std::numeric_limits<int>::max(). */
  const IntMax: nat := 0x7FFF_FFFF

  /** Why construction fails. */
  datatype ArenaError = UnsupportedAlignment | LimitTooLarge

  /** A std::string_view into a block: block number, offset and length. */
  datatype View = View(block: nat, offset: nat, len: nat)

  /** The characters of v in the blocks, when v lies inside them. */
  function Read(blocks: seq<seq<char>>, v: View): Option<string>
  {
    if v.block < |blocks| && v.offset + v.len <= |blocks[v.block]|
    then Some(blocks[v.block][v.offset..v.offset + v.len])
    else None
  }

  /** b with w written at position at. */
  function Write(b: seq<char>, at: nat, w: seq<char>): (r: seq<char>)
    requires at + |w| <= |b|
    ensures |r| == |b|
    ensures r[at..at + |w|] == w
    ensures forall k :: 0 <= k < |b| && !(at <= k < at + |w|) ==> r[k] == b[k]
  {
    b[..at] + w + b[at + |w|..]
  }

  /** Writing at or after the end of a slice leaves the slice as it was. */
  lemma WriteKeepsBefore(b: seq<char>, at: nat, w: seq<char>, lo: nat, hi: nat)
    requires at + |w| <= |b|
    requires lo <= hi <= at
    ensures Write(b, at, w)[lo..hi] == b[lo..hi]
  {
    var r := Write(b, at, w);
    assert forall k :: lo <= k < hi ==> r[lo..hi][k - lo] == r[k] == b[k] == b[lo..hi][k - lo];
  }

  /** The block taken by allocate(size): at least size and at least the
      grown block size. */
  function BlockSize(size: nat, bufferSize: nat, factor: nat): (r: nat)
    ensures r >= size && r >= bufferSize * factor
  {
    if size >= bufferSize * factor then size else bufferSize * factor
  }

  /** allocate(string_view) as the source writes it, on the numbers only:
      the state is the current block's length, the cursor within it and
      sizeLeft_ (an int64). The comparison len >= sizeLeft_ converts
      sizeLeft_ to size_t, so a negative sizeLeft_ compares as a huge value.
      Returns where the copy of len characters and its NUL goes and the new
      state. */
  datatype RawState = RawState(blockLen: nat, cursor: nat, sizeLeft: int)

  function ToSizeT(x: int): nat
  {
    x % 0x1_0000_0000_0000_0000
  }

  function RawAllocate(st: RawState, len: nat, align: nat, bufferSize: nat, factor: nat): (RawState, nat)
  {
    var st' :=
      if len >= ToSizeT(st.sizeLeft) then
        var b := BlockSize(len + 1, bufferSize, factor);
        RawState(b, 0, b)
      else st;
    var aligned := AlignSize(len + 1, align);
    (RawState(st'.blockLen, st'.cursor + aligned, st'.sizeLeft - aligned), st'.cursor)
  }

  /** With 32-byte alignment and a fresh 2048-byte block, a 2047-character
      token fills the block (2048 bytes with its NUL) but the cursor advances
      by 2080, leaving sizeLeft_ at -32. The next token, of 10 characters,
      compares 10 >= 2^64 - 32, keeps the exhausted block and is copied at
      offset 2080, past the block's end. */
  lemma RawAllocateOverflows()
    ensures var (st1, at1) := RawAllocate(RawState(2048, 0, 2048), 2047, 5, 1024, 2);
            at1 + 2048 <= 2048 && st1.sizeLeft == -32
    ensures var (st1, _) := RawAllocate(RawState(2048, 0, 2048), 2047, 5, 1024, 2);
            var (_, at2) := RawAllocate(st1, 10, 5, 1024, 2);
            at2 + 11 > st1.blockLen
  {
    assert Pow2(5) == 32;
    assert AlignSize(2048, 5) == 2080;
    assert AlignSize(11, 5) == 32;
  }

  /** The arena with the corrected test: a new block is taken when the
      aligned copy does not fit in what is left, and that block is large
      enough for it. */
  class StringArena {
    /** The contents of every block allocated so far; the last is current. */
    var blocks: seq<seq<char>>
    /** buffer_, as an offset into the current block. */
    var cursor: nat
    /** sizeLeft_: bytes left in the current block after the cursor. */
    var sizeLeft: int
    /** bufferSize_: the size the next block grows from. */
    var bufferSize: nat
    /** factor_, modelled as an integer growth factor. */
    const factor: nat
    /** limitSize_: bufferSize_ only grows while below it. */
    const limitSize: nat
    /** align_: the shift giving the alignment grain. */
    const align: nat
    /** Every view handed out since the last clear, with its contents. */
    ghost var issued: seq<(View, string)>

    ghost predicate Valid()
      reads this
    {
      && sizeLeft >= 0
      && (|blocks| == 0 ==> cursor == 0 && sizeLeft == 0)
      && (|blocks| > 0 ==> cursor + sizeLeft == |blocks[|blocks| - 1]|)
      && (forall j :: 0 <= j < |issued| ==> Holds(issued[j]))
    }

    /** An issued view still reads its contents and lies before the cursor. */
    ghost predicate Holds(p: (View, string))
      reads this
    {
      && Read(blocks, p.0) == Some(p.1)
      && (p.0.block + 1 == |blocks| ==> p.0.offset + p.0.len <= cursor)
    }

    /** The arena after the constructor's checks have passed; it takes the
        first block at once. */
    constructor Init(alignBit: nat, bufferSize0: nat, factor0: nat, limit: nat)
      ensures Valid()
      ensures align == alignBit && factor == factor0 && limitSize == limit
      ensures |blocks| == 1 && |blocks[0]| == BlockSize(bufferSize0, bufferSize0, factor0)
      ensures cursor == 0 && sizeLeft == |blocks[0]| && issued == []
      ensures bufferSize == if |blocks[0]| < limit then |blocks[0]| else bufferSize0
    {
      align := alignBit;
      factor := factor0;
      limitSize := limit;
      bufferSize := bufferSize0;
      blocks := [];
      cursor := 0;
      sizeLeft := 0;
      issued := [];
      new;
      AllocateBlock(bufferSize0);
    }

    /** allocate(size): takes a block of max(size, bufferSize_ * factor_)
        bytes and makes it current; earlier blocks are kept. */
    method AllocateBlock(size: nat)
      requires Valid()
      modifies this
      ensures Valid()
      ensures var sz := BlockSize(size, old(bufferSize), factor);
        && |blocks| == |old(blocks)| + 1 && blocks[..|old(blocks)|] == old(blocks)
        && |blocks[|blocks| - 1]| == sz
        && cursor == 0 && sizeLeft == sz
        && bufferSize == (if sz < limitSize then sz else old(bufferSize))
      ensures issued == old(issued)
    {
      var sz := BlockSize(size, bufferSize, factor);
      if sz < limitSize {
        bufferSize := sz;
      }
      ghost var before := blocks;
      blocks := blocks + [seq(sz, _ => '\0')];
      cursor := 0;
      sizeLeft := sz;
      forall j | 0 <= j < |issued|
        ensures Holds(issued[j])
      {
        var v := issued[j].0;
        assert old(Holds(issued[j]));
        assert v.block < |before| && blocks[v.block] == before[v.block];
      }
    }

    /** allocate(string_view): copies val and a NUL into the current block,
        or into a new one when the aligned copy does not fit, and returns a
        view of the copy. Views handed out earlier keep their contents. */
    method Allocate(val: string) returns (r: View)
      requires Valid()
      modifies this
      ensures Valid()
      ensures Read(blocks, r) == Some(val) && r.len == |val|
      ensures issued == old(issued) + [(r, val)]
      ensures var aligned := AlignSize(|val| + 1, align);
        if aligned <= old(sizeLeft) then
          && |blocks| == |old(blocks)| && blocks[..|blocks| - 1] == old(blocks)[..|blocks| - 1]
          && cursor == old(cursor) + aligned && sizeLeft == old(sizeLeft) - aligned
          && bufferSize == old(bufferSize)
        else
          && |blocks| == |old(blocks)| + 1 && blocks[..|old(blocks)|] == old(blocks)
          && var sz := BlockSize(aligned, old(bufferSize), factor);
             |blocks[|blocks| - 1]| == sz && cursor == aligned && sizeLeft == sz - aligned
             && bufferSize == (if sz < limitSize then sz else old(bufferSize))
    {
      var aligned := AlignSize(|val| + 1, align);
      AlignSizeBounds(|val| + 1, align);
      if aligned > sizeLeft {
        // allocate a new block large enough for the aligned copy
        AllocateBlock(aligned);
      }
      r := CopyIn(val, aligned);
    }

    /** The copy of allocate(string_view) once the aligned size fits in the
        current block: val and its NUL go at the cursor, which moves on by
        the aligned size. */
    method CopyIn(val: string, aligned: nat) returns (r: View)
      requires Valid() && |blocks| > 0 && |val| + 1 <= aligned <= sizeLeft
      modifies this
      ensures Valid()
      ensures Read(blocks, r) == Some(val) && r.len == |val|
      ensures issued == old(issued) + [(r, val)]
      ensures |blocks| == |old(blocks)| && blocks[..|blocks| - 1] == old(blocks)[..|blocks| - 1]
      ensures |blocks[|blocks| - 1]| == old(|blocks[|blocks| - 1]|)
      ensures cursor == old(cursor) + aligned && sizeLeft == old(sizeLeft) - aligned
      ensures bufferSize == old(bufferSize)
    {
      var last := |blocks| - 1;
      ghost var before := blocks;
      var w := val + ['\0'];
      blocks := blocks[last := Write(blocks[last], cursor, w)];
      r := View(last, cursor, |val|);
      assert blocks[last][cursor..cursor + |val|] == w[..|val|] == val;
      forall j | 0 <= j < |issued|
        ensures Read(blocks, issued[j].0) == Some(issued[j].1)
      {
        var v := issued[j].0;
        assert Read(before, v) == Some(issued[j].1);
        if v.block == last {
          WriteKeepsBefore(before[last], cursor, w, v.offset, v.offset + v.len);
        }
      }
      cursor := cursor + aligned;
      sizeLeft := sizeLeft - aligned;
      issued := issued + [(r, val)];
    }

    /** clear: drops every block; the cursor is null and nothing is left. */
    method Clear()
      modifies this
      ensures Valid()
      ensures blocks == [] && cursor == 0 && sizeLeft == 0 && issued == []
      ensures bufferSize == old(bufferSize)
    {
      blocks := [];
      cursor := 0;
      sizeLeft := 0;
      issued := [];
    }
  }

  /** The constructor: the alignment is checked first (in the member
      initialisers), then the limit, which must not exceed INT_MAX; on
      success the first block is taken. */
  method NewStringArena(alignBytes: nat, bufferSize: nat, factor: nat, limit: nat)
    returns (r: Result<StringArena, ArenaError>)
    ensures GetAlignBit(alignBytes).None? <==> r == Err(UnsupportedAlignment)
    ensures GetAlignBit(alignBytes).Some? && limit > IntMax <==> r == Err(LimitTooLarge)
    ensures r.Ok? ==>
      && fresh(r.value) && r.value.Valid() && |r.value.blocks| == 1
      && r.value.align == GetAlignBit(alignBytes).value && r.value.issued == []
  {
    var bit := GetAlignBit(alignBytes);
    if bit.None? {
      return Err(UnsupportedAlignment);
    }
    if limit > IntMax {
      return Err(LimitTooLarge);
    }
    var a := new StringArena.Init(bit.value, bufferSize, factor, limit);
    r := Ok(a);
  }
}
