/**
 * The two fixed-unit allocators of memorypool.h: the bitmap pool, whose
 * chunks keep a two-level bitmap of used units, and the free-list pool, whose
 * chunks keep a stack of freed blocks.
 *
 * A UINT64 bitmap word is modelled by its 64 bits (`w[i]` is the bit of
 * weight 2^i), and the C++ operators the code applies to such words
 * (`~`, `&`, `|`, `>>`, `1uLL << k`, `(1uLL << n) - 1`) are the functions
 * below. Chunks are records; raw memory, `malloc`/`free` and the pointer
 * range tests are not modelled: a block is named by its chunk and its
 * position inside the chunk, and a chunk by a number standing for its
 * address.
 */
module MemoryPool {

  datatype Option<T> = None | Some(value: T)

  const Pow32: int := 0x1_0000_0000

  /** ALIGNMENT. */
  const Alignment: bv32 := 8

  /** ALIGN(A): A rounded up to a multiple of 8, in UINT32 arithmetic. */
  function Align(a: bv32): (r: bv32)
    ensures a <= 0xFFFF_FFF8 ==> r % 8 == 0 && a <= r && r - a < 8
    ensures a > 0xFFFF_FFF8 ==> r == 0
  {
    (a + (Alignment - 1)) & !(Alignment - 1)
  }

  /** The unit a pool makes of `unitSize` (memorypool.h:63): ALIGN(unitSize), as a number. */
  function AlignedUnit(unitSize: bv32): (r: nat)
    requires 1 <= unitSize <= 0xFFFF_FFF8
    ensures 1 <= r < 0x1_0000_0000
  {
    var b := Align(unitSize);
    assert 1 <= b;
    b as nat
  }

  // ------------------------------------------------------------------
  // 64-bit words

  type Word = w: seq<bool> | |w| == 64 witness seq(64, i => false)

  /** 0. */
  function Zero(): Word
  {
    seq(64, i => false)
  }

  /** 0xFFFFFFFFFFFFFFFF. */
  function Ones(): Word
  {
    seq(64, i => true)
  }

  /** ~w. */
  function Complement(w: Word): Word
  {
    seq(64, i requires 0 <= i < 64 => !w[i])
  }

  /** a & b. */
  function And(a: Word, b: Word): Word
  {
    seq(64, i requires 0 <= i < 64 => a[i] && b[i])
  }

  /** a | b. */
  function Or(a: Word, b: Word): Word
  {
    seq(64, i requires 0 <= i < 64 => a[i] || b[i])
  }

  /** w >> k. */
  function ShiftRight(w: Word, k: nat): Word
  {
    seq(64, i requires 0 <= i < 64 => i + k < 64 && w[i + k])
  }

  /** 1uLL << k. */
  function Bit(k: nat): Word
    requires k < 64
  {
    seq(64, i => i == k)
  }

  /** (1uLL << n) - 1, and 0xFFFFFFFF for n = 32. */
  function LowOnes(n: nat): Word
    requires n <= 64
  {
    seq(64, i => i < n)
  }

  /** Setting a clear bit and clearing it again gives back the word. */
  lemma ClearUndoesSet(w: Word, k: nat)
    requires k < 64 && !w[k]
    ensures And(Or(w, Bit(k)), Complement(Bit(k))) == w
  {
  }

  // ------------------------------------------------------------------
  // GetPos

  /** The lowest clear bit of `val` at or above `from`, or 64 when there is none. */
  ghost function LowestClear(val: Word, from: nat): (r: nat)
    requires from <= 64
    ensures from <= r <= 64
    ensures r < 64 ==> !val[r]
    ensures forall i :: from <= i < r ==> val[i]
    decreases 64 - from
  {
    if from == 64 then 64 else if !val[from] then from else LowestClear(val, from + 1)
  }

  /** A word is all ones exactly when it has no clear bit. */
  lemma AllOnes(val: Word)
    ensures val == Ones() <==> LowestClear(val, 0) == 64
  {
    var p := LowestClear(val, 0);
    if p == 64 {
      assert forall i :: 0 <= i < 64 ==> val[i] == Ones()[i];
    } else {
      assert val[p] != Ones()[p];
    }
  }

  /** The widths the search window takes: the halving `step` values. */
  predicate IsStep(step: nat)
  {
    step == 32 || step == 16 || step == 8 || step == 4 || step == 2 || step == 1 || step == 0
  }

  /** The width of the window still searched when the step is `step`. */
  function Window(step: nat): nat
  {
    if step == 0 then 1 else 2 * step
  }

  /**
   * After the complement and `pos` shifts, `v & mask` is zero exactly when
   * the lowest clear bit of `val` is not among the next `step` bits.
   */
  lemma {:induction false} WindowTest(val: Word, v: Word, pos: nat, step: nat)
    requires pos + step <= 64
    requires v == ShiftRight(Complement(val), pos)
    requires pos <= LowestClear(val, 0)
    ensures And(v, LowOnes(step)) == Zero() <==> pos + step <= LowestClear(val, 0)
  {
    var p := LowestClear(val, 0);
    if p < pos + step {
      assert And(v, LowOnes(step))[p - pos] != Zero()[p - pos];
    }
    if And(v, LowOnes(step)) != Zero() {
      assert exists i :: 0 <= i < 64 && And(v, LowOnes(step))[i] != Zero()[i];
      var i :| 0 <= i < 64 && And(v, LowOnes(step))[i];
      assert !val[i + pos];
    }
  }

  lemma ShiftRightTwice(w: Word, a: nat, b: nat)
    ensures ShiftRight(ShiftRight(w, a), b) == ShiftRight(w, a + b)
  {
  }

  lemma HalveMask(step: nat)
    requires 2 <= step <= 64 && step % 2 == 0
    ensures ShiftRight(LowOnes(step), step / 2) == LowOnes(step / 2)
  {
  }

  /** The state of GetPos's loop: what has been skipped is all ones, and the lowest clear bit is in the window. */
  ghost predicate Scanning(val: Word, v: Word, mask: Word, pos: nat, step: nat)
  {
    var p := LowestClear(val, 0);
    IsStep(step)
    && (step > 0 ==> mask == LowOnes(step))
    && pos + Window(step) <= 64
    && v == ShiftRight(Complement(val), pos)
    && pos <= p
    && (p < pos + Window(step) || (p == 64 && pos + Window(step) == 64))
  }

  /** One round of GetPos's loop keeps it `Scanning`. */
  lemma {:induction false} ScanStep(val: Word, v: Word, mask: Word, pos: nat, step: nat, hit: bool)
    requires Scanning(val, v, mask, pos, step) && step != 0
    requires hit == (And(v, mask) == Zero())
    ensures Scanning(val, if hit then ShiftRight(v, step) else v, ShiftRight(mask, step / 2),
                     if hit then pos + step else pos, step / 2)
  {
    WindowTest(val, v, pos, step);
    if And(v, mask) == Zero() {
      ShiftRightTwice(Complement(val), pos, step);
    }
    if step > 1 {
      HalveMask(step);
    }
  }

  /** GetPos's loop starts `Scanning` the complement of `val` with a 32-bit mask. */
  lemma ScanStart(val: Word)
    ensures Scanning(val, Complement(val), LowOnes(32), 0, 32)
  {
    assert Complement(val) == ShiftRight(Complement(val), 0);
  }

  /** When the window is one bit wide it holds the lowest clear bit. */
  lemma {:induction false} ScanDone(val: Word, v: Word, mask: Word, pos: nat)
    requires Scanning(val, v, mask, pos, 0)
    ensures pos <= 63
    ensures val != Ones() ==> !val[pos] && forall i :: 0 <= i < pos ==> val[i]
    ensures val == Ones() ==> pos == 63
  {
    AllOnes(val);
  }

  /**
   * GetPos: scans `val` for its lowest clear bit, halving a window of
   * 32, 16, ..., 1 bits, and reports that bit counted from the top.
   */
  method GetPos(val: Word) returns (r: nat)
    ensures r <= 63
    ensures val != Ones() ==> !val[63 - r] && forall i :: 0 <= i < 63 - r ==> val[i]
    ensures val == Ones() ==> r == 0
  {
    var pos: nat := 0;
    var v := Complement(val);
    var mask := LowOnes(32);
    var step: nat := 32;
    ScanStart(val);
    while step != 0
      invariant Scanning(val, v, mask, pos, step)
      decreases step
    {
      var hit := And(v, mask) == Zero();
      ScanStep(val, v, mask, pos, step, hit);
      if hit {
        pos := pos + step;
        v := ShiftRight(v, step);
      }
      step := step / 2;
      mask := ShiftRight(mask, step);
    }
    ScanDone(val, v, mask, pos);
    r := 63 - pos;
  }

  // ------------------------------------------------------------------
  // Bitmap

  /**
   * Bit `n` of an array of words, numbering each word's bits from the top:
   * bit 63 - n % 64 of word n / 64.
   */
  ghost predicate BitAt(ws: seq<Word>, n: nat)
    requires n < 64 * |ws|
  {
    ws[n / 64][63 - n % 64]
  }

  /** Every bit from `from` on is set. */
  ghost predicate SetFrom(ws: seq<Word>, from: nat)
  {
    forall n: nat :: from <= n < 64 * |ws| ==> BitAt(ws, n)
  }

  /** Index bit `w` is set exactly when map word `w` is full; bits past the map read as full. */
  ghost predicate Indexes(ix: seq<Word>, ws: seq<Word>)
  {
    forall w: nat :: w < 64 * |ix| ==> (BitAt(ix, w) <==> (w >= |ws| || ws[w] == Ones()))
  }

  /** Two numbers that differ differ in their word or in their bit. */
  lemma SplitIndex(a: nat, b: nat)
    requires a != b
    ensures a / 64 != b / 64 || a % 64 != b % 64
  {
  }

  /** `ws[at] |= 1uLL << k` sets one bit and leaves the others. */
  lemma {:induction false} SetBitAt(ws: seq<Word>, at: nat, k: nat)
    requires at < |ws| && k < 64
    ensures forall n: nat :: n < 64 * |ws| ==>
      (BitAt(ws[at := Or(ws[at], Bit(k))], n) <==> BitAt(ws, n) || n == 64 * at + 63 - k)
  {
    forall n: nat | n < 64 * |ws| && n != 64 * at + 63 - k
      ensures BitAt(ws[at := Or(ws[at], Bit(k))], n) == BitAt(ws, n)
    {
      SplitIndex(n, 64 * at + 63 - k);
    }
  }

  /** `ws[at] &= ~(1uLL << k)` clears one bit and leaves the others. */
  lemma {:induction false} ClearBitAt(ws: seq<Word>, at: nat, k: nat)
    requires at < |ws| && k < 64
    ensures forall n: nat :: n < 64 * |ws| ==>
      (BitAt(ws[at := And(ws[at], Complement(Bit(k)))], n) <==> BitAt(ws, n) && n != 64 * at + 63 - k)
  {
    forall n: nat | n < 64 * |ws| && n != 64 * at + 63 - k
      ensures BitAt(ws[at := And(ws[at], Complement(Bit(k)))], n) == BitAt(ws, n)
    {
      SplitIndex(n, 64 * at + 63 - k);
    }
  }

  /** Changing map word `aim` and index bit `aim` together, consistently, keeps the index right. */
  lemma IndexesAfter(ix: seq<Word>, ws: seq<Word>, ix2: seq<Word>, ws2: seq<Word>, aim: nat)
    requires Indexes(ix, ws) && |ix2| == |ix| && |ws2| == |ws| && aim < |ws| && aim < 64 * |ix|
    requires forall j :: 0 <= j < |ws| && j != aim ==> ws2[j] == ws[j]
    requires forall w: nat :: w < 64 * |ix| && w != aim ==> (BitAt(ix2, w) <==> BitAt(ix, w))
    requires BitAt(ix2, aim) <==> ws2[aim] == Ones()
    ensures Indexes(ix2, ws2)
  {
  }

  /**
   * Words that are clear except for `remainder` low bits of the last one
   * have exactly the bits from `count` on set, when `count` is `remainder`
   * short of a whole number of words.
   */
  lemma PaddingIsUsed(ws: seq<Word>, count: nat, remainder: nat)
    requires remainder < 64 && count + remainder == 64 * |ws|
    requires forall w :: 0 <= w < |ws| - 1 ==> ws[w] == Zero()
    requires |ws| > 0 ==> ws[|ws| - 1] == LowOnes(remainder)
    ensures forall n: nat :: n < 64 * |ws| ==> (BitAt(ws, n) <==> n >= count)
  {
  }

  /**
   * The shape AddChunk gives a bitmap of `count` units and that Set and
   * Clear keep: whole words for the units and for the index, padding
   * marked used, and each index bit set exactly when its map word is full.
   */
  ghost predicate Shape(ix: seq<Word>, ws: seq<Word>, count: nat)
  {
    count <= 64 * |ws| < count + 64
    && |ws| <= 64 * |ix| < |ws| + 64
    && SetFrom(ws, count)
    && Indexes(ix, ws)
  }

  /** A free unit's map word is not full, so the index word above it is not full either. */
  lemma FreeUnitIndexed(ix: seq<Word>, ws: seq<Word>, count: nat, u: nat)
    requires Shape(ix, ws, count) && u < count && !BitAt(ws, u)
    ensures u / 64 / 64 < |ix| && ix[u / 64 / 64] != Ones()
  {
    assert ws[u / 64][63 - u % 64] != Ones()[63 - u % 64];
    assert !BitAt(ix, u / 64);
    assert ix[u / 64 / 64][63 - u / 64 % 64] != Ones()[63 - u / 64 % 64];
  }

  /** A clear index bit names a map word that exists and is not full. */
  lemma ClearIndexBit(ix: seq<Word>, ws: seq<Word>, count: nat, go: nat, pos1: nat)
    requires Shape(ix, ws, count) && go < |ix| && pos1 < 64 && !ix[go][63 - pos1]
    ensures go * 64 + pos1 < |ws| && ws[go * 64 + pos1] != Ones()
  {
    var aim := go * 64 + pos1;
    assert aim / 64 == go && aim % 64 == pos1;
    assert !BitAt(ix, aim);
  }

  /** The effect of Set's two writes, giving `ws2` and `ix2`, on the bitmap's shape and units. */
  lemma {:induction false} SetUnit(ix: seq<Word>, ws: seq<Word>, count: nat, go: nat, pos1: nat, posMap: nat,
                                   aim: nat, index: nat, full: bool, ix2: seq<Word>, ws2: seq<Word>)
    requires Shape(ix, ws, count) && go < |ix| && pos1 < 64 && posMap < 64
    requires aim == go * 64 + pos1 && index == aim * 64 + posMap
    requires aim < |ws| && !ws[aim][63 - posMap]
    requires ws2 == ws[aim := Or(ws[aim], Bit(63 - posMap))]
    requires full == (ws2[aim] == Ones())
    requires ix2 == if full then ix[go := Or(ix[go], Bit(63 - pos1))] else ix
    ensures Shape(ix2, ws2, count)
    ensures index < count
    ensures !BitAt(ws, index) && BitAt(ws2, index)
    ensures forall n: nat :: n < 64 * |ws| && n != index ==> BitAt(ws2, n) == BitAt(ws, n)
  {
    assert aim / 64 == go && aim % 64 == pos1;
    assert index / 64 == aim && index % 64 == posMap;
    SetBitAt(ws, aim, 63 - posMap);
    assert !BitAt(ws, index);
    assert index < count;
    forall n: nat | count <= n < 64 * |ws2|
      ensures BitAt(ws2, n)
    {
      assert BitAt(ws, n);
    }
    if ws2[aim] == Ones() {
      SetBitAt(ix, go, 63 - pos1);
    }
    IndexesAfter(ix, ws, ix2, ws2, aim);
  }

  /** The effect of Clear's two writes on the bitmap's shape and units. */
  lemma {:induction false} ClearUnit(ix: seq<Word>, ws: seq<Word>, count: nat, index: nat)
    requires Shape(ix, ws, count) && index < count
    ensures var aim := index / 64;
      var ws2 := ws[aim := And(ws[aim], Complement(Bit(63 - index % 64)))];
      var ix2 := ix[aim / 64 := And(ix[aim / 64], Complement(Bit(63 - aim % 64)))];
      Shape(ix2, ws2, count)
      && !BitAt(ws2, index)
      && forall n: nat :: n < 64 * |ws| && n != index ==> BitAt(ws2, n) == BitAt(ws, n)
  {
    var aim := index / 64;
    var ws2 := ws[aim := And(ws[aim], Complement(Bit(63 - index % 64)))];
    var ix2 := ix[aim / 64 := And(ix[aim / 64], Complement(Bit(63 - aim % 64)))];
    ClearBitAt(ws, aim, 63 - index % 64);
    ClearBitAt(ix, aim / 64, 63 - aim % 64);
    forall n: nat | count <= n < 64 * |ws2|
      ensures BitAt(ws2, n)
    {
      assert BitAt(ws, n);
    }
    assert ws2[aim][63 - index % 64] != Ones()[63 - index % 64];
    IndexesAfter(ix, ws, ix2, ws2, aim);
  }

  /** AddChunk's `bitmapSize`: `units` bits rounded up to whole 64-bit words, in bytes. */
  function MapBytes(units: nat): (b: nat)
    ensures b % 8 == 0 && units <= 8 * b < units + 64
  {
    (units + 63) / 64 * 64 / 8
  }

  /** AddChunk's `indexOneSize`: one index bit per map word, rounded up to whole 64-bit words, in bytes. */
  function IndexBytes(mapBytes: nat): (b: nat)
    ensures b % 8 == 0 && mapBytes / 8 <= 8 * b < mapBytes / 8 + 64
  {
    (mapBytes / 8 + 63) / 64 * 64 / 8
  }

  /**
   * AddChunk's `memset` of a bitmap level to zero, followed by setting the low
   * `padding` bits of its last word when `padding > 0`.
   */
  method PresetWords(n: nat, padding: int) returns (a: array<Word>)
    requires padding < 64 && (padding > 0 ==> n > 0)
    ensures fresh(a) && a.Length == n
    ensures forall w :: 0 <= w < n - 1 ==> a[w] == Zero()
    ensures n > 0 ==> a[n - 1] == LowOnes(if padding > 0 then padding else 0)
  {
    a := new Word[n](_ => Zero());
    if padding > 0 {
      a[n - 1] := LowOnes(padding);
    }
    assert LowOnes(0) == Zero();
  }

  /** AddChunk's preset words have the shape of a bitmap of `units` free units. */
  lemma {:induction false} FreshShape(ix: seq<Word>, ws: seq<Word>, units: nat, remainder: nat, remainderOne: nat)
    requires remainder < 64 && units + remainder == 64 * |ws|
    requires remainderOne < 64 && |ws| + remainderOne == 64 * |ix|
    requires forall w :: 0 <= w < |ws| - 1 ==> ws[w] == Zero()
    requires |ws| > 0 ==> ws[|ws| - 1] == LowOnes(remainder)
    requires forall w :: 0 <= w < |ix| - 1 ==> ix[w] == Zero()
    requires |ix| > 0 ==> ix[|ix| - 1] == LowOnes(remainderOne)
    ensures Shape(ix, ws, units)
    ensures forall u: nat :: u < units ==> !BitAt(ws, u)
  {
    PaddingIsUsed(ws, units, remainder);
    PaddingIsUsed(ix, |ws|, remainderOne);
    forall w | 0 <= w < |ws|
      ensures ws[w] != Ones()
    {
      assert !ws[w][63];
    }
  }

  /**
   * The two-level bitmap of a chunk: unit `u` is in use when bit `u` of
   * `bits` (the C++ `map`) is set, and bit `w` of `indexOne` is set when
   * map word `w` is full.
   */
  class Bitmap {
    var indexOne: array<Word>
    var bits: array<Word>
    /** The number of real units; the bits after them are padding. */
    ghost var unitCount: nat

    ghost predicate Used(u: nat)
      reads this, bits
      requires u < 64 * bits.Length
    {
      BitAt(bits[..], u)
    }

    ghost predicate Valid()
      reads this, bits, indexOne
    {
      bits != indexOne && Shape(indexOne[..], bits[..], unitCount)
    }

    /** The bitmap part of AddChunk: sizes rounded up to whole words, padding bits preset. */
    constructor (units: nat)
      ensures Valid() && unitCount == units
      ensures units <= 64 * bits.Length < units + 64 && bits.Length <= 64 * indexOne.Length < bits.Length + 64
      ensures forall u: nat :: u < units ==> !Used(u)
      ensures fresh(bits) && fresh(indexOne)
    {
      var bitmapSize := MapBytes(units);
      var remainder := bitmapSize * 8 - units;
      var indexOneSize := IndexBytes(bitmapSize);
      var remainderOne: int := indexOneSize * 8 - bitmapSize / 8;
      if bitmapSize % 8 > 0 {
        remainderOne := remainderOne - 1;
      }
      var m := PresetWords(bitmapSize / 8, remainder);
      var ix := PresetWords(indexOneSize / 8, remainderOne);
      FreshShape(ix[..], m[..], units, remainder, remainderOne);
      bits := m;
      indexOne := ix;
      unitCount := units;
    }

    /**
     * The search half of Set: the first index word that is not full, the
     * clear bit GetPos finds in it (a map word that is not full), and the
     * clear bit GetPos finds in that map word.
     */
    method Locate() returns (go: nat, pos1: nat, posMap: nat)
      requires Valid() && exists u: nat :: u < unitCount && !Used(u)
      ensures go < indexOne.Length && pos1 < 64 && posMap < 64
      ensures !indexOne[go][63 - pos1]
      ensures go * 64 + pos1 < bits.Length && !bits[go * 64 + pos1][63 - posMap]
    {
      ghost var u0: nat :| u0 < unitCount && !Used(u0);
      FreeUnitIndexed(indexOne[..], bits[..], unitCount, u0);
      go := 0;
      while go < indexOne.Length && indexOne[go] == Ones()
        invariant 0 <= go <= u0 / 64 / 64
      {
        go := go + 1;
      }
      pos1 := GetPos(indexOne[go]);
      ClearIndexBit(indexOne[..], bits[..], unitCount, go, pos1);
      posMap := GetPos(bits[go * 64 + pos1]);
    }

    /**
     * Set: finds a clear unit through the index, marks it used, and marks
     * the index when its map word becomes full.
     */
    method Set() returns (index: nat)
      requires Valid() && exists u: nat :: u < unitCount && !Used(u)
      modifies bits, indexOne
      ensures Valid()
      ensures index < unitCount && !old(Used(index)) && Used(index)
      ensures forall u: nat :: u < 64 * bits.Length && u != index ==> Used(u) == old(Used(u))
    {
      ghost var ws := bits[..];
      ghost var ix := indexOne[..];
      var go, pos1, posMap := Locate();
      var aim := go * 64 + pos1;
      index := aim * 64 + posMap;
      var full := MarkUsed(indexOne, bits, go, pos1, posMap);
      SetUnit(ix, ws, unitCount, go, pos1, posMap, aim, index, full, indexOne[..], bits[..]);
    }

    /** Clear(index): marks unit `index` free and its map word not full. */
    method Clear(index: nat)
      requires Valid() && index < unitCount
      modifies bits, indexOne
      ensures Valid() && !Used(index)
      ensures forall u: nat :: u < 64 * bits.Length && u != index ==> Used(u) == old(Used(u))
    {
      ClearUnit(indexOne[..], bits[..], unitCount, index);
      var aim := index / 64;
      var pos1 := aim % 64;
      var posMap := index % 64;
      ClearBit(bits, aim, 63 - posMap);
      ClearBit(indexOne, aim / 64, 63 - pos1);
    }
  }

  /**
   * Set's two writes: bit `63 - posMap` of map word `go * 64 + pos1`, then, when
   * that word is now full, bit `63 - pos1` of index word `go`.
   */
  method MarkUsed(indexOne: array<Word>, bits: array<Word>, go: nat, pos1: nat, posMap: nat) returns (full: bool)
    requires indexOne != bits && go < indexOne.Length && pos1 < 64 && posMap < 64 && go * 64 + pos1 < bits.Length
    modifies indexOne, bits
    ensures bits[..] == old(bits[..])[go * 64 + pos1 := Or(old(bits[go * 64 + pos1]), Bit(63 - posMap))]
    ensures full == (bits[go * 64 + pos1] == Ones())
    ensures indexOne[..] == if full then old(indexOne[..])[go := Or(old(indexOne[go]), Bit(63 - pos1))] else old(indexOne[..])
  {
    var aim := go * 64 + pos1;
    SetBit(bits, aim, 63 - posMap);
    full := bits[aim] == Ones();
    if full {
      SetBit(indexOne, go, 63 - pos1);
    }
  }

  /** `words[at] |= 1uLL << k`. */
  method SetBit(words: array<Word>, at: nat, k: nat)
    requires at < words.Length && k < 64
    modifies words
    ensures words[..] == old(words[..])[at := Or(old(words[at]), Bit(k))]
  {
    words[at] := Or(words[at], Bit(k));
  }

  /** `words[at] &= ~(1uLL << k)`. */
  method ClearBit(words: array<Word>, at: nat, k: nat)
    requires at < words.Length && k < 64
    modifies words
    ensures words[..] == old(words[..])[at := And(old(words[at]), Complement(Bit(k)))]
  {
    words[at] := And(words[at], Complement(Bit(k)));
  }

  // ------------------------------------------------------------------
  // Chunk lists

  /** defaultChunkMaxCount: an emptied chunk is released only while more chunks than this exist. */
  const DefaultChunkMaxCount: nat := 10

  /** `[s[i]] + the rest of s`: the relinking that makes chunk `i` the list head. */
  function MoveToFront<T>(s: seq<T>, i: nat): (r: seq<T>)
    requires i < |s|
    ensures |r| == |s| && r[0] == s[i]
    ensures forall k :: 0 < k <= i ==> r[k] == s[k - 1]
    ensures forall k :: i < k < |s| ==> r[k] == s[k]
    ensures multiset(r) == multiset(s)
  {
    assert s == s[..i] + [s[i]] + s[i + 1..];
    [s[i]] + s[..i] + s[i + 1..]
  }

  /** Each position of the relinked list holds the element of a position of the old one, and distinct ones distinct ones. */
  function FromPosition(i: nat, k: nat): (j: nat)
  {
    if k == 0 then i else if k <= i then k - 1 else k
  }

  lemma MoveToFrontPositions<T>(s: seq<T>, i: nat)
    requires i < |s|
    ensures forall k :: 0 <= k < |s| ==> FromPosition(i, k) < |s| && MoveToFront(s, i)[k] == s[FromPosition(i, k)]
    ensures forall k, l :: 0 <= k < l < |s| ==> FromPosition(i, k) != FromPosition(i, l)
    ensures MoveToFront(s, 0) == s
  {
    assert MoveToFront(s, 0) == s by {
      assert s == [s[0]] + s[..0] + s[1..];
    }
  }

  // ------------------------------------------------------------------
  // BitmapMemPool

  /** A bitmap-pool chunk: `capacity` units, of which `size` are handed out. */
  datatype UnitChunk = UnitChunk(id: nat, capacity: nat, size: nat)

  /**
   * The units of a chunk made for `capacity` bytes (memorypool.h:144): the
   * rounding-up sum `capacity + unit - 1` is a UINT32, so it wraps.
   */
  function UnitCount(capacity: nat, unit: nat): (r: nat)
    requires 1 <= unit < Pow32
    ensures r < Pow32
  {
    var x := Add32(capacity, unit - 1);
    QuotientAtMost(x, unit);
    x / unit
  }

  /**
   * Without the wrap, UnitCount is the fewest units that hold `capacity`
   * bytes; a capacity within a unit of 2^32 gets only the few units of the
   * wrapped sum.
   */
  lemma UnitCountRounds(capacity: nat, unit: nat)
    requires 1 <= unit < Pow32
    ensures capacity + unit - 1 < Pow32 ==>
      (UnitCount(capacity, unit) - 1) * unit < capacity <= UnitCount(capacity, unit) * unit
    ensures capacity < Pow32 <= capacity + unit - 1 ==>
      UnitCount(capacity, unit) == (capacity + unit - 1 - Pow32) / unit
  {
    DivisionBounds(Add32(capacity, unit - 1), unit);
  }

  /**
   * The bytes of a chunk made for `capacity` bytes (memorypool.h:372): whole
   * units, the product a UINT32 again.
   */
  function ChunkBytes(capacity: nat, unit: nat): (r: nat)
    requires 1 <= unit < Pow32
    ensures r < Pow32
  {
    (UnitCount(capacity, unit) * unit) % Pow32
  }

  /** Without the wrap, ChunkBytes is the least multiple of the unit that holds `capacity` bytes. */
  lemma ChunkBytesRounds(capacity: nat, unit: nat)
    requires 1 <= unit < Pow32 && capacity + unit - 1 < Pow32
    ensures ChunkBytes(capacity, unit) == UnitCount(capacity, unit) * unit
    ensures capacity <= ChunkBytes(capacity, unit) < capacity + unit
  {
    var n := UnitCount(capacity, unit);
    var m := n * unit;
    UnitCountRounds(capacity, unit);
    assert (n - 1) * unit == m - unit by { ProductPredecessor(n, unit); }
    assert m < Pow32;
    assert ChunkBytes(capacity, unit) == m;
  }

  /** One factor fewer takes one `unit` off the product. */
  lemma ProductPredecessor(n: int, unit: int)
    ensures (n - 1) * unit == n * unit - unit
  {
  }

  /** The quotient of `x` by `unit`, times `unit`, is within one unit below `x`. */
  lemma DivisionBounds(x: nat, unit: nat)
    requires 1 <= unit
    ensures (x / unit) * unit <= x < (x / unit) * unit + unit
    ensures (x / unit - 1) * unit == (x / unit) * unit - unit
  {
  }

  /** A quotient by a positive divisor is at most the dividend. */
  lemma QuotientAtMost(x: nat, unit: nat)
    requires 1 <= unit
    ensures 0 <= x / unit <= x
  {
  }

  /** The counters are UINT32 values, and chunks have distinct ids below `nextId`. */
  ghost predicate UnitChunksOk(chunks: seq<UnitChunk>, nextId: nat)
  {
    (forall i :: 0 <= i < |chunks| ==> chunks[i].capacity < Pow32 && chunks[i].size < Pow32 && chunks[i].id < nextId)
    && (forall i, j :: 0 <= i < j < |chunks| ==> chunks[i].id != chunks[j].id)
  }

  /** Relinking a chunk to the head keeps the chunks well formed. */
  lemma UnitChunksMoved(chunks: seq<UnitChunk>, nextId: nat, i: nat)
    requires UnitChunksOk(chunks, nextId) && i < |chunks|
    ensures UnitChunksOk(MoveToFront(chunks, i), nextId)
  {
    MoveToFrontPositions(chunks, i);
    var r := MoveToFront(chunks, i);
    forall k, l | 0 <= k < l < |r|
      ensures r[k].id != r[l].id
    {
      var a, b := FromPosition(i, k), FromPosition(i, l);
      if a < b {
        assert chunks[a].id != chunks[b].id;
      } else {
        assert chunks[b].id != chunks[a].id;
      }
    }
  }

  /** Handing out one more unit of a head chunk that has one free keeps the chunks well formed. */
  lemma UnitChunksBump(chunks: seq<UnitChunk>, nextId: nat)
    requires UnitChunksOk(chunks, nextId) && |chunks| > 0 && chunks[0].size < chunks[0].capacity
    ensures UnitChunksOk(chunks[0 := chunks[0].(size := chunks[0].size + 1)], nextId)
  {
  }

  /** The units handed out over all chunks. */
  function InUse(chunks: seq<UnitChunk>): nat
  {
    if |chunks| == 0 then 0 else chunks[0].size + InUse(chunks[1..])
  }

  lemma {:induction false} InUseAppend(a: seq<UnitChunk>, b: seq<UnitChunk>)
    ensures InUse(a + b) == InUse(a) + InUse(b)
    decreases |a|
  {
    if |a| > 0 {
      assert (a + b)[1..] == a[1..] + b;
      InUseAppend(a[1..], b);
    } else {
      assert a + b == b;
    }
  }

  /** Relinking a chunk to the head hands out no unit and takes none back. */
  lemma {:induction false} InUseMoveToFront(chunks: seq<UnitChunk>, i: nat)
    requires i < |chunks|
    ensures InUse(MoveToFront(chunks, i)) == InUse(chunks)
  {
    assert chunks == chunks[..i] + [chunks[i]] + chunks[i + 1..];
    InUseAppend(chunks[..i] + [chunks[i]], chunks[i + 1..]);
    InUseAppend(chunks[..i], [chunks[i]]);
    InUseAppend([chunks[i]] + chunks[..i], chunks[i + 1..]);
    InUseAppend([chunks[i]], chunks[..i]);
  }

  /** Changing one chunk's `size` changes the total by the same amount. */
  lemma {:induction false} InUseUpdate(chunks: seq<UnitChunk>, i: nat, c: UnitChunk)
    requires i < |chunks|
    ensures InUse(chunks[i := c]) + chunks[i].size == InUse(chunks) + c.size
  {
    assert chunks == chunks[..i] + [chunks[i]] + chunks[i + 1..];
    assert chunks[i := c] == chunks[..i] + [c] + chunks[i + 1..];
    InUseAppend(chunks[..i] + [chunks[i]], chunks[i + 1..]);
    InUseAppend(chunks[..i], [chunks[i]]);
    InUseAppend(chunks[..i] + [c], chunks[i + 1..]);
    InUseAppend(chunks[..i], [c]);
  }

  /** Dropping a chunk drops the units it had handed out. */
  lemma {:induction false} InUseRemove(chunks: seq<UnitChunk>, i: nat)
    requires i < |chunks|
    ensures InUse(chunks[..i] + chunks[i + 1..]) + chunks[i].size == InUse(chunks)
  {
    assert chunks == chunks[..i] + [chunks[i]] + chunks[i + 1..];
    InUseAppend(chunks[..i] + [chunks[i]], chunks[i + 1..]);
    InUseAppend(chunks[..i], [chunks[i]]);
    InUseAppend(chunks[..i], chunks[i + 1..]);
  }

  /** The position of the first chunk with a free unit, or the list length when all are full. */
  function FirstNonFull(chunks: seq<UnitChunk>): (i: nat)
    ensures i <= |chunks|
    ensures i < |chunks| ==> chunks[i].size < chunks[i].capacity
    ensures forall k :: 0 <= k < i ==> chunks[k].size >= chunks[k].capacity
  {
    if |chunks| == 0 then 0
    else if chunks[0].size < chunks[0].capacity then 0
    else 1 + FirstNonFull(chunks[1..])
  }

  /** The position of the chunk named `id`, or the list length when there is none. */
  function UnitChunkAt(chunks: seq<UnitChunk>, id: nat): (i: nat)
    ensures i <= |chunks|
    ensures i < |chunks| ==> chunks[i].id == id
    ensures forall k :: 0 <= k < i ==> chunks[k].id != id
  {
    if |chunks| == 0 then 0
    else if chunks[0].id == id then 0
    else 1 + UnitChunkAt(chunks[1..], id)
  }

  /** Free's walk: the position of the chunk named `id`, or the list length. */
  method FindUnitChunk(list: seq<UnitChunk>, id: nat) returns (i: nat)
    ensures i == UnitChunkAt(list, id)
  {
    i := 0;
    while i < |list| && list[i].id != id
      invariant 0 <= i <= |list|
      invariant forall k :: 0 <= k < i ==> list[k].id != id
    {
      i := i + 1;
    }
  }

  /** Malloc's walk: the position of the first chunk with a free unit, or the list length. */
  method FindNonFull(list: seq<UnitChunk>) returns (i: nat)
    ensures i == FirstNonFull(list)
  {
    i := 0;
    while i < |list| && list[i].size >= list[i].capacity
      invariant 0 <= i <= |list|
      invariant forall k :: 0 <= k < i ==> list[k].size >= list[k].capacity
    {
      i := i + 1;
    }
  }

  /**
   * BitmapMemPool's chunk list and counters. A chunk's `id` stands for its
   * address; `nextId` hands out fresh ones.
   */
  class BitmapMemPool {
    const unit: nat
    const defaultCapacity: nat
    var chunks: seq<UnitChunk>
    var chunkCount: nat
    var nextId: nat

    /** `chunkCount_` counts the chunks, no chunk hands out more units than it has, and ids are distinct. */
    ghost predicate Valid()
      reads this
    {
      1 <= unit < Pow32 && defaultCapacity < Pow32 && UnitCount(defaultCapacity, unit) >= 1
      && chunkCount == |chunks|
      && UnitChunksOk(chunks, nextId)
    }

    constructor (unitSize: bv32, chunkCapacity: nat)
      requires 1 <= unitSize <= 0xFFFF_FFF8 && chunkCapacity < Pow32
      requires UnitCount(chunkCapacity, AlignedUnit(unitSize)) >= 1
      ensures Valid()
      ensures unit == AlignedUnit(unitSize) && defaultCapacity == chunkCapacity
      ensures chunks == [] && chunkCount == 0
    {
      unit := AlignedUnit(unitSize);
      defaultCapacity := chunkCapacity;
      chunks := [];
      chunkCount := 0;
      nextId := 0;
    }

    /** AddChunk: a fresh empty chunk of UnitCount(chunkCapacity, unit) units becomes the head, or -1 when allocation fails. */
    method AddChunk(chunkCapacity: nat, allocOk: bool) returns (r: int)
      requires Valid() && chunkCapacity < Pow32
      modifies this
      ensures Valid()
      ensures allocOk ==>
        r == 0 && chunkCount == old(chunkCount) + 1 && chunks == [UnitChunk(old(nextId), UnitCount(chunkCapacity, unit), 0)] + old(chunks)
      ensures !allocOk ==> r == -1 && chunkCount == old(chunkCount) && chunks == old(chunks)
      ensures InUse(chunks) == InUse(old(chunks))
    {
      if !allocOk {
        return -1;
      }
      var unitCount := UnitCount(chunkCapacity, unit);
      InUseAppend([UnitChunk(nextId, unitCount, 0)], chunks);
      chunks := [UnitChunk(nextId, unitCount, 0)] + chunks;
      nextId := nextId + 1;
      chunkCount := chunkCount + 1;
      r := 0;
    }

    /** Init: adds the first chunk. */
    method Init(allocOk: bool) returns (r: int)
      requires Valid()
      modifies this
      ensures Valid()
      ensures allocOk ==> r == 0 && chunks == [UnitChunk(old(nextId), UnitCount(defaultCapacity, unit), 0)] + old(chunks)
      ensures !allocOk ==> r == -1 && chunks == old(chunks)
    {
      var added := AddChunk(defaultCapacity, allocOk);
      if added < 0 {
        return -1;
      }
      return 0;
    }

    /**
     * Malloc: NULL for a request larger than a unit; otherwise a unit of the
     * first chunk with one free, that chunk moved to the head, or of a new
     * chunk when all are full. The result names the chunk.
     */
    method Malloc(size: nat, allocOk: bool) returns (r: Option<nat>)
      requires Valid()
      modifies this
      ensures Valid()
      ensures InUse(chunks) == InUse(old(chunks)) + (if r.Some? then 1 else 0)
      ensures size > unit ==> r == None && chunks == old(chunks)
      ensures size <= unit && FirstNonFull(old(chunks)) < |old(chunks)| ==>
        var i := FirstNonFull(old(chunks));
        var c := old(chunks)[i];
        r == Some(c.id) && chunks == MoveToFront(old(chunks), i)[0 := c.(size := c.size + 1)]
      ensures size <= unit && FirstNonFull(old(chunks)) == |old(chunks)| ==>
        if allocOk then
          r == Some(old(nextId)) && chunks == [UnitChunk(old(nextId), UnitCount(defaultCapacity, unit), 1)] + old(chunks)
        else
          r == None && chunks == old(chunks)
    {
      if size > unit {
        return None;
      }
      var i := FindNonFull(chunks);
      if i < |chunks| {
        BringToFront(i);
      } else {
        var added := AddChunk(defaultCapacity, allocOk);
        if added < 0 {
          return None;
        }
      }
      var id := CountHeadUnit();
      r := Some(id);
    }

    /** Malloc's relinking: chunk `i` becomes the head of the list. */
    method BringToFront(i: nat)
      requires Valid() && i < |chunks|
      modifies this
      ensures Valid() && nextId == old(nextId) && chunkCount == old(chunkCount)
      ensures chunks == MoveToFront(old(chunks), i)
      ensures InUse(chunks) == InUse(old(chunks))
    {
      MoveToFrontPositions(chunks, i);
      InUseMoveToFront(chunks, i);
      UnitChunksMoved(chunks, nextId, i);
      if i != 0 {
        chunks := MoveToFront(chunks, i);
      }
    }

    /** Malloc's `Set` on the head chunk's bitmap and `size++`: the head hands out one more unit. */
    method CountHeadUnit() returns (id: nat)
      requires Valid() && |chunks| > 0 && chunks[0].size < chunks[0].capacity
      modifies this
      ensures Valid() && nextId == old(nextId) && chunkCount == old(chunkCount)
      ensures id == old(chunks)[0].id
      ensures chunks == old(chunks)[0 := old(chunks)[0].(size := old(chunks)[0].size + 1)]
      ensures InUse(chunks) == InUse(old(chunks)) + 1
    {
      var head := chunks[0];
      InUseUpdate(chunks, 0, head.(size := head.size + 1));
      UnitChunksBump(chunks, nextId);
      chunks := chunks[0 := head.(size := head.size + 1)];
      id := head.id;
    }

    /**
     * Free: the chunk holding the block hands one unit back, and is
     * released when it becomes empty while more than
     * `DefaultChunkMaxCount` chunks exist. A block in no chunk is ignored.
     * The UINT32 counter wraps on a double free, and the chunk then counts
     * as full.
     */
    method Free(chunkId: nat)
      requires Valid()
      modifies this
      ensures Valid()
      ensures var i := UnitChunkAt(old(chunks), chunkId);
        if i == |old(chunks)| then
          chunks == old(chunks) && chunkCount == old(chunkCount)
        else
          var c := old(chunks)[i];
          (c.size >= 1 ==> InUse(chunks) == InUse(old(chunks)) - 1)
          && if c.size == 1 && old(chunkCount) > DefaultChunkMaxCount then
               chunks == old(chunks)[..i] + old(chunks)[i + 1..] && chunkCount == old(chunkCount) - 1
             else
               chunks == old(chunks)[i := c.(size := Sub32(c.size, 1))] && chunkCount == old(chunkCount)
      ensures var i := UnitChunkAt(old(chunks), chunkId);
        i < |old(chunks)| && old(chunks)[i].size == 0 ==> chunks[i].size == Pow32 - 1 && chunks[i].size >= chunks[i].capacity
    {
      var list := chunks;
      var i := FindUnitChunk(list, chunkId);
      if i == |list| {
        return;
      }
      var c := list[i].(size := Sub32(list[i].size, 1));
      if c.size == 0 && chunkCount > DefaultChunkMaxCount {
        InUseRemove(list, i);
        chunks := list[..i] + list[i + 1..];
        chunkCount := chunkCount - 1;
      } else {
        InUseUpdate(list, i, c);
        chunks := list[i := c];
      }
    }
  }

  // ------------------------------------------------------------------
  // LinkListMemPool

  /** UINT32 subtraction. */
  function Sub32(a: nat, b: nat): (r: nat)
    ensures r < Pow32
    ensures a < Pow32 && b <= a ==> r == a - b
    ensures a < Pow32 && b < Pow32 && a < b ==> r == a - b + Pow32
  {
    (a - b) % Pow32
  }

  /** UINT32 addition. */
  function Add32(a: nat, b: nat): (r: nat)
    ensures r < Pow32
    ensures a + b < Pow32 ==> r == a + b
    ensures a < Pow32 && b < Pow32 && a + b >= Pow32 ==> r == a + b - Pow32
  {
    (a + b) % Pow32
  }

  /**
   * A free-list chunk: `capacity` and `size` in bytes, and the stack of
   * freed blocks (their offsets in the chunk), top first.
   */
  datatype ListChunk = ListChunk(id: nat, capacity: nat, size: nat, freeArea: seq<nat>)

  /** Sizes are UINT32 values, and chunks have distinct ids below `nextId`. */
  ghost predicate ListChunksOk(chunks: seq<ListChunk>, nextId: nat)
  {
    (forall i :: 0 <= i < |chunks| ==>
       chunks[i].capacity < Pow32 && chunks[i].size < Pow32 && chunks[i].id < nextId)
    && (forall i, j :: 0 <= i < j < |chunks| ==> chunks[i].id != chunks[j].id)
  }

  /** Relinking a chunk to the head keeps the chunks well formed. */
  lemma ListChunksMoved(chunks: seq<ListChunk>, nextId: nat, i: nat)
    requires ListChunksOk(chunks, nextId) && i < |chunks|
    ensures ListChunksOk(MoveToFront(chunks, i), nextId)
  {
    MoveToFrontPositions(chunks, i);
    var r := MoveToFront(chunks, i);
    forall k, l | 0 <= k < l < |r|
      ensures r[k].id != r[l].id
    {
      var a, b := FromPosition(i, k), FromPosition(i, l);
      if a < b {
        assert chunks[a].id != chunks[b].id;
      } else {
        assert chunks[b].id != chunks[a].id;
      }
    }
  }

  /** Replacing a chunk by one with the same id and UINT32 sizes keeps the chunks well formed. */
  lemma ListChunksUpdate(chunks: seq<ListChunk>, nextId: nat, i: nat, c: ListChunk)
    requires ListChunksOk(chunks, nextId) && i < |chunks|
    requires c.id == chunks[i].id && c.capacity < Pow32 && c.size < Pow32
    ensures ListChunksOk(chunks[i := c], nextId)
  {
  }

  /** A block: the chunk it lies in and its offset there. */
  datatype Block = Block(chunk: nat, offset: nat)

  /**
   * Malloc's work on the chosen chunk: pop the free stack, or carve a block
   * at offset `size` when it is empty, and add the requested size.
   */
  function Take(c: ListChunk, request: nat): (r: (ListChunk, nat))
    ensures r.1 == (if c.freeArea == [] then c.size else c.freeArea[0])
    ensures r.0 == c.(size := Add32(c.size, request), freeArea := if c.freeArea == [] then [] else c.freeArea[1..])
  {
    if c.freeArea == [] then
      (c.(size := Add32(c.size, request)), c.size)
    else
      (c.(size := Add32(c.size, request), freeArea := c.freeArea[1..]), c.freeArea[0])
  }

  /** Free's work on a chunk it keeps: subtract a unit and push the block. */
  function Give(c: ListChunk, offset: nat, unit: nat): (r: ListChunk)
    ensures r.freeArea == [offset] + c.freeArea && r.size == Sub32(c.size, unit)
    ensures r.id == c.id && r.capacity == c.capacity
  {
    c.(size := Sub32(c.size, unit), freeArea := [offset] + c.freeArea)
  }

  /** The free stack is last in, first out: a block given back is the next one taken. */
  lemma GiveThenTake(c: ListChunk, offset: nat, unit: nat, request: nat)
    ensures Take(Give(c, offset, unit), request).1 == offset
    ensures Take(Give(c, offset, unit), request).0.freeArea == c.freeArea
  {
  }

  /**
   * Malloc charges the requested size and Free a whole unit: a block of 4
   * bytes taken from an empty chunk and given back with an 8-byte unit
   * leaves the chunk's size wrapped round to 2^32 - 4.
   */
  lemma TakeGiveWraps(c: ListChunk)
    requires c.size == 0 && c.freeArea == []
    ensures Give(Take(c, 4).0, Take(c, 4).1, 8).size == Pow32 - 4
  {
  }

  /** The position of the first chunk whose free bytes, in UINT32 arithmetic, cover `request`. */
  function FirstRoomy(chunks: seq<ListChunk>, request: nat): (i: nat)
    ensures i <= |chunks|
    ensures i < |chunks| ==> Sub32(chunks[i].capacity, chunks[i].size) >= request
    ensures forall k :: 0 <= k < i ==> Sub32(chunks[k].capacity, chunks[k].size) < request
  {
    if |chunks| == 0 then 0
    else if Sub32(chunks[0].capacity, chunks[0].size) >= request then 0
    else 1 + FirstRoomy(chunks[1..], request)
  }

  /** The position of the chunk named `id`, or the list length when there is none. */
  function ListChunkAt(chunks: seq<ListChunk>, id: nat): (i: nat)
    ensures i <= |chunks|
    ensures i < |chunks| ==> chunks[i].id == id
    ensures forall k :: 0 <= k < i ==> chunks[k].id != id
  {
    if |chunks| == 0 then 0
    else if chunks[0].id == id then 0
    else 1 + ListChunkAt(chunks[1..], id)
  }

  /** Free's walk: the position of the chunk named `id`, or the list length. */
  method FindListChunk(list: seq<ListChunk>, id: nat) returns (i: nat)
    ensures i == ListChunkAt(list, id)
  {
    i := 0;
    while i < |list| && list[i].id != id
      invariant 0 <= i <= |list|
      invariant forall k :: 0 <= k < i ==> list[k].id != id
    {
      i := i + 1;
    }
  }

  /** Malloc's walk: the position of the first chunk with room for `request`, or the list length. */
  method FindRoomy(list: seq<ListChunk>, request: nat) returns (i: nat)
    ensures i == FirstRoomy(list, request)
  {
    i := 0;
    while i < |list| && Sub32(list[i].capacity, list[i].size) < request
      invariant 0 <= i <= |list|
      invariant forall k :: 0 <= k < i ==> Sub32(list[k].capacity, list[k].size) < request
    {
      i := i + 1;
    }
  }

  /**
   * LinkListMemPool's chunk list and counters. A chunk's `id` stands for
   * its address; `nextId` hands out fresh ones.
   */
  class LinkListMemPool {
    const unit: nat
    const defaultCapacity: nat
    var chunks: seq<ListChunk>
    var chunkCount: nat
    var nextId: nat

    /** Sizes are UINT32 values and ids are distinct. */
    ghost predicate Valid()
      reads this
    {
      1 <= unit < Pow32 && defaultCapacity < Pow32 && ListChunksOk(chunks, nextId)
    }

    constructor (unitSize: bv32, chunkCapacity: nat)
      requires 1 <= unitSize <= 0xFFFF_FFF8 && chunkCapacity < Pow32
      ensures Valid()
      ensures unit == AlignedUnit(unitSize) && defaultCapacity == chunkCapacity
      ensures chunks == [] && chunkCount == 0
    {
      unit := AlignedUnit(unitSize);
      defaultCapacity := chunkCapacity;
      chunks := [];
      chunkCount := 0;
      nextId := 0;
    }

    /** AddChunk: a fresh empty chunk becomes the head; `chunkCount_` is left as it was. */
    method AddChunk(chunkCapacity: nat, allocOk: bool) returns (r: int)
      requires Valid()
      modifies this
      ensures Valid()
      ensures chunkCount == old(chunkCount)
      ensures allocOk ==> r == 0 && chunks == [ListChunk(old(nextId), ChunkBytes(chunkCapacity, unit), 0, [])] + old(chunks)
      ensures !allocOk ==> r == -1 && chunks == old(chunks)
    {
      if !allocOk {
        return -1;
      }
      var unitCount := UnitCount(chunkCapacity, unit);
      var bytes := (unitCount * unit) % Pow32;
      chunks := [ListChunk(nextId, bytes, 0, [])] + chunks;
      nextId := nextId + 1;
      r := 0;
    }

    /** Init: adds the first chunk. */
    method Init(allocOk: bool) returns (r: int)
      requires Valid()
      modifies this
      ensures Valid() && chunkCount == old(chunkCount)
      ensures allocOk ==> r == 0 && chunks == [ListChunk(old(nextId), ChunkBytes(defaultCapacity, unit), 0, [])] + old(chunks)
      ensures !allocOk ==> r == -1 && chunks == old(chunks)
    {
      var added := AddChunk(defaultCapacity, allocOk);
      if added < 0 {
        return -1;
      }
      return 0;
    }

    /**
     * Malloc: NULL for a request larger than a unit; otherwise a block of
     * the first chunk with room, that chunk moved to the head, or of a new
     * chunk when none has room.
     */
    method Malloc(size: nat, allocOk: bool) returns (r: Option<Block>)
      requires Valid()
      modifies this
      ensures Valid() && chunkCount == old(chunkCount)
      ensures size > unit ==> r == None && chunks == old(chunks)
      ensures size <= unit && FirstRoomy(old(chunks), size) < |old(chunks)| ==>
        var i := FirstRoomy(old(chunks), size);
        var t := Take(old(chunks)[i], size);
        r == Some(Block(old(chunks)[i].id, t.1)) && chunks == MoveToFront(old(chunks), i)[0 := t.0]
      ensures size <= unit && FirstRoomy(old(chunks), size) == |old(chunks)| ==>
        if allocOk then
          var t := Take(ListChunk(old(nextId), ChunkBytes(defaultCapacity, unit), 0, []), size);
          r == Some(Block(old(nextId), t.1)) && chunks == [t.0] + old(chunks)
        else
          r == None && chunks == old(chunks)
    {
      if size > unit {
        return None;
      }
      var i := FindRoomy(chunks, size);
      if i < |chunks| {
        BringToFront(i);
      } else {
        var added := AddChunk(defaultCapacity, allocOk);
        if added < 0 {
          return None;
        }
      }
      var b := TakeFromHead(size);
      r := Some(b);
    }

    /** Malloc's relinking: chunk `i` becomes the head of the list. */
    method BringToFront(i: nat)
      requires Valid() && i < |chunks|
      modifies this
      ensures Valid() && nextId == old(nextId) && chunkCount == old(chunkCount)
      ensures chunks == MoveToFront(old(chunks), i)
    {
      MoveToFrontPositions(chunks, i);
      ListChunksMoved(chunks, nextId, i);
      if i != 0 {
        chunks := MoveToFront(chunks, i);
      }
    }

    /** Malloc's carving of a block of `request` bytes from the head chunk. */
    method TakeFromHead(request: nat) returns (b: Block)
      requires Valid() && |chunks| > 0
      modifies this
      ensures Valid() && nextId == old(nextId) && chunkCount == old(chunkCount)
      ensures var t := Take(old(chunks)[0], request);
        b == Block(old(chunks)[0].id, t.1) && chunks == old(chunks)[0 := t.0]
    {
      var t := Take(chunks[0], request);
      ListChunksUpdate(chunks, nextId, 0, t.0);
      chunks := chunks[0 := t.0];
      b := Block(t.0.id, t.1);
    }

    /**
     * Free: the chunk named by the block takes a unit back; it is released
     * when its size reaches 0 while `chunkCount_` exceeds
     * `DefaultChunkMaxCount`, and otherwise the block is pushed on its
     * free stack. A block in no chunk is ignored.
     */
    method Free(b: Block)
      requires Valid()
      modifies this
      ensures Valid()
      ensures chunkCount <= old(chunkCount)
      ensures var i := ListChunkAt(old(chunks), b.chunk);
        if i == |old(chunks)| then
          chunks == old(chunks) && chunkCount == old(chunkCount)
        else
          var c := old(chunks)[i];
          if Sub32(c.size, unit) == 0 && old(chunkCount) > DefaultChunkMaxCount then
            chunks == old(chunks)[..i] + old(chunks)[i + 1..] && chunkCount == old(chunkCount) - 1
          else
            chunks == old(chunks)[i := Give(c, b.offset, unit)] && chunkCount == old(chunkCount)
    {
      var list := chunks;
      var i := FindListChunk(list, b.chunk);
      if i == |list| {
        return;
      }
      var size := Sub32(list[i].size, unit);
      if size == 0 && chunkCount > DefaultChunkMaxCount {
        chunks := list[..i] + list[i + 1..];
        chunkCount := chunkCount - 1;
      } else {
        ListChunksUpdate(list, nextId, i, Give(list[i], b.offset, unit));
        chunks := list[i := Give(list[i], b.offset, unit)];
      }
    }
  }
}
