/** The text codec of rsa.rs: `_pack_string` packs the character codes of a message,
    four to a block, into 32-bit blocks; `_unpack_string` reads the bytes of the blocks back
    into text. */
module Codec {
  import opened Arith
  import opened Bits

  /** Characters per block (`BLOCK_SIZE`). */
  const BlockSize: nat := 4

  /** ASCII text: every character is one byte, so characters and UTF-8 bytes agree. */
  predicate IsAscii(s: string)
  {
    forall i :: 0 <= i < |s| ==> s[i] as int < 128
  }

  /** No group of four (numbered from the start) begins with the NUL character, so no group
      packs to a block whose top byte is zero. Every NUL-free text qualifies. */
  predicate NoGroupStartsWithNul(s: string)
  {
    forall i :: 0 <= i < |s| && i % BlockSize == 0 ==> s[i] != '\0'
  }

  /** The number of bytes UTF-8 spends on c. */
  function Utf8Width(c: char): (w: nat)
    ensures 1 <= w <= 4
    ensures w == 1 <==> c as int < 128
  {
    if c as int < 0x80 then 1
    else if c as int < 0x800 then 2
    else if c as int < 0x1_0000 then 3
    else 4
  }

  /** The length of s in UTF-8 bytes, which is what `str::len` counts: never less than the
      number of characters, and equal to it exactly for ASCII text. */
  function Utf8Len(s: string): (n: nat)
    ensures n >= |s|
    ensures n == |s| <==> IsAscii(s)
  {
    if s == [] then 0 else Utf8Width(s[0]) + Utf8Len(s[1..])
  }

  /** ceil(len / 4): the length of the block vector (`msg.len() / BLOCK_SIZE + offset`). */
  function NumBlocks(len: nat): nat
  {
    len / BlockSize + (if len % BlockSize == 0 then 0 else 1)
  }

  function Min(a: nat, b: nat): nat
  {
    if a <= b then a else b
  }

  /** The j-th group of at most four characters. */
  function Group(s: string, j: nat): string
    requires j < NumBlocks(|s|)
  {
    s[BlockSize * j .. Min(BlockSize * j + BlockSize, |s|)]
  }

  /** The character codes of g read as one base-256 number, first character most significant. */
  function BigEndian(g: string): nat
  {
    if g == [] then 0 else BigEndian(g[..|g| - 1]) * 256 + g[|g| - 1] as nat
  }

  /** The bytes of a number, most significant first, without leading zero bytes. */
  function ByteChars(b: nat): string
  {
    if b == 0 then [] else ByteChars(b / 256) + [(b % 256) as char]
  }

  /** The block that `_pack_string` builds from one group: every character's code is
      xor-ed into the low byte, and the block is shifted left by 8 after every character
      except the fourth. A full group is therefore its big-endian value, a shorter final group
      its big-endian value shifted by one more byte. */
  function BlockValue(g: string): nat
  {
    if |g| == BlockSize then BigEndian(g) else BigEndian(g) * 256
  }

  /** What `_pack_string` returns. */
  function Packed(s: string): seq<nat>
  {
    seq(NumBlocks(|s|), j requires 0 <= j < NumBlocks(|s|) => BlockValue(Group(s, j)))
  }

  /** The packing the codec is meant to perform: every group, the final one included, is
      its big-endian value, left-padded with zero bytes. */
  function PackedCorrected(s: string): seq<nat>
  {
    seq(NumBlocks(|s|), j requires 0 <= j < NumBlocks(|s|) => BigEndian(Group(s, j)))
  }

  /** What `_unpack_string` returns: the bytes of every block in order. */
  function Unpacked(blocks: seq<nat>): string
  {
    if blocks == [] then [] else ByteChars(blocks[0]) + Unpacked(blocks[1..])
  }

  /** The text followed by one NUL when its length is not a multiple of four. */
  function Padded(s: string): string
  {
    if |s| % BlockSize == 0 then s else s + ['\0']
  }

  // ---------------------------------------------------------------- the two loops

  /** `_pack_string`. The vector is allocated with ceil(len / 4) zero blocks, where len counts
      UTF-8 bytes (`msg.len()`), while the loop walks over the characters; `block_index` and
      `block_count` say where the next character goes. */
  method PackString(msg: string) returns (blocks: seq<U32>)
    ensures blocks == PackRun(msg, |msg|)
    ensures IsAscii(msg) ==> blocks == Packed(msg)
  {
    var len := Utf8Len(msg);
    var offset: nat := if len % BlockSize == 0 then 0 else 1;
    var buf := new U32[len / BlockSize + offset](_ => 0);
    var blockIndex: nat := 0;
    var blockCount: nat := 0;
    for i := 0 to |msg|
      invariant i == BlockSize * blockIndex + blockCount && blockCount < BlockSize
      invariant buf.Length == NumBlocks(len)
      invariant buf[..] == PackRun(msg, i)
    {
      DivModUnique(i, BlockSize, blockIndex, blockCount);
      NumBlocksBound(len, blockIndex);
      XorWord(buf[blockIndex], msg[i] as nat);
      PackRunNext(msg, i);
      // `blocks[block_index] ^= c`, then `<<= 8` unless the group is full, on a local copy
      var block := Xor(buf[blockIndex], msg[i] as nat);
      blockCount := blockCount + 1;
      if blockCount != BlockSize {
        block := ShiftLeft8(block);
      }
      buf[blockIndex] := block;
      if blockCount == BlockSize {
        blockIndex := blockIndex + 1;
        blockCount := 0;
      }
    }
    if IsAscii(msg) {
      PackRunFinal(msg);
    }
    blocks := buf[..];
  }

  /** `_pack_string` with the shift moved before the exclusive or (`blocks[block_index] <<= 8`
      ahead of `^= c as u32`), so that no block gains a trailing zero byte: every block is
      the big-endian value of its group. */
  method PackStringCorrected(msg: string) returns (blocks: seq<U32>)
    ensures blocks == PackRunCorrected(msg, |msg|)
    ensures IsAscii(msg) ==> blocks == PackedCorrected(msg)
  {
    var len := Utf8Len(msg);
    var offset: nat := if len % BlockSize == 0 then 0 else 1;
    var buf := new U32[len / BlockSize + offset](_ => 0);
    var blockIndex: nat := 0;
    var blockCount: nat := 0;
    for i := 0 to |msg|
      invariant i == BlockSize * blockIndex + blockCount && blockCount < BlockSize
      invariant buf.Length == NumBlocks(len)
      invariant buf[..] == PackRunCorrected(msg, i)
    {
      DivModUnique(i, BlockSize, blockIndex, blockCount);
      NumBlocksBound(len, blockIndex);
      PackRunCorrectedNext(msg, i);
      var shifted := ShiftLeft8(buf[blockIndex]);
      XorWord(shifted, msg[i] as nat);
      buf[blockIndex] := Xor(shifted, msg[i] as nat);
      blockCount := blockCount + 1;
      if blockCount == BlockSize {
        blockIndex := blockIndex + 1;
        blockCount := 0;
      }
    }
    if IsAscii(msg) {
      PackRunCorrectedFinal(msg);
    }
    blocks := buf[..];
  }

  /** The vector of `_pack_string` after i characters, built one character at a time from
      the zero vector: the character is xor-ed into block (i - 1) / 4, which is then shifted
      by a byte unless it now holds four characters. */
  function PackRun(msg: string, i: nat): (st: seq<U32>)
    requires i <= |msg|
    ensures |st| == NumBlocks(Utf8Len(msg))
    decreases i
  {
    if i == 0 then seq(NumBlocks(Utf8Len(msg)), _ => 0)
    else
      var prev, bi, count := PackRun(msg, i - 1), (i - 1) / BlockSize, (i - 1) % BlockSize + 1;
      NumBlocksBound(Utf8Len(msg), bi);
      XorWord(prev[bi], msg[i - 1] as nat);
      var v := Xor(prev[bi], msg[i - 1] as nat);
      prev[bi := if count == BlockSize then v else ShiftLeft8(v)]
  }

  /** One more character updates block i / 4 of the vector and nothing else. */
  lemma PackRunNext(msg: string, i: nat)
    requires i < |msg|
    ensures i / BlockSize < |PackRun(msg, i)|
    ensures var prev := PackRun(msg, i);
      var v := Xor(prev[i / BlockSize], msg[i] as nat);
      && v < WordModulus
      && PackRun(msg, i + 1) == prev[i / BlockSize := if i % BlockSize + 1 == BlockSize then v else ShiftLeft8(v)]
  {
    NumBlocksBound(Utf8Len(msg), i / BlockSize);
    XorWord(PackRun(msg, i)[i / BlockSize], msg[i] as nat);
  }

  /** The same for the corrected order: shift the block in progress, then xor the character in. */
  function PackRunCorrected(msg: string, i: nat): (st: seq<U32>)
    requires i <= |msg|
    ensures |st| == NumBlocks(Utf8Len(msg))
    decreases i
  {
    if i == 0 then seq(NumBlocks(Utf8Len(msg)), _ => 0)
    else
      var prev, bi := PackRunCorrected(msg, i - 1), (i - 1) / BlockSize;
      NumBlocksBound(Utf8Len(msg), bi);
      XorWord(ShiftLeft8(prev[bi]), msg[i - 1] as nat);
      prev[bi := Xor(ShiftLeft8(prev[bi]), msg[i - 1] as nat)]
  }

  lemma PackRunCorrectedNext(msg: string, i: nat)
    requires i < |msg|
    ensures i / BlockSize < |PackRunCorrected(msg, i)|
    ensures var prev := PackRunCorrected(msg, i);
      var v := Xor(ShiftLeft8(prev[i / BlockSize]), msg[i] as nat);
      && v < WordModulus
      && PackRunCorrected(msg, i + 1) == prev[i / BlockSize := v]
  {
    NumBlocksBound(Utf8Len(msg), i / BlockSize);
    XorWord(ShiftLeft8(PackRunCorrected(msg, i)[i / BlockSize]), msg[i] as nat);
  }

  /** Block j of `_pack_string`'s vector after the first i characters, in closed form: a finished
      group holds its block value, the group in progress its big-endian value shifted by one
      byte, and later blocks are still zero. */
  function BlockState(msg: string, i: nat, j: nat): nat
    requires i <= |msg| && j < NumBlocks(|msg|)
  {
    if j < i / BlockSize then BlockValue(Group(msg, j))
    else if j == i / BlockSize then BigEndian(msg[BlockSize * j .. i]) * 256
    else 0
  }

  /** Block j of the corrected vector after the first i characters. */
  function BlockStateCorrected(msg: string, i: nat, j: nat): nat
    requires i <= |msg| && j < NumBlocks(|msg|)
  {
    if j < i / BlockSize then BigEndian(Group(msg, j))
    else if j == i / BlockSize then BigEndian(msg[BlockSize * j .. i])
    else 0
  }

  /** Running the loop of `_pack_string` over i characters leaves every block in its closed
      form. */
  lemma {:induction false} PackRunIsState(msg: string, i: nat)
    requires IsAscii(msg) && i <= |msg|
    ensures forall j :: 0 <= j < NumBlocks(|msg|) ==> PackRun(msg, i)[j] == BlockState(msg, i, j)
    decreases i
  {
    if i > 0 {
      PackRunIsState(msg, i - 1);
      forall j | 0 <= j < NumBlocks(|msg|)
        ensures PackRun(msg, i)[j] == BlockState(msg, i, j)
      {
        BlockStateStep(msg, i - 1, j);
      }
    }
  }

  lemma {:induction false} PackRunCorrectedIsState(msg: string, i: nat)
    requires IsAscii(msg) && i <= |msg|
    ensures forall j :: 0 <= j < NumBlocks(|msg|) ==>
      PackRunCorrected(msg, i)[j] == BlockStateCorrected(msg, i, j)
    decreases i
  {
    if i > 0 {
      PackRunCorrectedIsState(msg, i - 1);
      forall j | 0 <= j < NumBlocks(|msg|)
        ensures PackRunCorrected(msg, i)[j] == BlockStateCorrected(msg, i, j)
      {
        BlockStateCorrectedStep(msg, i - 1, j);
      }
    }
  }

  /** `_unpack_string`. The blocks are visited last to first; each one gives up its low
      byte (`c & 0xFF`) until it is zero, and every byte is prepended to the result. */
  method UnpackString(blocks: seq<U32>) returns (res: string)
    ensures res == Unpacked(blocks)
  {
    res := [];
    var k := |blocks|;
    while k > 0
      invariant 0 <= k <= |blocks|
      invariant res == Unpacked(blocks[k..])
    {
      k := k - 1;
      ghost var rest := res;
      var c: U32 := blocks[k];
      while c > 0
        invariant ByteChars(c) + res == ByteChars(blocks[k]) + rest
      {
        AndLowByte(c);
        var ch := And(c, 0xFF);
        res := [ch as char] + res;
        AndClearLowByte(c);
        c := And(c, 0xFFFF_FF00);
        c := ShiftRight8(c);
      }
      assert blocks[k..][1..] == blocks[k + 1..];
    }
  }

  // ---------------------------------------------------------------- layout

  /** One character of `_pack_string` changes only the block in progress: the code is
      xor-ed in, and the block is shifted unless the group is now full. */
  lemma BlockStateStep(msg: string, i: nat, j: nat)
    requires IsAscii(msg) && i < |msg| && j < NumBlocks(|msg|)
    ensures i / BlockSize < NumBlocks(|msg|)
    ensures var bi := i / BlockSize;
      var v := Xor(BlockState(msg, i, bi), msg[i] as nat);
      && v < WordModulus
      && BlockState(msg, i + 1, j) ==
         if j != bi then BlockState(msg, i, j)
         else if i % BlockSize + 1 == BlockSize then v
         else ShiftLeft8(v)
  {
    var bi, r := i / BlockSize, i % BlockSize;
    var full := r + 1 == BlockSize;
    if full {
      DivModUnique(i + 1, BlockSize, bi + 1, 0);
    } else {
      DivModUnique(i + 1, BlockSize, bi, r + 1);
    }
    NumBlocksBound(|msg|, bi);
    PackStep(msg, BlockSize * bi, i);
    if j == bi && full {
      assert Group(msg, j) == msg[BlockSize * bi .. i + 1];
    } else if j == bi + 1 && full {
      assert msg[BlockSize * j .. i + 1] == [];
    }
  }

  lemma BlockStateCorrectedStep(msg: string, i: nat, j: nat)
    requires IsAscii(msg) && i < |msg| && j < NumBlocks(|msg|)
    ensures i / BlockSize < NumBlocks(|msg|) && BlockStateCorrected(msg, i, i / BlockSize) < WordModulus
    ensures var bi := i / BlockSize;
      var v := Xor(ShiftLeft8(BlockStateCorrected(msg, i, bi)), msg[i] as nat);
      && v < WordModulus
      && BlockStateCorrected(msg, i + 1, j) == if j != bi then BlockStateCorrected(msg, i, j) else v
  {
    var bi, r := i / BlockSize, i % BlockSize;
    var full := r + 1 == BlockSize;
    if full {
      DivModUnique(i + 1, BlockSize, bi + 1, 0);
    } else {
      DivModUnique(i + 1, BlockSize, bi, r + 1);
    }
    NumBlocksBound(|msg|, bi);
    PackStepCorrected(msg, BlockSize * bi, i);
    if j == bi && full {
      assert Group(msg, j) == msg[BlockSize * bi .. i + 1];
    } else if j == bi + 1 && full {
      assert msg[BlockSize * j .. i + 1] == [];
    }
  }

  /** After the last character the vector is the packing. */
  lemma PackRunFinal(msg: string)
    requires IsAscii(msg)
    ensures PackRun(msg, |msg|) == Packed(msg)
  {
    PackRunIsState(msg, |msg|);
    forall j | 0 <= j < NumBlocks(|msg|)
      ensures PackRun(msg, |msg|)[j] == Packed(msg)[j]
    {
      if j == |msg| / BlockSize {
        assert Group(msg, j) == msg[BlockSize * j .. |msg|];
      }
    }
  }

  lemma PackRunCorrectedFinal(msg: string)
    requires IsAscii(msg)
    ensures PackRunCorrected(msg, |msg|) == PackedCorrected(msg)
  {
    PackRunCorrectedIsState(msg, |msg|);
    forall j | 0 <= j < NumBlocks(|msg|)
      ensures PackRunCorrected(msg, |msg|)[j] == PackedCorrected(msg)[j]
    {
      if j == |msg| / BlockSize {
        assert Group(msg, j) == msg[BlockSize * j .. |msg|];
      }
    }
  }

  /** One character of `_pack_string`: xor-ing the code into the shifted block appends it to
      the big-endian value, and the value still has a free top byte while the group is short. */
  lemma PackStep(msg: string, start: nat, i: nat)
    requires IsAscii(msg) && start <= i < |msg| && i - start < BlockSize
    ensures Xor(BigEndian(msg[start..i]) * 256, msg[i] as nat) == BigEndian(msg[start..i + 1])
    ensures BigEndian(msg[start..i + 1]) < WordModulus
    ensures i + 1 - start < BlockSize ==>
      (BigEndian(msg[start..i + 1]) * 256) % WordModulus == BigEndian(msg[start..i + 1]) * 256
  {
    var g := msg[start..i + 1];
    assert g[..|g| - 1] == msg[start..i];
    MulModZero(BigEndian(msg[start..i]), 256);
    XorIntoLowByte(BigEndian(msg[start..i]) * 256, msg[i] as nat);
    BigEndianBound(g);
    assert Pow(256, 1) == 256;
    assert Pow(256, 2) == 65536;
    assert Pow(256, 3) == 16777216;
    assert Pow(256, 4) == WordModulus;
    if |g| < BlockSize {
      DivModUnique(BigEndian(g) * 256, WordModulus, 0, BigEndian(g) * 256);
    }
  }

  /** One character of the corrected packing: shifting the block, then xor-ing the code in,
      appends the character to the big-endian value. */
  lemma PackStepCorrected(msg: string, start: nat, i: nat)
    requires IsAscii(msg) && start <= i < |msg| && i - start < BlockSize
    ensures BigEndian(msg[start..i]) < WordModulus
    ensures Xor(ShiftLeft8(BigEndian(msg[start..i])), msg[i] as nat) == BigEndian(msg[start..i + 1])
    ensures BigEndian(msg[start..i + 1]) < WordModulus
  {
    if i > start {
      PackStep(msg, start, i - 1);
    } else {
      assert msg[start..i] == [];
    }
    PackStep(msg, start, i);
  }

  /** The big-endian value of ASCII characters fits in |g| bytes. */
  lemma {:induction false} BigEndianBound(g: string)
    requires forall i :: 0 <= i < |g| ==> g[i] as int < 256
    ensures BigEndian(g) < Pow(256, |g|)
    decreases |g|
  {
    if g != [] {
      var h := g[..|g| - 1];
      BigEndianBound(h);
      assert BigEndian(g) <= (Pow(256, |h|) - 1) * 256 + 255;
    }
  }

  /** The number of blocks is ceil(len / 4). */
  lemma PackedLength(s: string)
    ensures |Packed(s)| == |PackedCorrected(s)|
    ensures BlockSize * |Packed(s)| - BlockSize < |s| <= BlockSize * |Packed(s)|
  {
  }

  /** Four characters c1 c2 c3 c4 pack as c1<<24 | c2<<16 | c3<<8 | c4. */
  lemma PackedFullBlock(s: string, j: nat)
    requires BlockSize * j + BlockSize <= |s|
    ensures j < |Packed(s)|
    ensures var i := BlockSize * j;
      Packed(s)[j] == s[i] as nat * 0x100_0000 + s[i + 1] as nat * 0x1_0000 + s[i + 2] as nat * 0x100 + s[i + 3] as nat
  {
    var i := BlockSize * j;
    var g := Group(s, j);
    assert g == s[i..i + 4];
    var g1, g2, g3 := g[..1], g[..2], g[..3];
    assert g1[..0] == [] && g2[..1] == g1 && g3[..2] == g2 && g[..3] == g3;
    assert BigEndian(g1) == s[i] as nat;
    assert BigEndian(g2) == s[i] as nat * 0x100 + s[i + 1] as nat;
    assert BigEndian(g3) == (s[i] as nat * 0x100 + s[i + 1] as nat) * 0x100 + s[i + 2] as nat;
  }

  /** A final group of k < 4 characters packs as c1<<8k | ... | ck<<8: its block is the group
      followed by one zero byte, so its low byte is zero. */
  lemma PackedFinalBlock(s: string)
    requires |s| % BlockSize != 0
    ensures var last := |Packed(s)| - 1;
      && Packed(s)[last] == BigEndian(s[BlockSize * last ..] + ['\0'])
      && Packed(s)[last] % 256 == 0
  {
    var last := |Packed(s)| - 1;
    var g := s[BlockSize * last ..];
    assert Group(s, last) == g;
    assert (g + ['\0'])[..|g|] == g;
    MulModZero(BigEndian(g), 256);
  }

  /** Every block of an ASCII text fits in 32 bits. */
  lemma PackedFits(s: string)
    requires IsAscii(s)
    ensures forall j :: 0 <= j < |Packed(s)| ==> Packed(s)[j] < WordModulus && PackedCorrected(s)[j] < WordModulus
  {
    forall j | 0 <= j < |Packed(s)|
      ensures Packed(s)[j] < WordModulus && PackedCorrected(s)[j] < WordModulus
    {
      var g := Group(s, j);
      BigEndianBound(g);
      assert Pow(256, 1) == 256;
      assert Pow(256, 2) == 65536;
      assert Pow(256, 3) == 16777216;
      assert Pow(256, 4) == WordModulus;
    }
  }

  /** What `_pack_string` does is the intended packing of the text with one NUL appended
      when the length is not a multiple of four. */
  lemma PackedIsCorrectedOfPadded(s: string)
    ensures Packed(s) == PackedCorrected(Padded(s))
  {
    var t := Padded(s);
    assert NumBlocks(|t|) == NumBlocks(|s|);
    forall j | 0 <= j < NumBlocks(|s|)
      ensures Packed(s)[j] == PackedCorrected(t)[j]
    {
      var g := Group(s, j);
      if |g| == BlockSize {
        assert Group(t, j) == g;
      } else {
        assert Group(t, j) == g + ['\0'];
        assert (g + ['\0'])[..|g|] == g;
      }
    }
  }

  /** Splits off the first group of the intended packing. */
  lemma PackedCorrectedCons(s: string)
    requires s != []
    ensures var m := Min(BlockSize, |s|);
      PackedCorrected(s) == [BigEndian(s[..m])] + PackedCorrected(s[m..])
  {
    var m := Min(BlockSize, |s|);
    var rest := s[m..];
    assert NumBlocks(|s|) == 1 + NumBlocks(|rest|);
    assert Group(s, 0) == s[..m];
    forall j | 0 <= j < NumBlocks(|rest|)
      ensures PackedCorrected(s)[j + 1] == PackedCorrected(rest)[j]
    {
      GroupOfRest(s, j);
    }
  }

  /** Group j + 1 of s is group j of what follows the first group. */
  lemma GroupOfRest(s: string, j: nat)
    requires |s| > BlockSize && j < NumBlocks(|s| - BlockSize)
    ensures j + 1 < NumBlocks(|s|) && Group(s, j + 1) == Group(s[BlockSize..], j)
  {
    var rest := s[BlockSize..];
    NumBlocksBound(|rest|, j);
    NumBlocksBound(|s|, j + 1);
    var hi := Min(BlockSize * j + 2 * BlockSize, |s|);
    assert Min(BlockSize * j + BlockSize, |rest|) == hi - BlockSize;
    var lo := BlockSize * j + BlockSize;
    forall i | 0 <= i < hi - lo
      ensures rest[lo - BlockSize .. hi - BlockSize][i] == s[lo .. hi][i]
    {
      assert rest[lo - BlockSize + i] == s[lo + i];
    }
  }

  /** Block j exists exactly when it starts inside the text. */
  lemma NumBlocksBound(len: nat, j: nat)
    ensures j < NumBlocks(len) <==> BlockSize * j < len
  {
  }

  /** The bytes of a big-endian value give back the characters, provided the first is not NUL. */
  lemma {:induction false} ByteCharsBigEndian(g: string)
    requires g != [] && g[0] != '\0'
    requires forall i :: 0 <= i < |g| ==> g[i] as int < 256
    ensures ByteChars(BigEndian(g)) == g
    decreases |g|
  {
    var h := g[..|g| - 1];
    var b := BigEndian(g);
    if h == [] {
      assert BigEndian(h) == 0;
      assert b == g[0] as nat;
    } else {
      ByteCharsBigEndian(h);
      assert BigEndian(h) != 0;
    }
    DivModUnique(b, 256, BigEndian(h), g[|g| - 1] as nat);
    assert g == h + [g[|g| - 1]];
  }

  /** The intended packing round-trips exactly. */
  lemma {:induction false} UnpackPackCorrected(s: string)
    requires IsAscii(s) && NoGroupStartsWithNul(s)
    ensures Unpacked(PackedCorrected(s)) == s
    decreases |s|
  {
    if s != [] {
      var m := Min(BlockSize, |s|);
      var rest := s[m..];
      PackedCorrectedCons(s);
      var p := PackedCorrected(s);
      assert p[0] == BigEndian(s[..m]) && p[1..] == PackedCorrected(rest);
      assert Unpacked(p) == ByteChars(p[0]) + Unpacked(p[1..]);
      assert s[..m][0] == s[0];
      ByteCharsBigEndian(s[..m]);
      RestKeepsGroupStarts(s);
      UnpackPackCorrected(rest);
      assert s == s[..m] + rest;
    }
  }

  /** Dropping the first group keeps every later group start in place. */
  lemma RestKeepsGroupStarts(s: string)
    requires s != [] && IsAscii(s) && NoGroupStartsWithNul(s)
    ensures var rest := s[Min(BlockSize, |s|)..]; IsAscii(rest) && NoGroupStartsWithNul(rest)
  {
    var m := Min(BlockSize, |s|);
    var rest := s[m..];
    forall i | 0 <= i < |rest| && i % BlockSize == 0
      ensures rest[i] != '\0'
    {
      DivModUnique(i + BlockSize, BlockSize, i / BlockSize + 1, 0);
      assert rest[i] == s[i + m];
    }
  }

  /** The round trip of `_unpack_string` after `_pack_string`: exact when the length is a
      multiple of four, and otherwise one NUL character too long, because the final block
      keeps a trailing zero byte that is read back as '\0'. */
  lemma UnpackPack(s: string)
    requires IsAscii(s) && NoGroupStartsWithNul(s)
    ensures Unpacked(Packed(s)) == Padded(s)
    ensures Unpacked(Packed(s)) == s <==> |s| % BlockSize == 0
  {
    PackedIsCorrectedOfPadded(s);
    var t := Padded(s);
    assert IsAscii(t) by {
      forall i | 0 <= i < |t|
        ensures t[i] as int < 128
      {
        if i < |s| {
          assert t[i] == s[i];
        }
      }
    }
    assert NoGroupStartsWithNul(t) by {
      forall i | 0 <= i < |t| && i % BlockSize == 0
        ensures t[i] != '\0'
      {
        assert i < |s| && t[i] == s[i];
      }
    }
    UnpackPackCorrected(t);
  }

  /** "Hi" packs into the single block 0x486900 and comes back as "Hi" followed by a NUL. */
  lemma HiGainsNul()
    ensures Packed("Hi") == [0x48_6900]
    ensures Unpacked(Packed("Hi")) == "Hi\0" && Unpacked(Packed("Hi")) != "Hi"
  {
    var s := "Hi";
    assert Group(s, 0) == s;
    assert BigEndian(s) == 0x4869 by {
      assert s[..1] == "H";
      assert BigEndian(s[..1]) == 'H' as nat by {
        assert s[..1][..0] == [];
      }
    }
    assert NumBlocks(|s|) == 1;
    assert BlockValue(Group(s, 0)) == 0x48_6900;
    assert Packed(s) == [Packed(s)[0]];
    UnpackPack(s);
  }

  /** The vector is sized by bytes, not characters: "éééé" takes eight bytes in UTF-8, so
      `_pack_string` allocates two blocks for its four characters and the second stays zero;
      "éé" takes four bytes, which still fit in the one block its two characters need. */
  lemma ByteLengthSizesVector()
    ensures Utf8Len("éééé") == 8
    ensures |PackRun("éééé", 4)| == 2 && PackRun("éééé", 4)[1] == 0
    ensures |PackRun("éé", 2)| == NumBlocks(|"éé"|) == 1
  {
    assert "éé"[1..][1..] == [];
    var m := "éééé";
    assert Utf8Width('é') == 2;
    assert m[1..][1..][1..][1..] == [];
    assert PackRun(m, 1)[1] == 0;
    assert PackRun(m, 2)[1] == 0;
    assert PackRun(m, 3)[1] == 0;
  }
}
