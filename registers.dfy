/**
 * Holding registers as the transport returns them, and the byte layout the
 * Envoy uses to pack text into them: every register carries its high byte
 * first and its low byte second.
 */
module Registers {

  /** One holding register: an unsigned 16-bit word. */
  type Word = bv16

  /** One byte of a register. */
  type Byte = bv8

  /**
   * What a read of holding registers gives back: an error response (which
   * also stands for a connection that could not be opened or a request that
   * raised), or the registers in address order.
   */
  datatype Response = ErrorReply | Reply(registers: seq<Word>)

  /** The high byte of a register: shifted right by 8, masked to 8 bits. */
  function HighByte(w: Word): (b: Byte)
    ensures b as Word == w / 0x100
  {
    ((w >> 8) & 0xFF) as Byte
  }

  /** The low byte of a register: masked to 8 bits. */
  function LowByte(w: Word): (b: Byte)
    ensures b as Word == w % 0x100
  {
    (w & 0xFF) as Byte
  }

  /** The register that holds `hi` in its high byte and `lo` in its low byte. */
  function Join(hi: Byte, lo: Byte): (w: Word)
    ensures HighByte(w) == hi && LowByte(w) == lo
  {
    ((hi as Word) << 8) | (lo as Word)
  }

  /** Splitting a register into its two bytes loses nothing. */
  lemma JoinSplit(w: Word)
    ensures Join(HighByte(w), LowByte(w)) == w
  {
  }

  /** The bytes of a run of registers, high byte then low byte of each. */
  function Unpacked(words: seq<Word>): (bytes: seq<Byte>)
    ensures |bytes| == 2 * |words|
  {
    if words == [] then [] else [HighByte(words[0]), LowByte(words[0])] + Unpacked(words[1..])
  }

  /** Byte `2j` of the unpacked form is the high byte of register `j`, byte `2j+1` its low byte. */
  lemma {:induction false} UnpackedAt(words: seq<Word>, j: nat)
    requires j < |words|
    ensures Unpacked(words)[2 * j] == HighByte(words[j])
    ensures Unpacked(words)[2 * j + 1] == LowByte(words[j])
  {
    if j > 0 {
      UnpackedAt(words[1..], j - 1);
      assert Unpacked(words)[2..] == Unpacked(words[1..]);
    }
  }

  /** Unpacking one more register appends its two bytes. */
  lemma {:induction false} UnpackedSnoc(words: seq<Word>, w: Word)
    ensures Unpacked(words + [w]) == Unpacked(words) + [HighByte(w), LowByte(w)]
  {
    if words == [] {
      assert words + [w] == [w];
    } else {
      assert (words + [w])[1..] == words[1..] + [w];
      UnpackedSnoc(words[1..], w);
    }
  }

  /**
   * The byte-collecting loop of each text field: registers `base` to
   * `base + k - 1` are visited in order and each appends its high byte and
   * then its low byte.
   */
  method UnpackRegisters(regs: seq<Word>, base: nat, k: nat) returns (bytes: seq<Byte>)
    requires base + k <= |regs|
    ensures bytes == Unpacked(regs[base..base + k])
    ensures |bytes| == 2 * k
  {
    bytes := [];
    for i := 0 to k
      invariant bytes == Unpacked(regs[base..base + i])
    {
      var word := regs[base + i];
      bytes := bytes + [HighByte(word)];
      bytes := bytes + [LowByte(word)];
      assert regs[base..base + i + 1] == regs[base..base + i] + [word];
      UnpackedSnoc(regs[base..base + i], word);
    }
  }
}
