/**
 * The text fields of the identity block: a run of registers is unpacked to
 * bytes, the bytes are decoded as ASCII, and the text is cut at its first
 * NUL.  The packing side (`Pack`) is the inverse used to state the round
 * trip.
 */
module AsciiText {
  import opened Wrappers
  import opened Registers

  const NUL: char := '\0'

  /** The character whose code is the byte. */
  function Chr(b: Byte): (c: char)
    ensures c as int == b as int
  {
    b as char
  }

  /** Every byte is below 0x80, so the ASCII codec accepts the string. */
  predicate IsAscii(bytes: seq<Byte>)
  {
    forall i :: 0 <= i < |bytes| ==> bytes[i] < 0x80
  }

  /** Both bytes of a register are ASCII. */
  predicate AsciiWord(w: Word)
  {
    HighByte(w) < 0x80 && LowByte(w) < 0x80
  }

  /** Decoding bytes as ASCII: `None` stands for the decode error a byte of 0x80 or more raises. */
  function AsciiDecode(bytes: seq<Byte>): (r: Option<string>)
    ensures r.Some? <==> IsAscii(bytes)
    ensures r.Some? ==> |r.value| == |bytes|
    ensures r.Some? ==> forall i :: 0 <= i < |bytes| ==> r.value[i] == Chr(bytes[i])
  {
    if bytes == [] then Some([])
    else if bytes[0] >= 0x80 then None
    else
      match AsciiDecode(bytes[1..])
      case None => None
      case Some(rest) => Some([Chr(bytes[0])] + rest)
  }

  /** The first piece of `s` split at NUL: its longest prefix that holds no NUL. */
  function UpToNul(s: string): (r: string)
    ensures r <= s
    ensures NUL !in r
    ensures |r| == |s| || s[|r|] == NUL
  {
    if s == [] || s[0] == NUL then [] else [s[0]] + UpToNul(s[1..])
  }

  /** The three properties of `UpToNul` single out its result. */
  lemma {:induction false} UpToNulUnique(s: string, p: string)
    requires p <= s && NUL !in p
    requires |p| == |s| || s[|p|] == NUL
    ensures UpToNul(s) == p
  {
    if p != [] {
      UpToNulUnique(s[1..], p[1..]);
    }
  }

  /** A run of registers is ASCII text exactly when each of its registers is. */
  lemma AsciiWords(words: seq<Word>)
    ensures IsAscii(Unpacked(words)) <==> forall i :: 0 <= i < |words| ==> AsciiWord(words[i])
  {
    var bytes := Unpacked(words);
    if IsAscii(bytes) {
      forall i | 0 <= i < |words| ensures AsciiWord(words[i]) {
        UnpackedAt(words, i);
        assert bytes[2 * i] < 0x80 && bytes[2 * i + 1] < 0x80;
      }
    }
    if forall i :: 0 <= i < |words| ==> AsciiWord(words[i]) {
      forall n | 0 <= n < |bytes| ensures bytes[n] < 0x80 {
        var j := n / 2;
        UnpackedAt(words, j);
        assert AsciiWord(words[j]);
        assert n == 2 * j || n == 2 * j + 1;
      }
    }
  }

  /**
   * One text field: unpack, decode as ASCII, cut at the first NUL.  `None`
   * is the decode error; a text has no NUL and at most two characters per
   * register.
   */
  function DecodeText(words: seq<Word>): (r: Option<string>)
    ensures r.Some? <==> forall i :: 0 <= i < |words| ==> AsciiWord(words[i])
    ensures r.Some? ==> NUL !in r.value && |r.value| <= 2 * |words|
    ensures r.Some? ==>
      && (forall i :: 0 <= i < |r.value| ==> r.value[i] == Chr(Unpacked(words)[i]))
      && (|r.value| == 2 * |words| || Unpacked(words)[|r.value|] == 0)
  {
    AsciiWords(words);
    match AsciiDecode(Unpacked(words))
    case None => None
    case Some(text) => Some(UpToNul(text))
  }

  /** A string that can stand in a text field: ASCII and free of NUL. */
  predicate IsFieldText(s: string)
  {
    forall i :: 0 <= i < |s| ==> s[i] != NUL && s[i] as int < 0x80
  }

  /** The bytes of an ASCII string. */
  function Encode(s: string): (bytes: seq<Byte>)
    requires IsFieldText(s)
    ensures |bytes| == |s|
    ensures forall i :: 0 <= i < |s| ==> Chr(bytes[i]) == s[i] && bytes[i] < 0x80
  {
    seq(|s|, i requires 0 <= i < |s| => s[i] as Byte)
  }

  /** Consecutive pairs of bytes as registers, high byte first. */
  function Pair(bytes: seq<Byte>): (words: seq<Word>)
    requires |bytes| % 2 == 0
    ensures Unpacked(words) == bytes
  {
    if bytes == [] then [] else [Join(bytes[0], bytes[1])] + Pair(bytes[2..])
  }

  /** `s` packed into `k` registers, padded with NUL bytes. */
  function Pack(s: string, k: nat): (words: seq<Word>)
    requires IsFieldText(s) && |s| <= 2 * k
    ensures |words| == k
  {
    Pair(Encode(s) + seq(2 * k - |s|, _ => 0 as Byte))
  }

  /** Packing a field text, padding it with NULs and decoding gives the text back. */
  lemma PackRoundTrip(s: string, k: nat)
    requires IsFieldText(s) && |s| <= 2 * k
    ensures DecodeText(Pack(s, k)) == Some(s)
  {
    var bytes := Encode(s) + seq(2 * k - |s|, _ => 0 as Byte);
    assert Unpacked(Pack(s, k)) == bytes;
    assert IsAscii(bytes) by {
      forall i | 0 <= i < |bytes| ensures bytes[i] < 0x80 {
        if i < |s| { assert bytes[i] == Encode(s)[i]; }
      }
    }
    var text := AsciiDecode(bytes).value;
    assert text[..|s|] == s by {
      forall i | 0 <= i < |s| ensures text[i] == s[i] {
        assert bytes[i] == Encode(s)[i];
      }
    }
    assert NUL !in s by {
      forall i | 0 <= i < |s| ensures s[i] != NUL { }
    }
    assert |s| < |text| ==> text[|s|] == NUL by {
      if |s| < |text| { assert bytes[|s|] == 0; }
    }
    UpToNulUnique(text, s);
  }
}
