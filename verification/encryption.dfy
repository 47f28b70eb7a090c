/**
 * The block encoder: the plaintext is cut into 32-character blocks, each
 * block is read as a big-endian number m, and c = m^e mod n is appended in
 * decimal, followed by '/', to the accumulated ciphertext.
 */
module Encryption {
  import opened Options
  import opened Arithmetic
  import opened Digits

  const BLOCK_SIZE: nat := 256
  const SIZE_OF_CHAR: nat := 8
  /** Characters per block, BLOCK_SIZE / SIZE_OF_CHAR; it does not depend on the key. */
  const BLOCK_LENGTH: nat := BLOCK_SIZE / SIZE_OF_CHAR
  /** The padding character ' '. */
  const SPACE: Byte := 32

  function Spaces(k: nat): (s: seq<Byte>)
    ensures |s| == k && forall i :: 0 <= i < k ==> s[i] == SPACE
  {
    seq(k, _ => SPACE)
  }

  // ---------------------------------------------------------------------
  // Specification of the framing
  // ---------------------------------------------------------------------

  /**
   * The blocks encryptString hands to encryptBlock: while at least 32
   * characters remain, the first 31 of them, after which 32 are discarded;
   * then a non-empty remainder padded with spaces to 32 characters.
   */
  function Blocks(text: seq<Byte>): (bs: seq<seq<Byte>>)
    decreases |text|
  {
    if |text| >= BLOCK_LENGTH then [text[..BLOCK_LENGTH - 1]] + Blocks(text[BLOCK_LENGTH..])
    else if |text| == 0 then []
    else [text + Spaces(BLOCK_LENGTH - |text|)]
  }

  /** ceil(L / 32) blocks come out of a text of length L; 31 characters give one block. */
  lemma {:induction false} BlocksCount(text: seq<Byte>)
    ensures |Blocks(text)| == (|text| + BLOCK_LENGTH - 1) / BLOCK_LENGTH
    decreases |text|
  {
    if |text| >= BLOCK_LENGTH {
      BlocksCount(text[BLOCK_LENGTH..]);
    }
  }

  /**
   * Full block k holds characters [32k, 32k + 31): the character at 32k + 31
   * is never encrypted.
   */
  lemma {:induction false} BlocksFull(text: seq<Byte>, k: nat)
    requires k < |text| / BLOCK_LENGTH
    ensures k < |Blocks(text)|
    ensures Blocks(text)[k] == text[BLOCK_LENGTH * k..BLOCK_LENGTH * k + BLOCK_LENGTH - 1]
    decreases k
  {
    if k > 0 {
      var rest := text[BLOCK_LENGTH..];
      BlocksFull(rest, k - 1);
      var lo := BLOCK_LENGTH * (k - 1);
      assert lo + BLOCK_LENGTH == BLOCK_LENGTH * k;
      SliceOfDrop(text, BLOCK_LENGTH, lo, lo + BLOCK_LENGTH - 1);
    }
  }

  /** A slice of the text after its first d characters is a slice of the text. */
  lemma SliceOfDrop(s: seq<Byte>, d: nat, i: nat, j: nat)
    requires d <= |s| && i <= j <= |s| - d
    ensures s[d..][i..j] == s[d + i..d + j]
  {
    assert forall t :: 0 <= t < j - i ==> s[d..][i..j][t] == s[d + i..d + j][t];
  }

  /**
   * A remainder of r characters, 0 < r < 32, becomes the last block, followed
   * by exactly 32 - r spaces.
   */
  lemma {:induction false} BlocksTail(text: seq<Byte>)
    requires |text| % BLOCK_LENGTH != 0
    ensures |Blocks(text)| == |text| / BLOCK_LENGTH + 1
    ensures Blocks(text)[|text| / BLOCK_LENGTH]
         == text[BLOCK_LENGTH * (|text| / BLOCK_LENGTH)..] + Spaces(BLOCK_LENGTH - |text| % BLOCK_LENGTH)
    decreases |text|
  {
    BlocksCount(text);
    if |text| >= BLOCK_LENGTH {
      var rest := text[BLOCK_LENGTH..];
      var q, r := |rest| / BLOCK_LENGTH, |rest| % BLOCK_LENGTH;
      assert |text| / BLOCK_LENGTH == q + 1 && |text| % BLOCK_LENGTH == r by {
        ModUnique(BLOCK_LENGTH, |text|, q + 1, r);
      }
      BlocksTail(rest);
      assert rest[BLOCK_LENGTH * q..] == text[BLOCK_LENGTH * (q + 1)..];
    }
  }

  /** Every block is non-empty: 31 characters when full, 32 when padded. */
  lemma {:induction false} BlocksLength(text: seq<Byte>, k: nat)
    requires k < |Blocks(text)|
    ensures |Blocks(text)[k]| == BLOCK_LENGTH - 1 || |Blocks(text)[k]| == BLOCK_LENGTH
    decreases k
  {
    if k > 0 {
      BlocksLength(text[BLOCK_LENGTH..], k - 1);
    }
  }

  /** Block k begins with character 32k of the text. */
  lemma {:induction false} BlocksFirst(text: seq<Byte>, k: nat)
    requires k < |Blocks(text)|
    ensures BLOCK_LENGTH * k < |text| && |Blocks(text)[k]| > 0
    ensures Blocks(text)[k][0] == text[BLOCK_LENGTH * k]
    decreases k
  {
    if k > 0 {
      BlocksFirst(text[BLOCK_LENGTH..], k - 1);
    }
  }

  /** The blocks laid end to end. */
  function Concat(bs: seq<seq<Byte>>): (s: seq<Byte>)
  {
    if |bs| == 0 then [] else bs[0] + Concat(bs[1..])
  }

  lemma {:induction false} ConcatSnoc(bs: seq<seq<Byte>>, b: seq<Byte>)
    ensures Concat(bs + [b]) == Concat(bs) + b
    decreases |bs|
  {
    if |bs| > 0 {
      assert (bs + [b])[1..] == bs[1..] + [b];
      ConcatSnoc(bs[1..], b);
    } else {
      assert bs + [b] == [b];
      assert Concat([b]) == b + Concat([]);
    }
  }

  /**
   * As written, a text of L characters comes back from the blocks as 31 of
   * every 32 characters, plus one padded block of 32 when L is not a multiple
   * of 32.
   */
  lemma {:induction false} BlocksConcatLength(text: seq<Byte>)
    ensures |Concat(Blocks(text))|
         == (BLOCK_LENGTH - 1) * (|text| / BLOCK_LENGTH) + (if |text| % BLOCK_LENGTH == 0 then 0 else BLOCK_LENGTH)
    decreases |text|
  {
    if |text| >= BLOCK_LENGTH {
      var rest := text[BLOCK_LENGTH..];
      BlocksConcatLength(rest);
      assert |text| / BLOCK_LENGTH == |rest| / BLOCK_LENGTH + 1 && |text| % BLOCK_LENGTH == |rest| % BLOCK_LENGTH by {
        ModUnique(BLOCK_LENGTH, |text|, |rest| / BLOCK_LENGTH + 1, |rest| % BLOCK_LENGTH);
      }
    }
  }

  /** Thirty-two 'a's are encrypted as the first thirty-one only. */
  lemma BlocksDropCharacter()
    ensures var text := seq(BLOCK_LENGTH, _ => 'a' as int as Byte);
      Concat(Blocks(text)) == text[..BLOCK_LENGTH - 1] && Concat(Blocks(text)) != text
  {
    var text := seq(BLOCK_LENGTH, _ => 'a' as int as Byte);
    assert Blocks(text) == [text[..BLOCK_LENGTH - 1]] + Blocks([]);
    assert Concat(Blocks(text)) == text[..BLOCK_LENGTH - 1] + Concat([]);
    assert |Concat(Blocks(text))| != |text|;
  }

  /**
   * The framing as evidently intended: whole blocks of 32 characters, the
   * same 32 that are erased from the text, then the padded remainder.
   */
  function FullBlocks(text: seq<Byte>): (bs: seq<seq<Byte>>)
    ensures forall k :: 0 <= k < |bs| ==> |bs[k]| == BLOCK_LENGTH
    decreases |text|
  {
    if |text| >= BLOCK_LENGTH then [text[..BLOCK_LENGTH]] + FullBlocks(text[BLOCK_LENGTH..])
    else if |text| == 0 then []
    else [text + Spaces(BLOCK_LENGTH - |text|)]
  }

  /** The spaces that fill the last block of a text of L characters. */
  function Padding(L: nat): (k: nat)
    ensures k < BLOCK_LENGTH && (L + k) % BLOCK_LENGTH == 0
  {
    var r := L % BLOCK_LENGTH;
    var q := L / BLOCK_LENGTH;
    if r == 0 then
      0
    else
      ModUnique(BLOCK_LENGTH, L + (BLOCK_LENGTH - r), q + 1, 0);
      BLOCK_LENGTH - r
  }

  /** The intended framing keeps every character: the blocks are the text, then its padding. */
  lemma {:induction false} FullBlocksConcat(text: seq<Byte>)
    ensures Concat(FullBlocks(text)) == text + Spaces(Padding(|text|))
    decreases |text|
  {
    if |text| >= BLOCK_LENGTH {
      var rest := text[BLOCK_LENGTH..];
      FullBlocksConcat(rest);
      assert |text| % BLOCK_LENGTH == |rest| % BLOCK_LENGTH by {
        ModUnique(BLOCK_LENGTH, |text|, |rest| / BLOCK_LENGTH + 1, |rest| % BLOCK_LENGTH);
      }
      assert Padding(|rest|) == Padding(|text|);
      assert text[..BLOCK_LENGTH] + (rest + Spaces(Padding(|rest|))) == text + Spaces(Padding(|text|));
    } else if |text| == 0 {
      assert text + Spaces(0) == [];
    } else {
      assert Concat(FullBlocks(text)) == text + Spaces(BLOCK_LENGTH - |text|) + [];
    }
  }

  /** Block k of the intended framing begins with character 32k of the text. */
  lemma {:induction false} FullBlocksFirst(text: seq<Byte>, k: nat)
    requires k < |FullBlocks(text)|
    ensures BLOCK_LENGTH * k < |text| && FullBlocks(text)[k][0] == text[BLOCK_LENGTH * k]
    decreases k
  {
    if k > 0 {
      FullBlocksFirst(text[BLOCK_LENGTH..], k - 1);
    }
  }

  /** The ciphertext of one block: c = m^e mod n in decimal, then '/'. */
  function EncryptedBlock(block: seq<Byte>, e: nat, n: nat): (s: string)
    requires n > 0
  {
    Decimal(ModPow(BytesToNat(block), e, n)) + "/"
  }

  /** A block's ciphertext is a decimal number below n and one '/' that ends it. */
  lemma EncryptedBlockShape(block: seq<Byte>, e: nat, n: nat)
    requires n > 0
    ensures var s := EncryptedBlock(block, e, n);
      |s| >= 2 && s[|s| - 1] == '/' && '/' !in s[..|s| - 1] &&
      ParseDecimal(s[..|s| - 1]) == Some(ModPow(BytesToNat(block), e, n)) &&
      ParseDecimal(s[..|s| - 1]).value < n
  {
    var c := ModPow(BytesToNat(block), e, n);
    var s := EncryptedBlock(block, e, n);
    assert s[..|s| - 1] == Decimal(c);
    DecimalRoundTrip(c);
  }

  /** The ciphertexts of a sequence of blocks, in order. */
  function EncryptedText(bs: seq<seq<Byte>>, e: nat, n: nat): (s: string)
    requires n > 0
  {
    if |bs| == 0 then [] else EncryptedBlock(bs[0], e, n) + EncryptedText(bs[1..], e, n)
  }

  /** A text of at least 32 characters: its first block's ciphertext, then the rest's. */
  lemma EncryptedTextFront(prefix: string, text: seq<Byte>, e: nat, n: nat)
    requires n > 0 && |text| >= BLOCK_LENGTH
    ensures prefix + EncryptedText(Blocks(text), e, n)
         == (prefix + EncryptedBlock(text[..BLOCK_LENGTH - 1], e, n)) + EncryptedText(Blocks(text[BLOCK_LENGTH..]), e, n)
  {
    var bs := Blocks(text);
    assert bs[1..] == Blocks(text[BLOCK_LENGTH..]);
  }

  /** A non-empty text shorter than 32 characters is one padded block. */
  lemma EncryptedTextLast(text: seq<Byte>, e: nat, n: nat)
    requires n > 0 && 0 < |text| < BLOCK_LENGTH
    ensures EncryptedText(Blocks(text), e, n) == EncryptedBlock(text + Spaces(BLOCK_LENGTH - |text|), e, n)
  {
    var bs := Blocks(text);
    assert |bs| == 1 && bs[1..] == [];
  }

  // ---------------------------------------------------------------------
  // The encryption window's state
  // ---------------------------------------------------------------------

  class Encryptor {
    var encryptedString: string
    var inputFileSelected: bool
    var publicKeySelected: bool
    var outputEncryptedFilepathSelected: bool

    constructor ()
      ensures encryptedString == [] && !inputFileSelected && !publicKeySelected && !outputEncryptedFilepathSelected
    {
      encryptedString := [];
      inputFileSelected, publicKeySelected, outputEncryptedFilepathSelected := false, false, false;
    }

    /**
     * checkUserInput: a public key and an output path are required, and a
     * plaintext file or non-empty text in the box.
     */
    method CheckUserInput(inputText: seq<Byte>) returns (ok: bool)
      ensures ok <==> publicKeySelected && outputEncryptedFilepathSelected && (inputFileSelected || inputText != [])
    {
      if !publicKeySelected || !outputEncryptedFilepathSelected {
        return false;
      }
      if !inputFileSelected && inputText == [] {
        return false;
      }
      return true;
    }

    /**
     * encryptBlock: render each character as 8 bits, read the bit string as
     * m, and append decimal(m^e mod n) and '/'.
     */
    method EncryptBlock(blockToEncrypt: seq<Byte>, publicExponent: nat, modulus: nat)
      requires modulus > 0
      modifies this`encryptedString
      ensures encryptedString == old(encryptedString) + EncryptedBlock(blockToEncrypt, publicExponent, modulus)
    {
      var binaryString: string := [];
      for charCounter := 0 to |blockToEncrypt|
        invariant binaryString == BytesToBinary(blockToEncrypt[..charCounter])
        invariant encryptedString == old(encryptedString)
      {
        BytesToBinaryAppend(blockToEncrypt[..charCounter], [blockToEncrypt[charCounter]]);
        assert BytesToBinary([blockToEncrypt[charCounter]]) == Bits(blockToEncrypt[charCounter], 8) + [];
        assert blockToEncrypt[..charCounter + 1] == blockToEncrypt[..charCounter] + [blockToEncrypt[charCounter]];
        binaryString := binaryString + Bits(blockToEncrypt[charCounter], 8);
      }
      assert blockToEncrypt[..|blockToEncrypt|] == blockToEncrypt;
      var valueToEncrypt := ParseBinary(binaryString);
      BytesToBinaryValue(blockToEncrypt);
      assert valueToEncrypt == BytesToNat(blockToEncrypt);
      var outputValue := ModPow(valueToEncrypt, publicExponent, modulus);
      encryptedString := encryptedString + (Decimal(outputValue) + "/");
    }

    /**
     * encryptString: pass each block of the framing to encryptBlock, so the
     * ciphertext of every block is appended in order.
     */
    method EncryptString(stringToEncrypt: seq<Byte>, publicExponent: nat, modulus: nat)
      requires modulus > 0
      modifies this`encryptedString
      ensures encryptedString == old(encryptedString) + EncryptedText(Blocks(stringToEncrypt), publicExponent, modulus)
    {
      var rest := stringToEncrypt;
      while |rest| >= BLOCK_LENGTH
        invariant old(encryptedString) + EncryptedText(Blocks(stringToEncrypt), publicExponent, modulus)
               == encryptedString + EncryptedText(Blocks(rest), publicExponent, modulus)
        decreases |rest|
      {
        var currentBlock := rest[..BLOCK_LENGTH - 1];
        EncryptedTextFront(encryptedString, rest, publicExponent, modulus);
        rest := rest[BLOCK_LENGTH..];
        EncryptBlock(currentBlock, publicExponent, modulus);
      }
      if |rest| != 0 {
        var paddingRequired := BLOCK_LENGTH - |rest|;
        ghost var original := rest;
        EncryptedTextLast(original, publicExponent, modulus);
        for i := 0 to paddingRequired
          invariant rest == original + Spaces(i)
        {
          rest := rest + [SPACE];
          assert original + Spaces(i + 1) == original + Spaces(i) + [SPACE];
        }
        EncryptBlock(rest, publicExponent, modulus);
      } else {
        assert Blocks(rest) == [];
      }
    }

    method ResetWindow()
      modifies this
      ensures encryptedString == [] && !inputFileSelected && !publicKeySelected && !outputEncryptedFilepathSelected
    {
      encryptedString := [];
      inputFileSelected, publicKeySelected, outputEncryptedFilepathSelected := false, false, false;
    }

    /**
     * goButton: check the input, encrypt the file's text (or else the text
     * box's), hand the ciphertext on for Base64 encoding and writing, and
     * reset the window. output is that ciphertext, or None on an input error.
     */
    method GoButton(fileText: seq<Byte>, boxText: seq<Byte>, publicExponent: nat, modulus: nat)
      returns (output: Option<string>)
      requires modulus > 0
      modifies this
      ensures old(publicKeySelected && outputEncryptedFilepathSelected && (inputFileSelected || boxText != [])) ==>
        var plaintext := if old(inputFileSelected) then fileText else boxText;
        output == Some(old(encryptedString) + EncryptedText(Blocks(plaintext), publicExponent, modulus)) &&
        encryptedString == [] && !inputFileSelected && !publicKeySelected && !outputEncryptedFilepathSelected
      ensures !old(publicKeySelected && outputEncryptedFilepathSelected && (inputFileSelected || boxText != [])) ==>
        output == None && encryptedString == old(encryptedString) &&
        inputFileSelected == old(inputFileSelected) && publicKeySelected == old(publicKeySelected) &&
        outputEncryptedFilepathSelected == old(outputEncryptedFilepathSelected)
    {
      var ok := CheckUserInput(boxText);
      if !ok {
        return None;
      }
      if inputFileSelected {
        EncryptString(fileText, publicExponent, modulus);
      } else if boxText != [] {
        EncryptString(boxText, publicExponent, modulus);
      } else {
        return None;
      }
      output := Some(encryptedString);
      ResetWindow();
    }
  }
}
