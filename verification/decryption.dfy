/**
 * The block decoder: the ciphertext is split at '/', each token is read as a
 * decimal c, m = c^d mod n is rendered in binary, left-padded with zeros to
 * whole bytes, and regrouped into characters appended to the accumulated
 * plaintext.
 */
module Decryption {
  import opened Options
  import opened Arithmetic
  import opened Digits

  const SIZE_OF_CHAR: nat := 8
  const DELIMITER: char := '/'

  // ---------------------------------------------------------------------
  // Specification of the split
  // ---------------------------------------------------------------------

  /**
   * The split decryptString performs, left to right: the complete tokens, each
   * ended by '/', and the text after the last '/'.
   */
  function Split(s: string): (r: (seq<string>, string))
    ensures DELIMITER !in r.1
    ensures forall i :: 0 <= i < |r.0| ==> DELIMITER !in r.0[i]
    decreases |s|
  {
    if |s| == 0 then ([], [])
    else
      var (tokens, pending) := Split(s[..|s| - 1]);
      if s[|s| - 1] == DELIMITER then (tokens + [pending], []) else (tokens, pending + [s[|s| - 1]])
  }

  /** Tokens followed each by '/'. */
  function Join(ts: seq<string>): (s: string)
  {
    if |ts| == 0 then [] else ts[0] + [DELIMITER] + Join(ts[1..])
  }

  lemma {:induction false} JoinSnoc(ts: seq<string>, t: string)
    ensures Join(ts + [t]) == Join(ts) + t + [DELIMITER]
    decreases |ts|
  {
    if |ts| > 0 {
      assert (ts + [t])[1..] == ts[1..] + [t];
      JoinSnoc(ts[1..], t);
    } else {
      assert ts + [t] == [t];
    }
  }

  /** The split loses nothing: its tokens, re-joined, followed by the rest, give s back. */
  lemma {:induction false} SplitJoinBack(s: string)
    ensures Join(Split(s).0) + Split(s).1 == s
    decreases |s|
  {
    if |s| > 0 {
      var s' := s[..|s| - 1];
      SplitJoinBack(s');
      var (tokens, pending) := Split(s');
      if s[|s| - 1] == DELIMITER {
        JoinSnoc(tokens, pending);
      }
      assert s == s' + [s[|s| - 1]];
    }
  }

  /** Reading one more character of s: '/' closes a token, anything else extends the pending text. */
  lemma SplitStep(s: string, i: nat)
    requires i < |s|
    ensures Split(s[..i + 1]) == if s[i] == DELIMITER then (Split(s[..i]).0 + [Split(s[..i]).1], [])
                                 else (Split(s[..i]).0, Split(s[..i]).1 + [s[i]])
  {
    assert s[..i + 1][..i] == s[..i];
  }

  /** Characters other than '/' only extend the pending text. */
  lemma {:induction false} SplitNoDelimiter(s: string, t: string)
    requires DELIMITER !in t
    ensures Split(s + t) == (Split(s).0, Split(s).1 + t)
    decreases |t|
  {
    if |t| > 0 {
      var t' := t[..|t| - 1];
      assert (s + t)[..|s + t| - 1] == s + t';
      SplitNoDelimiter(s, t');
      assert Split(s).1 + t' + [t[|t| - 1]] == Split(s).1 + t;
    } else {
      assert s + t == s;
      assert Split(s).1 + t == Split(s).1;
    }
  }

  /**
   * Joined tokens that contain no '/' split back into exactly those tokens;
   * text after the last '/' stays pending.
   */
  lemma {:induction false} SplitJoin(ts: seq<string>, tail: string)
    requires forall i :: 0 <= i < |ts| ==> DELIMITER !in ts[i]
    requires DELIMITER !in tail
    ensures Split(Join(ts) + tail) == (ts, tail)
    decreases |ts|
  {
    if |ts| == 0 {
      SplitNoDelimiter([], tail);
      assert Join(ts) + tail == [] + tail == tail;
    } else {
      var k := |ts| - 1;
      var front := ts[..k];
      assert front + [ts[k]] == ts;
      JoinSnoc(front, ts[k]);
      SplitJoin(front, []);
      assert Join(front) + [] == Join(front);
      SplitNoDelimiter(Join(front), ts[k]);
      assert Split(Join(front)) == (front, []);
      assert Split(Join(front)).1 + ts[k] == ts[k];
      assert Split(Join(front) + ts[k]) == (front, ts[k]);
      var s := Join(front) + ts[k] + [DELIMITER];
      assert s[..|s| - 1] == Join(front) + ts[k];
      assert Split(s) == (ts, []);
      SplitNoDelimiter(s, tail);
      assert Join(ts) == s;
      assert Split(s).1 + tail == tail;
    }
  }

  // ---------------------------------------------------------------------
  // Specification of one block
  // ---------------------------------------------------------------------

  /** The number a token denotes: mpz_set_str in base 10 on its C string, zero when invalid. */
  function TokenValue(token: string): nat {
    DecimalToNat(CString(token))
  }

  /** The characters decryptBlock appends for one token. */
  function DecryptedBlock(token: string, d: nat, n: nat): (r: seq<Byte>)
    requires n > 0
    ensures |r| >= 1
  {
    var bits := Binary(ModPow(TokenValue(token), d, n));
    PaddedBitsShape(bits);
    Regroup(PaddedBits(bits))
  }

  /** The characters decrypted from a sequence of tokens, in order. */
  function DecryptedText(ts: seq<string>, d: nat, n: nat): (r: seq<Byte>)
    requires n > 0
    ensures |r| >= |ts|
  {
    if |ts| == 0 then [] else DecryptedText(ts[..|ts| - 1], d, n) + DecryptedBlock(ts[|ts| - 1], d, n)
  }

  /** One more token appends its block's characters. */
  lemma DecryptedTextSnoc(ts: seq<string>, t: string, d: nat, n: nat)
    requires n > 0
    ensures DecryptedText(ts + [t], d, n) == DecryptedText(ts, d, n) + DecryptedBlock(t, d, n)
  {
    assert (ts + [t])[..|ts|] == ts;
  }

  lemma {:induction false} DecryptedTextAppend(xs: seq<string>, ys: seq<string>, d: nat, n: nat)
    requires n > 0
    ensures DecryptedText(xs + ys, d, n) == DecryptedText(xs, d, n) + DecryptedText(ys, d, n)
    decreases |ys|
  {
    if |ys| > 0 {
      var k := |ys| - 1;
      var front := ys[..k];
      assert ys == front + [ys[k]];
      assert xs + ys == (xs + front) + [ys[k]];
      DecryptedTextSnoc(xs + front, ys[k], d, n);
      DecryptedTextSnoc(front, ys[k], d, n);
      DecryptedTextAppend(xs, front, d, n);
      AppendAssociates(DecryptedText(xs, d, n), DecryptedText(front, d, n), DecryptedBlock(ys[k], d, n));
    } else {
      assert xs + ys == xs;
    }
  }

  lemma AppendAssociates(a: seq<Byte>, b: seq<Byte>, c: seq<Byte>)
    ensures (a + b) + c == a + (b + c)
  {
  }

  /** Regrouping one more whole byte of bits appends one more character. */
  lemma RegroupSnoc(s: string, m: nat)
    requires m % 8 == 0 && m + 8 <= |s|
    ensures Regroup(s[..m + 8]) == Regroup(s[..m]) + [ByteValue(s[m..m + 8])]
  {
    var a, b := Regroup(s[..m + 8]), Regroup(s[..m]) + [ByteValue(s[m..m + 8])];
    assert |a| == |b|;
    forall i | 0 <= i < |a|
      ensures a[i] == b[i]
    {
      assert s[..m + 8][8 * i..8 * i + 8] == s[8 * i..8 * i + 8];
      if i < m / 8 {
        assert s[..m][8 * i..8 * i + 8] == s[8 * i..8 * i + 8];
      }
    }
  }

  // ---------------------------------------------------------------------
  // The decryption window's state
  // ---------------------------------------------------------------------

  class Decryptor {
    var decryptedString: seq<Byte>
    var privateKeySelected: bool
    var encryptedFileSelected: bool
    var outputFilepathSelected: bool

    constructor ()
      ensures decryptedString == [] && !privateKeySelected && !encryptedFileSelected && !outputFilepathSelected
    {
      decryptedString := [];
      privateKeySelected, encryptedFileSelected, outputFilepathSelected := false, false, false;
    }

    /** checkUserInput: a private key, an encrypted file and an output path must all be selected. */
    method CheckUserInput() returns (ok: bool)
      ensures ok <==> privateKeySelected && encryptedFileSelected && outputFilepathSelected
    {
      if !privateKeySelected || !encryptedFileSelected || !outputFilepathSelected {
        return false;
      }
      return true;
    }

    /**
     * addLeadingZeros: prepend the '0's that make the length a multiple of 8,
     * between none and seven of them; the value is unchanged.
     */
    static method AddLeadingZeros(binaryString: string) returns (padded: string)
      ensures padded == PaddedBits(binaryString)
      ensures |padded| % SIZE_OF_CHAR == 0 && |binaryString| <= |padded| < |binaryString| + SIZE_OF_CHAR
      ensures padded == Zeros(|padded| - |binaryString|) + binaryString
      ensures IsBinary(binaryString) ==> ParseBinary(padded) == ParseBinary(binaryString)
    {
      var numberOfZerosRequired := SIZE_OF_CHAR - |binaryString| % SIZE_OF_CHAR;
      padded := binaryString;
      if numberOfZerosRequired != SIZE_OF_CHAR {
        padded := Zeros(numberOfZerosRequired) + padded;
      }
      PaddedBitsShape(binaryString);
      if IsBinary(binaryString) {
        PaddedBitsValue(binaryString);
      }
    }

    /**
     * decryptBlock: c from the token, m = c^d mod n in binary, padded to whole
     * bytes, then every complete group of 8 bits appended as one character.
     * The loop also reads the terminating NUL, which never completes a group.
     */
    method DecryptBlock(blockToDecrypt: string, privateExponent: nat, modulus: nat)
      requires modulus > 0
      modifies this`decryptedString
      ensures decryptedString == old(decryptedString) + DecryptedBlock(blockToDecrypt, privateExponent, modulus)
    {
      var valueToDecrypt := DecimalToNat(CString(blockToDecrypt));
      var decryptedDenary := ModPow(valueToDecrypt, privateExponent, modulus);
      var bits := Binary(decryptedDenary);
      bits := AddLeadingZeros(bits);
      AppendCharacters(bits);
    }

    /**
     * The character loop of decryptBlock: every complete group of 8 bits is
     * appended as one character. The loop also reads the terminating NUL,
     * which never completes a group.
     */
    method AppendCharacters(bits: string)
      requires |bits| % SIZE_OF_CHAR == 0
      modifies this`decryptedString
      ensures decryptedString == old(decryptedString) + Regroup(bits)
    {
      var currentByte: string := [];
      var tempCounter := 0;
      var currentBitCounter := 0;
      ghost var done := 0;
      while currentBitCounter < |bits|
        invariant currentBitCounter <= |bits|
        invariant 0 <= tempCounter < SIZE_OF_CHAR && currentBitCounter == done + tempCounter
        invariant done % SIZE_OF_CHAR == 0
        invariant currentByte == bits[done..currentBitCounter]
        invariant decryptedString == old(decryptedString) + Regroup(bits[..done])
      {
        currentByte := currentByte + [bits[currentBitCounter]];
        assert currentByte == bits[done..currentBitCounter + 1];
        tempCounter := tempCounter + 1;
        if tempCounter == SIZE_OF_CHAR {
          RegroupSnoc(bits, done);
          decryptedString := decryptedString + [ByteValue(currentByte)];
          currentByte := [];
          tempCounter := 0;
          done := done + SIZE_OF_CHAR;
        }
        currentBitCounter := currentBitCounter + 1;
      }
      // The last pass of the loop, at index |bits|, reads the terminating NUL;
      // the counter is then back at zero, so that pass completes no group.
      assert tempCounter == 0 by {
        ModUnique(SIZE_OF_CHAR, |bits|, done / SIZE_OF_CHAR, tempCounter);
      }
      currentByte := currentByte + ['\0'];
      tempCounter := tempCounter + 1;
      assert bits[..done] == bits;
    }

    /**
     * decryptString: walk the text up to and including its terminating NUL,
     * decrypting the characters gathered so far at every '/'. The text after
     * the last '/' is never decrypted.
     */
    method DecryptString(stringToDecrypt: string, privateExponent: nat, modulus: nat)
      requires modulus > 0
      modifies this`decryptedString
      ensures decryptedString == old(decryptedString) + DecryptedText(Split(stringToDecrypt).0, privateExponent, modulus)
    {
      var blockToDecrypt: string := [];
      var charCounter := 0;
      ghost var tokens: seq<string> := [];
      // The text as the loop reads it, terminating NUL included.
      ghost var terminated := stringToDecrypt + ['\0'];
      while charCounter <= |stringToDecrypt|
        invariant charCounter <= |terminated|
        invariant Split(terminated[..charCounter]) == (tokens, blockToDecrypt)
        invariant decryptedString == old(decryptedString) + DecryptedText(tokens, privateExponent, modulus)
      {
        var currentChar := if charCounter < |stringToDecrypt| then stringToDecrypt[charCounter] else '\0';
        assert currentChar == terminated[charCounter];
        SplitStep(terminated, charCounter);
        blockToDecrypt, tokens := ReadCharacter(currentChar, blockToDecrypt, privateExponent, modulus, old(decryptedString), tokens);
        charCounter := charCounter + 1;
      }
      assert terminated[..charCounter] == terminated;
      SplitStep(terminated, |stringToDecrypt|);
      assert terminated[..|stringToDecrypt|] == stringToDecrypt;
    }

    /**
     * One pass of decryptString's loop: '/' decrypts the characters gathered
     * so far and starts a new block, any other character is gathered. The
     * ghost tokens are the blocks completed before this character, whose
     * plaintext follows start.
     */
    method ReadCharacter(currentChar: char, blockToDecrypt: string, privateExponent: nat, modulus: nat,
                         ghost start: seq<Byte>, ghost tokens: seq<string>)
      returns (nextBlock: string, ghost nextTokens: seq<string>)
      requires modulus > 0
      requires decryptedString == start + DecryptedText(tokens, privateExponent, modulus)
      modifies this`decryptedString
      ensures currentChar != DELIMITER ==> nextBlock == blockToDecrypt + [currentChar] && decryptedString == old(decryptedString)
      ensures currentChar == DELIMITER ==> nextBlock == []
      ensures currentChar == DELIMITER ==>
        decryptedString == old(decryptedString) + DecryptedBlock(blockToDecrypt, privateExponent, modulus)
      ensures nextTokens == if currentChar == DELIMITER then tokens + [blockToDecrypt] else tokens
      ensures decryptedString == start + DecryptedText(nextTokens, privateExponent, modulus)
    {
      if currentChar != DELIMITER {
        nextBlock := blockToDecrypt + [currentChar];
        nextTokens := tokens;
      } else {
        DecryptBlock(blockToDecrypt, privateExponent, modulus);
        nextBlock := [];
        nextTokens := tokens + [blockToDecrypt];
        ghost var done, block := DecryptedText(tokens, privateExponent, modulus), DecryptedBlock(blockToDecrypt, privateExponent, modulus);
        assert decryptedString == start + (done + block) by {
          assert decryptedString == (start + done) + block;
        }
        DecryptedTextSnoc(tokens, blockToDecrypt, privateExponent, modulus);
      }
    }

    /** resetWindow: clear the plaintext and every selection. */
    method ResetWindow()
      modifies this
      ensures decryptedString == [] && !privateKeySelected && !encryptedFileSelected && !outputFilepathSelected
    {
      decryptedString := [];
      privateKeySelected, encryptedFileSelected, outputFilepathSelected := false, false, false;
    }

    /**
     * goButton as written: check the input, decrypt the (Base64-decoded) file
     * text and hand decryptedString on for writing. Nothing is reset, so the
     * plaintext of earlier runs stays in front.
     */
    method GoButton(textFromFile: string, privateExponent: nat, modulus: nat) returns (output: Option<seq<Byte>>)
      requires modulus > 0
      modifies this
      ensures privateKeySelected == old(privateKeySelected) && encryptedFileSelected == old(encryptedFileSelected)
      ensures outputFilepathSelected == old(outputFilepathSelected)
      ensures old(privateKeySelected && encryptedFileSelected && outputFilepathSelected) ==>
        output == Some(old(decryptedString) + DecryptedText(Split(textFromFile).0, privateExponent, modulus)) &&
        decryptedString == output.value
      ensures !old(privateKeySelected && encryptedFileSelected && outputFilepathSelected) ==>
        output == None && decryptedString == old(decryptedString)
    {
      var ok := CheckUserInput();
      if !ok {
        return None;
      }
      DecryptString(textFromFile, privateExponent, modulus);
      output := Some(decryptedString);
    }

    /**
     * goButton as evidently intended: the same run followed by resetWindow, as
     * the encryption window does, so the next run starts from nothing.
     */
    method GoButtonWithReset(textFromFile: string, privateExponent: nat, modulus: nat) returns (output: Option<seq<Byte>>)
      requires modulus > 0
      modifies this
      ensures old(privateKeySelected && encryptedFileSelected && outputFilepathSelected) ==>
        output == Some(old(decryptedString) + DecryptedText(Split(textFromFile).0, privateExponent, modulus)) &&
        decryptedString == [] && !privateKeySelected && !encryptedFileSelected && !outputFilepathSelected
      ensures !old(privateKeySelected && encryptedFileSelected && outputFilepathSelected) ==>
        output == None && decryptedString == old(decryptedString)
    {
      var ok := CheckUserInput();
      if !ok {
        return None;
      }
      DecryptString(textFromFile, privateExponent, modulus);
      output := Some(decryptedString);
      ResetWindow();
    }
  }

  // ---------------------------------------------------------------------
  // Two runs of the same window
  // ---------------------------------------------------------------------

  /**
   * Two decryptions in one session as written: the second output still
   * carries the first one's plaintext in front.
   */
  method TwoRuns(first: string, second: string, privateExponent: nat, modulus: nat)
    returns (output1: Option<seq<Byte>>, output2: Option<seq<Byte>>)
    requires modulus > 0
    ensures output1 == Some(DecryptedText(Split(first).0, privateExponent, modulus))
    ensures output2 == Some(DecryptedText(Split(first).0, privateExponent, modulus) +
                            DecryptedText(Split(second).0, privateExponent, modulus))
  {
    var window := new Decryptor();
    window.privateKeySelected, window.encryptedFileSelected, window.outputFilepathSelected := true, true, true;
    ghost var plain1 := DecryptedText(Split(first).0, privateExponent, modulus);
    output1 := window.GoButton(first, privateExponent, modulus);
    assert [] + plain1 == plain1;
    assert window.decryptedString == plain1;
    output2 := window.GoButton(second, privateExponent, modulus);
  }

  /**
   * Two decryptions in one session with the reset: after the selections are
   * made again, the second output is the second ciphertext's plaintext alone.
   */
  method TwoRunsWithReset(first: string, second: string, privateExponent: nat, modulus: nat)
    returns (output1: Option<seq<Byte>>, output2: Option<seq<Byte>>)
    requires modulus > 0
    ensures output1 == Some(DecryptedText(Split(first).0, privateExponent, modulus))
    ensures output2 == Some(DecryptedText(Split(second).0, privateExponent, modulus))
  {
    var window := new Decryptor();
    window.privateKeySelected, window.encryptedFileSelected, window.outputFilepathSelected := true, true, true;
    ghost var plain1 := DecryptedText(Split(first).0, privateExponent, modulus);
    ghost var plain2 := DecryptedText(Split(second).0, privateExponent, modulus);
    output1 := window.GoButtonWithReset(first, privateExponent, modulus);
    assert [] + plain1 == plain1;
    window.privateKeySelected, window.encryptedFileSelected, window.outputFilepathSelected := true, true, true;
    output2 := window.GoButtonWithReset(second, privateExponent, modulus);
    assert [] + plain2 == plain2;
  }

  /**
   * Whenever the first ciphertext holds a complete token, the output of the
   * second run as written differs from that second run's own plaintext.
   */
  lemma StaleOutput(first: string, second: string, privateExponent: nat, modulus: nat)
    requires modulus > 0 && Split(first).0 != []
    ensures DecryptedText(Split(first).0, privateExponent, modulus) + DecryptedText(Split(second).0, privateExponent, modulus)
         != DecryptedText(Split(second).0, privateExponent, modulus)
  {
    var stale := DecryptedText(Split(first).0, privateExponent, modulus);
    assert |stale| >= 1;
  }
}
