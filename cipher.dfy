/** The Minisculus cipher engine: a per-symbol shift by the wheel offset, with an optional
    third wheel that is fed the index of the plaintext symbol just processed. */
module Cipher {
  import opened Failures
  import opened Alphabet
  import opened Wheels

  /** The ciphertext of `text` when the third wheel holds `wheel3` before its first symbol;
      the first symbol off the dial fails the whole message. */
  function EncryptFrom(text: seq<char>, wheel1: int, wheel2: int, enableWheel3: bool, wheel3: int): (r: Result<seq<char>>)
    decreases |text|
  {
    if text == [] then Ok([])
    else match KeyToInt(text[0])
      case Err(e) => Err(e)
      case Ok(plainInt) =>
        var cypherChar := IntToKey(plainInt + WheelOffset(wheel1, wheel2, wheel3));
        var rest := EncryptFrom(text[1..], wheel1, wheel2, enableWheel3, if enableWheel3 then plainInt else wheel3);
        if rest.Err? then rest else Ok([cypherChar] + rest.value)
  }

  /** The plaintext recovered from `text` when the third wheel holds `wheel3` before its
      first symbol; the feedback is the index of the recovered symbol. */
  function DecryptFrom(text: seq<char>, wheel1: int, wheel2: int, enableWheel3: bool, wheel3: int): (r: Result<seq<char>>)
    decreases |text|
  {
    if text == [] then Ok([])
    else match KeyToInt(text[0])
      case Err(e) => Err(e)
      case Ok(cipherInt) =>
        var plainChar := IntToKey(cipherInt - WheelOffset(wheel1, wheel2, wheel3));
        var rest := DecryptFrom(text[1..], wheel1, wheel2, enableWheel3,
                                if enableWheel3 then KeyToInt(plainChar).value else wheel3);
        if rest.Err? then rest else Ok([plainChar] + rest.value)
  }

  /** A whole message: the third wheel starts at 0. */
  function Encryption(plainText: seq<char>, wheel1: int, wheel2: int, enableWheel3: bool): Result<seq<char>> {
    EncryptFrom(plainText, wheel1, wheel2, enableWheel3, 0)
  }

  function Decryption(cipherText: seq<char>, wheel1: int, wheel2: int, enableWheel3: bool): Result<seq<char>> {
    DecryptFrom(cipherText, wheel1, wheel2, enableWheel3, 0)
  }

  /** `done` followed by the outcome for the rest of a message. */
  function Prepend(done: seq<char>, rest: Result<seq<char>>): Result<seq<char>> {
    if rest.Ok? then Ok(done + rest.value) else rest
  }

  lemma PrependNothing(rest: Result<seq<char>>)
    ensures Prepend([], rest) == rest
  {
    if rest.Ok? {
      assert [] + rest.value == rest.value;
    }
  }

  lemma PrependStep(done: seq<char>, ch: char, rest: Result<seq<char>>)
    ensures Prepend(done, if rest.Err? then rest else Ok([ch] + rest.value)) == Prepend(done + [ch], rest)
  {
    if rest.Ok? {
      assert done + ([ch] + rest.value) == done + [ch] + rest.value;
    }
  }

  /** One symbol of the encryption loop: a symbol off the dial ends the message with its
      error, any other moves its ciphertext symbol from the outcome to `done`. */
  lemma EncryptStep(text: seq<char>, i: int, done: seq<char>, wheel1: int, wheel2: int, enableWheel3: bool, wheel3: int)
    requires 0 <= i < |text|
    ensures KeyToInt(text[i]).Err? ==>
      Prepend(done, EncryptFrom(text[i..], wheel1, wheel2, enableWheel3, wheel3)) == Err(KeyToInt(text[i]).error)
    ensures KeyToInt(text[i]).Ok? ==>
      Prepend(done, EncryptFrom(text[i..], wheel1, wheel2, enableWheel3, wheel3))
      == Prepend(done + [IntToKey(KeyToInt(text[i]).value + WheelOffset(wheel1, wheel2, wheel3))],
                 EncryptFrom(text[i + 1..], wheel1, wheel2, enableWheel3,
                             if enableWheel3 then KeyToInt(text[i]).value else wheel3))
  {
    assert text[i..][0] == text[i] && text[i..][1..] == text[i + 1..];
    var key := KeyToInt(text[i]);
    if key.Ok? {
      PrependStep(done, IntToKey(key.value + WheelOffset(wheel1, wheel2, wheel3)),
                  EncryptFrom(text[i + 1..], wheel1, wheel2, enableWheel3, if enableWheel3 then key.value else wheel3));
    }
  }

  /** One symbol of the decryption loop; the feedback is the index of the recovered symbol. */
  lemma DecryptStep(text: seq<char>, i: int, done: seq<char>, wheel1: int, wheel2: int, enableWheel3: bool, wheel3: int)
    requires 0 <= i < |text|
    ensures KeyToInt(text[i]).Err? ==>
      Prepend(done, DecryptFrom(text[i..], wheel1, wheel2, enableWheel3, wheel3)) == Err(KeyToInt(text[i]).error)
    ensures KeyToInt(text[i]).Ok? ==>
      var plainChar := IntToKey(KeyToInt(text[i]).value - WheelOffset(wheel1, wheel2, wheel3));
      Prepend(done, DecryptFrom(text[i..], wheel1, wheel2, enableWheel3, wheel3))
      == Prepend(done + [plainChar],
                 DecryptFrom(text[i + 1..], wheel1, wheel2, enableWheel3,
                             if enableWheel3 then KeyToInt(plainChar).value else wheel3))
  {
    assert text[i..][0] == text[i] && text[i..][1..] == text[i + 1..];
    var key := KeyToInt(text[i]);
    if key.Ok? {
      var plainChar := IntToKey(key.value - WheelOffset(wheel1, wheel2, wheel3));
      PrependStep(done, plainChar,
                  DecryptFrom(text[i + 1..], wheel1, wheel2, enableWheel3,
                              if enableWheel3 then KeyToInt(plainChar).value else wheel3));
    }
  }

  /** The loops start with nothing done and the whole text ahead, and end with nothing ahead. */
  lemma LoopBounds(text: seq<char>, done: seq<char>)
    ensures text[0..] == text
    ensures text[|text|..] == [] && done + [] == done
  {
  }

  /** Encrypts symbol by symbol, appending to the ciphertext and updating the third wheel. */
  method Encrypt(plainText: seq<char>, wheel1: int, wheel2: int, enableWheel3: bool) returns (r: Result<seq<char>>)
    ensures r == Encryption(plainText, wheel1, wheel2, enableWheel3)
  {
    var cipherText: seq<char> := [];
    var wheel3 := 0;
    LoopBounds(plainText, cipherText);
    PrependNothing(Encryption(plainText, wheel1, wheel2, enableWheel3));
    for i := 0 to |plainText|
      invariant Encryption(plainText, wheel1, wheel2, enableWheel3)
        == Prepend(cipherText, EncryptFrom(plainText[i..], wheel1, wheel2, enableWheel3, wheel3))
    {
      EncryptStep(plainText, i, cipherText, wheel1, wheel2, enableWheel3, wheel3);
      var plainChar := plainText[i];
      var key := KeyToInt(plainChar);
      if key.Err? {
        return Err(key.error);
      }
      var plainInt := key.value;
      var cypherInt := plainInt + WheelOffset(wheel1, wheel2, wheel3);
      var cypherChar := IntToKey(cypherInt);
      cipherText := cipherText + [cypherChar];
      if enableWheel3 {
        wheel3 := plainInt;
      }
    }
    LoopBounds(plainText, cipherText);
    return Ok(cipherText);
  }

  /** Decrypts symbol by symbol; with feedback on, the third wheel takes the index of the
      symbol just recovered. */
  method Decrypt(cipherText: seq<char>, wheel1: int, wheel2: int, enableWheel3: bool) returns (r: Result<seq<char>>)
    ensures r == Decryption(cipherText, wheel1, wheel2, enableWheel3)
  {
    var plainText: seq<char> := [];
    var wheel3 := 0;
    LoopBounds(cipherText, plainText);
    PrependNothing(Decryption(cipherText, wheel1, wheel2, enableWheel3));
    for i := 0 to |cipherText|
      invariant Decryption(cipherText, wheel1, wheel2, enableWheel3)
        == Prepend(plainText, DecryptFrom(cipherText[i..], wheel1, wheel2, enableWheel3, wheel3))
    {
      DecryptStep(cipherText, i, plainText, wheel1, wheel2, enableWheel3, wheel3);
      var cipherChar := cipherText[i];
      var key := KeyToInt(cipherChar);
      if key.Err? {
        return Err(key.error);
      }
      var cipherInt := key.value;
      var plainInt := cipherInt - WheelOffset(wheel1, wheel2, wheel3);
      var plainChar := IntToKey(plainInt);
      plainText := plainText + [plainChar];
      if enableWheel3 {
        wheel3 := KeyToInt(plainChar).value;
      }
    }
    LoopBounds(cipherText, plainText);
    return Ok(plainText);
  }

  // ---------------------------------------------------------------------------------------
  // Properties of the cipher

  lemma IsTextSplit(text: seq<char>)
    requires text != []
    ensures IsText(text) <==> IsKey(text[0]) && IsText(text[1..])
  {
    if IsKey(text[0]) && IsText(text[1..]) {
      forall i | 0 <= i < |text| ensures IsKey(text[i]) {
        if i > 0 { assert text[i] == text[1..][i - 1]; }
      }
    }
  }

  lemma IsTextCons(ch: char, rest: seq<char>)
    ensures IsText([ch] + rest) <==> IsKey(ch) && IsText(rest)
  {
    assert ([ch] + rest)[0] == ch && ([ch] + rest)[1..] == rest;
    IsTextSplit([ch] + rest);
  }

  /** Encryption succeeds exactly on texts over the dial, and then yields one symbol of the
      dial per input symbol. */
  lemma {:induction false} EncryptFromShape(text: seq<char>, wheel1: int, wheel2: int, enableWheel3: bool, wheel3: int)
    ensures var r := EncryptFrom(text, wheel1, wheel2, enableWheel3, wheel3);
      (r.Ok? <==> IsText(text)) && (r.Err? ==> r.error == InvalidSymbol)
      && (r.Ok? ==> |r.value| == |text| && IsText(r.value))
    decreases |text|
  {
    if text != [] {
      IsTextSplit(text);
      var key := KeyToInt(text[0]);
      if key.Ok? {
        var plainInt := key.value;
        var cypherChar := IntToKey(plainInt + WheelOffset(wheel1, wheel2, wheel3));
        var rest := EncryptFrom(text[1..], wheel1, wheel2, enableWheel3, if enableWheel3 then plainInt else wheel3);
        EncryptFromShape(text[1..], wheel1, wheel2, enableWheel3, if enableWheel3 then plainInt else wheel3);
        if rest.Ok? {
          KeyToIntAccepts(cypherChar);
          IsTextCons(cypherChar, rest.value);
        }
      }
    }
  }

  /** Decryption succeeds exactly on texts over the dial, and then yields one symbol of the
      dial per input symbol. */
  lemma {:induction false} DecryptFromShape(text: seq<char>, wheel1: int, wheel2: int, enableWheel3: bool, wheel3: int)
    ensures var r := DecryptFrom(text, wheel1, wheel2, enableWheel3, wheel3);
      (r.Ok? <==> IsText(text)) && (r.Err? ==> r.error == InvalidSymbol)
      && (r.Ok? ==> |r.value| == |text| && IsText(r.value))
    decreases |text|
  {
    if text != [] {
      IsTextSplit(text);
      var key := KeyToInt(text[0]);
      if key.Ok? {
        var plainChar := IntToKey(key.value - WheelOffset(wheel1, wheel2, wheel3));
        var next := if enableWheel3 then KeyToInt(plainChar).value else wheel3;
        var rest := DecryptFrom(text[1..], wheel1, wheel2, enableWheel3, next);
        DecryptFromShape(text[1..], wheel1, wheel2, enableWheel3, next);
        if rest.Ok? {
          IsTextCons(plainChar, rest.value);
        }
      }
    }
  }

  /** Decryption undoes encryption under the same wheels and the same starting third wheel:
      both sides feed the third wheel the same plaintext index at every position. */
  lemma {:induction false} DecryptFromEncryptFrom(text: seq<char>, wheel1: int, wheel2: int, enableWheel3: bool, wheel3: int)
    requires IsText(text)
    ensures EncryptFrom(text, wheel1, wheel2, enableWheel3, wheel3).Ok?
    ensures DecryptFrom(EncryptFrom(text, wheel1, wheel2, enableWheel3, wheel3).value, wheel1, wheel2, enableWheel3, wheel3)
         == Ok(text)
    decreases |text|
  {
    EncryptFromShape(text, wheel1, wheel2, enableWheel3, wheel3);
    if text != [] {
      IsTextSplit(text);
      var plainInt := KeyToInt(text[0]).value;
      var offset := WheelOffset(wheel1, wheel2, wheel3);
      var cypherChar := IntToKey(plainInt + offset);
      var next := if enableWheel3 then plainInt else wheel3;
      EncryptFromShape(text[1..], wheel1, wheel2, enableWheel3, next);
      var rest := EncryptFrom(text[1..], wheel1, wheel2, enableWheel3, next).value;
      var cipherText := [cypherChar] + rest;
      assert EncryptFrom(text, wheel1, wheel2, enableWheel3, wheel3).value == cipherText;
      assert cipherText[0] == cypherChar && cipherText[1..] == rest;
      ShiftThenUnshift(text[0], offset);
      var plainChar := IntToKey(KeyToInt(cypherChar).value - offset);
      assert plainChar == text[0];
      DecryptFromEncryptFrom(text[1..], wheel1, wheel2, enableWheel3, next);
      assert [text[0]] + text[1..] == text;
    }
  }

  /** Encryption undoes decryption under the same wheels and the same starting third wheel. */
  lemma {:induction false} EncryptFromDecryptFrom(text: seq<char>, wheel1: int, wheel2: int, enableWheel3: bool, wheel3: int)
    requires IsText(text)
    ensures DecryptFrom(text, wheel1, wheel2, enableWheel3, wheel3).Ok?
    ensures EncryptFrom(DecryptFrom(text, wheel1, wheel2, enableWheel3, wheel3).value, wheel1, wheel2, enableWheel3, wheel3)
         == Ok(text)
    decreases |text|
  {
    DecryptFromShape(text, wheel1, wheel2, enableWheel3, wheel3);
    if text != [] {
      IsTextSplit(text);
      var cipherInt := KeyToInt(text[0]).value;
      var offset := WheelOffset(wheel1, wheel2, wheel3);
      var plainChar := IntToKey(cipherInt - offset);
      var next := if enableWheel3 then KeyToInt(plainChar).value else wheel3;
      DecryptFromShape(text[1..], wheel1, wheel2, enableWheel3, next);
      var rest := DecryptFrom(text[1..], wheel1, wheel2, enableWheel3, next).value;
      var plainText := [plainChar] + rest;
      assert DecryptFrom(text, wheel1, wheel2, enableWheel3, wheel3).value == plainText;
      assert plainText[0] == plainChar && plainText[1..] == rest;
      UnshiftThenShift(text[0], offset);
      assert IntToKey(KeyToInt(plainChar).value + offset) == text[0];
      EncryptFromDecryptFrom(text[1..], wheel1, wheel2, enableWheel3, next);
      assert [text[0]] + text[1..] == text;
    }
  }

  /** The round trip for whole messages, in both directions and for every wheel setting:
      a text over the dial encrypts, and decrypting the result gives the text back; a text
      with any other symbol fails with InvalidSymbol. */
  lemma RoundTrip(text: seq<char>, wheel1: int, wheel2: int, enableWheel3: bool)
    ensures Encryption(text, wheel1, wheel2, enableWheel3).Ok? <==> IsText(text)
    ensures Encryption(text, wheel1, wheel2, enableWheel3).Err? ==> Encryption(text, wheel1, wheel2, enableWheel3).error == InvalidSymbol
    ensures Encryption(text, wheel1, wheel2, enableWheel3).Ok? ==>
      Decryption(Encryption(text, wheel1, wheel2, enableWheel3).value, wheel1, wheel2, enableWheel3) == Ok(text)
    ensures Decryption(text, wheel1, wheel2, enableWheel3).Ok? <==> IsText(text)
    ensures Decryption(text, wheel1, wheel2, enableWheel3).Ok? ==>
      Encryption(Decryption(text, wheel1, wheel2, enableWheel3).value, wheel1, wheel2, enableWheel3) == Ok(text)
  {
    EncryptFromShape(text, wheel1, wheel2, enableWheel3, 0);
    DecryptFromShape(text, wheel1, wheel2, enableWheel3, 0);
    if IsText(text) {
      DecryptFromEncryptFrom(text, wheel1, wheel2, enableWheel3, 0);
      EncryptFromDecryptFrom(text, wheel1, wheel2, enableWheel3, 0);
    }
  }

  /** A text over the dial encrypts to its first symbol's ciphertext followed by the
      ciphertext of the rest, with the third wheel moved on. */
  lemma EncryptFromCons(text: seq<char>, wheel1: int, wheel2: int, enableWheel3: bool, wheel3: int)
    requires text != [] && IsText(text)
    ensures IsKey(text[0]) && IsText(text[1..])
    ensures var p := KeyToInt(text[0]).value;
      var rest := EncryptFrom(text[1..], wheel1, wheel2, enableWheel3, if enableWheel3 then p else wheel3);
      rest.Ok? && |rest.value| == |text| - 1
      && EncryptFrom(text, wheel1, wheel2, enableWheel3, wheel3)
         == Ok([IntToKey(p + WheelOffset(wheel1, wheel2, wheel3))] + rest.value)
  {
    IsTextSplit(text);
    var p := KeyToInt(text[0]).value;
    EncryptFromShape(text[1..], wheel1, wheel2, enableWheel3, if enableWheel3 then p else wheel3);
  }

  /** A text over the dial decrypts to its first symbol's plaintext followed by the plaintext
      of the rest, with the third wheel moved on. */
  lemma DecryptFromCons(text: seq<char>, wheel1: int, wheel2: int, enableWheel3: bool, wheel3: int)
    requires text != [] && IsText(text)
    ensures IsKey(text[0]) && IsText(text[1..])
    ensures var plainChar := IntToKey(KeyToInt(text[0]).value - WheelOffset(wheel1, wheel2, wheel3));
      var rest := DecryptFrom(text[1..], wheel1, wheel2, enableWheel3,
                              if enableWheel3 then KeyToInt(plainChar).value else wheel3);
      rest.Ok? && |rest.value| == |text| - 1
      && DecryptFrom(text, wheel1, wheel2, enableWheel3, wheel3) == Ok([plainChar] + rest.value)
  {
    IsTextSplit(text);
    var plainChar := IntToKey(KeyToInt(text[0]).value - WheelOffset(wheel1, wheel2, wheel3));
    DecryptFromShape(text[1..], wheel1, wheel2, enableWheel3, if enableWheel3 then KeyToInt(plainChar).value else wheel3);
  }

  /** Symbol i of the ciphertext is symbol i of the text shifted by the offset of the wheels,
      the third wheel holding the index of plaintext symbol i - 1 when feedback is on (its
      starting value at i = 0, and always when feedback is off). */
  lemma {:induction false} EncryptFromAt(text: seq<char>, wheel1: int, wheel2: int, enableWheel3: bool, wheel3: int, i: int)
    requires IsText(text) && 0 <= i < |text|
    ensures EncryptFrom(text, wheel1, wheel2, enableWheel3, wheel3).Ok?
    ensures |EncryptFrom(text, wheel1, wheel2, enableWheel3, wheel3).value| == |text|
    ensures EncryptFrom(text, wheel1, wheel2, enableWheel3, wheel3).value[i]
         == IntToKey(KeyToInt(text[i]).value
                     + WheelOffset(wheel1, wheel2, if i > 0 && enableWheel3 then KeyToInt(text[i - 1]).value else wheel3))
    decreases i
  {
    EncryptFromCons(text, wheel1, wheel2, enableWheel3, wheel3);
    if i > 0 {
      var next := if enableWheel3 then KeyToInt(text[0]).value else wheel3;
      var rest := EncryptFrom(text[1..], wheel1, wheel2, enableWheel3, next).value;
      EncryptFromAt(text[1..], wheel1, wheel2, enableWheel3, next, i - 1);
      assert text[1..][i - 1] == text[i];
      assert i > 1 ==> text[1..][i - 2] == text[i - 1];
      assert EncryptFrom(text, wheel1, wheel2, enableWheel3, wheel3).value[i] == rest[i - 1];
    }
  }

  /** Symbol i of the recovered plaintext is symbol i of the ciphertext shifted back by the
      offset, the third wheel holding the index of recovered symbol i - 1 when feedback is on. */
  lemma {:induction false} DecryptFromAt(text: seq<char>, wheel1: int, wheel2: int, enableWheel3: bool, wheel3: int, i: int)
    requires IsText(text) && 0 <= i < |text|
    ensures DecryptFrom(text, wheel1, wheel2, enableWheel3, wheel3).Ok?
    ensures var plain := DecryptFrom(text, wheel1, wheel2, enableWheel3, wheel3).value;
      |plain| == |text| && (i > 0 ==> IsKey(plain[i - 1])) &&
      plain[i] == IntToKey(KeyToInt(text[i]).value
                           - WheelOffset(wheel1, wheel2, if i > 0 && enableWheel3 then KeyToInt(plain[i - 1]).value else wheel3))
    decreases i
  {
    DecryptFromCons(text, wheel1, wheel2, enableWheel3, wheel3);
    var plainChar := IntToKey(KeyToInt(text[0]).value - WheelOffset(wheel1, wheel2, wheel3));
    var next := if enableWheel3 then KeyToInt(plainChar).value else wheel3;
    var rest := DecryptFrom(text[1..], wheel1, wheel2, enableWheel3, next).value;
    var plain := DecryptFrom(text, wheel1, wheel2, enableWheel3, wheel3).value;
    assert plain == [plainChar] + rest;
    if i > 0 {
      DecryptFromAt(text[1..], wheel1, wheel2, enableWheel3, next, i - 1);
      assert text[1..][i - 1] == text[i];
      assert plain[i] == rest[i - 1];
      if i > 1 {
        assert rest[i - 2] == plain[i - 1];
      } else {
        assert plain[i - 1] == plainChar;
      }
    }
  }

  /** Wheel settings with the same baseline offset decrypt every ciphertext identically. */
  lemma {:induction false} DecryptFromEquivalent(text: seq<char>, a1: int, a2: int, b1: int, b2: int, enableWheel3: bool, wheel3: int)
    requires WheelOffset(a1, a2, 0) == WheelOffset(b1, b2, 0)
    ensures DecryptFrom(text, a1, a2, enableWheel3, wheel3) == DecryptFrom(text, b1, b2, enableWheel3, wheel3)
    decreases |text|
  {
    if text != [] && IsKey(text[0]) {
      WheelOffsetEquivalent(a1, a2, b1, b2, wheel3);
      var plainChar := IntToKey(KeyToInt(text[0]).value - WheelOffset(a1, a2, wheel3));
      var next := if enableWheel3 then KeyToInt(plainChar).value else wheel3;
      DecryptFromEquivalent(text[1..], a1, a2, b1, b2, enableWheel3, next);
      var rest := DecryptFrom(text[1..], a1, a2, enableWheel3, next);
      assert DecryptFrom(text, a1, a2, enableWheel3, wheel3) == if rest.Err? then rest else Ok([plainChar] + rest.value);
      assert DecryptFrom(text, b1, b2, enableWheel3, wheel3) == if rest.Err? then rest else Ok([plainChar] + rest.value);
    }
  }

  /** Without feedback every symbol is shifted by the same amount, wheel1 - 2 * wheel2,
      around the dial. */
  lemma ConstantShift(text: seq<char>, wheel1: int, wheel2: int, i: int)
    requires IsText(text) && 0 <= i < |text|
    ensures Encryption(text, wheel1, wheel2, false).Ok?
    ensures |Encryption(text, wheel1, wheel2, false).value| == |text|
    ensures Encryption(text, wheel1, wheel2, false).value[i] == IntToKey(KeyToInt(text[i]).value + wheel1 - 2 * wheel2)
  {
    EncryptFromAt(text, wheel1, wheel2, false, 0, i);
    var p := KeyToInt(text[i]).value;
    var d := wheel1 - 2 * wheel2;
    assert WheelOffset(wheel1, wheel2, 0) == d % WHEEL_SIZE;
    assert p + d + (-(d / WHEEL_SIZE)) * WHEEL_SIZE == p + d % WHEEL_SIZE;
    IntToKeyPeriodic(p + d, -(d / WHEEL_SIZE));
  }

  // ---------------------------------------------------------------------------------------
  // The four machine configurations

  /** The single-wheel machine: a fixed shift by wheel1. */
  method EncryptI(plainText: seq<char>, wheel1: int) returns (r: Result<seq<char>>)
    ensures r == Encryption(plainText, wheel1, 0, false)
    ensures r.Ok? <==> IsText(plainText)
    ensures r.Ok? ==> (|r.value| == |plainText|
      && forall i :: 0 <= i < |plainText| ==> r.value[i] == IntToKey(KeyToInt(plainText[i]).value + wheel1))
  {
    r := Encrypt(plainText, wheel1, 0, false);
    RoundTrip(plainText, wheel1, 0, false);
    if r.Ok? {
      EncryptFromShape(plainText, wheel1, 0, false, 0);
      forall i | 0 <= i < |plainText|
        ensures r.value[i] == IntToKey(KeyToInt(plainText[i]).value + wheel1)
      {
        ConstantShift(plainText, wheel1, 0, i);
      }
    }
  }

  /** The two-wheel machine: a fixed shift by wheel1 - 2 * wheel2. */
  method EncryptII(plainText: seq<char>, wheel1: int, wheel2: int) returns (r: Result<seq<char>>)
    ensures r == Encryption(plainText, wheel1, wheel2, false)
    ensures r.Ok? <==> IsText(plainText)
    ensures r.Ok? ==> (|r.value| == |plainText|
      && forall i :: 0 <= i < |plainText| ==> r.value[i] == IntToKey(KeyToInt(plainText[i]).value + wheel1 - 2 * wheel2))
  {
    r := Encrypt(plainText, wheel1, wheel2, false);
    RoundTrip(plainText, wheel1, wheel2, false);
    if r.Ok? {
      EncryptFromShape(plainText, wheel1, wheel2, false, 0);
      forall i | 0 <= i < |plainText|
        ensures r.value[i] == IntToKey(KeyToInt(plainText[i]).value + wheel1 - 2 * wheel2)
      {
        ConstantShift(plainText, wheel1, wheel2, i);
      }
    }
  }

  /** The two-wheel machine with plaintext feedback into the third wheel. */
  method EncryptIV(plainText: seq<char>, wheel1: int, wheel2: int) returns (r: Result<seq<char>>)
    ensures r == Encryption(plainText, wheel1, wheel2, true)
    ensures r.Ok? <==> IsText(plainText)
    ensures r.Err? ==> r.error == InvalidSymbol
    ensures r.Ok? ==> (|r.value| == |plainText| && IsText(r.value)
      && Decryption(r.value, wheel1, wheel2, true) == Ok(plainText))
  {
    r := Encrypt(plainText, wheel1, wheel2, true);
    RoundTrip(plainText, wheel1, wheel2, true);
    EncryptFromShape(plainText, wheel1, wheel2, true, 0);
  }

  /** Decryption for the feedback machine. */
  method DecryptIV(cipherText: seq<char>, wheel1: int, wheel2: int) returns (r: Result<seq<char>>)
    ensures r == Decryption(cipherText, wheel1, wheel2, true)
    ensures r.Ok? <==> IsText(cipherText)
    ensures r.Err? ==> r.error == InvalidSymbol
    ensures r.Ok? ==> (|r.value| == |cipherText| && IsText(r.value)
      && Encryption(r.value, wheel1, wheel2, true) == Ok(cipherText))
  {
    r := Decrypt(cipherText, wheel1, wheel2, true);
    RoundTrip(cipherText, wheel1, wheel2, true);
    DecryptFromShape(cipherText, wheel1, wheel2, true, 0);
  }

  /** A text encrypts without feedback to the text holding, at every position, the symbol
      shifted by wheel1 - 2 * wheel2. */
  lemma EncryptionIsShift(text: seq<char>, shifted: seq<char>, wheel1: int, wheel2: int)
    requires IsText(text) && |shifted| == |text|
    requires forall i :: 0 <= i < |text| ==> shifted[i] == IntToKey(KeyToInt(text[i]).value + wheel1 - 2 * wheel2)
    ensures Encryption(text, wheel1, wheel2, false) == Ok(shifted)
  {
    EncryptFromShape(text, wheel1, wheel2, false, 0);
    forall i | 0 <= i < |text|
      ensures Encryption(text, wheel1, wheel2, false).value[i] == shifted[i]
    {
      ConstantShift(text, wheel1, wheel2, i);
    }
    assert Encryption(text, wheel1, wheel2, false).value == shifted;
  }

  /** Positions 0 to 7 of the example below. */
  lemma StrongWindsFirstHalf(i: int)
    requires 0 <= i < 8
    ensures IsKey("Strong NE Winds!"[i])
    ensures "Yzxutm5TK5cotjy2"[i] == IntToKey(KeyToInt("Strong NE Winds!"[i]).value + 6 - 2 * 0)
  {
    if i < 4 {
      assert i == 0 || i == 1 || i == 2 || i == 3;
    } else {
      assert i == 4 || i == 5 || i == 6 || i == 7;
    }
  }

  /** Positions 8 to 15 of the example below. */
  lemma StrongWindsSecondHalf(i: int)
    requires 8 <= i < 16
    ensures IsKey("Strong NE Winds!"[i])
    ensures "Yzxutm5TK5cotjy2"[i] == IntToKey(KeyToInt("Strong NE Winds!"[i]).value + 6 - 2 * 0)
  {
    if i < 12 {
      assert i == 8 || i == 9 || i == 10 || i == 11;
    } else {
      assert i == 12 || i == 13 || i == 14 || i == 15;
    }
  }

  /** The single-wheel machine turns "Strong NE Winds!" under wheel1 = 6 into
      "Yzxutm5TK5cotjy2", and back. */
  lemma StrongWindsExample()
    ensures Encryption("Strong NE Winds!", 6, 0, false) == Ok("Yzxutm5TK5cotjy2")
    ensures Decryption("Yzxutm5TK5cotjy2", 6, 0, false) == Ok("Strong NE Winds!")
  {
    var plain, cipher := "Strong NE Winds!", "Yzxutm5TK5cotjy2";
    forall i | 0 <= i < |plain|
      ensures IsKey(plain[i]) && cipher[i] == IntToKey(KeyToInt(plain[i]).value + 6 - 2 * 0)
    {
      if i < 8 {
        StrongWindsFirstHalf(i);
      } else {
        StrongWindsSecondHalf(i);
      }
    }
    EncryptionIsShift(plain, cipher, 6, 0);
    RoundTrip(plain, 6, 0, false);
  }
}
