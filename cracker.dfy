/** The known-plaintext attack on the feedback machine: try every wheel pair in order until
    the decryption shows one of the expected keywords, then list every pair equivalent to it. */
module Cracker {
  import opened Failures
  import opened Alphabet
  import opened Wheels
  import opened Cipher

  /** A setting of the two movable wheels. */
  datatype WheelPair = WheelPair(wheel1: int, wheel2: int)

  /** The attack's outcome: the recovered plaintext and every pair that yields it. */
  datatype Cracked = Cracked(plainText: seq<char>, allWheels: seq<WheelPair>)

  /** `word` occurs as a contiguous piece of `text`, searched from the left. */
  predicate Contains(text: seq<char>, word: seq<char>)
    decreases |text|
  {
    word <= text || (text != [] && Contains(text[1..], word))
  }

  /** Contains holds exactly when `word` is a prefix of the text from some position k. */
  lemma {:induction false} ContainsAt(text: seq<char>, word: seq<char>)
    ensures Contains(text, word) <==> exists k :: 0 <= k <= |text| && word <= text[k..]
    decreases |text|
  {
    if exists k :: 0 <= k <= |text| && word <= text[k..] {
      var k :| 0 <= k <= |text| && word <= text[k..];
      if k > 0 {
        assert text[1..][k - 1..] == text[k..];
        ContainsAt(text[1..], word);
      } else {
        assert text[0..] == text;
      }
    }
    if Contains(text, word) {
      if word <= text {
        assert text[0..] == text;
      } else {
        ContainsAt(text[1..], word);
        var k :| 0 <= k <= |text[1..]| && word <= text[1..][k..];
        assert text[1..][k..] == text[k + 1..];
      }
    }
  }

  /** A word longer than the text never occurs in it. */
  lemma {:induction false} ContainsNeedsRoom(text: seq<char>, word: seq<char>)
    requires Contains(text, word)
    ensures |word| <= |text|
    decreases |text|
  {
    if !(word <= text) {
      ContainsNeedsRoom(text[1..], word);
    }
  }

  /** The plaintext shows one of the words the attacker expects in the message. */
  predicate HasKeyword(plainText: seq<char>) {
    Contains(plainText, "BUNKER") || Contains(plainText, "FURLIN")
  }

  /** Decrypting with the feedback machine under this pair shows a keyword. */
  predicate Reveals(cipherText: seq<char>, wheel1: int, wheel2: int) {
    var plain := Decryption(cipherText, wheel1, wheel2, true);
    plain.Ok? && HasKeyword(plain.value)
  }

  predicate OnDial(wheel: int) {
    0 <= wheel < WHEEL_SIZE
  }

  /** The search order: wheel1 first, then wheel2. */
  predicate Before(a1: int, a2: int, b1: int, b2: int) {
    a1 < b1 || (a1 == b1 && a2 < b2)
  }

  /** (wheel1, wheel2) is the first pair on the dial, in search order, that reveals a keyword. */
  ghost predicate IsFirstMatch(cipherText: seq<char>, wheel1: int, wheel2: int) {
    OnDial(wheel1) && OnDial(wheel2) && Reveals(cipherText, wheel1, wheel2)
    && forall a, b :: OnDial(a) && OnDial(b) && Before(a, b, wheel1, wheel2) ==> !Reveals(cipherText, a, b)
  }

  /** No pair on the dial reveals a keyword. */
  ghost predicate NoneReveals(cipherText: seq<char>) {
    forall a, b :: OnDial(a) && OnDial(b) ==> !Reveals(cipherText, a, b)
  }

  /** Search order, wheel1 outer and wheel2 inner, stopping at the first pair whose
      decryption shows a keyword. */
  method CrackIVWheels(cipherText: seq<char>) returns (r: Result<WheelPair>)
    ensures r.Ok? ==> IsFirstMatch(cipherText, r.value.wheel1, r.value.wheel2)
    ensures r == Err(InvalidSymbol) <==> !IsText(cipherText)
    ensures r == Err(NoKeywordMatch) <==> IsText(cipherText) && NoneReveals(cipherText)
  {
    var wheel1 := 0;
    while wheel1 < WHEEL_SIZE
      invariant 0 <= wheel1 <= WHEEL_SIZE
      invariant wheel1 > 0 ==> IsText(cipherText)
      invariant forall a, b :: OnDial(a) && OnDial(b) && a < wheel1 ==> !Reveals(cipherText, a, b)
    {
      var wheel2 := 0;
      while wheel2 < WHEEL_SIZE
        invariant 0 <= wheel2 <= WHEEL_SIZE
        invariant wheel1 > 0 || wheel2 > 0 ==> IsText(cipherText)
        invariant forall a, b :: OnDial(a) && OnDial(b) && Before(a, b, wheel1, wheel2) ==> !Reveals(cipherText, a, b)
      {
        var plainText := DecryptIV(cipherText, wheel1, wheel2);
        if plainText.Err? {
          return Err(plainText.error);
        }
        if Contains(plainText.value, "BUNKER") || Contains(plainText.value, "FURLIN") {
          assert Reveals(cipherText, wheel1, wheel2) && OnDial(wheel1) && OnDial(wheel2);
          return Ok(WheelPair(wheel1, wheel2));
        }
        wheel2 := wheel2 + 1;
      }
      wheel1 := wheel1 + 1;
    }
    return Err(NoKeywordMatch);
  }

  /** The unique wheel2 that gives wheel1 the baseline offset `offset`: 35 is the inverse of 2
      modulo 69. */
  function PartnerWheel(offset: int, wheel1: int): (wheel2: int)
    requires OnDial(offset)
    ensures OnDial(wheel2) && WheelOffset(wheel1, wheel2, 0) == offset
  {
    var wheel2 := (35 * (wheel1 - offset)) % WHEEL_SIZE;
    BaselinePartner(wheel1, wheel2, offset);
    wheel2
  }

  /** One pair per value of wheel1, in ascending order. */
  function Partners(offset: int): (ws: seq<WheelPair>)
    requires OnDial(offset)
    ensures |ws| == WHEEL_SIZE
  {
    seq(WHEEL_SIZE, a requires 0 <= a < WHEEL_SIZE => WheelPair(a, PartnerWheel(offset, a)))
  }

  /** `ws` lists every pair on the dial with baseline offset `offset`, no other pair, in
      strictly ascending search order (so without repetition). */
  ghost predicate IsOffsetClass(ws: seq<WheelPair>, offset: int) {
    (forall i :: 0 <= i < |ws| ==>
      OnDial(ws[i].wheel1) && OnDial(ws[i].wheel2) && WheelOffset(ws[i].wheel1, ws[i].wheel2, 0) == offset)
    && (forall a, b :: OnDial(a) && OnDial(b) && WheelOffset(a, b, 0) == offset ==> WheelPair(a, b) in ws)
    && Ascending(ws)
  }

  /** Partners is that class: every wheel1 has exactly one partner. */
  lemma PartnersIsOffsetClass(offset: int)
    requires OnDial(offset)
    ensures IsOffsetClass(Partners(offset), offset)
  {
    var ws := Partners(offset);
    forall a, b | OnDial(a) && OnDial(b) && WheelOffset(a, b, 0) == offset
      ensures WheelPair(a, b) in ws
    {
      BaselinePartner(a, b, offset);
      BaselinePartner(a, PartnerWheel(offset, a), offset);
      assert ws[a] == WheelPair(a, b);
    }
  }

  /** Collects, in search order, every pair whose baseline offset is `offset`. */
  method CollectOffsetClass(offset: int) returns (allWheels: seq<WheelPair>)
    requires OnDial(offset)
    ensures allWheels == Partners(offset)
  {
    allWheels := [];
    var wheel1 := 0;
    while wheel1 < WHEEL_SIZE
      invariant 0 <= wheel1 <= WHEEL_SIZE
      invariant allWheels == Partners(offset)[..wheel1]
    {
      var wheel2 := 0;
      ghost var partner := PartnerWheel(offset, wheel1);
      while wheel2 < WHEEL_SIZE
        invariant 0 <= wheel2 <= WHEEL_SIZE
        invariant allWheels == Partners(offset)[..wheel1] + (if partner < wheel2 then [WheelPair(wheel1, partner)] else [])
      {
        if WheelOffset(wheel1, wheel2, 0) == offset {
          BaselinePartner(wheel1, wheel2, offset);
          BaselinePartner(wheel1, partner, offset);
          allWheels := allWheels + [WheelPair(wheel1, wheel2)];
        } else {
          assert wheel2 != partner;
        }
        wheel2 := wheel2 + 1;
      }
      assert Partners(offset)[..wheel1 + 1] == Partners(offset)[..wheel1] + [WheelPair(wheel1, partner)];
      wheel1 := wheel1 + 1;
    }
  }

  /** `cracked` is what the attack reports when (wheel1, wheel2) is the pair it found. */
  predicate CrackedBy(cipherText: seq<char>, wheel1: int, wheel2: int, cracked: Cracked)
    requires OnDial(wheel1) && OnDial(wheel2)
  {
    Decryption(cipherText, wheel1, wheel2, true) == Ok(cracked.plainText)
    && cracked.allWheels == Partners(WheelOffset(wheel1, wheel2, 0))
  }

  /** The whole attack: the first revealing pair, the plaintext it gives, and every pair that
      shares its baseline offset. */
  method CrackIV(cipherText: seq<char>) returns (r: Result<Cracked>)
    ensures r == Err(InvalidSymbol) <==> !IsText(cipherText)
    ensures r == Err(NoKeywordMatch) <==> IsText(cipherText) && NoneReveals(cipherText)
    ensures r.Ok? ==> exists wheel1, wheel2 ::
      IsFirstMatch(cipherText, wheel1, wheel2) && CrackedBy(cipherText, wheel1, wheel2, r.value)
    ensures r.Ok? ==> HasKeyword(r.value.plainText) && |r.value.plainText| == |cipherText|
  {
    var firstWheels := CrackIVWheels(cipherText);
    if firstWheels.Err? {
      return Err(firstWheels.error);
    }
    var wheel1, wheel2 := firstWheels.value.wheel1, firstWheels.value.wheel2;
    var offset := WheelOffset(wheel1, wheel2, 0);
    var allWheels := CollectOffsetClass(offset);
    var plainText := DecryptIV(cipherText, wheel1, wheel2);
    DecryptFromShape(cipherText, wheel1, wheel2, true, 0);
    r := Ok(Cracked(plainText.value, allWheels));
    assert CrackedBy(cipherText, wheel1, wheel2, r.value);
  }

  // ---------------------------------------------------------------------------------------
  // Properties of the attack

  /** At most one pair is the first match. */
  lemma FirstMatchUnique(cipherText: seq<char>, a1: int, a2: int, b1: int, b2: int)
    ensures IsFirstMatch(cipherText, a1, a2) && IsFirstMatch(cipherText, b1, b2) ==> a1 == b1 && a2 == b2
  {
    if IsFirstMatch(cipherText, a1, a2) && IsFirstMatch(cipherText, b1, b2) {
      if Before(a1, a2, b1, b2) {
        assert false;
      } else if Before(b1, b2, a1, a2) {
        assert false;
      }
    }
  }

  /** What the attack reports holds together: the plaintext shows a keyword, the found pair is
      among the 69 listed pairs (one per wheel1), the list is exactly the pairs with the found
      pair's baseline offset, and every listed pair decrypts the ciphertext to the same text. */
  lemma CrackedConsistent(cipherText: seq<char>, wheel1: int, wheel2: int, cracked: Cracked)
    requires IsFirstMatch(cipherText, wheel1, wheel2) && CrackedBy(cipherText, wheel1, wheel2, cracked)
    ensures HasKeyword(cracked.plainText)
    ensures |cracked.allWheels| == WHEEL_SIZE && WheelPair(wheel1, wheel2) in cracked.allWheels
    ensures IsOffsetClass(cracked.allWheels, WheelOffset(wheel1, wheel2, 0))
    ensures forall i :: 0 <= i < |cracked.allWheels| ==>
      Decryption(cipherText, cracked.allWheels[i].wheel1, cracked.allWheels[i].wheel2, true) == Ok(cracked.plainText)
  {
    var offset := WheelOffset(wheel1, wheel2, 0);
    PartnersIsOffsetClass(offset);
    forall i | 0 <= i < |cracked.allWheels|
      ensures Decryption(cipherText, cracked.allWheels[i].wheel1, cracked.allWheels[i].wheel2, true) == Ok(cracked.plainText)
    {
      DecryptFromEquivalent(cipherText, cracked.allWheels[i].wheel1, cracked.allWheels[i].wheel2, wheel1, wheel2, true, 0);
    }
  }

  /** Two lists that both meet IsOffsetClass for the same offset are the same list: the
      class fixes the pairs, and the search order fixes their order. */
  lemma OffsetClassUnique(ws: seq<WheelPair>, vs: seq<WheelPair>, offset: int)
    requires IsOffsetClass(ws, offset) && IsOffsetClass(vs, offset)
    ensures ws == vs
  {
    forall p | p in ws ensures p in vs {
      var i :| 0 <= i < |ws| && ws[i] == p;
    }
    forall p | p in vs ensures p in ws {
      var i :| 0 <= i < |vs| && vs[i] == p;
    }
    OrderedListsEqual(ws, vs);
  }

  /** Strictly ascending in search order. */
  ghost predicate Ascending(ws: seq<WheelPair>) {
    forall i, j :: 0 <= i < j < |ws| ==> Before(ws[i].wheel1, ws[i].wheel2, ws[j].wheel1, ws[j].wheel2)
  }

  /** Two strictly ascending lists holding the same pairs are equal. */
  lemma {:induction false} OrderedListsEqual(ws: seq<WheelPair>, vs: seq<WheelPair>)
    requires Ascending(ws) && Ascending(vs)
    requires forall p :: p in ws <==> p in vs
    ensures ws == vs
    decreases |ws|
  {
    SameEmptiness(ws, vs);
    if ws != [] {
      var w, v := ws[0], vs[0];
      assert w in vs && v in ws;
      var i :| 0 <= i < |vs| && vs[i] == w;
      var j :| 0 <= j < |ws| && ws[j] == v;
      if i > 0 && j > 0 {
        assert false;
      }
      assert w == v;
      forall p ensures p in ws[1..] <==> p in vs[1..] {
        if p in ws[1..] {
          var k :| 0 <= k < |ws[1..]| && ws[1..][k] == p;
          assert Before(w.wheel1, w.wheel2, p.wheel1, p.wheel2);
          assert p in vs && p != v;
          var m :| 0 <= m < |vs| && vs[m] == p;
          assert m > 0 && vs[1..][m - 1] == p;
        }
        if p in vs[1..] {
          var k :| 0 <= k < |vs[1..]| && vs[1..][k] == p;
          assert Before(v.wheel1, v.wheel2, p.wheel1, p.wheel2);
          assert p in ws && p != w;
          var m :| 0 <= m < |ws| && ws[m] == p;
          assert m > 0 && ws[1..][m - 1] == p;
        }
      }
      OrderedListsEqual(ws[1..], vs[1..]);
      assert ws == [w] + ws[1..] && vs == [v] + vs[1..];
    }
  }

  /** Lists holding the same pairs are empty together. */
  lemma SameEmptiness(ws: seq<WheelPair>, vs: seq<WheelPair>)
    requires forall p :: p in ws <==> p in vs
    ensures ws == [] <==> vs == []
  {
    if ws != [] {
      assert ws[0] in vs;
    }
    if vs != [] {
      assert vs[0] in ws;
    }
  }

  /** A ciphertext made from a keyword-bearing text under a pair on the dial is revealed by
      that pair, so the search cannot fail with NoKeywordMatch. */
  lemma EncryptedKeywordIsRevealed(plainText: seq<char>, wheel1: int, wheel2: int)
    requires IsText(plainText) && HasKeyword(plainText) && OnDial(wheel1) && OnDial(wheel2)
    ensures Encryption(plainText, wheel1, wheel2, true).Ok?
    ensures Reveals(Encryption(plainText, wheel1, wheel2, true).value, wheel1, wheel2)
    ensures !NoneReveals(Encryption(plainText, wheel1, wheel2, true).value)
  {
    RoundTrip(plainText, wheel1, wheel2, true);
  }

  /** A ciphertext shorter than the six-letter keywords reveals nothing. */
  lemma ShortTextRevealsNothing(cipherText: seq<char>)
    requires |cipherText| < 6
    ensures NoneReveals(cipherText)
  {
    forall a, b | OnDial(a) && OnDial(b)
      ensures !Reveals(cipherText, a, b)
    {
      DecryptFromShape(cipherText, a, b, true, 0);
      var plain := Decryption(cipherText, a, b, true);
      if plain.Ok? && HasKeyword(plain.value) {
        if Contains(plain.value, "BUNKER") {
          ContainsNeedsRoom(plain.value, "BUNKER");
        } else {
          ContainsNeedsRoom(plain.value, "FURLIN");
        }
      }
    }
  }
}
