/** The 69-symbol dial of the Minisculus machine and the codec between symbols and indices. */
module Alphabet {
  import opened Failures

  /** The number of positions on every wheel, which is the length of KEYS. */
  const WHEEL_SIZE: int := 69

  /** The symbol at position i of the dial: ten digits, 26 capitals, 26 small letters, then
      seven punctuation marks ending in the space. */
  function KeyAt(i: int): char
    requires 0 <= i < WHEEL_SIZE
  {
    if i < 10 then (i + 48) as char         // '0'..'9'
    else if i < 36 then (i + 55) as char    // 'A'..'Z'
    else if i < 62 then (i + 61) as char    // 'a'..'z'
    else if i == 62 then '.'
    else if i == 63 then ','
    else if i == 64 then '?'
    else if i == 65 then '!'
    else if i == 66 then '\''
    else if i == 67 then '"'
    else ' '
  }

  /** The dial as a sequence, one KeyAt per position. */
  function Dial(): (keys: seq<char>)
    ensures |keys| == WHEEL_SIZE
  {
    seq(WHEEL_SIZE, i requires 0 <= i < WHEEL_SIZE => KeyAt(i))
  }

  /** The dial; position in KEYS is a symbol's index. */
  const KEYS: seq<char> := Dial()

  /** KEYS is exactly the source's table, written out literally. */
  lemma KeysTable()
    ensures KEYS == "0123456789" + "ABCDEFGHIJKLMNOPQRSTUVWXYZ" + "abcdefghijklmnopqrstuvwxyz" + ".,?!'\" "
  {
    assert KEYS[..10] == "0123456789";
    assert KEYS[10..36] == "ABCDEFGHIJKLMNOPQRSTUVWXYZ";
    assert KEYS[36..62] == "abcdefghijklmnopqrstuvwxyz";
    assert KEYS[62..] == ".,?!'\" ";
    assert KEYS == KEYS[..10] + KEYS[10..36] + KEYS[36..62] + KEYS[62..];
  }

  /** A symbol the codec accepts; KeyToIntAccepts shows these are exactly the symbols of KEYS. */
  predicate IsKey(ch: char) {
    KeyToInt(ch).Ok?
  }

  /** A text the cipher accepts: every character is on the dial. */
  predicate IsText(s: seq<char>) {
    forall i :: 0 <= i < |s| ==> IsKey(s[i])
  }

  /** Symbol to index. A character off the dial is rejected with InvalidSymbol, where the
      source aborts. */
  function KeyToInt(ch: char): (r: Result<int>)
    ensures r.Ok? ==> 0 <= r.value < WHEEL_SIZE && KEYS[r.value] == ch
    ensures r.Err? ==> r.error == InvalidSymbol
  {
    if '0' <= ch <= '9' then
      assert KEYS[ch as int - '0' as int] == ch; Ok(ch as int - '0' as int)
    else if 'A' <= ch <= 'Z' then
      assert KEYS[ch as int - 'A' as int + 10] == ch; Ok(ch as int - 'A' as int + 10)
    else if 'a' <= ch <= 'z' then
      assert KEYS[ch as int - 'a' as int + 36] == ch; Ok(ch as int - 'a' as int + 36)
    else if ch == '.' then assert KEYS[62] == ch; Ok(62)
    else if ch == ',' then assert KEYS[63] == ch; Ok(63)
    else if ch == '?' then assert KEYS[64] == ch; Ok(64)
    else if ch == '!' then assert KEYS[65] == ch; Ok(65)
    else if ch == '\'' then assert KEYS[66] == ch; Ok(66)
    else if ch == '"' then assert KEYS[67] == ch; Ok(67)
    else if ch == ' ' then assert KEYS[68] == ch; Ok(68)
    else Err(InvalidSymbol)
  }

  /** Index to symbol, for every integer: the dial wraps around (Euclidean remainder), so the
      result is always on the dial and decodes to n mod 69. */
  function IntToKey(n: int): (ch: char)
    ensures KeyToInt(ch) == Ok(n % WHEEL_SIZE)
  {
    KEYS[n % WHEEL_SIZE]
  }

  /** KeyToInt accepts exactly the symbols of the dial. */
  lemma KeyToIntAccepts(ch: char)
    ensures IsKey(ch) <==> ch in KEYS
  {
    if ch in KEYS {
      var i :| 0 <= i < |KEYS| && KEYS[i] == ch;
      KeyToIntOfKey(i);
    }
  }

  /** KeyToInt reads every position of the table back as that position. */
  lemma KeyToIntOfKey(i: int)
    requires 0 <= i < WHEEL_SIZE
    ensures KeyToInt(KEYS[i]) == Ok(i)
  {
  }

  /** No symbol appears twice on the dial. */
  lemma KeysDistinct(i: int, j: int)
    requires 0 <= i < j < WHEEL_SIZE
    ensures KEYS[i] != KEYS[j]
  {
    KeyToIntOfKey(i);
    KeyToIntOfKey(j);
  }

  /** Decoding a symbol and encoding the index gives the symbol back. */
  lemma IntToKeyOfKeyToInt(ch: char)
    requires IsKey(ch)
    ensures IntToKey(KeyToInt(ch).value) == ch
  {
  }

  /** Encoding an index of the dial and decoding the symbol gives the index back. */
  lemma KeyToIntOfIntToKey(n: int)
    requires 0 <= n < WHEEL_SIZE
    ensures KeyToInt(IntToKey(n)) == Ok(n)
  {
  }

  /** IntToKey only sees its argument modulo the wheel size. */
  lemma IntToKeyPeriodic(n: int, k: int)
    ensures IntToKey(n + k * WHEEL_SIZE) == IntToKey(n)
    ensures IntToKey(n) == IntToKey(n % WHEEL_SIZE)
  {
    ModAddMultiple(n, k);
    ModOfMultiplePlus(n % WHEEL_SIZE, 0, n % WHEEL_SIZE);
  }

  /** Whole turns of the dial vanish modulo the wheel size. */
  lemma ModAddMultiple(x: int, k: int)
    ensures (x + k * WHEEL_SIZE) % WHEEL_SIZE == x % WHEEL_SIZE
  {
  }

  /** The remainder of q turns plus r is r. */
  lemma ModOfMultiplePlus(x: int, q: int, r: int)
    requires x == q * WHEEL_SIZE + r && 0 <= r < WHEEL_SIZE
    ensures x % WHEEL_SIZE == r
  {
  }

  /** Shifting a symbol forward by o places and then back by o places restores it. */
  lemma ShiftThenUnshift(ch: char, o: int)
    requires IsKey(ch)
    ensures IntToKey(KeyToInt(IntToKey(KeyToInt(ch).value + o)).value - o) == ch
  {
    var p := KeyToInt(ch).value;
    var q := (p + o) / WHEEL_SIZE;
    assert (p + o) % WHEEL_SIZE - o == p - q * WHEEL_SIZE;
    IntToKeyPeriodic(p, -q);
    IntToKeyOfKeyToInt(ch);
  }

  /** Shifting a symbol back by o places and then forward by o places restores it. */
  lemma UnshiftThenShift(ch: char, o: int)
    requires IsKey(ch)
    ensures IntToKey(KeyToInt(IntToKey(KeyToInt(ch).value - o)).value + o) == ch
  {
    var p := KeyToInt(ch).value;
    var q := (p - o) / WHEEL_SIZE;
    assert (p - o) % WHEEL_SIZE + o == p - q * WHEEL_SIZE;
    IntToKeyPeriodic(p, -q);
    IntToKeyOfKeyToInt(ch);
  }
}
