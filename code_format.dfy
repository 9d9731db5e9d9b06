/** The short-code format `^[A-Za-z0-9]{6,8}$` shared by the link API and the
    dashboard form, and the 62-symbol alphabet the code generator draws from. */
module CodeFormat {

  const MinCodeLength: nat := 6
  const MaxCodeLength: nat := 8

  /** One character of the class `[A-Za-z0-9]`. */
  predicate IsAlnum(ch: char) {
    ('A' <= ch <= 'Z') || ('a' <= ch <= 'z') || ('0' <= ch <= '9')
  }

  /** `CODE_REGEX.test(s)` for `/^[A-Za-z0-9]{6,8}$/`: without the `m` flag the
      anchors match only at the ends of the whole string, so the entire string
      must be 6 to 8 characters of the class. */
  predicate MatchesCodeRegex(s: string) {
    && MinCodeLength <= |s| <= MaxCodeLength
    && forall i :: 0 <= i < |s| ==> IsAlnum(s[i])
  }

  /** An index into the alphabet: what one nanoid draw selects. */
  newtype SymbolIndex = k: int | 0 <= k < 62

  /** The symbol at position `k` of the alphabet: upper-case letters first,
      then lower-case letters, then digits. */
  function SymbolAt(k: SymbolIndex): (ch: char)
    ensures IsAlnum(ch)
  {
    if k < 26 then ('A' as int + k as int) as char
    else if k < 52 then ('a' as int + k as int - 26) as char
    else ('0' as int + k as int - 52) as char
  }

  /** The generator's 62-symbol alphabet. */
  const Alphabet: string := seq(62, k requires 0 <= k < 62 => SymbolAt(k as SymbolIndex))

  /** The alphabet is the literal the link route writes out. */
  lemma AlphabetAsWritten()
    ensures Alphabet == "ABCDEFGHIJKLMNOPQRSTUVWXYZ" + "abcdefghijklmnopqrstuvwxyz" + "0123456789"
  {
    assert Alphabet[..26] == "ABCDEFGHIJKLMNOPQRSTUVWXYZ";
    assert Alphabet[26..52] == "abcdefghijklmnopqrstuvwxyz";
    assert Alphabet[52..] == "0123456789";
    assert Alphabet == Alphabet[..26] + Alphabet[26..52] + Alphabet[52..];
  }

  /** The position of an alphanumeric character in the alphabet. */
  function SymbolOf(ch: char): (k: SymbolIndex)
    requires IsAlnum(ch)
    ensures SymbolAt(k) == ch
  {
    if 'A' <= ch <= 'Z' then (ch as int - 'A' as int) as SymbolIndex
    else if 'a' <= ch <= 'z' then (26 + ch as int - 'a' as int) as SymbolIndex
    else (52 + ch as int - '0' as int) as SymbolIndex
  }

  /** The alphabet holds exactly the characters of `[A-Za-z0-9]`, 62 of them. */
  lemma AlphabetIsCharacterClass(ch: char)
    ensures |Alphabet| == 62
    ensures ch in Alphabet <==> IsAlnum(ch)
  {
    if IsAlnum(ch) {
      assert Alphabet[SymbolOf(ch)] == ch;
    }
  }
}
