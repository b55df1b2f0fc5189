/**
 Hexadecimal text whose letter case is a checksum (types/src/checksummed_hex.rs), a variant
 of the scheme in the Specification section of EIP-55: any length, another hash, and one
 hash bit per letter.
 */
module ChecksummedHex {
  import opened Bytes

  const SMALL_BYTES_COUNT := 75

  /** The digest function: 32 bytes for any input. */
  type Digest32 = Bytes -> Bytes

  ghost predicate Digests(h: Digest32) {
    forall b :: |h(b)| == 32
  }

  datatype HexError = InvalidLength(length: nat) | InvalidByte(index: nat, character: char)

  datatype Decoded = Ok(bytes: Bytes) | Err(error: HexError)

  // ---- nibbles and characters ----

  /** The `i`-th half byte, high halves first. */
  function Nibble(b: Bytes, i: nat): (n: nat)
    requires i < 2 * |b|
    ensures n < 16
  {
    if i % 2 == 0 then b[i / 2] as nat / 16 else b[i / 2] as nat % 16
  }

  function LowerChar(n: nat): char
    requires n < 16
  {
    "0123456789abcdef"[n]
  }

  function UpperChar(n: nat): char
    requires n < 16
  {
    "0123456789ABCDEF"[n]
  }

  predicate IsLower(c: char) { 'a' <= c <= 'f' }

  predicate IsUpper(c: char) { 'A' <= c <= 'F' }

  function HexValue(c: char): (v: Option<nat>)
    ensures v.Some? ==> v.value < 16 && (c == LowerChar(v.value) || c == UpperChar(v.value))
    ensures v.Some? ==> (v.value >= 10 <==> IsLower(c) || IsUpper(c))
  {
    if '0' <= c <= '9' then Some(c as nat - '0' as nat)
    else if IsLower(c) then Some(c as nat - 'a' as nat + 10)
    else if IsUpper(c) then Some(c as nat - 'A' as nat + 10)
    else None
  }

  lemma CharValues(n: nat)
    requires n < 16
    ensures HexValue(LowerChar(n)) == Some(n) && HexValue(UpperChar(n)) == Some(n)
    ensures n >= 10 ==> IsLower(LowerChar(n)) && IsUpper(UpperChar(n))
    ensures n < 10 ==> LowerChar(n) == UpperChar(n) && !IsLower(LowerChar(n)) && !IsUpper(LowerChar(n))
  {
  }

  /** The text is some spelling of the bytes. */
  ghost predicate Spells(s: string, b: Bytes) {
    |s| == 2 * |b| && forall i | 0 <= i < |s| :: HexValue(s[i]) == Some(Nibble(b, i))
  }

  function LowerHex(b: Bytes): (s: string)
    ensures |s| == 2 * |b| && forall i | 0 <= i < |s| :: s[i] == LowerChar(Nibble(b, i))
  {
    seq(2 * |b|, i requires 0 <= i < 2 * |b| => LowerChar(Nibble(b, i)))
  }

  function UpperHex(b: Bytes): (s: string)
    ensures |s| == 2 * |b| && forall i | 0 <= i < |s| :: s[i] == UpperChar(Nibble(b, i))
  {
    seq(2 * |b|, i requires 0 <= i < 2 * |b| => UpperChar(Nibble(b, i)))
  }

  // ---- the checksum, in closed form ----

  function Pow2(n: nat): nat
    requires n < 8
  {
    [1, 2, 4, 8, 16, 32, 64, 128][n]
  }

  predicate BitOf(x: byte, offset: nat)
    requires offset < 8
  {
    x as nat / Pow2(offset) % 2 == 1
  }

  /** Bit `k` of the endless stream over a 32-byte digest. */
  predicate HashBit(digest: Bytes, k: nat)
    requires |digest| == 32
  {
    BitOf(digest[k / 8 % 32], k % 8)
  }

  /** Bits are taken from each byte lowest first, and the bytes in order, round and round. */
  lemma BitsInOrder(digest: Bytes, k: nat)
    requires |digest| == 32
    ensures HashBit(digest, k) <==> digest[k / 8 % 32] as nat / [1, 2, 4, 8, 16, 32, 64, 128][k % 8] % 2 == 1
  {
  }

  /** How many of the first `i` characters are letters. */
  function Letters(b: Bytes, i: nat): (n: nat)
    requires i <= 2 * |b|
    ensures n <= i
  {
    if i == 0 then 0 else Letters(b, i - 1) + if Nibble(b, i - 1) >= 10 then 1 else 0
  }

  /** Half bytes of ten and more are the letters, and digits do not count. */
  lemma {:induction false} LettersAreCounted(b: Bytes, i: nat)
    requires i <= 2 * |b|
    ensures Letters(b, i) == |set j: nat | j < i && (if j % 2 == 0 then b[j / 2] as nat / 16 else b[j / 2] as nat % 16) >= 10|
  {
    var now := set j: nat | j < i && (if j % 2 == 0 then b[j / 2] as nat / 16 else b[j / 2] as nat % 16) >= 10;
    if i == 0 {
      assert now == {};
    } else {
      LettersAreCounted(b, i - 1);
      var before := set j: nat | j < i - 1 && (if j % 2 == 0 then b[j / 2] as nat / 16 else b[j / 2] as nat % 16) >= 10;
      assert now == if Nibble(b, i - 1) >= 10 then before + {i - 1} else before;
    }
  }

  /** The `k`-th letter is upper case exactly when bit `k` of the digest stream is set. */
  function ChecksumChar(digest: Bytes, b: Bytes, i: nat): char
    requires |digest| == 32 && i < 2 * |b|
  {
    var n := Nibble(b, i);
    if n >= 10 && HashBit(digest, Letters(b, i)) then UpperChar(n) else LowerChar(n)
  }

  ghost function Encoded(h: Digest32, b: Bytes): (s: string)
    requires Digests(h)
    ensures |s| == 2 * |b| && forall i | 0 <= i < |s| :: s[i] == ChecksumChar(h(b), b, i)
  {
    seq(2 * |b|, i requires 0 <= i < 2 * |b| => ChecksumChar(h(b), b, i))
  }

  /** Each byte is two characters, high half first; a letter is a capital exactly when the bit of its number is set. */
  lemma EncodedCharacters(h: Digest32, b: Bytes, i: nat)
    requires Digests(h) && i < 2 * |b|
    ensures var n := if i % 2 == 0 then b[i / 2] as nat / 16 else b[i / 2] as nat % 16;
            Encoded(h, b)[i] == if n >= 10 && HashBit(h(b), Letters(b, i)) then "0123456789ABCDEF"[n] else "0123456789abcdef"[n]
  {
  }

  lemma EncodedSpells(h: Digest32, b: Bytes)
    requires Digests(h)
    ensures Spells(Encoded(h, b), b)
  {
    forall i | 0 <= i < 2 * |b| ensures HexValue(Encoded(h, b)[i]) == Some(Nibble(b, i)) {
      CharValues(Nibble(b, i));
    }
  }

  /** Within the checked size no hash bit serves two letters. */
  lemma NoBitIsReused(b: Bytes, i: nat, j: nat)
    requires |b| <= SMALL_BYTES_COUNT && i < j < 2 * |b| && Nibble(b, i) >= 10 && Nibble(b, j) >= 10
    ensures var k, l := Letters(b, i), Letters(b, j);
            k < l < 256 && (k / 8 % 32 != l / 8 % 32 || k % 8 != l % 8)
  {
    LettersGrow(b, i + 1, j);
    PositionsDiffer(Letters(b, i), Letters(b, j));
  }

  lemma PositionsDiffer(k: nat, l: nat)
    requires k < l < 256
    ensures k / 8 % 32 != l / 8 % 32 || k % 8 != l % 8
  {
    assert k / 8 % 32 == k / 8 && l / 8 % 32 == l / 8;
  }

  lemma {:induction false} LettersGrow(b: Bytes, i: nat, j: nat)
    requires i <= j <= 2 * |b|
    ensures Letters(b, i) <= Letters(b, j)
  {
    if i < j {
      LettersGrow(b, i, j - 1);
    }
  }

  // ---- case ----

  /** No lower-case hex letter next to an upper-case one. */
  ghost predicate SameCase(s: string) {
    forall i, j | 0 <= i < |s| && 0 <= j < |s| && IsLower(s[i]) :: !IsUpper(s[j])
  }

  /** A single-case spelling is the lower-case or the upper-case one. */
  lemma SameCaseSpellings(s: string, b: Bytes)
    requires Spells(s, b)
    ensures SameCase(s) <==> s == LowerHex(b) || s == UpperHex(b)
  {
    forall i | 0 <= i < |s| ensures
      (IsLower(s[i]) ==> s[i] == LowerHex(b)[i]) && (IsUpper(s[i]) ==> s[i] == UpperHex(b)[i]) &&
      (!IsLower(s[i]) && !IsUpper(s[i]) ==> s[i] == LowerHex(b)[i] == UpperHex(b)[i]) &&
      !IsUpper(LowerHex(b)[i]) && !IsLower(UpperHex(b)[i])
    {
      CharValues(Nibble(b, i));
    }
  }

  /** The documentation has a text without letters fail the test; the code lets it pass. */
  lemma SameCaseAsDocumented(s: string)
    ensures var letters := exists i | 0 <= i < |s| :: IsLower(s[i]) || IsUpper(s[i]);
            (SameCase(s) <==> letters && SameCase(s)) <==> letters
  {
    if !(exists i | 0 <= i < |s| :: IsLower(s[i]) || IsUpper(s[i])) {
      assert SameCase(s);
    }
  }

  /** Which makes no difference, since such a text is its own checksummed form. */
  lemma NoLettersNoChecksum(h: Digest32, s: string, b: Bytes)
    requires Digests(h) && Spells(s, b) && forall i | 0 <= i < |s| :: !IsLower(s[i]) && !IsUpper(s[i])
    ensures s == Encoded(h, b)
  {
    forall i | 0 <= i < |s| ensures s[i] == Encoded(h, b)[i] {
      assert HexValue(s[i]) == Some(Nibble(b, i));
      CharValues(Nibble(b, i));
    }
  }

  method StringIsSameCase(s: string) returns (same: bool)
    ensures same == SameCase(s)
    ensures same <==> !(exists i, j :: 0 <= i < |s| && 0 <= j < |s| && 'a' <= s[i] <= 'f' && 'A' <= s[j] <= 'F')
  {
    var first: Option<nat> := None;
    for i := 0 to |s|
      invariant first.Some? ==> first.value < i && (IsLower(s[first.value]) || IsUpper(s[first.value]))
      invariant first.None? ==> forall j | 0 <= j < i :: !IsLower(s[j]) && !IsUpper(s[j])
      invariant first.Some? ==>
                forall j | 0 <= j < i && (IsLower(s[j]) || IsUpper(s[j])) :: IsUpper(s[j]) == IsUpper(s[first.value])
    {
      if IsLower(s[i]) || IsUpper(s[i]) {
        if first.None? {
          first := Some(i);
        } else if IsUpper(s[i]) != IsUpper(s[first.value]) {
          return false;
        }
      }
    }
    return true;
  }

  // ---- the bit iterator and the encoder ----

  /** Steps through the bits of each digest byte, low bits first, round and round. */
  class BitCycle {
    const bytes: Bytes
    var at: nat
    var offset: nat
    ghost var taken: nat

    ghost predicate Valid()
      reads this
    {
      |bytes| == 32 && offset == taken % 8 && at == taken / 8 % 32
    }

    constructor (bytes: Bytes)
      requires |bytes| == 32
      ensures Valid() && taken == 0 && this.bytes == bytes
    {
      this.bytes := bytes;
      at, offset, taken := 0, 0, 0;
    }

    method NextBit() returns (bit: bool)
      requires Valid()
      modifies this
      ensures Valid() && taken == old(taken) + 1 && bit == HashBit(bytes, old(taken))
      ensures bit <==> bytes[old(taken) / 8 % 32] as nat / [1, 2, 4, 8, 16, 32, 64, 128][old(taken) % 8] % 2 == 1
    {
      NextPosition(taken);
      bit := BitOf(bytes[at], offset);
      offset, taken := offset + 1, taken + 1;
      if offset == 8 {
        offset, at := 0, (at + 1) % |bytes|;
      }
    }
  }

  lemma NextPosition(k: nat)
    ensures (k + 1) % 8 == (if k % 8 == 7 then 0 else k % 8 + 1)
    ensures (k + 1) / 8 % 32 == (if k % 8 == 7 then (k / 8 % 32 + 1) % 32 else k / 8 % 32)
  {
    assert (k + 1) / 8 == if k % 8 == 7 then k / 8 + 1 else k / 8;
  }

  /** Takes a bit for each letter and none for a digit. */
  method Encode(h: Digest32, b: Bytes) returns (s: string)
    requires Digests(h)
    ensures s == Encoded(h, b)
  {
    var bits := new BitCycle(h(b));
    s := "";
    for i := 0 to 2 * |b|
      invariant fresh(bits) && bits.Valid() && bits.bytes == h(b) && bits.taken == Letters(b, i)
      invariant |s| == i && forall j | 0 <= j < i :: s[j] == ChecksumChar(h(b), b, j)
    {
      var n := Nibble(b, i);
      var upper := false;
      if n >= 10 {
        upper := bits.NextBit();
      }
      s := s + [if upper then UpperChar(n) else LowerChar(n)];
    }
  }

  // ---- decoding ----

  lemma NibblesOfSnoc(b: Bytes, high: nat, low: nat)
    requires high < 16 && low < 16
    ensures var c := b + [(16 * high + low) as byte];
            Nibble(c, 2 * |b|) == high && Nibble(c, 2 * |b| + 1) == low && forall i | 0 <= i < 2 * |b| :: Nibble(c, i) == Nibble(b, i)
  {
  }

  ghost predicate SpellsSoFar(s: string, b: Bytes) {
    2 * |b| <= |s| && forall i | 0 <= i < 2 * |b| :: HexValue(s[i]) == Some(Nibble(b, i))
  }

  lemma SpellsMore(s: string, b: Bytes, high: nat, low: nat)
    requires SpellsSoFar(s, b) && 2 * |b| + 2 <= |s| && high < 16 && low < 16
    requires HexValue(s[2 * |b|]) == Some(high) && HexValue(s[2 * |b| + 1]) == Some(low)
    ensures SpellsSoFar(s, b + [(16 * high + low) as byte])
  {
    NibblesOfSnoc(b, high, low);
  }

  /** What each character counts, and how two of them make a byte. */
  lemma SpelledByte(s: string, b: Bytes, i: nat)
    requires Spells(s, b) && i < |b|
    ensures HexValue(s[2 * i]).Some? && HexValue(s[2 * i + 1]).Some?
    ensures b[i] as nat == 16 * HexValue(s[2 * i]).value + HexValue(s[2 * i + 1]).value
  {
    assert Nibble(b, 2 * i) == b[i] as nat / 16 && Nibble(b, 2 * i + 1) == b[i] as nat % 16;
    hide HexValue;
    assert HexValue(s[2 * i]) == Some(Nibble(b, 2 * i)) && HexValue(s[2 * i + 1]) == Some(Nibble(b, 2 * i + 1));
  }

  lemma HexValues(n: nat)
    ensures n < 10 ==> HexValue("0123456789"[n]) == Some(n)
    ensures n < 6 ==> HexValue("abcdef"[n]) == Some(10 + n) && HexValue("ABCDEF"[n]) == Some(10 + n)
  {
  }

  /** Plain hexadecimal, either case. */
  method Base16Decode(s: string) returns (r: Decoded)
    ensures r.Ok? ==> Spells(s, r.bytes)
    ensures r.Err? ==> forall b :: !Spells(s, b)
    ensures r == Err(InvalidLength(|s|)) <==> |s| % 2 != 0
    ensures r.Err? && |s| % 2 == 0 ==>
              r.error.InvalidByte? && r.error.index < |s| && r.error.character == s[r.error.index] && HexValue(s[r.error.index]).None? &&
              forall i | 0 <= i < r.error.index :: HexValue(s[i]).Some?
  {
    if |s| % 2 != 0 {
      return Err(InvalidLength(|s|));
    }
    hide Nibble;
    var b: Bytes := [];
    while 2 * |b| < |s|
      invariant SpellsSoFar(s, b)
      decreases |s| - |b|
    {
      var k := 2 * |b|;
      var high, low := HexValue(s[k]), HexValue(s[k + 1]);
      if high.None? {
        return Err(InvalidByte(k, s[k]));
      }
      if low.None? {
        return Err(InvalidByte(k + 1, s[k + 1]));
      }
      SpellsMore(s, b, high.value, low.value);
      b := b + [(16 * high.value + low.value) as byte];
    }
    r := Ok(b);
  }

  lemma SpellsOnce(s: string, b: Bytes, c: Bytes)
    requires Spells(s, b) && Spells(s, c)
    ensures b == c
  {
    forall k | 0 <= k < |b| ensures b[k] == c[k] {
      assert HexValue(s[2 * k]) == Some(Nibble(b, 2 * k)) == Some(Nibble(c, 2 * k));
      assert HexValue(s[2 * k + 1]) == Some(Nibble(b, 2 * k + 1)) == Some(Nibble(c, 2 * k + 1));
    }
  }

  /** The accepted spellings of `b`. */
  ghost predicate Accepted(h: Digest32, s: string, b: Bytes)
    requires Digests(h)
  {
    Spells(s, b) && (|b| > SMALL_BYTES_COUNT || SameCase(s) || s == Encoded(h, b))
  }

  /**
   The exact language: `b` is returned for precisely its accepted spellings; and a spelling
   that fails its checksum is reported at the first wrong character, with the right one.
   */
  method Decode(h: Digest32, s: string) returns (r: Decoded)
    requires Digests(h)
    ensures forall b :: r == Ok(b) <==> Accepted(h, s, b)
    ensures |s| % 2 != 0 ==> r == Err(InvalidLength(|s|))
    ensures forall b :: r.Err? && Spells(s, b) ==>
                          exists i | 0 <= i < |s| :: s[..i] == Encoded(h, b)[..i] && s[i] != Encoded(h, b)[i] &&
                                                    r.error == InvalidByte(i, Encoded(h, b)[i])
  {
    hide HexValue, Nibble, ChecksumChar, IsLower, IsUpper;
    var plain := Base16Decode(s);
    if plain.Err? {
      return plain;
    }
    var bytes := plain.bytes;
    forall b | Spells(s, b) ensures b == bytes { SpellsOnce(s, b, bytes); }
    var same := StringIsSameCase(s);
    if |bytes| > SMALL_BYTES_COUNT || same {
      return plain;
    }
    var expected := Encode(h, bytes);
    for i := 0 to |s|
      invariant s[..i] == expected[..i]
    {
      if expected[i] != s[i] {
        return Err(InvalidByte(i, expected[i]));
      }
    }
    assert s == s[..|s|] == expected[..|s|] == expected;
    r := plain;
  }

  /** A small value has at most three accepted spellings. */
  lemma AtMostThreeSpellings(h: Digest32, s: string, b: Bytes)
    requires Digests(h) && |b| <= 75
    ensures Accepted(h, s, b) <==> s == LowerHex(b) || s == UpperHex(b) || s == Encoded(h, b)
  {
    EncodedSpells(h, b);
    forall i | 0 <= i < 2 * |b| ensures HexValue(LowerHex(b)[i]) == Some(Nibble(b, i)) == HexValue(UpperHex(b)[i]) {
      CharValues(Nibble(b, i));
    }
    if Spells(s, b) {
      SameCaseSpellings(s, b);
    }
  }

  /** A longer one is accepted in every spelling. */
  lemma LongValuesAreNotChecked(h: Digest32, s: string, b: Bytes)
    requires Digests(h) && |b| > 75
    ensures Accepted(h, s, b) <==> Spells(s, b)
  {
  }

  /** Encoding then decoding is the identity, at every length. */
  lemma EncodingIsAccepted(h: Digest32, b: Bytes)
    requires Digests(h)
    ensures Accepted(h, Encoded(h, b), b)
  {
    EncodedSpells(h, b);
  }

  method RoundTrip(h: Digest32, b: Bytes) returns (r: Decoded)
    requires Digests(h)
    ensures r == Ok(b)
  {
    var s := Encode(h, b);
    EncodingIsAccepted(h, b);
    r := Decode(h, s);
  }
}
