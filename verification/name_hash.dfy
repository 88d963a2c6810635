/**
 * Key derivation from a name (class NameHasher): the codes of the first
 * three letters, each 1..33 by position in the Ukrainian alphabet and 0 for
 * a missing or unknown character, packed in base 100, followed by one
 * decimal digit holding the name's length capped at 9.
 */
module NameHash {

  /** The Ukrainian alphabet in order; a letter's code is its position plus one. */
  const LETTERS: string := "\U{0410}\U{0411}\U{0412}\U{0413}\U{0490}\U{0414}\U{0415}\U{0404}\U{0416}\U{0417}\U{0418}\U{0406}\U{0407}\U{0419}\U{041A}\U{041B}\U{041C}\U{041D}\U{041E}\U{041F}\U{0420}\U{0421}\U{0422}\U{0423}\U{0424}\U{0425}\U{0426}\U{0427}\U{0428}\U{0429}\U{042C}\U{042E}\U{042F}"
  const BASE: int := 100
  const MAX_CHARS: nat := 3

  lemma LetterIsNew(j: nat)
    requires j < |LETTERS|
    ensures LETTERS[j] !in LETTERS[..j]
  {
  }

  /** No letter occurs twice in the alphabet. */
  lemma LettersDistinct()
    ensures |LETTERS| == 33
    ensures forall i, j :: 0 <= i < j < |LETTERS| ==> LETTERS[i] != LETTERS[j]
  {
    forall i, j | 0 <= i < j < |LETTERS|
      ensures LETTERS[i] != LETTERS[j]
    {
      LetterIsNew(j);
      assert LETTERS[i] == LETTERS[..j][i];
    }
  }

  /** The map `_build_char_map` returns. */
  ghost predicate IsCharMap(m: map<char, int>)
  {
    m.Keys == (set c | c in LETTERS) &&
    forall i :: 0 <= i < |LETTERS| ==> m[LETTERS[i]] == i + 1
  }

  /** `_build_char_map`: every letter maps to its position plus one. */
  method BuildCharMap() returns (m: map<char, int>)
    ensures IsCharMap(m)
  {
    LettersDistinct();
    m := map[];
    var i := 0;
    while i < |LETTERS|
      invariant 0 <= i <= |LETTERS|
      invariant m.Keys == set j | 0 <= j < i :: LETTERS[j]
      invariant forall j :: 0 <= j < i ==> m[LETTERS[j]] == j + 1
    {
      m := m[LETTERS[i] := i + 1];
      i := i + 1;
    }
    assert forall c :: c in LETTERS ==> exists j :: 0 <= j < |LETTERS| && LETTERS[j] == c;
  }

  /** The char map gives the 33 letters the distinct codes 1..33. */
  lemma {:induction false} CharMapCodes(m: map<char, int>)
    requires IsCharMap(m)
    ensures forall c :: c in m ==> 1 <= m[c] <= 33 && LETTERS[m[c] - 1] == c
    ensures forall c, d :: c in m && d in m && c != d ==> m[c] != m[d]
  {
    forall c | c in m
      ensures 1 <= m[c] <= 33 && LETTERS[m[c] - 1] == c
    {
      assert c in LETTERS;
      var i :| 0 <= i < |LETTERS| && LETTERS[i] == c;
      assert m[LETTERS[i]] == i + 1;
    }
  }

  /** The code of the character at position `i`: `char_map.get(name[i], 0)`, or 0 past the end. */
  function CodeAt(m: map<char, int>, name: string, i: nat): int
  {
    if i < |name| && name[i] in m then m[name[i]] else 0
  }

  /** The first `n` codes packed in base 100 (the loop of `hash_name` after `n` rounds). */
  function Packed(m: map<char, int>, name: string, n: nat): int
  {
    if n == 0 then 0 else Packed(m, name, n - 1) * BASE + CodeAt(m, name, n - 1)
  }

  function Min(a: int, b: int): int { if a <= b then a else b }

  /** What `hash_name` returns. */
  function Hash(m: map<char, int>, name: string): int
  {
    Packed(m, name, MAX_CHARS) * 10 + Min(|name|, 9)
  }

  class NameHasher {
    const charMap: map<char, int>

    constructor ()
      ensures IsCharMap(charMap)
    {
      var m := BuildCharMap();
      charMap := m;
    }

    /** `hash_name`; the name is taken as already upper-cased. */
    method HashName(name: string) returns (h: int)
      ensures h == Hash(charMap, name)
    {
      h := 0;
      for i := 0 to MAX_CHARS
        invariant h == Packed(charMap, name, i)
      {
        h := h * BASE;
        if i < |name| {
          h := h + (if name[i] in charMap then charMap[name[i]] else 0);
        }
      }
      h := h * 10 + Min(|name|, 9);
    }
  }

  /** The hash in closed form: `((c0*100 + c1)*100 + c2)*10 + min(len, 9)`. */
  lemma HashClosedForm(m: map<char, int>, name: string)
    ensures Hash(m, name) ==
      ((CodeAt(m, name, 0) * 100 + CodeAt(m, name, 1)) * 100 + CodeAt(m, name, 2)) * 10 + Min(|name|, 9)
  {
    assert Packed(m, name, 1) == CodeAt(m, name, 0);
    assert Packed(m, name, 2) == CodeAt(m, name, 0) * 100 + CodeAt(m, name, 1);
  }

  /** Codes a map can produce are all two-digit numbers. */
  ghost predicate SmallCodes(m: map<char, int>)
  {
    forall c :: c in m ==> 0 <= m[c] < BASE
  }

  /** The last decimal digit is the capped length; all hashes are below 10^7. */
  lemma {:induction false} HashDigitAndRange(m: map<char, int>, name: string)
    requires SmallCodes(m)
    ensures Hash(m, name) % 10 == Min(|name|, 9)
    ensures 0 <= Hash(m, name) < 10_000_000
  {
    var c0, c1, c2 := CodeAt(m, name, 0), CodeAt(m, name, 1), CodeAt(m, name, 2);
    HashClosedForm(m, name);
    var p := (c0 * 100 + c1) * 100 + c2;
    assert 0 <= p <= 999_999;
    assert Hash(m, name) == p * 10 + Min(|name|, 9);
  }

  /** With the alphabet's map the hash is at most 3333339. */
  lemma {:induction false} CharMapHashBound(m: map<char, int>, name: string)
    requires IsCharMap(m)
    ensures 0 <= Hash(m, name) <= 3_333_339
  {
    CharMapCodes(m);
    var c0, c1, c2 := CodeAt(m, name, 0), CodeAt(m, name, 1), CodeAt(m, name, 2);
    HashClosedForm(m, name);
    assert 0 <= c0 <= 33 && 0 <= c1 <= 33 && 0 <= c2 <= 33;
    var p := (c0 * 100 + c1) * 100 + c2;
    assert p <= 333_333;
  }

  /**
   * The hasher's own map has two-digit codes, so HashDigitAndRange and
   * HashEqualIff apply to it: the last digit of every hash is the capped length.
   */
  lemma {:induction false} CharMapHashDigit(m: map<char, int>, name: string)
    requires IsCharMap(m)
    ensures SmallCodes(m)
    ensures Hash(m, name) % 10 == Min(|name|, 9)
  {
    CharMapCodes(m);
    HashDigitAndRange(m, name);
  }

  /** Two names hash alike exactly when their first three codes and capped lengths agree. */
  lemma {:induction false} HashEqualIff(m: map<char, int>, a: string, b: string)
    requires SmallCodes(m)
    ensures Hash(m, a) == Hash(m, b) <==>
      CodeAt(m, a, 0) == CodeAt(m, b, 0) && CodeAt(m, a, 1) == CodeAt(m, b, 1) &&
      CodeAt(m, a, 2) == CodeAt(m, b, 2) && Min(|a|, 9) == Min(|b|, 9)
  {
    HashClosedForm(m, a);
    HashClosedForm(m, b);
    if Hash(m, a) == Hash(m, b) {
      DecodeDigits(CodeAt(m, a, 0), CodeAt(m, a, 1), CodeAt(m, a, 2), Min(|a|, 9));
      DecodeDigits(CodeAt(m, b, 0), CodeAt(m, b, 1), CodeAt(m, b, 2), Min(|b|, 9));
    }
  }

  /** The packing is undone digit group by digit group. */
  lemma DecodeDigits(c0: int, c1: int, c2: int, d: int)
    requires 0 <= c0 < 100 && 0 <= c1 < 100 && 0 <= c2 < 100 && 0 <= d < 10
    ensures var h := ((c0 * 100 + c1) * 100 + c2) * 10 + d;
      h % 10 == d && (h / 10) % 100 == c2 && (h / 1000) % 100 == c1 && h / 100000 == c0
  {
    var h := ((c0 * 100 + c1) * 100 + c2) * 10 + d;
    assert h == (c0 * 100 + c1) * 1000 + c2 * 10 + d;
    assert h / 10 == (c0 * 100 + c1) * 100 + c2;
    assert h / 1000 == c0 * 100 + c1;
    assert h / 100000 == c0;
  }
}
