/** `BaseN_Decoder::InitializeDecodingLookupArray` of `basecode.cpp`. */
module DecodingTable {
  import opened Bytes
  import opened BaseN

  predicate IsAlpha(c: byte) {
    65 <= c <= 90 || 97 <= c <= 122
  }

  function ToUpper(c: byte): (r: byte) {
    if 97 <= c <= 122 then c - 32 else c
  }

  function ToLower(c: byte): (r: byte) {
    if 65 <= c <= 90 then c + 32 else c
  }

  /** Whether `c` is read as the alphabet's character `a`. */
  predicate Spells(caseInsensitive: bool, a: byte, c: byte) {
    if caseInsensitive && IsAlpha(a) then c == ToUpper(a) || c == ToLower(a) else c == a
  }

  lemma {:induction false} SpellsItself(caseInsensitive: bool, a: byte)
    ensures Spells(caseInsensitive, a, a)
  {
  }

  /** The last of the first `n` alphabet positions that `c` spells, or -1. */
  function LastMatch(alphabet: seq<byte>, n: nat, caseInsensitive: bool, c: byte): (r: int)
    requires n <= |alphabet|
    ensures -1 <= r < n && (r >= 0 ==> Spells(caseInsensitive, alphabet[r], c))
    ensures forall i :: r < i < n ==> !Spells(caseInsensitive, alphabet[i], c)
  {
    if n == 0 then -1
    else if Spells(caseInsensitive, alphabet[n - 1], c) then n - 1
    else LastMatch(alphabet, n - 1, caseInsensitive, c)
  }

  /** Later alphabet positions overwrite earlier ones; characters that spell none are skipped. */
  method InitializeDecodingLookupArray(lookup: array<int>, alphabet: seq<byte>, base: nat, caseInsensitive: bool)
    requires lookup.Length == 256 && base <= |alphabet|
    modifies lookup
    ensures forall c: byte :: lookup[c] == LastMatch(alphabet, base, caseInsensitive, c)
  {
    forall c | 0 <= c < 256 { lookup[c] := -1; }
    var i := 0;
    while i < base
      invariant 0 <= i <= base
      invariant forall c: byte :: lookup[c] == LastMatch(alphabet, i, caseInsensitive, c)
    {
      if caseInsensitive && IsAlpha(alphabet[i]) {
        lookup[ToUpper(alphabet[i])] := i;
        lookup[ToLower(alphabet[i])] := i;
      } else {
        lookup[alphabet[i]] := i;
      }
      i := i + 1;
    }
  }

  /** No later alphabet character is another spelling of an earlier one. */
  ghost predicate Distinct(alphabet: seq<byte>, caseInsensitive: bool) {
    forall i, j :: 0 <= i < j < |alphabet| ==> !Spells(caseInsensitive, alphabet[j], alphabet[i])
  }

  ghost predicate Outside(alphabet: seq<byte>, caseInsensitive: bool, c: byte) {
    forall i :: 0 <= i < |alphabet| ==> !Spells(caseInsensitive, alphabet[i], c)
  }

  ghost predicate IsTable(lookup: seq<int>, alphabet: seq<byte>, caseInsensitive: bool) {
    |lookup| == 256 && forall c: byte :: lookup[c] == LastMatch(alphabet, |alphabet|, caseInsensitive, c)
  }

  /** The table inverts the alphabet exactly when its characters are distinct and the padding is not among them. */
  lemma {:induction false} TableInverts(lookup: seq<int>, alphabet: seq<byte>, caseInsensitive: bool, padding: int)
    requires IsTable(lookup, alphabet, caseInsensitive) && |alphabet| <= 256 && -1 <= padding < 256
    ensures Inverts(lookup, alphabet, padding)
            <==> Distinct(alphabet, caseInsensitive) && (padding == -1 || Outside(alphabet, caseInsensitive, padding))
  {
    hide Spells;
    forall i | 0 <= i < |alphabet|
      ensures lookup[alphabet[i]] == i
              <==> (forall j :: i < j < |alphabet| ==> !Spells(caseInsensitive, alphabet[j], alphabet[i]))
    {
      SpellsItself(caseInsensitive, alphabet[i]);
    }
    if padding != -1 {
      OutsideIsSkipped(lookup, alphabet, caseInsensitive, padding);
    }
  }

  /** Exactly the characters that spell nothing in the alphabet are skipped. */
  lemma {:induction false} OutsideIsSkipped(lookup: seq<int>, alphabet: seq<byte>, caseInsensitive: bool, c: byte)
    requires IsTable(lookup, alphabet, caseInsensitive) && |alphabet| <= 256
    ensures Skipped(lookup, c) <==> Outside(alphabet, caseInsensitive, c)
  {
    hide Spells;
  }

  /** With case folding a letter is spelled by its two forms, 32 apart, and anything else only by itself. */
  lemma {:induction false} LettersSpell(a: byte, c: byte)
    ensures 'A' as nat <= a <= 'Z' as nat ==> (Spells(true, a, c) <==> c == a || c == a + 32)
    ensures 'a' as nat <= a <= 'z' as nat ==> (Spells(true, a, c) <==> c == a || c == a - 32)
    ensures !('A' as nat <= a <= 'Z' as nat) && !('a' as nat <= a <= 'z' as nat) ==> (Spells(true, a, c) <==> c == a)
    ensures Spells(false, a, c) <==> c == a
  {
    assert 'A' as nat == 65 && 'Z' as nat == 90 && 'a' as nat == 97 && 'z' as nat == 122;
  }
}
