/**
 * The `Cipher` class (main.py:4-106): an object holding a forward and a
 * reverse letter map fixed at construction, whose `encrypt` substitutes
 * and then transposes, and whose `decrypt` untransposes with the argsort
 * of the key and then substitutes back.
 */
module CipherEngine {
  import opened Builtins
  import opened Arith
  import opened Permutations
  import opened Substitution
  import opened Transposition

  class Cipher {
    /** `self.substitution_cipher` */
    const substitution: map<char, char>
    /** `self.reverse_substitution_cipher` */
    const reverseSubstitution: map<char, char>
    /** The shuffled order of the letters the two maps were zipped from. */
    ghost const shuffled: seq<char>

    /**
     * The maps are the zip of the alphabet with one of its shuffles, in
     * both directions, and so are inverse bijections of the letters.
     */
    ghost predicate Valid()
    {
      IsLetterPermutation(shuffled)
      && IsSubstitutionPair(substitution, reverseSubstitution)
      && forall i :: 0 <= i < |Letters| ==>
           substitution[Letters[i]] == shuffled[i] && reverseSubstitution[shuffled[i]] == Letters[i]
    }

    /** `__init__`: both maps come from one call of `generate_substitution_cipher`. */
    constructor ()
      ensures Valid()
    {
      var fwd, rev;
      ghost var order;
      fwd, rev, order := GenerateSubstitutionCipher();
      substitution := fwd;
      reverseSubstitution := rev;
      shuffled := order;
    }

    /**
     * `encrypt(text, key)`: substitute with the forward map, then
     * transpose. It fails as the transposition does: on an empty key, on an
     * empty text, and on a key that is not a permutation of `0 .. K - 1`;
     * otherwise the ciphertext fills a whole number of rows of width `K`.
     */
    function Encrypt(text: seq<char>, key: seq<int>): (r: Result<seq<char>>)
      ensures |key| == 0 ==> r == Failure(RangeStepZero)
      ensures |key| > 0 && |text| == 0 ==> r == Failure(EmptyRowList)
      ensures |key| > 0 && |text| > 0 ==> (r.Success? <==> IsPermutation(key))
      ensures |key| > 0 && |text| > 0 && r.Failure? ==>
        r.error.NotInKey? && 0 <= r.error.value < |key| && r.error.value !in key
        && forall v :: 0 <= v < r.error.value ==> v in key
      ensures r.Success? ==> |r.value| == CeilDiv(|text|, |key|) * |key| && |text| <= |r.value| < |text| + |key|
    {
      TransposeColumns(Substitute(text, substitution), key)
    }

    /**
     * `decrypt(text, key)`: untranspose with the argsort of the key, then
     * substitute with the reverse map. The argsort is always a permutation,
     * so the only failure is the division by an empty key's length; the
     * plaintext is never longer than the ciphertext.
     */
    function Decrypt(text: seq<char>, key: seq<int>): (r: Result<seq<char>>)
      ensures r.Failure? <==> |key| == 0
      ensures r.Failure? ==> r.error == DivisionByZero
      ensures r.Success? ==> |r.value| <= |text|
    {
      var inverse := ArgSort(key);
      var untransposed :- UntransposeColumns(text, inverse);
      Success(Substitute(untransposed, reverseSubstitution))
    }

    /** With valid maps, a decrypted text ends in no whitespace. */
    lemma DecryptEndsInNonWhitespace(text: seq<char>, key: seq<int>)
      requires Valid()
      ensures Decrypt(text, key).Success? ==>
        var p := Decrypt(text, key).value; p == [] || !IsWhitespace(p[|p| - 1])
    {
      if |key| > 0 {
        var u := UntransposeColumns(text, ArgSort(key)).value;
        SubstituteKeepsWhitespace(u, reverseSubstitution, substitution);
      }
    }

    /**
     * Decrypting with the key a text was encrypted with gives back the
     * plaintext lower-cased and stripped of trailing whitespace.
     */
    lemma DecryptEncrypt(plain: seq<char>, key: seq<int>)
      requires Valid()
      requires |plain| > 0 && |key| > 0 && IsPermutation(key)
      ensures Encrypt(plain, key).Success?
      ensures Decrypt(Encrypt(plain, key).value, key) == Success(RStrip(LowerStr(plain)))
    {
      TransposeRoundTrip(Substitute(plain, substitution), key);
      SubstituteBackAfterRStrip(plain, substitution, reverseSubstitution);
    }
  }
}
