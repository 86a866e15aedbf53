/**
 * The monoalphabetic half of the cipher: generating the forward and
 * reverse letter maps (main.py:11-23) and applying a map to text
 * (main.py:25-36).
 */
module Substitution {
  import opened Builtins
  import opened Permutations

  function AsciiLowercase(): (s: seq<char>)
    ensures |s| == 26
    ensures forall i :: 0 <= i < 26 ==> s[i] == ('a' as int + i) as char
  {
    seq(26, i requires 0 <= i < 26 => ('a' as int + i) as char)
  }

  /** `string.ascii_lowercase` */
  const Letters: seq<char> := AsciiLowercase()

  /** Letters spelled out. */
  lemma LettersSpelledOut()
    ensures Letters == "abcdefghijklmnopqrstuvwxyz"
  {
  }

  /** Letters is the 26 lower-case ASCII letters, each once. */
  lemma LettersAreLowercase()
    ensures |Letters| == 26 && Distinct(Letters)
    ensures forall c :: c in Letters <==> IsLower(c)
  {
    forall c | IsLower(c) ensures c in Letters {
      assert Letters[c as int - 'a' as int] == c;
    }
  }

  /** The letters in a shuffled order: the same 26 letters, each once. */
  predicate IsLetterPermutation(s: seq<char>)
  {
    |s| == |Letters| && multiset(s) == multiset(Letters)
  }

  lemma LetterPermutationFacts(s: seq<char>)
    requires IsLetterPermutation(s)
    ensures |s| == 26 && Distinct(s)
    ensures forall c :: c in s <==> IsLower(c)
  {
    LettersAreLowercase();
    SameMultisetDistinct(s, Letters);
    forall c ensures c in s <==> IsLower(c) {
      assert c in s <==> c in multiset(s);
      assert c in Letters <==> c in multiset(Letters);
    }
  }

  /**
   * `dict(zip(keys, values))`: the pairs are inserted in order, so a later
   * pair overrides an earlier one with the same key.
   */
  function ZipMap(keys: seq<char>, values: seq<char>): (m: map<char, char>)
    requires |keys| == |values|
    ensures forall c :: c in m <==> c in keys
    decreases |keys|
  {
    if keys == [] then map[]
    else
      var n := |keys| - 1;
      assert keys == keys[..n] + [keys[n]];
      ZipMap(keys[..n], values[..n])[keys[n] := values[n]]
  }

  /** With no repeated key, the dict sends each key to the value it was zipped with. */
  lemma {:induction false} ZipMapAt(keys: seq<char>, values: seq<char>, i: int)
    requires |keys| == |values| && Distinct(keys) && 0 <= i < |keys|
    ensures ZipMap(keys, values)[keys[i]] == values[i]
    decreases |keys|
  {
    var n := |keys| - 1;
    if i < n {
      assert keys[i] != keys[n];
      ZipMapAt(keys[..n], values[..n], i);
    }
  }

  /**
   * A forward map and a reverse map that are inverse bijections of the
   * lower-case letters onto themselves.
   */
  predicate IsSubstitutionPair(fwd: map<char, char>, rev: map<char, char>)
  {
    (forall c :: c in fwd <==> IsLower(c))
    && (forall d :: d in rev <==> IsLower(d))
    && (forall c :: c in fwd ==> fwd[c] in rev && rev[fwd[c]] == c)
    && (forall d :: d in rev ==> rev[d] in fwd && fwd[rev[d]] == d)
  }

  /**
   * Zipping two orders of the same letters, each letter once, in either
   * direction sends each letter to the one it was zipped with.
   */
  lemma ZipMapsPointwise(letters: seq<char>, shuffled: seq<char>)
    requires |letters| == |shuffled| && Distinct(letters) && multiset(shuffled) == multiset(letters)
    ensures Distinct(shuffled)
    ensures forall c :: c in shuffled <==> c in letters
    ensures forall i :: 0 <= i < |letters| ==>
      ZipMap(letters, shuffled)[letters[i]] == shuffled[i] && ZipMap(shuffled, letters)[shuffled[i]] == letters[i]
  {
    SameMultisetDistinct(shuffled, letters);
    forall c ensures c in shuffled <==> c in letters {
      assert c in shuffled <==> c in multiset(shuffled);
      assert c in letters <==> c in multiset(letters);
    }
    forall i | 0 <= i < |letters|
      ensures ZipMap(letters, shuffled)[letters[i]] == shuffled[i] && ZipMap(shuffled, letters)[shuffled[i]] == letters[i]
    {
      ZipMapAt(letters, shuffled, i);
      ZipMapAt(shuffled, letters, i);
    }
  }

  /**
   * For any two orders of the lower-case letters, `dict(zip(letters,
   * shuffled))` and `dict(zip(shuffled, letters))` are inverse bijections
   * of the letters.
   */
  lemma ZipMapsAreInverse(letters: seq<char>, shuffled: seq<char>)
    requires |letters| == |shuffled| && Distinct(letters) && forall c :: c in letters <==> IsLower(c)
    requires multiset(shuffled) == multiset(letters)
    ensures IsSubstitutionPair(ZipMap(letters, shuffled), ZipMap(shuffled, letters))
  {
    ZipMapsPointwise(letters, shuffled);
    var fwd := ZipMap(letters, shuffled);
    var rev := ZipMap(shuffled, letters);
    assert forall c :: c in fwd <==> IsLower(c);
    assert forall d :: d in rev <==> IsLower(d);
    forall c | c in fwd ensures fwd[c] in rev && rev[fwd[c]] == c {
      var i := IndexOf(letters, c);
      assert fwd[c] == shuffled[i];
    }
    forall d | d in rev ensures rev[d] in fwd && fwd[rev[d]] == d {
      var i := IndexOf(shuffled, d);
      assert rev[d] == letters[i];
    }
  }

  /**
   * `random.shuffle(a)`: for `i` from the last position down to 1, swap
   * position `i` with a position `j` in `0 .. i`. The random choice of `j`
   * is left open; whatever is chosen, the array ends up holding the same
   * elements as before, each as often as before.
   */
  method Shuffle(a: array<char>)
    modifies a
    ensures multiset(a[..]) == old(multiset(a[..]))
  {
    var i := a.Length - 1;
    while i > 0
      invariant i < a.Length
      invariant multiset(a[..]) == old(multiset(a[..]))
    {
      var j :| 0 <= j <= i;
      a[i], a[j] := a[j], a[i];
      i := i - 1;
    }
  }

  /**
   * `generate_substitution_cipher`: shuffles a copy of the letters and
   * zips the two orders into the forward and the reverse dict. The order
   * the shuffle produced is returned as a ghost value to name the maps by.
   */
  method GenerateSubstitutionCipher() returns (fwd: map<char, char>, rev: map<char, char>, ghost shuffled: seq<char>)
    ensures IsLetterPermutation(shuffled)
    ensures IsSubstitutionPair(fwd, rev)
    ensures forall i :: 0 <= i < |Letters| ==> fwd[Letters[i]] == shuffled[i] && rev[shuffled[i]] == Letters[i]
  {
    var letters := Letters;
    var shuffledLetters := new char[|letters|](i requires 0 <= i < |letters| => letters[i]);
    assert shuffledLetters[..] == letters;
    Shuffle(shuffledLetters);
    shuffled := shuffledLetters[..];
    fwd := ZipMap(letters, shuffledLetters[..]);
    rev := ZipMap(shuffledLetters[..], letters);
    LettersAreLowercase();
    ZipMapsPointwise(letters, shuffled);
    ZipMapsAreInverse(letters, shuffled);
  }

  /** `cipher_map.get(c, c)` */
  function Get(m: map<char, char>, c: char): (d: char)
    ensures c in m ==> d in m.Values
    ensures c !in m ==> d == c
  {
    if c in m then m[c] else c
  }

  /**
   * `substitute(text, cipher_map)`: the text lower-cased, then each
   * character looked up in the map and kept as it is when it is not a key.
   */
  function Substitute(text: seq<char>, m: map<char, char>): (r: seq<char>)
    ensures |r| == |text|
    ensures forall p :: 0 <= p < |text| ==> r[p] == Get(m, Lower(text[p]))
  {
    var lowered := LowerStr(text);
    seq(|lowered|, p requires 0 <= p < |lowered| => Get(m, lowered[p]))
  }

  /** Case does not matter to substitute. */
  lemma SubstituteIgnoresCase(text: seq<char>, m: map<char, char>)
    ensures Substitute(text, m) == Substitute(LowerStr(text), m)
  {
    var a, b := Substitute(text, m), Substitute(LowerStr(text), m);
    forall p | 0 <= p < |text| ensures a[p] == b[p] {
      assert Lower(Lower(text[p])) == Lower(text[p]);
    }
  }

  /** With a map whose values are not upper-case, the output has no upper-case letter. */
  lemma SubstituteIsLowercase(text: seq<char>, m: map<char, char>)
    requires forall c :: c in m ==> !IsUpper(m[c])
    ensures forall p :: 0 <= p < |text| ==> !IsUpper(Substitute(text, m)[p])
  {
  }

  /**
   * With a map keyed by exactly the lower-case letters, an ASCII letter of
   * either case is replaced by the image of its lower-case form and every
   * other character (digit, punctuation, whitespace) is kept unchanged.
   */
  lemma SubstitutePassesNonLetters(text: seq<char>, m: map<char, char>)
    requires forall c :: c in m <==> IsLower(c)
    ensures forall p :: 0 <= p < |text| && (IsUpper(text[p]) || IsLower(text[p])) ==>
      Substitute(text, m)[p] == m[Lower(text[p])]
    ensures forall p :: 0 <= p < |text| && !IsUpper(text[p]) && !IsLower(text[p]) ==>
      Substitute(text, m)[p] == text[p]
  {
  }

  /**
   * The reverse map undoes the forward map: substituting with one and then
   * the other gives back the text, lower-cased.
   */
  lemma SubstituteInverse(text: seq<char>, fwd: map<char, char>, rev: map<char, char>)
    requires IsSubstitutionPair(fwd, rev)
    ensures Substitute(Substitute(text, fwd), rev) == LowerStr(text)
    ensures Substitute(Substitute(text, rev), fwd) == LowerStr(text)
  {
    var s := Substitute(text, fwd);
    var t := Substitute(text, rev);
    forall p | 0 <= p < |text|
      ensures Substitute(s, rev)[p] == Lower(text[p])
      ensures Substitute(t, fwd)[p] == Lower(text[p])
    {
      var c := Lower(text[p]);
      if c in fwd {
        assert IsLower(fwd[c]) && IsLower(rev[c]);
      }
    }
  }

  /**
   * Substituting with either map of a pair keeps whitespace where it was
   * and puts none anywhere else.
   */
  lemma SubstituteKeepsWhitespace(text: seq<char>, fwd: map<char, char>, rev: map<char, char>)
    requires IsSubstitutionPair(fwd, rev)
    ensures forall p :: 0 <= p < |text| ==>
      (IsWhitespace(Substitute(text, fwd)[p]) <==> IsWhitespace(text[p]))
  {
    forall p | 0 <= p < |text|
      ensures IsWhitespace(Substitute(text, fwd)[p]) <==> IsWhitespace(text[p])
    {
      var c := Lower(text[p]);
      if c in fwd {
        assert IsLower(fwd[c]);
      }
    }
  }

  /**
   * Stripping trailing whitespace commutes with the substitution: undoing
   * the forward map on the stripped substituted text gives the stripped,
   * lower-cased original.
   */
  lemma SubstituteBackAfterRStrip(text: seq<char>, fwd: map<char, char>, rev: map<char, char>)
    requires IsSubstitutionPair(fwd, rev)
    ensures Substitute(RStrip(Substitute(text, fwd)), rev) == RStrip(LowerStr(text))
  {
    var s := Substitute(text, fwd);
    var n := |RStrip(s)|;
    SubstituteInverse(text, fwd, rev);
    SubstituteKeepsWhitespace(text, fwd, rev);
    RStripSameShape(s, LowerStr(text));
    assert Substitute(RStrip(s), rev) == Substitute(s, rev)[..n];
  }

  /** Swapping `a` and `b`: other characters, the space included, pass through. */
  lemma SubstituteExample()
    ensures Substitute("ab cd", map['a' := 'b', 'b' := 'a']) == "ba cd"
  {
  }
}
