# Substitution + columnar transposition cipher, in Dafny

This project models the `Cipher` class of `main.py`, a toy two-stage cipher, and proves properties about it.

Encryption works in two steps:
1. Every character of the text is lower-cased and passed through a secret monoalphabetic substitution of the 26 lower-case ASCII letters.
2. The result is written row by row into a grid as wide as the transposition key. The last row is padded with spaces. The grid is read out column by column, in the order the key gives.

Decryption reverses the steps:
1. It computes the argsort of the key.
2. It reads the ciphertext back into rows with that argsort and strips trailing whitespace.
3. It applies the reverse substitution.

The source is one class in one file. The model groups its methods, and the pieces of Python they rely on, as follows:

- `Builtins.dfy` holds the pieces of Python the cipher relies on, stated as Dafny functions:
  - `str.lower` on ASCII;
  - the `str.isspace` character set and `str.rstrip()`;
  - clamped slicing and `''.join`;
  - `list.index`.

  Exceptions the source can raise are values of `PyError`, returned in a `Result`.
- `Arith.dfy` holds the integer facts about cutting `n` characters into rows of width `k`.
- `Permutations.dfy` covers transposition keys:
  - permutations of `0 .. K-1`;
  - the pigeonhole fact that `key.index(i)` succeeds for every `i` exactly when the key is a permutation;
  - the stable argsort of `decrypt`.
- `Substitution.dfy` models two things.
  - Generating the two maps. A Fisher–Yates `Shuffle` works in place on an array, and a `dict(zip(...))` is built in each direction.
  - Applying a map to a text.
- `Transposition.dfy` models `transpose_columns` and `untranspose_columns` as functions returning `Result`, with these lemmas:
  - their closed-form index formulas;
  - their exact failure conditions;
  - the round trip through the argsort of the key.
- `CipherEngine.dfy` holds the class `Cipher`:
  - immutable map fields set by its constructor;
  - `Encrypt` and `Decrypt`;
  - the theorem `decrypt(encrypt(P, k), k) == rstrip(lower(P))`.

Edge cases of the code, as modelled:

- **Empty plaintext.** For a non-empty key, `transpose_columns("", key)` builds an empty row list and raises `IndexError` at `rows[-1]` (main.py:52). So for a non-empty key, `Encrypt` of an empty text fails with `EmptyRowList`.
- **Ragged ciphertext.** `untranspose_columns` cuts the ciphertext into `K` blocks of `len(text) // K` characters each. The last `len(text) % K` characters are never read (`UntransposeIgnoresTail`, `UntransposeDropsTail`).
- **What rstrip removes.** `untranspose_columns` ends with `rstrip()` (main.py:75). That call strips every trailing character Python counts as whitespace, which covers the padding spaces as well as any trailing tabs, newlines or spaces of the plaintext itself. So the round trip gives `rstrip(lower(P))`. Before the `rstrip()`, untransposing rebuilds the padded text exactly (`UnstrippedTransposed`).
- **Key validation.**
  - `transpose_columns` checks the key only through `key.index(i)` (main.py:56). It raises `ValueError` for the first `i` in `0 .. K-1` missing from the key (`NotInKey(i)`).
  - `untranspose_columns` calls `key.index` only while building rows. So it raises only when there is at least one row.
  - `decrypt` passes the argsort of the key, which is always a permutation. So its only failure is `ZeroDivisionError` for an empty key.
- **Empty key.** An empty key makes `transpose_columns` raise `ValueError` from `range` with step 0 (`RangeStepZero`), before any row is built. It makes `untranspose_columns` raise `ZeroDivisionError` (`DivisionByZero`).

## Model

| member | source | states |
|---|---|---|
| Builtins.Lower | main.py:36 | `char.lower()` on ASCII: each upper-case letter becomes the lower-case letter at the same position of the alphabet, and every other character is unchanged; the result is never upper-case |
| Builtins.LowerStr | main.py:36 | `text.lower()` keeps the length and lower-cases each position independently |
| Builtins.IsWhitespace | main.py:75 | `c.isspace()`, the set `rstrip()` removes: exactly the code points U+0009–U+000D, U+001C–U+0020, U+0085, U+00A0, U+1680, U+2000–U+200A, U+2028, U+2029, U+202F, U+205F and U+3000; no ASCII letter is whitespace, and space, tab, newline and carriage return are |
| Builtins.RStrip | main.py:75 | `rstrip()` returns a prefix of its input; everything it removes is whitespace; the result does not end in whitespace |
| Builtins.RStripUnique | main.py:75 | those three properties determine the result of `rstrip()` |
| Builtins.RStripAppendWhitespace | main.py:75 | appending whitespace (such as the padding of main.py:53) does not change the result of `rstrip()` |
| Builtins.RStripSameShape | main.py:75 | two equally long texts with whitespace at the same positions lose the same number of characters to `rstrip()` |
| Builtins.Spaces | main.py:53 | `' ' * n` is `n` characters, every one a space |
| Builtins.Slice | main.py:50 | Python slicing with non-negative bounds: an end past the length is clamped to the length, and a start at or past the end or the length gives the empty string |
| Builtins.Concat | main.py:57 | `''.join(parts)`: the parts one after another, so every part fits in the join; positions are given by `ConcatLength` and `ConcatAt` |
| Builtins.ConcatLength | main.py:57 | `''.join` of `n` parts of width `w` has `n * w` characters |
| Builtins.ConcatAt | main.py:57 | in such a join, character `r` of part `i` is at position `i * w + r` |
| Builtins.IndexOf | main.py:56 | `key.index(v)` is a position holding `v`, with no earlier `v`; it is defined only for `v` in the list |
| Builtins.FirstMissing | main.py:56 | the first `i` of `0 .. K-1` that the key lacks (the one `key.index(i)` raises on), or `K` if there is none |
| Permutations.PermutationIffCovers | main.py:56 | `key.index(i)` succeeds for every `i` in `0 .. K-1` exactly when the key is a permutation of `0 .. K-1` |
| Permutations.IndexOfPermutation | main.py:56 | in a permutation, `key.index(key[i]) == i` |
| Permutations.Range | main.py:103 | `range(n)` holds `0 .. n-1` in order, and holds each of them |
| Permutations.Insert | main.py:103 | inserting an index into a sorted, repetition-free list of indices keeps it sorted by key value and then by index, keeps it repetition-free, and adds exactly that index |
| Permutations.SortIndices | main.py:103 | sorting indices keeps the same elements, keeps a repetition-free list repetition-free, and yields them sorted by key value, ties by index |
| Permutations.ArgSort | main.py:103 | `sorted(range(K), key=lambda k: key[k])` is, for any key, a permutation of `0 .. K-1` sorted stably by key value |
| Permutations.SortedUnique | main.py:103 | two repetition-free orders of the same indices, both stably sorted by key value, are equal |
| Permutations.ArgSortIsTheStableOrder | main.py:103 | any permutation of `0 .. K-1` stably sorted by key value is `ArgSort(key)`, so the sorting algorithm does not matter |
| Permutations.ArgSortInverts | main.py:103 | for a permutation key, the argsort is its inverse: `inv[key[i]] == i` |
| Permutations.IndexOfArgSort | main.py:103 | for a permutation key, `inv.index(i) == key[i]` |
| Substitution.LettersSpelledOut | main.py:20 | the alphabet is `"abcdefghijklmnopqrstuvwxyz"` |
| Substitution.LettersAreLowercase | main.py:20 | the alphabet holds 26 letters, each once, and holds exactly the lower-case ASCII letters |
| Substitution.LetterPermutationFacts | main.py:21-22 | a shuffle of the alphabet has 26 letters, each once, and holds exactly the lower-case letters |
| Substitution.ZipMap | main.py:23 | the keys of `dict(zip(keys, values))` are exactly the elements of `keys` |
| Substitution.ZipMapAt | main.py:23 | with no repeated key, `dict(zip(keys, values))[keys[i]] == values[i]` |
| Substitution.ZipMapsPointwise | main.py:23 | zipping the alphabet with a shuffle of it, in either direction, pairs position `i` with position `i` |
| Substitution.ZipMapsAreInverse | main.py:20-23 | for any shuffle of the alphabet, the forward and reverse dicts are bijections of the lower-case letters and invert each other: `rev[fwd[c]] == c` and `fwd[rev[d]] == d` |
| Substitution.Shuffle | main.py:22 | `random.shuffle` (Fisher–Yates, with each swap partner left open) leaves the list holding the same elements, each as often as before |
| Substitution.GenerateSubstitutionCipher | main.py:11-23 | returns a forward and a reverse map that are inverse bijections of the lower-case letters, built from a shuffle of the alphabet |
| Substitution.Get | main.py:36 | `cipher_map.get(c, c)`: a key gives one of the map's values, and a character that is not a key comes back unchanged |
| Substitution.Substitute | main.py:36 | `substitute` keeps the length, and position `p` is `map[lower(text[p])]` when that key exists, and `lower(text[p])` otherwise |
| Substitution.SubstituteIgnoresCase | main.py:36 | `substitute(text, m) == substitute(lower(text), m)` |
| Substitution.SubstituteIsLowercase | main.py:36 | with a map whose values are not upper-case, the output contains no upper-case letter |
| Substitution.SubstitutePassesNonLetters | main.py:36 | with a map keyed by the lower-case letters, ASCII letters of either case go through the map, and digits, punctuation and whitespace pass through unchanged |
| Substitution.SubstituteInverse | main.py:36 | substituting with the forward map and then the reverse map (or the other way round) gives the lower-cased text |
| Substitution.SubstituteKeepsWhitespace | main.py:36 | substituting with a generated map keeps whitespace exactly where it was |
| Substitution.SubstituteBackAfterRStrip | main.py:36 | undoing the substitution after `rstrip()` gives `rstrip(lower(text))` |
| Substitution.SubstituteExample | main.py:36 | swapping `a` and `b` turns `"ab cd"` into `"ba cd"` |
| Arith.CeilDiv | main.py:50 | `len(range(0, n, k))`, the number of rows `ceil(n / k)`: at most `n`, and positive exactly when `n` is |
| Arith.CeilDivBounds | main.py:50-53 | the padded grid of `ceil(n / k)` rows of width `k` holds at least `n` characters and, for a non-empty text, fewer than `n + k`; an empty text gives no rows |
| Transposition.Rows | main.py:50 | there are `ceil(len(text) / K)` rows |
| Transposition.RowsAt | main.py:50 | row `j` is the `K` characters from position `j*K` on; only the last row may be shorter; no row is empty |
| Transposition.PadLast | main.py:52-53 | only the last row changes, and a short last row is brought to width `K` |
| Transposition.Grid | main.py:50-53 | after padding, the rows form a grid of `ceil(len(text) / K)` rows, each `K` wide |
| Transposition.Padded | main.py:52-53 | the padded text is the text followed only by spaces, up to a whole number of rows |
| Transposition.GridAt | main.py:50-53 | grid cell `(j, c)` is character `j*K + c` of the padded text |
| Transposition.Columns | main.py:55 | column `i` has one character per row, and its character `j` is the grid's cell `(j, i)` |
| Transposition.SortedColumns | main.py:56 | there are `K` sorted columns, each as tall as the grid |
| Transposition.Transposed | main.py:55-57 | a successful transposition outputs `R*K` characters, with `R = ceil(len(text) / K)` |
| Transposition.TransposeColumns | main.py:49-57 | fails with `RangeStepZero` when `K == 0`, else with `EmptyRowList` on an empty text; otherwise succeeds exactly when the key is a permutation, and every other failure is `NotInKey(i)` for the first `i` in `0 .. K-1` the key lacks (the `ValueError` of `key.index(i)`); on success the output has `R*K` characters, at least as many as the text and fewer than `K` more |
| Transposition.TransposeAt | main.py:49-57 | closed form: `out[i*R + j] == padded[j*K + key.index(i)]` |
| Transposition.Block | main.py:72 | `text[i * R:(i + 1) * R]` is at most `R` characters, and exactly `text[i*R .. i*R + R]` when that range lies inside the text |
| Transposition.Blocks | main.py:71-72 | the ciphertext is cut into `K` blocks of `len(text) // K` characters |
| Transposition.BlockLength | main.py:72 | block `i` lies inside the text and is `len(text) // K` long |
| Transposition.BlockAt | main.py:72 | character `j` of block `i` is `text[i*R + j]` |
| Transposition.ReadRows | main.py:74 | there are `len(text) // K` rows of width `K`, and row `j`, column `i` is character `j` of block `key.index(i)` |
| Transposition.Unstripped | main.py:74-75 | before `rstrip()`, the rows joined have `(len(text) // K) * K` characters |
| Transposition.UntransposeColumns | main.py:70-75 | fails with `DivisionByZero` exactly when `K == 0`; otherwise fails exactly when there is a row and the key is not a permutation, and then with `NotInKey(i)` for the first `i` in `0 .. K-1` the key lacks; on success the output is no longer than the input and does not end in whitespace |
| Transposition.UntransposeAt | main.py:70-75 | closed form: before `rstrip()`, `u[j*K + i] == text[key.index(i)*R + j]` |
| Transposition.BlockIgnoresTail | main.py:72 | a block that ends inside a prefix of the text is the same block when cut from the prefix |
| Transposition.UnstrippedIgnoresTail | main.py:71-74 | before `rstrip()`, the result depends only on the first `(len(text) // K) * K` characters |
| Transposition.UntransposeIgnoresTail | main.py:70-75 | neither the result nor whether it fails depends on the trailing `len(text) % K` characters |
| Transposition.RoundTripCell | main.py:49-75 | cell `(j, i)` of the untransposed ciphertext is cell `(j, i)` of the padded text |
| Transposition.UnstrippedTransposed | main.py:49-75 | for a non-empty text and a permutation key, untransposing the transposition with `argsort(key)` rebuilds the padded text exactly, before `rstrip()` |
| Transposition.TransposeRoundTrip | main.py:49-75 | for a non-empty text and a permutation key, transposing succeeds, and untransposing with `argsort(key)` gives `rstrip(text)` |
| Transposition.TransposeExample | main.py:49-57 | `transpose_columns("wxyz", [3, 0, 1, 2]) == "xyzw"` |
| Transposition.TransposedExample | main.py:55-57 | the same case, read off the closed form |
| Transposition.TransposeRejectsRepeatedKey | main.py:56 | `transpose_columns("abc", [0, 0, 1])` raises on `key.index(2)` |
| Transposition.UntransposeDropsTail | main.py:70-75 | `untranspose_columns("abc", [0, 1]) == "ab"`: the odd character is dropped |
| CipherEngine.Cipher.constructor | main.py:5-9 | the maps stored come from one call of the generator: a shuffle of the alphabet zipped both ways |
| CipherEngine.Cipher.Encrypt | main.py:77-90 | fails with `RangeStepZero` for an empty key, else with `EmptyRowList` for an empty text; otherwise succeeds exactly for a permutation key, fails for any other key with `NotInKey(i)` for the first `i` in `0 .. K-1` the key lacks, and on success produces `ceil(len/K)*K` characters, at least the text's length and fewer than `K` more |
| CipherEngine.Cipher.Decrypt | main.py:92-106 | fails exactly when the key is empty, with `DivisionByZero`; otherwise succeeds for any key, and the result is no longer than the ciphertext |
| CipherEngine.Cipher.DecryptEndsInNonWhitespace | main.py:103-106 | with the generated maps, a decrypted text does not end in whitespace |
| CipherEngine.Cipher.DecryptEncrypt | main.py:77-106 | with the generated maps, for a non-empty plaintext and a permutation key, encryption succeeds and `decrypt(encrypt(P, key), key) == rstrip(lower(P))` |

## Left out

- The demo at main.py:108-121 is not modelled. It covers reading `original_text.txt`, `.strip()` of its contents, and the `print` calls; these are I/O only.
- Substitution.Shuffle: the random source is not modelled. Each swap partner is an arbitrary choice in `0 .. i`. The model does not state that all 26! orders are equally likely, nor that the shuffle is reproducible from a seed.
- Builtins.Lower: lower-cases ASCII `A`–`Z` only. Python's `str.lower()` also maps non-ASCII letters, and for a few of them it changes the string's length. Non-ASCII input is passed through unchanged here.
- Builtins.IsWhitespace and Builtins.RStrip use the fixed set of characters Python's `str.isspace()` accepts. The Unicode database behind that set is not modelled.
- Permutations.ArgSort is an insertion sort rather than Python's Timsort. `ArgSortIsTheStableOrder` shows that any stable sort gives the same list.
- Permutations.SortsBefore compares key values as integers. Keys of other types are not modelled.
- Substitution.ZipMap requires lists of equal length. `zip` also truncates unequal lists, but the source only ever zips two 26-letter lists.
- Transposition.PadLast returns a new list. In the source, the padded last row replaces the old one inside the local `rows` list. No caller can observe the difference.
- The quadratic cost of calling `key.index` inside the comprehensions is not modelled. It has no effect on results.
- CipherEngine.Cipher.Encrypt: the model does not include a multiset statement that the ciphertext is a rearrangement of the padded, substituted text. The placement is stated by `TransposeAt`, and it is a bijection when the key is a permutation (`TransposeRoundTrip`).
