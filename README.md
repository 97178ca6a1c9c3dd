# efficient-bits in Dafny

A verified model of the core of the efficient-bits repository: four small cheminformatics
projects that go with a blog on writing fast code.

- **fp-idx**: binary fingerprints and a popcount-bucketed similarity index over them.
  - `BinaryFingerprint` is a bit set over an array of 64-bit words.
  - `Similarity` gives the Tanimoto, Dice and Manhatten (sic) measures with their popcount bounds; Cosine is left out.
  - `FpsFmt` reads and writes the hex of the FPS text format.
  - `MinBinaryHeap` is the bounded k-best heap.
  - `FingerprintSort` is the counting sort by popcount that writes the index file.
  - `SimilarityIndex` answers top-k and threshold queries over the mapped index.
  - `FrequencyFingerprint` is a sorted multiset of hashes.
  - `FpsToIdx` is the converter from FPS to the index and id files.
- **polished-smarts**: `SmartsAtomExprParser`, the operator-precedence parser for SMARTS atom
  expressions, together with its unit tests.
- **readopt-ds**: `AtomRef` and `BondRef`, read-optimised snapshot views of a molecule, and
  `Benchmark`. The benchmark times depth-first searches and value relaxations over several
  graph representations and keeps a checksum per algorithm.
- **cdk2fps-jni**: `cdk2fps.cpp`, which reads SMILES lines and writes FPS records and the FPS header.

## How the model is written

Each component keeps the shape of its source.

- A Java class whose methods update fields becomes a Dafny `class`:
  - fields that are reassigned;
  - arrays where the source keeps arrays;
  - methods with `modifies` clauses and loops with invariants.

  Each such method is proved against a specification function, and the properties are proved
  about that function.
- Pure code becomes functions and lemmas.
- Java's `long` and `int` are unbounded `nat`s and `int`s.
  - A `long` is read bit by bit (`Words.Bit`).
  - `int` wrap-around is written out explicitly (`Words.ToInt32`) for the sort's region size and
    record offsets, `readNonNegInt`'s accumulator and negated charge, the relaxation sums, and
    the signed `%d` of the cdk2fps header. The `FrequencyFingerprint` counts and tallies are unbounded instead; see
    "## Left out".
- A `double` result is the datatype `Similarity.Double`, which holds an exact rational or a
  special value (NaN or an infinity).
- Exceptions become `Result` values. `Wrappers.Exception` names the Java or C condition.
- A fault that only a buggy caller can trigger (an array index that the caller controls) is a
  `requires` instead.

Some behaviour of the code shapes the model throughout:

- A fingerprint length must be a power of two. A length below 64 gets no words.
- The index histogram throws for a fingerprint whose popcount equals its length: there is no
  bucket for popcount `length`.
- `top` ranks by Tanimoto whatever measure it is given.
- `findAll` adds the number 1 for each hit (its id lookup is unfinished). The corrected query
  returns the slot of each hit.
- Sorting fewer than two fingerprints returns the input unchanged.
- Neither query works as written. By default `top` throws a NullPointerException on the cache it
  never built, and `findAll` can throw, loop forever or miss hits. Each of these is a row under
  Findings. The corrected queries are the ones the rest of the model uses: they read the whole
  mapped payload.

Clocks, the JNI fingerprint encoder, the regex matcher and the SMILES parser are parameters:
clock readings, a function from SMILES to `Option<bytes>`, a predicate on descriptions, and
each line's parse.

## Model

| member | source | states |
|---|---|---|
| Words.WordAnd | fp-idx/src/main/java/org/openscience/cdk/nfp/BinaryFingerprint.java:186 | Java's `&` on two longs: bit i of the result is set exactly when it is set in both |
| Words.WordOr | fp-idx/src/main/java/org/openscience/cdk/nfp/BinaryFingerprint.java:66 | Java's `\|` on two longs: bit i of the result is set exactly when it is set in either |
| Words.WordXor | fp-idx/src/main/java/org/openscience/cdk/nfp/BinaryFingerprint.java:172 | Java's `^` on two longs: bit i of the result is set exactly when the operands differ there |
| Words.NotBit | fp-idx/src/main/java/org/openscience/cdk/nfp/BinaryFingerprint.java:71 | Java's `~` on a long flips each of its 64 bits |
| Words.Mask | fp-idx/src/main/java/org/openscience/cdk/nfp/BinaryFingerprint.java:66 | `1L << h` for 0 <= h < 64 has bit h and no other |
| Words.AndMask | fp-idx/src/main/java/org/openscience/cdk/nfp/BinaryFingerprint.java:75 | `(w & 1L << k) != 0` holds exactly when bit k of w is set |
| Words.WordBitCount | fp-idx/src/main/java/org/openscience/cdk/nfp/BinaryFingerprint.java:179 | `Long.bitCount(w)` is the number of set bits among the 64, so at most 64 |
| Words.WordCountUnion | fp-idx/src/main/java/org/openscience/cdk/nfp/BinaryFingerprint.java:205-207 | bitCount(x) + bitCount(y) = bitCount(x & y) + bitCount(x \| y), and x & y has no more bits than either |
| Words.AndPred | fp-idx/src/main/java/org/openscience/cdk/nfp/BinaryFingerprint.java:57 | for positive x, `(x & (x - 1)) == 0` holds exactly when x is a power of two |
| Words.AndLowMask | fp-idx/src/main/java/org/openscience/cdk/nfp/BinaryFingerprint.java:61 | `v & (p - 1)` is v modulo p when p is a power of two |
| Words.JavaDiv | fp-idx/src/main/java/org/openscience/cdk/nfp/BinaryFingerprint.java:46 | Java's integer `/` by a positive divisor truncates toward zero, also for a negative dividend |
| Words.AssembleBytes | fp-idx/src/main/java/org/openscience/cdk/nfp/BinaryFingerprint.java:141-148 | splitting a word into its eight bytes and assembling them back restores the word |
| Words.BytesAssemble | fp-idx/src/main/java/org/openscience/cdk/nfp/BinaryFingerprint.java:106-107 | eight bytes assembled form a word whose bytes are those eight, least significant first |
| Words.ByteBit | fp-idx/src/main/java/org/openscience/cdk/nfp/BinaryFingerprint.java:106-107 | bit k of byte j of a word is bit 8j + k of the word: bytes are taken little-endian |
| Words.SubsetWord | fp-idx/src/main/java/org/openscience/cdk/nfp/BinaryFingerprint.java:186 | `x == (x & y)` holds exactly when every bit of x is a bit of y |
| Words.ZeroWord | fp-idx/src/main/java/org/openscience/cdk/nfp/BinaryFingerprint.java:194 | a word is zero exactly when none of its bits is set |
| Similarity.Div | fp-idx/src/main/java/org/openscience/cdk/nfp/Similarity.java:33 | Java's `n / (double) d` on ints: a finite number exactly when d is not 0, and NaN exactly for 0 / 0 |
| Similarity.TanimotoRange | fp-idx/src/main/java/org/openscience/cdk/nfp/Similarity.java:32-34 | the Tanimoto score is NaN only when a + b + both is 0; otherwise it lies in [0, 1] and is 1 exactly when a and b are both 0 |
| Similarity.DiceRange | fp-idx/src/main/java/org/openscience/cdk/nfp/Similarity.java:59-61 | the Dice score is NaN only for two empty fingerprints; otherwise it lies in [0, 1] and is 1 exactly when nothing is unshared |
| Similarity.ManhattenRange | fp-idx/src/main/java/org/openscience/cdk/nfp/Similarity.java:50-52 | over counts with a positive sum, the Manhattan score lies in [0, 1] and is 0 exactly when nothing is unshared |
| Similarity.ComputeSymmetric | fp-idx/src/main/java/org/openscience/cdk/nfp/Similarity.java:30-66 | every measure gives the same score when the two fingerprints swap places (a and b exchanged) |
| Similarity.TanimotoBoundShape | fp-idx/src/main/java/org/openscience/cdk/nfp/Similarity.java:36-38 | `bound(q, t)` is symmetric, is NaN only for q = t = 0, and is min(q, t) / max(q, t) |
| Similarity.TanimotoBoundSound | fp-idx/src/main/java/org/openscience/cdk/nfp/Similarity.java:32-38 | no pair with popcounts q = a + both and t = b + both scores above `bound(q, t)`, so pruning by the bound loses no hit |
| Similarity.TanimotoBoundAttained | fp-idx/src/main/java/org/openscience/cdk/nfp/Similarity.java:36-38 | the bound is tight: the pair sharing min(q, t) bits scores exactly `bound(q, t)` |
| Similarity.TanimotoBoundMonotone | fp-idx/src/main/java/org/openscience/cdk/nfp/Similarity.java:36-38 | for fixed q the bound never grows as t moves away from q, below or above it |
| Similarity.ConstantBoundsSound | fp-idx/src/main/java/org/openscience/cdk/nfp/Similarity.java:45-65 | Dice and Manhattan use the constant bound 1, and each of their scores is a number no greater than 1 |
| BinaryFingerprints.PowerOfTwo | fp-idx/src/main/java/org/openscience/cdk/nfp/BinaryFingerprint.java:56-58 | `powerOfTwo(n)` holds exactly for the positive powers of two and for `Integer.MIN_VALUE`, whose predecessor wraps |
| BinaryFingerprints.NegativePowerOfTwo | fp-idx/src/main/java/org/openscience/cdk/nfp/BinaryFingerprint.java:57 | among negative ints only `Integer.MIN_VALUE` passes the `n & (n - 1)` test |
| BinaryFingerprints.BinaryFingerprint.New | fp-idx/src/main/java/org/openscience/cdk/nfp/BinaryFingerprint.java:42-47 | construction succeeds exactly for a positive power-of-two length, with `length / 64` zero words; `Integer.MIN_VALUE` faults the allocation and every other length throws IllegalArgumentException |
| BinaryFingerprints.BinaryFingerprint.constructor | fp-idx/src/main/java/org/openscience/cdk/nfp/BinaryFingerprint.java:49-54 | the private constructor keeps the length and the given words |
| BinaryFingerprints.BinaryFingerprint.WordsCover | fp-idx/src/main/java/org/openscience/cdk/nfp/BinaryFingerprint.java:45-46 | from 64 bits up the words hold exactly `length` positions; below 64 there are no words |
| BinaryFingerprints.BinaryFingerprint.Hash | fp-idx/src/main/java/org/openscience/cdk/nfp/BinaryFingerprint.java:60-62 | `hash(x)` lies in [0, length): x's two's-complement pattern modulo the length, and x % length for x >= 0 |
| BinaryFingerprints.LowBitsMask | fp-idx/src/main/java/org/openscience/cdk/nfp/BinaryFingerprint.java:61 | `x & (p - 1)` on ints is x's bit pattern modulo the power of two p |
| BinaryFingerprints.BinaryFingerprint.Get | fp-idx/src/main/java/org/openscience/cdk/nfp/BinaryFingerprint.java:74-76 | `get(x)` succeeds exactly for 0 <= x < 64 * words.length and then reports bit x; otherwise the array access throws |
| BinaryFingerprints.BinaryFingerprint.Freq | fp-idx/src/main/java/org/openscience/cdk/nfp/BinaryFingerprint.java:84-86 | `freq(x)` is 1 exactly when `get(x)` is true and 0 exactly when it is false, and throws where `get` throws |
| BinaryFingerprints.BinaryFingerprint.Add | fp-idx/src/main/java/org/openscience/cdk/nfp/BinaryFingerprint.java:64-68 | `add(x)` sets bit `hash(x)`, returns it and leaves every other bit as it was; with no words it throws and changes nothing |
| BinaryFingerprints.SetBitAt | fp-idx/src/main/java/org/openscience/cdk/nfp/BinaryFingerprint.java:66 | `words[h >> 6] \|= 1L << h` sets position h and no other |
| BinaryFingerprints.BinaryFingerprint.Clear | fp-idx/src/main/java/org/openscience/cdk/nfp/BinaryFingerprint.java:70-72 | `clear(x)` clears bit x and no other, after which `get(x)` is false; out of range it throws and changes nothing |
| BinaryFingerprints.ClearBitAt | fp-idx/src/main/java/org/openscience/cdk/nfp/BinaryFingerprint.java:71 | `words[x >> 6] &= ~(1L << x)` clears position x and no other |
| BinaryFingerprints.BinaryFingerprint.Cardinality | fp-idx/src/main/java/org/openscience/cdk/nfp/BinaryFingerprint.java:176-181 | `cardinality()` is the number of set positions |
| BinaryFingerprints.PopcountPositions | fp-idx/src/main/java/org/openscience/cdk/nfp/BinaryFingerprint.java:176-181 | the sum of the words' bit counts is the number of set positions |
| BinaryFingerprints.BinaryFingerprint.Contains | fp-idx/src/main/java/org/openscience/cdk/nfp/BinaryFingerprint.java:183-189 | `contains(other)` is true exactly when every bit set here is set in `other` |
| BinaryFingerprints.WordsSubset | fp-idx/src/main/java/org/openscience/cdk/nfp/BinaryFingerprint.java:185-187 | the word test `w == (w & o)` on every word is the same as bit-by-bit inclusion |
| BinaryFingerprints.BinaryFingerprint.Intersects | fp-idx/src/main/java/org/openscience/cdk/nfp/BinaryFingerprint.java:191-197 | `intersects(other)` is true exactly when some position is set in both, and equally when some word AND is non-zero |
| BinaryFingerprints.WordsDisjoint | fp-idx/src/main/java/org/openscience/cdk/nfp/BinaryFingerprint.java:193-195 | every word AND is zero exactly when no position is set in both |
| BinaryFingerprints.BinaryFingerprint.Xor | fp-idx/src/main/java/org/openscience/cdk/nfp/BinaryFingerprint.java:169-174 | `xor(fp)` gives a fresh fingerprint of the same length whose bits are the exclusive or of the two; a shorter `fp` throws |
| BinaryFingerprints.BinaryFingerprint.Similarity | fp-idx/src/main/java/org/openscience/cdk/nfp/BinaryFingerprint.java:199-216 | `similarity` is the measure applied to the counts of positions set only here, only there, in both and in neither |
| BinaryFingerprints.TallySound | fp-idx/src/main/java/org/openscience/cdk/nfp/BinaryFingerprint.java:203-213 | onlyA, onlyB, both and neither count the positions set only in the first, only in the second, in both and in neither; none is negative and they add up to `length` |
| BinaryFingerprints.PopcountUnion | fp-idx/src/main/java/org/openscience/cdk/nfp/BinaryFingerprint.java:204-208 | summed over the words, \|a\| + \|b\| = \|a & b\| + \|a \| b\|, and \|a & b\| is at most each of \|a\| and \|b\| |
| BinaryFingerprints.BinaryFingerprint.FromBytes | fp-idx/src/main/java/org/openscience/cdk/nfp/BinaryFingerprint.java:137-151 | `fromBytes(bytes)` gives 8 * bytes.length bits whose word k is bytes 8k .. 8k+7, least significant first; a length that is not a power of two throws, and 1, 2 or 4 bytes fault the first store |
| BinaryFingerprints.LongOfBytes | fp-idx/src/main/java/org/openscience/cdk/nfp/BinaryFingerprint.java:141-148 | the shifted and masked OR of the eight bytes is those bytes assembled little-endian |
| BinaryFingerprints.BinaryFingerprint.ValueOf | fp-idx/src/main/java/org/openscience/cdk/nfp/BinaryFingerprint.java:133-135 | `valueOf(words, len)` copies the first len / 64 words, padded with zeros, into a fingerprint of len bits; a bad len throws, a very negative one faults the copy first |
| BinaryFingerprints.BinaryFingerprint.Fold | fp-idx/src/main/java/org/openscience/cdk/nfp/BinaryFingerprint.java:153-159 | `fold(n)` gives a fresh n-bit fingerprint with bit i % n set for every set bit i; the error cases are those of the constructor and of `get`/`add` on a fingerprint without words |
| BinaryFingerprints.FoldsStep | fp-idx/src/main/java/org/openscience/cdk/nfp/BinaryFingerprint.java:155-157 | folding one more position m adds its residue m % n exactly when bit m is set |
| BinaryFingerprints.BinaryFingerprint.ToByteArray | fp-idx/src/main/java/org/openscience/cdk/nfp/BinaryFingerprint.java:101-111 | `toByteArray()` gives eight bytes per word, least significant first |
| BinaryFingerprints.LittleEndian | fp-idx/src/main/java/org/openscience/cdk/nfp/BinaryFingerprint.java:104-109 | byte 8w + j of the array is byte j of word w, and its bit k is position 64w + 8j + k |
| BinaryFingerprints.BytesRoundTrip | fp-idx/src/main/java/org/openscience/cdk/nfp/BinaryFingerprint.java:137-151 | `fromBytes` of the bytes `toByteArray` writes restores the words |
| BinaryFingerprints.WordsRoundTrip | fp-idx/src/main/java/org/openscience/cdk/nfp/BinaryFingerprint.java:101-111 | `toByteArray` of the words read from a whole number of 8-byte groups gives the bytes back |
| BinaryFingerprints.Pow2Times8 | fp-idx/src/main/java/org/openscience/cdk/nfp/BinaryFingerprint.java:138 | 8 * len is a power of two exactly when len is, so `fromBytes` accepts exactly power-of-two byte counts |
| BinaryFingerprints.BinaryFingerprint.ToHex | fp-idx/src/main/java/org/openscience/cdk/nfp/BinaryFingerprint.java:88-99 | `toHex()` is the FPS hex of the words: per word, per byte from the least significant, two lowercase digits |
| BinaryFingerprints.AppendLongHex | fp-idx/src/main/java/org/openscience/cdk/nfp/BinaryFingerprint.java:90-97 | one pass of the outer loop appends the 16-digit hex of one word |
| BinaryFingerprints.LongHexStep | fp-idx/src/main/java/org/openscience/cdk/nfp/BinaryFingerprint.java:91-95 | each inner pass appends the padded `toHexString` of the next byte, extending the hex of the bytes before it |
| BinaryFingerprints.PaddedHex | fp-idx/src/main/java/org/openscience/cdk/nfp/BinaryFingerprint.java:92-94 | `Long.toHexString(b)` padded with a leading '0' to two digits is the byte's two-digit lowercase hex |
| ByteBuffers.ByteBuffer.Get | fp-idx/src/main/java/org/openscience/cdk/nfp/FpsFmt.java:38 | `buf.get()` returns the byte at the cursor and advances it by one; at the end it throws BufferUnderflowException and the cursor stays |
| FpsFmt.HexToNibble | fp-idx/src/main/java/org/openscience/cdk/nfp/FpsFmt.java:90-139 | `hexToNibble(c)` gives a value exactly for the 22 hex digits of either case, always below 16; any other char throws |
| FpsFmt.NibbleDigit | fp-idx/src/main/java/org/openscience/cdk/nfp/FpsFmt.java:112-135 | an upper- or lowercase hex digit reads as the value whose lowercase digit it is |
| FpsFmt.NibbleRoundTrip | fp-idx/src/main/java/org/openscience/cdk/nfp/FpsFmt.java:90-139 | every lowercase digit `writeHex` can emit reads back as its value, and so does its uppercase form |
| FpsFmt.GenArray | fp-idx/src/main/java/org/openscience/cdk/nfp/FpsFmt.java:161-170 | `genArray` builds exactly the lookup table: a row for each hex char of either case, no row for any other char up to 'f' |
| FpsFmt.HexTableCells | fp-idx/src/main/java/org/openscience/cdk/nfp/FpsFmt.java:162-167 | the table gives the two-digit value for two hex chars and the default 0 for a non-hex low char |
| FpsFmt.HexTableLookup | fp-idx/src/main/java/org/openscience/cdk/nfp/FpsFmt.java:85-88 | `hexToByte` over the `genArray` table: hex digits of either case give their value, a bad low char below 'g' gives 0, a bad high char or any char above 'f' faults |
| FpsFmt.HexPairCases | fp-idx/src/main/java/org/openscience/cdk/nfp/FpsFmt.java:85-88 | the three outcomes of `hexToByte(hi, lo)`, and it faults exactly when `hi` is not hex or `lo` is above 'f' |
| FpsFmt.HexPairDigits | fp-idx/src/main/java/org/openscience/cdk/nfp/FpsFmt.java:85-88 | the two digits a byte is written as read back as that byte |
| FpsFmt.CopyOf | fp-idx/src/main/java/org/openscience/cdk/nfp/FpsFmt.java:54 | `Arrays.copyOf(words, m)` keeps the first m words and pads with zero words |
| FpsFmt.WriteHex | fp-idx/src/main/java/org/openscience/cdk/nfp/FpsFmt.java:51-83 | `writeHex` appends 16 digits per started 64-bit block, low byte first; missing words read as zero, and when `len` is not a multiple of 64 and exceeds the words the copy is one word short and the last read throws after the whole words were appended |
| FpsFmt.AppendWordHex | fp-idx/src/main/java/org/openscience/cdk/nfp/FpsFmt.java:56-79 | one pass of the loop appends the 16-digit hex of one word |
| FpsFmt.WordHexStep | fp-idx/src/main/java/org/openscience/cdk/nfp/FpsFmt.java:57-59 | each pair of appends writes the high and low nibble of the next byte, extending the hex of the bytes before it |
| FpsFmt.WriteHexFaults | fp-idx/src/main/java/org/openscience/cdk/nfp/FpsFmt.java:53-56 | `writeHex` faults exactly when `len` is not a multiple of 64 and exceeds the words given |
| FpsFmt.WriteHexWhole | fp-idx/src/main/java/org/openscience/cdk/nfp/FpsFmt.java:51-83 | for len = 64n over n words `writeHex` appends exactly the hex of the words, len / 4 chars |
| FpsFmt.EncodeHexLower | fp-idx/src/main/java/org/openscience/cdk/nfp/FpsFmt.java:8 | everything `writeHex` appends is a lowercase hex digit |
| FpsFmt.ReadHex | fp-idx/src/main/java/org/openscience/cdk/nfp/FpsFmt.java:11-29 | `readHex(str, len, words)` fills `words` with the decode of the first 16 * words.length chars and returns true; a short string or a bad digit throws the exception the decode names; `len` is unused |
| FpsFmt.ReadWordAt | fp-idx/src/main/java/org/openscience/cdk/nfp/FpsFmt.java:18-25 | one pass of the loop ORs eight `hexToByte` results into place: the word the 16 chars hold, or the first fault |
| FpsFmt.ReadStep | fp-idx/src/main/java/org/openscience/cdk/nfp/FpsFmt.java:19-25 | after j good pairs, OR-ing the next byte shifted by 8j extends the word by that byte |
| FpsFmt.PairsFault | fp-idx/src/main/java/org/openscience/cdk/nfp/FpsFmt.java:18-25 | a bad pair inside a word is the fault of the whole word |
| FpsFmt.DecodeHexStep | fp-idx/src/main/java/org/openscience/cdk/nfp/FpsFmt.java:17-26 | one more successfully read word extends the words read before it |
| FpsFmt.DecodeHexErr | fp-idx/src/main/java/org/openscience/cdk/nfp/FpsFmt.java:17-26 | the first word that faults decides the outcome of the whole read |
| FpsFmt.HexRoundTrip | fp-idx/src/main/java/org/openscience/cdk/nfp/FpsFmt.java:11-29 | reading back the hex `writeHex` writes for any word array restores the words |
| FpsFmt.CharOf | fp-idx/src/main/java/org/openscience/cdk/nfp/FpsFmt.java:38 | `(char) b` keeps ASCII bytes and sign-extends bytes from 0x80 to chars above 'f' |
| FpsFmt.ReadHexBuffer | fp-idx/src/main/java/org/openscience/cdk/nfp/FpsFmt.java:31-49 | `readHex(buf, len, words)` decodes exactly as the String reader does, from the chars of the bytes after the cursor, and moves the cursor past the 16 * words.length bytes read; running out of bytes throws BufferUnderflowException |
| FpsFmt.ReadWordBuffer | fp-idx/src/main/java/org/openscience/cdk/nfp/FpsFmt.java:38-45 | one pass of the loop: sixteen `get()`s whose pairs OR into the word they hold, or the first fault |
| FpsFmt.BufferRoundTrip | fp-idx/src/main/java/org/openscience/cdk/nfp/FpsFmt.java:31-49 | the buffer reader decodes the stored ASCII hex of any word array back to the words |
| MinBinaryHeaps.MinBinaryHeap.constructor | fp-idx/src/main/java/org/openscience/cdk/nfp/MinBinaryHeap.java:40-44 | a heap for k pairs has arrays of k + 1 slots and holds nothing (`size == 1`) |
| MinBinaryHeaps.MinBinaryHeap.Exch | fp-idx/src/main/java/org/openscience/cdk/nfp/MinBinaryHeap.java:82-91 | `exch(i, j)` swaps the keys and the values of slots i and j and changes nothing else |
| MinBinaryHeaps.ExchPairs | fp-idx/src/main/java/org/openscience/cdk/nfp/MinBinaryHeap.java:82-91 | swapping two live slots leaves the held pairs the same multiset |
| MinBinaryHeaps.MinBinaryHeap.Min | fp-idx/src/main/java/org/openscience/cdk/nfp/MinBinaryHeap.java:93-96 | `min()` on a non-empty heap is the root value, and no live value is below it |
| MinBinaryHeaps.RootIsMin | fp-idx/src/main/java/org/openscience/cdk/nfp/MinBinaryHeap.java:93-96 | in a heap-ordered array the root value is at most every live value |
| MinBinaryHeaps.MinBinaryHeap.RootLeast | fp-idx/src/main/java/org/openscience/cdk/nfp/MinBinaryHeap.java:93-96 | the root pair is held and no held pair has a smaller value |
| MinBinaryHeaps.MinBinaryHeap.Insert | fp-idx/src/main/java/org/openscience/cdk/nfp/MinBinaryHeap.java:69-80 | `insert(x, c)` on a heap with room keeps heap order and the capacity bound, grows the live count by one and adds exactly the pair (x, c) |
| MinBinaryHeaps.SiftUpStep | fp-idx/src/main/java/org/openscience/cdk/nfp/MinBinaryHeap.java:73-77 | one move of the sift-up loop keeps the heap order around the hole and the held pairs |
| MinBinaryHeaps.SiftUpPlace | fp-idx/src/main/java/org/openscience/cdk/nfp/MinBinaryHeap.java:78-79 | writing (x, c) into the hole at loop exit leaves an ordered heap holding the old pairs and (x, c) |
| MinBinaryHeaps.MinBinaryHeap.Heapify | fp-idx/src/main/java/org/openscience/cdk/nfp/MinBinaryHeap.java:105-123 | `heapify(i)` restores heap order below slot i and keeps the held pairs |
| MinBinaryHeaps.HeapifyStep | fp-idx/src/main/java/org/openscience/cdk/nfp/MinBinaryHeap.java:110-122 | swapping slot i with its smaller child moves the only disorder down to that child |
| MinBinaryHeaps.HeapifyDone | fp-idx/src/main/java/org/openscience/cdk/nfp/MinBinaryHeap.java:118-119 | when neither child is smaller the heap is ordered |
| MinBinaryHeaps.ReplaceRoot | fp-idx/src/main/java/org/openscience/cdk/nfp/MinBinaryHeap.java:63-64 | writing a new root pair replaces exactly the root's pair and leaves disorder only at the root |
| MinBinaryHeaps.MinBinaryHeap.Add | fp-idx/src/main/java/org/openscience/cdk/nfp/MinBinaryHeap.java:58-67 | `add(x, c)`: with room the pair goes in; when full it replaces the root pair exactly when c > min(), and otherwise nothing changes, so ties keep the earlier pair; heap order always holds |
| MinBinaryHeaps.OfferKeepsBest | fp-idx/src/main/java/org/openscience/cdk/nfp/MinBinaryHeap.java:58-67 | what `add` does keeps the held pairs a k-best selection of everything offered: all of them below capacity, otherwise k pairs none of which is worth less than a dropped one |
| MinBinaryHeaps.SkipKeepsBest | fp-idx/src/main/java/org/openscience/cdk/nfp/MinBinaryHeap.java:62 | pairs no larger than a bound below every held value leave the k best unchanged when skipped |
| MinBinaryHeaps.MinBinaryHeap.DeleteMinAsWritten | fp-idx/src/main/java/org/openscience/cdk/nfp/MinBinaryHeap.java:98-103 | `deleteMin()` as written returns the root key, moves only the last key to the root, shrinks by one and re-heapifies on the stale root value |
| MinBinaryHeaps.DeleteMinStaleValue | fp-idx/src/main/java/org/openscience/cdk/nfp/MinBinaryHeap.java:100 | with keys 7, 8 and values 1.0, 2.0 the as-written deleteMin holds (8, 1.0) where removing the least pair leaves (8, 2.0) |
| MinBinaryHeaps.MinBinaryHeap.DeleteMin | fp-idx/src/main/java/org/openscience/cdk/nfp/MinBinaryHeap.java:98-103 | deleteMin with the value moved along with the key: returns the key of the least pair, removes exactly that pair and keeps heap order |
| MinBinaryHeaps.DropRoot | fp-idx/src/main/java/org/openscience/cdk/nfp/MinBinaryHeap.java:100 | moving the last pair to the root and shrinking by one drops exactly the root pair |
| MinBinaryHeaps.MinBinaryHeap.Pairs | fp-idx/src/main/java/org/openscience/cdk/nfp/MinBinaryHeap.java:125-138 | `pairs()` is the live pairs in slot order, sorted by the stable list sort on descending value: a non-increasing permutation of the held pairs in which the pairs of each value keep their slot order |
| MinBinaryHeaps.SortDesc | fp-idx/src/main/java/org/openscience/cdk/nfp/MinBinaryHeap.java:130-136 | the comparator sort by descending value yields a permutation that is non-increasing |
| MinBinaryHeaps.SortDescStable | fp-idx/src/main/java/org/openscience/cdk/nfp/MinBinaryHeap.java:130-136 | the sort is stable: for every value, the pairs of that value appear in the output in the order they have in the input, as `Collections.sort` promises |
| MinBinaryHeaps.InsertDescStable | fp-idx/src/main/java/org/openscience/cdk/nfp/MinBinaryHeap.java:130-136 | inserting a pair into a sorted list places it after every pair of equal value |
| MinBinaryHeaps.InsertDescSorted | fp-idx/src/main/java/org/openscience/cdk/nfp/MinBinaryHeap.java:130-136 | inserting one pair into a non-increasing list keeps it non-increasing |
| MinBinaryHeaps.MinBinaryHeap.Keys | fp-idx/src/main/java/org/openscience/cdk/nfp/MinBinaryHeap.java:140-145 | `keys()` is the live keys in slot order 1 .. size-1 |
| FingerprintSorts.Histogram | fp-idx/src/main/java/org/openscience/cdk/nfp/FingerprintSort.java:43-48 | the two counting loops leave `count[c]` = the number of inputs with cardinality below c for every c <= length; they fault exactly when some cardinality is not below `length` |
| FingerprintSorts.TallyStep | fp-idx/src/main/java/org/openscience/cdk/nfp/FingerprintSort.java:45-46 | counting one more input at `cardinality + 1` keeps the per-cardinality tally |
| FingerprintSorts.PrefixStep | fp-idx/src/main/java/org/openscience/cdk/nfp/FingerprintSort.java:47-48 | one pass of the prefix loop extends the running sums by one slot |
| FingerprintSorts.TallyDone | fp-idx/src/main/java/org/openscience/cdk/nfp/FingerprintSort.java:47 | the tally is the start of the prefix sums |
| FingerprintSorts.BelowAll | fp-idx/src/main/java/org/openscience/cdk/nfp/FingerprintSort.java:43-48 | when every cardinality is below `length`, the last prefix sum is the number of inputs |
| FingerprintSorts.Sort | fp-idx/src/main/java/org/openscience/cdk/nfp/FingerprintSort.java:40-52 | `sort` returns `src` itself below two inputs; otherwise input i lands at its slot, ordered by cardinality and then input position, and it faults exactly when some cardinality is not below `length` |
| FingerprintSorts.SortOne | fp-idx/src/main/java/org/openscience/cdk/nfp/FingerprintSort.java:49-50 | one step of the scatter stores input i at its bucket's cursor and advances that cursor |
| FingerprintSorts.CursorStep | fp-idx/src/main/java/org/openscience/cdk/nfp/FingerprintSort.java:50 | the cursor of a bucket is the slot of the next input of that cardinality |
| FingerprintSorts.PlaceStep | fp-idx/src/main/java/org/openscience/cdk/nfp/FingerprintSort.java:50 | storing input i at its slot keeps every earlier placement |
| FingerprintSorts.SlotRange | fp-idx/src/main/java/org/openscience/cdk/nfp/FingerprintSort.java:49-50 | an input's slot lies inside its cardinality's bucket, inside 0 .. n-1 |
| FingerprintSorts.SlotOrder | fp-idx/src/main/java/org/openscience/cdk/nfp/FingerprintSort.java:43-51 | slot i comes before slot j exactly when input i has the smaller cardinality, or the same one and an earlier position: sorted and stable |
| FingerprintSorts.SlotOnto | fp-idx/src/main/java/org/openscience/cdk/nfp/FingerprintSort.java:49-51 | every slot below n receives some input |
| FingerprintSorts.SortPermutation | fp-idx/src/main/java/org/openscience/cdk/nfp/FingerprintSort.java:43-51 | each slot holds exactly one input, so the output is a permutation of `src` |
| FingerprintSorts.MappedBuffer.PutInt | fp-idx/src/main/java/org/openscience/cdk/nfp/FingerprintSort.java:72 | `putInt` writes one int at the cursor and moves past it; with fewer than four bytes left it is the BufferOverflowException and nothing changes |
| FingerprintSorts.MappedBuffer.PutIntView | fp-idx/src/main/java/org/openscience/cdk/nfp/FingerprintSort.java:73 | `asIntBuffer().put(count)` writes the counts after the cursor without moving it; a view too small for them is the BufferOverflowException |
| FingerprintSorts.MappedBuffer.Put | fp-idx/src/main/java/org/openscience/cdk/nfp/FingerprintSort.java:90-93 | `put(buffer, pos, fp)` moves the cursor to pos and writes the fingerprint's bytes there; a position outside the region is the IllegalArgumentException of `position`, and a record that runs past the end is the BufferOverflowException |
| FingerprintSorts.RegionSize | fp-idx/src/main/java/org/openscience/cdk/nfp/FingerprintSort.java:62-64 | the true size of the mapped region, as an unbounded integer: the header and n records of length/8 bytes; the source computes it in `int` (`MappedSize`, its wrap) |
| FingerprintSorts.RecordsDisjoint | fp-idx/src/main/java/org/openscience/cdk/nfp/FingerprintSort.java:74-83 | records of distinct slots do not overlap and each fits inside the region |
| FingerprintSorts.RecordsApart | fp-idx/src/main/java/org/openscience/cdk/nfp/FingerprintSort.java:80-85 | with length >= 8, no two inputs are written at the same offset |
| FingerprintSorts.WrittenStep | fp-idx/src/main/java/org/openscience/cdk/nfp/FingerprintSort.java:82-83 | writing input i at the offset of its slot keeps every earlier record |
| FingerprintSorts.IndexOne | fp-idx/src/main/java/org/openscience/cdk/nfp/FingerprintSort.java:80-85 | one pass of the loop writes input i at its slot's `int` offset, records its position in `ordering` and advances the cursor; it faults exactly when that record does not fit the mapped region |
| FingerprintSorts.Index | fp-idx/src/main/java/org/openscience/cdk/nfp/FingerprintSort.java:54-88 | `index` maps a region of the `int` size 4 + 4(length+1) + (length/8)·n, writes `count.length` then the prefix counts (count[0] = 0, last = n), writes each input at byte 4 + 4(length+1) + (length/8)·slot, and returns `ordering[slot]` = input position. It succeeds exactly when every cardinality is below `length` and the true size is below 2^31. A negative `int` size is `map`'s IllegalArgumentException, and otherwise a cardinality not below `length` is the ArrayIndexOutOfBoundsException |
| FingerprintSorts.Scatter | fp-idx/src/main/java/org/openscience/cdk/nfp/FingerprintSort.java:80-85 | the record loop of `index` either faults or leaves every slot fitting the region and every slot's position in `ordering`; when the region has its true size below 2^31 it never faults and writes every record |
| FingerprintSorts.SlotFitsRegion | fp-idx/src/main/java/org/openscience/cdk/nfp/FingerprintSort.java:62-83 | when the true size is below 2^31, each slot's offset is computed without `int` wrap and its record fits the region |
| FingerprintSorts.StraddleOverruns | fp-idx/src/main/java/org/openscience/cdk/nfp/FingerprintSort.java:62-83 | a record that starts below 2^31 and ends at or past it cannot fit any `int`-sized region |
| FingerprintSorts.WrappedRegionOverruns | fp-idx/src/main/java/org/openscience/cdk/nfp/FingerprintSort.java:62-83 | when the true size is 2^31 or more and the `int` size still covers the header, some slot's record does not fit the region, so `index` cannot succeed |
| SimilarityIndexes.SimilarityIndex.constructor | fp-idx/src/main/java/org/openscience/cdk/nfp/SimilarityIndex.java:64-72 | the index keeps the bucket starts and the payload offset, with `step = (counts.length - 1) / 8` bytes per record and `nEntries = counts[counts.length - 1]` |
| SimilarityIndexes.SimilarityIndex.Size | fp-idx/src/main/java/org/openscience/cdk/nfp/SimilarityIndex.java:235-237 | `size()` is `counts[counts.length - 1]`, the number of records, the payload holding 16 words each |
| SimilarityIndexes.SimilarityIndex.Checked | fp-idx/src/main/java/org/openscience/cdk/nfp/SimilarityIndex.java:231-233 | `checked()` never exceeds `size()` |
| SimilarityIndexes.VisitedRange | fp-idx/src/main/java/org/openscience/cdk/nfp/SimilarityIndex.java:139 | buckets lo .. hi-1 hold exactly records counts[lo] .. counts[hi]-1: bucket b occupies slots counts[b] up to counts[b+1] |
| SimilarityIndexes.TopOrdering | fp-idx/src/main/java/org/openscience/cdk/nfp/SimilarityIndex.java:103-117 | `top`'s ordering, with an exit test that ends once both sides have run out: q, then alternately the next bucket up below max and the next bucket down above 0, within the counts.length + 2 slots of the array |
| SimilarityIndexes.TopSweepContents | fp-idx/src/main/java/org/openscience/cdk/nfp/SimilarityIndex.java:110-117 | the sweep from (jHi, jLo) visits each of jHi .. max-1 and 1 .. jLo exactly once |
| SimilarityIndexes.TopOrderCovers | fp-idx/src/main/java/org/openscience/cdk/nfp/SimilarityIndex.java:103-117 | starting from 1 <= q < max, top's ordering is a permutation of buckets 1 .. max-1, so bucket 0 is never visited |
| SimilarityIndexes.TopLoopExits | fp-idx/src/main/java/org/openscience/cdk/nfp/SimilarityIndex.java:115-116 | for 1 <= q < max the loop stays within [0, max], where the source's exit test `jLo == 0 && jHi == max` and the corrected one agree |
| SimilarityIndexes.TopLoopDiverges | fp-idx/src/main/java/org/openscience/cdk/nfp/SimilarityIndex.java:110-117 | for q = 0, or q >= max, the source's exit test never holds: jLo stays at -1 or jHi stays above max |
| SimilarityIndexes.TopScoreBounded | fp-idx/src/main/java/org/openscience/cdk/nfp/SimilarityIndex.java:142 | against a non-empty query a record's Tanimoto score lies in [0, 1] and is at most every measure's bound for the two popcounts |
| SimilarityIndexes.BucketBelowBound | fp-idx/src/main/java/org/openscience/cdk/nfp/SimilarityIndex.java:129 | no record of bucket b scores above the bound for (q, b) |
| SimilarityIndexes.OfferOne | fp-idx/src/main/java/org/openscience/cdk/nfp/SimilarityIndex.java:142 | offering one record's (slot, Tanimoto score) keeps the heap a k-best selection of everything offered |
| SimilarityIndexes.OfferRange | fp-idx/src/main/java/org/openscience/cdk/nfp/SimilarityIndex.java:139-143 | the inner loop offers records st .. end-1 and keeps the heap a k-best selection of them and all before |
| SimilarityIndexes.OfferBucket | fp-idx/src/main/java/org/openscience/cdk/nfp/SimilarityIndex.java:139-143 | offering a whole bucket keeps the heap a k-best selection of everything offered so far |
| SimilarityIndexes.VisitBucket | fp-idx/src/main/java/org/openscience/cdk/nfp/SimilarityIndex.java:126-143 | one pass of the outer loop: a bucket skipped because the full heap's least score beats its bound changes nothing a k-best selection needs; otherwise it is offered record by record |
| SimilarityIndexes.VisitBuckets | fp-idx/src/main/java/org/openscience/cdk/nfp/SimilarityIndex.java:123-144 | the outer loop leaves the heap a k-best selection of every record of the buckets in the ordering |
| SimilarityIndexes.VisitedPerm | fp-idx/src/main/java/org/openscience/cdk/nfp/SimilarityIndex.java:123-144 | what the visited buckets hold does not depend on the order they are visited in |
| SimilarityIndexes.TopVisitsAll | fp-idx/src/main/java/org/openscience/cdk/nfp/SimilarityIndex.java:103-144 | top's ordering visits every bucket from 1 to 1023 once, and so every record from slot counts[1] on |
| SimilarityIndexes.TopPrunesEarly | fp-idx/src/main/java/org/openscience/cdk/nfp/SimilarityIndex.java:129 | `k <= heap.size` fires with k - 1 pairs held, because `size` counts the unused slot 0: k = 2 with one pair of score 1 prunes bucket 11 of a query of popcount 10 although a record there scores 10/11 |
| SimilarityIndexes.TopBreakSkipsBucket | fp-idx/src/main/java/org/openscience/cdk/nfp/SimilarityIndex.java:129-130 | the bound is not monotone along top's ordering: for q = 3 the `break` at bucket 1 (bound 1/3) ends the search before bucket 6 (bound 1/2), where a record scores 1/2 |
| SimilarityIndexes.SimilarityIndex.Top | fp-idx/src/main/java/org/openscience/cdk/nfp/SimilarityIndex.java:99-147 | the corrected `top(query, k, measure)`, reading each bucket from the whole mapped payload: it returns the keys of a k-best selection, by Tanimoto score whatever the measure, of every record in buckets 1 .. 1023; a k below 1 faults on the heap's arrays |
| SimilarityIndexes.SimilarityIndex.TopAsWritten | fp-idx/src/main/java/org/openscience/cdk/nfp/SimilarityIndex.java:99-137 | `top` as written with the null cache of the default configuration: for every query of popcount 1 .. 1023 and every k >= 1 the first bucket is neither skipped nor pruned and `cache.get(bin)` throws a NullPointerException; a k below 1 faults on the heap's arrays first |
| SimilarityIndexes.SimilarityIndex.FindAllAsWritten | fp-idx/src/main/java/org/openscience/cdk/nfp/SimilarityIndex.java:158-229 | `findAll` as written: the ordering loop, then the scan over it; either can throw, and an ordering that throws leaves `nChecked` as it was |
| SimilarityIndexes.SimilarityIndex.ScanAsWrittenLoop | fp-idx/src/main/java/org/openscience/cdk/nfp/SimilarityIndex.java:181-226 | the scan resets `nChecked` to 0, adds each visited bucket's size, and adds a 1 to xs for each record the reads score at least the threshold |
| SimilarityIndexes.SimilarityIndex.VisitAsWritten | fp-idx/src/main/java/org/openscience/cdk/nfp/SimilarityIndex.java:184-225 | one pass of the scan: a bucket outside [0, counts.length) is skipped, the last bucket throws on `counts[bin + 1]`, any other adds its size to `nChecked` and its hits to xs |
| FindAlls.RecordScoreTallies | fp-idx/src/main/java/org/openscience/cdk/nfp/SimilarityIndex.java:211-220 | the score of a record is the measure applied to `onlyA = q - both`, `onlyB = b - both`, `both` and `neither = length - (both + onlyA + onlyB)` |
| FindAlls.BelowBoundNoHit | fp-idx/src/main/java/org/openscience/cdk/nfp/SimilarityIndex.java:171-175 | pruning is sound: a record whose bucket's bound is below the threshold is not a hit |
| FindAlls.BelowBoundAway | fp-idx/src/main/java/org/openscience/cdk/nfp/SimilarityIndex.java:170-177 | moving away from q on one side, a bound below the threshold stays below it |
| FindAlls.LongArray | fp-idx/src/main/java/org/openscience/cdk/nfp/SimilarityIndex.java:179 | `toBitset().toLongArray()` is the words up to the last non-zero one; every dropped word is zero |
| FindAlls.LongArrayPopcount | fp-idx/src/main/java/org/openscience/cdk/nfp/SimilarityIndex.java:179 | dropping the trailing zero words keeps every set bit |
| FindAlls.CountBoth | fp-idx/src/main/java/org/openscience/cdk/nfp/SimilarityIndex.java:211-214 | the loop over `queryWords` sums `bitCount(word & getLong())` over the words read from the buffer's position |
| FindAlls.SharedBitsPopcount | fp-idx/src/main/java/org/openscience/cdk/nfp/SimilarityIndex.java:212-213 | that sum is the popcount of the word-wise AND of the query words and the words read |
| FindAlls.OrderingAsWritten | fp-idx/src/main/java/org/openscience/cdk/nfp/SimilarityIndex.java:164-177 | findAll's ordering loop, with its two breaks, stores exactly the ordering the specification function gives, or throws on running past the counts.length + 2 slots |
| FindAlls.SweepCases | fp-idx/src/main/java/org/openscience/cdk/nfp/SimilarityIndex.java:170-177 | one pass of the loop: break before jHi, store jHi and break, store jHi and jLo, or throw on the store past the array |
| FindAlls.OrderShape | fp-idx/src/main/java/org/openscience/cdk/nfp/SimilarityIndex.java:164-177 | the ordering is the outward order q, q+1, q-1, q+2, ...; each bucket after q is stored only after a test `bound(q, jHi) >= threshold`, so the low bucket q - d depends on the bound of q + d + 1, and the ordering ends at the first failing test |
| FindAlls.OrderIsOverflow | fp-idx/src/main/java/org/openscience/cdk/nfp/SimilarityIndex.java:173-176 | the only way the ordering throws is by storing past its array |
| FindAlls.OrderOverflows | fp-idx/src/main/java/org/openscience/cdk/nfp/SimilarityIndex.java:170-177 | with a threshold no bound falls below (<= 0 for Tanimoto, <= 1 for the constant bounds) the loop never breaks and throws ArrayIndexOutOfBoundsException |
| FindAlls.OrderSkipsLowBucket | fp-idx/src/main/java/org/openscience/cdk/nfp/SimilarityIndex.java:174-176 | a query of popcount 10 at threshold 0.85 (Tanimoto) visits buckets 10 and 11 only, although bound(10, 9) = 0.9 and a record of bucket 9 can score 0.9 |
| FindAlls.Ones | fp-idx/src/main/java/org/openscience/cdk/nfp/SimilarityIndex.java:223 | `xs.add(1)` n times gives n ones |
| FindAlls.ScanBucketAsWritten | fp-idx/src/main/java/org/openscience/cdk/nfp/SimilarityIndex.java:208-225 | the `while (binSize-- > 0)` loop appends a 1 for each of the bucket's reads that scores at least the threshold, each read taking `queryWords.length` words |
| FindAlls.BucketHitsStep | fp-idx/src/main/java/org/openscience/cdk/nfp/SimilarityIndex.java:209-224 | one pass of that loop counts one hit when the measure of the tallies meets the threshold, then moves `queryWords.length` words on |
| FindAlls.ScanStep | fp-idx/src/main/java/org/openscience/cdk/nfp/SimilarityIndex.java:184-191 | the scan over one more in-range bucket adds its size to `nChecked` and its hits to the result |
| FindAlls.ScanFailureSticks | fp-idx/src/main/java/org/openscience/cdk/nfp/SimilarityIndex.java:187-190 | once the scan has thrown, the rest of the ordering changes nothing |
| FindAlls.ScanInterval | fp-idx/src/main/java/org/openscience/cdk/nfp/SimilarityIndex.java:181-191 | along the outward order the scan does not throw only while it stays below bucket 1024, and `nChecked` then counts exactly the records of the contiguous interval of buckets visited |
| FindAlls.ScanCheckedBound | fp-idx/src/main/java/org/openscience/cdk/nfp/SimilarityIndex.java:191 | along the outward order `nChecked` never exceeds the number of records |
| FindAlls.OrderCheckedBound | fp-idx/src/main/java/org/openscience/cdk/nfp/SimilarityIndex.java:181-191 | over any prefix of the ordering as written, `nChecked` stays within 0 .. size() |
| FindAlls.FindAllFailsNearFull | fp-idx/src/main/java/org/openscience/cdk/nfp/SimilarityIndex.java:187-190 | a Tanimoto query with bound(q, 1024) >= threshold makes findAll throw whatever the index holds: the ordering reaches bucket 1024 and reading counts[1025] fails |
| FindAlls.MisalignedReadMissesHit | fp-idx/src/main/java/org/openscience/cdk/nfp/SimilarityIndex.java:179-213 | with a query whose trailing words are zero the reads drift off the record boundaries: two records of bucket 1, the second equal to the query, give no hit at all |
| FindAlls.ReachHiStops | fp-idx/src/main/java/org/openscience/cdk/nfp/SimilarityIndex.java:171-173 | the upward sweep stops at the first bucket whose bound is below the threshold, every bucket before it meeting the threshold |
| FindAlls.ReachLoStops | fp-idx/src/main/java/org/openscience/cdk/nfp/SimilarityIndex.java:174-176 | the downward sweep stops at the first bucket below q whose own bound is below the threshold |
| FindAlls.BucketOf | fp-idx/src/main/java/org/openscience/cdk/nfp/SimilarityIndex.java:139 | every record s lies in exactly the bucket b with counts[b] <= s < counts[b + 1], and has popcount b |
| FindAlls.NoHitOutside | fp-idx/src/main/java/org/openscience/cdk/nfp/SimilarityIndex.java:170-177 | no record outside the buckets strictly between the two stopping buckets is a hit |
| FindAlls.ScanBucket | fp-idx/src/main/java/org/openscience/cdk/nfp/SimilarityIndex.java:207-225 | one bucket of the corrected scan reads each record from its own 16 words and returns exactly the slots of the records that score at least the threshold |
| FindAlls.SweepUp | fp-idx/src/main/java/org/openscience/cdk/nfp/SimilarityIndex.java:168-173 | the upward half: buckets q, q+1, ... while their bound meets the threshold, stopping at 1024; it finds exactly the hits among their records |
| FindAlls.SweepDown | fp-idx/src/main/java/org/openscience/cdk/nfp/SimilarityIndex.java:169-176 | the downward half: buckets q-1, q-2, ... while their own bound meets the threshold, stopping below 0; it finds exactly the hits among their records |
| FindAlls.OnesAppend | fp-idx/src/main/java/org/openscience/cdk/nfp/SimilarityIndex.java:223 | adding a ones and then b ones adds a + b ones |
| SimilarityIndexes.SimilarityIndex.FindAll | fp-idx/src/main/java/org/openscience/cdk/nfp/SimilarityIndex.java:158-229 | `findAll` as evidently intended returns the slots of exactly the records scoring at least the threshold, and `nChecked` counts the records of the buckets visited |
| FrequencyFingerprints.CountOf | fp-idx/src/main/java/org/openscience/cdk/nfp/FrequencyFingerprint.java:67-70 | with every stored counter at least 1, a key's count is positive exactly when the key is stored, and 0 when it is absent |
| FrequencyFingerprints.PutSpec | fp-idx/src/main/java/org/openscience/cdk/nfp/FrequencyFingerprint.java:47 | `TreeMap.put(k, v)` keeps the entries in key order with positive counters, holds v under k and changes no other key |
| FrequencyFingerprints.DeleteSpec | fp-idx/src/main/java/org/openscience/cdk/nfp/FrequencyFingerprint.java:55-60 | `TreeMap.remove(k)` keeps the entries in key order, holds nothing under k and changes no other key |
| FrequencyFingerprints.FrequencyFingerprint.constructor | fp-idx/src/main/java/org/openscience/cdk/nfp/FrequencyFingerprint.java:37-39 | a new fingerprint holds no entries |
| FrequencyFingerprints.FrequencyFingerprint.Add | fp-idx/src/main/java/org/openscience/cdk/nfp/FrequencyFingerprint.java:41-50 | `add(x)` raises the count of x by exactly 1, a new key starting at 1, returns x and leaves every other key as it was; the count is unbounded, where the source's `int` counter wraps |
| FrequencyFingerprints.FrequencyFingerprint.Remove | fp-idx/src/main/java/org/openscience/cdk/nfp/FrequencyFingerprint.java:52-57 | `remove(x)` does nothing when x is absent and otherwise lowers its count by 1, a count of 1 taking the key out; other keys are unchanged |
| FrequencyFingerprints.FrequencyFingerprint.Clear | fp-idx/src/main/java/org/openscience/cdk/nfp/FrequencyFingerprint.java:59-61 | `clear(x)` removes x whatever its count and leaves every other key as it was |
| FrequencyFingerprints.FrequencyFingerprint.Get | fp-idx/src/main/java/org/openscience/cdk/nfp/FrequencyFingerprint.java:63-65 | `get(x)` holds exactly when x occurs at least once |
| FrequencyFingerprints.FrequencyFingerprint.Freq | fp-idx/src/main/java/org/openscience/cdk/nfp/FrequencyFingerprint.java:67-70 | `freq(x)` is never negative and is 0 exactly when `get(x)` is false |
| FrequencyFingerprints.FrequencyFingerprint.Similarity | fp-idx/src/main/java/org/openscience/cdk/nfp/FrequencyFingerprint.java:72-118 | `similarity(that, m)` is the measure applied to a = the counts this holds beyond that's, b = the counts that holds beyond this's, both = the shared tally, and neither = 0, over unbounded tallies where the source's `int` sums wrap |
| FrequencyFingerprints.Tally | fp-idx/src/main/java/org/openscience/cdk/nfp/FrequencyFingerprint.java:78-113 | the three loops of `similarity` over the two sorted entry lists compute exactly the per-key tallies a, b and both, as unbounded sums where the source's `int` sums wrap |
| FrequencyFingerprints.Merge | fp-idx/src/main/java/org/openscience/cdk/nfp/FrequencyFingerprint.java:81-106 | the first loop walks both lists while neither is exhausted and keeps the tallies of the keys passed |
| FrequencyFingerprints.TallyStep | fp-idx/src/main/java/org/openscience/cdk/nfp/FrequencyFingerprint.java:87-105 | one step of the merge: a key only this has adds its count to a, a key only that has adds its count to b, a shared key splits between the two and both |
| FrequencyFingerprints.TallyThis | fp-idx/src/main/java/org/openscience/cdk/nfp/FrequencyFingerprint.java:87-89 | a key only this fingerprint has adds its whole count to a |
| FrequencyFingerprints.TallyThat | fp-idx/src/main/java/org/openscience/cdk/nfp/FrequencyFingerprint.java:90-92 | a key only that fingerprint has adds its whole count to b |
| FrequencyFingerprints.TallyBoth | fp-idx/src/main/java/org/openscience/cdk/nfp/FrequencyFingerprint.java:93-105 | a shared key adds its excess to the side holding more and the smaller count to both, or 1 to both when the counts are equal |
| FrequencyFingerprints.TakeShared | fp-idx/src/main/java/org/openscience/cdk/nfp/FrequencyFingerprint.java:96-104 | equal counts add 1 to both; unequal ones add the difference to the larger side and the smaller count to both |
| FrequencyFingerprints.DrainThis | fp-idx/src/main/java/org/openscience/cdk/nfp/FrequencyFingerprint.java:108-110 | the second loop adds the counts of the keys left in this to a |
| FrequencyFingerprints.DrainThat | fp-idx/src/main/java/org/openscience/cdk/nfp/FrequencyFingerprint.java:111-113 | the third loop adds the counts of the keys left in that to b |
| FrequencyFingerprints.EqualCountsUndercount | fp-idx/src/main/java/org/openscience/cdk/nfp/FrequencyFingerprint.java:96-97 | a key held twice by both fingerprints adds 1 to both: {7: 2} against itself tallies a = b = 0 and both = 1, so a + both falls short of the total count 2 |
| FrequencyFingerprints.IntendedTalliesAddUp | fp-idx/src/main/java/org/openscience/cdk/nfp/FrequencyFingerprint.java:98-104 | had equal counts added the count, as unequal ones add the smaller, a + both would be this fingerprint's total count |
| FrequencyFingerprints.SetsTallyAsIntended | fp-idx/src/main/java/org/openscience/cdk/nfp/FrequencyFingerprint.java:93-105 | when every counter is 1 the tally as written is the per-key minimum, and a + both is the number of keys |
| FpsToIdxs.FirstNewline | fp-idx/src/main/java/org/openscience/cdk/nfp/FpsToIdx.java:84-86 | the first newline byte from a position, or the end of the bytes when there is none |
| FpsToIdxs.LineFrom | fp-idx/src/main/java/org/openscience/cdk/nfp/FpsToIdx.java:83-89 | the rest of a line holds no newline, and the cursor after it lies within the bytes |
| FpsToIdxs.ReadToEnd | fp-idx/src/main/java/org/openscience/cdk/nfp/FpsToIdx.java:83-89 | `readToEnd` appends the chars of the bytes up to the next newline, which it consumes without appending, or up to the end of the buffer |
| FpsToIdxs.ParseFrom | fp-idx/src/main/java/org/openscience/cdk/nfp/FpsToIdx.java:50-60 | the records of a file: as many fingerprints as ids, each of 16 words, no id holding a line break; a short file is a BufferUnderflowException and a bad digit the decoder's fault |
| FpsToIdxs.ParseStep | fp-idx/src/main/java/org/openscience/cdk/nfp/FpsToIdx.java:54-59 | reading one record (16 * (len / 64) hex chars, one byte skipped whatever it is, the id to the end of the line) and then the rest is reading from where that record began |
| FpsToIdxs.ReadRecord | fp-idx/src/main/java/org/openscience/cdk/nfp/FpsToIdx.java:52-59 | one pass of the read loop reads the next record and moves the cursor past it, or reports the fault of the file from there |
| FpsToIdxs.ReadRecords | fp-idx/src/main/java/org/openscience/cdk/nfp/FpsToIdx.java:50-60 | the read loop gives exactly the records of the file, the i-th fingerprint with the i-th id; each fingerprint is a copy, so refilling the shared `words` array changes no earlier record |
| FpsToIdxs.IndexPath | fp-idx/src/main/java/org/openscience/cdk/nfp/FpsToIdx.java:26-33 | no path without arguments; with one argument the index path is the input path + ".idx", with two it is the second |
| FpsToIdxs.IdPath | fp-idx/src/main/java/org/openscience/cdk/nfp/FpsToIdx.java:70 | the id file is the index path + ".id" |
| FpsToIdxs.WriteIdFile | fp-idx/src/main/java/org/openscience/cdk/nfp/FpsToIdx.java:71-76 | line i of the id file is i, a tab, the id of the record the index placed at slot i, and a line break |
| FpsToIdxs.IdLineRoundTrip | fp-idx/src/main/java/org/openscience/cdk/nfp/FpsToIdx.java:72-75 | a line of the id file splits back at its first tab into the slot number and the id, whatever the id holds |
| FpsToIdxs.Convert | fp-idx/src/main/java/org/openscience/cdk/nfp/FpsToIdx.java:50-77 | `main` after the argument check succeeds exactly when the file parses, every popcount is below the length and the index region's true size is below 2^31. A file that does not parse is that fault; a negative `int` region size is `map`'s IllegalArgumentException, and otherwise a full fingerprint is the histogram's ArrayIndexOutOfBoundsException. On success the index buffer holds the count header (the length plus one, then the number of records below each popcount) and each fingerprint at the offset of its slot, as `FingerprintSort.index` writes it, and line s of the id file names the id of the record at slot s |
| SmartsParsers.CharBuffer.Get | polished-smarts/src/main/java/SmartsAtomExprParser.java:57 | `buffer.get()` returns the char at the cursor and advances it; at the end it throws BufferUnderflowException |
| SmartsParsers.CharBuffer.HasRemaining | polished-smarts/src/main/java/SmartsAtomExprParser.java:56 | `hasRemaining()` holds exactly while the cursor is before the end |
| SmartsParsers.PrecedenceOrder | polished-smarts/src/main/java/SmartsAtomExprParser.java:180-182 | precedence is the code point, so '!' < '&' < ',' < ';' < the sentinel `Character.MAX_VALUE`, the smaller binding tighter |
| SmartsParsers.Apply | polished-smarts/src/main/java/SmartsAtomExprParser.java:92-103 | `apply` pops two atoms for '&', ';' and ',' and one for '!', pushing one result and keeping the rest of the stack; too few atoms is the NoSuchElementException of `pop`; any other char leaves the stack as it is |
| SmartsParsers.Shunted | polished-smarts/src/main/java/SmartsAtomExprParser.java:80-84 | `shunt` applies stacked operators while the top one has a strictly lower precedence than op, then stacks op, which the remaining stack does not outrank |
| SmartsParsers.Shunt | polished-smarts/src/main/java/SmartsAtomExprParser.java:80-84 | the loop of `shunt` computes exactly that stack and those atoms, or the first fault |
| SmartsParsers.ShuntKeepsOrder | polished-smarts/src/main/java/SmartsAtomExprParser.java:54-59 | with the sentinel at the bottom of an ordered stack an operator never empties it, so the NullPointerException of peeking an empty stack cannot happen from `parse` |
| SmartsParsers.NonNegIntAt | polished-smarts/src/main/java/SmartsAtomExprParser.java:192-198 | `readNonNegInt` consumes the maximal run of digits after the cursor, a digit being any char `Character.isDigit` accepts: the decimal digits (Unicode Nd) of the Basic Multilingual Plane |
| SmartsParsers.NonNegIntValue | polished-smarts/src/main/java/SmartsAtomExprParser.java:184-198 | `readNonNegInt` gives -1 when no digit follows and otherwise, while the digits are ASCII and spell a number below 2^31, that number; "0" gives 0 |
| SmartsParsers.WrappedToMinusOne | polished-smarts/src/main/java/SmartsAtomExprParser.java:196-197 | "4294967296" accumulates to 0 in `int` arithmetic and, its last digit not being '0', reads as -1 |
| SmartsParsers.ReadNonNegInt | polished-smarts/src/main/java/SmartsAtomExprParser.java:192-198 | the digit loop leaves the value and the cursor the specification function gives |
| SmartsParsers.ArabicIndicDigitParses | polished-smarts/src/main/java/SmartsAtomExprParser.java:201-208 | `isDigit` accepts ARABIC-INDIC DIGIT THREE and `toInt` takes it as its code point minus '0', so `parse` of "#" and U+0663 is atomic number 1587 |
| SmartsParsers.ArabicIndicDigitNoMass | polished-smarts/src/main/java/SmartsAtomExprParser.java:143-161 | U+0663 alone is a digit to `isDigit` but no case of the switch, so `parse` fails with "Unknown atom primitive" |
| SmartsParsers.ArabicIndicDigitInMass | polished-smarts/src/main/java/SmartsAtomExprParser.java:143-208 | in "1" then U+0663 the mass starts at the ASCII '1' and `readNonNegInt` reads U+0663 as a further digit, so `parse` gives mass 10 + 1587 = 1597 |
| SmartsParsers.PrimitiveAt | polished-smarts/src/main/java/SmartsAtomExprParser.java:112-162 | `readPrimitive` fails with "Unknown atom primitive" exactly when the char just read is neither an ASCII digit '0'..'9' (the only mass cases of the switch) nor a primitive's char; otherwise the cursor stays within the input |
| SmartsParsers.ReadPrimitive | polished-smarts/src/main/java/SmartsAtomExprParser.java:112-162 | the switch on the char before the cursor gives the primitive the specification function gives, an ASCII digit being backed up over and read as a mass; any other char, a non-ASCII digit included, is "Unknown atom primitive" |
| SmartsParsers.BareSignCharges | polished-smarts/src/main/java/SmartsAtomExprParser.java:157-158 | a sign with no digits after it uses the -1 of `readNonNegInt`: a bare '+' is charge -1 and a bare '-' is charge +1 |
| SmartsParsers.Parse | polished-smarts/src/main/java/SmartsAtomExprParser.java:45-71 | `parse(str)` runs the shunting-yard loop from a stack holding only the sentinel, then applies what is left and pops the one atom; a primitive is read as `PrimitiveAt` reads it, so a mass starts only at an ASCII digit |
| SmartsParsers.Descent | polished-smarts/src/main/java/SmartsAtomExprParser.java:40-43 | the atom-expression grammar the precedences intend, read by recursive descent: a phrase ends after it starts and within the input |
| SmartsParsers.PhraseRun | polished-smarts/src/main/java/SmartsAtomExprParser.java:56-62 | the loop reads a grammatical phrase of level k onto the atoms as one atom, its operands mirrored, when the stacked operator does not bind tighter than level k |
| SmartsParsers.ReduceBinary | polished-smarts/src/main/java/SmartsAtomExprParser.java:80-82 | a stacked level-k operator over its two operands is applied once what closes the phrase is reached, the top operand on the left |
| SmartsParsers.ReduceNot | polished-smarts/src/main/java/SmartsAtomExprParser.java:100-101 | a stacked '!' over its operand is applied once what closes the phrase is reached |
| SmartsParsers.ParseFollowsGrammar | polished-smarts/src/main/java/SmartsAtomExprParser.java:45-162 | on a grammatical expression `parse` succeeds, and its query atom is the grammar's with the operands of every `and` and `or` swapped, which matches exactly the same atoms; the grammar's terms are the primitives `readPrimitive` accepts, a mass starting only at an ASCII digit |
| SmartsParsers.MirrorSameMeaning | polished-smarts/src/main/java/SmartsAtomExprParser.java:94-99 | swapping the operands of `and` and `or` does not change which atoms a query matches |
| SmartsParsers.TestConjunctionParses | polished-smarts/src/test/java/SmartsAtomExprParserTest.java:7-9 | "O&X1" parses to aliphatic oxygen and one total connection |
| SmartsParsers.TestNegationsParse | polished-smarts/src/test/java/SmartsAtomExprParserTest.java:11-13 | "!C&!N" parses to neither aliphatic carbon nor aliphatic nitrogen |
| SmartsParsers.TestMixedLevelsParse | polished-smarts/src/test/java/SmartsAtomExprParserTest.java:15-17 | "C,c;X3&v4" parses to carbon of either kind, low-precedence and three connections with valence 4 |
| SmartsParsers.TestNegatedCountParses | polished-smarts/src/test/java/SmartsAtomExprParserTest.java:19-21 | "N&!H0&X3" parses to aliphatic nitrogen, not zero hydrogens, three connections |
| SmartsParsers.TestNegatedNumberParses | polished-smarts/src/test/java/SmartsAtomExprParserTest.java:23-25 | "!#6&X4" parses to not atomic number 6, four connections |
| SmartsParsers.TestDisjunctionParses | polished-smarts/src/test/java/SmartsAtomExprParserTest.java:27-29 | "O,S,#7,#15" parses to oxygen, sulphur, atomic number 7 or atomic number 15 |
| Words.XorCancel | readopt-ds/src/main/java/com/blogspot/efficientbits/BondRef.java:158-160 | xor-ing twice with the same value gives the other operand back, which is what `getOtherIdx` relies on |
| GraphRefs.IncidentMembers | readopt-ds/src/main/java/com/blogspot/efficientbits/AtomRef.java:56-63 | atom v's list holds a bond exactly when the bond is one of the molecule's and v is one of its ends |
| GraphRefs.IncidentAscending | readopt-ds/src/main/java/com/blogspot/efficientbits/AtomRef.java:56-63 | each list is in ascending bond index, strictly so when no bond is a loop |
| GraphRefs.IncidentDegree | readopt-ds/src/main/java/com/blogspot/efficientbits/AtomRef.java:56-63 | each list is as long as the atom's degree, the number of bond ends at it |
| GraphRefs.AtomRef.constructor | readopt-ds/src/main/java/com/blogspot/efficientbits/AtomRef.java:34-38 | a ref keeps its index, the atom it wraps and its bond list |
| GraphRefs.NewAtomRefs | readopt-ds/src/main/java/com/blogspot/efficientbits/AtomRef.java:48-55 | the first loop makes one fresh ref per atom, ref i with index i wrapping atom i and an empty bond list, and maps each atom to its ref |
| GraphRefs.Attach | readopt-ds/src/main/java/com/blogspot/efficientbits/AtomRef.java:61-62 | `bonds.add(b)` appends b to one atom's list and changes no other list |
| GraphRefs.LinkBond | readopt-ds/src/main/java/com/blogspot/efficientbits/AtomRef.java:57-62 | one pass of the second loop wraps bond i between the refs of its two atoms and appends it to both their lists |
| GraphRefs.LinkedStep | readopt-ds/src/main/java/com/blogspot/efficientbits/AtomRef.java:61-62 | appending bond i to the lists of its two ends extends the linking from i bonds to i + 1 |
| GraphRefs.LinkBonds | readopt-ds/src/main/java/com/blogspot/efficientbits/AtomRef.java:56-63 | the second loop wraps every bond i with index i, between the refs of its ends, and leaves every list holding exactly its atom's incident bonds in ascending order |
| GraphRefs.GetAtomRefs | readopt-ds/src/main/java/com/blogspot/efficientbits/AtomRef.java:40-66 | `getAtomRefs(mol)` returns a fresh array with `atoms[i].getIndex() = i` wrapping atom i, each list holding exactly the atom's incident bonds |
| GraphRefs.GetBondRefs | readopt-ds/src/main/java/com/blogspot/efficientbits/BondRef.java:37-63 | `getBondRefs(mol)` returns a fresh bond-count array with `bonds[i].getIndex() = i`, each bond between the refs of its two atoms and on both their lists |
| GraphRefs.SnapshotEnds | readopt-ds/src/main/java/com/blogspot/efficientbits/BondRef.java:52-60 | a bond of the snapshot sits between the refs of its own two atoms, whose lists are complete |
| GraphRefs.SnapshotNeighbour | readopt-ds/src/main/java/com/blogspot/efficientbits/AtomRef.java:72-74 | every bond on atom i's list has i at one end, and `getConnectedAtom` and `getOtherIdx` both name the atom at the other end |
| GraphRefs.SnapshotOthers | readopt-ds/src/main/java/com/blogspot/efficientbits/AtomRef.java:72-74 | `getBonds()` of atom i, read as bond indices, is i's incident list |
| GraphRefs.AtomRef.SetPropertyAsWritten | readopt-ds/src/main/java/com/blogspot/efficientbits/AtomRef.java:266-269 | `setProperty(key, value)` as written stores the atom's fractional 3D point under key, not `value` |
| GraphRefs.SetPropertyStoresPoint | readopt-ds/src/main/java/com/blogspot/efficientbits/AtomRef.java:268 | for any value other than the 3D point the as-written `setProperty` stores something else than asked |
| GraphRefs.AtomRef.SetProperty | readopt-ds/src/main/java/com/blogspot/efficientbits/AtomRef.java:266-269 | `setProperty(key, value)` forwarding the value: the atom holds value under key and every other property as before |
| GraphRefs.AtomRef.SetProperties | readopt-ds/src/main/java/com/blogspot/efficientbits/AtomRef.java:376-379 | `setProperties(props)`: the atom's properties become exactly props |
| GraphRefs.AtomRef.AddPropertiesAsWritten | readopt-ds/src/main/java/com/blogspot/efficientbits/AtomRef.java:381-384 | `addProperties(props)` as written calls `setProperties`: the properties become exactly props |
| GraphRefs.AddPropertiesDropsOthers | readopt-ds/src/main/java/com/blogspot/efficientbits/AtomRef.java:383 | when the atom holds a property the argument does not mention, the as-written result (exactly the argument) differs from adding, which keeps that property |
| GraphRefs.AtomRef.AddProperties | readopt-ds/src/main/java/com/blogspot/efficientbits/AtomRef.java:381-384 | `addProperties(props)` as the interface means it: props are added and the other properties kept |
| GraphRefs.AtomRef.Clone | readopt-ds/src/main/java/com/blogspot/efficientbits/AtomRef.java:336-339 | `clone()` always throws CloneNotSupportedException |
| GraphRefs.BondRef.constructor | readopt-ds/src/main/java/com/blogspot/efficientbits/BondRef.java:29-35 | the bond keeps its index and its two refs, and stores the xor of their indices |
| GraphRefs.BondRef.GetAtom | readopt-ds/src/main/java/com/blogspot/efficientbits/BondRef.java:149-156 | `getAtom(0)` is the first ref, `getAtom(1)` the second, any other position null |
| GraphRefs.BondRef.GetOtherIdx | readopt-ds/src/main/java/com/blogspot/efficientbits/BondRef.java:158-160 | `getOtherIdx` of one end's index is the other end's index |
| GraphRefs.BondRef.GetConnectedAtom | readopt-ds/src/main/java/com/blogspot/efficientbits/BondRef.java:162-173 | `getConnectedAtom(x)` is the opposite ref when x is either ref or the atom it wraps, and throws IllegalArgumentException exactly when x is none of these |
| GraphRefs.EndpointViews | readopt-ds/src/main/java/com/blogspot/efficientbits/BondRef.java:149-188 | reading a bond's ends by position, by `getConnectedAtom` and by `getOtherIdx` agree, and `contains` holds for both ends |
| GraphRefs.BondRef.SetAtoms | readopt-ds/src/main/java/com/blogspot/efficientbits/BondRef.java:139-142 | `setAtoms` always throws UnsupportedOperationException |
| GraphRefs.BondRef.SetAtom | readopt-ds/src/main/java/com/blogspot/efficientbits/BondRef.java:190-193 | `setAtom` always throws IllegalArgumentException |
| GraphRefs.BondRef.Clone | readopt-ds/src/main/java/com/blogspot/efficientbits/BondRef.java:290-293 | `clone()` always throws CloneNotSupportedException |
| GraphRefs.IsConnectedToOverflows | readopt-ds/src/main/java/com/blogspot/efficientbits/BondRef.java:250-253 | as written, `isConnectedTo` with a snapshot bond calls the argument's `isConnectedTo` on itself again and again until the stack overflows |
| GraphRefs.IsConnectedToIgnoresReceiver | readopt-ds/src/main/java/com/blogspot/efficientbits/BondRef.java:251-253 | as written, the answer never depends on the bond it is asked of |
| GraphRefs.IsConnectedToSharesEnd | readopt-ds/src/main/java/com/blogspot/efficientbits/BondRef.java:250-253 | the intended `isConnectedTo` holds in a snapshot exactly when the two bonds share an atom, and is symmetric |
| Words.ToInt32 | readopt-ds/src/main/java/com/blogspot/efficientbits/Benchmark.java:276 | Java's `int` `+=` keeps the low 32 bits of the exact sum, as a value in the `int` range |
| Words.WrapInt32 | readopt-ds/src/main/java/com/blogspot/efficientbits/Benchmark.java:276 | a value already in the `int` range wraps to itself |
| Words.WrapAdd | readopt-ds/src/main/java/com/blogspot/efficientbits/Benchmark.java:276 | wrapping after each `+=` gives the same value as wrapping the whole sum once |
| Relaxations.ConnectedBondsBelow | readopt-ds/src/main/java/com/blogspot/efficientbits/Benchmark.java:274 | `getConnectedBondsList(atom)` lists only bonds of the container |
| Relaxations.NeighboursBelow | readopt-ds/src/main/java/com/blogspot/efficientbits/Benchmark.java:326 | every neighbour on `toAdjList`'s lists is an atom of the molecule |
| Relaxations.AdjListInRange | readopt-ds/src/main/java/com/blogspot/efficientbits/Benchmark.java:317 | `toAdjList` gives one list per atom, each entry an atom index |
| Relaxations.VertexAdjInRange | readopt-ds/src/main/java/com/blogspot/efficientbits/Benchmark.java:274-276 | the atoms across each atom's connected bonds form one list per atom, each entry an atom index |
| Relaxations.NeighboursOthers | readopt-ds/src/main/java/com/blogspot/efficientbits/Benchmark.java:351-357 | entry k of an atom's adjacency list is the other end of its k-th incident bond |
| Relaxations.ConnectedIncident | readopt-ds/src/main/java/com/blogspot/efficientbits/Benchmark.java:274 | without self-loops, an atom's connected bonds are exactly its incident bonds in bond order |
| Relaxations.VertexAdjNoLoops | readopt-ds/src/main/java/com/blogspot/efficientbits/Benchmark.java:272-277 | without self-loops, the AtomContainer relaxation reads exactly the adjacency lists |
| Relaxations.LoopCountedOnce | readopt-ds/src/main/java/com/blogspot/efficientbits/Benchmark.java:274-276 | a self-loop is listed once on the container's bond list but twice on the adjacency list |
| Relaxations.NeighboursCount | readopt-ds/src/main/java/com/blogspot/efficientbits/Benchmark.java:326 | w appears on v's adjacency list once per bond end joining v to w |
| Relaxations.AdjacencySymmetric | readopt-ds/src/main/java/com/blogspot/efficientbits/Benchmark.java:302-303 | the number of bond ends joining v to w equals that joining w to v |
| Relaxations.NeighboursSymmetric | readopt-ds/src/main/java/com/blogspot/efficientbits/Benchmark.java:326 | w is listed at v as often as v at w: the adjacency lists are undirected |
| Relaxations.SumPermutation | readopt-ds/src/main/java/com/blogspot/efficientbits/Benchmark.java:326-328 | adding the same neighbours' values in another order gives the same sum |
| Relaxations.Round | readopt-ds/src/main/java/com/blogspot/efficientbits/Benchmark.java:325-329 | one reference round gives each atom its value plus, wrapped to 32 bits, the sum of its neighbours' values |
| Relaxations.RowStep | readopt-ds/src/main/java/com/blogspot/efficientbits/Benchmark.java:325-329 | giving atom v its round's value and changing nothing else extends the finished rows by v |
| Relaxations.RowsRound | readopt-ds/src/main/java/com/blogspot/efficientbits/Benchmark.java:325-329 | when every atom has had its row, `next` is the reference round |
| Relaxations.Iterate | readopt-ds/src/main/java/com/blogspot/efficientbits/Benchmark.java:324-331 | r rounds keep one value per atom |
| Relaxations.IsolatedKeeps | readopt-ds/src/main/java/com/blogspot/efficientbits/Benchmark.java:324-331 | an atom with no bonds keeps its atomic number through every round |
| Relaxations.RoundOrderFree | readopt-ds/src/main/java/com/blogspot/efficientbits/Benchmark.java:324-331 | lists holding the same neighbours in any order give the same round |
| Relaxations.IterateOrderFree | readopt-ds/src/main/java/com/blogspot/efficientbits/Benchmark.java:324-331 | lists holding the same neighbours in any order relax to the same values |
| Relaxations.AccumulateStep | readopt-ds/src/main/java/com/blogspot/efficientbits/Benchmark.java:327 | each `next[idx] += prev[dst]` keeps `next[idx]` the wrapped sum of the start value and the neighbours added so far |
| Relaxations.AccumulateStart | readopt-ds/src/main/java/com/blogspot/efficientbits/Benchmark.java:321-323 | before any neighbour is added, `next[idx]` is the start value |
| Relaxations.NeighboursSum | readopt-ds/src/main/java/com/blogspot/efficientbits/Benchmark.java:297-304 | one more bond adds, at v, the value at its other end once per end it has at v |
| Relaxations.SnapshotAdjacency | readopt-ds/src/main/java/com/blogspot/efficientbits/Benchmark.java:351-357 | in an AtomRef snapshot, entry k of atom i's adjacency list is the atom both `getConnectedAtom` and `getOtherIdx` name for i's k-th bond |
| Relaxations.Relaxed | readopt-ds/src/main/java/com/blogspot/efficientbits/Benchmark.java:271-280 | the atom-count rounds from the atomic numbers keep one value per atom |
| Relaxations.EdgeSumNeighbours | readopt-ds/src/main/java/com/blogspot/efficientbits/Benchmark.java:297-304 | adding bond by bond gives each atom the same sum as its adjacency list |
| Relaxations.EdgesStart | readopt-ds/src/main/java/com/blogspot/efficientbits/Benchmark.java:293-295 | before any bond is added every value is its own |
| Relaxations.EdgeStep | readopt-ds/src/main/java/com/blogspot/efficientbits/Benchmark.java:302-303 | the two `+=` of one bond extend the bond-wise round by that bond |
| Relaxations.EdgeValue | readopt-ds/src/main/java/com/blogspot/efficientbits/Benchmark.java:302-303 | the two wrapped additions at one atom equal one wrapped addition of their total |
| Relaxations.EdgesRound | readopt-ds/src/main/java/com/blogspot/efficientbits/Benchmark.java:297-304 | once every bond is added, the bond-wise values are one reference round over the adjacency lists |
| BenchmarkKernels.MeasureAlgorithm.constructor | readopt-ds/src/main/java/com/blogspot/efficientbits/Benchmark.java:39-47 | a new measurement keeps its description and starts with `tInit`, `tRun` and `check` at 0 |
| BenchmarkKernels.Marked | readopt-ds/src/main/java/com/blogspot/efficientbits/Benchmark.java:150 | the number of atoms marked visited is at most the atom count |
| BenchmarkKernels.MarkOne | readopt-ds/src/main/java/com/blogspot/efficientbits/Benchmark.java:150 | `visit[src] = true` on an unmarked atom raises the marked count by exactly one |
| BenchmarkKernels.MarkedGrows | readopt-ds/src/main/java/com/blogspot/efficientbits/Benchmark.java:148-158 | a search that only sets marks never lowers the marked count |
| BenchmarkKernels.MarkedExtremes | readopt-ds/src/main/java/com/blogspot/efficientbits/Benchmark.java:166-169 | a fresh visit array counts zero marks, a fully marked one counts every atom |
| BenchmarkKernels.ReachedGrows | readopt-ds/src/main/java/com/blogspot/efficientbits/Benchmark.java:148-158 | an atom once marked stays marked for the rest of the search |
| BenchmarkKernels.DfsAdj | readopt-ds/src/main/java/com/blogspot/efficientbits/Benchmark.java:148-158 | the visit-array `dfs` over adjacency lists only sets marks, marks src, marks every neighbour other than prev, and raises `check` by exactly the number of atoms it newly marks |
| BenchmarkKernels.VisitAllAdj | readopt-ds/src/main/java/com/blogspot/efficientbits/Benchmark.java:166-169 | searching from each unmarked atom in turn marks every atom and raises `check` by exactly the atom count |
| BenchmarkKernels.SnapshotNavigable | readopt-ds/src/main/java/com/blogspot/efficientbits/Benchmark.java:237-243 | every bond on every AtomRef's list leads, by `getConnectedAtom`, to a ref of the same snapshot |
| BenchmarkKernels.SnapshotWalksAdjList | readopt-ds/src/main/java/com/blogspot/efficientbits/Benchmark.java:237-240 | bond k on atom i's list leads to entry k of i's adjacency list, so walking the refs is walking the adjacency lists |
| BenchmarkKernels.DfsRef | readopt-ds/src/main/java/com/blogspot/efficientbits/Benchmark.java:234-245 | the AtomRef visit-array `dfs` only sets marks, marks src, reaches the far end of every bond other than prev, and raises `check` by exactly the number of atoms it newly marks |
| BenchmarkKernels.DfsRefStep | readopt-ds/src/main/java/com/blogspot/efficientbits/Benchmark.java:237-243 | one bond of the loop: skipped when it is prev, otherwise its far end is marked afterwards; `check` rises by the atoms newly marked |
| BenchmarkKernels.VisitAllRefs | readopt-ds/src/main/java/com/blogspot/efficientbits/Benchmark.java:252-255 | searching from each unmarked AtomRef in turn marks every atom and raises `check` by exactly the atom count |
| BenchmarkKernels.DfsContainer | readopt-ds/src/main/java/com/blogspot/efficientbits/Benchmark.java:55-65 | the AtomContainer `dfs` only sets marks, marks src, reaches the far end of every connected bond other than prev, and raises `check` by exactly the number of atoms it newly marks |
| BenchmarkKernels.VisitAllContainer | readopt-ds/src/main/java/com/blogspot/efficientbits/Benchmark.java:68-77 | clearing the flags and searching from each unflagged atom marks every atom and raises `check` by exactly the atom count |
| BenchmarkKernels.StartValues | readopt-ds/src/main/java/com/blogspot/efficientbits/Benchmark.java:266-270 | `next` and `prev` are two fresh arrays, both holding the atomic numbers |
| BenchmarkKernels.CopyInto | readopt-ds/src/main/java/com/blogspot/efficientbits/Benchmark.java:279 | after `System.arraycopy` the target holds exactly the source's values |
| BenchmarkKernels.AddChecksum | readopt-ds/src/main/java/com/blogspot/efficientbits/Benchmark.java:283 | `check` grows by the sum of the final `next` values |
| BenchmarkKernels.AddListed | readopt-ds/src/main/java/com/blogspot/efficientbits/Benchmark.java:326-328 | the inner loop over `g[idx]` completes atom idx's row of the round and leaves every other atom as it was |
| BenchmarkKernels.AddConnected | readopt-ds/src/main/java/com/blogspot/efficientbits/Benchmark.java:273-277 | the bond loop of the AtomContainer relaxation completes atom j's row of the round |
| BenchmarkKernels.AddAcross | readopt-ds/src/main/java/com/blogspot/efficientbits/Benchmark.java:274-277 | atom j ends with its start value plus the 32-bit wrapped sum of the values across its connected bonds, no other atom changes |
| BenchmarkKernels.SnapshotLeads | readopt-ds/src/main/java/com/blogspot/efficientbits/Benchmark.java:351-357 | in an AtomRef snapshot, bond k on ref i's list is valid and leads to entry k of i's adjacency list |
| BenchmarkKernels.Across | readopt-ds/src/main/java/com/blogspot/efficientbits/Benchmark.java:356 | `getConnectedAtom(aref).getIndex()`, and with xor set `getOtherIdx(idx)`, give the index of the atom across the bond |
| BenchmarkKernels.AddRefs | readopt-ds/src/main/java/com/blogspot/efficientbits/Benchmark.java:351-357 | the bond loop of one AtomRef completes that atom's row of the round |
| BenchmarkKernels.AddBonds | readopt-ds/src/main/java/com/blogspot/efficientbits/Benchmark.java:354-357 | atom idx ends with its start value plus the 32-bit wrapped sum of the values across its bonds, no other atom changes |
| BenchmarkKernels.RoundListed | readopt-ds/src/main/java/com/blogspot/efficientbits/Benchmark.java:325-329 | one round over the adjacency lists leaves `next` equal to the reference round of `prev` |
| BenchmarkKernels.RoundConnected | readopt-ds/src/main/java/com/blogspot/efficientbits/Benchmark.java:272-278 | one round over the connected-bond lists leaves `next` equal to the reference round over the container's bond lists |
| BenchmarkKernels.RoundRefs | readopt-ds/src/main/java/com/blogspot/efficientbits/Benchmark.java:351-358 | one round over the AtomRef snapshot leaves `next` equal to the reference round over the adjacency lists |
| BenchmarkKernels.AddEdge | readopt-ds/src/main/java/com/blogspot/efficientbits/Benchmark.java:302-303 | one bond adds each end's previous value to the other end, extending the edge-wise round by one bond |
| BenchmarkKernels.RoundEdges | readopt-ds/src/main/java/com/blogspot/efficientbits/Benchmark.java:297-304 | the bond-wise round of the Improved relaxation equals the reference vertex-wise round over the adjacency lists |
| BenchmarkKernels.RoundBondRefs | readopt-ds/src/main/java/com/blogspot/efficientbits/Benchmark.java:409-414 | the BondRef round, reading ends with `getAtom(0)` and `getAtom(1)`, equals the reference round over the adjacency lists |
| BenchmarkKernels.Graph | readopt-ds/src/main/java/com/blogspot/efficientbits/Benchmark.java:261-450 | the lists a relaxation reads have one entry per atom |
| BenchmarkKernels.RelaxContainerKinds | readopt-ds/src/main/java/com/blogspot/efficientbits/Benchmark.java:264-284 | the two AtomContainer relaxations return the atomic numbers relaxed atom-count times over their lists |
| BenchmarkKernels.RelaxListed | readopt-ds/src/main/java/com/blogspot/efficientbits/Benchmark.java:315-336 | the GraphUtil relaxations return the atomic numbers relaxed atom-count times over `toAdjList`'s lists |
| BenchmarkKernels.RelaxRefs | readopt-ds/src/main/java/com/blogspot/efficientbits/Benchmark.java:341-365 | the AtomRef relaxations, with or without xor, return the atomic numbers relaxed atom-count times over the adjacency lists |
| BenchmarkKernels.RelaxBondRefs | readopt-ds/src/main/java/com/blogspot/efficientbits/Benchmark.java:399-421 | the BondRef relaxation returns the atomic numbers relaxed atom-count times over the adjacency lists |
| BenchmarkKernels.Search | readopt-ds/src/main/java/com/blogspot/efficientbits/Benchmark.java:53-259 | every depth-first kind raises `check` by exactly the molecule's atom count |
| BenchmarkKernels.Relax | readopt-ds/src/main/java/com/blogspot/efficientbits/Benchmark.java:261-450 | every relaxation kind raises `check` by the sum of its relaxed values |
| BenchmarkKernels.Process | readopt-ds/src/main/java/com/blogspot/efficientbits/Benchmark.java:52-450 | `process(mol)` raises `check` by the kind's expected value, adds the setup time to `tInit` and the run time to `tRun`, the AtomContainer kinds timing only the run |
| BenchmarkKernels.RelaxationsAgree | readopt-ds/src/main/java/com/blogspot/efficientbits/Benchmark.java:261-450 | without self-loops, all seven relaxation kinds add the same checksum |
| BenchmarkKernels.RelaxationsDiffer | readopt-ds/src/main/java/com/blogspot/efficientbits/Benchmark.java:272-304 | with one carbon and a self-loop, the AtomContainer relaxation adds 12 while the adjacency-list one adds 18 |
| Benchmarks.TableComplete | readopt-ds/src/main/java/com/blogspot/efficientbits/Benchmark.java:52-451 | the table lists each of the fourteen measurement kinds exactly once, each with a non-empty description |
| Benchmarks.NewAlgorithms | readopt-ds/src/main/java/com/blogspot/efficientbits/Benchmark.java:52-451 | the static table is a fresh array of distinct algorithms, entry j of kind j with zeroed timers and checksum |
| Benchmarks.FilterKeeps | readopt-ds/src/main/java/com/blogspot/efficientbits/Benchmark.java:466-471 | an algorithm survives the filter exactly when it was in the table and its description matches |
| Benchmarks.FilterOrdered | readopt-ds/src/main/java/com/blogspot/efficientbits/Benchmark.java:466-471 | the filter keeps at most the table's length and never duplicates an algorithm |
| Benchmarks.FilterAll | readopt-ds/src/main/java/com/blogspot/efficientbits/Benchmark.java:466-471 | when every description matches, the filter keeps the whole table |
| Benchmarks.DefaultKeepsAll | readopt-ds/src/main/java/com/blogspot/efficientbits/Benchmark.java:35 | the default pattern `.+` keeps every algorithm of the table |
| Benchmarks.Compact | readopt-ds/src/main/java/com/blogspot/efficientbits/Benchmark.java:463-471 | compacting in place leaves the matching algorithms, in table order, in the first num slots, num being the number matched |
| Benchmarks.Select | readopt-ds/src/main/java/com/blogspot/efficientbits/Benchmark.java:463-472 | after `Arrays.copyOf(algs, num)` the table is exactly the matching algorithms in their original order |
| Benchmarks.LeastStep | readopt-ds/src/main/java/com/blogspot/efficientbits/Benchmark.java:529-532 | each `if (x < best) best = x` keeps best the least of the values seen, starting from `Long.MAX_VALUE` |
| Benchmarks.Runs | readopt-ds/src/main/java/com/blogspot/efficientbits/Benchmark.java:529-530 | the run times read off the rows, one per algorithm |
| Benchmarks.Elapsed | readopt-ds/src/main/java/com/blogspot/efficientbits/Benchmark.java:531-532 | the total times read off the rows, one per algorithm |
| Benchmarks.RowsOf | readopt-ds/src/main/java/com/blogspot/efficientbits/Benchmark.java:535-544 | one printed row per algorithm, in table order |
| Benchmarks.Fastest | readopt-ds/src/main/java/com/blogspot/efficientbits/Benchmark.java:526-533 | the first loop of `report` finds the least `tRun` and the least `tInit + tRun` over all algorithms |
| Benchmarks.PrintAndReset | readopt-ds/src/main/java/com/blogspot/efficientbits/Benchmark.java:534-547 | the second loop prints each algorithm's row as it stood, then zeroes its `tInit` and `tRun` and leaves `check` alone |
| Benchmarks.Report | readopt-ds/src/main/java/com/blogspot/efficientbits/Benchmark.java:525-548 | `report` prints the range `linenum - count` to `linenum` with the fastest times and a row per algorithm, then resets every timer and keeps every checksum |
| Benchmarks.Batches | readopt-ds/src/main/java/com/blogspot/efficientbits/Benchmark.java:494-505 | the running count never exceeds the lines read and no report has seen more lines than were read |
| Benchmarks.Schedule | readopt-ds/src/main/java/com/blogspot/efficientbits/Benchmark.java:498-516 | a run over n lines makes at least one report, the last one after the loop, and none has seen more than n lines |
| Benchmarks.BatchesContiguous | readopt-ds/src/main/java/com/blogspot/efficientbits/Benchmark.java:499-505 | the reports name consecutive ranges from line 0, each step lines long; `count` restarts at 0 at each while `linenum` runs on, and ends below step |
| Benchmarks.FixedSeesItsLines | readopt-ds/src/main/java/com/blogspot/efficientbits/Benchmark.java:498-514 | with each line processed before the batch check, every report has measured exactly the lines it names |
| Benchmarks.AsWrittenMissesALine | readopt-ds/src/main/java/com/blogspot/efficientbits/Benchmark.java:499-509 | as written, each report inside the loop is taken before its last line is processed, so it has measured one line fewer than it names |
| Benchmarks.BatchesSeen | readopt-ds/src/main/java/com/blogspot/efficientbits/Benchmark.java:498-516 | each report's seen-line count is the one its loop order gives, for the as-written and the fixed loop alike |
| Benchmarks.StepOneExample | readopt-ds/src/main/java/com/blogspot/efficientbits/Benchmark.java:499-516 | with one line and step 1, the as-written report for line 0-1 has measured nothing, and the final report for line 1-1 holds that line |
| Benchmarks.Kinds | readopt-ds/src/main/java/com/blogspot/efficientbits/Benchmark.java:508-510 | the kinds of the table's algorithms, in order |
| Benchmarks.Checks | readopt-ds/src/main/java/com/blogspot/efficientbits/Benchmark.java:544 | the checksums of the table's algorithms, in order |
| Benchmarks.AgreesAppend | readopt-ds/src/main/java/com/blogspot/efficientbits/Benchmark.java:503 | a report that covers the lines seen so far extends a schedule of reports that agree with the run |
| Benchmarks.ProcessAll | readopt-ds/src/main/java/com/blogspot/efficientbits/Benchmark.java:508-510 | processing one molecule raises each algorithm's checksum by its kind's expected value and its timers by its own clock readings |
| Benchmarks.ProcessLine | readopt-ds/src/main/java/com/blogspot/efficientbits/Benchmark.java:506-513 | a line that parses advances every checksum by that molecule's value, a line that does not leaves them as they were |
| Benchmarks.ReportAt | readopt-ds/src/main/java/com/blogspot/efficientbits/Benchmark.java:503 | a report taken after m.seen lines prints the checksums of exactly those lines |
| Benchmarks.LineAsWritten | readopt-ds/src/main/java/com/blogspot/efficientbits/Benchmark.java:498-514 | one pass as written counts the line, reports when `count == step` and resets it, then processes the line |
| Benchmarks.LineFixed | readopt-ds/src/main/java/com/blogspot/efficientbits/Benchmark.java:498-514 | the same pass with the line processed before the batch check |
| Benchmarks.MainLoop | readopt-ds/src/main/java/com/blogspot/efficientbits/Benchmark.java:494-516 | as written, the loop over a file makes the reports of the as-written schedule, each printing the checksums of the lines it has seen |
| Benchmarks.MainLoopFixed | readopt-ds/src/main/java/com/blogspot/efficientbits/Benchmark.java:494-516 | processing first, the loop makes the reports of the fixed schedule, each printing the checksums of exactly the lines it names |
| Cdk2Fps.OutStream.constructor | cdk2fps-jni/cdk2fps.cpp:104 | an output stream starts with nothing written |
| Cdk2Fps.OutStream.Putc | cdk2fps-jni/cdk2fps.cpp:23-24 | `fputc` appends exactly one character |
| Cdk2Fps.OutStream.Puts | cdk2fps-jni/cdk2fps.cpp:40 | `fputs` appends exactly the string |
| Cdk2Fps.InStream.constructor | cdk2fps-jni/cdk2fps.cpp:104 | an input stream starts with the whole file to read |
| Cdk2Fps.InStream.Getc | cdk2fps-jni/cdk2fps.cpp:85 | `getc_unlocked` returns EOF at the end and changes nothing, otherwise it returns the next character and consumes it |
| Cdk2Fps.InStream.Ungetc | cdk2fps-jni/cdk2fps.cpp:93 | `ungetc` puts the character back so that it is read next |
| Cdk2Fps.CStr | cdk2fps-jni/cdk2fps.cpp:112-113 | `line.c_str()` seen as a C string is the prefix of the line before its first NUL |
| Cdk2Fps.WriteHex | cdk2fps-jni/cdk2fps.cpp:21-25 | `WriteHex` appends two lowercase hex digits, high nibble first, which read back as the byte |
| Cdk2Fps.FirstSep | cdk2fps-jni/cdk2fps.cpp:33-38 | the title scan stops at the first tab or space, or at the end of the string, with no separator before it |
| Cdk2Fps.TitleStart | cdk2fps-jni/cdk2fps.cpp:33-38 | the scan's stopping point is the only index with no separator before it and a separator or the end at it |
| Cdk2Fps.TitleParts | cdk2fps-jni/cdk2fps.cpp:39-44 | the title begins with a separator; it is the rest of the SMILES from the first separator, or a space followed by the whole SMILES when there is none |
| Cdk2Fps.WriteFps | cdk2fps-jni/cdk2fps.cpp:28-46 | `WriteFps` appends the hex of every fingerprint byte, the title and a newline |
| Cdk2Fps.WriteTitle | cdk2fps-jni/cdk2fps.cpp:33-44 | the title part of `WriteFps` appends exactly the title |
| Cdk2Fps.BytesHexSnoc | cdk2fps-jni/cdk2fps.cpp:31-32 | each pass of the hex loop extends the written hex by the next byte's two digits |
| Cdk2Fps.PairOfHex | cdk2fps-jni/cdk2fps.cpp:31-32 | the j-th pair of hex digits written reads back as byte j |
| Cdk2Fps.HexPrefixDecodes | cdk2fps-jni/cdk2fps.cpp:31-32 | text that starts with the hex of the bytes decodes pair by pair to those bytes |
| Cdk2Fps.FpsLineDecodes | cdk2fps-jni/cdk2fps.cpp:28-46 | the first 2n characters of a written record decode, in the FPS reader, to the n fingerprint bytes |
| Cdk2Fps.FpTypeNamed | cdk2fps-jni/cdk2fps.cpp:49-64 | `GetFpType` names exactly the eleven listed flavours, each with a "cdk/" type, and gives "???" for every other flavour |
| Cdk2Fps.FpTypeDistinct | cdk2fps-jni/cdk2fps.cpp:50-61 | no two listed flavours share a type string |
| Cdk2Fps.WriteFpsHeader | cdk2fps-jni/cdk2fps.cpp:67-77 | `WriteFpsHeader` appends the magic line, `#num_bits=` with the length printed as a signed int, `#type=` and the software line |
| Cdk2Fps.HeaderReadsBack | cdk2fps-jni/cdk2fps.cpp:67-77 | the header reads back as exactly its four lines, and a length below 2^31 reads back from `#num_bits=` as itself |
| Cdk2Fps.NextLine | cdk2fps-jni/cdk2fps.cpp:80-101 | a line read consumes at least one character; a failed read consumes everything |
| Cdk2Fps.NextLineNoBreak | cdk2fps-jni/cdk2fps.cpp:86-99 | the buffer `ReadLine` fills never holds a CR or an LF |
| Cdk2Fps.NextLineSplits | cdk2fps-jni/cdk2fps.cpp:84-96 | a successful read took the line, then one LF, CR or CR LF, and left the rest |
| Cdk2Fps.NextLineFails | cdk2fps-jni/cdk2fps.cpp:88-98 | `ReadLine` fails only at the end of input: the input had no line break, or only a final CR |
| Cdk2Fps.NextLineExtends | cdk2fps-jni/cdk2fps.cpp:84-100 | a line broken off inside the input is broken off the same way whatever follows |
| Cdk2Fps.ReadLine | cdk2fps-jni/cdk2fps.cpp:80-101 | `ReadLine` returns the result, the buffer and the remaining input its reference `NextLine` gives |
| Cdk2Fps.LinesStep | cdk2fps-jni/cdk2fps.cpp:111 | each successful `ReadLine` of the file loop yields the next line, then the lines of what is left |
| Cdk2Fps.NewlineEndsLine | cdk2fps-jni/cdk2fps.cpp:86-87 | text ending in LF holds a whole line, and what follows it is again empty or ends in LF |
| Cdk2Fps.NoBreakFails | cdk2fps-jni/cdk2fps.cpp:97-98 | text with no line break is never returned as a line |
| Cdk2Fps.UnterminatedLineDropped | cdk2fps-jni/cdk2fps.cpp:97-98 | the last line of a file that lacks a final newline is never read, so it is never encoded |
| Cdk2Fps.LinesAppend | cdk2fps-jni/cdk2fps.cpp:111 | a file of whole lines followed by more text reads as its lines then the lines of that text |
| Cdk2Fps.LineReadsBack | cdk2fps-jni/cdk2fps.cpp:86-87 | a line ended by LF reads back as itself |
| Cdk2Fps.FpsLineReadsBack | cdk2fps-jni/cdk2fps.cpp:28-46 | a record written for a SMILES without line breaks reads back as one line, the hex then the title |
| Cdk2Fps.LinesSnoc | cdk2fps-jni/cdk2fps.cpp:111 | a file of whole lines followed by one more LF-ended line reads as its lines then that line |
| Cdk2Fps.FourLines | cdk2fps-jni/cdk2fps.cpp:69-75 | four LF-ended lines without breaks read back as those four lines |
| Cdk2Fps.RecordsSnoc | cdk2fps-jni/cdk2fps.cpp:111-116 | one more line read adds its record to the output when encoding succeeds, and `Error: ` with the line to stderr when it fails |
| Cdk2Fps.ProcessFile | cdk2fps-jni/cdk2fps.cpp:104-117 | `ProcessFile` consumes the whole input, writes a record for every line that encodes and an error line for every one that does not, in order |
| Decimals.Decimal | cdk2fps-jni/cdk2fps.cpp:70 | `%d` of a non-negative number prints at least one digit and only digits |
| Decimals.DecimalRoundTrip | cdk2fps-jni/cdk2fps.cpp:70 | the digits printed read back as the number |
| Decimals.DecimalValuePrefix | cdk2fps-jni/cdk2fps.cpp:70 | a run of digits has a non-negative value, no smaller than any of its prefixes |

## Left out

- `Similarity` Cosine: it needs a square root, which the rational `Double` model does not have.
- Floating point rounding: divisions are exact rationals. A score that Java rounds to equal two different rationals compares equal in Java but not here.
- MinBinaryHeap: values are `real`, so the NaN ordering of `Double.compare` inside the heap is not modelled. `toString` is left out.
- BinaryFingerprint `readBytes` and `write` copy a fingerprint's words from and to a byte buffer with `getLong` and `putLong`. `top` fills its scratch fingerprint with `readBytes` (SimilarityIndex.java:141). `FingerprintSort.put` stores each record with `write` (FingerprintSort.java:92). The model copies nothing: `top` reads a record's sixteen words straight from the payload sequence (`IndexLayouts.Record`), and the sort's `Put` stores the whole fingerprint at the record's offset. The byte order of `getLong` and `putLong` and the reuse of the scratch fingerprint are not modelled.
- BinaryFingerprint `toBitset` is used only as `toBitset().toLongArray()` by `findAll` (SimilarityIndex.java:179). `FindAlls.LongArray` models that composition: the words up to the last non-zero one. The `BitSet` object itself is not modelled.
- BinaryFingerprint `fromBytes(ByteBuffer, int)`, `toString` and the xorshift hash are left out because no modelled operation calls them. `fromHex` is a stub that prints and returns null, and is left out too.
- BinaryFingerprints.BinaryFingerprint.FromBytes: requires fewer than 2^28 bytes, because `8 * bytes.length` would overflow `int` beyond that. The wrapped lengths are not modelled.
- Cdk2Fps.HeaderReadsBack: requires a length below 2^31. Larger unsigned lengths print negative under `%d`; `WriteFpsHeader` models that, but the read-back is stated only below it.
- SimilarityIndexes.SimilarityIndex.Top: requires a query popcount from 1 up to the fingerprint length. Outside that range the source's ordering loop never ends (`TopLoopDiverges`).
- FingerprintSorts.MappedBuffer.Put checks a record against the region as length/8 bytes and stores it whole. The source's `write` puts length/64 longs one at a time, so a record that overruns leaves its first longs written; the model discards the buffer on any fault and does not keep those partial writes.
- SimilarityIndex `load()` and the file channels are left out. The mapped payload is a sequence of words, and the header arrives as the counts array.
- SimilarityIndexes.SimilarityIndex.TopAsWritten models the default configuration, where the `chunks` system property is unset and `cache` is null. With `chunks` set, the Guava cache maps one bucket per buffer but `top` positions that buffer at the whole file's offset `offset + st * step` (SimilarityIndex.java:140); that path is not modelled.
- SimilarityIndexes.SimilarityIndex.TopAsWritten takes `min()` of the fresh heap to be the 0.0 in slot 1, as it is when Java assertions are off. With `-ea` and k = 1 the source throws an AssertionError there instead.
- FpsFmt `genSwitch`: it only prints generated Java source.
- FpsFmt readers: `words[n]` is stored once per word rather than OR-ed byte by byte. On a fault, the partially built word in the array is not stated.
- FrequencyFingerprints.FrequencyFingerprint.Add: the count is an unbounded integer. The source's `Counter` holds an `int`, and `cnt.value++` (FrequencyFingerprint.java:44) wraps to -2^31 after 2^31 - 1 adds of one feature. The model does not capture that wrap, nor what `remove` and `freq` then do with a negative count.
- FrequencyFingerprints.Tally: the tallies `a`, `b` and `both` are unbounded sums. The source accumulates them in `int` (FrequencyFingerprint.java:88-113), and they wrap once the summed counts pass 2^31 - 1. The model states the exact tallies, and the tally identities (`IntendedTalliesAddUp`) hold only for these unbounded values.
- FrequencyFingerprints.FrequencyFingerprint.Similarity: the measure is computed from the unbounded tallies of `Tally`, so the source's results on wrapped tallies are not modelled.
- FrequencyFingerprint `similarity` also prints the tallies with `System.out.println`. The printing is left out.
- The SMARTS parser builds CDK `IQueryAtom` objects; the model builds the `Expr` datatype over `Prim` primitives. Its trace output is left out.
- SmartsParsers.IsDigit: the digit set is the 37 blocks of Nd digits in the Basic Multilingual Plane from Unicode 7 on (unchanged since). A Java 8 runtime, on Unicode 6.2, lacks the Sinhala Lith (U+0DE6) and Myanmar Tai Laing (U+A9F0) blocks. A supplementary char is one Dafny `char` but two Java `char`s, neither of them a digit, and its UTF-16 halves are not modelled.
- AtomRef and BondRef getters that only delegate to the wrapped CDK atom or bond (charges, flags, points, stereo and the like) are left out. Only the methods with their own logic are modelled.
- CDK's `GraphUtil.toAdjList` is modelled as `Relaxations.Neighbours`. The `EdgeToBondMap` it also fills is not modelled, because no kernel reads it.
- BinaryFingerprints.BinaryFingerprint.Contains, BinaryFingerprints.BinaryFingerprint.Intersects and BinaryFingerprints.BinaryFingerprint.Similarity require `other` to have this fingerprint's length, which the source states only as an `assert` (BinaryFingerprint.java:184, 192, 200). With assertions off, a shorter `other` throws ArrayIndexOutOfBoundsException in the word loop, and a longer one is compared on this fingerprint's words only. Neither case is modelled.
- Benchmark timers and checksums are Java `long`s. Their overflow is not modelled: the values are unbounded integers, while the relaxation's `int` arrays do wrap.
- Benchmark `main`: the option parser and the header and report printing are left out, and so is the `FileInputStream(args[0])` that opens the first argument for every file. The model takes the lines of one file.
- Benchmarks.MainLoop: its reports state the line range and the checksums, but not the times, which come from the clock parameters.
- Benchmark: the visit-flag searches store their flags on the CDK atoms. The model stores them in a visit array, which has the same meaning for a single search.
- cdk2fps.cpp `main`, `ProcessCommandLine` and `DisplayUsage` (the command line and the usage message on stderr) are left out, and so are the Java `Main` and its argument check.
- FpsToIdx: file opening and closing are left out. The FPS text is a character sequence and the files written are sequences.

## Findings

| source | as written | input that shows it | evidently intended | confidence | as-written member | corrected member |
|---|---|---|---|---|---|---|
| fp-idx/src/main/java/org/openscience/cdk/nfp/SimilarityIndex.java:131-135 | `top` reads each bucket through `cache.get(bin)`, but `cache` is null unless the `chunks` system property is set | default properties, any query of popcount 1 .. 1023, k = 10: the first bucket throws a NullPointerException | read the bucket's records from `totalBuffer`, as `findAll` does | high, not executed | SimilarityIndexes.SimilarityIndex.TopAsWritten | SimilarityIndexes.SimilarityIndex.Top |
| fp-idx/src/main/java/org/openscience/cdk/nfp/MinBinaryHeap.java:98-103 | `deleteMin` moves the last key to the root but not its value | keys 7, 8 with values 1.0, 2.0: after `deleteMin` the heap holds (8, 1.0) | remove the least pair and keep every other pair intact | high, not executed | MinBinaryHeaps.DeleteMinStaleValue | MinBinaryHeaps.MinBinaryHeap.DeleteMin |
| fp-idx/src/main/java/org/openscience/cdk/nfp/SimilarityIndex.java:110-117 | the ordering loop of `top` exits only when `jLo == 0` and `jHi == max` | a query of popcount 0, or of popcount max or more | end once both sides have run out of buckets | high, not executed | SimilarityIndexes.TopLoopDiverges | SimilarityIndexes.TopOrdering |
| fp-idx/src/main/java/org/openscience/cdk/nfp/SimilarityIndex.java:129 | `k <= heap.size` counts the heap's unused slot 0, so pruning starts with k - 1 pairs held | k = 2, one pair of score 1 held, query popcount 10: bucket 11 is pruned although a record there scores 10/11 | prune only when k pairs are held | high, not executed | SimilarityIndexes.TopPrunesEarly | SimilarityIndexes.SimilarityIndex.Top |
| fp-idx/src/main/java/org/openscience/cdk/nfp/SimilarityIndex.java:129-130 | `break` on the first bucket whose bound cannot beat the heap, although the bound is not monotone along the ordering | query popcount 3 with heap minimum 0.4: the search ends at bucket 1 (bound 1/3) before bucket 6 (bound 1/2) | skip that bucket and go on | high, not executed | SimilarityIndexes.TopBreakSkipsBucket | SimilarityIndexes.SimilarityIndex.Top |
| fp-idx/src/main/java/org/openscience/cdk/nfp/SimilarityIndex.java:174-176 | the ordering of `findAll` stops on the first bound below the threshold on either side | query popcount 10 at threshold 0.85: bucket 9 (bound 0.9) is never visited | visit every bucket whose bound reaches the threshold | high, not executed | FindAlls.OrderSkipsLowBucket | SimilarityIndexes.SimilarityIndex.FindAll |
| fp-idx/src/main/java/org/openscience/cdk/nfp/SimilarityIndex.java:170-177 | with no bound below the threshold the ordering never breaks and overruns its array | threshold 0 with Tanimoto | visit every bucket once | high, not executed | FindAlls.OrderOverflows | SimilarityIndexes.SimilarityIndex.FindAll |
| fp-idx/src/main/java/org/openscience/cdk/nfp/SimilarityIndex.java:187-190 | the scan reads `counts[bin + 1]` for the last bucket | a Tanimoto query whose bound with bucket 1024 reaches the threshold | stop at the last bucket that has an upper count | high, not executed | FindAlls.FindAllFailsNearFull | SimilarityIndexes.SimilarityIndex.FindAll |
| fp-idx/src/main/java/org/openscience/cdk/nfp/SimilarityIndex.java:179-213 | each candidate reads only as many words as the query's `toBitset().toLongArray()`, which drops trailing zero words, so later reads start inside the wrong record | a query whose last words are zero, over two records of bucket 1 the second equal to the query: no hit | advance one whole record per candidate | high, not executed | FindAlls.MisalignedReadMissesHit | FindAlls.ScanBucket |
| readopt-ds/src/main/java/com/blogspot/efficientbits/AtomRef.java:266-269 | `setProperty` stores the fractional 3D point instead of the value | any value other than the atom's fractional point | store the given value | high, not executed | GraphRefs.SetPropertyStoresPoint | GraphRefs.AtomRef.SetProperty |
| readopt-ds/src/main/java/com/blogspot/efficientbits/AtomRef.java:381-384 | `addProperties` replaces all properties | an atom with a property the argument does not mention | add to the existing properties | high, not executed | GraphRefs.AddPropertiesDropsOthers | GraphRefs.AtomRef.AddProperties |
| readopt-ds/src/main/java/com/blogspot/efficientbits/BondRef.java:250-253 | `isConnectedTo(bond)` calls `bond.isConnectedTo(bond)` | any BondRef argument: the call recurses until the stack overflows | ask whether the two bonds share an atom | high, not executed | GraphRefs.IsConnectedToOverflows | GraphRefs.IsConnectedToSharesEnd |
| readopt-ds/src/main/java/com/blogspot/efficientbits/Benchmark.java:498-509 | the batch report is taken before the line is processed | one line with step 1: the report for lines 0-1 holds no checksum of line 1 | process the line, then report | medium, not executed | Benchmarks.AsWrittenMissesALine | Benchmarks.FixedSeesItsLines |
| fp-idx/src/main/java/org/openscience/cdk/nfp/FrequencyFingerprint.java:96-97 | a key held equally often by both fingerprints adds 1 to `both`, whatever the count | {7: 2} against itself: a = b = 0 and both = 1, so a + both is 1, not the total count 2 | add the shared count, as unequal counts add the smaller one | medium, not executed | FrequencyFingerprints.EqualCountsUndercount | FrequencyFingerprints.IntendedTalliesAddUp |
