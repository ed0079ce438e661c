# AGC core in Dafny

A verified model of the sequential core of AGC, the Assembled Genomes
Compressor. AGC stores a collection of genome assemblies as segments cut at
splitter k-mers; each segment is either a reference of its group or an
LZ-diff coding against that reference, and a collection of metadata records
which samples and contigs use which segments. The model covers:

- the LZ-diff token coding (literals, matches, N-runs, decimal integers,
  `get_code`, `get_Nrun_len`, coding costs) and `Decode`;
- the integer codecs: zigzag (absolute and predicted), the 1 to 5 byte
  prefix varint, NUL-terminated strings, little-endian `append`/`read`,
  and the base-4 tuple packing of segment symbols with the delta packs;
- the collection metadata: sample and contig registration in the common
  collection and in formats v1 and v3, serialisation of v1, the contig
  details of v3 and the space-split delta coding of contig names;
- the data structures: the linear-probing hash set `hash_set_lp`, the Bloom
  set `bloom_set_t`, the k-mer register `CKmer`, the bit utilities, and the
  buffer of segment parts `CBufferedSegPart`;
- the compressor helpers: contig preprocessing, k-mer enumeration, the
  singleton filter and the splitter search;
- contig reassembly: range normalisation, overlap join, contig length,
  name lookup error codes and line splitting, plus `Close`.

Functions state what the code computes; classes model the objects whose
fields the code updates in place, and their methods are proved against
those functions. Integers are unbounded in Dafny. The source's 32- and
64-bit arithmetic is written out where the model depends on it: the
varint and segment-delta codes, the k-mer registers, the hash table's
masks, the v3 detail values read back and their raw-length prediction,
and the contig length as written.
Elsewhere the model computes on unbounded integers, and "## Left out"
names each member whose source can overflow there.

## Model

| member | source | states |
|---|---|---|
| Utils.DnaCode | src/common/utils.h:36-48 | dna_code gives a code at most 4, and a code below 4 exactly for A, C, G, T |
| Utils.DnaCodeOfLetters | src/common/utils.h:36-48 | A, C, G, T get 0, 1, 2, 3, and a code below 4 is the position of its letter in "ACGT" |
| Utils.ComplementCode | src/common/utils.h:51-63 | reverse_complement maps a code x below 4 to 3 - x and everything else to 4 |
| Utils.ComplementCodeInvolution | src/common/utils.h:51-63 | reverse_complement is an involution on 0..3 and gives 4 exactly for the other codes |
| Utils.ZigzagEncode | src/common/utils.h:95-101 | zigzag_encode maps non-negative values to even codes and negative ones to odd codes, each code between the value's magnitude and twice it |
| Utils.ZigzagDecode | src/common/utils.h:104-110 | every code is the zigzag_encode of its zigzag_decode, so the code is a bijection with ZigzagRoundTrip |
| Utils.ZigzagRoundTrip | src/common/utils.h:95-110 | zigzag_decode inverts zigzag_encode |
| Utils.ZigzagEncodeRel | src/common/utils.h:113-122 | the predicted zigzag_decode inverts the predicted zigzag_encode; values at least twice the prediction are stored unchanged, and exactly the values below twice the prediction get codes below it |
| Utils.ZigzagDecodeRel | src/common/utils.h:125-135 | a code decodes to a value below twice the prediction exactly when the code is below twice the prediction |
| Utils.DigitsValue | src/common/utils.cpp:15-48 | the digits the do-while loops emit, least significant first, read back to the number |
| Utils.DigitsInjective | src/common/utils.cpp:15-48 | different numbers give different digit strings |
| Utils.IntToHex | src/common/utils.cpp:15-30 | int_to_hex returns the hexadecimal digits of n least significant first, at least one of them |
| Utils.IntToBase64 | src/common/utils.cpp:33-48 | int_to_base64 returns the base-64 digits of n least significant first, at least one of them |
| Utils.SsBase | src/common/utils.cpp:51-66 | a stream base name starts with the version's prefix ("seg-" before version 3000, "x" from then on) and has more after it |
| Utils.StreamNamesCompose | src/common/utils.cpp:69-102 | ss_ref_name and ss_delta_name are the base name followed by the reference or delta extension |
| AgcBasic.RevComp | src/core/agc_basic.cpp:122-128 | the reverse complement has the contig's length |
| AgcBasic.RevCompAt | src/core/agc_basic.cpp:122-128 | position i of the reverse complement holds the complement of position n-1-i |
| AgcBasic.RevCompSymbols | src/core/agc_basic.cpp:122-128 | reverse_complement keeps the length, maps a code x below 4 to 3 - x and leaves other codes unchanged, in reversed order |
| AgcBasic.RevCompInvolution | src/core/agc_basic.cpp:122-128 | reverse_complement applied twice gives back the contig |
| AgcBasic.ReverseComplement | src/core/agc_basic.cpp:122-128 | the in-place reversal and complement loop leaves the array holding the reverse complement of its old contents |
| AgcBasic.ReverseComplementCopy | src/core/agc_basic.cpp:131-138 | reverse_complement_copy returns the same contig as the in-place reverse_complement of a copy |
| AgcBasic.CnvNumCodes | src/core/agc_basic.h:40-50 | cnv_num maps the 16 codes to upper-case letters and each such letter, upper or lower case, back to its code |
| AgcBasic.CnvNumLetters | src/core/agc_basic.h:40-50 | cnv_num maps A, C, G, T (either case) to 0..3, N to 4 and '@' and '`' to a space |
| AgcBasic.LeRoundTrip | src/core/agc_basic.h:86-105 | reading w little-endian bytes gives back any number below 256^w that was written in them |
| AgcBasic.Append | src/core/agc_compressor.h:391-398 | append adds the 4 little-endian bytes of num to the end of data |
| AgcBasic.Append64 | src/core/agc_compressor.h:401-408 | append64 adds the 8 little-endian bytes of num to the end of data |
| AgcBasic.Read | src/core/agc_basic.h:86-94 | read gives the little-endian value of the next 4 bytes and moves past them |
| AgcBasic.Read64 | src/core/agc_basic.h:97-105 | read64 gives the little-endian value of the next 8 bytes and moves past them |
| AgcBasic.AppendRead | src/core/agc_compressor.h:391-398 | what append writes, read reads back, from the position where it was written |
| AgcBasic.Append64Read64 | src/core/agc_compressor.h:401-408 | what append64 writes, read64 reads back, from the position where it was written |
| Bits.AndPrev | src/core/utils_adv.h:286-294 | x & (x - 1) clears the lowest set bit of x |
| Bits.PopCountClear | src/core/utils_adv.h:286-294 | clearing the lowest set bit lowers the number of set bits by one, the step of the pop_count loop |
| Bits.LowBitPow2 | src/core/utils_adv.h:297-301 | x & (x - 1) is zero exactly for the powers of two, and those are the values with one set bit |
| Bits.BitLengthBounds | src/core/utils_adv.h:304-312 | the bit length of a positive x is at least 1 and 2^(len-1) <= x < 2^len |
| Bits.AndMaskBelow | src/core/hs.h:544-567 | masking with a power of two minus one keeps every smaller value: the table index stays in range |
| Bits.AndMaskWrap | src/core/hs.h:544-567 | masking a power of two with itself minus one gives 0: probing wraps to the start of the table |
| Bits.KeepHighestBit | src/core/utils_adv.h:195-204 | the while loop of normalize_size leaves 0 for 0 and otherwise the highest set bit of its input |
| Bits.IsPower2AtMostOneBit | src/core/utils_adv.h:297-301 | is_power_2(x) holds exactly when x has at most one set bit (zero included) |
| Bits.PopCount | src/core/utils_adv.h:286-294 | pop_count returns the number of set bits |
| Bits.ILog2 | src/core/utils_adv.h:304-312 | ilog2 returns the bit length: 2^(r-1) <= x < 2^r for positive x |
| Bits.NoBytes | src/core/utils_adv.h:315-325 | no_bytes returns at least 1, the number of bytes x needs, and x fits in that many bytes |
| Bits.ByteLengthBound | src/core/utils_adv.h:315-325 | every value fits in the number of bytes no_bytes gives for it |
| Bits.AndPow2 | src/core/utils_adv.h:268-276 | testing with 1 << k is non-zero exactly when bit k is set |
| Bits.OrBit | src/core/utils_adv.h:227-236 | a bit is set in a | b exactly when it is set in a or in b |
| Bits.OrBound | src/core/utils_adv.h:227-236 | or-ing two words of k bits gives a word of k bits |
| Bloom.MarkedBits | src/core/utils_adv.h:268-276 | check's test on a word holds exactly when the three probe bits of the hash (bits 0-5, 6-11 and 12-17) are set |
| Bloom.MarkedOr | src/core/utils_adv.h:227-236 | setting more bits in a word never unmarks a value |
| Bloom.MarkedSet | src/core/utils_adv.h:227-236 | or-ing a value's three probe bits into a word marks it |
| Bloom.Pos | src/core/utils_adv.h:230 | the word a hash selects is at most the mask shifted down, so inside the array |
| Bloom.KeepHolds | src/core/utils_adv.h:227-236 | an insert that sets bits in one word keeps every value already held |
| Bloom.SetHolds | src/core/utils_adv.h:227-236 | after its word is updated, the inserted value is held |
| Bloom.NormalSizeRange | src/core/utils_adv.h:195-204 | normalize_size returns a power of two at least 256 |
| Bloom.NormalSizeCovers | src/core/utils_adv.h:195-204 | when no overflow happens, the filter has more than six bits per value and, beyond the minimum of 256, at most twelve |
| Bloom.NormalizeSize | src/core/utils_adv.h:195-204 | the normalize_size loop computes the closed-form filter size |
| Bloom.BloomSet.constructor | src/core/utils_adv.h:240-243 | a new filter is empty and has normalize_size(size) bits |
| Bloom.BloomSet.Allocate | src/core/utils_adv.h:206-225 | allocate (and resize) gives a fresh all-zero array of normalize_size(size) bits and no elements |
| Bloom.BloomSet.Insert | src/core/utils_adv.h:227-236 | insert sets the three probe bits in the value's word, changes no other word, counts one more element, and afterwards check(x) holds |
| Bloom.BloomSet.InsertAll | src/core/utils_adv.h:256-261 | inserting a range adds every value of it and check holds for each |
| Bloom.BloomSet.Check | src/core/utils_adv.h:268-276 | no false negatives: check holds for every value inserted since the last allocate |
| HashSetLp.SlotDist | src/core/hs.h:584-600 | a probe distance from the home slot and the slot it reaches determine each other |
| HashSetLp.FreeSlot | src/core/hs.h:416-417 | a table with fewer keys than slots has an empty slot, so the probing loops end |
| HashSetLp.Miss | src/core/hs.h:618-640 | reaching an empty slot before the key on its probe path proves the key absent |
| HashSetLp.TableInsert | src/core/hs.h:443-469 | writing a new key into the first empty slot of its probe path keeps the table invariant, with the key added |
| HashSetLp.NextSlot | src/core/hs.h:455-461 | (h + 1) & allocated_mask is the next slot of the probe path, wrapping at the end |
| HashSetLp.OccupiedKeys | src/core/hs.h:570-581 | the keys of a table are exactly its non-empty slots, which restruct reinserts |
| HashSetLp.ClampFill | src/core/hs.h:527-535 | the fill factor is clamped into 1..99 percent and a value already inside is kept |
| HashSetLp.ThresholdFacts | src/core/hs.h:538-560 | size_when_restruct is allocated * fill / 100, below allocated, monotone, and at least doubles when the table doubles |
| HashSetLp.CapacityFacts | src/core/hs.h:544-557 | _reserve rounds the request up to a power of two at least 8 and less than twice the request |
| HashSetLp.HashSet.constructor | src/core/hs.h:208-217 | a new set is empty, with Capacity(init_reserved) slots and the clamped fill factor |
| HashSetLp.HashSet.Reserve | src/core/hs.h:544-567 | _reserve leaves a fresh table of a power of two at least 8 slots, all empty, mask = allocated - 1, the restruct threshold, and no elements |
| HashSetLp.HashSet.Probe | src/core/hs.h:418-435 | the probing loop stops at the key when it is present and at an empty slot on its path when it is not |
| HashSetLp.HashSet.Place | src/core/hs.h:418-441 | a key goes into its probe path's empty slot unless present; the result says whether it was new and the count grows by one exactly then |
| HashSetLp.HashSet.Insert | src/core/hs.h:414-441 | insert adds the key, reports whether it was new, returns where it is, and doubles the table first when the threshold is reached |
| HashSetLp.HashSet.InsertFast | src/core/hs.h:443-469 | insert_fast adds the key and returns whether it was new; size grows exactly when it was |
| HashSetLp.HashSet.Restruct | src/core/hs.h:570-581 | restruct moves into a fresh table of Capacity(new_allocated) slots with the same keys and count |
| HashSetLp.HashSet.ReserveAtLeast | src/core/hs.h:388-395 | reserve keeps the table when the request is below allocated and otherwise restructs to Capacity(request); the keys stay |
| HashSetLp.HashSet.FindSlot | src/core/hs.h:584-600 | _find returns the key's slot when present and an empty slot otherwise |
| HashSetLp.HashSet.Find | src/core/hs.h:472-481 | find succeeds exactly for a present key, at a slot holding it (the empty key finds an empty slot) |
| HashSetLp.HashSet.Check | src/core/hs.h:484-491 | check holds exactly for the keys inserted since the last clear |
| HashSetLp.HashSet.Clear | src/core/hs.h:314-318 | clear fills every slot with the empty key and leaves no keys, keeping the table size |
| HashSetLp.HashSet.Size | src/core/hs.h:370-373 | size is the number of distinct keys held |
| HashSetLp.HashSet.Empty | src/core/hs.h:364-367 | empty holds exactly when no key is held |
| Kmer.Slide | src/core/kmer.h:34-44 | inserting a symbol appends it to the window, which grows by one until it holds max_size symbols and then drops its oldest |
| Kmer.ReverseComplementAt | src/core/kmer.h:56-64 | position i of the reverse-complement window holds the complement of position n-1-i |
| Kmer.ReverseComplementInvolution | src/core/kmer.h:542-550 | the reverse complement of the reverse complement is the window, so swap_dir_rc twice restores the k-mer |
| Kmer.SlideLastK | src/core/kmer.h:297-305 | after an insert the window is the last max_size symbols of everything inserted since Reset |
| Kmer.FeedLastK | src/core/kmer.h:297-305 | inserting a run of symbols leaves the last max_size symbols of the whole input in the window |
| Kmer.FeedFromEmpty | src/core/kmer.h:236-305 | from a reset k-mer, a run of inserts leaves its last max_size symbols |
| Kmer.PackBound | src/core/kmer.h:34-44 | n packed 2-bit symbols are below 4^n |
| Kmer.PackedBound | src/core/kmer.h:34-44 | a left-aligned packing of at most 32 symbols fits in 64 bits |
| Kmer.DirGrow | src/core/kmer.h:40-43 | while the k-mer is not full, kmer_dir += symbol << (64 - 2 * cur_size) appends the symbol to the left-aligned packing |
| Kmer.DirSlide | src/core/kmer.h:35-39 | once full, kmer_dir <<= 2 then kmer_dir += symbol << shift drops the oldest symbol and appends the new one |
| Kmer.RcGrow | src/core/kmer.h:56-64 | while not full, kmer_rc >>= 2, adding the complement at bit 62 and masking, prepends the complement to the reverse-complement packing |
| Kmer.RcSlide | src/core/kmer.h:56-64 | once full, the same steps drop the complement of the oldest symbol and prepend that of the new one |
| Kmer.CKmer.constructor | src/core/kmer.h:187-285 | a new k-mer has max_size k, the given mode, no symbols and both codes zero |
| Kmer.CKmer.Reset | src/core/kmer.h:236-240 | Reset empties the window and zeroes both codes, keeping max_size and the mode |
| Kmer.CKmer.ResetMode | src/core/kmer.h:275-294 | Reset(k, mode) sets max_size and the mode and empties the k-mer |
| Kmer.CKmer.InsertDirect | src/core/kmer.h:34-44 | insert_direct slides the symbol into the window and keeps kmer_dir the packing of the window |
| Kmer.CKmer.PushRc | src/core/kmer.h:57-59 | the reverse-complement update makes kmer_rc the packing of the reverse complement of the slid window |
| Kmer.CKmer.InsertRevComp | src/core/kmer.h:56-64 | insert_rev_comp slides the symbol in and keeps kmer_rc the packing of the window's reverse complement |
| Kmer.CKmer.InsertCanonical | src/core/kmer.h:76-93 | insert_canonical slides the symbol in and keeps both codes in step with the window |
| Kmer.CKmer.Insert | src/core/kmer.h:297-305 | insert slides the symbol into the window in every mode and keeps the codes of the mode in step |
| Kmer.CKmer.InsertZero | src/core/kmer.h:307-315 | insert_zero is insert of the symbol 0 |
| Kmer.CKmer.Data | src/core/kmer.h:343-350 | data() is the direct packing, the reverse-complement packing, or in canonical mode the smaller of the two |
| Kmer.CKmer.IsFull | src/core/kmer.h:521-524 | is_full holds exactly when the window holds max_size symbols |
| Kmer.CKmer.IsDirOriented | src/core/kmer.h:533-539 | is_dir_oriented holds exactly in canonical mode with kmer_dir <= kmer_rc |
| Kmer.CKmer.SwapDirRc | src/core/kmer.h:542-550 | in canonical mode swap_dir_rc exchanges the two codes, so the k-mer becomes its reverse complement; other modes are unchanged |
| LzDiff.DecTextDigits | src/core/lz_diff.cpp:455-475 | append_int writes a positive value as decimal digits only |
| LzDiff.AppendInt | src/core/lz_diff.cpp:455-475 | append_int adds the decimal text of x, '0' for zero and a leading '-' for negatives, to the end of the buffer |
| LzDiff.ReadDigits | src/core/lz_diff.cpp:478-494 | the digit loop of read_int stops at the first byte that is not a digit, or at the end |
| LzDiff.ReadInt | src/core/lz_diff.cpp:478-494 | the read_int loop computes the value and end position of the parse function |
| LzDiff.FoldDecText | src/core/lz_diff.cpp:455-494 | reading back the digits append_int writes for a positive value gives the value |
| LzDiff.ParseIntText | src/core/lz_diff.cpp:455-494 | read_int of what append_int wrote, followed by a non-digit or the end, gives x back for zero, positive and negative x and stops right after it |
| LzDiff.IntTextStart | src/core/lz_diff.cpp:455-475 | the text of an integer starts with '-' or a digit |
| LzDiff.DecTextLength | src/core/lz_diff.cpp:455-475 | a value with 10^(k-1) <= n < 10^k is written in k digits |
| LzDiff.IntLenCountsDigits | src/core/lz_diff.h:61-73 | int_len is the number of decimal digits of a positive uint32 |
| LzDiff.IntTextLength | src/core/lz_diff.cpp:455-535 | the text of x is int_len(|x|) long, plus one for the sign of a negative x |
| LzDiff.CodingCostMatch | src/core/lz_diff.cpp:522-535 | coding_cost_match is exactly the number of bytes encode_match appends for the same position, length and prediction |
| LzDiff.CodingCostNrun | src/core/lz_diff.cpp:538-541 | coding_cost_Nrun is exactly the number of bytes encode_Nrun appends |
| LzDiff.DecodeLiteral | src/core/lz_diff.cpp:557-572 | a byte that is_literal accepts decodes to a symbol code of at most 20 |
| LzDiff.LiteralRoundTrip | src/core/lz_diff.cpp:497-572 | encode_literal stores 'A' + c; for c <= 20 that byte is recognised as a literal, not an N-run, and decode_literal gives c back |
| LzDiff.DecodeMatch | src/core/lz_diff.cpp:575-587 | decode_match always moves past the token |
| LzDiff.DecodeMatchAt | src/core/lz_diff.cpp:575-587 | the decode_match steps compute the reference position, length and next position of the decode function |
| LzDiff.DecodeNrun | src/core/lz_diff.cpp:590-599 | decode_Nrun always moves past the token |
| LzDiff.DecodeNrunAt | src/core/lz_diff.cpp:590-599 | the decode_Nrun steps compute the length and next position of the decode function |
| LzDiff.MatchParts | src/core/lz_diff.cpp:503-511 | a match token is ref_pos - pred_pos, ',', len - min_match_len, '.', and both numbers read back |
| LzDiff.MatchRoundTrip | src/core/lz_diff.cpp:503-587 | encode_match stores the signed distance from pred_pos, ',', len - min_match_len and '.'; decode_match reads ref_pos and len back from it and moves just past it |
| LzDiff.NrunRoundTrip | src/core/lz_diff.cpp:514-599 | encode_Nrun stores the start marker, L - min_Nrun_len and the N code; that token is recognised as an N-run, not a literal, and decode_Nrun restores L >= min_Nrun_len and moves past it |
| LzDiff.DecodeStep | src/core/lz_diff.cpp:227-245 | one step of the Decode loop moves forward and stays inside the stream |
| LzDiff.DecodeToken | src/core/lz_diff.cpp:227-245 | one iteration of the Decode loop produces the output, next position and prediction of the step function |
| LzDiff.Decode | src/core/lz_diff.cpp:219-247 | Decode appends the expansions of all tokens, as the decode function defines them; an N-run of length L expands to L N-codes |
| LzDiff.ExpandAllLength | src/core/lz_diff.cpp:219-247 | the decoded length is the number of literals plus the N-run lengths plus the match lengths |
| LzDiff.StepRoundTrip | src/core/lz_diff.cpp:497-519 | decoding the bytes of any encoded token gives its expansion, moves past it and updates pred_pos as encoding assumed |
| LzDiff.DecodeEncodedTokens | src/core/lz_diff.cpp:219-247 | decoding a stream of encoded tokens from any position gives their expansions in order |
| LzDiff.DecodeRoundTrip | src/core/lz_diff.cpp:219-247 | Decode of an encoded token sequence gives back the text the tokens stand for |
| LzDiff.GetCode | src/core/lz_diff.cpp:602-614 | get_code is ~0 when some symbol of the key window is above 3 and otherwise the base-4 packing of the window, modulo 2^64 |
| LzDiff.CodeMarkerUnambiguous | src/core/lz_diff.cpp:602-614 | for keys shorter than 32 symbols, a packing is below ~0, so the marker cannot be confused with a code |
| LzDiff.GetNrunLen | src/core/lz_diff.cpp:544-554 | get_Nrun_len is 0 unless the first three symbols are N; otherwise it is the length of the N-run, between 3 and max_len |
| Collection.VarintWidth | src/core/collection.cpp:71-107 | the first byte of a number alone fixes how many bytes it takes, from 1 to 5 |
| Collection.VarintWidthMasks | src/core/collection.cpp:71-107 | the width is 1, 2, 3, 4 or 5 exactly when the first byte matches the prefix 0xxxxxxx, 10xxxxxx, 110xxxxx, 1110xxxx or 1111xxxx |
| Collection.EncodeNum | src/core/collection.cpp:23-57 | append writes 1 to 5 bytes whose first byte announces their number |
| Collection.EncodeNumLength | src/core/collection.cpp:23-57 | the encoding takes 1, 2, 3, 4 or 5 bytes exactly when the number lies below thr_1, in [thr_1, thr_2), [thr_2, thr_3), [thr_3, thr_4) or at or above thr_4 |
| Collection.ReadNum | src/core/collection.cpp:71-107 | read fails only when the buffer ends before the bytes the first byte announces; otherwise it moves past exactly those bytes |
| Collection.ReadEncodeNum | src/core/collection.cpp:23-107 | reading where append wrote a number gives that number back and moves past exactly the bytes written, for every uint32 |
| Collection.ReadEncodeNum2 | src/core/collection.cpp:27-83 | the round trip for two-byte numbers |
| Collection.ReadEncodeNum3 | src/core/collection.cpp:33-90 | the round trip for three-byte numbers |
| Collection.ReadEncodeNum4 | src/core/collection.cpp:40-98 | the round trip for four-byte numbers |
| Collection.ReadEncodeNum5 | src/core/collection.cpp:48-106 | the round trip for five-byte numbers |
| Collection.EncodeString | src/core/collection.cpp:15-19 | a string is written as its bytes followed by one NUL |
| Collection.FindNul | src/core/collection.cpp:60-68 | finds the first NUL at or after the position, or reports that none is left |
| Collection.StringAt | src/core/collection.cpp:60-68 | the string read is NUL-free, ends at the first NUL, and the position moves just past that NUL |
| Collection.ReadString | src/core/collection.cpp:60-68 | the read loop computes StringAt |
| Collection.ReadEncodeString | src/core/collection.cpp:15-68 | reading where a NUL-free string was written gives it back and moves past its terminator |
| Collection.FirstSpace | src/core/collection.cpp:110-119 | the index of the first space, newline, carriage return or tab, or the length when there is none |
| Collection.ContigName | src/core/collection.cpp:110-119 | the short contig name is the prefix before the first whitespace byte, and holds no whitespace |
| Collection.ExtractContigName | src/core/collection.cpp:110-119 | the scanning loop computes ContigName |
| Collection.ContigNameIdempotent | src/core/collection.cpp:110-119 | extracting the contig name twice gives the same as once |
| Collection.PlaceSegment | src/core/collection.cpp:192-203 | add_segment_placed grows the list to place+1 with filler entries when needed, sets that slot, and keeps every other entry |
| Collection.RegisterKeepsConsistent | src/core/collection.cpp:128-151 | registering a new (sample, short contig) pair keeps the three indexes (descriptions, ids, contig-to-sample map) in agreement |
| Collection.RegisterKeepsIdsResolve | src/core/collection.cpp:140-145 | after registration every id still points at a contig with that short name whose sample is listed for it |
| Collection.RegisterKeepsContigsFiled | src/core/collection.cpp:140-143 | after registration every stored contig has an id |
| Collection.RegisterKeepsSamplesFiled | src/core/collection.cpp:140-145 | after registration every sample listed for a contig has an id for that pair |
| Collection.Registry.constructor | src/core/collection.h:57-95 | a new collection is empty and consistent |
| Collection.Registry.RegisterSampleContig | src/core/collection.cpp:128-151 | the result is true iff the (sample, short contig) pair was new, where an empty sample name is replaced by the short contig name; a duplicate changes nothing; a new pair gets the next contig id of its sample, a new description and a new entry in the contig-to-sample map, an unknown sample or short name starting from no entries |
| Collection.Registry.GetSamplesForContig | src/core/collection.cpp:296-307 | returns the samples registered with that short contig name, and a sample is listed iff that pair is registered |
| CollectionV1Format.Int32 | src/core/collection_v1.cpp:40-133 | the int32_t conversion wraps every value into [-2^31, 2^31) and keeps values already in range |
| CollectionV1Format.DeltaRoundTrip | src/core/collection_v1.cpp:40-133 | a value is stored as the zigzag code of its int32_t difference from the previous value and read back by adding the decoded difference modulo 2^32; every uint32 is restored |
| CollectionV1Format.TakeNum | src/core/collection.cpp:71-107 | reading a number consumes at least one byte |
| CollectionV1Format.TakeString | src/core/collection.cpp:60-68 | reading a string consumes at least its terminator |
| CollectionV1Format.TakeEncodedNum | src/core/collection.cpp:23-107 | a written number is read back and exactly its bytes are consumed |
| CollectionV1Format.TakeEncodedString | src/core/collection.cpp:15-68 | a written NUL-free string is read back and exactly its bytes are consumed |
| CollectionV1Format.DecMany | src/core/collection_v1.cpp:83-139 | reading n records yields exactly n of them when it succeeds |
| CollectionV1Format.After | src/core/collection_v1.cpp:49-139 | the previous values kept after a segment are int32_t values |
| CollectionV1Format.DecSeg | src/core/collection_v1.cpp:124-136 | reading one segment consumes input |
| CollectionV1Format.DecSegOf | src/core/collection_v1.cpp:124-136 | a segment is read as group id, in-group id and raw length deltas, then the orientation flag (non-zero means reverse complement) |
| CollectionV1Format.SegRoundTrip | src/core/collection_v1.cpp:38-139 | one segment written after given previous values is read back unchanged and the rest of the input is left |
| CollectionV1Format.DecSegs | src/core/collection_v1.cpp:118-139 | reading the segments of a contig yields the announced number of them |
| CollectionV1Format.DecSegsStep | src/core/collection_v1.cpp:124-139 | the segment loop reads one segment and continues with its values as the previous ones |
| CollectionV1Format.SegsRoundTrip | src/core/collection_v1.cpp:34-139 | the delta-coded segment list of a contig, starting from zero previous values, is read back unchanged |
| CollectionV1Format.EncSegsSnoc | src/core/collection_v1.cpp:38-52 | writing one more segment appends its bytes, coded against the last segment written |
| CollectionV1Format.ContigRoundTrip | src/core/collection_v1.cpp:29-139 | a contig (NUL-free name, fewer than 2^32 segments) is read back unchanged |
| CollectionV1Format.DecContigs | src/core/collection_v1.cpp:97-139 | reading the contigs of a sample yields the announced number of them |
| CollectionV1Format.ContigsRoundTrip | src/core/collection_v1.cpp:29-140 | a sample's contig list is read back unchanged |
| CollectionV1Format.EncContigsSnoc | src/core/collection_v1.cpp:29-53 | writing one more contig appends its bytes |
| CollectionV1Format.SampleRoundTrip | src/core/collection_v1.cpp:22-141 | a sample (name, contig count, contigs) is read back unchanged |
| CollectionV1Format.DecSamples | src/core/collection_v1.cpp:83-141 | reading the samples yields the announced number of them |
| CollectionV1Format.SamplesRoundTrip | src/core/collection_v1.cpp:22-141 | the sample list is read back unchanged |
| CollectionV1Format.EncSamplesSnoc | src/core/collection_v1.cpp:22-54 | writing one more sample appends its bytes |
| CollectionV1Format.CmdRoundTrip | src/core/collection_v1.cpp:58-155 | a command line is read back with its date, or with an empty date when dates are not stored |
| CollectionV1Format.StoredAll | src/core/collection_v1.cpp:58-65 | the command lines as stored, with dates blanked when dates are not stored |
| CollectionV1Format.DecCmds | src/core/collection_v1.cpp:144-155 | reading the command lines yields the announced number of them |
| CollectionV1Format.CmdsRoundTrip | src/core/collection_v1.cpp:56-155 | the command-line list is read back as stored |
| CollectionV1Format.EncCmdsSnoc | src/core/collection_v1.cpp:58-65 | writing one more command line appends its bytes |
| CollectionV1Format.CollectionRoundTrip | src/core/collection_v1.cpp:14-160 | deserialize(serialize(...)) gives back every sample, in order, and the stored command lines |
| CollectionV1Format.DecCollectionOf | src/core/collection_v1.cpp:69-160 | the collection is read as sample count, samples, command count, command lines |
| CollectionV1.OrderedAppend | src/core/collection_v1.cpp:183-188 | a new sample gets the next sample id and goes to the end of the original order |
| CollectionV1.WfFile | src/core/collection_v1.cpp:183-200 | filing a new pair (and its sample when new) keeps ids, order and contig ids in agreement |
| CollectionV1.WfReplace | src/core/collection_v1.cpp:240-244 | replacing one contig's description keeps ids, order and contig ids in agreement |
| CollectionV1.NamesOf | src/core/collection_v1.cpp:85-87 | the sample names of a list, in order |
| CollectionV1.LoadSnoc | src/core/collection_v1.cpp:83-141 | loading one more sample resizes its slot list to the contig count read and appends each contig's segments to its slot (a sample read before keeps its old segments in front), gives it the next sample id, and adds its contig ids, contig-to-sample entries and name |
| CollectionV1.ColOfDistinct | src/core/collection_v1.cpp:83-141 | with no sample name repeated, the loaded map holds exactly the samples read, each with the contigs read for it |
| CollectionV1.FileSnoc | src/core/collection_v1.cpp:97-107 | loading one more contig files its (sample, short name) pair with its index and segment count, and lists the sample under that short name |
| CollectionV1.CollectionV1.constructor | src/core/collection_v1.h:16-44 | a new collection is empty and consistent |
| CollectionV1.CollectionV1.Admit | src/core/collection_v1.cpp:183-188 | a sample seen for the first time gets the next sample id and an empty contig list |
| CollectionV1.CollectionV1.FileContig | src/core/collection_v1.cpp:191-200 | a new pair gets the next contig index of its sample, zero segments, an empty description and a contig-to-sample entry |
| CollectionV1.CollectionV1.RegisterSampleContig | src/core/collection_v1.cpp:174-204 | the result is true iff the (sample, short contig) pair was new; a new sample gets the next sample id even when the pair is a duplicate; a new pair is filed as FileContig states |
| CollectionV1.CollectionV1.AddSegmentBasic | src/core/collection_v1.cpp:207-231 | returns the index of the pair's contig: the stored index for a filed pair, with nothing changed; for a new pair the old contig count of the sample, with an empty contig appended and the pair filed; an empty sample name is replaced by the short contig name |
| CollectionV1.CollectionV1.AddSegmentPlaced | src/core/collection_v1.cpp:234-245 | the segment lands in slot place of its contig, the list grows with 555555555 fillers when needed, and nothing else changes |
| CollectionV1.CollectionV1.GetSampleOriginalOrder | src/core/collection_v1.cpp:163-171 | returns the sample names ordered by their sample ids |
| CollectionV1.CollectionV1.Serialize | src/core/collection_v1.cpp:14-66 | the bytes are the sample count, then each sample in original (registration) order with its name and contigs, then the command lines, as the format states |
| CollectionV1.CollectionV1.Deserialize | src/core/collection_v1.cpp:69-160 | loads exactly what the bytes describe: contigs per sample, sample ids in order, contig ids with segment counts, contig-to-sample entries and command lines; from an empty collection with distinct names the result is consistent and keeps the stored order |
| CollectionV1.CollectionV1.GetNoSamples | src/core/collection_v1.cpp:388-393 | the number of samples |
| CollectionV1.CollectionV1.GetNoContigs | src/core/collection_v1.cpp:396-405 | -1 for an unknown sample, otherwise the contig count as int32_t |
| CollectionV1.CollectionV1.GetReferenceName | src/core/collection_v1.cpp:248-258 | fails iff no sample name was loaded; otherwise returns the first one |
| CollectionV1.EncodeCollection | src/core/collection_v1.cpp:14-66 | the serialize loop writes the bytes the format function describes |
| CollectionV1.AppendSamples | src/core/collection_v1.cpp:22-54 | the sample loop writes the format's sample list |
| CollectionV1.SamplesPrefix | src/core/collection_v1.cpp:22-54 | writing one more sample appends its bytes |
| CollectionV1.ContigsPrefix | src/core/collection_v1.cpp:29-53 | writing one more contig appends its bytes |
| CollectionV1.WfNames | src/core/collection_v1.cpp:20-25 | every name in the original order has contigs, and listing them in order covers every sample |
| CollectionV1.AppendSample | src/core/collection_v1.cpp:26-53 | writes one sample as the format describes |
| CollectionV1.AppendContig | src/core/collection_v1.cpp:31-52 | writes one contig as the format describes |
| CollectionV1.AppendSegments | src/core/collection_v1.cpp:34-52 | the segment loop writes the delta-coded segments, starting from zero previous values |
| CollectionV1.AppendCmds | src/core/collection_v1.cpp:56-65 | the command loop writes the format's command lines |
| CollectionV1.DecContigsStep | src/core/collection_v1.cpp:97-140 | the contig loop reads one contig and continues |
| CollectionV1.LoadedStep | src/core/collection_v1.cpp:83-141 | one more sample read keeps the loaded state equal to what the samples read so far describe |
| CollectionV1.SamplesAhead | src/core/collection_v1.cpp:83-141 | while samples remain, the next one can be read |
| CollectionV1.SamplesAdvance | src/core/collection_v1.cpp:83-141 | reading the next sample moves the loop forward |
| CollectionV1.DecSamplesZero | src/core/collection_v1.cpp:83 | reading zero samples consumes nothing |
| CollectionV1.DecSamplesStep | src/core/collection_v1.cpp:83-141 | the sample loop reads one sample and continues |
| CollectionV1.DecCmdsStep | src/core/collection_v1.cpp:151-155 | the command loop reads one command line and continues |
| CollectionV1.ReadSegments | src/core/collection_v1.cpp:118-139 | the segment loop reads what the format describes |
| CollectionV1.ReadContigHead | src/core/collection_v1.cpp:99-101 | reads a contig's name and segment count, after which its segments follow |
| CollectionV1.CollectionParts | src/core/collection_v1.cpp:69-160 | a readable collection splits into sample count, samples, command count and command lines |
| CollectionV1.ReadSampleHead | src/core/collection_v1.cpp:85-90 | reads a sample's name and contig count, after which its contigs follow |
| CollectionV1.ReadCmds | src/core/collection_v1.cpp:144-155 | the command loop reads what the format describes |
| CollectionV1.IdsOfKeys | src/core/collection_v1.cpp:97-107 | loading a sample's contigs adds only pairs of that sample with indexes below its contig count |
| CollectionV1.IdsOfLast | src/core/collection_v1.cpp:97-107 | after loading, each contig's pair points at the last contig of that short name, with its segment count |
| CollectionV1.WfLoadStep | src/core/collection_v1.cpp:83-141 | loading a sample whose name is new keeps ids, order and contig ids in agreement |
| CollectionV1.WfLoaded | src/core/collection_v1.cpp:69-160 | loading samples with distinct names gives a consistent collection |
| CollectionV1.BelowGrow | src/core/collection_v1.cpp:163-171 | adding the sample with the next id extends the ids below it by one |
| CollectionV1.InOrderPrefix | src/core/collection_v1.cpp:20-25 | listing one more sample in order appends it |
| CollectionV1.OrderedAt | src/core/collection_v1.cpp:163-171 | the k-th name of the original order has id k, and no other sample does |
| CollectionV1.ColSnoc | src/core/collection_v1.cpp:92-135 | loading a sample not loaded before adds its contigs under its name as read |
| CollectionV1.IdsSnoc | src/core/collection_v1.cpp:94-95 | loading one more sample gives it the next sample id |
| CollectionV1.RestoredCol | src/core/collection_v1.cpp:14-160 | reloading the first k samples in order gives the contigs of the samples with id below k |
| CollectionV1.BelowSize | src/core/collection_v1.cpp:163-171 | exactly k samples have an id below k |
| CollectionV1.RestoredIds | src/core/collection_v1.cpp:14-160 | reloading the first k samples in order gives them the same ids they had |
| CollectionV1.Restored | src/core/collection_v1.cpp:14-160 | the samples in original order have distinct names and reload to the same contigs and ids |
| CollectionV1.SerializeDeserialize | src/core/collection_v1.cpp:14-160 | deserializing what serialize wrote restores every sample's contigs, the sample ids and order, and the stored command lines |
| CollectionV1.ReadSegment | src/core/collection_v1.cpp:126-136 | reads one segment's four numbers and rebuilds it from the previous values |
| CollectionV1.ReadCollection | src/core/collection_v1.cpp:69-160 | reads the whole collection and loads exactly what the bytes describe |
| CollectionV1.ReadSamples | src/core/collection_v1.cpp:83-141 | the sample loop loads exactly the samples the bytes describe, a repeated sample name having its segments appended to the slots it already has |
| CollectionV1.ReadSample | src/core/collection_v1.cpp:85-140 | reads one sample and files each of its contigs |
| CollectionV1.ReadContigs | src/core/collection_v1.cpp:97-140 | the contig loop reads the contigs and files each (sample, short name) pair and contig-to-sample entry |
| NameSplit.Marker | src/core/collection_v3.cpp:391-412 | a repetition marker of n equal bytes is the byte -n, at or above 0x9C for n up to 100 |
| NameSplit.Find | src/core/collection_v3.cpp:357 | find returns the position of the first space at or after p, or the end |
| NameSplit.FindFirst | src/core/collection_v3.cpp:357 | no space lies between the start position and the one find returns |
| NameSplit.FindUnique | src/core/collection_v3.cpp:357 | any position with no space before it and a space (or the end) at it is the one find returns |
| NameSplit.SplitFrom | src/core/collection_v3.cpp:350-366 | splitting always yields at least one component |
| NameSplit.Split | src/core/collection_v3.cpp:350-366 | split_string always yields at least one component |
| NameSplit.JoinCons | src/core/collection_v3.cpp:415-418 | joining puts one space between consecutive components |
| NameSplit.JoinSplitFrom | src/core/collection_v3.cpp:350-366 | joining the components split from position p with spaces rebuilds the string from p |
| NameSplit.JoinSplit | src/core/collection_v3.cpp:350-366 | joining the components of split_string(s) with single spaces rebuilds s |
| NameSplit.SplitFromCons | src/core/collection_v3.cpp:355-363 | a space-free component followed by a space is split off and splitting continues after the space |
| NameSplit.SplitFromLast | src/core/collection_v3.cpp:357-360 | a space-free rest is the last component |
| NameSplit.SplitFromJoin | src/core/collection_v3.cpp:350-366 | splitting the join of space-free components after any prefix gives those components back |
| NameSplit.SplitJoin | src/core/collection_v3.cpp:350-366 | split_string of space-free components joined with spaces gives the components back |
| NameSplit.SplitFromCount | src/core/collection_v3.cpp:350-366 | the number of components split from p is the number of spaces after p plus one |
| NameSplit.CountPast | src/core/collection_v3.cpp:357-362 | passing the first space counts one space |
| NameSplit.SplitCount | src/core/collection_v3.cpp:350-366 | split_string yields one more component than the string has spaces |
| NameSplit.SplitFromSpaceFree | src/core/collection_v3.cpp:357-358 | no component split from p holds a space |
| NameSplit.SplitSpaceFree | src/core/collection_v3.cpp:357-358 | no component of split_string holds a space |
| NameSplit.SplitString | src/core/collection_v3.cpp:350-366 | the find-and-cut loop computes Split |
| NameSplit.DiffFrom | src/core/collection_v3.cpp:387-412 | the difference coding of equal-length components is at most twice as long as the rest plus one |
| NameSplit.DiffFromBytes | src/core/collection_v3.cpp:387-412 | every byte of the difference coding is a marker or a byte of the current component |
| NameSplit.EncodeComponents | src/core/collection_v3.cpp:373-416 | each component is coded against the component at the same place in the previous name |
| NameSplit.DecodeComponents | src/core/collection_v3.cpp:429-461 | decoding yields one component per coded one |
| NameSplit.DecodeSplit | src/core/collection_v3.cpp:424-466 | decode_split returns the decoded components joined by single spaces |
| NameSplit.DecodeAscii | src/core/collection_v3.cpp:442-448 | a coding with no marker byte decodes to itself |
| NameSplit.MarkerStep | src/core/collection_v3.cpp:449-453 | a marker -n copies the next n bytes of the previous component |
| NameSplit.LiteralStep | src/core/collection_v3.cpp:444-448 | a byte below 0x80 is copied and moves past one byte of the previous component |
| NameSplit.DiffRoundTrip | src/core/collection_v3.cpp:387-454 | decoding the difference coding against the previous component restores the current one, from any run state |
| NameSplit.FullRunRoundTrip | src/core/collection_v3.cpp:389-395 | the round trip holds where a run of 100 equal bytes is flushed |
| NameSplit.MismatchRoundTrip | src/core/collection_v3.cpp:399-408 | the round trip holds where a differing byte flushes the run and is stored |
| NameSplit.DiffFromMismatch | src/core/collection_v3.cpp:399-408 | a differing byte is written after the marker of the pending run, and the run restarts at zero |
| NameSplit.LiteralThen | src/core/collection_v3.cpp:444-448 | a stored byte decodes to itself in front of the rest |
| NameSplit.MarkerThen | src/core/collection_v3.cpp:449-453 | a marker decodes to the run of equal bytes in front of the rest |
| NameSplit.ComponentRoundTrip | src/core/collection_v3.cpp:375-458 | decoding the coding of a 7-bit component against the previous one gives it back, whether it was the same-component marker, stored verbatim or difference-coded |
| NameSplit.ComponentsRoundTrip | src/core/collection_v3.cpp:373-461 | decoding all coded components restores all current components |
| NameSplit.EncodedSpaceFree | src/core/collection_v3.cpp:373-416 | coded components of space-free components hold no space, so the coded name splits into them again |
| NameSplit.SplitRoundTrip | src/core/collection_v3.cpp:369-466 | encode_split joins the coded components with spaces; decode_split(prev, split_string(encode_split(prev, curr))) rebuilds the joined name and its components when both have the same number of components |
| NameSplit.MarkersBounded | src/core/collection_v3.cpp:391-395 | every marker byte in a difference coding stands for 1 to 100 bytes |
| NameSplit.EncodeNames | src/core/collection_v3.cpp:484-494 | one coding per contig name |
| NameSplit.DecodeNames | src/core/collection_v3.cpp:520-532 | decoding yields one name per coding |
| NameSplit.SplitFromAscii | src/core/collection_v3.cpp:350-366 | the components of a 7-bit string are 7-bit |
| NameSplit.SplitAscii | src/core/collection_v3.cpp:350-366 | the components of a 7-bit string are 7-bit |
| NameSplit.NamesRoundTrip | src/core/collection_v3.cpp:469-537 | the contig names of a sample, each stored verbatim or coded against the previous name's components, are read back unchanged |
| NameSplit.JoinSnoc | src/core/collection_v3.cpp:415-418 | one more component adds a space and the component |
| NameSplit.TerminatedJoin | src/core/collection_v3.cpp:415-418 | removing the final space leaves the components joined by single spaces |
| NameSplit.EncodeDiff | src/core/collection_v3.cpp:381-412 | the run-counting loop computes the difference coding |
| NameSplit.DiffFromEqual | src/core/collection_v3.cpp:389-397 | an equal byte extends the run, and a full run of 100 is flushed first |
| NameSplit.DiffFromEnd | src/core/collection_v3.cpp:411-412 | at the end a pending run is flushed as one marker |
| NameSplit.EncodeSplitString | src/core/collection_v3.cpp:369-421 | encode_split's loop writes the coded components separated by single spaces |
| NameSplit.DecodeDiffString | src/core/collection_v3.cpp:439-454 | the decoding loop computes the decoded component |
| NameSplit.DecodeComponentString | src/core/collection_v3.cpp:431-458 | decodes one component |
| NameSplit.TerminatedSnoc | src/core/collection_v3.cpp:415-460 | each component is followed by a space |
| NameSplit.DecodeComponentsStep | src/core/collection_v3.cpp:429-461 | decoding proceeds one component at a time |
| NameSplit.DecodeSplitString | src/core/collection_v3.cpp:424-466 | decode_split's loop computes the joined name and the decoded components |
| CollectionV3.LexTotal | src/core/collection_v3.cpp:826 | the byte-wise order of names that std::sort uses is total |
| CollectionV3.Insert | src/core/collection_v3.cpp:826 | inserting a name adds exactly that name |
| CollectionV3.InsertSorted | src/core/collection_v3.cpp:826 | inserting into a sorted list keeps it sorted |
| CollectionV3.Sort | src/core/collection_v3.cpp:826 | sorting is a permutation |
| CollectionV3.SortSorted | src/core/collection_v3.cpp:826 | sorting gives a sorted list |
| CollectionV3.Names | src/core/collection_v3.cpp:823-824 | the names of the samples, in registration order |
| CollectionV3.FindContig | src/core/collection_v3.cpp:759-770 | the index of the first contig with exactly that full name, or none |
| CollectionV3.IndexedAppend | src/core/collection_v3.cpp:723-725 | a new sample gets the next id, equal to its place in the sample list |
| CollectionV3.IndexedUpdate | src/core/collection_v3.cpp:759-766 | changing a sample's contigs keeps every sample at its id |
| CollectionV3.CollectionV3.constructor | src/core/collection_v3.h:195-205 | a new collection has no samples and no previous sample name |
| CollectionV3.CollectionV3.RegisterSampleContig | src/core/collection_v3.cpp:707-733 | succeeds iff the sample is the previous one or has never been registered; a new sample gets the next id and becomes the previous one; on success the contig is appended to the last sample; on failure nothing changes |
| CollectionV3.CollectionV3.ResetPrevSampleName | src/core/collection_v3.cpp:736-741 | clears the previous sample name and changes nothing else |
| CollectionV3.CollectionV3.AddSegmentPlaced | src/core/collection_v3.cpp:744-771 | the segment lands in slot place of the sample's first contig with that full name, the list grows with default entries when needed; with no such contig nothing changes |
| CollectionV3.CollectionV3.GetReferenceName | src/core/collection_v3.cpp:803-813 | fails iff there is no sample; otherwise returns the sample with id 0 |
| CollectionV3.CollectionV3.GetSamplesList | src/core/collection_v3.cpp:816-829 | returns every sample name, each once per sample, sorted |
| CollectionV3.FindContigIndex | src/core/collection_v3.cpp:759-770 | the search loop computes FindContig |
| CollectionV3.FindContigFirst | src/core/collection_v3.cpp:759-770 | the first contig with the name is the one found |
| CollectionV3.FindContigNone | src/core/collection_v3.cpp:759-770 | with no contig of that name nothing is found |
| CollectionV3.InGroupRoundTrip | src/core/collection_v3.cpp:558-666 | the in-group id survives its coding against the last in-group id of its group; the id following the last one is coded as 1 |
| CollectionV3.LastInGroup | src/core/collection_v3.h:128-133 | the last in-group id recorded for a group, or -1 |
| CollectionV3.OneRoundTrip | src/core/collection_v3.cpp:556-676 | one segment's group id, in-group id, raw length and orientation are restored from its codes |
| CollectionV3.EncodeDetails | src/core/collection_v3.cpp:540-587 | one code per segment |
| CollectionV3.DecodeDetails | src/core/collection_v3.cpp:590-680 | one segment per code |
| CollectionV3.DetailsRoundTrip | src/core/collection_v3.cpp:540-680 | deserialize_contig_details restores every segment that serialize_contig_details coded, with the in-group table rebuilt in step |
| CollectionV3.EncodeDetailsStep | src/core/collection_v3.cpp:556-583 | coding proceeds one segment at a time, updating the in-group table |
| CollectionV3.DecodeDetailsStep | src/core/collection_v3.cpp:645-676 | decoding proceeds one segment at a time, updating the in-group table |
| CollectionV3.SerializeContigDetails | src/core/collection_v3.cpp:540-587 | the coding loop computes EncodeDetails from an empty table, predicting raw lengths from segment_size + kmer_length taken modulo 2^32 |
| CollectionV3.DeserializeContigDetails | src/core/collection_v3.cpp:590-680 | the decoding loop computes DecodeDetails from an empty table, with the same 32-bit prediction |
| Segment.SchemeFits | src/common/segment.h:80-85 | NO_BYTES symbols below MULT pack into one byte for each of the three schemes (4 of base 4, 3 of base 6, 2 of base 16) |
| Segment.Pack | src/common/segment.h:126-133 | packing n symbols below MULT gives a value below MULT^n |
| Segment.LowDigit | src/common/segment.h:154-166 | the last symbol of a packed byte is c % MULT |
| Segment.DropDigit | src/common/segment.h:155-167 | dropping the last symbol never increases the value |
| Segment.Unpack | src/common/segment.h:152-168 | unpacking a byte yields exactly n symbols |
| Segment.DivModDigit | src/common/segment.h:126-155 | c * MULT + d unpacks to c and d |
| Segment.UnpackPack | src/common/segment.h:126-156 | unpacking a packed tuple gives its symbols back |
| Segment.MaxByteIsMax | src/common/segment.h:75-78 | the maximum symbol bounds every symbol and occurs in a non-empty input (0 for an empty one) |
| Segment.MaxByteBelow | src/common/segment.h:80-85 | the maximum is below b iff every symbol is |
| Segment.Width | src/common/segment.h:80-90 | the tuple width chosen from the maximum symbol: 4 below 4, 3 below 6, 2 below 16, 1 otherwise |
| Segment.WidthScheme | src/common/segment.h:80-85 | the chosen width and base fit every symbol of the input |
| Segment.Ungroup | src/common/segment.h:142-169 | tuples2bytes_impl yields exactly output_size symbols |
| Segment.OutputSize | src/common/segment.h:96-99 | the output size computed from the marker fits in 32 bits |
| Segment.ReadsOfSize | src/common/segment.h:96-159 | a marker of width 2 to 4 announces no more tuples than there are |
| Segment.PartialLength | src/common/segment.h:161 | the length of the partial tuple is below the width |
| Segment.ModScale | src/common/segment.h:137-161 | the partial length is the remainder of the size by the width |
| Segment.UngroupCons | src/common/segment.h:148-157 | unpacking proceeds one whole tuple at a time |
| Segment.UngroupEncoded | src/common/segment.h:115-169 | unpacking the tuples of a symbol string restores it |
| Segment.EncodedFromShape | src/common/segment.h:122-137 | the tuple code holds one byte per whole tuple, one partial tuple and the marker |
| Segment.MarkerFields | src/common/segment.h:97-137 | the marker stores the width in its high half and the partial length in its low half |
| Segment.OutputSizeOf | src/common/segment.h:96-99 | the size read back is (tuples - 2) * width + partial length |
| Segment.EncodedSize | src/common/segment.h:96-138 | the code of a packed input has the announced shape and its marker announces the input length |
| Segment.EncodedRoundTrip | src/common/segment.h:94-169 | the code of a packed input is well formed and unpacks to the input |
| Segment.DecodeEncoded | src/common/segment.h:94-169 | tuples2bytes(bytes2tuples_impl(v)) == v for every packing scheme that fits v |
| Segment.TupleRoundTrip | src/common/segment.h:73-111 | tuples2bytes(bytes2tuples(v)) == v for every input shorter than 2^32 |
| Segment.TupleCodeShape | src/common/segment.h:73-137 | an input with a symbol of 16 or more is stored as is with marker 0x10; otherwise as |v| / width + 2 bytes ending in the marker |
| Segment.EncodedShape | src/common/segment.h:115-138 | the code holds |v| / width + 2 bytes and ends in width * 16 + |v| % width |
| Segment.PackSnoc | src/common/segment.h:126-133 | adding one symbol to a tuple multiplies by MULT and adds it, staying below 256 |
| Segment.EncodedStep | src/common/segment.h:122-130 | the first whole tuple is packed and the rest coded after it |
| Segment.PackTuple | src/common/segment.h:124-133 | the inner loop packs the symbols of one tuple |
| Segment.WholeTuples | src/common/segment.h:122-130 | the first loop emits the whole tuples and stops with fewer than NO_BYTES symbols left |
| Segment.Bytes2TuplesImpl | src/common/segment.h:115-138 | bytes2tuples_impl computes the tuple code of the input |
| Segment.Bytes2Tuples | src/common/segment.h:73-91 | bytes2tuples computes the tuple code with the scheme the maximum symbol selects |
| Segment.WriteDigits | src/common/segment.h:152-168 | writes the symbols of one tuple into their slots and leaves the rest of the buffer alone |
| Segment.Unpacked | src/common/segment.h:148-157 | i whole tuples unpack to i * width symbols |
| Segment.UngroupSplit | src/common/segment.h:148-168 | unpacking splits into the whole tuples and the rest |
| Segment.UnpackWhole | src/common/segment.h:146-157 | the first loop fills the buffer with the whole tuples and stops with fewer than NO_BYTES slots left |
| Segment.Tuples2BytesImpl | src/common/segment.h:142-169 | tuples2bytes_impl unpacks output_size symbols |
| Segment.Tuples2Bytes | src/common/segment.h:94-111 | tuples2bytes decodes any well-formed tuple code |
| Segment.ReserveWraps | src/common/segment.h:117 | for an input of at most NO_BYTES symbols the reservation as written asks for more than 2^61 bytes |
| Segment.TupleCapacityExact | src/common/segment.h:117-137 | the intended reservation, |v| / NO_BYTES + 2, is exactly the length of the code |
| Segment.DeltaPackAppend | src/common/segment.h:270-274 | packing two lists of items one after the other is packing their concatenation |
| Segment.DeltaPackLength | src/common/segment.h:262-274 | the pack holds every item's bytes plus one separator per item |
| Segment.DeltaPackItem | src/common/segment.h:270-274 | item k sits in the pack after the items before it, followed by the 0xFF separator |
| Segment.BuildPack | src/common/segment.h:258-274 | the packing loop builds the pack |
| SegParts.LexLessDistinct | src/core/agc_compressor.h:62 | string comparison is irreflexive: a string never comes before itself |
| SegParts.LexTransitive | src/core/agc_compressor.h:62 | string comparison is transitive |
| SegParts.LexTrichotomy | src/core/agc_compressor.h:62 | of two different strings one comes before the other |
| SegParts.BeforeTransitive | src/core/agc_compressor.h:60-67 | seg_part_t's operator< is transitive |
| SegParts.BeforeTotal | src/core/agc_compressor.h:60-67 | two parts are ordered one way or the other exactly when their sample name, contig name and part number differ |
| SegParts.EmplaceHead | src/core/agc_compressor.h:204 | after emplace the set's first part is the new one or the old first one |
| SegParts.EmplaceOrdered | src/core/agc_compressor.h:204 | emplace keeps the set ordered |
| SegParts.OrderedFirst | src/core/agc_compressor.h:60-67 | the first part of an ordered set comes before every other part |
| SegParts.BeforeAll | src/core/agc_compressor.h:60-67 | a part coming before the first of an ordered set has no equal-keyed part in it |
| SegParts.EmplaceContents | src/core/agc_compressor.h:204 | emplace leaves the set alone when a part with the same key is there and otherwise adds exactly the new part |
| SegParts.IdsFresh | src/core/agc_compressor.h:218-229 | process_new gives the new pairs of splitters distinct ids, consecutive from the old group count, one to every pair in the set |
| SegParts.IdsGrow | src/core/agc_compressor.h:218-229 | ids once given are never changed by later parts |
| SegParts.PartsUpdate | src/core/agc_compressor.h:175 | replacing one group's list changes the buffered parts by that list only |
| SegParts.PartsSplit | src/core/agc_compressor.h:175 | the buffered parts are the other groups' parts plus one group's list |
| SegParts.PartsEmpty | src/core/agc_compressor.h:233 | adding empty groups adds no parts |
| SegParts.Placed | src/core/agc_compressor.h:235-239 | placing new parts never changes the number of groups |
| SegParts.AppendParts | src/core/agc_compressor.h:132-141 | appending to one list adds exactly that part |
| SegParts.SliceMultiset | src/core/agc_compressor.h:235-239 | one more part of the set adds that part |
| SegParts.PlacedWhere | src/core/agc_compressor.h:235-239 | each new part ends up on the list of its pair's id |
| SegParts.Target | src/core/agc_compressor.h:249-263 | the destination in distribute_segments stays within [dest_id_from, dest_id_to) |
| SegParts.TargetStarts | src/core/agc_compressor.h:249-263 | the first round goes to dest_id_from and the lists after it in turn |
| SegParts.TargetCycles | src/core/agc_compressor.h:261-262 | the destination wraps around with period dest_id_to - dest_id_from |
| SegParts.DistributedMoves | src/core/agc_compressor.h:251-263 | no more parts are moved than rounds taken |
| SegParts.Distributed | src/core/agc_compressor.h:246-264 | distribution keeps the number of groups and shortens the source by the parts moved |
| SegParts.TakeParts | src/core/agc_compressor.h:158-166 | popping the front part removes just that part |
| SegParts.MoveParts | src/core/agc_compressor.h:257-258 | moving a part from the source to another list keeps the buffered parts |
| SegParts.DistributedParts | src/core/agc_compressor.h:246-264 | distribute_segments neither loses nor duplicates a part |
| SegParts.DistributedSource | src/core/agc_compressor.h:246-264 | the source list keeps its last parts, as many as the rounds in which it was its own destination |
| SegParts.BufferedSegPart.constructor | src/core/agc_compressor.h:184-187 | the buffer starts with no_raw_groups groups, each an empty list, and no new parts |
| SegParts.BufferedSegPart.Resize | src/core/agc_compressor.h:191-194 | resize keeps the first groups, drops those beyond the count and adds empty ones |
| SegParts.BufferedSegPart.AddKnown | src/core/agc_compressor.h:196-199 | add_known appends the part to its group's list and changes nothing else |
| SegParts.BufferedSegPart.AddNew | src/core/agc_compressor.h:201-205 | add_new emplaces the part in the ordered set of new parts |
| SegParts.BufferedSegPart.ProcessNew | src/core/agc_compressor.h:219-244 | process_new returns the number of new pairs, adds that many groups, moves every new part to its pair's group and empties the set, keeping all parts |
| SegParts.BufferedSegPart.DistributeSegments | src/core/agc_compressor.h:246-264 | distribute_segments moves the source's parts round-robin over the destination range |
| SegParts.BufferedSegPart.Clear | src/core/agc_compressor.h:266-274 | clear empties the set and every group list, keeping the number of groups |
| SegParts.BufferedSegPart.GetPart | src/core/agc_compressor.h:291-308 | get_part fails on an unknown or empty group and otherwise pops the front part of the group |
| SegParts.NumberPairs | src/core/agc_compressor.h:218-231 | the id-assigning loop computes the ids and the next free id |
| SegParts.PlaceParts | src/core/agc_compressor.h:233-239 | the add_known loop places every new part and keeps all parts |
| SegParts.ProcessNewKeepsParts | src/core/agc_compressor.h:219-244 | after process_new every new part sits in a new group, the one of its pair |
| Compressor.RunEnd | src/core/agc_compressor.cpp:586-587 | the inner loop's j lies past i and within the vector |
| Compressor.RunEndShape | src/core/agc_compressor.cpp:586-587 | every value from i to j equals vec[i], and vec[j] differs or j is the end |
| Compressor.RunEndIs | src/core/agc_compressor.cpp:586-587 | any such j is the one the loop finds |
| Compressor.RunCount | src/core/agc_compressor.cpp:586-587 | a run of x counts its length in copies of x and nothing else |
| Compressor.AfterRun | src/core/agc_compressor.cpp:583-593 | in a sorted vector a value does not occur after its run |
| Compressor.RunSplit | src/core/agc_compressor.cpp:583-593 | the count of a value splits into its count in the first run and in the rest |
| Compressor.SinglesOccurOnce | src/core/agc_compressor.cpp:579-596 | in a sorted vector a value is kept iff it occurs exactly once after virtual_begin |
| Compressor.RepeatsOccurTwice | src/core/agc_compressor.cpp:599-619 | in a sorted vector a value is listed as duplicated iff it occurs at least twice after virtual_begin |
| Compressor.KeptAbove | src/core/agc_compressor.cpp:583-593 | kept and duplicated values are among the values scanned |
| Compressor.FiltersIncreasing | src/core/agc_compressor.cpp:579-619 | the kept and the duplicated values of a sorted vector are strictly increasing |
| Compressor.FindRunEnd | src/core/agc_compressor.cpp:586-587 | the inner loop computes RunEnd |
| Compressor.KeepStep | src/core/agc_compressor.cpp:589-590 | a value whose run has length one is moved down to curr_end |
| Compressor.SkipStep | src/core/agc_compressor.cpp:592 | a longer run is skipped whole |
| Compressor.SkipSingles | src/core/agc_compressor.cpp:589-592 | a longer run adds nothing to the kept values |
| Compressor.KeepRepeats | src/core/agc_compressor.cpp:610-613 | a run of length one adds nothing to the duplicated values |
| Compressor.SkipRepeats | src/core/agc_compressor.cpp:612-613 | a longer run adds its value once to the duplicated values |
| Compressor.CompactedEnd | src/core/agc_compressor.cpp:595 | after the loop the vector's first curr_end values are the untouched prefix followed by the singletons |
| Compressor.RepeatStep | src/core/agc_compressor.cpp:604-616 | the collecting loop appends the value of each longer run |
| Compressor.RemoveNonSingletons | src/core/agc_compressor.cpp:579-596 | the vector keeps its first virtual_begin values followed by the values occurring once after them, in order |
| Compressor.RemoveNonSingletonsCollecting | src/core/agc_compressor.cpp:599-619 | the same compaction, and v_duplicated lists one copy of each value occurring more than once |
| Compressor.PreprocessedShorter | src/core/agc_compressor.cpp:801-843 | preprocessing never lengthens a contig |
| Compressor.PreprocessedConcat | src/core/agc_compressor.cpp:801-843 | preprocessing works symbol by symbol: the result of a concatenation is the concatenation of the results |
| Compressor.PreprocessedByte | src/core/agc_compressor.cpp:813-814 | a byte below 64 is dropped and any other is replaced by its cnv_num code |
| Compressor.PreprocessRawContig | src/core/agc_compressor.cpp:801-843 | the contig is compacted in place to the codes of its bytes of 64 and above, in order |
| Compressor.GetPart | src/core/agc_compressor.cpp:1507-1513 | get_part returns len symbols from pos, or the rest of the contig when it is shorter, each equal to the contig's symbol at that position |
| Compressor.PartsJoin | src/core/agc_compressor.cpp:1507-1513 | two adjacent parts make up the part spanning both |
| Compressor.BinarySearch | src/core/agc_compressor.cpp:702 | binary_search on the sorted candidates answers whether the value is among them |
| Compressor.RunOf | src/core/agc_compressor.cpp:564-575 | the nucleotides since the last symbol above 3 |
| Compressor.RunOfShape | src/core/agc_compressor.cpp:564-575 | the run is the symbols just before i, preceded by a symbol above 3 or the start |
| Compressor.RunOfReaches | src/core/agc_compressor.cpp:564-575 | the run holds at least k symbols iff the last k symbols are all nucleotides |
| Compressor.KmerWindow | src/core/agc_compressor.cpp:570-573 | the k-mer emitted after a symbol covers exactly the last k symbols |
| Compressor.KmersCount | src/core/agc_compressor.cpp:557-575 | a contig shorter than k gives no k-mers and never more than one per position from k on |
| Compressor.EnumerateKmers | src/core/agc_compressor.cpp:551-576 | enumerate_kmers lists, after each nucleotide completing a run of at least k, the canonical k-mer of the last k symbols |
| Compressor.EnumerateStep | src/core/agc_compressor.cpp:564-575 | one symbol resets the register or inserts into it and emits the k-mer when full |
| Compressor.CanonicalData | src/core/agc_compressor.cpp:573 | the register's data is the canonical value of its window |
| Compressor.ScanStep | src/core/agc_compressor.cpp:686-714 | one symbol of find_splitters_in_contig keeps the register at most k symbols |
| Compressor.ScanTo | src/core/agc_compressor.cpp:686-714 | the scan of a prefix keeps the register at most k symbols |
| Compressor.LastCandidate | src/core/agc_compressor.cpp:717-722 | at most one k-mer, the last recent one that is a candidate, is added at the end |
| Compressor.ScanCandidates | src/core/agc_compressor.cpp:698-708 | every splitter taken during the scan is a candidate |
| Compressor.LastCandidateIs | src/core/agc_compressor.cpp:717-722 | the final k-mer is a recent one and a candidate |
| Compressor.SplittersAreCandidates | src/core/agc_compressor.cpp:677-723 | every splitter find_splitters_in_contig appends is a candidate k-mer |
| Compressor.FindSplittersInContig | src/core/agc_compressor.cpp:677-723 | the splitters are appended after the existing ones, as the scan specification describes |
| Compressor.SplitterStep | src/core/agc_compressor.cpp:686-714 | one loop iteration advances the scan state by one symbol |
| Compressor.RightmostCandidate | src/core/agc_compressor.cpp:717-722 | the backward search computes LastCandidate |
| Decompressor.BoundsOrdered | src/common/agc_decompressor_lib.cpp:185-220 | after normalisation 0 <= from <= to <= 2^63-1, and a range already in that form is kept |
| Decompressor.BoundsIdempotent | src/common/agc_decompressor_lib.cpp:185-220 | normalising twice is normalising once |
| Decompressor.StoredRangeSameBounds | src/common/agc_decompressor_lib.cpp:196-219 | the range written back into the query record normalises like the request; it is the request, (-1, -1) for crossed ends, or the clamped range |
| Decompressor.AdvanceWraps | src/common/agc_decompressor_lib.cpp:226-247 | seg_len - kmer_length is taken modulo 2^32 |
| Decompressor.OrientedLength | src/common/agc_decompressor_lib.cpp:242-243 | reverse-complementing keeps the length |
| Decompressor.TrimmedSuffix | src/common/agc_decompressor_lib.cpp:260-268 | a later segment contributes all but its first k symbols, or nothing when shorter than k |
| Decompressor.JoinedStart | src/common/agc_decompressor_lib.cpp:258 | the join starts with the whole first segment |
| Decompressor.JoinedPrefix | src/common/agc_decompressor_lib.cpp:258-271 | joining more segments extends the join |
| Decompressor.JoinedShift | src/common/agc_decompressor_lib.cpp:258-271 | the join depends only on the segments joined |
| Decompressor.JoinedSlice | src/common/agc_decompressor_lib.cpp:258-271 | joining a slice is joining that range |
| Decompressor.JoinedSkipFirst | src/common/agc_decompressor_lib.cpp:258-271 | with overlapping segments, the join is the first segment without its last k symbols followed by the join of the rest |
| Decompressor.JoinedStep | src/common/agc_decompressor_lib.cpp:266-268 | one more segment of at least k symbols adds its length less k |
| Decompressor.SpanCons | src/common/agc_decompressor_lib.cpp:247 | the distance covered by segments is the sum of their 32-bit advances |
| Decompressor.SelectRun | src/common/agc_decompressor_lib.cpp:224-248 | once a segment is kept, the following ones are kept until one starts after to |
| Decompressor.SelectKeepFirst | src/common/agc_decompressor_lib.cpp:228-245 | a segment that reaches from is kept, and the kept run ends at the last segment or before one past to |
| Decompressor.JoinedSpan | src/common/agc_decompressor_lib.cpp:247-268 | the join of segments of their raw lengths is their span plus k |
| Decompressor.SelectBounds | src/common/agc_decompressor_lib.cpp:224-248 | when something is kept, the shifted from lies within the first kept segment and from <= to |
| Decompressor.WindowShift | src/common/agc_decompressor_lib.cpp:228-232 | skipping a prefix shifts the window by its length |
| Decompressor.CutWindow | src/common/agc_decompressor_lib.cpp:273-277 | cutting a run that covers the window gives the window of the whole contig |
| Decompressor.RunCovers | src/common/agc_decompressor_lib.cpp:224-248 | the kept run reaches past to, or the contig ends |
| Decompressor.RunWindow | src/common/agc_decompressor_lib.cpp:250-278 | cutting the kept run gives the window of the rest of the contig |
| Decompressor.KeptJoin | src/common/agc_decompressor_lib.cpp:224-248 | the join of the kept segments is the join of that range of the contig |
| Decompressor.KeepWindow | src/common/agc_decompressor_lib.cpp:224-278 | when the first remaining segment reaches from, the result is the window of the rest of the contig |
| Decompressor.SkipWindow | src/common/agc_decompressor_lib.cpp:228-232 | skipping a segment that ends before from shifts both ends by its advance and keeps the window |
| Decompressor.SelectWindow | src/common/agc_decompressor_lib.cpp:224-278 | from any segment, the selection cut at the shifted bounds is the window of the rest of the contig |
| Decompressor.NothingLeft | src/common/agc_decompressor_lib.cpp:250-280 | with no segments left the result is empty |
| Decompressor.KeepMatches | src/common/agc_decompressor_lib.cpp:224-278 | the case where the current segment is kept |
| Decompressor.LastSkipped | src/common/agc_decompressor_lib.cpp:224-280 | when even the last segment ends before from the result is empty |
| Decompressor.SkipMatches | src/common/agc_decompressor_lib.cpp:228-232 | the case where the current segment is skipped |
| Decompressor.DecompressedIsWindow | src/common/agc_decompressor_lib.cpp:172-286 | decompress_contig yields the symbols from..to (clipped) of the whole joined contig, for every requested range |
| Decompressor.SpanRawSum | src/common/agc_decompressor_lib.cpp:247 | the span is the raw sum less k per segment, plus 2^32 for each wrapped advance |
| Decompressor.EmptyContigLengthAsWritten | src/common/agc_decompressor_lib.cpp:164-168 | as written, a contig with no segments has length kmer_length |
| Decompressor.ContigLengthIsJoined | src/common/agc_decompressor_lib.cpp:164-271 | the intended length, sum of raw lengths less k per overlap and 0 with no segments, is the length of the joined contig |
| Decompressor.ContigLengthAsWritten | src/common/agc_decompressor_lib.cpp:164-168 | the length as written is the 64-bit difference of the summed raw lengths and (size() - 1) * kmer_length, read back as an int64_t |
| Decompressor.NoWraps | src/common/agc_decompressor_lib.cpp:247 | no advance wraps when every segment holds at least k symbols |
| Decompressor.ContigLengthAsWrittenAgrees | src/common/agc_decompressor_lib.cpp:164-168 | for a non-empty consistent contig the length as written equals the intended length |
| Decompressor.ConsistentCovers | src/common/agc_decompressor_lib.cpp:164-168 | the raw lengths of a consistent contig cover the overlaps |
| Decompressor.AsWrittenNoWrap | src/common/agc_decompressor_lib.cpp:164-168 | the as-written arithmetic does not wrap for a non-empty contig whose lengths cover the overlaps |
| Decompressor.SubtrahendNoWrap | src/common/agc_decompressor_lib.cpp:168 | (size() - 1) * kmer_length does not wrap for a non-empty contig whose lengths cover it |
| Decompressor.RawSumCovers | src/common/agc_decompressor_lib.cpp:165-166 | segments of at least k symbols sum to at least k per segment |
| Decompressor.DecompressContig | src/common/agc_decompressor_lib.cpp:172-286 | returns what the range theorem describes and stores the normalised range back |
| Decompressor.NormaliseRange | src/common/agc_decompressor_lib.cpp:185-220 | computes the bounds and the range to store back |
| Decompressor.ChooseSegments | src/common/agc_decompressor_lib.cpp:224-248 | the segment loop computes Select: the kept segments and the shifted bounds |
| Decompressor.DecodeOriented | src/common/agc_decompressor_lib.cpp:237-243 | decodes a segment and reverse-complements it when flagged |
| Decompressor.JoinSegments | src/common/agc_decompressor_lib.cpp:250-271 | the join loop computes Joined |
| DecompressorLib.ResolveSample | src/common/agc_decompressor_lib.cpp:146-157 | a named sample is used as is; for an empty name the contig's only sample is used, and the answer is -1 when no sample holds it and -2 when several do |
| DecompressorLib.FirstContig | src/core/collection_v3.cpp:900-908 | the first contig of the sample whose short name equals the requested short name |
| DecompressorLib.FirstContigIsFirst | src/core/collection_v3.cpp:900-908 | no earlier contig has that short name, and none at all when nothing is found |
| DecompressorLib.FindContig | src/common/agc_decompressor_lib.cpp:145-162 | a query fails with -1 or, for an unnamed sample held by several, with -2; a found contig belongs to the resolved sample and has the requested short name |
| DecompressorLib.AmbiguousQuery | src/common/agc_decompressor_lib.cpp:148-154 | a query without sample name for a contig held by two or more samples answers -2 |
| DecompressorLib.OrientsTabled | src/common/agc_decompressor_lib.cpp:242-243 | decoding each segment and reverse-complementing it when its flag says so keeps every symbol a valid code |
| DecompressorLib.SelectTabled | src/common/agc_decompressor_lib.cpp:224-248 | the kept segments are among the decoded ones |
| DecompressorLib.JoinedTabled | src/common/agc_decompressor_lib.cpp:250-271 | joining keeps every symbol below 128 |
| DecompressorLib.DecompressedTabled | src/common/agc_decompressor_lib.cpp:172-286 | every symbol decompress_contig returns is a valid index into cnv_num |
| DecompressorLib.CutTabled | src/common/agc_decompressor_lib.cpp:273-277 | cutting keeps every symbol below 128 |
| DecompressorLib.WholeContig | src/common/agc_decompressor_lib.cpp:164-286 | the whole-contig request yields the joined contig, whose length is the contig length |
| DecompressorLib.LengthWithinSum | src/common/agc_decompressor_lib.cpp:164-168 | the contig length never exceeds the sum of the raw lengths |
| DecompressorLib.WholeWindow | src/common/agc_decompressor_lib.cpp:189-193 | the window 0..2^63-1 of any contig is the whole contig |
| DecompressorLib.Library.constructor | src/common/agc_decompressor_lib.cpp:15-18 | a new library works in no mode |
| DecompressorLib.Library.Open | src/common/agc_decompressor_lib.cpp:399-425 | opening fails and changes nothing unless no archive is open; otherwise the mode becomes decompression and the result is whether the archive loaded |
| DecompressorLib.Library.CloseDecompression | src/common/agc_decompressor_lib.cpp:428-434 | succeeds iff the mode is decompression |
| DecompressorLib.Library.Close | src/common/agc_decompressor_lib.cpp:517-529 | returns false iff nothing was open, and leaves no mode |
| DecompressorLib.Library.GetContigLength | src/common/agc_decompressor_lib.cpp:143-169 | -1 or -2 for a query naming no contig, otherwise the contig length (0 for a contig with no segments) |
| DecompressorLib.Library.GetContigString | src/common/agc_decompressor_lib.cpp:104-140 | -1 outside decompression mode, -1 or -2 for a query naming no contig, otherwise 0 with the letters of the requested window of the contig |
| DecompressorLib.Find | src/common/agc_decompressor_lib.cpp:113-127 | the lookup computes FindContig |
| DecompressorLib.FoundDecodable | src/common/agc_decompressor_lib.cpp:126-132 | a found contig is consistent with its decoded segments |
| DecompressorLib.ToLetters | src/common/agc_decompressor_lib.cpp:134-137 | each symbol is replaced by its letter from cnv_num |
| LineSplit.LastLineBounds | src/common/agc_decompressor_lib.cpp:597-634 | the last line holds 1 to line_len symbols, and the full lines before it make up the rest |
| LineSplit.LinesAtCons | src/common/agc_decompressor_lib.cpp:597-625 | while more than line_len symbols remain, one full line and a newline are written first |
| LineSplit.LinesAtStep | src/common/agc_decompressor_lib.cpp:597-625 | writing one full line adds line_len + 1 bytes and leaves the last line's length unchanged |
| LineSplit.LinesAtLength | src/common/agc_decompressor_lib.cpp:597-634 | the output holds every symbol plus one newline per line |
| LineSplit.UnlinesLine | src/common/agc_decompressor_lib.cpp:597-625 | removing the newline after a full line recovers its symbols |
| LineSplit.UnlinesLast | src/common/agc_decompressor_lib.cpp:629-634 | removing the final newline recovers the last line |
| LineSplit.UnlinesLinesAt | src/common/agc_decompressor_lib.cpp:597-634 | removing the newlines recovers exactly the symbols split into lines |
| LineSplit.LineCountMono | src/common/agc_decompressor_lib.cpp:567 | more symbols never need fewer lines |
| LineSplit.LineCountFits | src/common/agc_decompressor_lib.cpp:567 | the number of lines is at most ceil(size / line_len), as the buffer size assumes |
| LineSplit.SplitFresh | src/common/agc_decompressor_lib.cpp:562-645 | without a partial line, the output is the letters of the contig broken into lines of line_len, one newline per line, and the result is the length of the last line |
| LineSplit.SplitContinues | src/common/agc_decompressor_lib.cpp:575-595 | with a partial line, symbols first complete it and a newline ends it; when that uses up the contig the result is the new length of the partial line |
| LineSplit.SplitCountIsLine | src/common/agc_decompressor_lib.cpp:562-645 | a non-empty contig reports a last line of 1 to line_len symbols |
| LineSplit.SplitFits | src/common/agc_decompressor_lib.cpp:567-568 | the output never exceeds the buffer convert_and_split_into_lines allocates |
| LineSplit.ConvertAndSplitIntoLines | src/common/agc_decompressor_lib.cpp:562-645 | the method computes Split: an empty contig gives nothing and 0 |
| LineSplit.WriteHead | src/common/agc_decompressor_lib.cpp:575-583 | completes the partial line and writes its newline |
| LineSplit.CompleteLine | src/common/agc_decompressor_lib.cpp:577-581 | the completing loop copies letters until the line is full or the contig is used up |
| LineSplit.WriteLines | src/common/agc_decompressor_lib.cpp:597-634 | writes the rest of the contig as lines and returns the length of the last one |
| LineSplit.CopyLetters | src/common/agc_decompressor_lib.cpp:603-632 | copies the letters of a range of symbols |
| LineSplit.FullLines | src/common/agc_decompressor_lib.cpp:597-625 | the full-line loop stops with 1 to line_len symbols left |
| LineSplit.WriteLine | src/common/agc_decompressor_lib.cpp:599-624 | writes one full line and its newline |

## Left out

- ZSTD, libdeflate and zlib compression of streams, archive and file I/O, and the `CStreamWrapper` writes: foreign libraries and I/O. A segment's decompression is a parameter of the decompression methods.
- Threads, queues, mutexes, atomics and barriers: `CBufferedSegPart` keeps its lists but each operation is one atomic step. `restart_read_vec` and `get_vec_id` (src/core/agc_compressor.h:276-289) are only an atomic counter and are not modelled.
- `sort_known` (src/core/agc_compressor.h:207-213): it sorts each group list with `seg_part_t`'s order, whose properties are proved, but the sort itself is not modelled.
- The hash-table match search of `CLZDiff::Encode` and the V2 coder of src/common/lz_diff.h: the model has the token coders, the integer text, `get_code`, `get_Nrun_len`, the costs and `Decode`.
- src/core/collection_v2.cpp, the batched ZSTD byte streams of collection v3 and the batch loading in `get_contig_desc`: the model has the per-contig details coding and searches the loaded descriptions.
- The regex-based `analyze_contig_query` (src/common/agc_decompressor_lib.cpp:64-101): the parsed name and range are inputs.
- Floating-point fill factors of `hash_set_lp` and `bloom_set_t`: they are whole percentages here. The MurMur hash is a parameter.
- Duff's-device loops (`preprocess_raw_contig`, the tuple packers) are plain loops over the same elements in the same order.
- The outcome of loading an archive in `Open` and the collection's answers to the decompressor are parameters.
- LzDiff.Decode: requires the stream to decode without reading outside the reference or past its end; the source reads out of bounds there.
- LzDiff.LiteralRoundTrip: proved for symbols 0 to 20, the range `is_literal` accepts (src/core/lz_diff.cpp:557-560). The `cnv_num` codes 30 and 32 lie outside it, and their coding is not modelled.
- HashSetLp.HashSet.constructor: requires the first restructuring threshold to be at least 1. Tables are capped at 2^63 slots, so the doubling of `allocated` never wraps.
- HashSetLp.HashSet.Insert: requires room to double the table within that cap, and a key other than the empty key. The source would store the empty key as if its slot were free; every caller inserts canonical k-mers, which are never ~0.
- HashSetLp.HashSet.InsertFast: requires the same room to double and a key other than the empty key, as Insert does.
- HashSetLp.HashSet.Place: requires a key other than the empty key, as Insert does.
- Kmer.CKmer.constructor: requires 1 <= k <= 32, the widths a 64-bit register holds.
- CollectionV1.CollectionV1.AddSegmentBasic: requires the sample to be registered. For an unregistered sample the source adds it to `col` without an id in `sample_ids`, which the model's invariant excludes.
- CollectionV1.CollectionV1.AddSegmentPlaced: requires the sample to be registered, for the same reason.
- CollectionV3.CollectionV3.RegisterSampleContig: requires fewer than 2^32 - 1 samples and a non-empty description list when the sample repeats the previous one.
- CollectionV3.CollectionV3.AddSegmentPlaced: requires the sample to be registered and the cached placing id to be in range. The source reads out of range otherwise.
- NameSplit.SplitRoundTrip: proved only for 7-bit names without spaces in the components, since bytes of 128 and above are the coding's markers.
- NameSplit.NamesRoundTrip: proved only for 7-bit names, for the same reason.
- Compressor.RemoveNonSingletons: requires virtual_begin <= size, which every call site meets.
- Compressor.RemoveNonSingletonsCollecting: requires virtual_begin <= size, which every call site meets.
- Compressor.PreprocessRawContig: requires every byte below 128, the size of `cnv_num`.
- Compressor.GetPart: requires pos <= size, and requires pos + len not to wrap around in 64 bits.
- Compressor.BinarySearch: `std::binary_search` is modelled by its result, membership in the sorted candidates.
- Compressor.FindSplittersInContig: `current_len` is unbounded. The source's 64-bit counter cannot wrap for any contig that fits in memory.
- Decompressor.DecompressContig: requires the segments to be consistent: each decodes to its recorded raw length, below 2^31, and holds at least k symbols when the contig has several segments. The corrupted-archive branch is not modelled. That the segments overlap by k symbols is assumed only by Decompressor.DecompressedIsWindow.
- Decompressor.NormaliseRange: `from` and `to` are unbounded integers.
- Kmer.CKmer.ResetMode: requires 1 <= k <= 32, as the constructor does. The source does not check the width it is given.
- DecompressorLib.Library.GetContigLength: returns the intended length, 0 for a contig with no segments. As written, the source returns kmer_length there, because `size() - 1` wraps in `size_t`. Decompressor.ContigLengthAsWritten is that value (see "## Findings").
- Utils.ZigzagEncode: on unbounded integers. The source's `2 * x` overflows `int64_t` for |x| >= 2^62, and `-x` overflows for the smallest `int64_t`.
- Utils.ZigzagDecode: on unbounded integers. The source's `x + 1` wraps for the largest `uint64_t`, and codes of 2^63 and above do not fit the `int64_t` cast.
- Utils.ZigzagEncodeRel: on unbounded integers. The source's `2 * x_prev` wraps in `uint64_t` for x_prev >= 2^63.
- Utils.ZigzagDecodeRel: on unbounded integers, for the same reason. The values coded in an archive are 32-bit, far below these bounds.
- LzDiff.AppendInt: `-x` for the smallest `int64_t` is not modelled.
- LzDiff.ReadInt: the `int64_t` overflow of `x * 10` for more than 18 digits is not modelled.
- LzDiff.EncodeMatch: positions are not cast to `int` before the difference is taken, so positions of 2^31 and above do not wrap as in the source.
- LzDiff.CodingCostMatch: the same `int` casts are not modelled.
- LzDiff.DecodeMatch: the reference position and length are not cut to `uint32_t`.
- LzDiff.DecodeMatchAt: the same `uint32_t` casts are not modelled.
- LzDiff.DecodeNrun: the length is not cut to `uint32_t`.
- LzDiff.DecodeNrunAt: the same `uint32_t` cast is not modelled.
- CollectionV3.SerializeContigDetails: the `(int)` casts of in-group ids of 2^31 and above are not modelled, so such an id is compared with the group's last id as a large number rather than a negative one.
- HashSetLp.HashSet.ReserveAtLeast: returns the allocation on both paths. After a rebuild the source's `reserve` reaches the end of a function returning `size_t` without a `return`, which is undefined in C++.
- SegParts.BufferedSegPart.ProcessNew: requires fewer than 2^32 groups plus new parts; the source's `uint32_t` group_id would wrap there.

## Findings

| source | as written | input that shows it | evidently intended | confidence | as-written member | corrected member |
|---|---|---|---|---|---|---|
| src/common/segment.h:117 | `v_tuples.reserve((v.size() - NO_BYTES - 1) / NO_BYTES + 1)` subtracts in `size_t` | a segment of at most NO_BYTES symbols, e.g. 2 symbols below 4 with NO_BYTES = 4: the subtraction wraps and more than 2^61 bytes are requested | reserve the number of tuples the code has, `size / NO_BYTES + 2` | not executed | Segment.ReserveWraps | Segment.TupleCapacityExact |
| src/common/agc_decompressor_lib.cpp:164-168 | the length subtracts `(size() - 1) * kmer_length` in `size_t` | a contig with no segments: `size() - 1` wraps and the length comes out as kmer_length | a contig with no segments has length 0 | not executed | Decompressor.EmptyContigLengthAsWritten | Decompressor.ContigLengthIsJoined |
