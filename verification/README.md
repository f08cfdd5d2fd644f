# Verified core algorithms of a network boot firmware

A Dafny model of self-contained algorithms in the firmware's C sources, with proofs of what
they promise. Every component is modelled the way the source is written: objects whose fields
are updated in place are classes, loops are loops with invariants, buffers are arrays. Each
operation is proved against a specification on values, and the properties are theorems about
that specification, for all inputs and all runs.

`dafny verify dfyconfig.toml` checks the whole project.

## What is proved

- **Inflating compressed data** (`crypto/deflate.c`). A machine over the logical bit stream
  (`InflateSpec`, `InflateRun`) is what the resumable inflater object (`Inflate`) is proved to
  compute, label by label and call by call, including its two mirrored bit registers, packed
  code lengths, canonical Huffman tables with quick lookup, and computed jumps. Cutting the
  input into chunks is invisible; the output buffer holds the prefix that fits; and an encoder
  written from RFC 1951 and RFC 1950 is inverted for every stream, every cut and every buffer
  (`InflateFormat`, `InflateBlocks`, `InflateStream`, `InflateDriver`); `InflateDeviations` holds
  the streams on which decoder and format differ, `InflateVectors` the code words of the fixed
  code and streams given byte by byte.
- **The heap** (`core/malloc.c`). `HeapSpec` gives the free list as a value, `HeapLedger` what
  every byte of the pool is at any moment, `HeapRun` the invariant over all runs; `Malloc` is
  the allocator with its list traversals and machine-arithmetic comparisons, which allocates at
  the lowest address where there is room and fails only if there is none, and `HeapDriver`
  takes that object through any run, with cached blocks being discarded on demand.
- **Object interfaces and reference counts** (`core/interface.c`, `core/refcnt.c`). Close,
  shutdown and restart recurse through an arbitrary plug graph; `Interface` proves that they
  terminate, what exactly they unplug, that counts balance throughout, that objects are freed
  exactly once and that no freed object is touched.
- **The line editor** (`hci/editstring.c`, `hci/readline.c`). The incremental repaint leaves
  the console showing the line and its cursor after every key of every key sequence, history
  movement included.
- **Big integers** (`crypto/bigint.c` with its 32-bit element primitives). Carry chains,
  schoolbook multiplication, shift-and-subtract reduction and square-and-multiply compute the
  mathematical product and power modulo the modulus.
- **The settings tree** (`core/settings.c`). Sibling lists stay in order of a priority that is
  itself looked up in the subtree; the linked structure represents the tree throughout, and
  `SettingsContents` says which blocks and settings there are after each operation.
- **DER objects** (`crypto/asn1.c`): builder and cursor undo each other, and no walk over
  arbitrary bytes leaves its span.
- **Key wrap** (`crypto/aes_wrap.c`), **random bits** (`crypto/drbg.c`, `crypto/hmac_drbg.c`),
  **Base64** (`core/base64.c`), **calendar time** (`core/time.c`) and **integer square root**
  (`core/isqrt.c`).

## Where the source and its documentation differ

The model follows the code. In each of these cases the code does not do what its documentation
or the format says, or not always, and the model gives the exact condition.

- A distance code of 30 or 31 has base distance 0, so a stream that uses one with zero extra
  bits copies what the output buffer happened to hold (`InflateStream.StreamDetermined`,
  `InflateDeviations.ZeroDistanceAccepted`).
- RFC 1951 allows a single one-bit distance code whatever the number of distance lengths; the
  decoder accepts it only when one length was sent (`InflateDeviations.LoneDistanceStream`,
  `InflateDeviations.LoneDistanceRejected`).
- The comment on the length table says that codes above 284 mean "length 285"; the code uses
  length 258, as RFC 1951 does.
- The allocator's fit test is done in machine arithmetic and is wrong for requests that exceed
  a block by more than half the address space (`Malloc.FitTestExact`).
- So is its comparison of the addresses of two blocks: a region half the address space away
  from another is linked in the wrong order (`Malloc.GapTestExact`). The one caller of
  `mpopulate` adds a single region.
- `mpopulate` with less than a minimum block links an empty block, unless the region starts
  where a free block ends (`Malloc.RegionOrdered`).
- `asn1_skip_if_exists` is documented not to modify the cursor on any error, but moves it on
  errors in the length and at the end of the data (`Asn1Cursor.SkipErrorMoves`).
- Errors of the DER builder are meant to be permanent, but one on an empty builder is not
  (`Asn1Builder.GrowAgain`).
- `aes_wrap` is documented to allow wrapping in place, but overwrites the first block with the
  check value before reading it (`AesWrap.InPlaceIff`).
- `aes_wrap` is documented to be the wrapping of RFC 3394, but uses only the last byte of the
  counter: the results agree for up to 42 blocks and no more (`AesWrapSpec.WrapIsRfcIff`).
- `base64_decode` tells its callers how long a buffer to provide, and touches the byte after
  it, without changing it, for strings of letters in whole groups
  (`Base64Decode.ReachesPastIff`).
- `bigint_mod_exp` returns 1 for exponent 0 even when the modulus is 1 (`ModExp.ExactRemainder`).

## Modelling decisions

- I/O, memory allocation and entropy are parameters: input chunks, key sequences, and flags or
  functions that say whether a copy or an allocation succeeds.
- Bit registers of the inflater are sequences of 32 bits; shifts elsewhere are `Shl` and `Shr`
  of module `Bits`. Machine wrap-around is written out wherever it can occur.
- References into linked structures are numbers (interfaces, settings blocks) or addresses (heap
  blocks). The heap's links, which live inside the free blocks themselves, are a sequence.
- The block cipher and the keyed hash are arbitrary functions; the cipher's two directions
  are inverse to each other.
- The console is one unbounded line that starts at the end of the prompt.
- Modules `Bits`, `Wrappers`, `Limbs`, `LimbProduct`, `SettingsLinks` and the arithmetic lemmas in other
  modules are support.

## Model

| member | source | states |
|---|---|---|
| Huffman.StartIsKraft | crypto/deflate.c:231-252 | the next code after the longest ones, left-aligned to 16 bits, is the Kraft sum of the code lengths |
| Huffman.PrefixIffInWord | crypto/deflate.c:209-293 | a symbol's canonical code (section 3.2.2 of RFC 1951) prefixes a bit string exactly when the string's 16-bit window lies in the symbol's interval |
| Huffman.PrefixFree | crypto/deflate.c:209-293 | with Kraft sum at most 1, at most one symbol's code prefixes any bit string |
| Huffman.BandExists | crypto/deflate.c:411-415 | with Kraft sum 1 every 16-bit window lies in the interval of some code length |
| Huffman.BandUnique | crypto/deflate.c:411-415 | and of no other, so the backward scan has one place to stop |
| Huffman.DecodeByBand | crypto/deflate.c:417-420 | decoding through the zero-padded window is decoding: the symbol is the answer exactly when its code has been received in full |
| Huffman.DecodeEncode | crypto/deflate.c:392-432 | decoding inverts encoding, whatever bits follow |
| Huffman.DecodeExtends | crypto/deflate.c:392-432 | a symbol that can be decoded is not changed by more input |
| Huffman.DecodeProgress | crypto/deflate.c:392-432 | fifteen bits are always enough to decode a symbol of a complete code |
| HuffmanTable.SetLength | crypto/deflate.c:116-120 | or-ing a length into its nibble sets that length and leaves all others |
| HuffmanTable.CountLengths | crypto/deflate.c:224-229 | the frequency of every code length among the packed lengths |
| HuffmanTable.LayOut | crypto/deflate.c:231-252 | succeeds without running out of code space and is complete exactly when the Kraft sum is 1; each length gets its first code, shift and place in the raw symbols |
| HuffmanTable.FillRaw | crypto/deflate.c:254-261 | every symbol is filed at its place, in order within its length |
| HuffmanTable.FillLookup | crypto/deflate.c:275-279 | the quick index gives, for every seven-bit prefix, the largest code length whose first code is not above it |
| HuffmanTable.AdjustRaw | crypto/deflate.c:270-273 | each length's raw index is moved back by its first code, so that code plus raw is the symbol's place |
| HuffmanTable.Construct | crypto/deflate.c:209-293 | succeeds if and only if the Kraft sum of the lengths is 1, and then the tables represent the canonical code |
| HuffmanTable.FindSet | crypto/deflate.c:411-415 | quick lookup and backward scan end at the one code length whose interval holds the window |
| HuffmanTable.RawSymbol | crypto/deflate.c:425-426 | indexing the raw symbols then gives the symbol of that interval |
| Lz77.BufferHoldsPrefix | crypto/deflate.c:452-468 | for every buffer length, zero included, the bytes written are exactly the prefix of the decompressed data that fits, and no other byte of the buffer changes |
| Lz77.OutputDetermined | crypto/deflate.c:907-938 | the output is a function of the tokens alone if and only if no distance is zero |
| Lz77.ExtendRepeats | crypto/deflate.c:452-468 | each copied byte is the one the distance before it, also where that is itself a copied one |
| Lz77.ZeroDistanceLeaks | crypto/deflate.c:1027-1036 | with a zero distance (codes 30 and 31 have base 0) the output depends on what the buffer held before |
| Chunks.CopyOut | crypto/deflate.c:452-468 | copies byte by byte, from elsewhere or overlapping earlier output, up to the end of the buffer; the output offset advances by the full length |
| InflateSpec.Step | crypto/deflate.c:488-987 | every step of the machine consumes bits or moves to a label of lower rank, keeps the state well formed and emits only tokens in range: each cycle of jumps consumes at least one bit |
| InflateRun.StepExtends | crypto/deflate.c:488-987 | a step that could be taken is the same step when more input follows |
| InflateRun.RunExtends | crypto/deflate.c:488-987 | a run on more input is the run on the input so far, continued |
| InflateRun.ChunkingInvisible | crypto/deflate.c:488-987 | however the input is cut into chunks, the successive calls give the same status, state, output, output offset and remaining bits as one call on the whole |
| InflateRun.AnyTwoCuts | crypto/deflate.c:488-987 | two ways of cutting the same input cannot be told apart |
| Inflate.PushByte | crypto/deflate.c:314-326 | adding a byte to both registers keeps one the 32-bit reversal of the other with zeros beyond the buffered bits, and appends exactly that byte's bits |
| Inflate.PopBits | crypto/deflate.c:339-352 | consuming bits keeps the registers mirrored and drops exactly those bits |
| Inflate.MirroredWindow | crypto/deflate.c:408-409 | the top half of the mirrored register is the decoding window, zero-padded |
| Inflate.ReverseTable | crypto/deflate.c:1006-1014 | the byte reversal table reverses the bits of every byte |
| Inflate.LengthTable | crypto/deflate.c:1016-1025 | accumulating code sizes gives the base lengths of RFC 1951 for codes 257 to 284 |
| Inflate.DistanceBaseTable | crypto/deflate.c:1027-1036 | accumulating code sizes gives the base distances of RFC 1951 for codes 0 to 29 and leaves 30 and 31 zero |
| Inflate.StaticFill | crypto/deflate.c:632-645 | packs length 8 for symbols 0 to 143, 9 for 144 to 255, 7 for 256 to 279, 8 for 280 to 287 and 5 for the 32 distance symbols |
| InflateSpec.FixedLengths | crypto/deflate.c:75-85 | the lengths of the fixed code, symbol by symbol, are those of section 3.2.6 of RFC 1951 |
| InflateSpec.LengthSymbols | crypto/deflate.c:1016-1025 | each length symbol has the extra bits and the first length of section 3.2.5 of RFC 1951, in closed form; 285 and above mean 258 |
| InflateSpec.DistanceSymbols | crypto/deflate.c:1027-1036 | so has each distance symbol |
| Inflate.Inflater.constructor | crypto/deflate.c:995-1045 | a new inflater is in its invariant, at the start state |
| Inflate.Inflater.Accumulate | crypto/deflate.c:303-330 | buffers bytes until the target or the end of the input; the logical stream of buffered and unread bits does not change |
| Inflate.Inflater.Consume | crypto/deflate.c:339-352 | returns the next bits of the logical stream and removes exactly those |
| Inflate.Inflater.Extract | crypto/deflate.c:362-382 | returns a field of the stream, or a negative number having consumed nothing, if and only if the stream is too short |
| Inflate.Inflater.DecodeSymbol | crypto/deflate.c:392-432 | returns the symbol whose code prefixes the stream and consumes its code, or a negative number having consumed nothing, if and only if no code is complete |
| Inflate.Inflater.AtZlibHeader | crypto/deflate.c:503-529 | refines the machine on the ZLIB header: waits for 16 bits, refuses compression methods other than 8 and preset dictionaries |
| Inflate.Inflater.AtBlockHeader | crypto/deflate.c:531-561 | refines the machine on a block header: final flag and dispatch on the block type, type 3 refused |
| Inflate.Inflater.AtLiteralBlock | crypto/deflate.c:563-567 | refines the machine on entering a stored block: bits up to the byte boundary are discarded |
| Inflate.Inflater.AtLiteralLen | crypto/deflate.c:569-583 | refines the machine on LEN of a stored block |
| Inflate.Inflater.AtLiteralNlen | crypto/deflate.c:585-603 | refines the machine on NLEN: refused unless it is the complement of LEN |
| Inflate.Inflater.AtLiteralData | crypto/deflate.c:605-630 | with nothing buffered, stored bytes are copied from the right input offset, as many as block and input allow |
| Inflate.Inflater.AtStaticBlock | crypto/deflate.c:632-645 | refines the machine on a fixed block: the packed lengths become those of section 3.2.6 of RFC 1951 |
| Inflate.Inflater.AtDynamicHeader | crypto/deflate.c:647-680 | refines the machine on the 14-bit dynamic header, with the lengths cleared for what follows |
| Inflate.Inflater.AtDynamicCodelen | crypto/deflate.c:682-718 | refines the machine on the code-length code: permuted three-bit lengths, then its tables, refused if incomplete |
| Inflate.Inflater.AtDynamicSymbol | crypto/deflate.c:720-745 | refines the machine on a run-length symbol: a length is stored, or the repeat codes 16 to 18 set up |
| Inflate.Inflater.AtDynamicExtra | crypto/deflate.c:747-774 | refines the machine on a repeat: the run is stored across literal and distance lengths, never beyond their number |
| Inflate.Inflater.AtConstruct | crypto/deflate.c:776-817 | refines the machine on building both alphabets, the patched lone distance code included; an incomplete one is refused |
| Inflate.Inflater.AtLitlen | crypto/deflate.c:819-869 | refines the machine on a literal or length symbol: a literal is put out, 256 ends the block, a length is looked up |
| Inflate.Inflater.AtLitlenExtra | crypto/deflate.c:871-883 | refines the machine on the extra bits of a length |
| Inflate.Inflater.AtDistance | crypto/deflate.c:885-905 | refines the machine on a distance symbol |
| Inflate.Inflater.AtDistanceExtra | crypto/deflate.c:907-938 | refines the machine on a match: a distance beyond the start of the output is refused, otherwise the copy is made |
| Inflate.Inflater.AtBlockDone | crypto/deflate.c:940-954 | refines the machine at the end of a block: next block, footer or end |
| Inflate.Inflater.AtZlibFooter | crypto/deflate.c:956-960 | refines the machine on the ZLIB footer: bits up to the byte boundary are discarded |
| Inflate.Inflater.AtZlibAdler32 | crypto/deflate.c:962-979 | refines the machine on the checksum, which is awaited in full and not examined |
| Inflate.Inflater.AtFinished | crypto/deflate.c:981-986 | the end is marked by clearing the resumption point, and nothing more is read |
| Inflate.Inflater.RunLabels | crypto/deflate.c:488-987 | following the jumps from any label computes the run of the machine |
| Inflate.Inflater.Inflate | crypto/deflate.c:488-987 | one call, from any reachable state, computes the run of the machine on buffered and unread bits: output bytes, output offset, status, next state and unread bits; after an error the resumption point is unchanged |
| InflateFormat.GoesElements | crypto/deflate.c:819-938 | literals and matches written with a complete code are read back as those tokens |
| InflateBlocks.GoesCodelens | crypto/deflate.c:682-718 | code-length code lengths written as three-bit fields are read back |
| InflateBlocks.GoesItems | crypto/deflate.c:720-774 | run-length coded code lengths are read back expanded, repeats across the literal and distance parts included |
| InflateBlocks.FixedCodes | crypto/deflate.c:632-645 | both fixed codes are complete |
| InflateBlocks.LoneDistanceCode | crypto/deflate.c:786-816 | a distance code with a single one-bit word is accepted if and only if only one distance length was sent |
| InflateStream.RawRoundTrip | crypto/deflate.c:488-987 | every sequence of stored, fixed and dynamic blocks is decoded to its tokens, and reading stops right after it |
| InflateStream.ZlibRoundTrip | crypto/deflate.c:503-987 | the same for ZLIB streams |
| InflateStream.BlocksZero | crypto/deflate.c:885-905 | the tokens of a stream have a zero distance if and only if one of its matches uses distance symbol 30 or 31 with a zero in its extra bits |
| InflateStream.StreamDetermined | crypto/deflate.c:885-938 | the output of the decoder on a stream is independent of what the buffer held before if and only if no match of the stream is such a match |
| InflateStream.StandardDistances | crypto/deflate.c:885-905 | the distance symbols of RFC 1951, 0 to 29, never are |
| InflateDeviations.ZeroDistanceAccepted | crypto/deflate.c:885-938 | a stream of one fixed block with one such match is accepted: three bytes are reported, and the buffer holds in their place what it held before |
| InflateDeviations.LoneDistanceStream | crypto/deflate.c:531-817 | a dynamic block whose distance lengths leave half of the code space unused is read up to its data if and only if one distance length was sent; otherwise the stream fails |
| InflateDeviations.LoneDistanceRejected | crypto/deflate.c:531-817 | a dynamic block with distance lengths 1 and 0, which RFC 1951 allows, on which the stream fails |
| InflateVectors.FixedWords | crypto/deflate.c:632-645 | the code words for literals and lengths are those in the table of section 3.2.6 of RFC 1951 |
| InflateVectors.FixedDistanceWords | crypto/deflate.c:632-645 | the code word of a distance symbol is its number in five bits |
| InflateVectors.VectorDecoded | crypto/deflate.c:488-987 | the bytes 4b 04 02 00 are decoded to a literal and a match, and to the text aaaa |
| InflateVectors.StoredDecoded | tests/deflate_test.c:74-82 | the five bytes of header and length followed by any data are decoded to that data |
| InflateVectors.BlockKinds | crypto/deflate.c:531-561 | bit by bit: the last-block flag and the three kinds of block; the fourth is refused |
| InflateVectors.StoredLengthIff | crypto/deflate.c:585-603 | the length of a stored block is accepted if and only if its complement follows |
| InflateVectors.ZlibHeaderBytes | crypto/deflate.c:503-529 | byte by byte: accepted if and only if the method is 8 and no dictionary is asked for |
| InflateVectors.RepeatCodes | crypto/deflate.c:720-774 | codes 16, 17 and 18 repeat the last length three times and more, and zero three and eleven times and more, with 2, 3 and 7 extra bits |
| InflateStream.StreamRoundTrip | crypto/deflate.c:488-987 | for every raw stream without such a match, every cut into chunks and every output buffer: the stream ends, exactly the following bits are unread, the offset is the full length and the buffer holds the encoded data as far as it fits |
| InflateStream.ZlibStreamRoundTrip | crypto/deflate.c:488-987 | the same for ZLIB streams; the checksum is not consumed |
| InflateDriver.InflateChunks | tests/deflate_test.c:151-198 | calling the inflater object chunk by chunk gives the outcome of the machine on the concatenation: output, offset, status, state, and the bits still buffered followed by the bytes returned unread |
| HeapSpec.InsertOrdered | core/malloc.c:346-380 | merging a disjoint block in keeps the list strictly ordered, never adjacent and above the minimum size |
| HeapSpec.InsertCovers | core/malloc.c:346-380 | exactly the freed addresses become free |
| HeapSpec.CarveCovers | core/malloc.c:256-290 | the addresses of the split block are the allocated ones, the two remainders kept, and the bytes too few to keep |
| HeapSpec.CarveTotal | core/malloc.c:256-292 | no byte is counted twice or dropped by a split |
| HeapLedger.AllocatedInv | core/malloc.c:231-314 | allocation keeps the ledger: free, allocated and leaked bytes make up the pool, each byte in one of them, and the free counter balances |
| HeapLedger.FreedInv | core/malloc.c:324-387 | freeing keeps the ledger |
| HeapLedger.PopulatedInv | core/malloc.c:513-518 | adding a region keeps the ledger |
| HeapRun.Aligned | core/malloc.c:252-253 | the bytes skipped bring the block to the requested physical offset modulo the requested alignment |
| HeapRun.LeastSkip | core/malloc.c:252-253 | the bytes skipped lead to the first address in the block with the requested alignment and that of the smallest block |
| HeapRun.FirstFitLowest | core/malloc.c:250-255 | the search ends at the lowest address from which enough free bytes follow, and fails if and only if there is none |
| HeapRun.PopulateCovers | core/malloc.c:513-518 | populating a region makes exactly its whole blocks part of the pool and free |
| HeapRun.ApplyGood | core/malloc.c:231-387 | every legal operation keeps the ledger |
| HeapRun.RunGood | core/malloc.c:231-518 | over every run from an empty pool: the free list is strictly ordered, never adjacent and apart from all allocated blocks, and free memory is the populated bytes less the rounded allocated sizes |
| HeapRun.RunLossless | core/malloc.c:231-518 | if addresses and offsets are congruent modulo the minimum block size nothing ever leaks, and once everything is freed the free bytes are exactly those of the pool, so that a pool of one region is again one free block |
| Malloc.FitTestExact | core/malloc.c:254-255 | the machine test that a block fits is right if and only if the bytes needed exceed the block by at most half the address space |
| Malloc.FitTestWraps | core/malloc.c:250-255 | a list of one block and a 32-bit request that it cannot hold, which pass the test |
| Malloc.FirstPassing | core/malloc.c:250-255 | for requests below half the address space the first block to pass the test is the first that can hold the request |
| Malloc.GapTestExact | core/malloc.c:348-351 | the machine test of which of two blocks comes first is right if and only if they are less than half the address space apart |
| Malloc.GapTestWraps | core/malloc.c:348-351 | two 32-bit blocks for which it is wrong |
| Malloc.RegionOrdered | core/malloc.c:513-518 | a new region leaves any well-formed free list well formed if and only if it holds a whole minimum block or starts where a free block ends |
| Malloc.Heap.FreeMemblock | core/malloc.c:324-387 | the traversal with its machine-arithmetic gaps inserts and merges exactly as the specification does; a null address changes nothing |
| Malloc.Heap.Free | core/malloc.c:324-387 | freeing an allocated block is the ledger operation |
| Malloc.Heap.Mpopulate | core/malloc.c:513-518 | populating is the ledger operation: afterwards exactly the addresses from the start of the region up to its length less the odd bytes are new in the pool and free |
| Malloc.Heap.DiscardCache | core/malloc.c:194-204 | gives back one cached block, if there is one |
| Malloc.Heap.Search | core/malloc.c:250-255 | finds the first block that passes the machine test, or that none does, for every list and request |
| Malloc.Heap.Split | core/malloc.c:256-290 | relinks the remainders that are large enough and drops the others |
| Malloc.Heap.AllocMemblock | core/malloc.c:231-314 | allocates first-fit at the requested congruence, discarding cached blocks only while nothing fits; the address is the lowest from which enough free bytes follow, and it fails only when there is none and nothing is left to discard |
| HeapDriver.Perform | core/malloc.c:231-518 | any allowed sequence of requests and of offers to the cache takes the allocator object through exactly the specified ledgers and caches, discarding only what an allocation needs, the pool is made of the whole blocks of the regions populated, and every address returned is congruent to the offset asked for |
| HeapDriver.ServeAllRuns | core/malloc.c:188-314 | with cache discarding, the ledger still goes through a legal run, the discards being frees in it |
| RefCount.DestAlive | core/interface.c:178-193 | what an interface is plugged into has not been freed |
| RefCount.MoveBalanced | core/interface.c:82-89 | replugging turns the reference just taken into the interface's and its old one into one to drop |
| Interface.ChainIsPath | core/interface.c:240-309 | a shutdown follows the plugs through active interfaces and visits none twice, cycles and self-plugs included |
| Interface.PairChain | core/interface.c:101-104 | of two interfaces plugged into each other, shutting down one reaches exactly both |
| Interface.World.RefIncrement | core/refcnt.c:38-45 | adds one reference; a missing counter is left alone |
| Interface.World.RefDecrement | core/refcnt.c:57-87 | drops one reference and frees exactly when the stored count passes from 0 to -1, never again below |
| Interface.World.Release | core/refcnt.c:57-87 | when an owner lets go, the object is freed exactly if no owner, plug or call in progress is left |
| Interface.World.Plug | core/interface.c:82-89 | replugs the interface; the stored count plus one stays owners plus plugged-in interfaces plus calls in progress, and nothing freed is touched |
| Interface.World.PlugPlug | core/interface.c:101-104 | plugs both ways, keeping the counts |
| Interface.World.Unplug | core/interface.c:111-113 | plugs into the null interface, keeping the counts |
| Interface.World.Nullify | core/interface.c:120-122 | blocks the interface |
| Interface.World.Get | core/interface.c:130-133 | holds an object that is alive |
| Interface.World.Put | core/interface.c:140-142 | ends a hold |
| Interface.World.Close | core/interface.c:240-257 | terminates for every plugging; unplugs exactly the chain reached, nullifies exactly its members that shut down, leaves the rest, and keeps every count |
| Interface.World.Shutdown | core/interface.c:269-282 | terminates for every plugging; unplugs exactly the chain from the interface, leaves it nullified, and keeps every count |
| Interface.World.Restart | core/interface.c:293-309 | as shutdown, with the descriptor restored |
| EditSpec.TypeThenBackspace | hci/editstring.c:89-114 | a character typed where there is room is taken back by backspace; in a full buffer it is not taken |
| EditSpec.DeleteIsRightBackspace | hci/editstring.c:100-114 | delete is cursor right and backspace |
| EditSpec.HomeIsLefts | hci/editstring.c:226-241 | home is cursor left as often as possible |
| EditSpec.EndIsRights | hci/editstring.c:231-247 | end is cursor right as often as possible |
| EditSpec.KillSolIsBackspaces | hci/editstring.c:148-152 | killing to the start is backspace as often as possible |
| EditSpec.KillEolIsDeletes | hci/editstring.c:159-161 | killing to the end is delete as often as possible |
| EditSpec.KillWord | hci/editstring.c:121-141 | killing a word removes the blanks before the cursor and the word before those, no more |
| EditSpec.TypedCharacter | hci/editstring.c:201-203 | a character goes in at the cursor, which moves past it, if there is room |
| EditSpec.MovingKeys | hci/editstring.c:226-247 | by key code: Ctrl-A and Home, Ctrl-E and End, Ctrl-B and Left, Ctrl-F and Right |
| EditSpec.DeletingKeys | hci/editstring.c:205-225 | by key code: Backspace, Ctrl-D and Delete, Ctrl-U and Ctrl-K |
| EditSpec.OtherKeys | hci/editstring.c:191-254 | exactly which keys are acted on, and that others change nothing |
| Ctype.Spaces | core/ctype.c:37-49 | the six characters that are white space |
| EditSpec.SpliceOutside | hci/editstring.c:53-81 | outside the recorded region the line looks as it did |
| EditString.EditString.InsertDelete | hci/editstring.c:53-81 | deletes and inserts as much as there is text and room; the buffer stays terminated within its capacity and the edit history covers the change |
| EditString.EditString.PreviousWord | hci/editstring.c:121-130 | moves the cursor to the start of the previous word |
| EditString.EditString.ReplaceString | hci/editstring.c:169-172 | replaces the text, as far as it fits, with the cursor at its end |
| EditString.EditString.Press | hci/editstring.c:191-254 | every key does to the buffer what it does to the line; the edit history names the old cursor and a region outside which nothing changed; keys not understood are returned |
| Terminal.SyncConsole | hci/readline.c:44-75 | if the console showed the string before the edit, the partial repaint leaves it showing the string now, with blanks after it and the cursor at its place |
| History.SlotsShift | hci/readline.c:85-92 | each addition moves every entry of the ring one deeper, also across the wrap-around of the counter |
| History.History.Store | hci/readline.c:119-137 | keeps a temporary copy at a depth, unless it cannot be copied |
| History.History.Move | hci/readline.c:147-166 | moves one line if there is one there, leaving the edited text at the old depth; every other depth shows what it did |
| History.History.Append | hci/readline.c:174-196 | the new line comes first and at most seven are kept |
| History.History.Cleanup | hci/readline.c:203-221 | forgets the temporary copies and shows the kept lines again |
| Readline.UpThenDown | hci/readline.c:147-166 | going up and coming back finds the edited text again |
| Readline.TypedText | hci/readline.c:253-327 | up to 255 characters typed into an empty line are its text |
| Readline.UpArrows | hci/readline.c:147-166 | up arrows go back through the lines kept, the latest first, at most seven |
| Readline.DownArrow | hci/readline.c:147-166 | a down arrow comes back one line, and goes nowhere from the new line |
| Readline.EndKeys | hci/readline.c:288-309 | exactly the keys that end a session, and with what |
| Readline.ExampleSession | hci/readline.c:253-327 | abc, Ctrl-A and x make xabc |
| Readline.Reader.Key | hci/readline.c:284-315 | one turn of the key loop, with the console in step afterwards |
| Readline.Reader.Finish | hci/readline.c:288-324 | the line, cancellation or memory error, and what is kept in the history |
| Readline.ReadlineHistory | hci/readline.c:253-327 | for every prefill, history and key sequence: whenever a key is awaited the console shows the text and its cursor, and the line returned and the history kept are those of the keys up to the first that ends the session |
| Limbs.DoubleValue | arch/x86/include/bits/bigint.h:106-117 | shifting element by element with carry doubles the value, up to the carry out |
| Limbs.HalfValue | arch/x86/include/bits/bigint.h:126-135 | shifting down halves the value |
| Limbs.DifferenceValue | arch/x86/include/bits/bigint.h:80-97 | subtracting with borrow gives the difference, up to the borrow out |
| Limbs.ElementDecides | arch/x86/include/bits/bigint.h:168-193 | the most significant differing element decides the comparison |
| Limbs.TopBit | arch/x86/include/bits/bigint.h:222-238 | the highest bit set is in the highest element that is not zero |
| LimbProduct.ProductStep | arch/x86/core/x86_bigint.c:57-90 | adding one more product of elements keeps the partial sum and never carries out of the result |
| BigInt.Rol | arch/x86/include/bits/bigint.h:106-117 | the loop computes the shift |
| BigInt.Ror | arch/x86/include/bits/bigint.h:126-135 | the loop computes the shift |
| BigInt.Subtract | arch/x86/include/bits/bigint.h:80-97 | the loop computes the difference |
| BigInt.IsZero | arch/x86/include/bits/bigint.h:145-157 | whether the value is zero |
| BigInt.IsGeq | arch/x86/include/bits/bigint.h:168-193 | whether the value is at least the reference |
| BigInt.MaxSetBit | arch/x86/include/bits/bigint.h:222-238 | the bit length of the value |
| BigInt.Grow | arch/x86/include/bits/bigint.h:249-265 | the value, in more elements |
| BigInt.Shrink | arch/x86/include/bits/bigint.h:276-288 | the low elements |
| BigInt.Multiply | arch/x86/core/x86_bigint.c:39-91 | the product of the values |
| BigInt.Align | crypto/bigint.c:68-73 | the modulus is shifted to the length of the product and loses no bits |
| BigInt.Reduce | crypto/bigint.c:75-80 | shift-and-subtract leaves the remainder |
| BigInt.ModMultiply | crypto/bigint.c:42-87 | the product modulo any non-zero modulus, also when the result is one of the factors |
| ModExp.SquareAndMultiply | crypto/bigint.c:124-134 | works through the exponent to the power modulo the modulus |
| ModExp.ModExp | crypto/bigint.c:100-135 | the power modulo the modulus for every positive exponent, for bases above the modulus too, and 1 for exponent zero |
| ModExp.ExactRemainder | crypto/bigint.c:100-135 | that is the mathematical remainder if and only if the exponent is positive or the modulus is not 1 |
| SettingsSpec.PlaceSorted | core/settings.c:442-451 | re-inserting before the first sibling of lower priority keeps the list in order |
| SettingsSpec.PlaceIs | core/settings.c:442-451 | it moves nothing else and puts the block behind those it ties with |
| SettingsSpec.FetchHighest | core/settings.c:699-753 | in an ordered tree the search for a setting ends in a child of the highest priority among those that have it |
| SettingsSpec.RepairOrdered | core/settings.c:429-455 | a tree that is in order but for the places on the way to a block is in order after the repair |
| SettingsRun.RegisterOrdered | core/settings.c:465-495 | registering, also in place of a block of the same name, keeps every sibling list in order and names unique |
| SettingsRun.StoreOrdered | core/settings.c:603-639 | storing or deleting any setting, priority or not, keeps every sibling list in order |
| SettingsRun.RunOrdered | core/settings.c:429-639 | over every run every sibling list stays in non-increasing order of effective priority |
| SettingsSpec.DefaultPriority | core/settings.c:1086-1092 | the priority is the setting of that name, or zero |
| SettingsContents.RepairCards | core/settings.c:429-455 | the repair moves blocks among their siblings and changes nothing else |
| SettingsContents.StoreCards | core/settings.c:121-162 | a store changes one block by the setting stored; no block is lost or added and every other keeps its settings and its parent |
| SettingsContents.StoreById | core/settings.c:603-639 | by identity: the block stored into has the setting as stored, or none, and its others as before; every other block is what it was |
| SettingsContents.StoreFetch | core/settings.c:603-753 | fetching from the block then gives the value stored, or what its children give if it was deleted, and for other settings what it gave before |
| SettingsContents.RegisterCards | core/settings.c:465-495 | the blocks afterwards are those of before and of the registered block, less those of the child of the same name |
| Settings.Settings.FetchSetting | core/settings.c:699-753 | the value in the block, else the first found in its children in order |
| Settings.Settings.FetchPriority | core/settings.c:1086-1092 | the priority found, or zero |
| Settings.Settings.FindPlace | core/settings.c:445-450 | the position before the first sibling of lower priority |
| Settings.Settings.Reprioritise | core/settings.c:429-455 | relinking up the parent chain repairs the represented tree |
| Settings.Settings.StoreSetting | core/settings.c:603-639 | the links afterwards represent the tree after the store; the block has the setting as stored and its others as before, and every other block at most its children reordered |
| Settings.Settings.Unregister | core/settings.c:502-522 | takes the block and everything below it out, each left without parent and children, and touches nothing else |
| Settings.Settings.FindChild | core/settings.c:274-292 | the child of that name |
| Settings.Settings.RegisterSettings | core/settings.c:465-495 | the links afterwards represent the tree after the registration |
| Asn1Spec.OctetsRoundTrip | crypto/asn1.c:139-145 | shifting the octets of a length into the register gives the length |
| Asn1Spec.OctetsShortest | crypto/asn1.c:719-739 | no leading zero octet is written |
| Asn1Spec.LengthShortest | crypto/asn1.c:719-739 | nothing shorter stands for the same length (section 10.1 of X.690) |
| Asn1Spec.HeaderForms | crypto/asn1.c:719-739 | the header octet by octet, for every length below 2^32 |
| Asn1Spec.ReadObject | crypto/asn1.c:104-153 | reading back an encoded object, whatever follows, finds its header, its exact body and the next object |
| Asn1Spec.ReadMismatch | crypto/asn1.c:115-121 | an object of another type is not taken for it |
| Asn1Spec.ReadExamples | crypto/asn1.c:104-153 | bytes too short for an object, for its length octets and for its body, and an object in the long form |
| Asn1Cursor.Cursor.StartObject | crypto/asn1.c:104-153 | moves to the body, or part of the way on an error, exactly as specified |
| Asn1Cursor.Cursor.Enter | crypto/asn1.c:166-180 | the cursor covers exactly the body, or is invalidated |
| Asn1Cursor.Cursor.SkipIfExists | crypto/asn1.c:193-211 | the cursor is past the object; at the end of the data that is reported |
| Asn1Cursor.Cursor.Skip | crypto/asn1.c:224-233 | as above, with the cursor invalidated on any error |
| Asn1Cursor.Cursor.Shrink | crypto/asn1.c:246-264 | the cursor covers exactly the object, header included |
| Asn1Cursor.Walk | crypto/asn1.c:104-264 | on arbitrary bytes no sequence of moves takes the cursor outside the original span, unless it is empty |
| Asn1Cursor.SkipTo | crypto/asn1.c:193-233 | skipping visits the encoded objects in order |
| Asn1Cursor.EnterObject | crypto/asn1.c:166-180 | entering an object of the right type gives exactly its body |
| Asn1Cursor.SkipErrorMoves | crypto/asn1.c:189-211 | skip-if-exists leaves the cursor unmodified on an error, as documented, if and only if there is no whole header or the type differs |
| Asn1Cursor.SkipErrorExample | crypto/asn1.c:189-211 | bytes on which it does not |
| Asn1Builder.MakeHeader | crypto/asn1.c:719-739 | type and shortest length octets |
| Asn1Builder.Builder.Grow | crypto/asn1.c:748-771 | room in front of the bytes so far; fails when memory runs out or has run out before |
| Asn1Builder.Builder.PrependRaw | crypto/asn1.c:781-793 | the bytes come first |
| Asn1Builder.Builder.Prepend | crypto/asn1.c:804-822 | the encoded object comes first |
| Asn1Builder.Builder.Wrap | crypto/asn1.c:831-847 | everything so far becomes the body of one object |
| Asn1Builder.Build | crypto/asn1.c:719-847 | any sequence of operations leaves the encoding of the objects it describes |
| Asn1Builder.GrowAgain | crypto/asn1.c:752-764 | an allocation error is permanent, as intended, if and only if the builder was not empty |
| Asn1RoundTrip.ReadAt | crypto/asn1.c:104-236 | skipping and entering along a path of positions reaches the body of the object there, at any depth |
| Asn1RoundTrip.BuildAndRead | crypto/asn1.c:104-847 | whatever is built, the cursor reads back the body of any of its objects, at any depth |
| AesWrapSpec.UnstepStep | crypto/aes_wrap.c:54-65 | a step of unwrapping undoes a step of wrapping, with the counter cut to a byte |
| AesWrapSpec.UnwrapWrap | crypto/aes_wrap.c:38-124 | unwrapping gives back what was wrapped, and the check succeeds, for every number of blocks and every invertible cipher |
| AesWrapSpec.CheckIff | crypto/aes_wrap.c:116-121 | the check succeeds if and only if the data is the wrapping of the key returned |
| AesWrapSpec.CheckValue | crypto/aes_wrap.c:51-51 | the check value is eight bytes of 0xa6 |
| AesWrapSpec.SwapWrapped | crypto/aes_wrap.c:38-71 | the wrapping of any one block by a cipher that exchanges halves, byte by byte |
| AesWrapSpec.MaskIff | crypto/aes_wrap.c:61-61 | using only the last byte of the counter agrees with the 64-bit counter of RFC 3394 if and only if the counter is below 256 |
| AesWrapSpec.WrapIsRfcIff | crypto/aes_wrap.c:38-71 | wrapping is that of section 2.2.1 of RFC 3394, for all ciphers and keys, if and only if there are at most 42 blocks |
| AesWrapSpec.WrapDiffersExample | crypto/aes_wrap.c:38-71 | a cipher and a key of 43 blocks for which it is not |
| AesWrap.Wrap | crypto/aes_wrap.c:38-71 | the nested loops compute the wrapping of the source as they find it |
| AesWrap.Unwrap | crypto/aes_wrap.c:85-124 | the nested loops compute the unwrapping, also in place, and the result of the check |
| AesWrap.InPlaceIff | crypto/aes_wrap.c:30-53 | wrapping in place, which the documentation allows, is right if and only if the first block already is the check value |
| DrbgSpec.OutputIsChain | crypto/hmac_drbg.c:322-346 | byte i of the output is byte i mod 32 of the (i / 32 + 1)-th value of the chain (section 10.1.2.5 of NIST SP 800-90) |
| DrbgSpec.UpdateForm | crypto/hmac_drbg.c:142-170 | key and value after an update, written out in the keyed hash |
| DrbgSpec.SeedForm | crypto/hmac_drbg.c:194-271 | key and value after seeding, from zeros and ones or from those there are, written out in the keyed hash |
| DrbgSpec.PlainGenerated | crypto/hmac_drbg.c:322-352 | key and value after generating without input, written out in the keyed hash and the chain |
| DrbgSpec.AddedGenerated | crypto/hmac_drbg.c:322-352 | the same with input, which goes in before and after the output |
| DrbgSpec.GenerateIff | crypto/drbg.c:267-397 | without entropy bytes can be had if and only if the request is within the limits and at most 1024 have been made |
| DrbgSpec.EntropyFirst | crypto/drbg.c:62-247 | input given when seeding follows the entropy |
| DrbgSpec.PredictionReseeds | crypto/drbg.c:267-397 | resistance to prediction is a reseed with the input, then bytes without it |
| DrbgSpec.FailureKeeps | crypto/drbg.c:62-397 | a request that fails puts out nothing and leaves key, value and counter |
| DrbgSpec.Erased | crypto/drbg.c:407-427 | a generator given up holds zeros and gives nothing |
| DrbgSpec.PerformInStep | crypto/drbg.c:62-397 | every request keeps the reseed counter equal to one more than the outputs since the last seed, and outputs come only from a valid state and within the interval |
| DrbgSpec.RunWellSeeded | crypto/drbg.c:62-427 | over every run there are at most 1024 outputs between seeds and none before the first |
| Drbg.Drbg.UpdateState | crypto/hmac_drbg.c:142-170 | updates key and value as section 10.1.2.2 says |
| Drbg.Drbg.InstantiateAlgorithm | crypto/hmac_drbg.c:194-225 | seeds from the fixed initial key and value |
| Drbg.Drbg.ReseedAlgorithm | crypto/hmac_drbg.c:243-271 | seeds from the current key and value and sets the counter to 1 |
| Drbg.Drbg.GenerateAlgorithm | crypto/hmac_drbg.c:294-359 | fills the buffer with the leftmost bytes of the chain and counts, or does nothing if and only if a reseed is due |
| Drbg.Drbg.InstantiateDrbg | crypto/drbg.c:62-159 | performs the request |
| Drbg.Drbg.ReseedDrbg | crypto/drbg.c:174-247 | performs the request |
| Drbg.Drbg.GenerateDrbg | crypto/drbg.c:267-397 | performs the request; the algorithm is tried at most twice, a second time only when a reseed was due and not asked for; on an error the buffer is untouched |
| Drbg.Drbg.UninstantiateDrbg | crypto/drbg.c:407-427 | erases the state |
| Base64Spec.EncodedLength | core/base64.c:53-78 | the encoding has four characters for every three bytes begun |
| Base64Spec.Alphabet | core/base64.c:35-36 | the alphabet of RFC 4648 |
| Base64Spec.EncodedExamples | core/base64.c:53-78 | one, two and three bytes and their encodings |
| Base64Spec.SextetsBack | core/base64.c:137-145 | every byte comes out of its values again |
| Base64.Encode | core/base64.c:53-78 | the bit-indexed loop writes the encoding of section 4 of RFC 4648, padding and terminator included |
| Base64.DecodedIff | core/base64.c:103-155 | a string is decoded if and only if it is properly padded |
| Base64.RoundTrip | core/base64.c:94-161 | whatever white space is put into an encoding, it decodes to what was encoded |
| Base64.PlainRoundTrip | core/base64.c:53-161 | an encoding as it stands decodes to what was encoded |
| Base64Decode.Decode | core/base64.c:94-161 | or-ing in six bits at a time into a buffer of the documented length, or one byte more for strings of letters in whole groups, yields the bytes and their number, or an error, and changes nothing behind it |
| Base64Decode.ReachesPastIff | core/base64.c:86-146 | a character is or-ed into the byte after the documented buffer if and only if the string is not empty and is nothing but letters in groups of four |
| Base64Decode.ReachesPastExample | core/base64.c:86-146 | such a string |
| Calendar.LeapRule | core/time.c:53-64 | the test on years since 1900 is the Gregorian rule |
| Calendar.LeapYearsCounted | core/time.c:72-80 | the closed form counts exactly the leap years |
| Calendar.DaysCounted | core/time.c:123-125 | the closed form counts the days one at a time |
| Calendar.MonthLengths | core/time.c:101-102 | the lengths of the months |
| Calendar.KnownDay | core/time.c:110-138 | a date with its day count and weekday |
| Calendar.WeekdayCounted | core/time.c:89-98 | weekdays follow each other, and the epoch was a Thursday |
| Calendar.Tm.Mktime | core/time.c:110-138 | 86400 times the days counted one at a time from the epoch plus the time of day; day of the year and of the week likewise |
| Isqrt.SquareRoot | core/isqrt.c:36-52 | the largest integer whose square is at most the value, for every word |
| Isqrt.Bitwise | core/isqrt.c:42-50 | the root comes out although every sum on the way is cut to a machine word |

## Left out

- Malloc.Heap.AllocMemblock: requests for which rounded size plus alignment exceed half the address space, where the machine fit test can be wrong; `Malloc.FitTestExact` says exactly when.
- Malloc.Heap.DiscardCache: the individual cache discarders; one cached block is given back at a time.
- Malloc.Heap.Mpopulate: regions smaller than the minimum block, for which the invariant fails (`Malloc.RegionOrdered`), and pools that do not lie within one half of the address space, for which the order does (`Malloc.GapTestExact`); `Malloc.Heap.FreeMemblock` and `HeapDriver.Perform` have the same limit.
- Interface.World.Close: pass-through interfaces, and close handlers that shut down other interfaces than the one being closed, for which termination depends on the handlers.
- Interface.World.RefDecrement: what an object's own free method does; freeing is only counted.
- Terminal.SyncConsole: lines longer than the console is wide, and text with control characters, on which the number of columns written differs.
- Readline.ReadlineHistory: the prompt, the escape sequence that shows the cursor and the final newline.
- Settings.Settings.FetchSetting: redirection, applicability and scopes of settings, the decoding of raw values to numbers, and the recorded origin.
- Settings.Settings.StoreSetting: blocks that refuse to store, and the applicators run afterwards.
- Settings.Settings.RegisterSettings: reference counts of settings blocks, and the empty name, which stands for the parent itself.
- AesWrapSpec.WrapIsRfcIff: fewer than 2^64 steps, since the counter of RFC 3394 has 64 bits.
- BigInt.Multiply: the carry loop of the assembly (`arch/x86/core/x86_bigint.c`) always adds to the element after the two of a product, which for the last pair is the one after the result; it adds zero there.
- Base64Decode.Decode: a buffer of exactly the documented length for strings of letters in whole groups, where the byte after it is read and written back (`Base64Decode.ReachesPastIff`); and characters outside the alphabet, white space and padding; the table searched for them has no terminator.
- Calendar.Tm.Mktime: years before 1900, and overflow of `int` millions of years from now.
- Standalone unregistering and clearing of settings, which do not reorder ancestors.
- `realloc`, `malloc` and `free` on top of the block allocator, which add only a size header.
- Valgrind annotations, debugging output and sanity-check assertions.
- The AES rounds, hash functions, X.509 and CMS validation, URI parsing, and all drivers and protocols.
