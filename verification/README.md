# Verification of the document reader's decoders and data structures

This project models, in Dafny, the parts of the repository whose correctness
does not show from reading one function, and proves what they promise.

## What is modelled

* **The LZX decompressor** (`chm/lzx.c`). `BitReader` is the bit buffer over
  16-bit little-endian words. `Canonical` is the canonical code of section 3.2.2
  of RFC 1951 on windows of 16 bits; `NodeCount`, `Forest`, `Growth`,
  `DecodeTable` and `Huffman` prove that the table with its overflow trees is a
  fast form of it. `CodeLengths` and `LengthCoding` cover the run-length and
  difference coding of code lengths. `PositionSlots` and `Tokens` take the bits of
  a run to literals and matches, and `BlockHeader` reads block headers. `Lz77` is
  the meaning over an unbounded history, and `Reference` an interpreter of the bits
  of a whole block over such a history, run step by step (`Iteration`). `Window` is
  the circular window; `Lzx` is LZXdecompress with its state, proved to come to the
  interpreter's verdict and history on all inputs. `Meaning` proves what follows for
  every decompressed block, `Leftovers` that nothing left over from before a reset is
  read. `E8` is the call translation. `LzxWriter` and `LzxBlocks` say, digit by digit,
  what a sender writes for literals, matches, lists of lengths, headers and runs, and
  that it is read as just that.
* **CHM random access** (`chm/chm_lib.c`). `ChmCache` proves that the
  direct-mapped cache over a forward-only decompressor answers every request like
  full sequential decompression; `ChmFile` is the handle with its loops;
  `ChmResize` says when changing the cache size keeps that true. The decompressor
  is there an arbitrary step from a state and a compressed block to a state and
  bytes; `LzxArchive` puts the LZX decoder in its place. `Cword`,
  `CaseFold`, `DirPages`, `PageTree` and `Directory` treat the directory: the index
  agrees with the linear scan of the leaves. `DirWriter` is the directory as it is
  written, byte by byte.
* **The binary tree** (`wv-1.2.4/bintree.c`) as heap nodes with parent pointers
  (`BinTree`), and the merge of character properties built on it (`ChpMerge`).
* **Option scanning** (`wv-1.2.4/getopt.c`): the in-place exchange (`Rotation`)
  and the scan across calls (`GetOpt`).
* **Arithmetic and streaming kernels**: `FileTime`, `Md5`, `CrcTable`, `Crc32`.
* **The repository's own snapshots and stream** (`lib/`): `StateFormat`,
  `SnapshotIO` and `DocState` for storing and recovering the parser's state,
  `DocStream` and `Matching` for the push-back stream and the matchers.

`Wrappers`, `Sequences`, `Arith`, `Shifts` and `LittleEndian` are shared by the others.

A class stands where the source updates an object or a stream in place; its
methods are tied to functions, and the lemmas about those functions are the
results. `dafny verify dfyconfig.toml` covers the whole project.

## Where the code differs from its description

* `wvMergeCHPXFromBucket`: the comment above it says that prls of the source
  replace those of the destination. The tree refuses duplicates and the
  destination goes in first, so the destination's entry stays
  (`ChpMerge.DestinationWins`, `ChpMerge.SourceReplacesIff`).
* The E8 pass accepts a negative file size from the block header; it then merges
  different inputs (`E8.InjectiveIff`).
* The symbol after code 19 of the length code may be 18 or 19, which can produce
  lengths above 16 (`LengthCoding.LengthsStaySmall`, `LengthCoding.LengthTooLarge`).
* An offset beyond the window, which only an uncompressed block can set up, is taken
  once around the window as long as the position allows; the match then copies other
  bytes than LZ77 would (`Reference.FarMatch`, `Window.CopyInside`).
* Shrinking or growing the block cache can drop the block decoded last, and a
  later read of that block then decodes from the wrong state
  (`ChmResize.ResizeSoundIff`, `ChmResize.ResizeRun`). A block that failed to
  decode leaves its slot with bytes that are not its own, which are served the next
  time (`ChmResize.DecodeKeepsIff`, `ChmResize.FailedRun`,
  `ChmResize.FailedBlockServed`).
* A negative length that goes back beyond the beginning of an object makes
  retrieval read the whole rest of it (`ChmCache.NegativeLength`,
  `ChmCache.ReadBackwards`).
* The decode tables are declared too small for some vectors of lengths that are
  rejected in the end (`Huffman.RoomRunsOut`).
* A failed match_b that skipped a blank behind a matched character leaves a stream
  that is not what the file holds, and setting the offset to the current one changes
  it (`Matching.SpacedGenuine`, `Matching.BlankLost`).
* Rescanning a permuted argument vector is not always idempotent
  (`GetOpt.ScanTwice`, `GetOpt.ScanTwiceDiffers`).

## Model

| member | source | states |
|---|---|---|
| Canonical.DecodesIsPrefix | chm/lzx.c:334-346 | A 16-bit window decodes to a symbol exactly when its leading bits are the codeword that section 3.2.2 of RFC 1951 assigns to the symbol. |
| Canonical.DecodesUnique | chm/lzx.c:334-346 | No window begins with the codewords of two symbols. |
| Canonical.FindSymbol | chm/lzx.c:334-346 | Every window below the end of the assigned code space begins with the codeword of some symbol. |
| Canonical.CodeStartIs | chm/lzx.c:334-346 | The windows of a codeword begin behind the shares of all shorter ones and of those of its length that belong to earlier symbols; a codeword of length l has 32768, 16384, ..., 1 windows for l = 1, ..., 16. |
| Canonical.KraftIsShares | chm/lzx.c:358-416 | The Kraft sum of the codes of at most b bits is the sum of their shares of the 65536 windows. |
| Canonical.CodesExample | chm/lzx.c:334-346 | The codewords of the example of section 3.2.2 of RFC 1951, as numbers. |
| DecodeTable.FillDirect | chm/lzx.c:358-373 | Codes of at most nbits bits: overrun exactly when their Kraft sum exceeds one; otherwise each direct entry up to the position reached holds the symbol whose code interval covers it, and entries from 2^nbits on are untouched. |
| DecodeTable.WalkTo | chm/lzx.c:388-399 | The walk for one long code: missing nodes, and only those, are allocated, in the exact number the code needs, and it ends at the entry labelled with the code. |
| DecodeTable.PlaceLong | chm/lzx.c:387-400 | Placing one long code keeps the forest invariant: parents, labels, earlier symbols and the accounting of nodes. |
| DecodeTable.FillLong | chm/lzx.c:375-408 | All long codes: overflow exactly when the Kraft sum of all codes exceeds one; otherwise every long code hangs at the end of its bit path, and the number of nodes taken is settled by the symbols placed and the subtrees left open. |
| Growth.AllocIffAligned | chm/lzx.c:390-395 | On the way down an entry is still empty exactly where the code opens a subtree that no earlier code shares. |
| Growth.LeafFree | chm/lzx.c:400 | The entry a code ends at is empty before the symbol is written there. |
| Huffman.MakeDecodeTable | chm/lzx.c:348-416 | Success exactly when the codes of at most nbits bits, or all codes, have Kraft sum one, or every length is 0; for complete codes the finished table decodes every window canonically and no entry from 2^nbits + 2*nsyms on is written; for every vector the overflow area is used at most up to the nodes that its codes take as far as they fit, and the levels of the one that overruns; if all fit, up to exactly their nodes, the last of which is in use. |
| Huffman.AcceptedIff | chm/lzx.c:405-416 | A vector of lengths is accepted exactly if the shares of its codes of at most nbits bits, or of all its codes, add up to 65536, or every length is 0. |
| Huffman.DeclaredRoom | chm/lzx.c:72-74 | The room that the source declares is enough for every vector that is accepted. |
| Huffman.RoomRunsOut | chm/lzx.c:72-74 | For a rejected one it need not be: twenty codes of length 15 take 25 nodes in the table of the pretree, which has room for 20. |
| Huffman.LookupFindsCodeword | chm/lzx.c:306-318 | In a finished table a window is looked up as a symbol if and only if it begins with the codeword of that symbol. |
| BitReader.Reader.EnsureBits | chm/lzx.c:269-273 | Loading 16-bit little-endian words keeps the buffer equal to the next bits of the stream and the read position where it was. |
| BitReader.Reader.PeekBits | chm/lzx.c:275 | The top n bits of the buffer are the next n bits of the stream, first bit most significant. |
| BitReader.Reader.RemoveBits | chm/lzx.c:276 | Shifting the buffer moves the read position by n and keeps the rest. |
| BitReader.Reader.ReadBits | chm/lzx.c:278-282 | Returns the next n bits of the stream and moves the position past them. |
| BitReader.Reader.ReadHuffSym | chm/lzx.c:306-318 | With a table that was accepted: the symbol whose canonical codeword the stream continues with, and exactly its length in bits is used up; with an all-zero code, symbol 0 and no bits. |
| LzxWriter.BitIs | chm/lzx.c:269-273 | Where bit q of the stream is: in each pair of bytes the second byte comes first, and in each byte the most significant bit. |
| LzxWriter.NumberRead | chm/lzx.c:278-282 | A number below 2^n sent in n binary digits, most significant first, is the number read there. |
| CodeLengths.ReadToken | chm/lzx.c:440-458 | One token of the length code is the one the bits spell, and its run is written from the index on. |
| CodeLengths.ReadPretree | chm/lzx.c:433-437 | The pretree lengths are twenty numbers of four bits; success exactly when they make an acceptable code. |
| CodeLengths.ReadLens | chm/lzx.c:424-465 | The lengths afterwards are the old ones with the tokens of the stream applied from first on; the tokens start below last, and every write stays below last + 50, inside the safety area. |
| CodeLengths.TokensDisjoint | chm/lzx.c:440-458 | At one place of the stream at most one token can stand. |
| CodeLengths.TokenApplied | chm/lzx.c:440-458 | A token of zeros sets its run to 0; the others set theirs to a length v of at most 16 with v + z congruent modulo 17 to the length that stood at its beginning; all other lengths stay. |
| LzxWriter.TokenRead | chm/lzx.c:440-458 | 4 to 19 zeros sent as symbol 17 and four digits, 20 to 51 as 18 and five, a run of 4 or 5 as 19, a digit and a symbol, and one length as a symbol are read as just that. |
| LzxWriter.ListRead | chm/lzx.c:424-465 | A list of lengths sent as twenty pretree lengths of four digits and tokens under that pretree is read as the lengths that it describes, and as ending where it ends. |
| LengthCoding.EncodedUnique | chm/lzx.c:439-459 | Two token sequences at the same place that reach last are equal. |
| LengthCoding.DescriptionDecodes | chm/lzx.c:441-457 | Any description of a target vector against the old one, by zero runs, same runs and differences modulo 17, applied to the old vector gives the target and leaves the rest alone. |
| LengthCoding.ReadBack | chm/lzx.c:424-465 | Whatever encoding of the target the stream holds, the tokens that reading finds turn the old lengths into the target. |
| LengthCoding.EncoderExists | chm/lzx.c:441-457 | Every vector of lengths 0 to 16 has an encoding against every old one: zero runs, same runs and differences that describe it. |
| LengthCoding.ChangedStaysSmall | chm/lzx.c:450-457 | The changed length stays in 0..16 for all old lengths exactly when the symbol is at most 17; the symbol after code 19 is not checked for that. |
| LengthCoding.LengthsStaySmall | chm/lzx.c:439-459 | The lengths stay in 0..16 exactly if no symbol after a code 19 exceeds the length it changes by more than 17. |
| LengthCoding.LengthTooLarge | chm/lzx.c:450-457 | A concrete case: four zero lengths changed by symbol 18 become 255. |
| PositionSlots.NextSlot | chm/lzx.c:154-167 | Each slot base of the table is the previous base plus the size its extra bits give. |
| PositionSlots.SlotUnique | chm/lzx.c:154-167 | No position belongs to two slots. |
| PositionSlots.SlotExists | chm/lzx.c:154-167 | Every position below the end of a slot belongs to a slot up to there. |
| PositionSlots.SlotsFitWindow | chm/lzx.c:188-198 | The number of slots chosen for a window of 2^15 to 2^21 bytes covers exactly the positions below the window size. |
| LzxWriter.TablesAre | chm/lzx.c:147-167 | Slots 0 to 3 have no extra bits, every two of the next one more, and all from 36 on have 17; the bases are the sums of the sizes before. |
| Tokens.TokenUnique | chm/lzx.c:567-711 | The bits of a verbatim or aligned block spell at most one literal or match at a place. |
| Tokens.OneToken | chm/lzx.c:577-601 | A literal or match has exactly one slot, extra value and length as its coded form. |
| Tokens.TokenFor | chm/lzx.c:577-601 | Every literal, and every match of a length and offset in range, has a coded form. |
| Tokens.Trees.ReadPosition | chm/lzx.c:654-679 | The extra bits as the verbatim and the aligned branch read them give the same position within the slot, below the slot size. |
| Tokens.Trees.ReadToken | chm/lzx.c:567-613 | Decoding one main element, its length footer and its offset returns what the bits spell and uses exactly those bits. |
| LzxWriter.SentRead | chm/lzx.c:567-679 | A literal sent as the codeword of its byte, a repeated offset as that of 256 + 8i + min(length - 2, 7), and a new one by its slot with the extra bits, the low three in the aligned code where there is one, is read as that literal or match, wherever it stands. |
| Meaning.OffsetFits | chm/lzx.c:188-198 | With no codeword for slots beyond the window, no spelled match reaches back further than the window, and the remembered offsets stay within it; without a zero offset every match copies from as far back as it says. |
| Lz77.ExpandSplit | chm/lzx.c:497-724 | The LZ77 meaning of pieces in a row is the meaning of the later ones applied after the earlier ones. |
| Lz77.ResetForgets | chm/lzx.c:224-243 | As long as no match reaches back past a reset, the bytes produced after it do not depend on what the window held before. |
| Window.CopyMatch | chm/lzx.c:615-627 | The two copy loops, wrapped and overlapping sources included, extend the history by the match, and every window slot holds the latest history byte for its place; an offset beyond the window counts as one smaller by the window, as far as the position allows. |
| Reference.MatchRecalls | chm/lzx.c:581-613 | After every match the first remembered offset is the one copied from: a repeat has changed places with it and left the third where it was, a new offset has moved two down and dropped the last; and every byte made is the one that far back. |
| Reference.RepeatTwice | chm/lzx.c:604-613 | The same repeat twice restores the remembered offsets. |
| Reference.QueueExample | chm/lzx.c:604-613 | A concrete case: behind output that ends in p q r s t, with remembered offsets 5, 2 and 1, a match of slot 2 and then one of slot 1, two bytes each, make t four times. |
| BlockHeader.SpellsUnique | chm/lzx.c:439-459 | At one place of the stream there is one list of code lengths. |
| BlockHeader.Tables.ReadLengths | chm/lzx.c:326-332 | Reading a list of lengths gives exactly what the stream says there, fails exactly when the pretree is not acceptable, and loads just the words it looks at. |
| BlockHeader.Tables.ReadCoded | chm/lzx.c:512-523 | The lengths of the main and the length code in their order, with their tables; an error exactly when a pretree or a code is not acceptable or the input is exhausted. |
| BlockHeader.Tables.Align | chm/lzx.c:525-528 | Whatever the bit buffer holds, an uncompressed block goes on at the next 16-bit boundary; where there is one already, a word is skipped. |
| BlockHeader.Tables.ReadHeader | chm/lzx.c:499-556 | A block header is read as the bits say: type, length, code lengths or remembered offsets, and the place behind it; errors are reported exactly when the bits make no header or the input ends before. |
| BlockHeader.HeaderEnds | chm/lzx.c:541-552 | A header goes forward, and the exhaustion check lets none end more than the two bytes behind the input that may be looked at. |
| LzxWriter.CodedRead | chm/lzx.c:512-523 | The lists for the first 256 main symbols, for the others of the window and for the 249 lengths are read in this order; the header is accepted exactly if its bits lie in whole words of the input. |
| LzxWriter.VerbatimRead | chm/lzx.c:505-523 | Type 1 and a length in 24 digits begin a verbatim block. |
| LzxWriter.AlignedBlockRead | chm/lzx.c:505-523 | Type 2 begins an aligned block; eight lengths of three digits come in front of the other lists. |
| LzxWriter.PlainRead | chm/lzx.c:525-531 | Type 3 begins an uncompressed block: R0, R1 and R2 stand in four bytes each, low-order byte first, at the first 16-bit boundary behind the header's last bit, and may reach two bytes behind the input. |
| LzxWriter.NoOther | chm/lzx.c:534-535 | Every other type is an error. |
| Reference.TokenFound | chm/lzx.c:567-711 | The token the interpreter takes is the one whose bits stand there. |
| Reference.OneVerdict | chm/lzx.c:467-726 | The bits and the state determine how decompression ends and with what. |
| LzxBlocks.RunSent | chm/lzx.c:567-711 | The literals and matches of a run, sent one after the other, are carried out in that order, and reading goes on behind them. |
| LzxBlocks.RawSent | chm/lzx.c:713-717 | The bytes of an uncompressed run are the next bytes of the input, an error if it has not so many. |
| LzxBlocks.BetweenRuns | chm/lzx.c:497-566 | Between runs decoding ends when all bytes are made, goes on with as much of the block as is left and asked for unless that passes the end of the window, and otherwise reads a header, a byte further on behind an uncompressed block of odd length. |
| LzxBlocks.TokenEnds | chm/lzx.c:615-627 | A literal or match ends decoding exactly if it passes the end of the window or its offset exceeds window and position together; otherwise it uses up its length of the run. |
| LzxBlocks.NoToken | chm/lzx.c:306-318 | Bits that are no token end decoding with an error. |
| LzxBlocks.StreamBegins | chm/lzx.c:489-495 | The stream begins with the digit 0, or with 1 and the size for the call translation, 32 digits taken as a signed number. |
| LzxBlocks.StartState | chm/lzx.c:170-243 | A decoder just made or reset has offsets 1, 1, 1, position 0, nothing read and no code seen. |
| LzxBlocks.Returned | chm/lzx.c:726-727 | The result is success only if the bytes asked for stand in the window in front of the position. |
| LzxBlocks.HandedOut | chm/lzx.c:726-762 | The output is the last bytes made, with its calls moved in the first 32768 blocks of more than six bytes, if there is a size for that and the stream has begun to hold code; the position advances by all bytes of those blocks. |
| Lzx.Carry | chm/lzx.c:570-627 | One literal or match goes to the window and the history alike; after a match the first remembered offset is the one copied from, a repeat exchanged with it and a new one moving the others down, and the bytes made are those that far back; an error exactly when it passes the end of the window, and a copy from outside the window exactly when its offset exceeds the window and the position together. |
| Window.CopyInside | chm/lzx.c:615-627 | A copy that ends within the window takes all its bytes from within it exactly when its offset is at most the window and the position together. |
| Reference.FarMatch | chm/lzx.c:615-627 | A concrete offset beyond the window: 32769 at position 5 of 32768 copies the byte before the position, where LZ77 would copy one that has left the window. |
| Lzx.DecodeRun | chm/lzx.c:567-711 | A verbatim or aligned run carries out, token by token, the steps of the interpreter over an unbounded history, and ends with an error exactly where the interpreter does. |
| Lzx.CopyRaw | chm/lzx.c:713-717 | The bytes of an uncompressed run go to the window and the history alike. |
| Lzx.LzxInit | chm/lzx.c:170-214 | A decoder exactly for windows of 2^15 to 2^21 bytes, in its starting state. |
| Lzx.LzxState.constructor | chm/lzx.c:170-214 | The state of a fresh decoder: position, offsets, flags, and all code lengths zero. |
| Lzx.LzxState.Reset | chm/lzx.c:224-243 | Reset restores every field, clears the code lengths with their safety areas, and keeps the window bytes as an anonymous past. |
| Lzx.LzxState.BeginBlock | chm/lzx.c:499-552 | The next header, with the bit stream begun anew behind an uncompressed block, is one step of the interpreter; it fails exactly where that does. |
| Lzx.LzxState.DoRun | chm/lzx.c:554-724 | One run is the steps of the interpreter: its start with the mask and the check against straddling the window, then its tokens or bytes. |
| Lzx.LzxState.DecodeBlocks | chm/lzx.c:497-726 | The main loop over blocks and runs ends, and comes to the verdict of the interpreter on the same bits, in both success and failure. |
| Lzx.LzxState.Decompress | chm/lzx.c:467-764 | The result is the verdict of the interpreter started on the same bits and state; on success the state is the interpreter's, the history its history, and the output the last outlen bytes of it, translated where the format says so. |
| Meaning.HistoryIsExpansion | chm/lzx.c:497-724 | However far the interpreter has come, its history is the LZ77 expansion of the pieces spelled so far. |
| Meaning.SameAfterReset | chm/lzx.c:224-243 | After a reset a block decodes to the same bytes whatever the window held before the reset, as long as no match reaches back past it. |
| Leftovers.RunAlike | chm/lzx.c:224-243 | What a reset leaves alone besides the window, the lengths of the aligned code and the length of the last block, is never read before it is set again. |
| Meaning.StepsTame | chm/lzx.c:615-627 | While the main code has no codeword for slots beyond the window and the remembered offsets lie within it, nothing is copied from outside the window; only a block header can change that. |
| Meaning.ExactBlock | chm/lzx.c:726-727 | If the input can be read and every match stays within its run, with outlen dividing the window, a block always decodes: it makes exactly the bytes asked for and ends on a block boundary. |
| E8.StepsInverse | chm/lzx.c:750-757 | For a positive file size the offset map is a bijection of [-curpos, filesize) onto itself with the mirrored map as inverse, and leaves all else alone. |
| E8.PassInverse | chm/lzx.c:746-760 | With a positive file size the whole pass is undone by the mirrored pass, and the other way round. |
| E8.PassRelocates | chm/lzx.c:740-764 | At every leader the pass meets, at position p of the file: an operand A in [0, filesize) becomes the number that gives A when p is added, one in [-p, 0) itself plus the size modulo 2^32, any other stays; no other byte changes. |
| E8.CallExample | chm/lzx.c:740-764 | A concrete block: E8 64 00 00 00 at position 10 with a size of 1000 becomes E8 5A 00 00 00. |
| E8.LastSixKept | chm/lzx.c:741-748 | The last six bytes of a block are never changed. |
| E8.InjectiveIff | chm/lzx.c:743-760 | The pass is injective on blocks of a size exactly when the file size is not negative or no leader can lie past its absolute value. |
| E8.TranslateE8 | chm/lzx.c:746-760 | The loop in place computes the pass, with curpos always the start plus the scan index; for positions and sizes of 32 bits the calls are moved as stated for it. |
| ChmCache.DecompressBlockSound | chm/chm_lib.c:1386-1504 | From any sound state a block within reach is decoded to its sequential bytes, and the state stays sound: every cached block holds its sequential bytes and the decompressor is the one after the last block, which is still cached. |
| ChmCache.RegionSound | chm/chm_lib.c:1507-1557 | One region yields the right slice of its block, as much of it as was asked for, and keeps the state sound. |
| ChmCache.RetrieveSound | chm/chm_lib.c:1597-1612 | Reading any stretch gives that stretch of the concatenated sequentially decompressed blocks. |
| ChmCache.RetrieveObjectSound | chm/chm_lib.c:1560-1616 | One request is answered by the clipped slice of the content, for signed lengths. |
| ChmCache.NegativeLength | chm/chm_lib.c:1576-1578 | A negative length is clipped to the whole rest of the object exactly when it goes back beyond the beginning; otherwise nothing is read. |
| ChmCache.ReadBackwards | chm/chm_lib.c:1576-1578 | Concrete requests at position 3 of an object of 10 bytes: a length of -4 reads the seven bytes that are left, -3 none. |
| ChmCache.AnyOrder | chm/chm_lib.c:1560-1616 | Any series of requests in any order is answered as if each had been cut out of the fully decompressed content. |
| LzxArchive.AnyOrder | chm/chm_lib.c:1386-1616 | The same for the archive whose decompressor is the LZX interpreter, from one state after a reset. |
| LzxArchive.ResetDecoder | chm/chm_lib.c:1416-1423 | LZXreset brings the decoder, whatever it held, to where that archive stands after a reset. |
| LzxArchive.Feed | chm/chm_lib.c:1440-1446 | On blocks whose matches stay behind the reset, LZXdecompress makes the next block of that archive and stands at its next state; it fails exactly where the archive does. |
| LzxArchive.DecodeFrom | chm/chm_lib.c:1402-1456 | The blocks from a reset point on, fed to one decoder in a row: the last is what sequential decompression of that archive gives, or fails exactly where that does. |
| ChmFile.ChmHandle.FillSlot | chm/chm_lib.c:1425-1454 | One block into its slot: the slot is labelled, then decoded, then remembered as last. |
| ChmFile.ChmHandle.Decompress | chm/chm_lib.c:1386-1504 | The loop over the earlier blocks and the block itself, tied to the step function that is proved sound. |
| ChmFile.ChmHandle.DecompressRegion | chm/chm_lib.c:1507-1557 | Cache hit and miss, tied to the region function; only the bytes got are written to the buffer. |
| ChmFile.ChmHandle.RetrieveObject | chm/chm_lib.c:1560-1616 | Clipping and the loop over regions, tied to the retrieval function; the buffer holds exactly the bytes counted. |
| ChmResize.RehashTakes | chm/chm_lib.c:1048-1070 | After a resize a slot holds the block of the first old slot that maps to it; a block is lost only to one visited before it. |
| ChmResize.ResizeCacheOk | chm/chm_lib.c:1023-1087 | After any resize every occupied slot s holds a block b with b mod n = s and with the original bytes of b. |
| ChmResize.NoBlockTwice | chm/chm_lib.c:1048-1070 | No block is cached in two slots. |
| ChmResize.ResizeSoundIff | chm/chm_lib.c:1023-1087 | A resize keeps the invariant of retrieval exactly when the last decoded block is a reset point, keeps its place, or there is none. |
| ChmResize.DroppedBlock | chm/chm_lib.c:1402-1404 | When the last decoded block was dropped, reading it again decodes its data from the state behind it. |
| ChmResize.ResizeRun | chm/chm_lib.c:1402-1467 | A concrete run: after shrinking the cache the second block reads differently than before. |
| ChmResize.FailedBlockServed | chm/chm_lib.c:1478-1496 | A failed read yields nothing; the slot of the block that could not be decoded, the one asked for or an earlier one, is labelled already, and serves whatever it held from then on. |
| ChmResize.DecodeKeepsIff | chm/chm_lib.c:1402-1496 | Decoding a block, with those before it that this takes, succeeds and keeps every cached block right exactly when the block can be decoded from its reset point. |
| ChmResize.FailedRun | chm/chm_lib.c:1478-1496 | A concrete run: a missing block cannot be read the first time and reads as left-over memory the second time. |
| ChmFile.ChmHandle.SetMaxBlocksCached | chm/chm_lib.c:1029-1082 | The redistribution loop, tied to the resize function. |
| Cword.SkipLikeParse | chm/chm_lib.c:1094-1120 | Skipping a compressed word and parsing it consume the same bytes, or both run off the page. |
| Cword.ParseEncode | chm/chm_lib.c:1109-1120 | Every 64-bit number is parsed back from its encoding, wherever it stands. |
| Cword.WordIs | chm/chm_lib.c:1109-1120 | A word goes on to its first byte below 0x80, and its value is spelled by the low seven bits of its bytes, most significant first, modulo 2^64. |
| Cword.NoWord | chm/chm_lib.c:1109-1120 | Without such a byte on the page there is no word. |
| Cword.WordExample | chm/chm_lib.c:1109-1120 | A concrete word: 81 02 is 130. |
| Cword.ParseCword | chm/chm_lib.c:1109-1120 | The loop computes the parse, modulo 2^64. |
| Cword.SkipCword | chm/chm_lib.c:1094-1098 | The loop computes the skip. |
| CaseFold.CompareZero | chm/chm_lib.c:1195-1197 | The case-insensitive comparison is zero exactly for equal folded names. |
| CaseFold.CompareTransitive | chm/chm_lib.c:1237-1238 | The comparison is transitive, strictly where one step is strict. |
| CaseFold.EqualIff | chm/chm_lib.c:1195-1197 | Two names compare as equal exactly if they are equally long and have the same letters at all places, case aside. |
| CaseFold.FirstDifference | chm/chm_lib.c:1237-1238 | A name comes before another that it begins, or that has the greater letter at the first difference, capitals taken as small. |
| CaseFold.ZeroEnds | chm/chm_lib.c:1195-1197 | What stands behind a zero byte does not count. |
| DirPages.ParseEntry | chm/chm_lib.c:1142-1160 | An entry is parsed to its name and three words, and the cursor moves behind it; a name longer than the buffer is refused. |
| DirWriter.EntryReads | chm/chm_lib.c:1142-1160 | An entry written as the length of its name, the name, section, start and length is read as exactly that entry, whatever stands around it, and the cursor goes behind it. |
| DirWriter.EntryExample | chm/chm_lib.c:1142-1160 | A concrete entry: 01 61 00 05 07 is the name a in section 0 with start 5 and length 7. |
| DirWriter.LongNameRefused | chm/chm_lib.c:1146-1149 | A name of more than 512 bytes is refused. |
| DirWriter.ItemReads | chm/chm_lib.c:1231-1244 | An index item written as the length of its name, the name and the page number is read as exactly that item. |
| DirWriter.LeafReads | chm/chm_lib.c:481-520 | A page written as PMGL, the size of the free space, an unknown word, the pages before and behind, entries and free bytes is read as those entries and that next page. |
| DirWriter.IndexReads | chm/chm_lib.c:522-545 | A page written as PMGI, the size of the free space, items and free bytes is read as those items. |
| DirPages.FindInPmgl | chm/chm_lib.c:1163-1204 | The cursor of the first entry with the name, nothing when the scan ends or meets a name longer than the buffer before it; entries behind it do not matter. |
| DirPages.ScanLeafIs | chm/chm_lib.c:1163-1204 | On a leaf whose entries are all in order that is the first entry with the name in the list of entries. |
| DirPages.FindInPmgi | chm/chm_lib.c:1207-1248 | The page of the last item not above the name, -1 when the first is above it or a name longer than the buffer comes before. |
| DirPages.ScanIndexIs | chm/chm_lib.c:1207-1248 | On an index whose items are all in order that is the choice from the list of items. |
| PageTree.ChooseFinds | chm/chm_lib.c:1207-1248 | In a sorted directory only the chosen page can hold the name. |
| PageTree.ResolveIsSearch | chm/chm_lib.c:1270-1315 | Descending from any page of the index finds the same entry, or fails, as searching the leaves below it in order. |
| PageTree.ResolveIsScan | chm/chm_lib.c:1251-1317 | In a well-formed directory the descent ends and equals the linear scan of the chain of leaves. |
| PageTree.OneChain | chm/chm_lib.c:1643-1731 | The chain of leaves from a page is unique. |
| PageTree.ListedIsFound | chm/chm_lib.c:1251-1317 | Whatever walking the chain lists is found under its name. |
| Directory.ResolveObject | chm/chm_lib.c:1251-1317 | The entry or the failure that the bytes lead to, pages with a name too long included; on a well-formed directory it is what the linear scan gives. |
| Directory.LookupIsResolve | chm/chm_lib.c:1251-1317 | Where every page on the way is in order, the descent over the bytes is the descent through the lists of items and entries. |
| DirWriter.WrittenIsFound | chm/chm_lib.c:1251-1317 | An entry written on a leaf of a well-formed directory in the file is what looking up its name gives, section, start and length as written, and the enumeration meets it. |
| DirWriter.FoundIff | chm/chm_lib.c:1251-1317 | In a well-formed directory the lookup fails exactly if no entry has the letters of the name, case aside; what it gives is an entry that has them. |
| Directory.Enumerate | chm/chm_lib.c:1643-1731 | The walk of the chain lists the entries up to its end, or up to the first page or entry that cannot be read, and tells which. |
| Directory.WalkIsChain | chm/chm_lib.c:1643-1731 | Where every page of the chain is in order, these are the entries of all leaves. |
| BinTree.Tree.constructor | wv-1.2.4/bintree.c:36-44 | An empty tree. |
| BinTree.Tree.InsertNode | wv-1.2.4/bintree.c:46-91 | Refuses a key that is present and changes nothing; otherwise adds exactly one new node with the data; links, order and the node count stay consistent. |
| BinTree.Tree.NewFits | wv-1.2.4/bintree.c:56-65 | Where the search for an absent key ends, a node with it fits: no other node misses it and its bounds nest. |
| BinTree.Tree.DeleteNode | wv-1.2.4/bintree.c:94-163 | Exactly the node asked for goes, whether it is cut out or its successor takes over its links; links, order and the node count stay consistent. |
| BinTree.Tree.Splice | wv-1.2.4/bintree.c:117-133 | Cutting a node with at most one child out of its parent chain keeps an ordered tree of the others. |
| BinTree.Tree.Replace | wv-1.2.4/bintree.c:138-157 | A node that fits right above another can take over all its links. |
| BinTree.Tree.SuccessorFits | wv-1.2.4/bintree.c:109-115 | The left-most node on the right is that one. |
| BinTree.Tree.FindNode | wv-1.2.4/bintree.c:168-184 | Finds a node with the key if and only if there is one. |
| BinTree.Tree.Step | wv-1.2.4/bintree.c:178-182 | Comparing keys never leaves the side on which a key must be; a missing child means that it is absent. |
| BinTree.Tree.Climb | wv-1.2.4/bintree.c:210-219 | Each parent link leads to a strictly larger part of the tree, so links have no cycle and climbing ends at the root. |
| BinTree.Tree.NextNode | wv-1.2.4/bintree.c:187-222 | The least node, or the node right above the given one, none if there is none. |
| BinTree.Tree.IterationVisitsAll | wv-1.2.4/bintree.c:187-222 | Repeated calls give every node exactly once, in strictly increasing order. |
| ChpMerge.MergeUnique | wv-1.2.4/chp.c:516-599 | A strictly increasing list of prls is determined by its prl for every sprm. |
| ChpMerge.PrlIs | wv-1.2.4/chp.c:534-549 | The prls of a grpprl lie one behind the other: two bytes of sprm, low-order byte first, and as many operand bytes as that sprm has there. |
| ChpMerge.PrlsFill | wv-1.2.4/chp.c:534-549 | Together they are all its bytes. |
| ChpMerge.MergedAreFirst | wv-1.2.4/chp.c:516-599 | A merge holds exactly the prls that are the first with their sprm, in the order of the sprms. |
| ChpMerge.InsertAll | wv-1.2.4/chp.c:534-566 | Reading a grpprl into the tree leaves the first prl of every sprm there and adds up their sizes modulo 256. |
| ChpMerge.Drain | wv-1.2.4/chp.c:576-596 | Taking the least node and deleting it until the tree is empty writes the merge, in order and within the buffer. |
| ChpMerge.Chpx.MergeFrom | wv-1.2.4/chp.c:516-599 | For a merged length of at most 255 the grpprl becomes strictly increasing in sprm, holds for every sprm of either input the first prl with it, and the bytes are unchanged. |
| ChpMerge.DestinationWins | wv-1.2.4/chp.c:534-566 | On a sprm of both inputs the entry of the destination stays. |
| ChpMerge.SourceReplacesIff | wv-1.2.4/chp.c:501-511 | The entries of the source replace those of the destination, as the comment there says, exactly when the inputs agree on all common sprms. |
| ChpMerge.NotReplaced | wv-1.2.4/chp.c:509-511 | One sprm in both grpprls with operands 0 and 1: the merge is the destination, against the comment. |
| ChpMerge.ReadMerged | wv-1.2.4/chp.c:601-612 | The merged bytes are read back as exactly the merge. |
| Rotation.Exchange | wv-1.2.4/getopt.c:328-407 | The two adjacent segments change places, each in its order; all else stays. |
| Rotation.ShortBottom | wv-1.2.4/getopt.c:367-383 | After swapping the short bottom segment to the far end, a smaller rotation remains to be done. |
| Rotation.ShortTop | wv-1.2.4/getopt.c:384-400 | After swapping the short top segment to the near end, a smaller rotation remains to be done. |
| GetOpt.Scanner.Gather | wv-1.2.4/getopt.c:583-589 | Options processed after non-options are moved before them. |
| GetOpt.Scanner.SkipNonOptions | wv-1.2.4/getopt.c:581-597 | The PERMUTE step changes neither what has been scanned nor what is to come. |
| GetOpt.Scanner.Terminate | wv-1.2.4/getopt.c:604-616 | At the terminator everything that follows is a non-option. |
| GetOpt.Scanner.Decode | wv-1.2.4/getopt.c:802-1003 | One option character: the report, the elements used up and the values left for the caller. |
| GetOpt.StepFollows | wv-1.2.4/getopt.c:804-1003 | By the positions of the option string: with i the first place of the character, it takes an argument only if a colon stands at i + 1, the rest of the element first, and the next element exactly if nothing is left, there is one and no colon stands at i + 2; without a colon it uses up at most the element. |
| GetOpt.ScanReports | wv-1.2.4/getopt.c:540-1004 | Every report of a scan is one that this rule gives for a character of an element, or passes a non-option by. |
| GetOpt.GroupedFlags | wv-1.2.4/getopt.c:804-1003 | Options without arguments can be grouped in one element and are reported in order. |
| GetOpt.FlagsThenArgument | wv-1.2.4/getopt.c:804-1003 | Behind such a group an option with an argument takes the rest of the element, or the next element if there is no rest. |
| GetOpt.NoArgumentTaken | wv-1.2.4/getopt.c:956 | With the option string of wvWare, -X takes no argument and the next element stays a non-option. |
| GetOpt.PassedBy | wv-1.2.4/getopt.c:540-640 | An element that is empty, a single dash or begins with no dash is passed by, ends the options or is reported in order, as the mode says. |
| GetOpt.Terminated | wv-1.2.4/getopt.c:604-616 | Behind -- nothing is an option. |
| GetOpt.Scanner.Next | wv-1.2.4/getopt.c:540-1004 | Each call makes the next report of the one-pass scan; at the end the options stand in front and the others from optind on, each in their order. |
| GetOpt.ScanAll | wv-1.2.4/getopt.c:540-1004 | Over a whole run the reports are those of the one-pass scan of the original vector, and from optind on there are exactly the non-options in original order. |
| GetOpt.ScanKeepsAll | wv-1.2.4/getopt.c:540-1004 | The vector stays a permutation of itself. |
| GetOpt.ScanTwice | wv-1.2.4/getopt.c:540-1004 | Scanning the permuted vector again reports the same and moves nothing exactly when no option missed its argument while other elements were there. |
| GetOpt.ScanTwiceDiffers | wv-1.2.4/getopt.c:540-1004 | A concrete vector: in x -a with "a:" the option misses its argument, and takes x the second time. |
| FileTime.Subtract | wv-1.2.4/filetime.c:74-90 | The limbs after the subtraction with carry are the difference modulo 2^64. |
| FileTime.Divide | wv-1.2.4/filetime.c:102-116 | Long division of the limbs by a 16-bit divisor: quotient and remainder, within 32 bits on the way. |
| FileTime.FileTimeToUnixTime | wv-1.2.4/filetime.c:64-135 | Seconds since 1970 rounded down and the remainder in 0..9999999, for every 64-bit time, negative ones included. |
| FileTime.EpochIs | wv-1.2.4/filetime.c:64-72 | The difference of the two time scales is 369 years with 89 leap days. |
| Md5.Context.constructor | wv-1.2.4/md5.c:105-116 | The context of the empty message. |
| Md5.Context.Update | wv-1.2.4/md5.c:119-155 | The context of a message becomes the context of the longer message; counters, buffer and state are functions of the message, so chunks do not matter. |
| Md5.SameContext | wv-1.2.4/md5.c:119-155 | Two contexts that hold the same message agree in every field, however it was split. |
| Md5.Count | wv-1.2.4/md5.c:131-135 | The two words hold eight times the number of bytes modulo 2^64. |
| Md5.RingFrom | wv-1.2.4/md5.c:139-142 | From its last multiple of 64 on a message lies in the buffer. |
| Md5.PaddingIs | wv-1.2.4/md5.c:173-175 | The padding chosen is that of section 3.1 of RFC 1321, the shortest that leaves 56 modulo 64. |
| Md5.PaddedIs | wv-1.2.4/md5.c:157-183 | What is digested: the message, a byte 0x80, as few zeros as lead to 56 modulo 64, and the number of bits modulo 2^64 in eight bytes, low-order byte first. |
| Md5.RegistersBegin | wv-1.2.4/md5.c:110-115 | The registers begin as the bytes in section 3.3 of RFC 1321. |
| Md5.FirstBlock | wv-1.2.4/md5.c:143-150 | The first 64 bytes are transformed first; word i of a block is its bytes from 4i on, low-order byte first. |
| Md5.DigestIs | wv-1.2.4/md5.c:187-196 | The digest is the four registers in their order, low-order byte first. |
| Md5.LastBlock | wv-1.2.4/md5.c:167-183 | The last words are those of the padded message with its length, low-order word first, as in section 3.2 of RFC 1321. |
| Md5.Context.Final | wv-1.2.4/md5.c:157-196 | The digest is the fold of the compression function over the padded message. |
| CrcTable.TableIs | wv-1.2.4/crc32.c:65-130 | Every table entry is eight bits of division of its index by the reflected polynomial. |
| Crc32.StepIsFeed | wv-1.2.4/crc32.c:168 | One step by the table is eight steps by bits. |
| Crc32.CalcCRC32 | wv-1.2.4/crc32.c:156-184 | The checksum is the bit-by-bit CRC-32 of section 8 of RFC 1952 of the record with the field cut out; position 0 stands for 1, and a field may begin behind the record. |
| Crc32.CheckValue | wv-1.2.4/crc32.c:156-184 | The digits 1 to 9 have the CRC CBF43926. |
| Crc32.CutWithin | wv-1.2.4/crc32.c:170-172 | With the field at position pos, counted from 1, the bytes at positions below pos and from pos + len on count. |
| Crc32.FieldIgnored | wv-1.2.4/crc32.c:170-172 | The bytes of the field do not matter. |
| Crc32.NoField | wv-1.2.4/crc32.c:156-184 | With an empty field it is the CRC of the whole record, or of what is in front of a position behind it. |
| Crc32.OneByteShows | wv-1.2.4/crc32.c:156-184 | Changing one byte of the record outside the field always changes the checksum. |
| StateFormat.LeafReadsBack | lib/Char.cpp:306-324 | Eof, Char and Graph objects are read back from their bytes, whatever follows. |
| StateFormat.AllReadBack | lib/Table.cpp:180-237 | A list of objects up to a terminator is read back if each object is and its magic is not the terminator. |
| StateFormat.CellReadsBack | lib/Table.cpp:142-237 | A table cell with its delayed and its current glyphs is read back. |
| StateFormat.RowReadsBack | lib/Table.cpp:331-375 | A table row with any number of cells is read back. |
| StateFormat.TableReadsBack | lib/Table.cpp:471-518 | A table with any number of rows is read back. |
| StateFormat.SnapshotReadsBack | lib/DocState.cpp:70-121 | Any buffer of glyphs with the attributes is read back, field by field. |
| StateFormat.MagicsAre | lib/Table.cpp:9-56 | The magic numbers and terminators as numbers, each the sum of its letters. |
| StateFormat.CharBytes | lib/Char.cpp:306-313 | Where the number, the four fields and the attributes of a character stand. |
| StateFormat.GraphBytes | lib/Graph.cpp:636-644 | Where the number, the sizes and the file name of a picture stand. |
| StateFormat.CellBytes | lib/Table.cpp:142-166 | Where the fields of a cell stand, and what its delayed and its current glyphs are ended by. |
| StateFormat.RowBytes | lib/Table.cpp:331-346 | Where the fields of a row stand, and what its cells are ended by. |
| StateFormat.TableBytes | lib/Table.cpp:471-488 | Where the fields of a table stand, and what its rows are ended by. |
| StateFormat.SnapshotBytes | lib/DocState.cpp:70-79 | The glyphs in order, the number that ends them, and the attributes of glyphs and of lines. |
| StateFormat.PutInOrder | lib/DocState.cpp:70-79 | Objects stand one behind the other, in the order of the list. |
| SnapshotIO.SerializeLeaf | lib/Graph.cpp:636-644 | The writes of a leaf object append its bytes. |
| SnapshotIO.SerializeCell | lib/Table.cpp:142-166 | The writes of a cell append its bytes. |
| SnapshotIO.SerializeRow | lib/Table.cpp:331-346 | The writes of a row append its bytes. |
| SnapshotIO.SerializeTable | lib/Table.cpp:471-488 | The writes of a table append its bytes. |
| SnapshotIO.DeserializeLeaf | lib/Graph.cpp:646-656 | The reads of a leaf object parse it. |
| SnapshotIO.DeserializeCell | lib/Table.cpp:168-237 | The reads of a cell parse it, passing over unknown magics. |
| SnapshotIO.DeserializeRow | lib/Table.cpp:348-375 | The reads of a row parse it. |
| SnapshotIO.DeserializeTable | lib/Table.cpp:490-518 | The reads of a table parse it. |
| SnapshotIO.DeserializeGlyphs | lib/DocState.cpp:81-121 | The loop over the glyphs of a snapshot parses them up to the offset magic. |
| DocState.State.StoreState | lib/DocState.cpp:31-39 | The file is an incomplete header and the bytes of the snapshot. |
| DocState.State.AppendState | lib/DocState.cpp:41-52 | Only the place holder of the end offset and the flag are overwritten. |
| DocState.State.RecoverState | lib/DocState.cpp:54-68 | Refused without any change unless the flag is set; otherwise the offsets and glyphs of the file. |
| DocState.CompletedIff | lib/DocState.cpp:54-62 | A stored file is refused, a completed one is not. |
| DocState.HeaderIs | lib/DocState.cpp:31-52 | The flag is four bytes 00, after completion four bytes FF; the two offsets follow in eight bytes each. |
| DocState.RoundTrip | lib/DocState.cpp:31-68 | Store, append, recover: refused before completion; afterwards every persisted field is as it was, the new end offset included. |
| DocStream.Stream.Get | lib/DocStream.cpp:342-371 | Takes the first character of the logical stream, pushed-back characters first; at the end nothing is taken. |
| DocStream.Stream.UngetAll | lib/DocStream.cpp:173-186 | A string pushed back stands in front of the stream in its order. |
| DocStream.Stream.OffsetRoundTrip | lib/DocStream.cpp:298-340 | Setting the offset to the current one leaves the stream as it is exactly when the characters pushed back are those read last. |
| DocStream.Stream.Resynchronize | lib/DocStream.cpp:298-340 | After it the stream is what the file holds there; it is unchanged exactly under that condition. |
| Matching.MatchChar | lib/DocParser.cpp:912-920 | One character is consumed if it matches, otherwise the stream is as before. |
| Matching.MatchToken | lib/DocParser.cpp:922-939 | Exactly the token is consumed or the stream is as before; at the end of the file what was read is lost; a stream that is what the file holds stays so. |
| Matching.MatchIs | lib/DocParser.cpp:922-939 | It matches exactly if the token begins the stream and none of its bytes is above 127, which a signed char is not equal to; it comes to the end of the file exactly if the stream, all of it such bytes, is a proper beginning of the token. |
| Matching.MatchBlanks | lib/DocParser.cpp:941-961 | The loop with its blanks answers as the exact match on the stream without the bytes 0x20, 0x09 and 0x0A, and a failure loses nothing but such bytes; a stream that is what the file holds stays so after a match, and after a failure exactly if no blank was skipped behind a matched character. |
| Matching.SpacedIsMatch | lib/DocParser.cpp:941-961 | It matches the token, whatever it holds, against the stream without blanks, and a failure loses nothing but blanks. |
| Matching.SolidIs | lib/DocParser.cpp:949-951 | The stream without blanks is its bytes other than 0x20, 0x09 and 0x0A, each once and in their order, by an increasing map of places. |
| Matching.SkippedIs | lib/DocParser.cpp:949-951 | What is skipped is the longest front of bytes 0x20, 0x09 and 0x0A. |
| Matching.LineEndPassed | lib/DocParser.cpp:941-961 | A concrete stream: on a line end and <tr> the token <tr> matches. |
| Matching.NoBlanksExact | lib/DocParser.cpp:941-961 | Where there are no blanks it is the exact match, restoring the stream on failure. |
| Matching.SpacedLoss | lib/DocParser.cpp:941-961 | A success leaves a suffix of the stream; a failure that skipped no blank leaves it unchanged. |
| Matching.SpacedGenuine | lib/DocParser.cpp:941-961 | Going back to the current offset changes nothing after a match, and after a failure exactly if no blank was skipped behind a matched character. |
| Matching.BlankLost | lib/DocParser.cpp:941-961 | A concrete failure that loses a blank: on "x z" a failed match of "xy" leaves "xz". |
| Matching.FoundIsEarliest | lib/DocParser.cpp:990-1003 | The place found is the earliest where a token starts; it gives up only where the file ends within or before a token. |
| Matching.FirstSettles | lib/DocParser.cpp:990-1003 | At one place the first token, in the order given, that the stream has or ends within settles the attempt. |
| Matching.SkipTill | lib/DocParser.cpp:990-1003 | The loop stops there with the token still ahead; a stream that is what the file holds stays so. |

## Left out

- Huffman.MakeDecodeTable: the room for a vector that is rejected can be more than the source declares (Huffman.RoomRunsOut): exactly its nodes if its codes fit; otherwise the nodes of the codes that fit, and one for every level of the code that overruns, whose walk goes through entries that are not its own and may need fewer. The tables of Lzx have room for every vector.
- Lzx.LzxState.Decompress: after a result other than Ok the state must be reset before it is used again; a match whose offset exceeds the window and the position together, and an output longer than what stands before the position, are results of their own (Wild), where the source reads memory it does not own; offset 0, which only an uncompressed block can set up, is one whole window, as the copy loops take it.
- BitReader.Reader.ReadHuffSym: the buffer has 32 bits, as the source's ULONG, and whatever memory lies behind the input is read as if it were part of it.
- ChmCache.AnyOrder: block numbers fit the int they are kept in, all block decodes succeed, and the decompressor has one fixed state after a reset.
- LzxArchive.Feed: the memory behind a compressed block is given with the archive; nothing is said of a decoder after a block that fails, and of blocks whose matches reach back past the reset.
- ChmFile.ChmHandle.RetrieveObject: objects have less than 2^63 bytes; uncompressed objects, the check whether compression is enabled, and the bounds of compressed blocks in the file are not part of it.
- Directory.ResolveObject: no word or name is read behind its page, and the index ends, where the source would read past the page or go round for ever; pages have room for their header; names are compared as C strings without a locale.
- Directory.Enumerate: for a caller that takes every entry, on a chain that ends; the filter flags and early ends are left out.
- BinTree.Tree.InsertNode: the comparison functions compare integer keys; the tolerant comparison of cell bounds in `wv-1.2.4/table.c` is not such an order.
- ChpMerge.Chpx.MergeFrom: the operand length is a parameter, for sprms where the position and the pointer advance together; a merged length above 255 is excluded, where the source overruns its buffer.
- GetOpt.Scanner.Next: no long options and no `W;` in the option string; the leading `+` or `-` of the option string is a parameter; callers do not move optind between calls; error messages and the environment are left out.
- FileTime.FileTimeToUnixTime: for a time_t of 64 bits.
- Md5.Context.Update: UINT4 has 32 bits, although `unsigned long` can have 64; the compression function is a parameter.
- Crc32.CalcCRC32: the field starts within the buffer or right behind it, and positions do not wrap around.
- DocState.State.RecoverState: a completed file holds a whole snapshot; at an early end of file the source loops or repeats the last magic. Structures are written as blocks of 8 and 24 bytes, and longs of 64 bits.
- DocStream.Stream.SetOffset: foreground mode without page limits, and offsets that the file has.
- File and descriptor input and output, mutexes, allocation failure and the release of memory.
- Rendering, page and table layout, fonts and images.
- The readers of Word records and the event emission of the Word decoders, which copy fields or depend on code outside this model.
- Decryption (`decrypt95.c`, `decrypt97.c`), whose cipher is not part of this model.
