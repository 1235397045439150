# perun: verified models

perun maps Mach-O and PE images into a Linux process and brings its own hashing, encryption, parsing,
allocation and synchronization code. This project models the parts whose correctness is hardest to see and
proves what they are for. `dafny verify dfyconfig.toml` checks everything.

Methods follow the source's loops and in-place updates; each is tied to a specification function or state
by its `ensures`, and the lemmas speak about those. Machine integers are unbounded `int` with the wrap of a
release build written out (`Wrap32`, `Wrap64`). A slice panic, or an access outside a mapping, is the outcome
`Crash` (or `None`, or `false`) and never an assumption.

| file | what it models |
|---|---|
| `Rdtsc`, `RdtscMeaning` | the rdtsc scan and its table shortcut; what the code it replaces and the code it writes compute |
| `MachLoader`, `MachImage`, `LoadersAgree` | the two Mach-O loaders and their agreement on well-formed images |
| `LoaderContents` | the bytes both leave, slot by slot |
| `LoaderPictures`, `LooseFixups`, `LoaderLimits`, `LoaderOverlaps`, `LoaderWitnesses` | exactly when they agree on any image whose fixups lie in segments, and images on which they part |
| `Sha256Spec`, `Sha256Constants`, `Sha256Layout` | SHA-256 as the standard has it: where its constants come from, its bit functions, its bytes |
| `Sha256Ni`, `Sha256`, `Sha256Streams` | the SHA-NI registers, the scalar code, the three streaming or one-shot hashers |
| `Gf128`, `Ghash`, `Vault`, `VaultFormat` | the field of GHASH, `gf_mul`, `ghash_tag`, AES-GCM and the account file, byte by byte |
| `Leb`, `DyldStream`, `DyldProgram`, `Utf8Exact` | LEB128, UTF-8 repair, the dyld opcode decoder and what its programs mean |
| `MachParse`, `ParsersAgree` | the two load-command parsers and the exact set of images the second serves |
| `MachPrint`, `MachErrors` | images printed field by field and read back; every limit and refusal with its own condition |
| `Reach` | the dependency walk of the licence tables |
| `Sync`, `SyncHistory` | events and mutexes over a lock and a condition variable, and what they do told from their history alone |
| `Calendar` | seconds to dates |
| `GuestHeap` | the bump heap with size prefixes |
| `PeLoad`, `PePrint` | copying and relocating a PE image; relocation blocks printed and applied |
| `Dmap`, `DmapListing` | the tagged listing format, and listings printed and read back as records |
| `Streams`, `Cpio`, `CpioFields`, `CpioArchive` | ranged reading, full reads, octal fields, the archive walk |
| `Base64`, `PlistEnvelope` | base64 and the exchange envelope |
| `Spelling` | the fixed texts of the formats |

## What is false of the code, and exactly when

* Two loaders: values left staged by a failed load, a slot without file bytes rebased twice, and a slot across the end
  of a segment's file bytes break the agreement. `AgreeExactly` gives the exact condition for images with any mix of
  them; `StaleStages`, `StaleStage`, `RebasedOften`, `RebasedTwice`, `StraddlingBind`, `StraddlingRebase` and
  `OverlappingRebases` say what it comes to for each, whatever the other fixups and the text, and `AgreeOnEmpty` covers
  every way slots without file bytes overlap; `LoaderWitnesses` has an image for each.
* The table shortcut, with rows inside the section, leaves what the scan leaves exactly when some row repeats an offset or
  names no idiom of the original bytes, so that the scan runs after all, or the rows list every site (`TableRunsExactly`,
  `CompleteTable`, `ShortcutAgrees`; `EmptyTableMissesSite` is an input).
* The replacement of an rdtsc idiom leaves what the idiom leaves when the counter reads zero exactly when it is not the
  twelve-byte idiom or rcx was zero before: that idiom puts its result in rcx, which its replacement does not write
  (`RdtscMeaning.FrozenClock`). The comment at macho_loader.rs:800 speaks of rax and rdx only, and for those it holds always
  (`CounterReadsZero`).
* The 32-bit sums of the relocation walk make it read or write past the image, which is a crash, exactly when the blocks of a
  printed directory end within eight bytes of 2^32, or a 64-bit entry's place, or a 32-bit one's that does not fit, lies there
  and the wrapped end is inside the image; from every other printed directory it takes exactly the places printed (`PePrint.DirectoryMet`).
* A record whose name holds a NUL cannot be decoded back (`RecordsRoundTrip`, both directions), and a name that is
  not UTF-8 takes with it as many of the bytes after it as its repair is longer, so that it is harmless exactly when the
  repair keeps the length (`LossyNameSwallows`, `LossyNameMovesReader`, `LossyNameDropsBind`).
* `parse_reader` refuses some images `parse_thin_owned` accepts, among them every image with an empty symbol
  table whose offset starts no stream (`ParsersAgree`, `EmptySymtabRefused`; `OnlyOwned` with `BareImage` is one).
* `malloc` is unsound exactly when the request's true end is no 64-bit address, unless the size rounds to zero and not
  even its prefix fits, when the answer is null (`SoundExactly`; `MallocTooSmall` is a size). `calloc` is unsound exactly
  when the wrapped request fits although the product or the true end wraps (`CallocSoundExactly`, `CallocTooSmall`).
* A PE section with a raw size but no raw pointer, or with raw data past the end of the file, is mapped by the file
  view but not copied (`CopyAgreesExactly`; `UncopiedSection` and `TruncatedSection` are inputs).
* The search that stops at proc macros raises `KeyError` exactly when a wanted dependency of a reachable node is
  no package, given that the roots are packages (`ReachFrom`, `DanglingRaises`).

## Model

| member | source | states |
|---|---|---|
| `LoadersAgree.LoadersAgree` | crates/perun-core/src/macho_loader.rs:108-200 | Patching the buffer, staging zero-fill slots and copying leaves the same bytes as copying and patching in memory, rdtsc rewriting included, on every well-formed thin image with nothing staged before. |
| `LoadersAgree.FixupsAgree` | crates/perun-core/src/macho_loader.rs:347-469 | All fixups succeed on both sides, and the patched mapping shows the patched buffer over the staged values, byte for byte. |
| `LoadersAgree.PatchAll` | crates/perun-core/src/macho_loader.rs:662-735 | One fixup list applied to the buffer with staging and to the mapping keeps the two pictures equal, by induction over the list. |
| `LoadersAgree.NeutralizeCommutes` | crates/perun-core/src/macho_loader.rs:801-850 | Rewriting `__text` in the buffer and copying, or copying and rewriting in the mapping, leave the same bytes. |
| `LoadersAgree.WriteDeferredOnce` | crates/perun-core/src/macho_loader.rs:156-168 | With distinct segment names a staged value lands in exactly one place. |
| `LoaderLimits.AgreeExactly` | crates/perun-core/src/macho_loader.rs:108-200 | The main result beyond well-formed images: with any leftovers, any text and any fixups inside segments whose unbacked rebases coincide or are apart, both loaders leave the same bytes exactly when every uncovered byte of a rebased unbacked slot comes out of the additions as the buffer has it, each file byte under a bind at an edge is the bind's already, and the leftovers are zero wherever nothing covers them. |
| `LoaderPictures.Pictures` | crates/perun-core/src/macho_loader.rs:347-469 | Whatever overlaps whatever without file bytes, the loads agree exactly when staging the unbacked fixups over the leftovers and patching them in memory leave the same there. |
| `LooseFixups.RebaseWord` | crates/perun-core/src/macho_loader.rs:662-690 | In memory each rebase of a slot adds the slide once more, modulo 2^64, whatever the other fixups beside it. |
| `LooseFixups.RebaseStage` | crates/perun-core/src/macho_loader.rs:662-690 | Staged, a slot holds one slide however often it is rebased. |
| `LoaderLimits.StaleStages` | crates/perun-core/src/macho_loader.rs:156-168 | On every well-formed image any list of leftovers is harmless exactly when it leaves zero wherever there is no file byte and no own unbacked slot. |
| `LoaderLimits.StaleStage` | crates/perun-core/src/macho_loader.rs:156-168 | One value left staged for a slot is harmless exactly when its bytes are zero wherever no file byte and no own unbacked slot lies. |
| `LoaderLimits.RebasedOften` | crates/perun-core/src/macho_loader.rs:662-690 | A slot without file bytes rebased any number of times comes out alike exactly when that multiple of the slide is the slide, modulo 2^64. |
| `LoaderLimits.RebasedTwice` | crates/perun-core/src/macho_loader.rs:662-690 | Rebased twice, beside any other well-formed fixups and text: alike exactly when the slide is zero. |
| `LoaderLimits.StraddlingBind` | crates/perun-core/src/macho_loader.rs:692-735 | A bind across the end of the file bytes, beside any other well-formed fixups and text, comes out alike exactly when the file already held the front of its value. |
| `LoaderLimits.StraddlingRebase` | crates/perun-core/src/macho_loader.rs:662-690 | A rebase across that end comes out alike exactly when the slide is zero in as many low bytes as lie in the file. |
| `LoaderOverlaps.OverlappingRebases` | crates/perun-core/src/macho_loader.rs:662-690 | Two rebases of partly overlapping slots without file bytes, beside any other well-formed fixups and text, come out alike exactly when the slide is zero in the bytes of the first that the second covers. |
| `LoaderOverlaps.AgreeOnEmpty` | crates/perun-core/src/macho_loader.rs:662-735 | However slots without file bytes overlap one another, in chains or under binds, with any backed fixups and text: the loads agree exactly when running the fixups of those slots over an empty mapping, adding or only writing, leaves the same. |
| `LoaderWitnesses.StaleStageParts` | crates/perun-core/src/macho_loader.rs:156-168 | A one-page image without fixups on which a leftover value shows. |
| `LoaderWitnesses.RebasedTwiceParts` | crates/perun-core/src/macho_loader.rs:662-690 | A one-page image with a doubled rebase that comes out differently for every slide but zero. |
| `LoaderWitnesses.StraddlingBindParts` | crates/perun-core/src/macho_loader.rs:692-735 | A page of four file bytes and a bind across their end that come out differently. |
| `LoaderWitnesses.StraddlingRebaseParts` | crates/perun-core/src/macho_loader.rs:662-690 | The same page with a rebase there. |
| `LoaderWitnesses.OverlapParts` | crates/perun-core/src/macho_loader.rs:662-690 | A page with rebases at 0 and 4 that comes out differently. |
| `MachImage.LoaderThread.ApplyRebases` | crates/perun-core/src/macho_loader.rs:662-690 | The loop patches the buffer and stages slots as the specification does, error cases included; the thread's list is what it was plus the newly staged values. |
| `MachImage.LoaderThread.ApplyBinds` | crates/perun-core/src/macho_loader.rs:692-735 | The same for binds; `LoaderContents.BoundSlot` says which value each slot ends with. |
| `MachImage.LoaderThread.LoadParsed` | crates/perun-core/src/macho_loader.rs:108-200 | The whole buffer loader: it succeeds exactly when `LoadError` finds no error, a failure returns that error, the mapping it returns is the specified image, and what stays staged is `Leftover`. |
| `MachImage.WriteStaged` | crates/perun-core/src/macho_loader.rs:156-168 | Draining the staged list writes each value as specified or fails where it leaves the mapping. |
| `MachImage.CopySegments` | crates/perun-core/src/macho_loader.rs:170-188 | Every segment's file bytes are copied to its place, or the first bad segment is reported. |
| `MachImage.MapSegments` | crates/perun-core/src/macho_loader.rs:359-403 | The reading loop delivers each segment's file bytes whatever the sizes of the partial reads. |
| `MachImage.RebaseMapped` | crates/perun-core/src/macho_loader.rs:405-428 | Rebases applied in mapped memory. |
| `MachImage.BindMapped` | crates/perun-core/src/macho_loader.rs:430-455 | Binds applied in mapped memory, in table order, with the same values. |
| `MachImage.MapAndFixup` | crates/perun-core/src/macho_loader.rs:347-469 | The whole mapping loader leaves the specified image, with or without a pinned rdtsc table; it fails exactly when there is nothing to map or mapping and fixing up fail, with that error. |
| `LoaderContents.BoundSlot` | crates/perun-core/src/macho_loader.rs:692-735 | In both mappings of a well-formed image, the eight bytes of a bind slot that no later bind and no rewritten idiom touches are the little-endian bytes of the resolved address plus the addend modulo 2^64, of the zero page for an unresolved symbol with one of the listed data prefixes or the stack guard, and of the symbol's trap stub otherwise. |
| `LoaderContents.BoundToOne` | crates/perun-core/src/macho_loader.rs:430-455 | Those cases leave exactly one value for each bind. |
| `LoaderContents.RebasedSlot` | crates/perun-core/src/macho_loader.rs:662-690 | In both, a rebased slot holds the file's word, or zero past the segment's file bytes, plus the load address less the preferred base for each rebase there, modulo 2^64. |
| `LoaderContents.PlainByte` | crates/perun-core/src/macho_loader.rs:170-188 | In both, every other byte of a segment is the file's byte, or zero past the file bytes. |
| `MachErrors.BufferSlot` | crates/perun-core/src/macho.rs:1202-1230 | Where a fixup goes in the buffer: refused past the segment, staged past its file bytes, refused past the file, else at its place, all by 64-bit sums, in the first segment of the name. |
| `MachErrors.MappedSlot` | crates/perun-core/src/macho.rs:1241-1266 | The same in the mapping. |
| `MachErrors.UnnamedSlot` | crates/perun-core/src/macho.rs:1202-1230 | A fixup in a segment that does not exist is refused for that. |
| `MachErrors.TextBroughtIn` | crates/perun-core/src/macho_loader.rs:359-403 | Page-mapped text shows the file to the end of its last page and zeros past the end of the file, and nothing else changes. |
| `MachErrors.SegmentBroughtIn` | crates/perun-core/src/macho_loader.rs:359-403 | Every other segment is read up to the end of the mapping, or refused exactly when those bytes are not in the file. |
| `MachErrors.SegmentCopied` | crates/perun-core/src/macho_loader.rs:170-188 | A segment of the buffer is refused exactly when its file bytes end past the buffer, and crashes exactly when its place or its bytes leave the mapping or the buffer. |
| `LoaderContents.LoadFails` | crates/perun-core/src/macho_loader.rs:108-154 | With nothing to map a load fails before anything is staged; when the mapping fails it fails for that. |
| `Rdtsc.Scan` | crates/perun-core/src/macho_loader.rs:638-660 | The in-place scan leaves exactly the specified bytes. |
| `Rdtsc.NeutralizedMeaning` | crates/perun-core/src/macho_loader.rs:638-660 | Those bytes: the replacement at every position i with i + 12 <= end where an idiom occurs in the original, and the original byte everywhere else. |
| `Rdtsc.NoSiteLeft` | crates/perun-core/src/macho_loader.rs:638-660 | No idiom is left at any position the scan covers. |
| `Rdtsc.RewriteThenScan` | crates/perun-core/src/macho_loader.rs:583-597 | Rewriting one site beforehand removes that site only and does not change what the scan leaves. |
| `Rdtsc.ApplyTable` | crates/perun-core/src/macho_loader.rs:583-597 | Rows are applied in order until one does not find its idiom; the verdict says whether all did. |
| `Rdtsc.TableThenScan` | crates/perun-core/src/macho_loader.rs:608-660 | However far a table in range got, the scan after it leaves the scan's bytes. |
| `Rdtsc.TableRunsExactly` | crates/perun-core/src/macho_loader.rs:583-597 | A table in range runs to its end exactly when no row repeats an offset and every row names an idiom of the bytes as they were before the run. |
| `Rdtsc.CompleteTable` | crates/perun-core/src/macho_loader.rs:583-597 | Such a table runs to its end and equals the scan exactly when its rows are distinct and genuine and list every site. |
| `Rdtsc.NeutralizeRdtsc` | crates/perun-core/src/macho_loader.rs:801-850 | The buffer variant: scan `__text` when it fits, else leave everything. |
| `Rdtsc.NeutralizeRdtscMapped` | crates/perun-core/src/macho_loader.rs:608-660 | The mapped variant with its table shortcut and fallback. |
| `Rdtsc.ShortcutAgrees` | crates/perun-core/src/macho_loader.rs:608-660 | The mapped variant equals the plain scan for a table in range exactly when rows that are distinct and all genuine list every site. |
| `Rdtsc.EmptyTableMissesSite` | crates/perun-core/src/macho_loader.rs:608-660 | An idiom and an empty table on which the two differ. |
| `RdtscMeaning.FrozenClock` | crates/perun-core/src/macho_loader.rs:793-829 | Run on the registers, a replacement leaves what its idiom leaves when the counter reads zero, exactly when it is not the second idiom or rcx was zero before. |
| `RdtscMeaning.IdiomMeans` | crates/perun-core/src/macho_loader.rs:567-579 | The first idiom puts the whole counter in rdx, the second in rcx, the third three bits of it in rax. |
| `RdtscMeaning.ReplacementMeans` | crates/perun-core/src/macho_loader.rs:552-564 | Every replacement is straight-line code that zeroes rax and rdx and does nothing else. |
| `RdtscMeaning.CounterReadsZero` | crates/perun-core/src/macho_loader.rs:800-800 | It leaves rax and rdx as the instruction does when the counter reads zero. |
| `Sha256Constants.InitialIsRoots` | crates/perun-core/src/sha256.rs:268-277 | The initial words are the first 32 bits after the point of the square roots of the first eight primes. |
| `Sha256Constants.ConstantsAreRoots` | crates/perun-core/src/sha256.rs:15-80 | The round constants are those of the cube roots of the first sixty-four primes. |
| `Sha256Constants.SigmasAre` | crates/perun-core/src/sha256.rs:380-398 | The four sums of rotations and shifts, each rotation as its two shifts. |
| `Sha256Constants.ChChooses` | crates/perun-core/src/sha256.rs:392-392 | Where the first word has a one bit the choice has the second word's bit, and elsewhere the third's. |
| `Sha256Constants.MajAgrees` | crates/perun-core/src/sha256.rs:399-399 | A bit is set exactly where two of the three words have it. |
| `Sha256Layout.WordIs` | crates/perun-core/src/sha256.rs:376-378 | The first sixteen schedule words are the block's big-endian words in order. |
| `Sha256Layout.OutputIs` | crates/perun-core/src/sha256.rs:321-325 | The digest is the eight chaining words in order, big-endian. |
| `Sha256Layout.PaddedIs` | crates/perun-core/src/sha256.rs:310-319 | The padded message is the message, 0x80, the fewest zeros that fill a block, and the length in bits modulo 2^64, big-endian. |
| `Sha256Ni.CompressHardware` | crates/perun-core/src/sha256.rs:151-245 | The path as shipped, these instructions over this table and these registers, leaves the eight words the standard defines for every state and run of blocks. |
| `Sha256Ni.HardwareIsStandard` | crates/perun-core/src/sha256.rs:192-201 | The order in which the instructions add the round's words gives the same compression of any run of blocks as the standard's order. |
| `Sha256Ni.CompressBlocksNi` | crates/perun-core/src/sha256.rs:151-245 | The method over registers, table and blocks equals compression of every block in order, packing and unpacking included. |
| `Sha256Ni.CompressBlockNi` | crates/perun-core/src/sha256.rs:179-233 | Sixteen groups of four rounds with five rotating registers and the feed-forward compress one block. |
| `Sha256Ni.TwoRounds` | crates/perun-core/src/sha256.rs:192-201 | One `sha256rnds2` on packed registers is two rounds of the standard. |
| `Sha256Ni.FourRounds` | crates/perun-core/src/sha256.rs:192-201 | A `rounds4!` group advances the packed state by four rounds, the constants taken in reverse from the table. |
| `Sha256Ni.ScheduleWords` | crates/perun-core/src/sha256.rs:203-211 | `sha256msg1`, `alignr`, add and `sha256msg2` derive the next four schedule words. |
| `Sha256Ni.LoadIsWords` | crates/perun-core/src/sha256.rs:183-187 | Loading and byte-shuffling gives four big-endian words in lane order. |
| `Sha256Ni.PackIn` | crates/perun-core/src/sha256.rs:169-177 | The shuffle, align and blend pack A..H into ABEF and CDGH. |
| `Sha256Ni.PackOut` | crates/perun-core/src/sha256.rs:235-243 | The closing shuffles restore A..H. |
| `Sha256Ni.TableIsReversed` | crates/perun-core/src/sha256.rs:94-117 | `K32X4` holds the sixty-four constants, each group of four reversed. |
| `Sha256Scalar.Compress` | crates/perun-core/src/sha256.rs:374-418 | The scalar schedule array and sixty-four round loop compute the compression function. |
| `Sha256Scalar.ExpandMessage` | crates/perun-core/src/sha256.rs:376-391 | The schedule array holds the standard's sixty-four words. |
| `Sha256Core.Sha256.Update` | crates/perun-core/src/sha256.rs:285-308 | However the buffer stands, the message absorbed grows by exactly the data fed in. |
| `Sha256Core.Sha256.Finish` | crates/perun-core/src/sha256.rs:310-326 | The padding loop ends, and the digest is that of the whole message. |
| `Sha256Account.Sha256.Update` | crates/perun-cli/src/store/account.rs:624-648 | The second copy's update loop absorbs exactly its input. |
| `Sha256Account.Sha256.Finalize` | crates/perun-cli/src/store/account.rs:650-677 | Its one- or two-block padding gives the same digest. |
| `Sha256Account.PaddingByBlock` | crates/perun-cli/src/store/account.rs:650-665 | The padding of a message, cut at the block edges its buffer level gives. |
| `Sha256OneShot.Hash` | crates/perun-cli/src/fetcher.rs:118-191 | The one-shot loop over a padded copy gives the same digest. |
| `Sha256Agreement.HashThreeWays` | crates/perun-cli/src/fetcher.rs:118-191 | Any split into `update` calls, on scalar or hardware, and both other hashers: all three digests are the standard's digest of the concatenation. |
| `Gf128.Distributes` | crates/perun-cli/src/store/account.rs:376-397 | The field product distributes over XOR in both arguments. |
| `Gf128.Commutes` | crates/perun-cli/src/store/account.rs:376-397 | The field product commutes. |
| `Gf128.Associates` | crates/perun-cli/src/store/account.rs:376-397 | The field product associates. |
| `Gf128.HornerIsPolynomial` | crates/perun-cli/src/store/account.rs:337-372 | Absorbing block by block computes the polynomial in the hash key. |
| `Ghash.GfMul` | crates/perun-cli/src/store/account.rs:376-397 | The shift-and-reduce loop over byte arrays multiplies in the field. |
| `Ghash.BitsShift` | crates/perun-cli/src/store/account.rs:386-394 | The byte shift with carry and the 0xE1 reduction is multiplication by the generator. |
| `Ghash.Absorb` | crates/perun-cli/src/store/account.rs:345-359 | The absorb loop with zero padding folds in every block of the data, for every length. |
| `Ghash.GhashTag` | crates/perun-cli/src/store/account.rs:337-372 | The tag is the hash polynomial over all padded blocks and the length block, masked by the base. |
| `VaultFormat.HashedByte` | crates/perun-cli/src/store/account.rs:345-359 | The blocks hashed are the zero-padded associated data, then the zero-padded ciphertext, then one more. |
| `VaultFormat.LengthsHashed` | crates/perun-cli/src/store/account.rs:360-362 | That one is two big-endian 64-bit numbers, digit by digit: eight times the length of the associated data and then eight times that of the ciphertext. |
| `VaultFormat.BitOfByte` | crates/perun-cli/src/store/account.rs:376-384 | Bit 8j + r of a field element is bit 7 - r of byte j. |
| `VaultFormat.ReductionIs` | crates/perun-cli/src/store/account.rs:386-394 | The 128th power of the generator is the sum of its powers 0, 1, 2 and 7. |
| `VaultFormat.TagBit` | crates/perun-cli/src/store/account.rs:337-372 | Each bit of the tag is the polynomial's bit at the enciphered zero block, masked with the bit of the enciphered counter 1. |
| `VaultFormat.StreamByte` | crates/perun-cli/src/store/account.rs:282-293 | Byte i of the ciphertext is byte i of the text XOR byte i mod 16 of the enciphered block of the IV and the big-endian counter 2 + i/16 modulo 2^32. |
| `VaultFormat.SealedBytes` | crates/perun-cli/src/store/account.rs:124-140 | Every byte of a sealed file: format 4, the salt length, salt, IV, tag and text under the keystream, with the key derived from machine, fixed text and passphrase. |
| `VaultFormat.Refusals` | crates/perun-cli/src/store/account.rs:143-168 | Any other file has its own error, decided by its first byte, its length and its length field. |
| `Vault.CtrInverse` | crates/perun-cli/src/store/account.rs:282-293 | Counter mode is its own inverse for every length, partial blocks and counter wrap included. |
| `Vault.CtrLoop` | crates/perun-cli/src/store/account.rs:282-293 | The keystream loop computes counter mode from counter 2. |
| `Vault.AesGcmEncrypt` | crates/perun-cli/src/store/account.rs:268-297 | The ciphertext is counter mode of the plaintext, and the tag authenticates it. |
| `Vault.AesGcmDecrypt` | crates/perun-cli/src/store/account.rs:299-333 | Any other tag is refused; the right one gives the decrypted bytes or, when they are not UTF-8, the text error. |
| `Vault.Encrypt` | crates/perun-cli/src/store/account.rs:124-140 | The blob is format, salt length, salt, IV, tag and ciphertext, in that order. |
| `Vault.Decrypt` | crates/perun-cli/src/store/account.rs:143-168 | Every blob gets the specified answer, each error case with its own. |
| `Vault.SealedOpens` | crates/perun-cli/src/store/account.rs:124-168 | For every text, machine, passphrase, salt and IV, decrypting the encrypted blob returns the text. |
| `Vault.OpensExactlySealed` | crates/perun-cli/src/store/account.rs:124-168 | A blob opens to a text exactly when encrypting that text with some salt and IV makes that blob. |
| `Vault.TagUnique` | crates/perun-cli/src/store/account.rs:311-319 | Exactly one tag passes the comparison. |
| `Vault.SameTag` | crates/perun-cli/src/store/account.rs:311-319 | The accumulated difference is zero exactly when all sixteen bytes agree. |
| `Leb.ReadUlebAt` | crates/perun-core/src/macho.rs:169-188 | The reader returns the number's value cut to 64 bits and its length, or an error past ten bytes or the end. |
| `Leb.ReadSlebAt` | crates/perun-core/src/macho.rs:191-213 | The same with sign extension below 64 bits. |
| `Leb.UlebRoundTrip` | crates/perun-core/src/macho.rs:169-188 | Reading undoes encoding for every unsigned 64-bit number, in at most ten bytes. |
| `Leb.SlebRoundTrip` | crates/perun-core/src/macho.rs:191-213 | Reading undoes encoding for every signed 64-bit number, in at most ten bytes. |
| `Utf8.LossyKeepsText` | crates/perun-core/src/macho.rs:215-224 | Lossy decoding leaves a byte string unchanged exactly when it is valid UTF-8. |
| `Utf8Exact.TextExactly` | crates/perun-core/src/macho.rs:215-224 | Bytes are valid text exactly when they are a run of encoded Unicode scalar values. |
| `Utf8Exact.ReplacementIs` | crates/perun-core/src/macho.rs:215-224 | What replaces a bad part is the encoding of U+FFFD. |
| `Utf8Exact.BadIsMaximal` | crates/perun-core/src/macho.rs:215-224 | Where they are not, no longer part of the bytes than one replacement stands for begins an encoding. |
| `Utf8Exact.BadBegins` | crates/perun-core/src/macho.rs:215-224 | And what it stands for begins one, unless it is a single byte. |
| `DyldStream.Decoder.DecodeStream` | crates/perun-core/src/macho.rs:275-462 | The loop over opcodes returns the specified entries or error and leaves the specified symbol for the next call. |
| `DyldStream.Decoder.RebaseOp` | crates/perun-core/src/macho.rs:317-378 | One rebase opcode. |
| `DyldStream.Decoder.BindOp` | crates/perun-core/src/macho.rs:379-456 | One bind opcode, with the thread's symbol. |
| `DyldProgram.DecodeRunsProgram` | crates/perun-core/src/macho.rs:275-462 | Decoding the bytes of any opcode program runs its unrolled form on a five-instruction machine; nothing after a closing DONE is read. |
| `DyldProgram.UnrolledStreamAgrees` | crates/perun-core/src/macho.rs:275-462 | Every stream with run lengths and combined moves decodes to the same entries and symbol as its unrolled stream. |
| `DyldProgram.RecordsRoundTrip` | crates/perun-core/src/macho.rs:275-462 | Decoding undoes encoding of any list of records, plain or lazy, from any leftover symbol, exactly when no name holds a NUL. |
| `DyldProgram.DoneEndsPlainStream` | crates/perun-core/src/macho.rs:301-316 | After the records a DONE ends a plain stream, whatever follows. |
| `DyldProgram.LeftoverSymbolBinds` | crates/perun-core/src/macho.rs:463-478 | A stream that binds before naming anything takes the name the previous call left. |
| `DyldProgram.LossyNameMovesReader` | crates/perun-core/src/macho.rs:397-402 | A stream that names a symbol decodes, whatever follows, as with the repaired name in its place exactly when the repair kept the length. |
| `DyldProgram.LossyNameSwallows` | crates/perun-core/src/macho.rs:397-402 | After any program, for any name and any bytes after it, the stream decodes as the one with the repaired name and without as many of those bytes as the repair is longer. |
| `DyldProgram.LossyNameDropsBind` | crates/perun-core/src/macho.rs:397-402 | A name of one bad byte swallows the bind after it. |
| `DyldProgram.RunClean` | crates/perun-core/src/macho.rs:275-462 | No decoded name ever holds a NUL. |
| `ParsersAgree.ParsersAgree` | crates/perun-core/src/macho.rs:535-803 | If the reader accepts a thin image, the buffer parser returns the same result and leaves the same symbol; and when the buffer parser accepts, the reader does exactly if the image keeps to the reader's limits. |
| `ParsersAgree.EmptySymtabRefused` | crates/perun-core/src/macho.rs:640-646 | A symbol table with no entries whose offset starts no stream makes the reader refuse. |
| `ParsersAgree.OnlyOwned` | crates/perun-core/src/macho.rs:640-646 | A header, one segment and an empty symbol table: the buffer parser takes the image and the reader refuses it. |
| `ParsersAgree.BareImage` | crates/perun-core/src/macho.rs:640-646 | There is such a file, of 128 bytes. |
| `ParsersAgree.WalkPrefix` | crates/perun-core/src/macho.rs:580-638 | Walking only the command bytes succeeds exactly when the whole walk does and every command lies inside them. |
| `ParsersAgree.StreamsAgree` | crates/perun-core/src/macho.rs:655-726 | Streams read from the fetched tail through the offset map are the streams of the file. |
| `ParsersAgree.SymbolsAgree` | crates/perun-core/src/macho.rs:728-766 | The symbol table read from the tail is the file's, exactly when both its parts were fetched. |
| `ParsersAgree.TextPrefix` | crates/perun-core/src/macho.rs:768-790 | The `__text` search in the command bytes finds what the search in the file finds, exactly when all headers are inside. |
| `MachParse.ParseOwned` | crates/perun-core/src/macho.rs:977-1146 | The buffer parser computes the specified result, which on a printed image is that image (`MachPrint.OwnedPrinted`). |
| `MachParse.ParseReader` | crates/perun-core/src/macho.rs:535-803 | The reader-based parser computes the specified result on a thin file; where it accepts, that is the buffer parser's. |
| `MachParse.WalkCommands` | crates/perun-core/src/macho.rs:992-1047 | The command loop computes the walk, which on printed commands collects exactly what was printed (`MachPrint.WalkPrinted`) and refuses by `MachErrors.CommandRefused`. |
| `MachPrint.OwnedPrinted` | crates/perun-core/src/macho.rs:977-1146 | The parser's answer on an image printed field by field, with its own layout, is that image: base, segments, commands, fixups, symbols and text. |
| `MachPrint.WalkPrinted` | crates/perun-core/src/macho.rs:992-1047 | For all field values, the walk over printed commands collects every segment, symbol table and table of streams exactly as printed. |
| `MachPrint.StreamsPrinted` | crates/perun-core/src/macho.rs:1061-1096 | The rebase, bind, weak-bind and lazy-bind streams are decoded in that order, only the last as lazy, each with the symbol the one before left. |
| `MachPrint.SymbolsPrinted` | crates/perun-core/src/macho.rs:1150-1191 | Printed symbol entries read back: those defined in a section, with an address and a name, in order. |
| `MachPrint.TextPrinted` | crates/perun-core/src/macho.rs:1111-1134 | The last printed section header named `__text` in a `__TEXT` segment, with its offset and size. |
| `MachErrors.CommandRefused` | crates/perun-core/src/macho.rs:1003-1043 | Each error of a command, exactly when: a segment command of less than 72 bytes, or a table command whose fields run past the bytes. |
| `MachErrors.StreamRefused` | crates/perun-core/src/macho.rs:1061-1096 | A stream outside the bytes or one that does not decode stops the parse with its own error and value. |
| `MachErrors.CommandMissing` | crates/perun-core/src/macho.rs:1002-1010 | A command whose header or end lies outside the bytes, or that is shorter than its header, stops the walk. |
| `MachPrint.FrontOf` | crates/perun-core/src/macho.rs:977-1146 | Such files exist: print the front and put anything behind it. |
| `MachErrors.OpcodeRefused` | crates/perun-core/src/macho.rs:317-456 | The opcodes refused and the value in the error: the opcode itself, or the operand of a type that is no pointer. |
| `MachErrors.OtherStops` | crates/perun-core/src/macho.rs:317-456 | Every other stop is a truncated number or name. |
| `MachErrors.NumberRefused` | crates/perun-core/src/macho.rs:169-213 | A number is refused exactly when it does not end within ten bytes. |
| `MachErrors.HeaderRefused` | crates/perun-core/src/macho.rs:977-991 | No Mach-O exactly without the four bytes of magic, no x86-64 exactly without the four bytes of the processor. |
| `MachErrors.EntryCrashes` | crates/perun-core/src/macho.rs:1075-1095 | An entry for a segment that does not exist stops the program. |
| `MachErrors.HeaderCrashes` | crates/perun-core/src/macho.rs:1111-1134 | So does a section header past the bytes. |
| `MachErrors.RangesAre` | crates/perun-core/src/macho.rs:640-653 | The ranges the reader fetches: both symbol tables when neither is empty, and each nonempty stream. |
| `MachErrors.FetchRefused` | crates/perun-core/src/macho.rs:655-675 | They are read as one range from the least start to the greatest end, of at most eight mebibytes, all in the file. |
| `MachErrors.ReaderLimits` | crates/perun-core/src/macho.rs:571-578 | The reader takes some commands of at most one mebibyte, all in the file. |
| `MachErrors.UnendedName` | crates/perun-core/src/macho.rs:1150-1191 | A name that nothing ends is no name. |
| `MachParse.FindBase` | crates/perun-core/src/macho.rs:1049-1059 | The base is the lowest address of a loadable segment, or none exists. |
| `MachParse.Base` | crates/perun-core/src/macho.rs:1049-1059 | It is attained and a lower bound, and absent exactly when no segment is loadable. |
| `MachParse.ReadStreams` | crates/perun-core/src/macho.rs:1061-1096 | The four streams in order, attached to their segments. |
| `MachParse.ReadSymbols` | crates/perun-core/src/macho.rs:1150-1191 | Defined, placed and named symbols, in table order. |
| `MachParse.FindText` | crates/perun-core/src/macho.rs:1111-1134 | The last `__text` section header of the `__TEXT` segments. |
| `Reach.ReachFrom` | tools/gen_license_tables.py:270-293 | The search ends; it returns exactly the reachable nodes, each with a valid path no longer than any other. A failure names a missing package; a stopping search from known roots fails exactly when some reachable node has a wanted edge to no package, and one that does not stop never fails. |
| `Reach.Expand` | tools/gen_license_tables.py:287-292 | Expanding a node keeps the queue ordered by path length and covers all its steps. |
| `Reach.Complete` | tools/gen_license_tables.py:270-293 | When the queue is empty every path is matched by one no longer. |
| `Reach.DanglingRaises` | tools/gen_license_tables.py:288-291 | A one-package graph on which the stopping search raises `KeyError`. |
| `Reach.RestrictedIsSubset` | tools/gen_license_tables.py:348-349 | The search that stops at proc macros finds a subset of the unrestricted one, at no shorter distance. |
| `Reach.RootOrderIrrelevant` | tools/gen_license_tables.py:345-349 | Nodes and distances do not depend on the order of the roots. |
| `Reach.BuildGraph` | tools/gen_license_tables.py:255-267 | The adjacency lists hold exactly the dependencies with their kinds, a missing list meaning the default kind. |
| `Events.StepKeepsInv` | crates/perun-shims/src/sync.rs:145-209 | No step loses a wakeup: a signal beside a blocked thread always has some thread on its way. |
| `Events.RunKeepsInv` | crates/perun-shims/src/sync.rs:145-209 | So in every state of every interleaving. |
| `Events.SignalsConserved` | crates/perun-shims/src/sync.rs:145-209 | Auto-reset: waits passed, signals wasted and the pending one add up to the signals set and the initial one. |
| `Events.PassesBounded` | crates/perun-shims/src/sync.rs:145-209 | Successful waits never outnumber signals. |
| `Events.SetReaches` | crates/perun-shims/src/sync.rs:145-209 | In every run, any wait that looks at the event after a set and before a reset or another pass takes the signal passes, even one whose time ran out. |
| `Events.TimeoutExplained` | crates/perun-shims/src/sync.rs:145-209 | So whenever a wait times out after a set, a reset or another wait took the signal in between. |
| `Events.WaitersConserved` | crates/perun-shims/src/sync.rs:180-209 | A waiting thread stays accounted for until its wait returns. |
| `Events.QuietMeansUnsignaled` | crates/perun-shims/src/sync.rs:145-209 | With threads blocked and none on its way the event is unsignaled. |
| `EventHistory.SignalIsHistory` | crates/perun-shims/src/sync.rs:145-209 | In every run of either kind the event is signaled exactly when the last call that set or took the signal set it, or none did and it was created so. |
| `EventHistory.ResetHolds` | crates/perun-shims/src/sync.rs:167-178 | After a reset, until the next set, the event of either kind is off and no wait passes. |
| `EventHistory.AnswersAreHistory` | crates/perun-shims/src/sync.rs:180-209 | Every answer, from the calls before it: a wait passes exactly on a signal, times out exactly when it has a limit that is over, and blocks otherwise. |
| `EventHistory.UnlimitedNeverTimesOut` | crates/perun-shims/src/sync.rs:180-209 | A wait entered without a time limit never times out. |
| `EventHistory.WakeupsConserved` | crates/perun-shims/src/sync.rs:145-164 | Auto-reset: each set lets exactly one blocked thread go, if there is one, and each thread let go resumes once or is still on its way. |
| `EventHistory.SetWakesAll` | crates/perun-shims/src/sync.rs:145-164 | A set of a manual-reset event lets every blocked thread go. |
| `MutexHistory.AnswersAreHistory` | crates/perun-shims/src/sync.rs:220-309 | A release succeeds exactly on a held mutex, a wait gets exactly a free one, and one that finds it held times out exactly when its own limit ran out. |
| `MutexHistory.LockIsHistory` | crates/perun-shims/src/sync.rs:220-309 | The mutex is held exactly when the last wait that got it is later than the last release. |
| `MutexHistory.WakeupsConserved` | crates/perun-shims/src/sync.rs:289-309 | Each successful release lets exactly one blocked thread go, if there is one. |
| `Events.Event.Set` | crates/perun-shims/src/sync.rs:145-164 | Signal and wake one, or all for manual reset. |
| `Events.Event.Reset` | crates/perun-shims/src/sync.rs:167-178 | Clear the signal of either kind of event; wake nobody. |
| `Events.Event.WaitEnter` | crates/perun-shims/src/sync.rs:180-209 | The wait up to its first block or its return. |
| `Events.Event.WaitResume` | crates/perun-shims/src/sync.rs:180-209 | The wait from the return of the condition variable. |
| `Mutexes.RunKeepsInv` | crates/perun-shims/src/sync.rs:220-243 | In every interleaving a free mutex beside a blocked thread has some thread on its way. |
| `Mutexes.OwnershipConserved` | crates/perun-shims/src/sync.rs:220-309 | Acquisitions and the initial owner less successful releases are none or one: what is held now. |
| `Mutexes.ReleaseReaches` | crates/perun-shims/src/sync.rs:220-309 | In every run, the first wait to look at a released mutex gets it, even one whose time ran out. |
| `Mutexes.TimeoutExplained` | crates/perun-shims/src/sync.rs:220-309 | So whenever a wait times out after a release, another wait got the mutex in between. |
| `Mutexes.QuietMeansHeld` | crates/perun-shims/src/sync.rs:220-309 | With threads blocked and none on its way the mutex is held. |
| `Mutexes.Mutex.Release` | crates/perun-shims/src/sync.rs:289-309 | Free and wake one, or answer FALSE on a free mutex. |
| `Mutexes.Mutex.WaitEnter` | crates/perun-shims/src/sync.rs:220-239 | Acquire or block. |
| `Mutexes.Mutex.WaitResume` | crates/perun-shims/src/sync.rs:220-239 | Acquire, block again, or time out on a held mutex. |
| `Calendar.CivilIsExact` | crates/perun-cli/src/store/dmap.rs:139-154 | Every day number becomes a real Gregorian date whose day number, counted year by year, is that number. |
| `Calendar.CivilInvertsDayNumber` | crates/perun-cli/src/store/dmap.rs:139-154 | And every real date is the date of its day number. |
| `Calendar.StampIsExact` | crates/perun-cli/src/store/dmap.rs:139-154 | Every second count becomes a real date and time with exactly that many seconds. |
| `Calendar.OrderPreserved` | crates/perun-cli/src/store/dmap.rs:139-154 | One stamp is earlier than another exactly when its second count is smaller. |
| `Calendar.DateLineIsExact` | crates/perun-cli/src/store/dmap.rs:185-214 | The fields the other printer prints are a real date and time with exactly that many seconds, and both name tables are indexed in range. |
| `Calendar.WeekdayAdvances` | crates/perun-cli/src/store/dmap.rs:191-193 | The weekday counts on from Thursday by one a day. |
| `Calendar.YearOfSplit` | crates/perun-cli/src/store/dmap.rs:146-147 | The year-of-era formula gives the century, cycle and year the day lies in. |
| `GuestHeap.BlocksDisjoint` | crates/perun-shims/src/mach.rs:847-880 | Blocks with their prefixes are pairwise disjoint, 16-aligned and inside the arena. |
| `GuestHeap.RunKeepsValid` | crates/perun-shims/src/mach.rs:812-923 | That holds along every run of allowed operations, and no block is ever lost. |
| `GuestHeap.SizeRemembered` | crates/perun-shims/src/mach.rs:890-904 | Whatever happens later, `malloc_size` of a block answers the size asked for. |
| `GuestHeap.CallocIsZero` | crates/perun-shims/src/mach.rs:882-887 | `calloc` memory is all zero although nothing clears it. |
| `GuestHeap.ReallocPreserves` | crates/perun-shims/src/mach.rs:908-923 | `realloc` keeps the first min(old, new) bytes and changes no older block. |
| `GuestHeap.AllocationFrames` | crates/perun-shims/src/mach.rs:847-880 | No allocation changes a byte of an existing block. |
| `GuestHeap.SoundExactly` | crates/perun-shims/src/mach.rs:815-880 | The answer is sound exactly when the true end is a 64-bit address, or the size rounds to zero by wrapping while not even the prefix fits. |
| `GuestHeap.MallocTooSmall` | crates/perun-shims/src/mach.rs:815-880 | The largest size, rounded to zero, gets a block of no bytes from every tail with room for the prefix. |
| `GuestHeap.CallocSoundExactly` | crates/perun-shims/src/mach.rs:882-887 | `calloc` answers null or with room for all elements exactly when the wrapped request does not fit, or neither the product nor the true end wraps. |
| `GuestHeap.CallocTooSmall` | crates/perun-shims/src/mach.rs:882-887 | Two factors of 2^32 get a block of no bytes. |
| `GuestHeap.Arena.MallocShim` | crates/perun-shims/src/mach.rs:847-880 | For every size and every state, the tail, the bytes and the answer the machine computes, mapping the arena on first use, or a write outside it; while no sum wraps, the allocation on blocks. |
| `GuestHeap.Arena.CallocShim` | crates/perun-shims/src/mach.rs:882-887 | The same for the product, wrapped. |
| `GuestHeap.Arena.ReallocShim` | crates/perun-shims/src/mach.rs:908-923 | For every pointer, size and state: allocate, then copy the smaller size, or an access outside the arena; for a real block while no sum wraps, the move on blocks. |
| `GuestHeap.RawIsRealloc` | crates/perun-shims/src/mach.rs:908-923 | On a valid heap the machine's `realloc` is the one on blocks. |
| `GuestHeap.ForeignIsZero` | crates/perun-shims/src/mach.rs:890-904 | Null and every pointer whose prefix lies outside the arena have size 0, in any state. |
| `GuestHeap.OverlapIsShared` | crates/perun-shims/src/mach.rs:908-923 | The copy a `realloc` may not make is one between runs that share a byte. |
| `GuestHeap.Arena.MallocSize` | crates/perun-shims/src/mach.rs:890-904 | For every pointer: 0 for null and foreign ones, the stored size of a block, the eight bytes before anything else in the arena. |
| `PeLoad.MappedBytesAgree` | crates/perun-core/src/loader.rs:133-178 | Every address the file view maps, in a copied section, holds its file byte after relocation unless a slot covers it. |
| `PeLoad.SlotsAgree` | crates/perun-core/src/loader.rs:315-356 | Every slot the directory lists holds its file value plus the slide, modulo its width; `PePrint.DirectoryMet` says which slots those are. |
| `PePrint.DirectoryMet` | crates/perun-core/src/loader.rs:315-356 | Over any directory of printed blocks the walk meets, in order, eight bytes at page plus offset for kind 10, four for kind 3 and nothing for other kinds or within eight bytes of the end. |
| `PePrint.Fixup64` | crates/perun-core/src/loader.rs:337-343 | At a printed entry of kind 10 the 64-bit word loaded is the file's word plus the slide, modulo 2^64. |
| `PePrint.Fixup32` | crates/perun-core/src/loader.rs:344-350 | At a printed entry of kind 3 the 32-bit word loaded is the file's word plus the slide, modulo 2^32. |
| `PePrint.PlainByte` | crates/perun-core/src/loader.rs:133-178 | Every other byte of a copied section is the file's. |
| `PePrint.SectionCopied` | crates/perun-core/src/loader.rs:136-157 | A section of any size and place is copied up to the end of the image, and crashes the load exactly when it starts past that end. |
| `PePrint.OffsetIs` | crates/perun-core/src/image.rs:108-126 | The file offset of an address in the first section that holds it: its place in the raw data, or none past them or past 2^32. |
| `PePrint.NoOffset` | crates/perun-core/src/image.rs:108-126 | An address in no section has none; a section is as long as the larger of its sizes. |
| `PeLoad.CopyAgreesExactly` | crates/perun-core/src/loader.rs:136-157 | After the copy a mapped address holds its file byte exactly when its section was copied or the byte was there already. |
| `PeLoad.UncopiedSection` | crates/perun-core/src/loader.rs:136-157 | A section with raw size but no raw pointer whose byte the copy leaves zero. |
| `PeLoad.TruncatedSection` | crates/perun-core/src/loader.rs:136-157 | A section whose raw data ends past the file, likewise. |
| `PeLoad.OutsideSections` | crates/perun-core/src/loader.rs:136-157 | An address in no section holds the header byte, or zero past the headers. |
| `PeLoad.WalkPatches` | crates/perun-core/src/loader.rs:315-356 | Reading entries while patching patches exactly the slots the directory lists. |
| `PeLoad.LoadedIsPatched` | crates/perun-core/src/loader.rs:173-178 | The loaded bytes are the copied bytes with every slot slid, moved image or not. |
| `PeLoad.EnterGrows` | crates/perun-core/src/loader.rs:322-353 | A block that stays inside the mapping moves the walk on by at least eight bytes, so the walk ends. |
| `PeLoad.ApplyRelocations` | crates/perun-core/src/loader.rs:315-356 | The loop, its guard a 32-bit sum, always ends and computes the specified walk, or crashes where it does; on printed blocks that is the printed patches. |
| `PeLoad.Copy` | crates/perun-core/src/loader.rs:136-157 | The copy loop computes the specified image, or crashes where it does. |
| `PeLoad.Load` | crates/perun-core/src/loader.rs:133-178 | Copy, then relocate when the image moved and has a directory. |
| `PeLoad.FindOffset` | crates/perun-core/src/image.rs:108-126 | The file view of an address: the first section that holds it, unless past its raw data. |
| `Dmap.WalkPrinted` | crates/perun-cli/src/store/dmap.rs:14-44 | The walk of any printed forest succeeds exactly when containers nest at most sixteen levels; then it visits every node in preorder with its encoded payload, else a prefix of that. |
| `Dmap.ForestWalk` | crates/perun-cli/src/store/dmap.rs:14-44 | The same from the top: success exactly up to sixteen levels, and then the whole preorder. |
| `Dmap.WalkDmap` | crates/perun-cli/src/store/dmap.rs:14-44 | The loop with its recursion makes the specified visits and stops with the specified error. |
| `Dmap.ItemParses` | crates/perun-cli/src/store/dmap.rs:232-238 | An item printed by `tag_bytes` reads back as its tag, payload and rest. |
| `Dmap.ItemsBody` | crates/perun-cli/src/store/dmap.rs:216-230 | The request body is the printed container of its seven fields. |
| `Dmap.RequestWalks` | crates/perun-cli/src/store/dmap.rs:216-230 | And it walks back to the container and its seven fields. |
| `Dmap.ParseOwnedApps` | crates/perun-cli/src/store/dmap.rs:96-129 | The list is the first record of each nonzero id, in order, up to the first listing that does not parse. |
| `Dmap.FirstsDistinct` | crates/perun-cli/src/store/dmap.rs:96-129 | Its ids are distinct and nonzero, every entry was read, and every nonzero id read appears. |
| `DmapListing.RecordReads` | crates/perun-cli/src/store/dmap.rs:96-121 | Each member of a record is what the last item with its tag spells, whatever the order and whatever else there is; the name falls back to the first title while it is empty. |
| `DmapListing.ListingsRead` | crates/perun-cli/src/store/dmap.rs:96-129 | Any printed listings read back as those records, in order. |
| `DmapListing.ItemRefused` | crates/perun-cli/src/store/dmap.rs:18-37 | Each error of an item, exactly when: fewer than eight bytes, a tag with a character outside blank to tilde, a length past the end. |
| `DmapListing.WalkStops` | crates/perun-cli/src/store/dmap.rs:14-37 | A bad first item stops a walk with its error, and more than sixteen levels stop it with theirs. |
| `DmapListing.ContainersAre` | crates/perun-cli/src/store/dmap.rs:46-63 | The tags walked into are exactly the thirteen named. |
| `DmapListing.RequestSpelled` | crates/perun-cli/src/store/dmap.rs:216-230 | The request's seven tags and their payloads, by their letters. |
| `Streams.ReadPayload` | crates/perun-cli/src/fetcher.rs:258-306 | Whatever the windows and request sizes, prefix plus tail deliver exactly the four header bytes and the remote bytes from the start offset. |
| `Streams.RangeTailReader.Read` | crates/perun-cli/src/fetcher.rs:290-306 | A read hands out a nonempty prefix of what is left while anything is left, and nothing is lost or repeated. |
| `Streams.RangeTailReader.Refill` | crates/perun-cli/src/fetcher.rs:269-287 | A refill leaves the buffer nonempty unless the tail is exhausted. |
| `Streams.PrefixedTailReader.Read` | crates/perun-cli/src/fetcher.rs:437-445 | Prefix first, exactly once, then the tail. |
| `Streams.Source.ReadExact` | crates/perun-cli/src/fetcher.rs:392-406 | All the bytes asked for, or an error when fewer are left. |
| `Streams.Source.Skip` | crates/perun-cli/src/fetcher.rs:408-421 | Exactly that many bytes are passed over, or an error. |
| `Streams.Source.Extract` | crates/perun-cli/src/fetcher.rs:580-602 | Exactly the entry's bytes reach the file, whatever the read sizes. |
| `Cpio.FieldRoundTrip` | crates/perun-cli/src/fetcher.rs:381-390 | A printed octal field reads back as its number. |
| `CpioFields.LeadingIs` | crates/perun-cli/src/fetcher.rs:381-390 | For every Unicode scalar value: at the front of a field it is trimmed exactly when it is white space. |
| `CpioFields.TrailingIs` | crates/perun-cli/src/fetcher.rs:381-390 | The same at the end. |
| `CpioFields.DigitsRead` | crates/perun-cli/src/fetcher.rs:381-390 | Octal digits, with or without a plus sign, read as their number with any white space around them. |
| `CpioFields.BlankIsZero` | crates/perun-cli/src/fetcher.rs:385-387 | A field of white space is zero. |
| `CpioFields.OtherRefused` | crates/perun-cli/src/fetcher.rs:388-388 | Any other visible character in place of a digit makes the field an error. |
| `CpioFields.LongRefused` | crates/perun-cli/src/fetcher.rs:388-388 | Digits alone are an error exactly when the number has more than 64 bits. |
| `CpioFields.HeadRefused` | crates/perun-cli/src/fetcher.rs:495-509 | Each error of a header, and the header read otherwise. |
| `CpioFields.WalkRefused` | crates/perun-cli/src/fetcher.rs:494-547 | The walk stops with the header's error, at the trailer, or where a body runs out, without touching other files. |
| `CpioFields.BodyRefused` | crates/perun-cli/src/fetcher.rs:511-547 | A wanted body off its pins stops the walk; only its part file goes. |
| `Cpio.ReadHead` | crates/perun-cli/src/fetcher.rs:495-509 | A header and its name are read and checked as specified. |
| `Cpio.Cache.Store` | crates/perun-cli/src/fetcher.rs:511-547 | The part file is renamed only when size and digest meet the pins, and removed otherwise. |
| `Cpio.Cache.FetchAssets` | crates/perun-cli/src/fetcher.rs:494-568 | The loop leaves the specified cache and error on every stream. |
| `CpioArchive.NothingUnpinned` | crates/perun-cli/src/fetcher.rs:494-568 | On any bytes at all, a new or changed cache file has the pinned size and digest of its asset. |
| `CpioArchive.ArchiveWalk` | crates/perun-cli/src/fetcher.rs:494-568 | On a valid archive with trailer the byte walk is the walk over its entries. |
| `CpioArchive.ArchiveDelivers` | crates/perun-cli/src/fetcher.rs:494-568 | On the bytes of any printed archive with its trailer the byte walk succeeds exactly when every wanted path is in it and its first body meets the pins; then the cache gains exactly those bodies, other files stay, and no part file is left. |
| `CpioArchive.FetchArchive` | crates/perun-cli/src/fetcher.rs:494-568 | And so does the loop, from a stream that holds such an archive. |
| `CpioArchive.ExactlyTheWanted` | crates/perun-cli/src/fetcher.rs:511-551 | The step before: the same of the walk over entries. |
| `Spelling.ArchiveIs` | crates/perun-cli/src/fetcher.rs:494-547 | The magic, the trailer's name, the stream header and the part file's name, spelled out. |
| `Spelling.SegmentNamesAre` | crates/perun-core/src/macho.rs:1111-1134 | The names of the page-zero and text segments and the text section, spelled out. |
| `Spelling.EnvelopeIs` | crates/perun-cli/src/sap.rs:684-688 | The envelope's tags spelled out. |
| `Spelling.AlphabetIs` | crates/perun-cli/src/sap.rs:654-654 | The sixty-four digits and the pad, by their letters. |
| `Base64.RoundTrip` | crates/perun-cli/src/sap.rs:653-726 | The only answer decoding an encoding can give is the data encoded. |
| `Base64.Decode` | crates/perun-cli/src/sap.rs:653-672 | The output is the digits' bit string cut into bytes, up to the first pad, although the accumulator drops its high bits; a foreign character fails. |
| `Base64.DigitsAre` | crates/perun-cli/src/sap.rs:653-664 | The digits are the characters before the first pad, one for one; decoding fails exactly when one of them is no digit. |
| `Base64.SpellsUnique` | crates/perun-cli/src/sap.rs:653-672 | There is only one such output. |
| `Base64.EncodeAll` | crates/perun-cli/src/sap.rs:702-726 | The chunk loop computes the encoding. |
| `Base64.EncodedBits` | crates/perun-cli/src/sap.rs:702-726 | The digits are the data's bits and fewer than eight zeros. |
| `PlistEnvelope.PlistExtract` | crates/perun-cli/src/sap.rs:641-651 | The first data element after the key is decoded. |
| `PlistEnvelope.DataTextIs` | crates/perun-cli/src/sap.rs:641-651 | On any text, the bytes decoded are those between the first opening and the first closing data tag after the first such key, less line breaks and spaces. |
| `PlistEnvelope.Request` | crates/perun-cli/src/sap.rs:684-688 | The request body is the envelope of the encoded data. |
| `PlistEnvelope.EnvelopeText` | crates/perun-cli/src/sap.rs:641-688 | The first data element after the key in the envelope is the one put there, for every key. |
| `PlistEnvelope.EnvelopeRoundTrip` | crates/perun-cli/src/sap.rs:641-726 | Extracting from the envelope can only answer the data sent, for every key and all data. |

## Left out

* Machine-level parts: mmap and its failures beyond one flag, mprotect, signals, inline assembly, guest code, trap dispatch. Memory is an array; the resolver, zero page and stub pool are fixed functions.
* HTTP, files, the bzip2 and zlib decoders, subprocesses: a stream is its bytes, handed out in pieces of arbitrary size; a range answer is honest.
* The AES block function, its key schedule, PBKDF2 and HMAC: function parameters. Nothing about secrecy is claimed.
* MachParse.ParseReader: fat containers are not modelled, because the two parsers pick different slices of them; four bytes of fat magic count as not Mach-O here.
* MachParse.SegmentAt: the two protection fields are kept as unsigned bit patterns.
* Read and write errors of readers and files, `walked` and all progress text.
* Dmap.WalkDmap: the visitor is a list of visits; a visitor that stops the walk is modelled where it is used, in `ParseOwnedApps`, as reading no further.
* `first_uint` and `status_ok`: short readings of the same walk.
* Calendar.Iso8601: the printed fields, not the padding of the text.
* `build`, the table text and the licence choice in tools/gen_license_tables.py: only the graph and the walks.
* Waiting time: whether a deadline has passed is an input of each step. `SignalObjectAndWait` and unknown handles add no behaviour of their own.
* Critical sections, TLS, FLS, registry, string and path shims.
* PE import resolution, exports, protections, header parsing: the copy and relocation phases take parsed fields.
* GuestHeap.Arena.MallocShim: a write outside the arena ends the model; what it would hit is not part of it.
* LoaderLimits.AgreeExactly: unbacked rebases that overlap only in part are outside it; `AgreeOnEmpty` decides them all, and `OverlappingRebases` two of them in closed form.
* LoaderPictures.Pictures: a slot across the end of the file bytes that also overlaps a slot inside them, or `__text`, is not treated.
* PeLoad.RelocateEntries: a block with entries past the mapping crashes at once; the source crashes at the first such entry.
* Sha256Spec.CompressRun: the word operations are a record of functions in the generic lemmas, and the standard's own in the final ones.
* RdtscMeaning.FrozenClock: the flags, which the instructions set and the code after them may read, are not modelled.
* MachPrint.OwnedPrinted: the words after a segment's sizes are kept in the order the parser names them; the printer follows the parser there.
* Bytes.Pow2: shifts are products with powers of two; bitwise or is defined bit by bit.
