# lebutils in Dafny

A model of the parts of lebutils that hold real algorithms, with proofs of what they promise.
Everything the C code changes step by step is an imperative method here, proved against a
specification; the specification's own properties are lemmas. The modules named for facts, fields,
meaning and curves say in other terms what a specification amounts to, with the source's numbers
written out: that `..` undoes a name, that a save puts the text into the file, that the ladder adds
points of a curve.

| files | what they model |
|---|---|
| `Limbs`, `Bytes`, `MaskedSwap`, `FieldOps`, `FieldCodec`, `Rfc7748`, `KeyAgreement`, `MontgomeryLadder`, `MontgomeryCurve` | X25519 over sixteen 16-bit limbs in 64-bit integers: lazy carries, the wrap by 38, the in-place ladder, the inversion loop, packing; what the ladder computes on the curve |
| `HashDriver`, `Sha2`, `Sha256`, `Sha512`, `HashConstants` | SHA-256 and SHA-512: the block step in place, whole blocks, one or two padded blocks, the digest; where the constants come from |
| `Subsequences`, `Lines`, `Diff` | reading lines, the longest-common-subsequence table, the walk that emits hunks |
| `FlatText`, `LineBuffer`, `EditBuffer`, `RowInPlace`, `FileText`, `EditorStep`, `EditorFacts`, `FlatSearch`, `Editor` | the text editor: line arrays, buffer edits, loading and saving, tabs and the modal key machine |
| `Json`, `PkgIndex`, `IndexScan`, `IndexMeaning`, `PkgFields`, `JsonReader` | the package index reader: skipping, strings, package objects, the visitor; when it returns, and what it makes of an index |
| `PackageFile`, `PackageRecord`, `PackageVersion`, `PackageFacts`, `PackageStore` | extracting a package, its database record, removing it, the version lookup |
| `SizeInput`, `Partitions`, `PartitionFacts` | the partition table being edited: typed sizes, first free sector, New, Delete, Resize, relabel |
| `PartitionTable`, `DiskLabel`, `LabelScan`, `LabelWrap`, `MasterBootRecord`, `GptFacts`, `LabelDevice` | writing a GPT or an MBR and scanning the disk again, on disks of any size |
| `FatLayout`, `ExfatFormat`, `ExfatBoot`, `Ext4Format`, `Bitmaps`, `FormatFacts` | the layouts of the three formatters, their bitmaps, the exFAT cluster chain and boot regions, the ext4 groups |
| `PathAbs`, `PathMeaning` | the path normaliser with its fast path, and what dots do |
| `Words`, `Arithmetic` | machine integers, optional values and small facts about numbers |

Numbers the C code keeps in a machine word are newtypes where overflow is the question (the
verifier then shows there is none) and plain integers with the wrap written out where the code
relies on it. `>> 16` on a signed limb is floor division and `c << 16` is multiplication by 65536.
A character stands for a byte. Files and devices are maps and byte arrays.

## What the proofs found

Where the code does not do what one would expect, the model follows the code, a lemma gives an
input, and the contract beside it says exactly when the expectation holds.

- `diff` compares lines up to a NUL, so two files that differ only after one count as equal
  (`Diff.NulHidesTheRest`); `Diff.EqualVerdict` says which do.
- The editor replaces every 1024th character of a line by a line break when it loads a file, and an
  empty last line does not survive saving and loading (`FileText.LoadedText`, `FileText.LongLineCut`,
  `FileText.LoadThenSave`, `FileText.SaveThenLoad`).
- New at the offered first sector makes partitions overlap exactly when fewer than 2048 sectors
  are free there (`Partitions.SmallGapOverlaps`, `Partitions.Disk.New`).
- The JSON escapes for backspace, form feed and carriage return are read as the letters b, f and r
  (`Json.ReadCorrectly`).
- Not every loop of the index reader ends. At a closing brace where a dependency should stand one
  turn of the loop changes nothing, so the source goes round for ever: exactly for the lists that
  `PkgIndex.BraceAhead` describes (`PkgIndex.DependsReturns`), for example in every index that starts
  as in `PkgIndex.IndexWithoutEnd`. `IndexScan.IndexReturns` says for which whole texts. The reader
  modelled here reports those; on all other texts it returns what the source returns.
- The fast and the slow way of the path normaliser differ when the path and its NUL fill the output
  buffer exactly (`PathAbs.FastAgreesWithSlow`), and a buffer of one byte is given two
  (`PathAbs.ResultFits`).
- The addresses of the backup GPT are cut to 32 bits. A disk of n sectors, from 2048 on, carries its
  label exactly when n mod 2^32 is 0, 35 or over 66 (`LabelWrap.RoundTripSizes`): the first sizes that
  fail are 2^32 + 1 to 2^32 + 34, while 2^32 + 35 works although the backup overlaps the entries.
- Writing an MBR leaves an old GPT header in sector 1, which the next scan then prefers
  (`MasterBootRecord.MbrRoundTrip`).
- ext4 formatting fails exactly when the last group is too short for its metadata
  (`Ext4Format.Format`); the fallback to 16 inodes for a single small group is never taken, because
  every accepted device is larger than that.
  On devices of more than 2^32 - 32768 blocks the number of groups wraps to one (`Ext4Format.Plan`).
- The exFAT bitmap bits the formatter sets fit their first sector exactly on devices below
  0xFFE1FFC600 sectors, but devices up to 0x10001FFFAFF sectors are accepted
  (`ExfatFormat.BitmapFitsSector`, `ExfatFormat.Plan`).
- The smallest device the FAT formatter lays out has 30 sectors more than its own limit asks for
  (`FatLayout.PlanVolume`).
- A package whose file list would exceed its buffer is installed but not wholly removed, and its
  list then holds an empty line (`PackageRecord.RemovalIsComplete`, `PackageRecord.PackageTooLong`).
- A contents size that wraps in 32 bits leads the reads of a package outside it when the path is
  absolute, and is harmless when it is relative (`PackageFile.PackageOverruns`,
  `PackageFile.WrappedSizeSkipped`). Entries of a GPT that are not wholly inside the bytes read are
  harmless as long as what is looked at of them is (`LabelScan.EntriesInside`, `DiskLabel.FreeInside`).
  Where reads would go outside, the models stop.

## Model

| member | source | states |
|---|---|---|
| KeyAgreement.X25519InPlace | src/cmd/ipv67/ipv67_crypto.c:374-428 | For every 32-byte scalar and point the output, read little-endian, is the X25519 function of section 5 of RFC 7748 over the integers mod 2^255-19, of the decoded scalar and coordinate, and that is the x coordinate of the multiple of the point by the scalar, built by doubling and differential addition; all limb arithmetic stays in 64 bits |
| KeyAgreement.RunLadder | src/cmd/ipv67/ipv67_crypto.c:398-424 | The 255 passes over six reused buffers follow the RFC ladder bit by bit, from bit 254 down to 0, and every limb stays in the range of a multiplication result |
| KeyAgreement.SwapStep | src/cmd/ipv67/ipv67_crypto.c:400-424 | Swap, step and swap back is one RFC iteration although the RFC leaves its swap pending until the bits differ |
| KeyAgreement.Step | src/cmd/ipv67/ipv67_crypto.c:404-421 | Overwriting the buffers in this order computes the differential addition and doubling of the RFC |
| KeyAgreement.SameFormulas | src/cmd/ipv67/ipv67_crypto.c:404-421 | The products formed here equal the RFC formulas, up to the order of operands and one sign that is squared away |
| KeyAgreement.Invert | src/cmd/ipv67/ipv67_crypto.c:361-372 | The result is the operand to the power p-2, also when destination and operand are the same array |
| KeyAgreement.ExponentIsPMinusTwo | src/cmd/ipv67/ipv67_crypto.c:367-370 | Multiplying at every bit from 253 down but bits 2 and 4 builds exactly the exponent 2^255-21 |
| KeyAgreement.RaiseInPlace | src/cmd/ipv67/ipv67_crypto.c:366-370 | Squaring and multiplying in place keeps a tight representation of the power reached so far |
| KeyAgreement.Clamp | src/cmd/ipv67/ipv67_crypto.c:387-390 | The masked scalar is the decodeScalar25519 of RFC 7748 |
| KeyAgreement.BitAt | src/cmd/ipv67/ipv67_crypto.c:401 | The shift and mask pick bit i of the 256-bit number the bytes denote |
| KeyAgreement.Project | src/cmd/ipv67/ipv67_crypto.c:391-424 | After the ladder the pair handed to the division is the one the RFC selects by its last pending swap |
| KeyAgreement.Finish | src/cmd/ipv67/ipv67_crypto.c:425-427 | The bytes written are the least residue of x2 times the inverse power of z2 |
| MontgomeryLadder.OneBit | src/cmd/ipv67/ipv67_crypto.c:401-424 | Whatever swap is pending, a zero bit doubles the lower pair and a one bit the upper pair, both coordinates, and the other pair becomes their sum |
| MontgomeryLadder.LadderIsMultiple | src/cmd/ipv67/ipv67_crypto.c:400-424 | After the bits from t up the two pairs are the multiples of the point by those bits read as a number and by one more: leading zero bits leave infinity and the point |
| MontgomeryLadder.X25519IsMultiple | src/cmd/ipv67/ipv67_crypto.c:398-427 | The function is the quotient of the multiple by the scalar, where an even multiple is twice the half and an odd one the sum of two neighbours |
| MontgomeryLadder.Doubles | src/cmd/ipv67/ipv67_crypto.c:404-419 | The squares and products of the step are, modulo any m, (x^2-z^2)^2 and 4xz(x^2 + 486662xz + z^2) of the pair doubled |
| MontgomeryLadder.Adds | src/cmd/ipv67/ipv67_crypto.c:406-421 | And 4(xx'-zz')^2 over 4 x1 (xz'-zx')^2 of the two pairs |
| MontgomeryLadder.ScalarDecoded | src/cmd/ipv67/ipv67_crypto.c:387-390 | The masked scalar is a multiple of 8 with bit 254 its highest |
| MontgomeryLadder.ScalarBits | src/cmd/ipv67/ipv67_crypto.c:387-390 | Its bits 3 to 253 are those of the bytes |
| MontgomeryLadder.CoordinateBits | src/cmd/ipv67/ipv67_crypto.c:289-295 | The coordinate has the bits of the bytes up to bit 254 and no others |
| MontgomeryCurve.DoubleIsTangent | src/cmd/ipv67/ipv67_crypto.c:404-419 | For every point of y^2 = x^3 + 486662 x^2 + x, modulo any m, the tangent meets the curve again over the x coordinate the doubling gives |
| MontgomeryCurve.SumIsChord | src/cmd/ipv67/ipv67_crypto.c:406-421 | For every two points of that curve apart in x the chords through the second and through its opposite meet it again over two x coordinates, and the addition formula gives the one from the other |
| FieldOps.Carry | src/cmd/ipv67/ipv67_crypto.c:261-273 | The carry pass changes the value only by folding what is above 2^256 back times 38, leaves limbs 1..15 in [0, 2^16), and says exactly how far limb 0 may leave it |
| FieldOps.Mul | src/cmd/ipv67/ipv67_crypto.c:340-354 | For operand limbs below 2^26 no product, column sum or fold leaves 64 bits; the result is the product mod 2^255-19 with limb 0 in [-38, 2^16+37] and the others in [0, 2^16); destination may be an operand |
| FieldOps.Square | src/cmd/ipv67/ipv67_crypto.c:356-359 | The square mod 2^255-19, tight, destination may be the operand |
| FieldOps.Convolve | src/cmd/ipv67/ipv67_crypto.c:346-349 | The 31 columns hold the product of the two values and stay below 2^56 |
| FieldOps.Reduce | src/cmd/ipv67/ipv67_crypto.c:350 | Folding the high columns times 38 keeps the residue mod 2^255-19 |
| FieldOps.CarryTwice | src/cmd/ipv67/ipv67_crypto.c:351-353 | Two carry passes keep the residue and reach the tight range, with a value in [0, 2^256) |
| FieldOps.Add | src/cmd/ipv67/ipv67_crypto.c:326-331 | Limbwise addition without overflow is addition mod 2^255-19, for any aliasing of the three arrays |
| FieldOps.Sub | src/cmd/ipv67/ipv67_crypto.c:333-338 | Limbwise subtraction without overflow is subtraction mod 2^255-19, for any aliasing of the three arrays |
| FieldOps.Select | src/cmd/ipv67/ipv67_crypto.c:275-287 | The two arrays are exchanged when the bit is one and unchanged when it is zero |
| MaskedSwap.Swaps | src/cmd/ipv67/ipv67_crypto.c:281-286 | On 64-bit words the masked exclusive-or exchanges the operands exactly when the bit is set |
| MaskedSwap.MaskValue | src/cmd/ipv67/ipv67_crypto.c:281 | The complement of bit minus one is all ones or all zeros |
| FieldCodec.Unpack | src/cmd/ipv67/ipv67_crypto.c:289-295 | The value is the little-endian number without its top bit |
| FieldCodec.Pack | src/cmd/ipv67/ipv67_crypto.c:297-324 | For limbs of magnitude below 39 * 2^56 the bytes are the unique residue in [0, 2^255-19) of the value |
| FieldCodec.TrialSubtract | src/cmd/ipv67/ipv67_crypto.c:310-317 | The borrow tells whether the value is below the prime; if not, the trial limbs hold the difference, canonical |
| FieldCodec.SubtractTwice | src/cmd/ipv67/ipv67_crypto.c:309-319 | From any value below 2^256 two conditional subtractions reach the least residue |
| FieldCodec.PutBytes | src/cmd/ipv67/ipv67_crypto.c:320-323 | The bytes denote the value of the canonical limbs |
| Bytes.LittleEndianInjective | src/cmd/ipv67/ipv67_crypto.c:289-324 | The little-endian value determines the bytes, so stating results as numbers loses nothing |
| Limbs.WrapKeepsResidue | src/cmd/ipv67/ipv67_crypto.c:261-273 | Wrapping at 2^256 with factor 38 keeps the residue mod 2^255-19 |
| Limbs.WrapSettles | src/cmd/ipv67/ipv67_crypto.c:306-308 | Three wraps bring every value of the packing range into [0, 2^256) |
| Sha256.Digest | src/cmd/ipv67/ipv67_crypto.c:103-139 | For every message under 2^61 bytes the 32 bytes written are, word by word and most significant byte first, the hash FIPS 180-4 defines (sections 5.1.1, 5.2.1, 5.3.3 and 6.2): the in-place state follows the padded message, whether its tail takes one block or two; the output may be the input |
| Sha512.Digest | src/cmd/ipv67/ipv67_crypto.c:201-254 | The same for SHA-512 (sections 5.1.2, 5.2.2, 5.3.5 and 6.4), with 128-byte blocks, a 16-byte length field and 64 bytes written |
| Sha2.AddBlock | src/cmd/ipv67/ipv67_crypto.c:69-100 | The eight words of the state after the loop and the final additions are the hash value of the standard after the block |
| Sha2.RunRounds | src/cmd/ipv67/ipv67_crypto.c:69-92 | Shifting eight variables in this order at every round gives the working variables of the standard |
| Sha2.FillSchedule | src/cmd/ipv67/ipv67_crypto.c:58-68 | The word array filled in place is the message schedule of the standard, although its four words are added from the other end |
| Sha256.OrderOfSum | src/cmd/ipv67/ipv67_crypto.c:67 | Four words add to the same modulo 2^32 from either end |
| Sha256.ScheduleReorders | src/cmd/ipv67/ipv67_crypto.c:64-68 | So the order of the code and that of section 6.2.2 of FIPS 180-4 give the same schedule |
| Sha512.ScheduleReorders | src/cmd/ipv67/ipv67_crypto.c:179-183 | The same for 64-bit words and section 6.4.2 |
| Sha256.ReadWords | src/cmd/ipv67/ipv67_crypto.c:58-63 | Shifting four bytes into place gives the words of a block, most significant byte first |
| Sha512.ReadWords | src/cmd/ipv67/ipv67_crypto.c:174-178 | Shifting byte after byte in gives the words of a block, most significant byte first |
| Sha256.ProcessBlock | src/cmd/ipv67/ipv67_crypto.c:39-101 | One block changes the state in place exactly as the step of the standard does |
| Sha256.WholeBlocks | src/cmd/ipv67/ipv67_crypto.c:121-122 | Every whole block of the message is consumed in order |
| Sha256.LastBlocks | src/cmd/ipv67/ipv67_crypto.c:123-132 | What follows the whole blocks, in one block or two, completes the hash of the padded message |
| Sha512.LastBlocks | src/cmd/ipv67/ipv67_crypto.c:226-244 | The same for 128-byte blocks, where the length fits up to 111 remaining bytes |
| Sha256.PutState | src/cmd/ipv67/ipv67_crypto.c:133-138 | The bytes written read back as the words of the state |
| HashConstants.RootsOf256 | src/cmd/ipv67/ipv67_crypto.c:10-27 | Each of the 64 round constants is the first 32 bits of the fractional part of the cube root of its prime (section 4.2.2 of FIPS 180-4) |
| HashConstants.RootsOf512 | src/cmd/ipv67/ipv67_crypto.c:141-162 | Each of the 80 is the first 64 bits of it (section 4.2.3) |
| HashConstants.InitialOf256 | src/cmd/ipv67/ipv67_crypto.c:112-119 | The initial values are the first 32 bits of the fractional parts of the square roots of the first eight primes (section 5.3.3) |
| HashConstants.InitialOf512 | src/cmd/ipv67/ipv67_crypto.c:211-218 | The same with 64 bits (section 5.3.5) |
| HashConstants.OnlyOnePart | src/cmd/ipv67/ipv67_crypto.c:10-27 | A cube root has only one fractional part of so many bits, so the tables are determined |
| HashDriver.PaddedLength | src/cmd/ipv67/ipv67_crypto.c:120-132 | The padded message is a whole number of blocks |
| HashDriver.PaddedExactly | src/cmd/ipv67/ipv67_crypto.c:120-132 | The padding is the one sequence that holds the message, a byte 128, zeros and the bit length most significant byte first, and is the shortest that fills whole blocks |
| HashDriver.LengthField | src/cmd/ipv67/ipv67_crypto.c:131 | The length field reads back as the bit length |
| HashDriver.OneTailBlock | src/cmd/ipv67/ipv67_crypto.c:123-132 | When message tail, one bit and length fit one block, that block completes the padded message |
| HashDriver.TwoTailBlocks | src/cmd/ipv67/ipv67_crypto.c:127-132 | Otherwise the two blocks built complete the padded message |
| HashDriver.StartTail | src/cmd/ipv67/ipv67_crypto.c:123-126 | The tail block is the remaining bytes, the one bit and zeros |
| Diff.Compare | src/cmd/cmd_diff.c:107-210 | Status 0 exactly when the line lists are equal; otherwise the hunks are a minimal patch both ways (empty in brief mode) |
| Diff.FillTable | src/cmd/cmd_diff.c:122-144 | Every cell of the flat table is the greatest length of a common subsequence of the two suffixes, and fits 16 bits under the 2048-line limit |
| Diff.FillCell | src/cmd/cmd_diff.c:132-142 | One cell is right once the three after it are, and no other cell is lost |
| Diff.Walk | src/cmd/cmd_diff.c:157-206 | The hunks turn left into right, reversed turn right into left, are non-empty, increasing and separated by kept lines, and keep as many lines as a longest common subsequence has |
| Diff.SkipMismatch | src/cmd/cmd_diff.c:167-180 | From a mismatch the walk stops at the next common line without giving up any of the common subsequence |
| Diff.Emit | src/cmd/cmd_diff.c:182-205 | A printed hunk extends the patch by exactly the lines skipped on both sides |
| Diff.NoScriptIsCheaper | src/cmd/cmd_diff.c:122-206 | No edit script from left to right deletes and inserts fewer lines than the hunks do |
| Diff.DiffContents | src/cmd/cmd_diff.c:256-275 | Exit status 2 exactly when a file has more than 2048 lines; otherwise the verdict and hunks are about the lines as C strings |
| Diff.NulFreeVerdict | src/cmd/cmd_diff.c:48-206 | For files without NUL, no difference means identical bytes, and the hunks rebuild the right file |
| Diff.NulHidesTheRest | src/cmd/cmd_diff.c:26-46 | Two files that differ only after a NUL count as equal: a concrete pair |
| Diff.EqualVerdict | src/cmd/cmd_diff.c:26-46 | Two files count as equal exactly when they have as many lines and these agree, pair by pair, up to the first NUL or the end of both |
| Lines.DiffLines.Read | src/cmd/cmd_diff.c:48-86 | A content is split after its newlines into lines kept as C strings, and refused exactly when there are more than 2048 |
| Lines.DiffLines.Add | src/cmd/cmd_diff.c:26-46 | A line is appended as a C string, or refused when the list is full |
| Lines.LinesShape | src/cmd/cmd_diff.c:65-82 | Splitting loses no character and cuts only after newlines |
| Lines.SameLinesSameContent | src/cmd/cmd_diff.c:48-86 | Two contents are equal exactly when their lines are |
| Subsequences.LcsIsMaximumCommon | src/cmd/cmd_diff.c:130-144 | The recurrence gives the maximum length over all common subsequences |
| Subsequences.ScriptCost | src/cmd/cmd_diff.c:130-206 | Every edit script costs at least what a longest common subsequence leaves over |
| Subsequences.FullLcsMeansEqual | src/cmd/cmd_diff.c:146-150 | The table entry reaches both lengths exactly when the lists are equal, which the early exit relies on |
| Editor.Editor.ProcessKey | src/cmd/cmd_ltxtedit.c:905-1058 | Whatever the key and mode, a valid editor (1 to 8 tabs, at least one line each, the cursor inside its line) makes exactly one step of the specification and stays valid |
| Editor.Editor.Run | src/cmd/cmd_ltxtedit.c:905-1058 | Every key sequence keeps every tab valid, and a run of typing keys is step by step a run of the one-string, one-offset editor |
| EditorStep.KeyKeeps | src/cmd/cmd_ltxtedit.c:905-1058 | No key touches a tab but the current one unless it opens or closes one; files change only by a save of the current tab, whole and under its name; a text changes only by a typing key or by replacing the next occurrence; and the editor stops only with nothing unsaved in the current tab, on a second Ctrl-Q, on closing the only tab, or on quit! |
| EditorStep.TypingThenBackspace | src/cmd/cmd_ltxtedit.c:612-669 | A character or newline followed by backspace restores lines and cursor |
| EditorFacts.SavesExactly | src/cmd/cmd_ltxtedit.c:302-320 | Exactly Ctrl-S on a named tab, the commands save, save-quit and save with a name, and a name given to the save prompt change the files, when the file can be written: it then holds the whole text, and the tab its name and no mark |
| EditorFacts.MarkMeansUnsaved | src/cmd/cmd_ltxtedit.c:905-1058 | No key takes the mark off a tab unless the file of its name then holds its text |
| EditorFacts.StopsExactly | src/cmd/cmd_ltxtedit.c:817-980 | The editor stops exactly on Ctrl-Q without changes or a second time, on closing the only tab, on quit without changes, on quit! and on a save-quit that saves |
| EditorFacts.OrderSpelled | src/cmd/cmd_ltxtedit.c:821-880 | The words of the commands and their arguments |
| EditorFacts.TypesAsText | src/cmd/cmd_ltxtedit.c:612-692 | What each editing key puts into or takes out of the text before and after the cursor |
| EditorFacts.MovesInLine | src/cmd/cmd_ltxtedit.c:694-717 | Left and right move by one character but not over a line break; home and end go to the nearest ones |
| EditorFacts.MovesBetweenLines | src/cmd/cmd_ltxtedit.c:699-727 | Up, down and the page keys stop at the first and last line and keep the column as far as the line goes |
| EditorFacts.TabKeys | src/cmd/cmd_ltxtedit.c:882-903 | A new empty tab comes last, up to eight; a closed one leaves the others in order; two keys go to the neighbours |
| EditorFacts.PromptKeys | src/cmd/cmd_ltxtedit.c:979-1007 | Which keys open which prompt, always empty |
| EditorFacts.DecimalReadBack | src/cmd/cmd_ltxtedit.c:805-809 | A number typed in decimal is read as that number |
| EditorFacts.OthersSkipped | src/cmd/cmd_ltxtedit.c:805-809 | Characters that are no digits do not count, wherever they stand |
| FlatSearch.SearchIsFlat | src/cmd/cmd_ltxtedit.c:729-765 | Searching line by line, from the cursor to the end and then from the start, finds the next place of the pattern in the text as one string, and round |
| FlatSearch.ReplaceIsFlat | src/cmd/cmd_ltxtedit.c:767-797 | The text is then the same with the replacement at that place, and the cursor is behind it |
| Editor.Editor.EditKey | src/cmd/cmd_ltxtedit.c:967-1057 | In edit mode every key has its own effect: quitting twice, saving, prompts, tabs, typing, moving, or nothing |
| Editor.Editor.PromptKey | src/cmd/cmd_ltxtedit.c:906-965 | In a prompt printable keys append up to the limit, backspace takes one back, escape abandons, and return acts on the mode |
| Editor.Editor.Confirm | src/cmd/cmd_ltxtedit.c:911-953 | Return in each of the six prompts does what the prompt asks for and closes it, except that a text to replace is followed by its replacement |
| Editor.Editor.ReplaceNext | src/cmd/cmd_ltxtedit.c:926-931 | The cyclically next occurrence, and nothing else, becomes the replacement |
| Editor.Editor.ExecCommand | src/cmd/cmd_ltxtedit.c:817-880 | Each command word has its effect and any other text none |
| Editor.Editor.Save | src/cmd/cmd_ltxtedit.c:302-320 | A save writes exactly the newline-joined text under the buffer name and clears its modified mark, or changes nothing |
| Editor.Editor.GotoLine | src/cmd/cmd_ltxtedit.c:799-815 | The cursor moves to the start of the line the digits name, clamped to the text |
| Editor.Editor.CloseTab | src/cmd/cmd_ltxtedit.c:890-903 | The current tab is removed and the others keep their order; closing the only one stops the editor |
| Editor.MoveCursor | src/cmd/cmd_ltxtedit.c:694-727 | Every move key goes to its target row and clamps the column into that row; the text is untouched |
| Editor.ParseLine | src/cmd/cmd_ltxtedit.c:805-809 | The number is the decimal value of the digits wrapped once to 32 bits, although the code wraps at every digit |
| Editor.LoadBuffer | src/cmd/cmd_ltxtedit.c:240-300 | A loaded buffer is unmodified, has the cursor at its start and holds the lines of the file |
| Editor.Render | src/cmd/cmd_ltxtedit.c:311-315 | What a save writes is the flat text |
| EditBuffer.InsertChar | src/cmd/cmd_ltxtedit.c:612-620 | Typing is one insertion at the flat cursor offset |
| EditBuffer.InsertNewline | src/cmd/cmd_ltxtedit.c:622-643 | A newline is one insertion of a newline at the flat cursor offset |
| EditBuffer.DeleteChar | src/cmd/cmd_ltxtedit.c:645-669 | Backspace removes the one character before the flat offset, joining lines at a line start, and does nothing at the very start |
| EditBuffer.DeleteForward | src/cmd/cmd_ltxtedit.c:671-692 | Forward delete removes the one character at the flat offset, joining lines at a line end, and does nothing at the very end |
| EditBuffer.InsertTab | src/cmd/cmd_ltxtedit.c:1037-1042 | Tab is one insertion of four spaces |
| EditBuffer.FlatViewIsFaithful | src/cmd/cmd_ltxtedit.c:192-238 | Flat text and flat offset determine lines and cursor |
| EditBuffer.BackspaceUndoes | src/cmd/cmd_ltxtedit.c:612-669 | Any one-character insertion followed by the matching deletion restores the buffer view |
| EditBuffer.Search | src/cmd/cmd_ltxtedit.c:729-765 | The cursor moves to the cyclically first occurrence strictly after it, its own position coming last, and stays exactly when no line holds the pattern |
| EditBuffer.ReplaceAtCursor | src/cmd/cmd_ltxtedit.c:767-797 | The occurrence under the cursor becomes the replacement, for shorter, equal and longer ones, and otherwise nothing changes |
| FlatText.EditLine | src/cmd/cmd_ltxtedit.c:169-190 | Rewriting part of one line rewrites that part of the flat text |
| FlatText.SplitIsSplice | src/cmd/cmd_ltxtedit.c:622-643 | Splitting a line is inserting one newline in the flat text |
| FlatText.JoinIsSplice | src/cmd/cmd_ltxtedit.c:645-692 | Joining two lines is deleting one newline from the flat text |
| FlatText.FlatInjective | src/cmd/cmd_ltxtedit.c:192-238 | Newline-free lines are determined by their joined text |
| FlatText.OffsetInjective | src/cmd/cmd_ltxtedit.c:602-610 | A flat offset belongs to one row and column only |
| LineBuffer.Line.Insert | src/cmd/cmd_ltxtedit.c:169-180 | Shifting the tail in place inserts the character at the clamped position; the terminating NUL always has room |
| LineBuffer.Line.Delete | src/cmd/cmd_ltxtedit.c:182-190 | Shifting the tail back removes the character, and an out-of-range position changes nothing |
| LineBuffer.Line.Replace | src/cmd/cmd_ltxtedit.c:783-794 | Moving the tail right or left in place replaces a range by a text of any length |
| LineBuffer.Line.Ensure | src/cmd/cmd_ltxtedit.c:159-167 | Doubling reaches the needed capacity and keeps every character |
| RowInPlace.TypeInPlace | src/cmd/cmd_ltxtedit.c:612-620 | A typed character changes the characters of the row in place exactly as it changes the buffer |
| RowInPlace.EraseInPlace | src/cmd/cmd_ltxtedit.c:645-653 | So does a backspace inside a row |
| RowInPlace.ReplaceInPlace | src/cmd/cmd_ltxtedit.c:767-797 | So does a replacement at the cursor, and where the pattern does not stand neither changes |
| RowInPlace.RowSpliced | src/cmd/cmd_ltxtedit.c:612-692 | A splice of the flat text inside the row of the cursor is that splice of that row and changes no other |
| FileText.SaveThenLoad | src/cmd/cmd_ltxtedit.c:240-320 | Saving and loading gives the same lines exactly when none is over 1023 characters and the last is not an empty line of its own |
| FileText.LoadThenSave | src/cmd/cmd_ltxtedit.c:240-320 | Loading and saving keeps the file, but for a final newline, exactly when no line is over 1023 characters |
| FileText.LoadedText | src/cmd/cmd_ltxtedit.c:264-286 | What is loaded is, for every content, that content with every 1024th character of a line replaced by a line break |
| FileText.PendingIsRun | src/cmd/cmd_ltxtedit.c:264-286 | The characters pending are those since the last line break modulo 1024, the cut using one up |
| FileText.BrokenOnlyWhenLong | src/cmd/cmd_ltxtedit.c:264-286 | The line breaks put in change nothing exactly when no stretch without a line break is over 1023 characters |
| FileText.LongLineCut | src/cmd/cmd_ltxtedit.c:264-286 | A line of 1024 characters is opened without its last one |
| FileText.LoadRows | src/cmd/cmd_ltxtedit.c:258-292 | The loaded rows are valid and hold the lines of the content |
| JsonReader.VisitPkgIndex | src/cmd/cmd_lebpkg.c:557-598 | The pointer-advancing reader gives the visitor what the specification says, for any text. The source comes back from every text but those on which the visit is stuck, and these are exactly the ones whose scan comes to a closing brace where a dependency is looked for, past packages the visitor does not stop at |
| PkgIndex.IndexVisited | src/cmd/cmd_lebpkg.c:557-598 | For every well-formed index (RFC 8259), in any layout, with members in any order, unknown members of any nesting and anything after it, exactly its packages are visited, in order, with their fields, until the visitor stops |
| IndexMeaning.IndexMeant | src/cmd/cmd_lebpkg.c:557-598 | When the strings that matter fit their fields and use none of the escapes b, f, r and u, the packages visited are those the index means by RFC 8259: whole strings, dependencies joined by commas, the last of equal members winning |
| IndexMeaning.PackageMeant | src/cmd/cmd_lebpkg.c:475-555 | The same for one object; a key cut to its buffer is taken for no field |
| PkgFields.FieldsRead | src/cmd/cmd_lebpkg.c:49-58 | Each of the eight fields read is the string of the last member under its own name, cut to the size of that field, and empty when there is none |
| PkgFields.FieldsMeant | src/cmd/cmd_lebpkg.c:496-514 | Each field meant is the whole string of the last member under its own name |
| PkgFields.IndexFields | src/cmd/cmd_lebpkg.c:557-597 | A well-formed index is visited object by object, in order, with the fields its members give |
| PkgFields.VisitedExactly | src/cmd/cmd_lebpkg.c:591-593 | The visitor is given every package, or those up to the first at which it is not zero, whose result is returned |
| PkgFields.DependFits | src/cmd/cmd_lebpkg.c:531-536 | A further dependency goes behind a comma exactly when the field then holds at most 126 characters; otherwise the comma stays alone as long as there is room for it |
| PkgFields.FieldCut | src/cmd/cmd_lebpkg.c:416-438 | A string too long for its field is cut to one character less than the field has |
| PkgIndex.MembersRead | src/cmd/cmd_lebpkg.c:475-555 | An object of any layout is read as the package its known members describe, the last of equal keys winning |
| PkgIndex.PackagesReached | src/cmd/cmd_lebpkg.c:564-584 | Everything before the packages array of an outer object is passed over |
| PkgIndex.DependsRead | src/cmd/cmd_lebpkg.c:515-545 | A dependency array is read to its bracket, non-string items counting for nothing |
| PkgIndex.DependsJoined | src/cmd/cmd_lebpkg.c:526-537 | While everything fits, the dependencies are the names joined by commas |
| PkgIndex.DependsReturns | src/cmd/cmd_lebpkg.c:522-543 | Some number of turns of the loop over a dependency list leaves it exactly when no closing brace stands where an item is looked for, before any closing bracket |
| PkgIndex.TurnMoves | src/cmd/cmd_lebpkg.c:522-543 | A turn at a closing brace ends where it began with the same dependencies; every other turn moves on, past one item |
| PkgIndex.StuckAtBrace | src/cmd/cmd_lebpkg.c:522-543 | Turn after turn as long as they move, the loop gets stuck exactly when such a brace is ahead |
| PkgIndex.ValueReturns | src/cmd/cmd_lebpkg.c:488-545 | Reading a member never ends exactly for a dependency list with a brace ahead |
| PkgIndex.IndexWithoutEnd | src/cmd/cmd_lebpkg.c:557-598 | Every index that starts with `[{"depends":[}` keeps the reader turning, before any package is visited |
| IndexScan.IndexReturns | src/cmd/cmd_lebpkg.c:557-598 | Reading an index never ends exactly when the scan of its text, object by object and member by member, comes to such a brace and the visitor stops at none of the packages before it; those are then what it has seen |
| IndexScan.MembersScanned | src/cmd/cmd_lebpkg.c:475-555 | Reading an object ends, fails or goes on for ever where the scan of its members does, whatever is read into its fields |
| Json.NestedValue | src/cmd/cmd_lebpkg.c:441-473 | Inside any container a nested value of any shape and depth is passed over whole, brackets in strings included |
| Json.ContainerSkipped | src/cmd/cmd_lebpkg.c:441-473 | A string, array or object is skipped exactly to its end, whatever follows |
| Json.ValueSkipped | src/cmd/cmd_lebpkg.c:441-473 | A literal is skipped to its end, up to spaces |
| Json.ReadCorrectly | src/cmd/cmd_lebpkg.c:423-434 | The characters read are those RFC 8259 section 7 gives exactly when no b, f or r escape is used |
| Json.StringRead | src/cmd/cmd_lebpkg.c:416-439 | A literal is read whole when it fits its field and cut to the field otherwise; reading ends past its closing quote |
| JsonReader.ReadString | src/cmd/cmd_lebpkg.c:416-439 | The reading loop never writes past the field and ends where the specification does |
| JsonReader.SkipJsonValue | src/cmd/cmd_lebpkg.c:441-473 | The skipping loop terminates and stops where the specification does, on malformed text too |
| JsonReader.ReadObject | src/cmd/cmd_lebpkg.c:475-555 | Reading an object agrees with the specification in value, position and failure |
| JsonReader.ReadDepends | src/cmd/cmd_lebpkg.c:515-545 | The dependency loop agrees with the specification; it reports looping, where the source has no exit, exactly for the lists with a brace ahead, and those are exactly the lists on which every number of turns of the source loop leaves it still turning |
| PackageStore.InstallRemove | src/cmd/cmd_lebpkg.c:300-409 | Installing a well-formed package and removing it leaves the old files without the package paths and record exactly when every path is listed; for distinct paths that is exactly when the list has fewer than 8191 characters. In between, the installed version is the one of the package, up to leading blanks and a carriage return |
| PackageStore.Store.Extract | src/cmd/cmd_lebpkg.c:300-409 | A whole package leaves its absolute paths written in order and a record; a faulty one leaves the files before the fault and no record. Relative paths are passed over, also when their size wraps. The reads stay inside the package exactly when the verdict is not an overrun |
| PackageStore.Store.Remove | src/cmd/cmd_lebpkg.c:1285-1334 | Exactly the paths the record names and the record are gone; it fails exactly when there was no record left to delete |
| PackageStore.Store.InstalledVersion | src/cmd/cmd_lebpkg.c:1040-1050 | The version is looked for in the first 255 characters of the record |
| PackageStore.MakeRecord | src/cmd/cmd_lebpkg.c:384-405 | No size test ever drops a part: the record is always complete |
| PackageRecord.RecordFits | src/cmd/cmd_lebpkg.c:384-405 | For metadata in its fixed fields the record always fits its 8704-byte buffer |
| PackageRecord.InstallThenRemove | src/cmd/cmd_lebpkg.c:300-409 | Removing after installing deletes exactly the listed paths and the record, whatever the list could hold |
| PackageRecord.RemovalIsComplete | src/cmd/cmd_lebpkg.c:1285-1334 | The package is gone without trace exactly when every path is listed or is the record itself; for distinct paths, exactly when the full list has fewer than 8191 characters |
| PackageRecord.ShortListsAreWhole | src/cmd/cmd_lebpkg.c:369-375 | No path is dropped from a list of fewer than 8191 characters |
| PackageRecord.WholeWhenShort | src/cmd/cmd_lebpkg.c:369-375 | For distinct paths the list holds every path exactly when its full length is under 8191 characters |
| PackageRecord.PackageTooLong | src/cmd/cmd_lebpkg.c:369-375 | 64 files with paths of 127 characters are a package whose list drops a path |
| PackageRecord.ListRemoves | src/cmd/cmd_lebpkg.c:1309-1321 | Reading the stored list line by line deletes exactly the paths that were listed, stray separators included |
| PackageRecord.HeadKeepsFiles | src/cmd/cmd_lebpkg.c:1309-1321 | No header line of a record with one-line metadata names a file |
| PackageVersion.VersionReadBack | src/cmd/cmd_lebpkg.c:229-255 | The lookup finds the installed version within 255 characters, without leading blanks and up to a carriage return, and nothing when it is all blanks |
| PackageVersion.ParseVersion | src/cmd/cmd_lebpkg.c:229-255 | The scanning loops terminate and find what the line-by-line specification finds in any text |
| PackageFile.PackageReadBack | src/cmd/cmd_lebpkg.c:312-377 | Reading an encoded package file gives back its entries and no fault |
| PackageFile.FirstEntry | src/cmd/cmd_lebpkg.c:331-356 | One encoded entry is read whole, and the next starts where it ends |
| PackageFile.OverrunExactly | src/cmd/cmd_lebpkg.c:331-364 | Where an entry starts, the reads leave the data exactly when a length that is not there seems to be there in 32 bits: the contents of an absolute path, or, within 134 bytes of 2^32, the length, the path or the size |
| PackageFile.PackageOverruns | src/cmd/cmd_lebpkg.c:310-377 | The reads of a whole package leave it exactly when it is well marked and some announced entry, reached through the ones before it, leaves it so |
| PackageFile.WrappedSize | src/cmd/cmd_lebpkg.c:344-364 | A concrete package of 15 bytes with an absolute path whose contents size wraps: the reads leave it |
| PackageFile.WrappedSizeSkipped | src/cmd/cmd_lebpkg.c:353-362 | The same size after a relative path leads back inside: the 14-byte package is whole and installs nothing |
| PackageFacts.LastContentStays | src/cmd/cmd_lebpkg.c:358-367 | A file holds the contents of the last entry from the root with its name |
| PackageFacts.OtherFilesStay | src/cmd/cmd_lebpkg.c:358-367 | A file no entry goes to is as before |
| PackageFacts.TopFields | src/cmd/cmd_lebpkg.c:384-389 | The record names the package, its state and its version, each on its line |
| PackageFacts.TailFields | src/cmd/cmd_lebpkg.c:390-397 | Dependencies, section, license and description that are not empty stand each on the line with its tag |
| PackageFacts.ListIsJoined | src/cmd/cmd_lebpkg.c:369-375 | A list of fewer than 8191 characters is the paths from the root, in order, one a line |
| PackageFacts.PlainVersionBack | src/cmd/cmd_lebpkg.c:229-255 | A version without leading blanks and carriage returns is read back whole |
| Partitions.Disk.Run | src/cmd/cmd_ldiskutil.c:884-1106 | Every sequence of New at the offered start, Delete, Resize, type change and relabel takes the table through exactly the specified steps and keeps partitions non-empty, disjoint, in bounds and distinctly numbered, as long as no New is made where some but fewer than 2048 sectors are free |
| Partitions.Disk.FindFreeStart | src/cmd/cmd_ldiskutil.c:531-552 | The search terminates at the least multiple of 2048, at least 2048, that lies in no partition |
| Partitions.Disk.FindMaxSectors | src/cmd/cmd_ldiskutil.c:554-572 | The size offered reaches to the next partition that starts after the sector, or to the label limit |
| Partitions.Disk.New | src/cmd/cmd_ldiskutil.c:884-999 | A partition is made exactly when there is a slot, the disk has a size, something is free at the offered sector and the size asked for at the sector typed or offered is not zero; the table then stays well placed exactly when that sector is in no partition and at least 2048 sectors are free from it |
| Partitions.Disk.NewAt | src/cmd/cmd_ldiskutil.c:932-995 | The partition made at a start has the next number, the size asked rounded to whole MiB and the default type, and is last and selected |
| Partitions.Disk.NextNumber | src/cmd/cmd_ldiskutil.c:954-979 | The lowest free MBR number, none exactly when all four are taken, or one more than the greatest GPT number |
| Partitions.Disk.Delete | src/cmd/cmd_ldiskutil.c:1001-1028 | Only the selected partition goes; the others keep order and number |
| Partitions.Disk.Resize | src/cmd/cmd_ldiskutil.c:1030-1106 | Only the size of the selected partition changes, to what the typed answer asks for, clamped so that the table stays well placed; an empty answer cancels and a plus sign alone takes all there is |
| Partitions.Disk.SetType | src/cmd/cmd_ldiskutil.c:1167-1200 | Only the type of the selected partition changes |
| Partitions.Disk.NewLabel | src/cmd/cmd_ldiskutil.c:1391-1430 | A new label empties the table, after a confirmation when there is something to lose; otherwise nothing changes |
| Partitions.NewIsPlaced | src/cmd/cmd_ldiskutil.c:913-984 | A partition of the size asked leaves the table well placed exactly when its start is free and at least 2048 sectors are free from it |
| Partitions.OfferExists | src/cmd/cmd_ldiskutil.c:531-552 | Every table has an offered sector |
| Partitions.AddKeepsPlacement | src/cmd/cmd_ldiskutil.c:554-572 | A further partition keeps the table well placed exactly when its start is free and its size at most what is offered |
| Partitions.ResizeKeepsPlacement | src/cmd/cmd_ldiskutil.c:1053-1101 | A new size keeps the table well placed exactly when it is at most what is offered |
| Partitions.RoundingFits | src/cmd/cmd_ldiskutil.c:949-952 | Rounding to whole MiB stays within the free space exactly when that is at least 2048 sectors |
| PartitionFacts.RoundedDown | src/cmd/cmd_ldiskutil.c:949-952 | The size is the greatest multiple of 2048 sectors within the one asked for, and 2048 when that is smaller; there is no other such number |
| PartitionFacts.MadeAsAsked | src/cmd/cmd_ldiskutil.c:949-995 | The partition made has its first sector and the size asked for rounded so; the others stay as they are |
| PartitionFacts.ResizedAsAsked | src/cmd/cmd_ldiskutil.c:1085-1101 | The partition resized has the size asked for rounded so, or all that is free when that is under 2048 sectors; nothing else changes |
| PartitionFacts.UnitSectors | src/cmd/cmd_ldiskutil.c:585-591 | A number with K, M or G asks for 2, 2048 or 2097152 sectors each |
| PartitionFacts.ExactUnits | src/cmd/cmd_ldiskutil.c:574-995 | Where they are free, a partition of n M or n G has exactly n times 2048 or 2097152 sectors |
| PartitionFacts.SignedNumber | src/cmd/cmd_ldiskutil.c:583 | Blanks and a sign may come before a number, and a minus sign counts back from 2^64 |
| PartitionFacts.RemovedOnly | src/cmd/cmd_ldiskutil.c:1017-1026 | The partitions before and after the selected one keep their order, and the selection stays in the table |
| PartitionFacts.RetypedOnly | src/cmd/cmd_ldiskutil.c:1167-1200 | The new type goes to the field of the kind of label, for the selected partition only |
| PartitionFacts.LabelAsks | src/cmd/cmd_ldiskutil.c:1391-1430 | A table with partitions is emptied with a yes and stays as it is without |
| PartitionFacts.OffTheBackup | src/cmd/cmd_ldiskutil.c:1056-1059 | No well-placed partition of a GPT disk reaches the last 34 sectors |
| Partitions.SmallGapOverlaps | src/cmd/cmd_ldiskutil.c:949-984 | A concrete table in which New at the offered start makes two partitions overlap |
| Partitions.OfferIsUnique | src/cmd/cmd_ldiskutil.c:531-552 | There is only one offered sector |
| SizeInput.UnitSize | src/cmd/cmd_ldiskutil.c:574-594 | A number followed by K, M or G, with or without a plus sign, asks for that many bytes in sectors, as far as they are free; one that comes to 2^64 bytes or more is taken modulo 2^64, and gives all that is free, as it should, exactly when the remainder covers it; a number of 2^64 or more counts as one unit short of 2^64 bytes |
| SizeInput.PlainSize | src/cmd/cmd_ldiskutil.c:574-594 | A number alone asks for that many sectors as far as they are free; an empty answer or a plus sign alone asks for all of them |
| SizeInput.NumberRead | src/cmd/cmd_ldiskutil.c:583 | The digits of any number read back as that number, or as 2^64 - 1 when it does not fit |
| LabelDevice.WriteThenScan | src/cmd/cmd_ldiskutil.c:360-490 | A GPT written from one label and scanned into another gives the same disk size, disk GUID and partitions for every disk size on which the backup does no harm, and no read leaves the bytes read; the partitions are unchanged but for renumbering exactly when each has a type, at most 36 name characters and none above 127 |
| LabelScan.GptRoundTrip | src/cmd/cmd_ldiskutil.c:1226-1338 | The written image scans as that GPT whatever the device held before, as long as the backup copies stay off the first 34 sectors or put the same entries where they already are |
| LabelScan.RestoredExactly | src/cmd/cmd_ldiskutil.c:433-453 | The partitions read back equal those written, renumbered by position, exactly when the format can carry each of them |
| LabelWrap.RoundTripSizes | src/cmd/cmd_ldiskutil.c:1317-1329 | For a given disk size of at least 2048 sectors, every label comes back from every device exactly when the backup, whose addresses are cut to 32 bits, does no harm: when the size modulo 2^32 is 0, 35 or over 66 |
| LabelWrap.EmptyLabelLost | src/cmd/cmd_ldiskutil.c:1317-1329 | On a failing size whose backup header or entries fall on the record, the header or the entries, an empty label does not come back, whatever the device held |
| LabelWrap.EntriesTwice | src/cmd/cmd_ldiskutil.c:1317-1329 | On a failing size whose backup entries fall one sector or more into the primary ones, a label of one partition does not come back: it is reported twice |
| LabelScan.GptRead | src/cmd/cmd_ldiskutil.c:411-457 | Any device with a marked record, a header and written entries is scanned as that GPT |
| DiskLabel.ApartUpTo32Bits | src/cmd/cmd_ldiskutil.c:1317-1329 | Up to 2^32 sectors the backup entries and header are the last 33 sectors and miss the primary table |
| DiskLabel.PrimarySurvives | src/cmd/cmd_ldiskutil.c:1258-1329 | The first 34 sectors of the final image are the protective record, the header and the entries, for every disk size on which the backup does no harm |
| DiskLabel.BackupWritten | src/cmd/cmd_ldiskutil.c:1317-1329 | On a large enough device the backup is a copy of the entries and a header pointing back at sector 1 |
| DiskLabel.DataUntouched | src/cmd/cmd_ldiskutil.c:1226-1338 | Sectors between the primary and the backup table keep their contents |
| DiskLabel.EntriesReadBack | src/cmd/cmd_ldiskutil.c:433-453 | Reading a written entry array gives the partitions of non-zero type, numbered by slot |
| DiskLabel.LastInside | src/cmd/cmd_ldiskutil.c:433-453 | Whatever the entries hold, all that is looked at lies inside the buffer when the last one announced ends inside it |
| DiskLabel.FreeInside | src/cmd/cmd_ldiskutil.c:433-453 | For free entries it is enough that the 16 type bytes of the last one end inside, so 32 entries of 16 bytes fit one sector |
| PartitionTable.EntryReadBack | src/cmd/cmd_ldiskutil.c:436-450 | An entry read back has the start, length and type written and the name cut to 36 seven-bit characters |
| PartitionTable.FillEntries | src/cmd/cmd_ldiskutil.c:1272-1289 | The entry array is the packed entries in order and zeros after them (section 5.3.3 of the UEFI Specification) |
| PartitionTable.HeaderFields | src/cmd/cmd_ldiskutil.c:1293-1310 | The fields a scan looks at are found in the packed header (section 5.3.2 of the UEFI Specification) |
| GptFacts.GptWritten | src/cmd/cmd_ldiskutil.c:1258-1329 | On a device with its sectors, up to 2^32 of them, the image has the protective record in sector 0, a header in sector 1, the entries from sector 2, the entries again in sectors n-33 to n-2 and a header in sector n-1; each header gives its own place, the other one, the usable sectors 34 to n-34, its entries, and its checksum over 92 bytes with the checksum field zero |
| GptFacts.EntryDescribed | src/cmd/cmd_ldiskutil.c:1276-1280 | Where type, GUID, first and last sector of an entry stand |
| GptFacts.NameDescribed | src/cmd/cmd_ldiskutil.c:1281-1288 | And the characters of its name, each in two bytes |
| GptFacts.MbrSlot | src/cmd/cmd_ldiskutil.c:1211-1219 | Slot n of the record has type, start and size of the last partition numbered n, in 32 bits |
| GptFacts.MbrFreeSlot | src/cmd/cmd_ldiskutil.c:1207-1214 | A slot without a partition is zero |
| PartitionTable.EncodeName | src/cmd/cmd_ldiskutil.c:1281-1288 | The name is stored as 16-bit units, at most 36, zero-filled |
| PartitionTable.DecodeUnits | src/cmd/cmd_ldiskutil.c:445-449 | The name is read up to its first zero unit, at most 36 units, seven bits of each, and stays inside the buffer exactly when those units and the zero one do |
| MasterBootRecord.MbrRoundTrip | src/cmd/cmd_ldiskutil.c:1202-1224 | A written MBR scans back as its partitions in slot order and the end of the last one as disk size, unless sector 1 carries a GPT header, in which case that GPT is found |
| MasterBootRecord.AllComeBack | src/cmd/cmd_ldiskutil.c:1202-1224 | With distinct numbers 1 to 4, non-zero types and 32-bit places every partition comes back once, ordered by slot |
| MasterBootRecord.MakeRecord | src/cmd/cmd_ldiskutil.c:1207-1220 | The record is the boot code, the four slots by partition number, and the mark; numbers outside 1 to 4 have no slot |
| LabelDevice.Label.Scan | src/cmd/cmd_ldiskutil.c:360-490 | A scan replaces the label by what the specification finds on the device; its reads stay inside the bytes read exactly when, behind a marked record, what is looked at of every entry lies in them: 16 bytes of a free one, of a used one all up to the end of its name |
| LabelDevice.Label.WriteGpt | src/cmd/cmd_ldiskutil.c:1226-1338 | The write succeeds exactly for at least 2048 disk sectors on a device of at least 34, and leaves exactly the specified image |
| LabelDevice.Label.WriteMbr | src/cmd/cmd_ldiskutil.c:1202-1224 | Only the first sector changes, to the record of the partitions |
| LabelDevice.Label.Write | src/cmd/cmd_ldiskutil.c:1340-1360 | Nothing happens unless confirmed; a written label is no longer modified |
| LabelDevice.ReadEntries | src/cmd/cmd_ldiskutil.c:433-453 | The loop collects exactly the used entries among the first 128, at most 16, with addresses computed in 32 bits; it stays inside the buffer exactly when what it looks at of each entry does |
| LabelDevice.ReadRecord | src/cmd/cmd_ldiskutil.c:460-481 | The loop over four slots collects the used ones and the greatest end |
| FatLayout.FatSize | src/cmd/cmd_lformat_fat.c:75-92 | The binary search returns the least number of FAT sectors that holds clusters + 2 entries, without overflow |
| FatLayout.PlanVolume | src/cmd/cmd_lformat_fat.c:138-172 | A volume is planned exactly for 32748 to 2^32 - 1 sectors, and is then sound: both FATs cover every cluster, the regions fit the device, and the cluster count matches the FAT type; clusters have 16 sectors exactly when 8 would make more of them than FAT32 counts, and a FAT32 is the least that holds |
| FatLayout.SizeFat32 | src/cmd/cmd_lformat_fat.c:148-155 | Doubling the cluster size stops with a legal FAT32 cluster count, at 16 sectors exactly when 8 leave too many clusters |
| FatLayout.PlanFat16 | src/cmd/cmd_lformat_fat.c:156-172 | A FAT16 volume is sound even when its cluster count is cut to 65524 and its FAT is not resized |
| FatLayout.HoldsMonotone | src/cmd/cmd_lformat_fat.c:83-90 | A larger FAT holds whenever a smaller one does, although it leaves fewer sectors |
| FatLayout.UpperBoundHolds | src/cmd/cmd_lformat_fat.c:82 | The search starts from a size that holds |
| ExfatFormat.Plan | src/cmd/cmd_lformat_exfat.c:103-116 | A layout is accepted exactly for 2048 to 0x10001FFFAFF sectors, is the one the formulas give, and is sound (sections 3.1, 4.1 and 7.1 of the exFAT specification): FAT long enough, heap aligned after it, clusters inside the device, bitmap neither too short nor too long |
| ExfatFormat.RegionsSound | src/cmd/cmd_lformat_exfat.c:103-116 | Accepting implies soundness, also for FAT lengths that wrap in 32 bits, which are refused; the accepted sizes are those up to 0x10001FFFAFF sectors |
| ExfatFormat.WriteFat | src/cmd/cmd_lformat_exfat.c:165-175 | Flushing the sector buffer when full and at the end writes every entry once and zeros the rest of the last sector |
| ExfatFormat.ChainVisits | src/cmd/cmd_lformat_exfat.c:166-168 | The chain from cluster 2 visits exactly the bitmap clusters, in order, and ends |
| ExfatFormat.WriteBitmap | src/cmd/cmd_lformat_exfat.c:177-181 | The set bits are exactly those of the bitmap, up-case table and root clusters, as far as the first sector goes; the marks stay inside the sector buffer exactly when they are at most 4096 |
| ExfatFormat.WriteTables | src/cmd/cmd_lformat_exfat.c:165-181 | FAT and bitmap of an accepted volume agree: one chain for the bitmap, one-cluster chains for up-case table and root, and, with at most 4094 * 2^20 clusters, just those clusters marked |
| ExfatFormat.BitmapFitsSector | src/cmd/cmd_lformat_exfat.c:103-177 | Among the accepted devices the marked bits fit the first bitmap sector exactly below 0xFFE1FFC600 sectors; from there up to 0x10001FFFAFF they do not |
| ExfatBoot.WriteBoot | src/cmd/cmd_lformat_exfat.c:130-163 | Both boot regions end up the same: eleven sectors and a twelfth filled with the checksum gathered on the way; nothing after them changes |
| ExfatBoot.Sum32 | src/cmd/cmd_lformat_exfat.c:53-60 | The loop turns the sum right and adds each byte but, in the boot sector, those at 106, 107 and 112 |
| ExfatBoot.SumContinues | src/cmd/cmd_lformat_exfat.c:155-159 | Summing sector after sector is the checksum of section 3.4 of the exFAT specification over the whole region |
| ExfatBoot.RegionVerifies | src/cmd/cmd_lformat_exfat.c:130-163 | A region that was written verifies: each of the 128 numbers in its last sector is the checksum of the eleven before |
| ExfatBoot.VerifiesExactly | src/cmd/cmd_lformat_exfat.c:53-60 | It goes on verifying whatever a driver puts into the volume flags and the percentage in use, and stops when one other byte before the checksum changes |
| ExfatBoot.OneByteShows | src/cmd/cmd_lformat_exfat.c:53-60 | One wrong byte outside those three always changes the checksum |
| ExfatBoot.UpCaseRaises | src/cmd/cmd_lformat_exfat.c:124-128 | The 30 entries of the up-case table cover every 16-bit character and raise exactly the letters a to z |
| FormatFacts.RegionBytes | src/cmd/cmd_lformat_exfat.c:130-158 | What each byte of the first eleven sectors of a boot region is |
| FormatFacts.StepTurns | src/cmd/cmd_lformat_exfat.c:58-59 | Turning the sum right halves it modulo 2^32 - 1 |
| FormatFacts.ClusterBytes | src/cmd/cmd_lformat_exfat.c:104 | Clusters of 4 KiB up to 256 MiB, of 32 KiB up to 32 GiB, of 128 KiB above |
| Ext4Format.Format | src/cmd/cmd_lformat_ext4.c:408-607 | For every layout planned, formatting succeeds exactly when every group holds its metadata, and then the block image holds, each in its own blocks, bitmaps, descriptors, root directory and superblock that agree: zero bits counted per group equal the descriptor counts, which sum to the superblock, bits past the end are set, and the used bits are exactly the metadata and root directory blocks |
| Ext4Format.FormatGroups | src/cmd/cmd_lformat_ext4.c:453-534 | The pass over the groups accumulates the free blocks its descriptors record |
| Ext4Format.FormatGroup | src/cmd/cmd_lformat_ext4.c:453-534 | One group is written exactly when it can hold its metadata; apart from its descriptor no block outside its own metadata changes, and its inode table is zero |
| Ext4Format.MakeBlockBitmap | src/cmd/cmd_lformat_ext4.c:486-500 | The set bits are the group metadata, the root directory block in group 0 and everything past the group end |
| Ext4Format.MakeInodeBitmap | src/cmd/cmd_lformat_ext4.c:502-513 | The set bits are the reserved inodes in group 0 and everything past the inode count |
| FormatFacts.MarkedAreTaken | src/cmd/cmd_lformat_ext4.c:486-500 | The bits set for a group are those of the superblock and descriptors, the two bitmaps, the inode table, the root directory, and the blocks past the device |
| FormatFacts.MarkedInodes | src/cmd/cmd_lformat_ext4.c:502-513 | The inode bits set are the first 11 in group 0 and those past the inodes of a group |
| Ext4Format.ClearAreFree | src/cmd/cmd_lformat_ext4.c:463-500 | The zero bits of a finished group number its free blocks and inodes |
| Ext4Format.OnlyLastShort | src/cmd/cmd_lformat_ext4.c:453-465 | Every group can hold its metadata exactly when the last one can |
| Ext4Format.Plan | src/cmd/cmd_lformat_ext4.c:350-381 | A device under 64 blocks is refused; otherwise a group has one inode for 32 blocks of the device, from 16 to 1024, all counts fit 16 bits and group 0 holds its metadata; the groups cover the device exactly up to 2^32 - 32768 blocks, beyond which their number wraps to one |
| Ext4Format.WriteRoot | src/cmd/cmd_lformat_ext4.c:536-597 | After the groups the root inode and directory are always written, disturb no bitmap, descriptor or other group, and the directory block is marked; its entries fill the block, and those in use are the directory and its parent, as many as the links the inode counts |
| Ext4Format.TableInside | src/cmd/cmd_lformat_ext4.c:483-484 | Every descriptor lies in its table, off the superblock and off the metadata of every group |
| Bitmaps.SetBit | src/cmd/cmd_lformat_ext4.c:487-490 | Setting a bit in the byte array changes that bit and no other |
| Bitmaps.ClearRange | src/cmd/cmd_lformat_ext4.c:486-500 | When exactly a range is clear its length is the number of zero bits |
| PathAbs.PathAbs | src/path.c:102-142 | The function computes the fast path when the check passes and fits, and the slow path otherwise, including its failures |
| PathAbs.ResultIsCanonical | src/path.c:102-142 | Within the 511-character, 32-component and output limits the result is the canonical form, taken from the current directory when relative, and applying the function again changes nothing |
| PathAbs.FastAgreesWithSlow | src/path.c:116-141 | On a normal path both ways agree exactly when the output has a byte to spare beyond the NUL, or the path is the root |
| PathAbs.NormalIsCanonical | src/path.c:116-136 | The fast check accepts exactly the paths that are their own canonical form |
| PathAbs.CanonicalTwice | src/path.c:61-99 | Normalising is idempotent |
| PathMeaning.UpCancels | src/path.c:74-77 | In the canonical form a directory and the two dots after it cancel, wherever they stand |
| PathMeaning.DotCancels | src/path.c:73 | One dot counts for nothing |
| PathMeaning.UpAtRootStays | src/path.c:74-77 | Two dots at the root stay there |
| PathMeaning.SlashesMerge | src/path.c:68-72 | Several slashes are one |
| PathMeaning.NameThenUp | src/path.c:73-79 | On lists of names: a name and the two dots after it cancel |
| PathMeaning.DeepNamesDropped | src/path.c:78-79 | Of more than 32 plain names the slow way keeps the first 32 |
| PathMeaning.BufferedIsCut | src/path.c:32-59 | The slow way works on the path from the root, cut to 511 characters |
| PathAbs.SlowIsCanonical | src/path.c:11-100 | Within 32 components the slow way gives the canonical path exactly when the output buffer is large enough |
| PathAbs.CheckNormal | src/path.c:116-135 | The scanning loop decides normality |
| PathAbs.PathAbsSlow | src/path.c:11-100 | Cutting the buffer in place and the 32-slot stack fold the names, with .. popping |
| PathAbs.ResolveNames | src/path.c:61-80 | The loop over components leaves the stack the fold of names gives, names beyond 32 being dropped |
| PathAbs.WriteParts | src/path.c:82-99 | Components are written until one does not fit; the text and its NUL stay inside the buffer exactly when that has two bytes or more |
| PathAbs.ResultFits | src/path.c:82-139 | A result and its NUL fit the output buffer exactly when that has two bytes or more |
| PathAbs.OneByteOverflows | src/path.c:92-99 | A concrete path below the root for which a buffer of one byte receives two |

## Left out

- FieldOps.Select: exchanges whole limbs; that the masked exclusive-or of the code does so on 64-bit words is `MaskedSwap.Swaps`.
- FieldOps.Carry: asks for limbs of magnitude at most 2^62, which every caller provides; beyond that the C addition may overflow.
- MontgomeryCurve.SumIsChord: holds modulo any m; the gap between the two x coordinates has an inverse, which is a parameter because the primality of 2^255-19 is not proved, and infinity is not a point here.
- MontgomeryLadder.Multiple: built by doubling and addition as the bits go; that the points of the curve are a group, so that every other way of adding gives the same, is not proved, nor is any claim of cryptographic strength. Key generation is left out.
- HashConstants.RootsOf256: fixes the constants; the rotation amounts of the block functions are the standard's and have no other description here.
- EditBuffer.InsertChar: rows are values with a capacity; `RowInPlace` ties the edits inside a row to the in-place work of `LineBuffer.Line`, while rows split and joined, and aliasing between rows, are on values only.
- Editor.Editor.Run: the flat-text refinement covers typing, newline, tab and the two deletions; moves and prompts are covered key by key.
- Editor.Editor.Save: whether the file can be opened for writing is a parameter, and a write is complete.
- Editor.MoveCursor: scrolling, the drawn screen, key decoding, messages and the title flag are not modelled.
- Diff.Walk: hunks are values that hold the numbers and lines printed; the formatting of the text is not modelled.
- Lines.DiffLines.Read: a file is its whole content; read errors and the growth of the line buffer are not modelled.
- Json.StringRead: `\u` and its four digits are read as characters of their own, as the code does, so the value of such an escape is not claimed.
- PkgIndex.IndexVisited: the visitor is a function of the package; a context it updates is not modelled.
- PackageStore.Store.Extract: where a size that wraps would have the contents of an absolute path taken from memory outside the package, the model stops; what the C code does from there is not modelled. Inputs of 2^32 bytes or more are excluded.
- PackageStore.Store.WriteFile: directories, permissions and failing writes are not modelled.
- PackageStore.Store.Unlink: fails exactly when the file is absent.
- Partitions.Disk.Run: New is at the offered start; a start typed by the user is not checked by the code, and `Partitions.Disk.New` says exactly when it is harmless. `strtoull` is the one of ISO C; the prompt's own length limit is not modelled.
- Partitions.Disk.constructor: disk sizes stay below 2^64 - 2048 sectors, and types are opaque codes; their bytes and the partition names are modelled in `PartitionTable`.
- LabelDevice.Label.Scan: where a part of an entry that is looked at lies outside the bytes read, the C code looks at memory that was never filled; the partitions it makes of that are not modelled.
- LabelDevice.Label.WriteGpt: the CRC-32 and the random partition GUIDs are parameters; a scan checks neither.
- FatLayout.PlanVolume: boot sectors, FAT contents and the volume label are not modelled.
- ExfatFormat.Plan: devices of 2^55 sectors or more, the checksum of the up-case table and the directory entries are not modelled.
- ExfatFormat.WriteBitmap: when the marks leave the sector buffer, what they overwrite is not modelled.
- Ext4Format.Plan: of a device of 2^32 blocks or more the source only sees the count modulo 2^32.
- ExfatBoot.WriteBoot: the boot sector is any 512 bytes; its fields, among them the random serial number, are not modelled.
- Ext4Format.WriteRoot: a write past the end of the device fails and every other write succeeds; uuid, times, label and the byte layout of inodes, directory entries, descriptors and superblock are not modelled.
- PathAbs.PathAbs: the current directory is a parameter.
- Memory allocation failure and `free` anywhere.
- `ipv67cli`, `ipv67d`, the wrappers in `src/wrap`, the dispatcher and the thin commands: argument plumbing around system calls.
- IPv4 and IPv6 text, netmasks, base64, `ls` sorting, unit formatting: easy members.
