# Proofs about the Swagger bundles' library code, the cache and the pagination

A Dafny model of the algorithms this repository depends on: library code shipped inside the two
Swagger bundles, and the application's own cache and pagination helpers. `dafny verify
dfyconfig.toml` checks all of it.

| files | what they model |
|---|---|
| `BitRank`, `HashTrie`, `HashTrieShape`, `HashTrieRefinement`, `HashTrieLoops` | Immutable's `Map`, a hash array mapped trie with five kinds of node, refined to a finite map |
| `YamlEscape`, `YamlForms`, `YamlScalar`, `YamlLines`, `YamlFolding`, `YamlReader` | js-yaml: writing and reading double-quoted scalars, and how its line folding differs from the standard's |
| `Base64`, `Base64Alphabet`, `Base64Loops`, `YamlBinary` | base64-js, and js-yaml's own base64 |
| `Utf8`, `Utf8Grammar`, `Utf8Loops` | Buffer: UTF-8 encoding and decoding, and that both follow RFC 3629 |
| `BufferInts`, `ArrayIndexOf` | Buffer: integers of one to six bytes, and searching |
| `HashPadding`, `HashBlocks` | block buffering and padding below the SHA functions |
| `WritableSpec`, `WritableOrder`, `WritableDrain`, `Writable` | the Writable stream |
| `StringDecoderSpec`, `StringDecoderChunks`, `StringDecoderAnyBytes`, `StringDecoder` | the UTF-8 StringDecoder |
| `BufferList` | the linked list of buffers behind a readable stream |
| `CacheKeys`, `CacheProtocol`, `CacheSafety`, `CacheServing`, `CacheFailure`, `CacheRedis` | the generation-counter cache, its key scheme, its concurrent runs, its hits, and its failures |
| `Pagination` | page windows |
| `Bytes`, `Words`, `Sequences`, `Wrappers`, `Arithmetic` | shared definitions and arithmetic |

Code that updates objects and arrays in place is modelled by classes, arrays and loops; each such
method is proved equal to a function, and the lemmas are about these functions. What a function
makes of characters, codes and limits is stated once more with the numbers written out, after the
standard where there is one: `YamlForms`, `YamlLines`, `Utf8Grammar`, `Base64Alphabet`,
`CacheKeys.WordEndsTheKey`. All code of a
bundle stands on line 2 of its file, so the table names the function it models.

Hard points, and how they are met:

- **Trie.** One invariant covers all node kinds: every entry lies on the path of its hash, child
  indices are bit ranks (proved from the 32-bit masks and signed shifts of `popCount`), counts are
  right, array nodes have at least 8 children, no bitmap node has a lone leaf. Promotion,
  demotion, collapse and collisions are each shown to replace one child and keep the others, and
  `RunRefines` puts them together: every run of `set` and `remove` is a run on a finite map.
- **Streams.** The invariants hold over all runs and all ways of cutting the input: `EveryRunKeepsInv`,
  `NoWriterIsForgotten`, `AnyCut`, `HashChunks`, `Consume`.
- **Round trips.** YAML scalars, both base64 implementations, UTF-8 and integers, on all inputs
  for which the code meets them, and where it does not, with the exact condition.
- **Cache.** Requests, commits, expiry and Redis failures (a call may fail before or after it took
  effect) interleave freely; `WriteThenBumpIsSeen` is about every such run, `NextRequestIsServed` says
  that what was kept is served, and `DisabledIsInvisible` that a request which lost Redis could as well
  not be there.

## What the code does not do

- `utf8ToBytes` does not see the second of two leading surrogates that end a string: `D800 D800`
  becomes one replacement. `Utf8.LoneSurrogatesAreReplaced` gives the exact condition.
- js-yaml writes the empty binary as `AAAA`, which reads as three zero bytes:
  `YamlBinary.AgreesUnlessEmpty`, `YamlBinary.BinaryRoundTrip`.
- js-yaml's reader departs from section 7.3.1 of YAML 1.2.2 in three ways: it keeps blanks before a
  folded line break, loses the empty lines behind an escaped one, and takes an escaped break directly
  behind another break, which the grammar (s-double-next-line) refuses. The model follows the code;
  for scalars that need no indentation, `YamlFolding.ReadsAsSpecified` says exactly when the two
  readings agree. The standard also refuses deficient indentation, of which the reader only warns.
- base64-js loses the group before a `=` at a positive multiple of four to two zero bytes:
  `Base64.PaddingGroup` gives the outcome for every string.
- The StringDecoder gives one replacement for a held character that is broken off, where decoding the
  bytes in one piece gives one for each byte: `StringDecoderAnyBytes.WhenCuttingMatters`.
- A Writable's callbacks come out of order if, and only if, the sink calls back for a write while a
  deferred completion waits for its tick: `WritableOrder.CallbacksInOrder`,
  `WritableSpec.OvertakenCallback`.
- `Pagination::apply` changes a sanitised limit if no positive limit was given and the default is
  neither positive nor at least the maximum: `Pagination.SanitizeThenApply`.
- A data key whose last part is `version` is the version key of a namespace that has a colon in it:
  `CacheKeys.DataKeyIsVersionKey` gives the exact condition, `CacheKeys.ColonsCollide` a case.
- The usage example in `docs/caching.md` joins page and limit with colons, which the key loses, so
  that different pages can share one: `CacheKeys.StructuredDetermines`, `CacheKeys.PagesCollide`.
  The code (`src/Service/CustomerService.php`) hashes them together instead: `CacheKeys.DigestsDecide`.

## Model

| member | source | states |
|---|---|---|
| `BitRank.PopCountIsRank` | public/swagger/swagger-ui-standalone-preset.js:2 | `popCount`: the masks and signed shifts on 32-bit words count exactly the bits below a position, for every word and every position |
| `BitRank.SignedShiftsAreHarmless` | public/swagger/swagger-ui-standalone-preset.js:2 | `popCount` shifts with sign (`>>`), and for every word, the sign bit included, that changes nothing |
| `BitRank.ChangedBits` | public/swagger/swagger-ui-standalone-preset.js:2 | setting a bit of the bitmap, or flipping one, changes one position and no other |
| `BitRank.ChangedRank` | public/swagger/swagger-ui-standalone-preset.js:2 | the index of every child above a changed bit moves by one, below it by none |
| `HashTrie.FullPath` | public/swagger/swagger-ui-standalone-preset.js:2 | a hash is determined by its seven base-32 digits, so two different hashes part at a shift of at most 30 |
| `HashTrie.PathsPart` | public/swagger/swagger-ui-standalone-preset.js:2 | hashes on one path stay together exactly where their next digits agree |
| `HashTrie.HashesAgreeAtTheBottom` | public/swagger/swagger-ui-standalone-preset.js:2 | below shift 30 only equal hashes meet, which is why `mergeIntoNode` ends |
| `HashTrie.MergeKeepsInv` | public/swagger/swagger-ui-standalone-preset.js:2 | `mergeIntoNode`: a leaf and an entry of the same path give a node of that path with the whole shape invariant, at every level, equal hashes becoming a collision node |
| `HashTrie.PackChildren` | public/swagger/swagger-ui-standalone-preset.js:2 | `packNodes`: child i is gone, every other child is found under its old index |
| `HashTrie.PackCount` | public/swagger/swagger-ui-standalone-preset.js:2 | `packNodes` leaves one child less, and its bitmap has one bit a child |
| `HashTrie.ExpandChildren` | public/swagger/swagger-ui-standalone-preset.js:2 | `expandNodes`: the new child is under its index, every other one under its old index |
| `HashTrie.ExpandCount` | public/swagger/swagger-ui-standalone-preset.js:2 | `expandNodes` gives an array node whose count is that of its non-empty slots |
| `HashTrie.PlaceInBitmapShape` | public/swagger/swagger-ui-standalone-preset.js:2 | `BitmapIndexedNode.update`: replace, insert, remove, promote at 16 children or move a lone leaf up; in every branch the children are the old ones with one replaced, or the one leaf left |
| `HashTrie.PlaceInArrayShape` | public/swagger/swagger-ui-standalone-preset.js:2 | `HashArrayMapNode.update`: replace, count, or pack when fewer than 8 children remain, with the children as before but one |
| `HashTrie.ChangedEntries` | public/swagger/swagger-ui-standalone-preset.js:2 | entries of array and collision nodes: replace in place, move the last entry into a removed place, or append; keys stay distinct and every key reads as in a finite map |
| `HashTrie.UpdateKeepsInv` | public/swagger/swagger-ui-standalone-preset.js:2 | `updateNode` and the four `update` methods below the root: every update keeps every entry on the path of its hash, child index = bit rank, counts, at least 8 children in an array node, no lone leaf child |
| `HashTrieShape.SizesOfNodes` | public/swagger/swagger-ui-standalone-preset.js:2 | the sizes of the nodes of a well-formed trie: at most 8 entries at the root, at most 16 children in a bitmap node, 32 slots and at least 8 children in an array node |
| `HashTrieShape.BitmapNodeGrows` | public/swagger/swagger-ui-standalone-preset.js:2 | a bitmap node of 16 children becomes an array node of 17, and a smaller one grows by one |
| `HashTrieShape.BitmapNodeShrinks` | public/swagger/swagger-ui-standalone-preset.js:2 | a bitmap node loses one child, or gives way to the leaf that is left |
| `HashTrieShape.ArrayNodeChanges` | public/swagger/swagger-ui-standalone-preset.js:2 | an array node of 8 children that loses one becomes a bitmap node of 7; any other change leaves an array node with its children counted |
| `HashTrieShape.ArrayMapChanges` | public/swagger/swagger-ui-standalone-preset.js:2 | the root stays an array of entries up to 8 keys, becomes a trie with the 9th, and is gone with the last |
| `HashTrieRefinement.MergeGet` | public/swagger/swagger-ui-standalone-preset.js:2 | reading a merged node gives the new entry or what the leaf gave |
| `HashTrieRefinement.UpdateRefines` | public/swagger/swagger-ui-standalone-preset.js:2 | after an update, `get` of any key on the path is that of a plain map after the same change, through all node kinds; the two flags say whether anything changed and whether the size did |
| `HashTrieRefinement.CreateNodesGets` | public/swagger/swagger-ui-standalone-preset.js:2 | `createNodes`: growing out of the array at 8 entries keeps every entry and adds the new one |
| `HashTrieRefinement.UpdateArrayMapRefines` | public/swagger/swagger-ui-standalone-preset.js:2 | `ArrayMapNode.update`: what every key reads afterwards, and both flags, in each branch |
| `HashTrieRefinement.UpdateMapRefines` | public/swagger/swagger-ui-standalone-preset.js:2 | `updateMap`: one `set` or `remove` is that of a finite map, size included, and the old map comes back exactly if the change is none |
| `HashTrieRefinement.RunRefines` | public/swagger/swagger-ui-standalone-preset.js:2 | after any sequence of `set` and `remove` from the empty map, the shape invariant holds, every `get` is that of a plain finite map, and `size` is the number of its keys |
| `HashTrieLoops.FindEntry` | public/swagger/swagger-ui-standalone-preset.js:2 | the search loop of array and collision nodes finds the first entry with the key, or the end |
| `HashTrieLoops.SpliceInLoop` | public/swagger/swagger-ui-standalone-preset.js:2 | `spliceIn`: the copying loop inserts at an index |
| `HashTrieLoops.SpliceOutLoop` | public/swagger/swagger-ui-standalone-preset.js:2 | `spliceOut`: the copying loop removes at an index |
| `HashTrieLoops.PackNodesLoop` | public/swagger/swagger-ui-standalone-preset.js:2 | `packNodes`: the loop with its running bit computes the packed node |
| `HashTrieLoops.ExpandNodesLoop` | public/swagger/swagger-ui-standalone-preset.js:2 | `expandNodes`: the loop that shifts the bitmap away computes the expanded node |
| `HashTrieLoops.CreateNodesLoop` | public/swagger/swagger-ui-standalone-preset.js:2 | `createNodes`: the loop inserts the entries one by one, each into a new version of the node |
| `YamlEscape.EscapeString` | public/swagger/swagger-ui-standalone-preset.js:2 | `escapeString`: the loop that steps over code points by one or two units computes the escaped text |
| `YamlForms.LeftAlone` | public/swagger/swagger-ui-standalone-preset.js:2 | a string is written unchanged exactly if each of its units is printable by section 5.1 of YAML 1.2.2 and not one of the fifteen characters with a short form, nor U+FEFF, or is half of a surrogate pair |
| `YamlForms.ShortForms` | public/swagger/swagger-ui-standalone-preset.js:2 | `ESCAPE_SEQUENCES`: the letter of each of the fifteen |
| `YamlForms.HexForms` | public/swagger/swagger-ui-standalone-preset.js:2 | `encodeHex`: every other character becomes a backslash, `x`, `u` or `U` by its size, and 2, 4 or 8 upper-case digits that stand for it |
| `YamlForms.EscapeConcat` | public/swagger/swagger-ui-standalone-preset.js:2 | strings are escaped piece by piece, unless a surrogate pair is torn |
| `YamlEscape.CodePointAt` | public/swagger/swagger-ui-standalone-preset.js:2 | `codePointAt`: a lead joins with the trail behind it, anything else stands alone |
| `YamlScalar.HexRoundTrip` | public/swagger/swagger-ui-standalone-preset.js:2 | padded upper-case digits of `encodeHex` read back through the 32-bit accumulator as the code point |
| `YamlScalar.HexEscapeRoundTrip` | public/swagger/swagger-ui-standalone-preset.js:2 | the reader turns each hexadecimal escape back into the units of its code point and stops behind it |
| `YamlScalar.ScanEscape` | public/swagger/swagger-ui-standalone-preset.js:2 | a backslash escape flushes the pending characters and yields the escaped character |
| `YamlScalar.ScanEscaped` | public/swagger/swagger-ui-standalone-preset.js:2 | reading an escaped string up to the quote behind it, from any position with any pending characters, yields the string |
| `YamlScalar.RoundTrip` | public/swagger/swagger-ui-standalone-preset.js:2 | for every UTF-16 string, lone surrogates included, wherever it stands in the input: reading its quoted form gives it back and stops behind the closing quote |
| `YamlScalar.SkipCountsBreaks` | public/swagger/swagger-ui-standalone-preset.js:2 | `skipSeparationSpace` and `readLineBreak`: n line feeds count as n, and the reader then stands at the start of a line |
| `YamlLines.BreaksFold` | public/swagger/swagger-ui-standalone-preset.js:2 | `writeFoldedLines` in the scan: between any two lines of plain text, one break (CR LF, CR or LF, blanks behind it) reads as one blank and n of them as n - 1 line feeds; a document separator at the start of the last line ends the document |
| `YamlLines.LineStarts` | public/swagger/swagger-ui-standalone-preset.js:2 | `testDocumentSeparator` in the scan: three dashes or dots at the start of a line end the document if a blank, a break or the end stands behind them, and any other plain character is read over |
| `YamlLines.EscapedBreaksVanish` | public/swagger/swagger-ui-standalone-preset.js:2 | a backslash before breaks: they are taken out, with the blanks around them |
| `YamlLines.OneLine` | public/swagger/swagger-ui-standalone-preset.js:2 | text without breaks and escapes is taken as it stands, refused for a control character other than the tab, and refused if the input ends before the quote |
| `YamlLines.SkipsBreaks` | public/swagger/swagger-ui-standalone-preset.js:2 | `skipSeparationSpace`: breaks of all three forms are counted, blanks left behind; line, line start, indentation and first tab are noted |
| `YamlLines.LettersRead` | public/swagger/swagger-ui-standalone-preset.js:2 | `simpleEscapeSequence`: the eighteen letters and what each stands for |
| `YamlLines.OthersAreRefused` | public/swagger/swagger-ui-standalone-preset.js:2 | an escape is unknown exactly if its letter is none of these, nor `x`, `u`, `U` or a break |
| `YamlLines.DigitValue` | public/swagger/swagger-ui-standalone-preset.js:2 | `fromHexCode`: the sixteen digits in both cases, and nothing else |
| `YamlLines.HexEscapesRead` | public/swagger/swagger-ui-standalone-preset.js:2 | 2, 4 or 8 digits of either case read as the code point with that number |
| `YamlLines.NoDigitsAreRefused` | public/swagger/swagger-ui-standalone-preset.js:2 | a hexadecimal escape is refused exactly if one of these is no digit |
| `YamlFolding.ReadsAsSpecified` | public/swagger/swagger-ui-standalone-preset.js:2 | for every input and position, and indentation aside, the reader gives what section 7.3.1 of YAML 1.2.2 says exactly if it fails, or no segment before an unescaped line break ends in a blank, no escaped break is followed by an empty line, and none follows another break with nothing between |
| `YamlFolding.HowTheyDiffer` | public/swagger/swagger-ui-standalone-preset.js:2 | where the reader succeeds: the standard refuses the text exactly if breaks are not separated; else both stop at the same place, and the specified text has more line feeds exactly if empty lines are lost, and fewer other units exactly if blanks are kept |
| `YamlFolding.BlankBeforeBreakStays` | public/swagger/swagger-ui-standalone-preset.js:2 | a blank and a break between quotes: two blanks instead of one |
| `YamlFolding.EmptyLineIsLost` | public/swagger/swagger-ui-standalone-preset.js:2 | an empty line behind an escaped break: no line feed where the standard has one |
| `YamlFolding.BreakAfterBreakIsTaken` | public/swagger/swagger-ui-standalone-preset.js:2 | two escaped breaks and nothing else: read as empty where the standard refuses |
| `YamlReader.Reader.ReadDoubleQuotedScalar` | public/swagger/swagger-ui-standalone-preset.js:2 | `readDoubleQuotedScalar`: the loop over the mutable position and result computes the specified reading, with each error; without a quote it changes nothing |
| `YamlReader.Reader.CaptureSegment` | public/swagger/swagger-ui-standalone-preset.js:2 | `captureSegment`: appends the characters, or refuses if one may not stand in JSON |
| `YamlReader.Reader.SkipSeparationSpace` | public/swagger/swagger-ui-standalone-preset.js:2 | `skipSeparationSpace`: position, line, indentation and tab notes after blanks and line breaks, and the number of breaks |
| `YamlReader.Reader.TestDocumentSeparator` | public/swagger/swagger-ui-standalone-preset.js:2 | `testDocumentSeparator`: three equal dashes or dots before a blank, a break or the end |
| `YamlReader.Reader.WriteFoldedLines` | public/swagger/swagger-ui-standalone-preset.js:2 | `writeFoldedLines`: one break is a blank, n are n - 1 line feeds |
| `YamlReader.Reader.ReadHex` | public/swagger/swagger-ui-standalone-preset.js:2 | the digit loop of an escape: value in 32 bits, or the error at the first character that is no digit |
| `Base64.RoundTrip` | public/swagger/swagger-ui-standalone-preset.js:2 | `toByteArray(fromByteArray(b))` is b, for every byte array |
| `Base64.Sizes` | public/swagger/swagger-ui-standalone-preset.js:2 | `toByteArray`: the main loop covers exactly the full groups before the padded one, and the array has exactly the bytes written, but for four padding characters |
| `Base64.PaddingStarts` | public/swagger/swagger-ui-standalone-preset.js:2 | `getLens` on an encoding: where the padding starts and how long it is |
| `Base64.PaddingGroup` | public/swagger/swagger-ui-standalone-preset.js:2 | `toByteArray` on every string of whole groups, by its first `=`: an error exactly if it stands at the start, the group before it lost to two unwritten bytes if it stands at another multiple of four, and otherwise the bytes of all groups |
| `Base64Alphabet.EncodingIsPadded` | public/swagger/swagger-ui-standalone-preset.js:2 | `fromByteArray`: whole groups of the alphabet, with one or two `=` at the end exactly if two or one bytes are left over |
| `Base64Alphabet.UrlSafeDecodes` | public/swagger/swagger-ui-standalone-preset.js:2 | `toByteArray`: `-` and `_` stand for `+` and `/`, in any mixture |
| `Base64Alphabet.WholeGroupsOnly` | public/swagger/swagger-ui-standalone-preset.js:2 | the length error is for the strings that are no whole number of groups, and for no others |
| `Base64Alphabet.PaddedIsTruncated` | public/swagger/swagger-ui-standalone-preset.js:2 | a padded group gives the first bytes of the group with `A` for the padding: bits that make no byte are dropped |
| `Base64Loops.EncodeChunk` | public/swagger/swagger-ui-standalone-preset.js:2 | `encodeChunk`: the groups of a stretch |
| `Base64Loops.FromByteArray` | public/swagger/swagger-ui-standalone-preset.js:2 | `fromByteArray`: encoding in chunks of 16383 bytes is the unchunked encoding, for every length |
| `Base64Loops.ToByteArray` | public/swagger/swagger-ui-standalone-preset.js:2 | `toByteArray`: the loops over the array compute the specified bytes, or the specified error, for every string |
| `YamlBinary.RepresentYamlBinary` | public/swagger/swagger-ui-standalone-preset.js:2 | `representYamlBinary`: the wrapping accumulator gives the text of base64-js, except for the empty array |
| `YamlBinary.AgreesUnlessEmpty` | public/swagger/swagger-ui-standalone-preset.js:2 | the two encoders agree exactly on the non-empty arrays; the empty one becomes AAAA |
| `YamlBinary.ResolveYamlBinary` | public/swagger/swagger-ui-standalone-preset.js:2 | `resolveYamlBinary`: accepts exactly text of the alphabet, padding and line breaks in whole groups |
| `YamlBinary.ConstructYamlBinary` | public/swagger/swagger-ui-standalone-preset.js:2 | `constructYamlBinary`: the accumulator loop computes the bytes of the stripped text |
| `YamlBinary.NothingReadsAsZeros` | public/swagger/swagger-ui-standalone-preset.js:2 | text of line breaks and padding alone, or no text, reads as three zero bytes |
| `YamlBinary.BinaryRoundTrip` | public/swagger/swagger-ui-standalone-preset.js:2 | with line breaks put in anywhere, what was represented resolves as binary, and constructing gives the bytes back exactly if there are any |
| `Utf8.DecodeEncode` | public/swagger/swagger-ui-standalone-preset.js:2 | decoding an encoded string gives it back with lone surrogates replaced, up to the unit the encoder does not see |
| `Utf8.RoundTrip` | public/swagger/swagger-ui-standalone-preset.js:2 | `utf8Slice` undoes `utf8ToBytes` exactly on the strings without lone surrogates |
| `Utf8.DecodeIsWellPaired` | public/swagger/swagger-ui-standalone-preset.js:2 | decoding any bytes whatever ends and yields no unpaired surrogate |
| `Utf8.LoneSurrogatesAreReplaced` | public/swagger/swagger-ui-standalone-preset.js:2 | every lone surrogate becomes EF BF BD exactly if the string does not end in two leads |
| `Utf8.TwoLeads` | public/swagger/swagger-ui-standalone-preset.js:2 | a string of two leads gives one replacement |
| `Utf8Grammar.AcceptsTheGrammar` | public/swagger/swagger-ui-standalone-preset.js:2 | `utf8Slice` finds a code point exactly where a character by the grammar of section 4 of RFC 3629 begins |
| `Utf8Grammar.FindsWhatIsEncoded` | public/swagger/swagger-ui-standalone-preset.js:2 | it finds p exactly where the encoding of p stands, and p is no surrogate |
| `Utf8Grammar.EncodedByTheTable` | public/swagger/swagger-ui-standalone-preset.js:2 | `utf8ToBytes`: the bytes of a code point are those of the table in section 3 of RFC 3629: the fewest that carry it |
| `Utf8Grammar.DecodesByTheGrammar` | public/swagger/swagger-ui-standalone-preset.js:2 | any bytes at all: a well-formed character is decoded, and one ill-formed byte becomes one U+FFFD before decoding goes on behind it |
| `Utf8Loops.Utf8ToBytes` | public/swagger/swagger-ui-standalone-preset.js:2 | `utf8ToBytes`: the loop with its waiting lead and its limit computes the encoding, cut between code points |
| `Utf8Loops.FitIsLongestPrefix` | public/swagger/swagger-ui-standalone-preset.js:2 | a limit keeps the longest prefix of whole code points that fits |
| `Utf8Loops.Utf8Slice` | public/swagger/swagger-ui-standalone-preset.js:2 | `utf8Slice`: the loop computes the decoding of the stretch |
| `Utf8Loops.DecodeCodePointsArray` | public/swagger/swagger-ui-standalone-preset.js:2 | `decodeCodePointsArray`: runs of 4096 units join to the string |
| `BufferInts.RoundTrip` | public/swagger/swagger-ui-standalone-preset.js:2 | the two's complement digits of every value in range stand for it, for every width |
| `BufferInts.FieldRoundTrip` | public/swagger/swagger-ui-standalone-preset.js:2 | what `writeIntLE` and `writeIntBE` leave in a buffer reads back, in the same byte order, as the value |
| `BufferInts.WriteThenReadLE` | public/swagger/swagger-ui-standalone-preset.js:2 | `readIntLE` undoes `writeIntLE` through the buffer, for every width and every value that is not refused |
| `BufferInts.WriteThenReadBE` | public/swagger/swagger-ui-standalone-preset.js:2 | `readIntBE` undoes `writeIntBE` in the same way |
| `BufferInts.ReadThenWrite` | public/swagger/swagger-ui-standalone-preset.js:2 | what is read is in range, and writing it gives the bytes back |
| `BufferInts.ByteIsDigit` | public/swagger/swagger-ui-standalone-preset.js:2 | truncating division, a 32-bit wrap and the borrow yield the byte of floor division |
| `BufferInts.Sticky` | public/swagger/swagger-ui-standalone-preset.js:2 | the borrow is due from the first non-zero byte on |
| `BufferInts.WriteIntLE` | public/swagger/swagger-ui-standalone-preset.js:2 | `writeIntLE`: two's complement bytes, lowest first, all other bytes unchanged, or nothing if refused |
| `BufferInts.WriteIntBE` | public/swagger/swagger-ui-standalone-preset.js:2 | `writeIntBE`: the same bytes, highest first |
| `BufferInts.ReadIntLE` | public/swagger/swagger-ui-standalone-preset.js:2 | `readIntLE`: the signed value of the bytes, or the error |
| `BufferInts.ReadIntBE` | public/swagger/swagger-ui-standalone-preset.js:2 | `readIntBE`: the same, highest first |
| `ArrayIndexOf.OccursMeansSplit` | public/swagger/swagger-ui-standalone-preset.js:2 | a needle occurs at p exactly if the buffer is p bytes, the needle and more bytes |
| `ArrayIndexOf.ForwardIndexOf` | public/swagger/swagger-ui-standalone-preset.js:2 | `arrayIndexOf` forward: the loop that rewinds its own index ends with the least position from the start on where the needle occurs, or -1 if there is none |
| `ArrayIndexOf.BackwardIndexOf` | public/swagger/swagger-ui-standalone-preset.js:2 | `arrayIndexOf` backward: the greatest position up to the start, or -1 |
| `ArrayIndexOf.BidirectionalIndexOf` | public/swagger/swagger-ui-standalone-preset.js:2 | `bidirectionalIndexOf`: clamped and negative offsets, in both directions; an empty needle is nowhere |
| `HashPadding.PaddedByTheStandard` | public/swagger/swagger-ui-standalone-preset.js:2 | for blocks of 64 and 128 bytes: the message, one byte 0x80, as few zeros as make whole blocks, and the length in bits, as sections 5.1.1 and 5.1.2 of FIPS 180-4 have it |
| `HashPadding.PaddedBlocks` | public/swagger/swagger-ui-standalone-preset.js:2 | `Hash.digest`: the padded message is what the code hands on in one closing block, or in two |
| `HashPadding.LengthField` | public/swagger/swagger-ui-standalone-preset.js:2 | the length field as one 32-bit word below 2^32 and as two words above |
| `HashBlocks.Hash.Update` | public/swagger/swagger-ui-standalone-preset.js:2 | `Hash.update`: the blocks handed on and the bytes held are the message so far |
| `HashBlocks.Hash.Digest` | public/swagger/swagger-ui-standalone-preset.js:2 | `Hash.digest`: the blocks handed on are those of the once-padded message |
| `HashBlocks.Hash.Step` | public/swagger/swagger-ui-standalone-preset.js:2 | one turn of the loop fills the block and hands it on when full |
| `HashBlocks.HashChunks` | public/swagger/swagger-ui-standalone-preset.js:2 | however a message is split over updates, the blocks are those of the once-padded message, for block sizes 64/56 and 128/112 alike |
| `WritableSpec.EveryRunKeepsInv` | public/swagger/swagger-ui-es-bundle-core.js:2 | in every run of writes, corks, uncorks and completions, for every sink: delivered, in flight and buffered are what was written in order; at most one write in flight; `length`, `writelen`, `pendingcb` and `bufferedRequestCount` count; nothing is buffered that could be passed on; every writer is called back once |
| `WritableOrder.CallbacksInOrder` | public/swagger/swagger-ui-es-bundle-core.js:2 | for pairwise different requests: callbacks made and deferred follow the order of delivery exactly if the sink never called back for a write while a deferred completion waited for its tick |
| `WritableOrder.CallbacksWhenQuiet` | public/swagger/swagger-ui-es-bundle-core.js:2 | once no completion is waiting, the writers were called in the order of delivery under exactly that condition |
| `WritableOrder.ClearBufferDefers` | public/swagger/swagger-ui-es-bundle-core.js:2 | `clearBuffer`: whatever completes inside it is deferred, in the order of delivery, and no callback is made |
| `WritableSpec.ClearBufferKeepsAccounts` | public/swagger/swagger-ui-es-bundle-core.js:2 | `clearBuffer`: batch and one-by-one branches pass on all they can and keep the accounts |
| `WritableSpec.WriteKeepsInv` | public/swagger/swagger-ui-es-bundle-core.js:2 | `writeOrBuffer`: the invariant, and true is returned exactly below the high-water mark |
| `WritableDrain.WriteTells` | public/swagger/swagger-ui-es-bundle-core.js:2 | `write` returns whether what is buffered and in flight stays below the high-water mark, and a writer waits from then on if not |
| `WritableDrain.NoWriterIsForgotten` | public/swagger/swagger-ui-es-bundle-core.js:2 | in every run: with nothing in flight, buffered or waiting for a tick, no writer waits |
| `WritableDrain.DrainsWhenEmpty` | public/swagger/swagger-ui-es-bundle-core.js:2 | in every run, at every step: a wait ends exactly when one drain event is emitted, and then nothing is left |
| `WritableDrain.AfterWriteDrains` | public/swagger/swagger-ui-es-bundle-core.js:2 | `onwriteDrain`: the event comes exactly if a writer waits and `length` is 0 |
| `WritableDrain.CorkedIsDepth` | public/swagger/swagger-ui-es-bundle-core.js:2 | in every run, `corked` is the number of corks not undone; an uncork too many counts for nothing |
| `WritableDrain.CorkedHoldsBack` | public/swagger/swagger-ui-es-bundle-core.js:2 | in every run, a write into a corked stream joins the buffer and goes no further |
| `WritableDrain.ClearBufferCalls` | public/swagger/swagger-ui-es-bundle-core.js:2 | `clearBuffer`: with `_writev`, two requests or more are handed over in one call; else the first call is for the first alone |
| `WritableSpec.UncorkKeepsInv` | public/swagger/swagger-ui-es-bundle-core.js:2 | `uncork` keeps the invariant |
| `WritableSpec.CompleteKeepsInv` | public/swagger/swagger-ui-es-bundle-core.js:2 | `onwrite` called later keeps the invariant |
| `WritableSpec.TickKeepsInv` | public/swagger/swagger-ui-es-bundle-core.js:2 | `afterWrite` on a later tick keeps the invariant |
| `WritableSpec.OvertakenCallback` | public/swagger/swagger-ui-es-bundle-core.js:2 | a run in which one callback overtakes another, though all chunks are delivered in order |
| `Writable.Stream.Write` | public/swagger/swagger-ui-es-bundle-core.js:2 | `write` on fields and linked list computes the specified state and result |
| `Writable.Stream.ClearBuffer` | public/swagger/swagger-ui-es-bundle-core.js:2 | `clearBuffer` on the linked list |
| `Writable.Stream.OnWrite` | public/swagger/swagger-ui-es-bundle-core.js:2 | `onwrite`: state update, clearing the buffer, callback now or on a later tick |
| `Writable.Stream.Uncork` | public/swagger/swagger-ui-es-bundle-core.js:2 | `uncork` |
| `Writable.Stream.Complete` | public/swagger/swagger-ui-es-bundle-core.js:2 | the sink calls back |
| `Writable.Stream.Tick` | public/swagger/swagger-ui-es-bundle-core.js:2 | a deferred completion runs |
| `StringDecoderChunks.AnyCut` | public/swagger/swagger-ui-es-bundle-core.js:2 | for well-formed UTF-8 and every way of cutting it into chunks, the results of `write` and `end` join to the decoding of the whole |
| `StringDecoderChunks.AnyCutOfAPrefix` | public/swagger/swagger-ui-es-bundle-core.js:2 | for any beginning of well-formed UTF-8, however cut: the complete characters come out, and `end` adds a replacement exactly if one was cut off |
| `StringDecoderAnyBytes.WhenCuttingMatters` | public/swagger/swagger-ui-es-bundle-core.js:2 | for any bytes, well-formed or not, cut anywhere: the results of `write` and `end` join to the decoding of the whole exactly if no held character is broken off after two or more of its bytes; else they lack one replacement for each of these but the first |
| `StringDecoderAnyBytes.WriteAny` | public/swagger/swagger-ui-es-bundle-core.js:2 | one `write` of any bytes: what comes out, and what is later decoded of the held bytes, is the decoding of all, but for the replacements lost |
| `StringDecoderAnyBytes.DecodeSplit` | public/swagger/swagger-ui-es-bundle-core.js:2 | decoding can be done in two parts wherever no character is begun before the cut and continued behind it |
| `StringDecoderAnyBytes.ACutThatMatters` | public/swagger/swagger-ui-es-bundle-core.js:2 | F0 9F 41 loses a replacement if cut before the last byte, and none uncut |
| `StringDecoderChunks.WriteStep` | public/swagger/swagger-ui-es-bundle-core.js:2 | one `write`: the characters completed by the chunk come out, and what is held is the beginning of the next |
| `StringDecoderChunks.IncompleteEnd` | public/swagger/swagger-ui-es-bundle-core.js:2 | `utf8CheckIncomplete` on a chunk that ends inside a character: its length and the bytes it needs |
| `StringDecoderChunks.BegunIsFound` | public/swagger/swagger-ui-es-bundle-core.js:2 | `utf8CheckIncomplete`: the character begun in the last three bytes of a chunk and not over, by the ranges of first and continuation bytes, with its length and need; else nothing |
| `StringDecoderChunks.CompleteEnd` | public/swagger/swagger-ui-es-bundle-core.js:2 | `utf8CheckIncomplete` on a chunk that ends with a whole character: nothing is needed |
| `StringDecoderSpec.WriteKeepsValid` | public/swagger/swagger-ui-es-bundle-core.js:2 | for any bytes whatever, the decoder needs fewer bytes than its character has |
| `StringDecoder.StringDecoder.Utf8CheckIncomplete` | public/swagger/swagger-ui-es-bundle-core.js:2 | `utf8CheckIncomplete`: result and field |
| `StringDecoder.StringDecoder.Utf8FillLast` | public/swagger/swagger-ui-es-bundle-core.js:2 | `utf8FillLast`: fields and result for completed, continued and broken characters |
| `StringDecoder.StringDecoder.Utf8Text` | public/swagger/swagger-ui-es-bundle-core.js:2 | `utf8Text`: decodes the whole characters and keeps the rest |
| `StringDecoder.StringDecoder.Write` | public/swagger/swagger-ui-es-bundle-core.js:2 | `write` on the fields computes the specified state and string |
| `StringDecoder.StringDecoder.End` | public/swagger/swagger-ui-es-bundle-core.js:2 | `utf8End` |
| `BufferList.DropIsSuffix` | public/swagger/swagger-ui-es-bundle-core.js:2 | what is left of a list after n bytes are taken joins to the remaining bytes |
| `BufferList.BufferList.Push` | public/swagger/swagger-ui-es-bundle-core.js:2 | `push`: the list grows at its end and stays well formed |
| `BufferList.BufferList.Unshift` | public/swagger/swagger-ui-es-bundle-core.js:2 | `unshift`: the list grows at its front |
| `BufferList.BufferList.Shift` | public/swagger/swagger-ui-es-bundle-core.js:2 | `shift`: the first buffer goes, if there is one |
| `BufferList.BufferList.Clear` | public/swagger/swagger-ui-es-bundle-core.js:2 | `clear`: nothing is left |
| `BufferList.BufferList.GetBuffer` | public/swagger/swagger-ui-es-bundle-core.js:2 | `_getBuffer`: bytes over several nodes, with `length` the node count and `tail` the last node afterwards |
| `BufferList.BufferList.Consume` | public/swagger/swagger-ui-es-bundle-core.js:2 | `consume(n)`: returns the first n bytes and leaves a well-formed list of exactly the remaining ones, for partial, exact and multi-node consumption |
| `BufferList.BufferList.ConcatAll` | public/swagger/swagger-ui-es-bundle-core.js:2 | `concat(n)`: the first n bytes, n taken in 32 bits, or the error for a size no buffer has |
| `CacheKeys.DataKeyDetermines` | src/Helper/CacheRedis.php:236-242 | without colons in namespace and entity, two data keys are equal exactly if namespace, generation, entity and kept discriminator are |
| `CacheKeys.DataKeyIsNoVersionKey` | src/Helper/CacheRedis.php:219-242 | no data key of a colon-free namespace is the version key of a colon-free namespace |
| `CacheKeys.DataKeyIsVersionKey` | src/Helper/CacheRedis.php:219-242 | for any namespace, entity and discriminator: a data key is the version key of some namespace exactly if its kept discriminator is `version`, or nothing is kept and the entity is or ends in that word behind a colon |
| `CacheKeys.VersionMeansVersion` | src/Helper/CacheRedis.php:219-242 | the same for an entity without colons: exactly if the last part of the key is `version` |
| `CacheKeys.WordEndsTheKey` | src/Helper/CacheRedis.php:236-242 | a discriminator of letters, digits, `_` and `-` ends the key unchanged up to 64 characters, cut behind the 64th above, and leaves no colon if it is empty |
| `CacheKeys.OthersAreDropped` | src/Helper/CacheRedis.php:239 | any other character is dropped, wherever it stands |
| `CacheKeys.NoLeadingZero` | src/Helper/CacheRedis.php:238 | a generation is printed without leading zeros |
| `CacheKeys.DecimalReadsBack` | src/Helper/CacheRedis.php:226-238 | a generation printed in decimal reads back as the number |
| `CacheKeys.VersionKeyDetermines` | src/Helper/CacheRedis.php:225 | version keys are equal exactly for equal namespaces |
| `CacheKeys.ColonsCollide` | src/Helper/CacheRedis.php:225-238 | one such key: entity `version` of namespace `a` is the version key of `a:g0` |
| `CacheSafety.StepKeepsInv` | src/Helper/CacheRedis.php:64-274 | every step of any request, deletes included, with Redis failing before or after a call takes effect, keeps the invariant of generations and stored values |
| `CacheSafety.StoredValuesAreOfTheirGeneration` | src/Helper/CacheRedis.php:180-264 | in every interleaving, each stored value was made by the producer of its key after the INCR that began its generation |
| `CacheSafety.WriteThenBumpIsSeen` | src/Helper/CacheRedis.php:180-264 | a request that first resolves a namespace after a successful bump never gets data produced before the commits that preceded the bump, even if slow readers fill old generations late |
| `CacheServing.NextRequestIsServed` | src/Helper/CacheRedis.php:180-242 | a request keeps what it produced under the current generation: in every interleaving, whoever asks later for the same entity and discriminator is given that value without a producer, until the namespace is bumped or the key overwritten, deleted or expired |
| `CacheServing.KeptIsServed` | src/Helper/CacheRedis.php:180-197 | the same for any two requests with one key |
| `CacheServing.ReadServes` | src/Helper/CacheRedis.php:151-185 | a connected request whose read works is given the stored array, or goes to its producer if there is none |
| `CacheServing.GoneIsMissed` | src/Helper/CacheRedis.php:180-213 | after a delete or expiry the producer is asked again |
| `CacheServing.RequestBegins` | src/Helper/CacheRedis.php:38-50 | a request begins with nothing resolved, and with a connection exactly if there is one to be had |
| `CacheServing.CommitIsProduced` | src/Helper/CacheRedis.php:187 | what a producer makes after a commit holds that commit |
| `CacheServing.BumpMovesOn` | src/Helper/CacheRedis.php:247-264 | a bump that works takes the namespace to the next generation and forgets the memo |
| `CacheFailure.DisabledReadsNothing` | src/Helper/CacheRedis.php:64-122 | what a step of a disabled request makes of it does not depend on what Redis holds |
| `CacheFailure.DisabledWritesNothing` | src/Helper/CacheRedis.php:64-146 | a step of a disabled request changes neither Redis nor any other request |
| `CacheFailure.DisabledIsInvisible` | src/Helper/CacheRedis.php:64-274 | in every interleaving, leaving out the steps of a disabled request changes nothing for the database, Redis and every other request |
| `CacheFailure.DisabledForGood` | src/Helper/CacheRedis.php:270-274 | once disabled, disabled at the end of every run |
| `CacheFailure.DisabledGetsFreshData` | src/Helper/CacheRedis.php:180-230 | in every interleaving, whatever a disabled request is given was made by its own producer, after it asked |
| `CacheFailure.MissServesTheProducer` | src/Helper/CacheRedis.php:180-197 | a read that finds nothing, for whatever reason, with anything others do between the steps of the call: the caller gets what its producer gives, and Redis and the others end up as without it, but for the final `set` |
| `CacheFailure.FailureServesTheProducer` | src/Helper/CacheRedis.php:180-197 | a read that fails, or of a disabled instance, in the same way: Redis and the others end up as if it had not been there |
| `CacheFailure.FailedWriteServesTheProducer` | src/Helper/CacheRedis.php:180-197 | a read that misses and a write that fails: the caller still gets what its producer gives, the instance is disabled, and Redis holds the value exactly if the write took effect |
| `CacheRedis.CacheRedis.Client` | src/Helper/CacheRedis.php:64-104 | `client`: the server, or none once disabled or unconfigured |
| `CacheRedis.CacheRedis.Get` | src/Helper/CacheRedis.php:106-122 | `get`: value or null, and disabled after an exception |
| `CacheRedis.CacheRedis.Set` | src/Helper/CacheRedis.php:128-146 | `set`: refused without a positive lifetime or above 262144 bytes; state, store, lifetime and result |
| `CacheRedis.CacheRedis.RememberJson` | src/Helper/CacheRedis.php:180-197 | `rememberJson`: a stored array is served with one call and nothing written; else the producer's array is served, and kept after a read that worked if it is not empty (or may be), fits and has a lifetime; without Redis nothing more is asked |
| `CacheRedis.CacheRedis.Version` | src/Helper/CacheRedis.php:219-230 | `version`: remembered, and then Redis is not asked; else the counter under `:version`; else 0 |
| `CacheRedis.CacheRedis.Namespaced` | src/Helper/CacheRedis.php:236-242 | `namespaced`: the key of the remembered generation, resolved first if it is not |
| `CacheRedis.CacheRedis.Bump` | src/Helper/CacheRedis.php:247-264 | `bump`: the counter goes from nothing to 1 or up by one and the memo is forgotten; false and disabled if it throws, whether or not it took effect |
| `CacheRedis.CacheRedis.Delete` | src/Helper/CacheRedis.php:199-213 | `delete`: state, store and result, disabled after an exception |
| `CacheRedis.CacheRedis.Fail` | src/Helper/CacheRedis.php:270-274 | `fail`: disabled, without a client |
| `CacheRedis.Ttl` | src/Helper/CacheRedis.php:306-317 | a lifetime of 1 or less becomes 1; a longer one is moved by the random pick, at most a tenth rounded up, and stays positive |
| `CacheRedis.Jitter` | src/Helper/CacheRedis.php:312 | a tenth rounded up, and at least 1 |
| `CacheKeys.DigestsDecide` | src/Service/CustomerService.php:44-48 | with a sha1 digest of 40 hexadecimal digits as discriminator, keys of one namespace, generation and entity are equal exactly if the digests are |
| `CacheKeys.StructuredDetermines` | docs/caching.md:41 | the documented discriminator of digest, page and limit loses its colons: two are kept alike exactly if the digests are equal and the digits of page and limit, run together and cut, are |
| `CacheKeys.EqualLimitsStayDistinct` | docs/caching.md:41 | it still tells pages apart while nothing is cut and limits have equally many digits |
| `CacheKeys.PagesCollide` | docs/caching.md:41 | page 1 of 11 rows and page 11 of 1 row share a key |
| `Pagination.Sanitize` | src/Helper/Pagination.php:22-47 | page at least 1; the limit is the given positive number or the default, cut at the maximum; when it is positive |
| `Pagination.Apply` | src/Helper/Pagination.php:76-88 | the limit brought between 1 and the maximum, and the offset of the page, reach the query |
| `Pagination.FromQuery` | src/DTO/Request/CustomerListRequest.php:27 | pages from 1 on; 20 rows if no positive number is asked for, 100 at most |
| `Pagination.NoPages` | src/Helper/Pagination.php:52-55 | there is a page exactly if there are rows and the page size is positive; else there are 0 |
| `Pagination.SanitizeThenApply` | src/Helper/Pagination.php:22-88 | `apply` leaves a sanitised limit unchanged exactly if it was given as positive, or the default is positive, or the default is no smaller than the maximum |
| `Pagination.TotalPagesCovers` | src/Helper/Pagination.php:52-63 | the truncated quotient is the least number of pages that cover the rows |
| `Pagination.PagesPartition` | src/Helper/Pagination.php:52-63 | the windows of all pages join to the rows, each is non-empty, later ones are empty |

## Left out

Immutable `Map`:

- Editing in place with `ownerID` and `withMutations`, and the other collections: the persistent path alone is modelled.
- Computing hashes: keys are taken up to `is`, with any 32-bit hash, so any two keys may collide. Hash codes that are not 32-bit words are not modelled.
- Whether a value changed is `is` equality of values here; the code compares with `===`, which differs for NaN.
- Iteration order.
- HashTrieLoops.CreateNodesLoop: the code edits the nodes it has just made in place, under an owner of its own; the loop here makes a new version each time. No one else holds these nodes before they are returned.

js-yaml:

- Block, plain and single-quoted scalars, collections, tags, anchors and merges.
- The warning for deficient indentation, which does not change the result; comments are never skipped inside quotes.
- YamlReader.Reader.ReadDoubleQuotedScalar: `requires` an input whose last character is NUL, as `loadDocuments` makes it.
- YamlBinary.ConstructYamlBinary: `requires` that the text resolves as binary, which the loader has checked.

Buffer and base64-js:

- Other encodings, floats, big integers, and values that are no integers. `noAssert` is off.
- BufferInts.WriteIntLE: for the documented widths of one to six bytes, where numbers are exact.
- BufferInts.WriteIntBE: the same.
- BufferInts.ReadIntLE: the same.
- BufferInts.ReadIntBE: the same.
- ArrayIndexOf.BidirectionalIndexOf: whole offsets, buffers as needles, one byte per unit; the UTF-16 mode is not modelled.
- Utf8: bit operations on separate bit fields are written as division and remainder.

Hash:

- What a subclass does with a block: the blocks are kept in a sequence instead. A second `digest` or an `update` after it is not modelled.
- HashBlocks.Hash.Digest: for messages of at most 2^53 bytes. Up to there the byte count is exact in JavaScript, and so are eight times it and its two words; beyond, the count itself is rounded.
- HashBlocks.HashChunks: the same.

Streams:

- Errors, `end`, `destroy`, `final`, pipes and flow control of Writable and Readable, and sinks or callbacks that call back into `write`.
- Writable encodings: chunks are bytes.
- StringDecoder for UTF-16 and base64.
- BufferList with strings (`_getString`, `join`). Bytes of a new buffer that are never written are anything.

Cache:

- The fixed prefix before every key, connection parameters, and the wire. A server answers or fails as a given sequence of faults says.
- JSON: values are stored as they are, their encoded size is a parameter. TTL randomness is a parameter too.
- Version keys are never evicted, and nothing but this code writes under its keys.
- Counters and integers are unbounded.

Pagination:

- PHP's integer overflow and the rounding of floats above 2^53: division is exact.
- Casting arbitrary values to integers: a parameter is missing, empty or an integer.

Everything else in the repository (controllers, routes, services, queues, migrations, React
components) is request handling and user interface over unseen libraries.
