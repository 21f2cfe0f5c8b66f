# Verified models of the operator and oracle scripts

The scripts under `scripts/` qualify and operate the services of this repository. Most of them compare fixed
configuration; a few hold algorithms and protocols that other evidence rests on. This project models those in Dafny
and proves what they are relied on for. One module stands for one script or one part of it:

| module | what it models |
|---|---|
| `CodecCapture`, `CodecUnique`, `PackedWord` | Freezing an incremental text decoder, taken as an abstract step function, into a table of packed 32-bit words by a breadth-first walk. |
| `Gb18030` | Four-byte gb18030 pointers and the run-length ranges that stand for the pointer map (WHATWG Encoding Standard, section 10.2.1). |
| `Utf7Shift`, `Records` | The base64 bodies of UTF-7 shift sequences and the corpora made of them (RFC 2152 Rule 2, RFC 4648 section 4, RFC 2781 section 2.1); the byte records that feed the expectation digests. |
| `Pax`, `TarScan`, `TarLayout`, `PaxParsers`, `TarReader`, `Decimal` | The bounded scan of raw tar headers and PAX records (POSIX.1 `pax`), and the richer reader of Python's library, which it should agree with. |
| `RustMask`, `RustLexing`, `RustVectors` | The position-preserving comment and string masker for Rust source, and the callers that share indices between its results. |
| `ObservationValues`, `JsonTree`, `JsonTreeDecode`, `PythonText` | The two encodings of observed Python values: an escape scheme, and a token stream from a traversal with an explicit stack. |
| `Custody` | Crash-tolerant custody of a scoped Transit key, policy and token, for any sequence of interrupted provisions and revokes. |
| `OwnedProcess` | Containment of a child process and its group, against a kernel that takes its own steps. |
| `ReleaseBarrier` | The release barrier of a held response, over all interleavings of handler, controller and closer. |
| `BodySchedule`, `JsonText`, `JsonGrammar` | A JSON body split into chunks and flushed on a fixed schedule (RFC 8259 sections 2 to 7). |
| `WrapText` | Greedy word wrapping. |
| `Basics` | Shared datatypes. |

Where a script changes state step by step the model is a method or a class, proved against a function or a predicate
whose own properties are then proved as lemmas. Nondeterminism (`*`) stands for what the code cannot control: replies
of the provider, the kernel, the peer, the clock and crashes.

A method and the specification it is proved against may share helper functions. Where they do, the answer is also stated
without them, in terms of the input alone: by positions in the text (`RustLexing`, `RustVectors.BodyIsFirst`), by
positions and literal flags in the archive (`TarLayout`), by the values that are kept as they are
(`ObservationValues.PlainStays`), or by the statement that nothing else meets the contract (`CodecUnique`,
`WrapText.GreedyIsFilled`).

Some results need a word of explanation.

*Custody.* Every primitive step of `Custody.World` may fail before, in the middle of or after its effect, and every
method keeps `Inv` on every exit, failing ones included. Since any run may stop after any step, `Inv` holds at every
moment of every run. `Inv` says that intent precedes effect: an own key exists only with a durable journal, an own
policy only with a durable `policyCreated`, a live token only once `mintState` has left its first value; a recorded
revocation means a dead token, a recorded deletion means an absent policy, and `revoked.json` means both and that the
secret files are cleared. It also says of every request that changes the provider that the durable journal announced
it when it was sent, and that no request that creates something is ever sent twice. Because the files are not written
atomically, a crash may leave `token.txt` or `environment.json` holding only a front part of its content, whose hash is
not the one in the journal. That a file which exists matches its recorded hash is therefore not an invariant.
`TornToken` runs a provision from an untouched start in which every step goes well until the token file is written; the
write stops part way, `Inv` holds, the file does not match, and a revoke stops there. `PartialFilesAreSeen` states that a
file matches exactly when it is complete, and once `result.json` exists both files are complete until they are cleared.
The hash is taken to be free of collisions. All this would also hold of runs that never get anywhere; `FullCycle` states
that a provision and a revoke succeed when nothing fails, and what is looked at on the way is recorded in `looked`, so
that a success means that every check has been made, in the script's order.

*Tar reading.* That the scan and a reader of the format agree on every accepted archive is not true, for three reasons.
The scan types a header by its flag alone; Python's reader also makes a directory of a header with a NUL flag whose name
ends in a slash, as before there was a flag for directories, and reads no payload for it. The scan checks the PAX records
in the bytes that a header declares; the reader goes on into the padding of the block, and a `size` record there counts.
And the reader checks what the scan does not, a checksum above all: a header it cannot take ends its list silently, or
raises an error at the start and after a special header. `HiddenMember` and `HiddenOverride` give archives, byte by byte,
in which the reader lists a member inside what the scan took for a payload.

`AcceptedReadsAlike` says exactly when the two agree on an accepted archive, with the records the reader really carries
from header to header: it takes every header and PAX block, every ordinary member reaches for it as far as its padded
payload, and no special header comes last. `TerminatedReadsAlike` gives a condition that can be read off the archive: if
every PAX block has a NUL behind the records that were checked, or ends there, no size and no sparse record ever applies,
and the two agree exactly when the reader takes every header and block, no old-style directory declares a payload, and no
special header comes last. A first padding byte of zero is enough for that (`ZerosTerminate`). The parser of PAX blocks
is a parameter of the reader; the two that Python's library has had, one that matches records by a pattern and skips what
does not match and its strict successor, are modelled in `PaxParsers` and meet what the theorem asks of it. A block may
also raise an error, as the older one does when a `hdrcharset` value cannot be decoded.

*Codec capture.* `Capture` succeeds if and only if the decoder has fewer than 2^15 reachable states, emits at most 2^16
texts, and its strict mode never disagrees with its replacement mode. The size check runs once per outer round, so a
round may add 256 states after its check. `StateOverflowIsVisible` shows what would go wrong (a sixteenth bit of the
state index is read as the validity bit); it is excluded because the last round finds every state already listed, so
its check covers all of them. States are listed in the order of the first words that reach them, shorter words first and
words of one length byte by byte, and texts in the order of their first use, so the table is determined word by word.

*Masking.* Character literals are not tokens of the lexer, and an escape at the very end of the text makes the index
overshoot by one; both are modelled as the code has them.

## Model

| member | source | states |
|---|---|---|
| `CodecCapture.Capture` | scripts/canvas_multibyte_codec_oracle.py:112-173 | The capture completes if and only if states and outputs fit their fields and strict decoding never disagrees; each failure has its reason; a completed table is `Captured`, `Layered` and `InOrder`: states and texts distinct, all steps of all states, only texts the decoder emits, states in the order of their prefixes, texts in the order of their first use. |
| `CodecCapture.TableSimulates` | scripts/canvas_multibyte_codec_oracle.py:140-173 | On every byte string the packed table, run from state 0, gives the replacement decoder's whole output, and the conjunction of the validity bits is true if and only if strict decoding succeeds. |
| `CodecCapture.PrefixIsShortest` | scripts/canvas_multibyte_codec_oracle.py:118-169 | Every reachable state is listed, under the first of all words that reach it, shorter words first and words of one length byte by byte. |
| `CodecUnique.TableIsUnique` | scripts/canvas_multibyte_codec_oracle.py:116-173 | What `Capture` promises determines the table: any two tables with it have the same states, prefixes, texts and words. |
| `CodecCapture.NumberedByUse` | scripts/canvas_multibyte_codec_oracle.py:122-127 | Texts are numbered in the order in which the visit first uses them, the empty text first. |
| `CodecCapture.CaptureIsComplete` | scripts/canvas_multibyte_codec_oracle.py:122-173 | A finished table can exist only for a decoder within the size limits whose two modes agree at every reachable state. |
| `CodecCapture.OutputIndex` | scripts/canvas_multibyte_codec_oracle.py:122-127 | Interns a text: the list and the dictionary stay inverse to each other; overflow is raised exactly when the text is new and the list is full, and then the decoder emits too many texts. |
| `CodecCapture.StateIndex` | scripts/canvas_multibyte_codec_oracle.py:166-169 | A new state is appended under its word, which comes after all words listed and before the next one; earlier entries keep their indices. |
| `CodecCapture.VisitByte` | scripts/canvas_multibyte_codec_oracle.py:154-170 | One inner round: the word packs the output, target and validity of that decoder step, or strict decoding differs. |
| `CodecCapture.VisitFinal` | scripts/canvas_multibyte_codec_oracle.py:143-152 | The final word packs the flushed text and whether strict flushing succeeds. |
| `CodecCapture.Assembled` | scripts/canvas_multibyte_codec_oracle.py:140-173 | With fewer than 2^15 states no packed field has run into another, so the words mean what was packed. |
| `PackedWord.PackUnpack` | scripts/canvas_multibyte_codec_oracle.py:152-170 | Joining the three fields bit by bit loses nothing while they fit, and the word fits 32 bits. |
| `PackedWord.OrBits` | scripts/canvas_multibyte_codec_oracle.py:152-170 | A bit of the joined number is set exactly where it is set in either operand. |
| `PackedWord.StateOverflowIsVisible` | scripts/canvas_multibyte_codec_oracle.py:141-172 | A state index of sixteen bits would be read as valid and as a smaller state. |
| `Records.OptionStreamDetermines` | scripts/canvas_multibyte_codec_oracle.py:44-49 | Two sequences of outcomes that feed the digest the same bytes are the same sequence. |
| `Records.ReadOptionBack` | scripts/canvas_multibyte_codec_oracle.py:44-49 | A record is read back, whatever follows it. |
| `Records.StreamDetermines` | scripts/canvas_utf7_codec_oracle.py:85-94 | The same for the UTF-7 records of texts and decode errors. |
| `Records.ReadRecordBack` | scripts/canvas_utf7_codec_oracle.py:85-94 | A text or error record is read back, whatever follows it. |
| `Gb18030.PointerRoundTrip` | scripts/canvas_gb18030_codec_oracle.py:31-39 | The standard's pointer formula inverts `pointer_bytes` on every pointer. |
| `Gb18030.BytesRoundTrip` | scripts/canvas_gb18030_codec_oracle.py:31-39 | Every legal four-byte sequence is `pointer_bytes` of its pointer, which is in range. |
| `Gb18030.PointerOrder` | scripts/canvas_gb18030_codec_oracle.py:31-39 | A smaller pointer has the smaller byte sequence, and conversely. |
| `Gb18030.BuildRanges` | scripts/canvas_gb18030_codec_oracle.py:46-60 | The ranges reconstruct the map exactly and are nonempty, sorted, disjoint and maximal; the assertion fails exactly when some mapped text is no single scalar. |
| `Gb18030.FewestRanges` | scripts/canvas_gb18030_codec_oracle.py:46-60 | No other list of unit-slope ranges reconstructs the map with fewer ranges. |
| `Gb18030.RangesStartRuns` | scripts/canvas_gb18030_codec_oracle.py:53-60 | Every range starts at a pointer whose predecessor does not map to the preceding scalar. |
| `Utf7Shift.ShiftRoundTrip` | scripts/canvas_utf7_codec_oracle.py:33-35 | The body of every shift sequence reads back as its units, with fewer than six bits left over, all zero. |
| `Utf7Shift.ShiftShape` | scripts/canvas_utf7_codec_oracle.py:33-35 | A shift sequence is a plus, letters of the base64 alphabet and one minus at its end. |
| `Utf7Shift.LetterIs` | scripts/canvas_utf7_codec_oracle.py:23 | The letters are those of the alphabet, in its order. |
| `Utf7Shift.SextetsCarryBits` | scripts/canvas_utf7_codec_oracle.py:34-35 | The base64 sextets carry the bits of the data in order, then fewer than six zero bits. |
| `Utf7Shift.UnitInputs` | scripts/canvas_utf7_codec_oracle.py:43-50 | The eight payloads of one unit, in order: each last letter raised by 0 to 3, without and with the closing minus. |
| `Utf7Shift.BodiesAreHitOnce` | scripts/canvas_utf7_codec_oracle.py:43-50 | Over all units and paddings, each of the 64^3 three-letter bodies occurs exactly once. |
| `Utf7Shift.PairsAreHitOnce` | scripts/canvas_utf7_codec_oracle.py:56-59 | The supplementary split is a bijection onto pairs of a high and a low surrogate. |
| `Pax.AcceptedIff` | scripts/build_verification_candidate.py:160-192 | A payload is accepted if and only if it is allowed self-counting records back to back, then only zeros. |
| `TarLayout.MetadataIs` | scripts/build_verification_candidate.py:160-192 | A payload is accepted if and only if it can be cut into pieces of digits, a space, a nonempty key, an equals sign, a value and a newline, each as long as its digits say and with a key other than size that does not begin with GNU.sparse., and then zeros. |
| `Pax.EntriesRoundTrip` | scripts/build_verification_candidate.py:160-192 | Every list of allowed keys and values has a printed payload; with or without zero padding it is accepted and reads back as that list. |
| `Pax.AcceptedDecomposes` | scripts/build_verification_candidate.py:160-192 | Every accepted payload is read without a gap into allowed records. |
| `Pax.PrintedIsAccepted` | scripts/build_verification_candidate.py:160-192 | Printed allowed records are accepted and read back as the same records. |
| `Pax.PrintRecord` | scripts/build_verification_candidate.py:166-171 | Every key and value has a record whose length counts its own digits, without a leading zero. |
| `Pax.ReadComplete` | scripts/build_verification_candidate.py:166-181 | A well-formed record is read back whatever follows it. |
| `Pax.ReadSound` | scripts/build_verification_candidate.py:166-181 | What is read is a well-formed record that stands at the front. |
| `Pax.ValidatePaxMetadata` | scripts/build_verification_candidate.py:160-192 | The loop raises the first fault of the payload read record by record, and accepts when there is none. |
| `Pax.NextRecord` | scripts/build_verification_candidate.py:166-181 | Cutting at absolute positions gives the record at the front of what is left. |
| `Decimal.PrintParse` | scripts/build_verification_candidate.py:169-171 | Leading zeros change nothing, and any other numeral is its number's own print. |
| `Decimal.SelfCounting` | scripts/build_verification_candidate.py:166-171 | For every rest length there is a number that is the rest plus its own digits. |
| `TarScan.ScanTarHeaders` | scripts/build_verification_candidate.py:195-279 | The scan accepts if and only if the stream tiles into acceptable headers with padded payloads, within all caps, followed by at least two zero blocks and nothing but zeros; otherwise the fault it raises is true of the first place where it stops, behind acceptable members. |
| `TarLayout.AcceptableIs` | scripts/build_verification_candidate.py:81-279 | The same read off the bytes: flags x, g and X have accepted PAX payloads, these and L and K declare at most 65536 bytes and count against both caps, flags 1 to 6 declare none, S never occurs, and positions, sizes and zeros are where they must be. |
| `TarLayout.SizeRecordIsRefused` | scripts/build_verification_candidate.py:186-191 | Whatever follows, an archive that begins with a local, global or Solaris header whose first record has the key size is refused. |
| `TarLayout.GlobalSizeIsRefused` | tests/test_verification_candidate_build.py:303-315 | The archive with a global size record, byte by byte, is refused whatever follows the record. |
| `TarScan.TilingIsUnique` | scripts/build_verification_candidate.py:212-278 | A stream tiles in one way only, and the lengths of members and tail add up to the stream. |
| `TarScan.TilingExtends` | scripts/build_verification_candidate.py:212-278 | Members already passed begin every tiling of the stream, so the scan never commits to a wrong boundary. |
| `TarScan.ScanMember` | scripts/build_verification_candidate.py:233-278 | One header: the next offset is larger and the counts are those of the members passed, or no acceptable member stands here. |
| `TarScan.CheckHeader` | scripts/build_verification_candidate.py:238-265 | A header passes if and only if its size, kind and the special-header caps allow it; each fault is true of the header. |
| `TarScan.CheckPayload` | scripts/build_verification_candidate.py:266-277 | A payload passes if and only if it lies in the stream and, for PAX headers, its metadata is accepted; each fault is true of the payload. |
| `TarScan.ScanTail` | scripts/build_verification_candidate.py:219-232 | The tail passes if and only if it holds another block and only zeros to the end; otherwise it says which of the two is missing. |
| `TarReader.AcceptedReadsAlike` | scripts/build_verification_candidate.py:195-279 | On an archive the scan accepts, the reader finds the members of the one tiling if and only if it takes every header and whole PAX block, every ordinary member reaches as far as its padded payload under the records then in force, padding included, and no special header comes last. |
| `TarReader.TerminatedReadsAlike` | scripts/build_verification_candidate.py:182-192 | For any parser that reads such a block as it stands, where every PAX block ends with its checked records or has a NUL behind them, no size and no sparse record gets past the check: the two agree if and only if the reader takes every header and block, no old-style directory declares a payload, and no special header comes last. |
| `TarReader.ZerosTerminate` | scripts/build_verification_candidate.py:266-277 | A zero as first padding byte, or no padding, is enough for a PAX block to end its records where the scan ends them. |
| `TarReader.HiddenMember` | scripts/build_verification_candidate.py:239-278 | An archive the scan accepts as one member and the reader lists as two. |
| `TarReader.HiddenOverride` | scripts/build_verification_candidate.py:266-277 | An archive the scan accepts as two members; a size record in the padding of its PAX block makes a reader that reads it, as both parsers of the library do, list a third inside a payload. |
| `TarReader.PaddedIsRead` | scripts/build_verification_candidate.py:266-277 | Both parsers read the record in the padding, of which the scan checks nothing. |
| `TarReader.NumbersAreRight` | scripts/build_verification_candidate.py:239-278 | The headers of these two archives spell the sizes they are meant to, and their checksums are right. |
| `TarReader.CutShort` | scripts/build_verification_candidate.py:212-278 | If the first member that does not read alike has a header that is not intact, or a PAX block that is no list of records, the reader's list ends there without an error, or raises one at the start and after a special header. |
| `TarReader.WalkStep` | scripts/build_verification_candidate.py:239-278 | At a member that reads alike the reader moves to where the scan does, with the records that then apply. |
| `TarReader.WalkStrays` | scripts/build_verification_candidate.py:239-278 | At any other accepted member the reader ends its list or raises an error, or it takes an ordinary member and moves to another place than the scan. |
| `PaxParsers.ParsersAreLawful` | scripts/build_verification_candidate.py:166-192 | Where well-formed records end at a NUL or with the block, each parser of the library gives exactly those records or none. |
| `PaxParsers.LenientReads` | scripts/build_verification_candidate.py:166-192 | The older parser reads exactly the well-formed records in front of a NUL or of the block's end, whatever follows the NUL. |
| `PaxParsers.StrictReads` | scripts/build_verification_candidate.py:166-192 | So does the newer one, unless a length has more than twenty digits, which the scan allows and it refuses. |
| `RustMask.WithoutRustComments` | scripts/check_gateway_public_protocol_contract.py:428-486 | The loop computes, at every position, what the token there shows: comments blank, strings blank on request, newlines kept. |
| `RustLexing.MaskMeans` | scripts/check_gateway_public_protocol_contract.py:428-486 | However a text is cut into tokens, the output blanks the comments, and the strings on request, and keeps everything else and all newlines; tokens are defined by positions in the text. |
| `RustLexing.LexesOnce` | scripts/check_gateway_public_protocol_contract.py:433-486 | Every text is cut into such tokens in exactly one way. |
| `RustLexing.TokenIs` | scripts/check_gateway_public_protocol_contract.py:436-485 | The lexer cuts a line comment before its first newline, a block comment behind its own closer with whole comments inside, a quoted string behind its first quote after an even number of backslashes, a raw string behind its first closing marker, each at the end of the text if there is none, and single characters elsewhere. |
| `RustLexing.LineCommentIsBlank` | scripts/check_gateway_public_protocol_contract.py:436-441 | Where the lexer stands before two slashes the output is blank up to the first newline, and the next token begins there. |
| `RustMask.MaskTwice` | scripts/check_gateway_public_protocol_contract.py:428-486 | For every source and both modes, masking twice is masking once with either mode: the modes are idempotent, commute, and neither makes or breaks a token of the other. |
| `RustMask.MaskKeepsPlace` | scripts/check_gateway_public_protocol_contract.py:428-486 | Masking keeps each character or turns it into a space, and keeps exactly the newlines. |
| `RustMask.MaskedShows` | scripts/check_gateway_public_protocol_contract.py:428-486 | Each position is shown as the token that holds it demands. |
| `RustMask.SurvivorIsCode` | scripts/check_gateway_public_protocol_contract.py:428-486 | What survives full masking is held by no comment and no string, and is shown as it is. |
| `RustMask.MaskSlice` | scripts/check_gateway_public_protocol_contract.py:386-397 | Masking a slice that starts after a code character and ends after a newline is slicing the mask. |
| `RustMask.CodeIsBoundary` | scripts/check_gateway_public_protocol_contract.py:428-486 | A character that survives full masking is a token by itself, so the lexer stands between tokens after it. |
| `RustMask.RawOpensIff` | scripts/check_gateway_public_protocol_contract.py:460 | A raw string opens exactly where r, zero to sixteen hashes and a quote stand. |
| `RustMask.RawEndIsFirst` | scripts/check_gateway_public_protocol_contract.py:462-464 | A raw string ends with its first closing marker. |
| `RustMask.RawRunsOut` | scripts/check_gateway_public_protocol_contract.py:462-464 | Without a closing marker a raw string takes the rest of the text. |
| `RustMask.SkipBlock` | scripts/check_gateway_public_protocol_contract.py:444-456 | The loop over nested block comments finds where the outermost one ends. |
| `RustMask.SkipQuoted` | scripts/check_gateway_public_protocol_contract.py:470-479 | The loop over a quoted string finds its end; the index may overshoot the text by one. |
| `RustVectors.FunctionBodyMask` | scripts/check_gateway_public_protocol_contract.py:386-397 | The body cut out of a source masks, in both modes, to the same window of the source's own mask. |
| `RustVectors.BodyIsFirst` | scripts/check_gateway_public_protocol_contract.py:386-397 | The body is the text from the declaration's end to the first line start whose code mask is the declaration line's own leading blanks, a closing brace and blanks to the end of the line; without such a line there is none. |
| `RustVectors.DeclarationLine` | scripts/check_gateway_public_protocol_contract.py:389-390 | Every declaration stands on a line with leading blanks and tabs. |
| `RustVectors.LoadsVector` | scripts/check_gateway_public_protocol_contract.py:489-496 | The search succeeds if and only if some call head in the code mask has, at the same index of the comment mask, an argument naming the vector. |
| `RustVectors.LoadsAtIs` | scripts/check_gateway_public_protocol_contract.py:489-496 | A call is accepted if and only if the code mask has the macro's name as a word, whitespace and a parenthesis, and behind it the comment mask has whitespace, a quoted path in one line that ends with a slash and the vector's name, whitespace and the closing parenthesis. |
| `RustVectors.ArgumentIsLiteral` | scripts/check_gateway_public_protocol_contract.py:489-496 | Of an accepted call the whole macro name and the parenthesis are code, held by no comment and no string, and the argument is a string literal that begins a token, read in full when it has no escapes. |
| `RustVectors.SectionMasks` | scripts/check_gateway_public_protocol_contract.py:680-698 | The body cut from the comment mask masks, in both modes, to a window of the original text's own masks. |
| `RustVectors.SectionLoads` | scripts/check_gateway_public_protocol_contract.py:680-698 | Every call accepted in that body is a genuine call of the original text, at the same place, whose argument names the vector. |
| `RustVectors.FindClosing` | scripts/check_gateway_public_protocol_contract.py:392-397 | The first line from a place on that holds the given indentation, a brace and only blanks, or there is none. |
| `ObservationValues.DecodeEncode` | scripts/canvas_observation_values.py:15-49 | Every value is recovered from its encoding: nested lists and dicts, surrogate text and keys, marker keys, large integers, signed zero and non-finite floats. |
| `ObservationValues.EncodeInjective` | scripts/canvas_observation_values.py:15-49 | No two values share an encoding. |
| `ObservationValues.PlainStays` | scripts/canvas_observation_values.py:15-49 | A value is its own encoding if and only if it has no surrogate in a text or key, no marker word as a key, no integer beyond 9007199254740991 in size, and only finite floats that are not negative zero. |
| `ObservationValues.ScalarMarks` | scripts/canvas_observation_values.py:18-27 | Text with a surrogate becomes the list of its code points, and a larger integer its decimal text, under their marker words. |
| `ObservationValues.FloatMarks` | scripts/canvas_observation_values.py:16-33 | Negative zero, NaN and the infinities become their words. |
| `ObservationValues.DictMarks` | scripts/canvas_observation_values.py:34-46 | A dict with only ordinary keys keeps them; any other becomes a list of encoded keys and values. |
| `ObservationValues.EncodeIsSafe` | scripts/canvas_observation_values.py:15-49 | The encoding holds no surrogate, no non-finite or negative-zero float and no integer beyond 2^53 - 1, if and only if no foreign object was passed through. |
| `JsonTree.ObserveTree` | scripts/canvas_json_tree_observation.py:14-57 | The traversal with an explicit stack ends, succeeds if and only if every node is supported, and gives the recursive sorted-key preorder, the number of nodes and the true container depth. |
| `JsonTree.Visit` | scripts/canvas_json_tree_observation.py:18-51 | One round: what is emitted and counted, with what is pending, still makes up the whole tree, and less is pending. |
| `JsonTree.SortKeys` | scripts/canvas_json_tree_observation.py:23 | Sorting the keys gives each key once, in ascending code-point order. |
| `JsonTree.KeysAscend` | scripts/canvas_json_tree_observation.py:23 | The key order of the specification is strictly ascending. |
| `JsonTree.Open` | scripts/canvas_json_tree_observation.py:21-47 | The token and children of one node. |
| `JsonTree.FloatTokens` | scripts/canvas_json_tree_observation.py:36-40 | A float's token is NaN if and only if its bits without the sign exceed those of infinity; otherwise it is its bits. |
| `JsonTree.BelowIff` | scripts/canvas_json_tree_observation.py:23 | Keys are compared where they first differ, by code point, and a prefix comes first. |
| `JsonTreeDecode.SameStreamIff` | scripts/canvas_json_tree_observation.py:14-57 | Two values have the same token stream if and only if they are equal up to key order, where two floats also count as equal if the bits of both, without the sign, exceed those of infinity. |
| `JsonTreeDecode.StreamsArePrefixFree` | scripts/canvas_json_tree_observation.py:18-51 | No token stream continues another. |
| `JsonTreeDecode.ReadPreorder` | scripts/canvas_json_tree_observation.py:18-51 | A token stream is read back, whatever follows it, as the value with NaN payloads forgotten. |
| `Custody.World.Provision` | scripts/beta_external_transit_fixture.py:247-323 | Every run of provision, wherever it stops, keeps intent before effect, moves journal fields only forward, has `result.json` only with everything before it complete, refuses a used directory without touching anything, and passes only after every check, in order; when nothing fails it passes. |
| `Custody.World.Revoke` | scripts/beta_external_transit_fixture.py:336-413 | Every run of revoke, wherever it stops and however often repeated, keeps the invariant and moves only forward; when it passes, the token is dead, the policy absent, the secret files cleared and the environment kept without its token; a finished custody is refused unchanged; when nothing fails it passes. |
| `Custody.Histories` | scripts/beta_external_transit_fixture.py:247-413 | All this holds over any sequence of provisions and revokes that may each stop anywhere, with the token free to expire at any time. |
| `Custody.PartialFilesAreSeen` | scripts/beta_external_transit_fixture.py:355-375 | A token or environment file matches its recorded hash exactly when it was written in full. |
| `Custody.TornToken` | scripts/beta_external_transit_fixture.py:247-287 | A provision from an untouched start, good in every step until its write of the token file stops part way, reaches a state that keeps the invariant and whose token file does not match its recorded hash; the revoke after it fails and leaves that state. |
| `Custody.FullCycle` | scripts/beta_external_transit_fixture.py:247-413 | When nothing fails and the minted token is usable, its bounds in numbers, a provision and the revoke after it both succeed. |
| `Custody.World.UpdateJournal` | scripts/beta_external_transit_fixture.py:205-213 | The journal is the old one or the new one, never a mixture, and success means it was the expected one before. |
| `Custody.World.DurableNew` | scripts/beta_external_transit_fixture.py:59-65 | Exclusive creation: an existing file is never touched; a failure may leave a front part. |
| `Custody.World.ClearFile` | scripts/beta_external_transit_fixture.py:330-333 | Overwriting with zeros, of which a failure may leave a front part. |
| `Custody.World.Prepare` | scripts/beta_external_transit_fixture.py:249-258 | The first journal is durable before anything of ours exists, and a used directory stops the run. |
| `Custody.World.CreateKey` | scripts/beta_external_transit_fixture.py:260-265 | The key is requested once, and only while the durable journal announces it. |
| `Custody.World.WritePolicy` | scripts/beta_external_transit_fixture.py:266-268 | The policy is written once, only after `policyCreated` is durable, and success means it stands. |
| `Custody.World.MintToken` | scripts/beta_external_transit_fixture.py:269-287 | The mint is sent once, announced as unknown before; its response, accessor and hash are durable before the token file. |
| `Custody.World.RequestMint` | scripts/beta_external_transit_fixture.py:269-274 | The mint is sent once, after it has been announced, and its response is durable before it is looked at. |
| `Custody.World.PublishEnvironment` | scripts/beta_external_transit_fixture.py:312-314 | The environment's hash is durable before the environment. |
| `Custody.World.CompareRuntime` | scripts/beta_external_transit_fixture.py:299-301 | The second observation is stored only if it equals the first. |
| `Custody.World.Reclaim` | scripts/beta_external_transit_fixture.py:336-376 | The checks before a revoke recover the very token that was minted, or stop; files that are there match the journal. |
| `Custody.World.RetireToken` | scripts/beta_external_transit_fixture.py:377-383 | Revocation is requested unless recorded; it is recorded only once the token has been answered with a 403 while its policy stood, which `Inv` then remembers. |
| `Custody.World.RetirePolicy` | scripts/beta_external_transit_fixture.py:384-388 | Deletion is requested unless recorded, and recorded only when the policy is absent. |
| `Custody.World.RetireEnvironment` | scripts/beta_external_transit_fixture.py:390-400 | The environment is kept without its token before it is overwritten. |
| `Custody.World.ClearFiles` | scripts/beta_external_transit_fixture.py:389-412 | Nothing is cleared unless the runtime looks as before; the proof comes last. |
| `Custody.World.RetireSecrets` | scripts/beta_external_transit_fixture.py:401-408 | Token file and mint response are overwritten, and nothing else changes. |
| `OwnedProcess.Process.Poll` | scripts/canvas_worker_owned_process.py:54-73 | Reports exactly whether the child still runs, sets the exit status or the negated signal, sends nothing, and fails only when a call does. |
| `OwnedProcess.Process.KillGroup` | scripts/canvas_worker_owned_process.py:75-93 | Every signal goes to our own unreaped child's group, right after a check of its identity, with effect at most once. |
| `OwnedProcess.Process.Wait` | scripts/canvas_worker_owned_process.py:98-119 | Fewer than timeout/0.025 + 2 rounds; the group is killed before the reap; the status mismatch cannot happen; the budget is invalid exactly when it is missing or negative, a timeout means that it has passed, and any other error that a call failed or the group was not the child's own. |
| `OwnedProcess.Process.Cleanup` | scripts/canvas_worker_owned_process.py:121-125 | Keeps all this, and success means killed and reaped. |
| `OwnedProcess.Sequences` | scripts/canvas_worker_owned_process.py:54-125 | Over any sequence of calls and kernel steps: the return code never changes once set, and no signal reaches a reaped or reused PID. |
| `ReleaseBarrier.RunKeepsInv` | scripts/canvas_worker_timeout_https_fixture.py:39-94 | Every state of every interleaving, one access to shared state at a time, satisfies the barrier's invariant. |
| `ReleaseBarrier.ArrivalIsThere` | scripts/canvas_worker_timeout_https_fixture.py:47-75 | The arrival time is set whenever the controller reads it. |
| `ReleaseBarrier.ReleaseIsScheduled` | scripts/canvas_worker_timeout_https_fixture.py:51-61 | A recorded release is at least the delay after the arrival or, without a delay, follows the prompt. |
| `ReleaseBarrier.ResponseFollowsRelease` | scripts/canvas_worker_timeout_https_fixture.py:47-76 | The response is unblocked only after a release that was scheduled, cancelled or forced by a failure. |
| `ReleaseBarrier.WaitingHandlerIsFreed` | scripts/canvas_worker_timeout_https_fixture.py:47-92 | After a close or once the controller has stopped, a waiting handler can only be freed, then and ever after. |
| `ReleaseBarrier.CloseReleases` | scripts/canvas_worker_timeout_https_fixture.py:84-92 | In every run, once a close has begun, the release is set in every state in which the closer is past cancelling. |
| `ReleaseBarrier.FailsLate` | scripts/canvas_worker_timeout_https_fixture.py:39-64 | In every run the controller fails only from a wait whose deadline has passed; the arrival time it reads is never missing. |
| `ReleaseBarrier.NoFailureInTime` | scripts/canvas_worker_timeout_https_fixture.py:39-94 | A controller that never looks at the clock past its deadline fails in no run. |
| `ReleaseBarrier.FailsAfterWaiting` | scripts/canvas_worker_timeout_https_fixture.py:39-64 | A controller that fails has waited 35 seconds for the request, or 25, or 3 without a delay, for the release. |
| `ReleaseBarrier.GivesUpAfterWaiting` | scripts/canvas_worker_timeout_https_fixture.py:74-75 | A handler that gives up has waited 30 seconds and found no release. |
| `ReleaseBarrier.StalledControllerFails` | scripts/canvas_worker_timeout_https_fixture.py:39-64 | For every delay there is a run in which a controller held up inside its wait fails although its time has come, and still frees the handler. |
| `BodySchedule.PlanIsSound` | scripts/canvas_worker_body_timeout_https_fixture.py:64-108 | A plan exists exactly for valid arguments; its chunks are nonempty and make up the body, and what has been delivered is a complete JSON text only after all of them. |
| `BodySchedule.PlanIs` | scripts/canvas_worker_body_timeout_https_fixture.py:64-101 | Which offsets and sizes are accepted, in numbers, and that the body is the text behind exactly the blanks it needs. |
| `BodySchedule.ChunkIs` | scripts/canvas_worker_body_timeout_https_fixture.py:102-108 | Chunk i of n lies between the last positions that are no more than i/n and (i+1)/n of the body. |
| `BodySchedule.ChunksPartition` | scripts/canvas_worker_body_timeout_https_fixture.py:102-108 | The chunks concatenate to the body, none is empty, and their sizes differ by at most one. |
| `BodySchedule.OnlyAllIsComplete` | scripts/canvas_worker_body_timeout_https_fixture.py:99-108 | The first chunks of a padded container form a complete JSON text if and only if they are all of them. |
| `JsonText.NoProperPrefix` | scripts/canvas_worker_body_timeout_https_fixture.py:99-102 | No proper prefix of a container, brackets inside strings and leading spaces included, is a complete JSON text. |
| `JsonGrammar.AsNode` | scripts/canvas_worker_body_timeout_https_fixture.py:86-102 | Every JSON value of RFC 8259, with any whitespace between its tokens, has the form that these results speak of, and containers are containers. |
| `JsonGrammar.JsonIsDocument` | scripts/canvas_worker_body_timeout_https_fixture.py:99-102 | Every JSON text counts as complete. |
| `BodySchedule.Fixture.WriteResponseBody` | scripts/canvas_worker_body_timeout_https_fixture.py:206-251 | However the schedule ends, what was sent is exactly the flushed chunks, observations are an in-order prefix of the chunks, none before its offset, and only a declared last slot may be closed by the peer; completion means every slot; an error is one that a write or flush raised, or a short write. |
| `BodySchedule.Fixture.WriteChunk` | scripts/canvas_worker_body_timeout_https_fixture.py:216-248 | One slot: waited for, sent in full and recorded, or nothing recorded or sent and the reason returned; the declared last slot raises only what has no category. |
| `BodySchedule.Fixture.Send` | scripts/canvas_worker_body_timeout_https_fixture.py:220-225 | A write that takes only part of the chunk is refused and nothing is flushed. |
| `BodySchedule.Fixture.Record` | scripts/canvas_worker_body_timeout_https_fixture.py:183-204 | Appends the observation of the next slot and changes no other. |
| `BodySchedule.Fixture.WaitUntil` | scripts/canvas_worker_body_timeout_https_fixture.py:174-181 | True only when the offset is due, false only when cancelled, however often the waits in between return early. |
| `WrapText.WrapText` | scripts/beta_org_console_audit.py:317-330 | The loop produces the texts of the greedy wrapping of the words. |
| `WrapText.GreedyIsOptimal` | scripts/beta_org_console_audit.py:317-330 | The greedy lines hold exactly the words, each is legal, and no other legal wrapping has fewer lines. |
| `WrapText.GreedyIsFilled` | scripts/beta_org_console_audit.py:317-330 | The greedy lines are the one way to wrap the words into legal lines of which none has room for the word after it. |
| `WrapText.SplitIs` | scripts/beta_org_console_audit.py:318 | The words are the maximal runs without whitespace, in order. |
| `WrapText.WrappedText` | scripts/beta_org_console_audit.py:317-330 | Split again, the lines give the words of the text in order, and each line fits the width or is one word. |

## Left out

- Hash functions, zlib, base64 wrapping of reports and JSON serialisation of tokens: digests are modelled by the byte records or tokens they are fed. UTF-8 itself is not modelled, so `Records.RecordOption` takes encoded bytes.
- The Python codecs and the HTTPX decoders: a decoder is an abstract pair of step functions, and the independent `terminal` digests and the fixed response cases of the codec oracles are not part of the model. What a decoder does next is taken to depend only on the state it reports, as the script itself does when it sets that state back.
- The other corpora of the UTF-7 and gb18030 oracles: plain products of fixed lists.
- Python's limit of 4300 digits when converting text and integers: it would reject a PAX length or refuse to print an integer of that size.
- The number parser of the tar library is a parameter, so octal and base-256 fields are not distinguished. The reader's checks of checksums and of the other numeric header fields, and what it makes of the text of a size record, are parameters too.
- The tar reader takes a size record that makes it go back in the archive for an error; the library would read on from there.
- Which `hdrcharset` values can be decoded is a parameter of the older parser of PAX blocks.
- Newer releases of Python's reader no longer make a directory of a header that follows a GNU long name or long link; the modelled reader still does.
- How much room sparse members occupy is left open in the richer tar reader: an accepted archive has one only by a record in the padding of a PAX block.
- Gzip, OCI and SBOM checks of the candidate builder: field comparisons.
- Word characters of regular expressions are a parameter of `RustVectors`; the regular expressions over attributes, modules, workflows and test names are not modelled.
- The grammar of `JsonText` admits some texts that are not JSON (any escape, any scalar without structure); it admits all that are (`JsonGrammar.JsonIsDocument`). Texts are sequences of characters, as the printed bodies are ASCII.
- Dicts with keys that are not text: both encoders assert against them. Dicts are lists of entries in `ObservationValues` (the encoding keeps insertion order) and maps in `JsonTree` (the traversal sorts).
- Finite floats are rationals in `ObservationValues` and bit patterns in `JsonTree`; arithmetic on floats does not occur.
- Custody: tampering from outside, symbolic links, argument and job checks, and the contents of provider replies beyond status, token and accessor; a check that only looks passes or fails freely. The provider is taken not to refuse a live token whose policy grants the read, and to report as absent only what is absent. The provider keeps one token per custody.
- A crash in `Custody` is one of the process, not a loss of power: a rename is taken to be durable at once, although the directory is not synced after it.
- After a failure Custody promises only safety: a stale `custody.next` blocks later updates, and a revoke after the secrets have been cleared is refused.
- OwnedProcess: launching, argument checks, exceptions raised asynchronously, and other code in the same process that reaps our child.
- ReleaseBarrier: the threads are modelled as a step relation rather than as methods, since their point is the interleaving; waiting on an event under a timeout is one step, decided by the event or by the clock; the 5-second join, thread start-up and the HTTP layer are not modelled.
- BodySchedule: checks of the request, TLS, headers, the initial barrier and closing; the lock around the observations is not modelled, because only the writer appends to them.
- Configuration comparators, report writing, UI driving and redaction.
