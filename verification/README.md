# Sindook, modelled and proved in Dafny

Sindook seals files: a header of key slots (X-Wing recipients and Argon2id passphrases), then a
payload of authenticated chunks. This project models its engine, its ASCII armor, its concurrent
parts and its contact book, and proves what they promise.

| file | what it holds |
|---|---|
| `Prelude`, `Lists`, `Streams` | bytes and errors; sorted lists of names; readers that return what they like and writers that may fail |
| `Crypto` | the primitives as a record of functions (`Suite`) with their laws, and a toy instance of them, so that the laws are consistent |
| `Payload`, `PayloadTheorems`, `HonestSuite` | chunk sealing and opening; nonces, sources that break off, the exact accepted language, authenticated prefix, the size shortcut; a suite that meets the prefix theorem's hypothesis |
| `Header`, `Slots`, `Box` | the printed and parsed header, the two slot kinds, `Seal`, `Open`, fast `Rewrap` |
| `Formats`, `Binding` | the formats byte by byte, and files laid out by hand that open; what the header MAC and the associated data of a wrap bind |
| `Edit`, `Rewraps` | `RewrapEdit`; who opens a rewritten file |
| `DeepPipeline`, `Runs` | deep `Rewrap` as producer, pipe and consumer; conservation over whole runs; what cut-off sources do to `Seal` and deep `Rewrap` |
| `Inspection` | the header parser that needs no credentials |
| `Base64`, `Armor`, `ArmorTheorems`, `ArmorIO` | section 4 of RFC 4648, the reader as a function, its theorems, and the stateful writer and reader |
| `Decompress`, `KeyLife`, `Pool` | the decompression handshake, the shared private key, the worker pools |
| `Rotate`, `RotateSealed`, `Verify` | the two commands that run on the pool |
| `Naming`, `Contacts` | contact and group names; the commands that edit them and the expansion of recipients |

How to read it. A method that follows the source step by step ensures that its effect is the one a
function computes (`SealPayload` and `Plan`, `OpenPayload` and `OpenFrom`, `RunUnlockV2` and
`UnlockV2`, `RunPipeline` and `SealAll` of `Plan`), and the theorems are about those functions. Every
source of input may deliver its bytes in any pieces and end with the end of file, with
`io.ErrUnexpectedEOF` or with another error; every destination may fail at any write. A concurrent
part is a method whose loop takes any step that is possible: what it ensures holds of every
interleaving, its `decreases` says that every run ends, and the loop body has to find a step, so no
state is stuck.

Cryptography enters through the laws of `Crypto.Lawful`: a sealed box is 16 bytes longer than its
content and opens to p exactly when it is the sealing of p; decapsulation recovers what was
encapsulated to the matching key; keys have their lengths. Where a property needs that nothing else
opens, this is a hypothesis of the theorem and is stated about the bytes at hand: `NoForgery` (only
the honest run's chunks open under the nonces a reader tries; `HonestSuite.NothingForged` shows that it
can be met) and `Unambiguous`, or `Clean` for a set of credentials (a slot never
yields a wrong key).

Where the code and its documentation part, the model follows the code:

- `PlaintextSize` is documented for every length. It is wrong for exactly the lengths above
  2^63 - 65552 that some payload has, where the sum of the length and a chunk overflows
  (`PayloadTheorems.SizeShortcut`).
- `io.ErrUnexpectedEOF` from a source is taken for the end of its input after a short read, because
  `io.ReadFull` reports short reads by that name. A source cut off this way is sealed as if it were
  complete, final chunk and all, exactly when it gave nothing or did not stop on a chunk boundary
  (`PayloadTheorems.BrokenSourceFinalIff`, with inputs in `CutOffSourceSealed`).
- For the same reason a deep rewrap reports success although the old payload does not open, exactly when
  the source breaks off with `io.ErrUnexpectedEOF` after one full payload chunk; the new file then holds
  nothing (`Runs.DeepSucceedsIff`, with the input in `Runs.CutOffDeepRewrap`).
- An empty final chunk after full chunks is accepted although no sealer writes it
  (`PayloadTheorems.EncodingNotUnique`).
- Keeping all slots and changing nothing is refused for a file with more than four passphrase slots,
  which the parser accepts (`Rewraps.EditIdentity`).
- The comment on `withDecompression` speaks of a 64 KiB pipe buffer. `io.Pipe` has none: a write ends
  when readers have taken all its bytes.
- `@default`, `@me` and `@self` never reach the contact book, but contacts and groups may be saved
  under these names (`Contacts.GroupExpands`).
- A run on a bare baseline re-verifies the recorded files, except that an entry named "-" is read from
  standard input, reported as `stdin`, and then also reported as missing (`Verify.BareBaseline`).

## Model

| member | source | states |
|---|---|---|
| `Payload.SetNonce` | box/box.go:788-798 | Whatever was in the nonce buffer, it becomes the 64-bit big-endian counter in bytes 3 to 10 and the final flag in byte 11, other bytes zero. |
| `Formats.NonceLayout` | box/box.go:788-798 | The counter, read from byte 3 as the most significant to byte 10 as the least, is the chunk's number mod 2^64; byte 11 alone says final; the first three bytes are zero. |
| `Payload.ReadChunk` | box/box.go:811-825 | The read both payload loops start with: how much is taken, that it is the last chunk exactly when nothing follows, and which error of the source is returned, however the bytes arrive; `io.ErrUnexpectedEOF` after a short read is none. |
| `Payload.SealPayload` | box/box.go:800-834 | For every way the source delivers its bytes and every way it ends, the destination receives the chunks of the plan, sealed in order under the nonces of the plan, and the loop's own error is returned, or it receives a prefix of that and a write error is. |
| `Payload.OpenPayload` | box/box.go:836-879 | For every way the file arrives, the destination receives exactly the plaintext that chunk-by-chunk opening yields and the same error; on success the input is at its end. |
| `PayloadTheorems.PlanShape` | box/box.go:800-834 | A complete run makes max(1, ceil(n/65536)) chunks; the k-th carries the k-th slice and nonce, and the final flag is on exactly the last. |
| `PayloadTheorems.PlanCarriesPlaintext` | box/box.go:800-834 | The chunks joined are the input. |
| `PayloadTheorems.NonceDiscipline` | box/box.go:788-834 | All nonces of a run are 12 bytes, flagged on the last only, and pairwise distinct if and only if there are at most 2^64 + 1 chunks. |
| `PayloadTheorems.BrokenSourceFinalIff` | box/box.go:811-834 | A run over a source that breaks off writes a final chunk if and only if the error is `io.ErrUnexpectedEOF` and the input is empty or does not end on a chunk boundary; then it is the complete sealing of what was read and returns nil, otherwise the source's error. |
| `PayloadTheorems.BrokenSourceNeverFinal` | box/box.go:811-825 | In every other case it leaves only full, non-final chunks of a prefix of the input. |
| `PayloadTheorems.CutOffSourceSealed` | box/cover_test.go:19-20 | The shortest inputs on which a broken source is sealed as complete. |
| `PayloadTheorems.BrokenSourceLanguage` | box/box.go:848-862 | Opening a source that breaks off succeeds if and only if the error is `io.ErrUnexpectedEOF` and the bytes are an accepted payload that does not end on a chunk boundary. |
| `PayloadTheorems.ExactLanguage` | box/box.go:836-879 | Opening succeeds with plaintext p if and only if the bytes are the sealing of p, or p is a positive number of full chunks all sealed as non-final and an empty final chunk follows. |
| `PayloadTheorems.OpenFailsCorrupted` | box/box.go:836-879 | When the source does not break off, the only error of opening is that the payload is corrupted. |
| `PayloadTheorems.EncodingNotUnique` | box/inspect_test.go:142 | For every plaintext of full chunks the two accepted encodings differ and open alike. |
| `PayloadTheorems.AuthenticatedPrefix` | box/box.go:836-879 | If nothing in a byte string opens but chunks of one honest run, opening it emits whole leading chunks of that run's plaintext only, and succeeds only on the original ciphertext. |
| `HonestSuite.NothingForged` | box/box.go:836-879 | Every honest payload meets that hypothesis under some lawful choice of primitives, and opens. |
| `PayloadTheorems.AcceptedLength` | box/inspect.go:140-153 | The length of an accepted payload determines the length of its plaintext. |
| `PayloadTheorems.PlaintextSizeBelow` | box/inspect.go:142-153 | Below the overflow margin the int64 arithmetic yields the length less 16 per chunk, or -1 when the last chunk would be shorter than a tag. |
| `PayloadTheorems.PlaintextSizeAbove` | box/inspect.go:142-153 | Above the margin the result is always -1. |
| `PayloadTheorems.SizeShortcut` | box/inspect.go:140-153 | The documented promise (non-negative exactly when some payload of the length opens, then the plaintext length of every one) holds at n if and only if n is below the margin or no payload has length n. |
| `Header.ReadHeader` | box/box.go:367-406 | The structural parse of a v2 header consumes exactly the bytes the parsing function consumes and fails exactly when it does. |
| `Header.ParsePrinted` | box/box.go:212-282 | Parsing a printed header followed by any payload returns the same nonce, slots and MAC and stops at the first payload byte. |
| `Header.PrintParsed` | box/box.go:367-406 | Printing any accepted header reproduces the bytes that were consumed. |
| `Formats.HeaderLanguage` | box/box.go:367-406 | The headers accepted are exactly the printed ones with 1 to 32 slots of at most 4096 bytes. |
| `Slots.FreshXWingOpens` | box/box.go:230-250 | The slot made for a recipient key yields the file key to the identity behind it. |
| `Slots.FreshPassOpens` | box/box.go:252-271 | The slot made for a passphrase yields the file key to that passphrase, with any parameters in range. |
| `Slots.FirstThatOpens` | box/box.go:407-430 | The file key found is the one that the first slot that opens gives. |
| `Slots.ReadPrintedArgon` | box/box.go:344-365 | Argon2id parameters survive being written into a slot and read back. |
| `Formats.SlotLayout` | box/box.go:212-282 | A slot is its kind, its body's length in two bytes with the more significant first, and its body. |
| `Formats.HeaderLayout` | box/box.go:212-282 | A header is the eight magic characters, 16 bytes of nonce, the number of slots, the slots one after the other, and 32 bytes of MAC. |
| `Formats.ArgonLayout` | box/box.go:252-271 | Passes, memory and lanes are four bytes, four bytes and one, the most significant first. |
| `Formats.MagicSpelled` | box/box.go:33-34 | The two magics, character by character. |
| `Formats.PassBodyOpens` | box/box.go:252-271 | A passphrase slot put together by hand (parameters, salt, file key sealed with magic, nonce, kind and those as associated data) yields the file key to its passphrase. |
| `Formats.RecipientBodyOpens` | box/box.go:230-250 | The same for a recipient slot and its identity. |
| `Formats.OneSlotFileOpens` | box/box.go:212-282 | A file put together by hand from such a slot, its MAC and a payload sealed under the derived key opens to the plaintext. |
| `Formats.LegacyFilesOpen` | box/box.go:453-515 | A v1 file of either mode, laid out by hand as magic, mode, public part, nonce, file key sealed with all of that, and sealed payload, opens to the plaintext under its passphrase or identity. |
| `Formats.LegacyFilesListed` | box/inspect.go:95-138 | Inspecting such a file shows one slot of the right kind and size, its parameters if it has any, and the header's size. |
| `Formats.LegacyOutOfRange` | box/box.go:479-515 | A v1 passphrase file with parameters out of range is refused as such, by opening and by inspecting. |
| `Formats.LegacyRefused` | box/box.go:453-515 | Any other v1 file is refused for want of a credential of its mode, for its mode, for its length or, all of it being there, because the credential is not the right one. |
| `Formats.Unrecognised` | box/box.go:301-314 | What begins with neither magic is no sealed file, to opening and inspecting alike. |
| `Binding.MacIsOverHeader` | box/box.go:198-206 | The last 32 bytes of a signed header are the HMAC, under the derived key, of all bytes before them. |
| `Binding.UnlockedMac` | box/box.go:443-449 | So they are in every v2 file that unlocks. |
| `Binding.SameMacSameSlots` | box/box.go:443-449 | Two v2 files that unlock to the same key and nonce and carry the same MAC bytes have the same slots, unless HMAC collides on their two headers. |
| `Binding.AlteredSlotsRefused` | box/box.go:443-449 | Any other list of slots under the MAC bytes of a genuine file is reported as tampered to every owner of the file key, unless HMAC collides there. |
| `Binding.SlotsBound` | box/box.go:170-178 | A wrap that opens in two slots does so with the same associated data if and only if the files' nonces and the slots, kind and public part included, are equal. |
| `Box.BuildHeader` | box/box.go:212-275 | The buffer the MAC covers is the print of the kept slots, verbatim and first, and then one fresh slot per recipient and passphrase; a failed encapsulation writes nothing. |
| `Box.WriteHeader` | box/box.go:212-282 | The header written is the signed print of those slots, which `Formats.HeaderLayout` and `Binding.MacIsOverHeader` spell out. |
| `Box.RunUnlockV2` | box/box.go:367-451 | Unlocking reads the header only, gives the first key that opens a slot if the MAC agrees (`Binding.UnlockedMac`, `Binding.AlteredSlotsRefused`), and otherwise the error the slots warrant (`Rewraps.RefusedHow`). |
| `Box.RunUnlockV1` | box/box.go:453-515 | The same for both modes of the older format, whose header is the associated data of its one wrapped key; what it computes on a file laid out by hand is `Formats.LegacyFilesOpen`. |
| `Box.RunUnlock` | box/box.go:301-314 | The magic decides between the two parsers, and nothing else is read. |
| `Box.Seal` | box/box.go:136-158 | The file is a header for a fresh key and the sealed input, or a prefix of it and an error; invalid options write nothing. |
| `Box.Open` | box/box.go:518-531 | What the destination receives and the error are those of unlocking and then opening the payload. |
| `Box.RewrapFast` | box/box.go:542-559 | The new file is a new header for the old key and nonce followed by the old payload bytes, even when the source breaks off. |
| `Edit.ScanSlots` | box/box.go:700-740 | The loop over slots and selectors ends with the kept slots and the first complaint of a selector that claims nothing. |
| `Edit.ScanV1` | box/box.go:661-699 | On a v1 file the one credential is kept by turning it into an added slot unless a selector claims it. |
| `Edit.RewrapEdit` | box/box.go:638-784 | The output and the error of an edit are those of the specification for every file, credential and edit. |
| `Rewraps.UnlockWritten` | box/box.go:367-451 | Unlocking a printed and signed header under any credentials: the payload untouched for those who find the key, the precise error otherwise. |
| `Rewraps.OpenWritten` | box/box.go:212-282 | A written file gives the payload's result to everyone who owns a slot and nothing to everyone else. |
| `Rewraps.RefusedHow` | box/box.go:431-441 | Without a slot of one's own nothing comes out, and the error asks for an identity, or else a passphrase, exactly when none was given and there is a slot for one; otherwise it is the wrong key. |
| `Rewraps.FreshOwners` | box/box.go:136-158 | Everyone named in the options owns a slot of the file. |
| `Rewraps.FreshInOrder` | box/box.go:221-271 | A fresh header has one slot for each recipient and then one for each passphrase, in order, each with its own encapsulation or salt. |
| `Rewraps.ValidateIff` | box/box.go:111-134 | Options are accepted if and only if they name 1 to 32 recipients and passphrases, at most four passphrases, keys of 1216 bytes and, if there is a passphrase, parameters in range. |
| `Rewraps.ValidateHow` | box/box.go:111-134 | Which complaint about options is made, in the order of the checks. |
| `Rewraps.FastRewrapCommutes` | box/box.go:552-559 | After a fast rewrap of a v1 or v2 file every new credential gets the same bytes and the same error as the old one got before, damaged payloads included, and nobody else gets anything. |
| `Rewraps.RewrapWritesIff` | box/box.go:542-559 | A fast rewrap writes anything if and only if the options are valid, the old file unlocks and the encapsulations succeed. |
| `Rewraps.KeptExactly` | box/box.go:700-740 | An edit keeps, verbatim and in order, exactly the slots that stay: the i-th does if and only if i + 1 is not listed, it is not a passphrase slot while these are dropped, and no dropped credential opens it. |
| `Rewraps.DropOneNumber` | box/box.go:700-740 | Dropping number n removes the n-th slot, counted from one, and no other. |
| `Rewraps.DropPassSlotsOnly` | box/box.go:700-740 | Dropping the passphrase slots leaves the others, in order. |
| `Rewraps.DroppedLoseAccess` | box/box.go:711-738 | A credential named by a drop selector owns none of the slots kept. |
| `Rewraps.EditWrites` | box/box.go:700-783 | An edit of a v2 file writes anything if and only if every selector claims a slot, the caps hold and the encapsulations succeed; then it writes kept slots, added slots and the payload as it was. |
| `Rewraps.EditWithoutKeep` | box/box.go:638-646 | Without KeepAll an edit is a fast rewrap, and is refused if it has any selector. |
| `Rewraps.EditRefusals` | box/box.go:638-774 | An edit fails as unlocking does, and one that would leave no slot is refused for that. |
| `Rewraps.DefaultsUsed` | box/box.go:755-757 | Added passphrases get the default parameters exactly when all three are zero; the defaults are in range. |
| `Rewraps.SelectorsMatchIff` | box/box.go:741-753 | The complaint is absent if and only if every selector claims some slot. |
| `Rewraps.EditOpensIff` | box/box.go:638-784 | An edited file opens under a credential if and only if it owns a kept or an added slot, and then as the old file did. |
| `Rewraps.EditIdentity` | box/box.go:648-783 | An edit that drops and adds nothing is the identity on bytes if and only if the file has at most four passphrase slots. |
| `Rewraps.EditV1Keeps` | box/box.go:661-699 | Editing a v1 file keeps the access of the credential that opened it when there is no selector, and gives the added ones the same bytes and error. |
| `Rewraps.EditV1Writes` | box/box.go:661-783 | An edit of a v1 file writes anything if and only if every selector is the opening credential, the caps hold and the encapsulations succeed; the slots are then the added ones, after one for the opening credential when there is no selector. |
| `DeepPipeline.RunPipeline` | box/box.go:585-596 | In every interleaving of the opening goroutine, the pipe and the sealing caller the run ends; output and error are those of sealing a source that delivers what the old payload opens to and ends as its opening does; the old key outlives its last use. |
| `DeepPipeline.RewrapDeep` | box/box.go:561-597 | Deep rewrap is opening followed by sealing, under a fresh key, what was opened and how that ended. |
| `Runs.DeepSucceedsIff` | box/box.go:561-597 | It succeeds, and writes a final chunk, if and only if the old payload opens or its source breaks off with `io.ErrUnexpectedEOF` after exactly one full payload chunk; it then seals the old plaintext, in the second case nothing. |
| `Runs.RefusedAlike` | box/box.go:136-581 | Sealing, fast rewrap and deep rewrap refuse invalid options alike and before anything else; both rewraps then fail as unlocking does. |
| `Runs.CutOffDeepRewrap` | box/box.go:585-596 | The input of the second case: opening fails, the deep rewrap returns nil and its file opens to nothing. |
| `Runs.CutOffSealIff` | box/box.go:136-158 | `Seal` makes of a source that breaks off the file of one that ends there, with no error, under the same exact condition. |
| `Runs.DeepRewrapCommutes` | box/box.go:561-597 | After a deep rewrap of a payload that opens every new credential gets the old plaintext and nobody else gets anything. |
| `Runs.WithoutFinalRejected` | box/box.go:836-879 | What such a failed run leaves behind is never accepted, in whatever order its chunks are put. |
| `Runs.GoodOpens` | box/box.go:518-531 | In a well-formed file every credential either owns a slot and gets the plaintext or gets nothing. |
| `Runs.RunKeeps` | box/box.go:542-784 | Any sequence of successful operations keeps a file well formed with the same plaintext. |
| `Runs.Conservation` | box/box.go:136-158 | After `Seal` and any sequence of fast rewraps, deep rewraps and edits the file has 1 to 32 slots, at most four of them for passphrases, as its MAC bytes the HMAC of its header bytes, and every slot wrapping the current key; every owner of a slot gets the original plaintext and everyone else nothing. |
| `Runs.HolderKeepsAccess` | box/box.go:136-597 | For every suite and with no further hypothesis: what is sealed to a passphrase and rewrapped to it any number of times, fast or deep, succeeds each time and still opens under it to the same plaintext. |
| `Runs.UpgradeKeeps` | box/box.go:453-515 | The same from a v1 file, once it has been through one operation. |
| `Inspection.InspectV2` | box/inspect.go:48-93 | The listing loop accepts exactly the headers the unlocker parses, with the same slots and the header's length. |
| `Inspection.InspectV1` | box/inspect.go:95-138 | The same for the older format. |
| `Inspection.Inspect` | box/inspect.go:32-46 | The magic decides which parser describes the file. |
| `Inspection.InspectLocatesPayload` | box/inspect.go:32-138 | Whoever unlocks a file finds its payload at the reported header size, and the slots listed are those unlocked, with their kinds and sizes. |
| `Inspection.InspectRefusesIff` | box/inspect.go:48-93 | A file with the v2 magic is refused if and only if the unlocker calls it no sindook file under every credential. |
| `Inspection.ArgonShownIff` | box/inspect.go:71-83 | Argon2id parameters of a passphrase slot are withheld if and only if no passphrase opens the slot under any lawful choice of primitives, which is when trying one never reaches the key derivation. |
| `Inspection.ArgonShownIsUsed` | box/inspect.go:71-83 | The parameters shown for a slot are those it was made with. |
| `Base64.DecodeEncoded` | internal/armor/armor.go:166-213 | Decoding inverts encoding, padding included. |
| `Base64.DecodedLength` | internal/armor/armor.go:166-213 | Accepted text is whole groups of four, three bytes each, less one byte for each padding character. |
| `Base64.DecodedSymbols` | internal/armor/armor.go:166-213 | It holds characters of the alphabet only, and padding in the last two places only. |
| `Base64.BreaksIgnored` | internal/armor/armor.go:207-211 | Line breaks anywhere in a text make no difference to what it decodes to. |
| `Formats.AlphabetSpelled` | internal/armor/armor.go:41-44 | The first half of the alphabet, character by character. |
| `Formats.AlphabetSpelledOn` | internal/armor/armor.go:41-44 | The second half. |
| `Formats.GroupBits` | internal/armor/armor.go:41-44 | The characters of a group stand for its 24 bits, the most significant first. |
| `Formats.TestVectors` | internal/armor/armor.go:41-44 | The encoder produces the test vectors of section 10 of RFC 4648. |
| `Formats.MarkersSpelled` | internal/armor/armor.go:19-20 | The two marker lines, character by character. |
| `ArmorIO.LineWriter.Write` | internal/armor/armor.go:98-119 | Breaks the text every 64 columns, counted across calls. |
| `ArmorIO.WriteAll` | internal/armor/armor.go:53-91 | The armored text depends only on the concatenation of the writes. |
| `ArmorIO.ArmorReader.Read` | internal/armor/armor.go:138-150 | Returns the next bytes of what the reader state machine yields on the whole input, or its error once they are used up. |
| `ArmorIO.ReadAll` | internal/armor/armor.go:138-213 | For every sequence of buffer sizes the reads join to what the state machine yields, and reach its error. |
| `ArmorIO.Transfer` | internal/armor/armor.go:41-213 | Any bytes, any split into writes, any buffer sizes: a prefix of the bytes comes out, and the first error is a clean end after all of them. |
| `ArmorTheorems.BodyIsLines` | internal/armor/armor.go:93-119 | The text the line writer lays out is the body cut into lines, each ended by a line feed. |
| `ArmorTheorems.LineShape` | internal/armor/armor.go:93-119 | Body lines are whole base64 groups of at most 64 columns, all but the last full, and join to the encoding of the input. |
| `ArmorTheorems.RoundTrip` | internal/armor/armor.go:152-213 | Reading armored bytes gives them back and a clean end, with or without the last line feed. |
| `ArmorTheorems.Truncation` | internal/armor/armor.go:152-213 | Every shorter prefix ends in the malformed-armor error. |
| `ArmorTheorems.AfterEnd` | internal/armor/armor.go:152-213 | A line after the end marker is an error if and only if it is not blank, and what came before it has been delivered. |
| `ArmorTheorems.BeforeBegin` | internal/armor/armor.go:152-213 | Blank lines before the begin marker are skipped, and any other is malformed. |
| `ArmorTheorems.BodyLine` | internal/armor/armor.go:152-213 | A body line is accepted if and only if no line before it was padded, it has 1 to 76 characters in groups of four, and decodes; then it adds what it decodes to. |
| `ArmorTheorems.CrLfRoundTrip` | internal/armor/armor_test.go:95-102 | Armor whose line feeds have become pairs of carriage return and line feed reads back. |
| `ArmorTheorems.BrokenSource` | internal/armor/armor.go:138-164 | Over a source that breaks off the reader never ends cleanly: it reports the source's error, unless it has refused the text before, and delivers nothing it would not have delivered otherwise. |
| `ArmorTheorems.UnfinishedLine` | internal/armor/armor.go:152-164 | What such a source gave of an unfinished line is not looked at. |
| `Decompress.LimitWriter.Write` | cmd/sindook/compress.go:44-51 | A write that would pass the limit forwards nothing and says that the limit was passed; any other forwards what the destination takes and returns the destination's error. |
| `Decompress.MoveReader` | cmd/sindook/compress.go:67-84 | Every way the goroutine can go on keeps the rule that it stops cleanly only at the end of the pipe and with everything forwarded. |
| `Decompress.WithDecompression` | cmd/sindook/compress.go:64-99 | In every interleaving the handshake ends; it returns nil if and only if both sides succeeded, never the internal sentinel, the producer's own error if it has one, and at most the limit reaches the destination. When producer and compressed stream are both good, only a failing destination or the limit can make it fail. |
| `Decompress.OnlyTheLimitUnwrapped` | cmd/sindook/compress.go:107-114 | Passing the limit is reported as such and every other failure as one of decompression, behind which the sentinel can still be told. |
| `KeyLife.RunCalls` | xwing/xwing.go:92-206 | In every interleaving of the threads' steps every call returns, and the calls in the order of their return are a run of a key used by one thread. What such a run answers is stated next. |
| `KeyLife.BeforeWipe` | xwing/xwing.go:92-206 | As long as no `Wipe` has returned, the seed is the key's own, the public key is the one it yields, what was encapsulated to it is recovered, and a ciphertext of the wrong length is refused. |
| `KeyLife.StepKeeps` | xwing/xwing.go:92-206 | Every single step, half-copied and half-wiped seeds included, keeps the invariant of key, mutex and log. |
| `KeyLife.AfterWipe` | xwing/xwing.go:107-124 | Every call that returns after a `Wipe` gets 32 zero bytes for the seed and no secret, and still the public key. |
| `KeyLife.BeganAfter` | xwing/xwing.go:107-124 | A call that began when another had returned comes after it, so that a call begun after a `Wipe` is one of these. |
| `KeyLife.WithoutWipe` | xwing/xwing.go:180-206 | When no thread wipes, every seed returned is the key's own and what was encapsulated to it is always recovered. |
| `Pool.RunPool` | cmd/sindook/open.go:308-323 | For every number of workers and every schedule of the task channel each index is processed exactly once, and results and files are the serial loop's, in operand order. |
| `Pool.RunJobs` | cmd/sindook/rotate.go:134-157 | The choice of the number of workers does not change the outcome. |
| `Pool.PoolSize` | cmd/sindook/rotate.go:117-129 | At least one worker, and more than one only for two or more operands none of which is standard input; never more than asked for or than there are operands when a number is asked for, and at most four when none is. |
| `Pool.SerialAllDone` | cmd/sindook/rotate.go:136-139 | Each operand is worked on as it was at the start, because operands are distinct files or nothing is changed. |
| `Pool.StepKeeps` | cmd/sindook/rotate.go:141-156 | Every step of a worker keeps the invariant that relates files, results and tasks in flight. |
| `Rotate.CollectRotateInputs` | cmd/sindook/rotate.go:198-234 | The operands' files, each once and in increasing order, or the error of the first operand that is refused. |
| `Rotate.CollectedAre` | cmd/sindook/rotate.go:209-231 | The files are the operands that are files and the entries of the operands that are directories, other than directories, whose names end in ".sindook". |
| `Rotate.RefusedWhen` | cmd/sindook/rotate.go:209-231 | An operand is refused if and only if it is standard input, does not exist, or is a directory that cannot be walked. |
| `Lists.LessIs` | cmd/sindook/rotate.go:232 | The order is the lexicographic one. |
| `Rotate.RotateOneRight` | cmd/sindook/rotate.go:249-268 | A row says rotated exactly when the file opened and its rewrap succeeded, and then the file is the rewrapped one; in every other case it is as before; skipped means not this identity's file. |
| `Rotate.Tally` | cmd/sindook/rotate.go:159-171 | Rotated, skipped and failed add up to the rows, and exactly the failed ones are errors. |
| `Rotate.FailuresAre` | cmd/sindook/rotate.go:159-171 | A file is among the errors if and only if it has a failed row. |
| `Rotate.CmdRotate` | cmd/sindook/rotate.go:71-157 | From operands to rows for any number of jobs: every file once, each row right, no other file touched. |
| `RotateSealed.RotatedOpens` | cmd/sindook/rotate.go:249-268 | A rotated file, fast or deep, opened under the retired identity and opens to the same plaintext under every new recipient; without a new slot it does not open. |
| `Verify.BuildIndex` | cmd/sindook/open.go:262-265 | The index holds every recorded entry under its name and nothing else. |
| `Verify.Report` | cmd/sindook/open.go:325-353 | Operand rows first and in order, then the recorded files nothing was checked for; errors are exactly the failed operands. |
| `Verify.CmdVerify` | cmd/sindook/open.go:255-353 | For any number of jobs every operand is judged, in order: intact if and only if the file opens and there is no baseline or its digest is the recorded one, changed if and only if it opens and the recorded digest differs, new if and only if it opens and is not recorded, missing if and only if it does not exist and is recorded, failed otherwise; each row carries the digest found and the recorded one; only failed operands are errors. |
| `Verify.ClassifyJudges` | cmd/sindook/open.go:404-447 | The same of the judgement of one file, against an index that is the record. |
| `Verify.InputsAre` | cmd/sindook/open.go:266-278 | The operands are those given, or else the recorded files in order, or else standard input. |
| `Verify.UncheckedAre` | cmd/sindook/open.go:338-350 | The rows added for a record are exactly its entries that no operand was named like, as missing and with their digest. |
| `Verify.FailsIff` | cmd/sindook/open.go:404-447 | Only a file that does not open fails a run, not one that drifted from the baseline, nor an absent one the baseline lists. |
| `Verify.EveryEntryReported` | cmd/sindook/open.go:338-350 | No recorded file goes unmentioned. |
| `Verify.BareBaseline` | cmd/sindook/open.go:266-275 | A run on a bare baseline lists nothing as unchecked if and only if no entry is named "-". |
| `Naming.NormalizedIsPortable` | cmd/sindook/config.go:221-253 | What normalization accepts has 1 to 64 permitted characters, begins with a letter or digit, does not end in a dot and is no Windows device name. |
| `Naming.PortableIsFixed` | cmd/sindook/config.go:221-253 | The portable names are exactly the fixed points of normalization, and a leading "@" makes no difference to them. |
| `Naming.CaseFolds` | cmd/sindook/config.go:221-253 | A portable name is what every spelling of it in upper and lower case is normalized to. |
| `Naming.ForeignLetters` | cmd/sindook/config.go:221-253 | The Kelvin sign and the dotted capital I stand for k and i, and count three and two bytes towards the limit of 64. |
| `Naming.DeviceNames` | cmd/sindook/config.go:243-253 | con, prn, aux and nul are device names, whatever follows a dot. |
| `Naming.PortNames` | cmd/sindook/config.go:243-253 | com and lpt are with a digit, if and only if it is not 0. |
| `Naming.OtherNames` | cmd/sindook/config.go:243-253 | No longer name without a dot is. |
| `Contacts.ResolveGroupMembers` | cmd/sindook/config.go:680-702 | The sorted normalized names, or the error of the first argument that is no name, not saved, or listed already. |
| `Contacts.RemainingMembers` | cmd/sindook/config.go:787-816 | The members that stay, or the names that were no members, or a refusal to empty the group. |
| `Contacts.Config.ContactsAdd` | cmd/sindook/config.go:521-552 | Saves or, when forced, replaces one contact; a refusal changes nothing. |
| `Contacts.Config.ContactsRemove` | cmd/sindook/config.go:574-602 | Removes a contact no group names. |
| `Contacts.Config.GroupAdd` | cmd/sindook/config.go:704-736 | Saves a group of saved contacts; force replaces a group, never a contact. |
| `Contacts.Config.GroupEdit` | cmd/sindook/config.go:760-823 | Adds or removes members of one group; a refusal changes nothing. |
| `Contacts.Config.GroupRemove` | cmd/sindook/config.go:825-846 | Removes one group and nothing else. |
| `Contacts.Config.PerformAll` | cmd/sindook/config.go:521-846 | After any sequence of commands, refused ones included, the book is well formed and loads. |
| `Contacts.PerformFromEmpty` | cmd/sindook/config.go:44-50 | The same for every sequence that starts from an empty configuration. |
| `Contacts.ApplyKeeps` | cmd/sindook/config.go:521-846 | Every command keeps contact and group names disjoint and portable and every group a non-empty, strictly increasing list of saved contacts. |
| `Contacts.AcceptedIff` | cmd/sindook/config.go:521-846 | For each of the six commands, the exact condition on book and arguments under which it is accepted. |
| `Contacts.WellFormedLoads` | cmd/sindook/config.go:79-134 | A well-formed book passes load validation. |
| `Contacts.LoadsIff` | cmd/sindook/config.go:79-134 | Exactly the books whose names are portable, whose keys parse and whose groups are non-empty lists of distinct portable names load. |
| `Contacts.GroupIsItsArguments` | cmd/sindook/config.go:704-736 | A new group holds exactly the contacts its arguments name. |
| `Contacts.EditedGroup` | cmd/sindook/config.go:760-823 | An edit changes the members by exactly the names given and leaves every other entry alone. |
| `Contacts.AddedContactResolves` | cmd/sindook/config.go:521-552 | A contact added, or replaced by force, is what its name then stands for (with one "@" if and only if the name is not reserved), and no other contact or group changes. |
| `Contacts.AddThenRemoveContact` | cmd/sindook/config.go:574-602 | Removing a contact just added under a new name restores the book. |
| `Contacts.AddThenRemove` | cmd/sindook/config.go:760-823 | Removing the members just added restores the book. |
| `Contacts.RemovedContact` | cmd/sindook/config.go:574-602 | Removing a contact removes it and no other, and only when no group lists it. |
| `Contacts.RemovedGroup` | cmd/sindook/config.go:825-846 | Removing a group removes it and no other. |
| `Contacts.LoadRecipientKeys` | cmd/sindook/keys.go:261-307 | The loop that finds repeated keys by their text returns the first occurrence of every key, or the error of the first unusable member. |
| `Contacts.GroupExpands` | cmd/sindook/keys.go:261-307 | Every group expands to exactly its members' keys, each once; "@" and its name reach it if and only if the name is none of default, me and self, and a second "@" reaches it always. |
| `Contacts.OtherRecipients` | cmd/sindook/keys.go:261-307 | Reserved names and strings without "@" are single recipients, an unknown name is an error, and a group with members that are not saved is refused with the name of the first of them. |

## Left out

- The primitives and randomness: keys, nonces, salts and encapsulation coins are parameters. The laws are idealised: X-Wing decapsulation never fails by chance and deriving a key never returns an error. The byte layout inside X-Wing is not modelled.
- Zeroization, except of the old payload key in a deep rewrap and of the seed in the key's life; a wiped identity given to the box is only modelled in `KeyLife`.
- A source that returns no bytes and no error; both payload loops share one model of their chunk read, `Payload.ReadChunk`.
- `ArmorTheorems.RoundTrip`: is about bytes, so white space outside ASCII is never trimmed from an armor line. Accepted armor need not be canonical, and no uniqueness is claimed.
- `detectArmor`, which peeks at 64 bytes, and `IsArmored`: not equivalent to the reader, and easy.
- `Decompress.LimitWriter.Write`: the counter is unbounded, where the source's could overflow after 2^63 bytes.
- `Decompress.WithDecompression`: the decompressor is any consumer that may give up at any time and otherwise ends at the end of the pipe, and what it forwards before it has read enough is not ruled out; gzip itself is not modelled, nor `gzipCompress` and `parseSize`.
- `Pool.RunPool`: distinct paths are distinct files (no links), nothing else changes them meanwhile, and one job reads and replaces a file in one step each. Standard input is a file like any other; that it can be read only once is not modelled, so the empty operand, which the worker count does not recognise as standard input, is not covered.
- `Rotate.RotateOneRight`: the temporary file, permissions and rename behind an in-place rewrap are one step; armored operands are covered only as an arbitrary rewrap function.
- `Verify.CmdVerify`: file sizes, times, the saved baseline file and the printed forms are left out.
- `Naming.PortableIsFixed`: names are sequences of Unicode characters; a name that is not valid UTF-8, which the source refuses for its characters, is not representable.
- `Contacts.Config.PerformAll`: the dates of entries and the default identity are left out, and commands follow each other on one file that is always written successfully.
- Terminal, JSON output, flags, file system, permissions, shredding, network recipients and the Windows-specific code.
