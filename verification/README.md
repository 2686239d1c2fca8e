# Verification of the K-FSW ground stack and its text formats

A Dafny model of the parts of the K-FSW repository where bytes and text are taken apart and
put together, with machine-checked proofs of what they promise. `dafny verify dfyconfig.toml`
checks everything.

Methods follow the loops and the in-place updates of the source statement by statement and are
proved against functions; the lemmas then say what those functions mean, against a definition
of their own wherever there is one: long division for the checksum, an unbounded history for the
duplicate filter, a grammar for numbers and tokens, trees for balanced text, serialisations for
images and samples.

| module | models |
|---|---|
| `Basics` | optional values, joined text, sequences alike outside a window, division with remainder |
| `Bits` | binary digits, byte orders, bitwise or, Python slices |
| `Crc32`, `CrcPolynomials`, `CrcDivision`, `CrcBursts`, `CrcSlip` | the table-driven CRC-32C, polynomial division, which bursts it detects and which it cannot |
| `Kiss`, `Csp`, `Housekeeping`, `Collect`, `RecentSamples` | `hk-bridge.py`: framing, headers, the doubly checked frame, one poll, the duplicate filter |
| `FirmwareFixture` | the packet exchange of the smoke tests |
| `CText`, `HkEntries`, `HkDefine` | `strtoul`, the entry parser, the local and the remote route of `hk define`, the printed line |
| `Shapes`, `StripComments`, `SplitArgs`, `Braces` | the lexers of `icd-source.py` and the trees they are measured against |
| `SignedImage` | the MCUboot image check and the partition map |
| `LossyLink`, `PacedRelay`, `HkStore`, `FtpDiagnostics` | byte loss, line pacing, the gap view, the file diagnostics |

Checksum registers are sequences of 32 digits, lowest first. The CSP version, the housekeeping
port and the polynomial travel together in a `Wire` record; `Housekeeping.Crc32c` is the setting
in use, and every lemma that needs its leading coefficient asks for just that digit.

What the proofs brought to light:

- 32 consecutive binary digits, in the order a serial line sends them, is the exact burst length
  that frames with the CRC flag are protected against, four whole bytes included. The polynomial
  itself is a burst of 33 digits that no checksum of this kind notices
  (`Housekeeping.BurstBoundIsTight`, `Housekeeping.TamperedDigits`). With the flag clear the bound
  is already broken by four bytes, in every accepted frame, because the register shifts its low
  digits out first while the four bytes go out high first (`Housekeeping.OneChecksumIsNotEnough`).
- `packets` slices six header bytes whatever the CSP version, so it reads a sent packet back if
  and only if the version is CSP 2 (`FirmwareFixture.ReadBackNeedsCsp2`). It checks no length
  either: some frames of 8 to 13 bytes, eight zero bytes among them, come out as empty packets
  (`FirmwareFixture.ShortFrameExact`, `FirmwareFixture.ZeroFrame`).
- The two routes of `hk define` are not the same. `HkDefine.RoutesExact` says for every list of
  non-empty space-free words what the joined route does, and they part in three ways only: after
  a class word with nothing but white space behind `class=`, `strtoul` skips the joining space
  and takes the class from the next word (`HkDefine.BlankClassParts`); an entry word of 24 or
  more characters fits the local parser and not the token buffer of the list
  (`HkDefine.LongWordParts`); and a text over the limit is not sent (`HkDefine.LongTextParts`).
- `class=` takes what `strtoul` takes, a minus included: -0 is class 0, and the seven numbers from
  ULONG_MAX - 6 to ULONG_MAX wrap around to the classes 7 to 1 behind a minus; no other negative
  number is a class (`HkDefine.NegativeClassExact`).
- The gap view reports a reception that repeats a sequence number as 65535 missing samples
  (`HkStore.RepeatIsAGap`); it is exact for counter steps of 1 to 65536 and for nothing else
  (`HkStore.MissingExact`).
- The relay's documentation gives each direction its own rate. The code sleeps for both in one
  thread, so both directions together stay within it (`PacedRelay.WindowBound`), and the budgets
  it keeps never change the instant of a write (`PacedRelay.WriteExact`).
- A bad escape makes the KISS reader drop everything up to the next FEND, where the KISS
  specification would go on; the model follows the code.

## Model

| member | source | states |
|---|---|---|
| `Crc32.BuildTable` | tools/ground/hk-bridge.py:170-176 | The nested loops fill all 256 places, and place i holds what eight single-bit divisions make of i. |
| `Crc32.Compute` | tools/ground/hk-bridge.py:179-184 | The table loop over any bytes, from all ones and with the final complement, returns four bytes that are the specified checksum, most significant byte first. |
| `Crc32.ByteStepIsEightSteps` | tools/ground/hk-bridge.py:170-183 | For every register and byte, one table lookup with its shift equals eight single-bit steps on the register with the byte xored in: the fast form refines the slow one. |
| `CrcDivision.DivideOnce` | tools/ground/hk-bridge.py:175 | A single-bit step is one digit of schoolbook division over GF(2): cancelling the leading coefficient leaves the remainder unchanged. |
| `CrcDivision.RegisterIsRemainder` | tools/ground/hk-bridge.py:181-183 | For every start value and message the register is the remainder of dividing the message times x^32, with the start value added to its first coefficients, by x^32 + P. |
| `CrcDivision.ChecksumIsDivision` | tools/ground/hk-bridge.py:179-184 | For every byte sequence the four bytes, read most significant first, are the complemented remainder of the polynomial division of section 12.1 of RFC 3720, computed by an independent long division, and each byte is its own eight digits of it. |
| `CrcPolynomials.CastagnoliPowers` | tools/ground/hk-bridge.py:170 | The digits of the constant are the powers of the CRC-32C generator polynomial, from 28 down to 0. |
| `CrcPolynomials.IeeePowers` | app/src/diagnostics/ftp_diagnostics.c:52 | The same for the CRC-32 polynomial of section 8 of RFC 1952. |
| `Crc32.StepsLinear` | tools/ground/hk-bridge.py:175 | Any number of steps distributes over xor. |
| `Crc32.StepsInjective` | tools/ground/hk-bridge.py:170-175 | With a leading coefficient of one, any number of steps is one-to-one. |
| `CrcBursts.BurstChangesChecksum` | tools/ground/hk-bridge.py:179-184 | Two messages of one length whose binary digits, in the order of the division, differ only inside 32 consecutive ones, which may lie in five bytes, have different checksums. |
| `CrcBursts.RemainderLinear` | tools/ground/hk-bridge.py:170-184 | The remainder of a sum of dividends is the sum of their remainders. |
| `CrcBursts.FlipGoesUnnoticed` | tools/ground/hk-bridge.py:179-184 | In every message five consecutive bytes can be changed, in 33 consecutive digits, so that the checksum stays: 32 is the best bound there is. |
| `CrcSlip.SlippedChecksum` | tools/ground/hk-bridge.py:170-184 | For every message the last byte can be changed so that the checksums differ in their first three bytes only, because the register shifts low digits out first and the bytes are sent high ones first. |
| `Kiss.KissEncode` | tools/ground/hk-bridge.py:76-86 | The loop writes FEND, the data type, the escape of every byte in order, and FEND. |
| `Kiss.EncodeExact` | tools/ground/hk-bridge.py:76-86 | Wherever it stands, C0 becomes DB DC, DB becomes DB DD and any other byte stays itself, between C0 00 and C0. |
| `Kiss.KissReader.Feed` | tools/ground/hk-bridge.py:98-129 | On the four fields the method does what running the reader over the bytes does: same state, same frames, from any state. |
| `Kiss.ChunksDoNotMatter` | tools/ground/hk-bridge.py:98-129 | However a stream is cut into chunks, state and frames are those of the whole stream. |
| `Kiss.RunExplained` | tools/ground/hk-bridge.py:92-129 | In every reachable state of a started reader the stream ends in exactly the encoded bytes that the fields describe, and the collected frame is within the cap. |
| `Kiss.Recognition` | tools/ground/hk-bridge.py:76-129 | Exact recognition: a byte makes the reader emit a frame if and only if the stream up to it ends in that frame's encoding and the frame's length is within 1 and the cap. |
| `Kiss.EncodingUnique` | tools/ground/hk-bridge.py:76-86 | A stream ends in the encoding of at most one non-empty frame. |
| `Kiss.ReadEncoded` | tools/ground/hk-bridge.py:76-129 | After any stream an encoded frame comes out whole, or not at all when it is empty or too long, preceded only by what a FEND would have flushed. |
| `Kiss.Resynchronise` | tools/ground/hk-bridge.py:76-129 | After any garbage, a list of encoded frames comes out complete, in order and unchanged, apart from those that are empty or over the cap. |
| `Csp.PackedSum1` | tools/ground/hk-bridge.py:132-136 | For fields within their widths the or of the shifted CSP 1 fields is their sum at the bit positions of the layout: no two overlap. |
| `Csp.PackedSum2` | tools/ground/hk-bridge.py:137-145 | The same for the 48-bit CSP 2 layout. |
| `Csp.EncodeInRange` | tools/ground/hk-bridge.py:132-145 | Fields within their widths never overflow, fill four or six bytes, and the bytes read big endian are the packed number. |
| `Csp.HeaderRoundTrip` | tools/ground/hk-bridge.py:132-165 | A header in front of any bytes is parsed back unchanged if and only if every field fits its width, for both versions. |
| `Housekeeping.CastagnoliIsMonic` | tools/ground/hk-bridge.py:170 | The polynomial in use has the leading coefficient that makes its steps one-to-one. |
| `Housekeeping.ValidExact` | tools/ground/hk-bridge.py:252-263 | A sample passes validation if and only if it is the packing of fields that fit, with the clock flag set exactly for zero seconds and at least one byte for every value. |
| `Housekeeping.ProblemExact` | tools/ground/hk-bridge.py:252-263 | Which rule an invalid sample is refused for, in its bytes: the first it breaks. |
| `Housekeeping.UnsealExact` | tools/ground/hk-bridge.py:218-226 | The check of the last four bytes succeeds with a payload exactly on that payload followed by its checksum. |
| `Housekeeping.DecodeExact` | tools/ground/hk-bridge.py:201-232 | A frame is accepted as a sample if and only if port and source match, the sample is valid, and the body is the sample sealed twice (flag set) or once (flags zero). |
| `Housekeeping.RefusalExact` | tools/ground/hk-bridge.py:201-226 | A frame is ignored without a fault exactly when it is long enough and from another port or node; it is short, has unsupported flags, is not sealed at all or not sealed twice exactly when it is dropped for that. |
| `Housekeeping.CapIsTight` | tools/ground/hk-bridge.py:126-128 | After any stream a payload of up to 240 bytes with both checksums comes out of the reader with its header; with one byte more nothing comes out. |
| `Housekeeping.SampleTransport` | tools/ground/hk-bridge.py:76-232 | Every valid sample, sealed twice behind any header that fits, in CSP 1 or CSP 2, passes escaping, reassembly, header parsing and both checks unchanged. |
| `Housekeeping.SealedWindow` | tools/ground/hk-bridge.py:187-198 | Payloads sealed twice whose digits agree outside any 32 consecutive ones, also across the boundary to either checksum, are equal. |
| `Housekeeping.BurstDetected` | tools/ground/hk-bridge.py:201-232 | Two accepted frames of one length with one header and the CRC flag set are equal or differ over more than 32 consecutive digits, in the order a serial line sends them. |
| `Housekeeping.FourBytesDetected` | tools/ground/hk-bridge.py:201-232 | In whole bytes and with CRC-32C: such frames are equal or differ over more than four consecutive bytes. |
| `Housekeeping.BurstBoundIsTight` | tools/ground/hk-bridge.py:201-232 | In every accepted frame any five consecutive value bytes can change so that the frame is still accepted. |
| `Housekeeping.TamperedDigits` | tools/ground/hk-bridge.py:201-232 | That change is confined to 33 consecutive digits. |
| `Housekeeping.OneChecksumIsNotEnough` | tools/ground/hk-bridge.py:215-226 | With the CRC flag clear, every accepted frame can change inside four consecutive bytes and still be accepted: the bound needs both checksums. |
| `Collect.RequestArrives` | tools/ground/hk-bridge.py:187-198 | A request comes out of a reader as one frame with the right header, both checksums hold, and the payload inside is version 1, the report, the count and two zero bytes, or 255 for the report and the class mask behind them. |
| `Collect.RepliesConcat` | tools/ground/hk-bridge.py:278-290 | Replies come in the order of their frames, whatever the batches. |
| `Collect.OneReply` | tools/ground/hk-bridge.py:279-290 | A frame yields the sample it carries, whoever asked, marked exactly when it answers this request, and nothing if it carries none. |
| `Collect.MatchedExact` | tools/ground/hk-bridge.py:283-289 | The samples counted are exactly those of the frames that carry a sample to this bridge and this request's port, with the report asked for unless a class mask is set. |
| `Collect.ReplyCounts` | tools/ground/hk-bridge.py:283-289 | A reply packed from header and sample fields counts if and only if its destination is the bridge, its port the request's, and a mask is set or its report the one asked for. |
| `Collect.MatchedGrows` | tools/ground/hk-bridge.py:272-289 | The distinct matching samples of two batches are the union of both, so their number never falls. |
| `Collect.Sift` | tools/ground/hk-bridge.py:278-290 | The inner loop yields exactly the decoded samples of the frames, and adds the matching ones only when something was asked. |
| `Collect.Poll` | tools/ground/hk-bridge.py:266-292 | Writes the request when asking and nothing otherwise; yields in stream order what the reads made so far contain; stops before the deadline only with enough distinct answers and then at once; ends normally exactly when all reads together hold enough, else reports how many came. |
| `Collect.ReadsDoNotMatter` | tools/ground/hk-bridge.py:277-290 | The replies depend on the bytes and not on how reads cut them. |
| `RecentSamples.RecentSamples.Accept` | tools/ground/hk-bridge.py:301-310 | Answers false exactly when the same node and sample is among the last 1024 acceptances and less than 60 s old; the whole new store and history are stated, and the invariant is kept. |
| `RecentSamples.DuplicateExact` | tools/ground/hk-bridge.py:295-310 | A duplicate is an equal node and sample at most 1024 acceptances back and less than 60 seconds old. |
| `RecentSamples.AcceptAgrees` | tools/ground/hk-bridge.py:301-310 | One call on an agreeing store answers as the history does and leaves a store that still agrees and holds at most 1024 entries. |
| `RecentSamples.FilterRefinesHistory` | tools/ground/hk-bridge.py:295-310 | Over every run with a clock that never goes back, all answers equal those of a history that forgets nothing, and the store is always a duplicate-free end of that history. |
| `FirmwareFixture.Packets` | tests/firmware_fixture.py:78-87 | The receiving loop yields exactly the packets of the frames in the whole stream, whatever the reads. |
| `FirmwareFixture.PacketExact` | tests/firmware_fixture.py:82-87 | A frame of at least 14 bytes is received as a packet if and only if what follows its first six bytes is the payload sealed twice and the header is the parsed one; otherwise it is skipped. |
| `FirmwareFixture.ShortFrameExact` | tests/firmware_fixture.py:82-87 | A shorter frame is received exactly as an empty packet and exactly when it has eight bytes or more, four zero bytes before the last four, and the checksum of as many zero bytes as lie between in the last four. |
| `FirmwareFixture.ZeroFrame` | tests/firmware_fixture.py:82-87 | Eight zero bytes are received as an empty packet. |
| `FirmwareFixture.PacketReadBack` | tests/firmware_fixture.py:72-87 | With CSP 2 a sent frame is read as the packet it carries. |
| `FirmwareFixture.ReadBackNeedsCsp2` | tests/firmware_fixture.py:82-87 | A sent packet is read back as it was sent if and only if the version is CSP 2, because the slices count six header bytes; for an empty payload this rests on CRC-32C telling two zero bytes from four. |
| `FirmwareFixture.Exchange` | tests/firmware_fixture.py:72-87 | After any garbage, in any chunks, all packets with payloads up to 240 bytes come out complete, in order and unchanged, preceded only by what the garbage itself yielded and at most one leftover. |
| `CText.WordsOfJoin` | app/src/hk_entries.c:71-96 | Splitting a space-joined list of words gives the words back. |
| `CText.StrtoulOnField` | app/src/hk_entries.c:26-33 | On a field that starts with a digit, strtoul base 0 consumes the whole field exactly when the field is a C number, and then returns its value, or ULONG_MAX with ERANGE when it is larger (section 7.22.1.4 of ISO C11). |
| `CText.StrtoulExact` | app/src/hk_entries.c:114 | On any field up to a space, white space, sign and digits included, strtoul consumes the whole field exactly when it is white space, a sign and a C number, and then gives the number, ULONG_MAX if it is larger, or its negation modulo ULONG_MAX + 1. |
| `CText.SignedField` | app/src/hk_entries.c:114 | White space and a plus in front of a C number change nothing, a minus wraps its value around, and a larger number than ULONG_MAX gives ULONG_MAX. |
| `CText.SpaceExact` | app/src/hk_entries.c:114 | The white space that strtoul skips is space, tab, line feed, vertical tab, form feed and carriage return. |
| `CText.DigitExact` | app/src/hk_entries.c:30 | The digits of every base up to 16 are 0 to 9 and a to f in both cases, each worth its place. |
| `HkEntries.ReadFields` | app/src/hk_entries.c:23-40 | The field loop ends at the end of the text if and only if the text has one to three colon-separated fields, each a C number of at most 16 bits, and then the parts are their values. |
| `HkEntries.ParseEntry` | app/src/hk_entries.c:13-55 | Zero exactly when the text is [node:]table:offset in range, and then the entry has the node, or the local one, and table and offset; other entries stay. |
| `HkDefine.ThreeFieldsRead` | app/src/hk_entries.c:13-55 | node:table:offset in decimal is read as exactly these three when the node has 16 bits, the table 8 and the offset is within its limit, and refused otherwise. |
| `HkDefine.CapitalPrefix` | app/src/hk_entries.c:30 | A hexadecimal number reads alike behind 0x and 0X. |
| `HkDefine.OctalIsNumber` | app/src/hk_entries.c:30 | A numeral behind a zero is octal. |
| `HkEntries.CodeExact` | app/src/hk_entries.c:57-103 | The code is 0 exactly for 1 to max good words, and -E2BIG exactly when max good words are followed by one more that fits the token. |
| `HkEntries.ParseEntries` | app/src/hk_entries.c:57-103 | The scanning loop returns the code of the words of the text, fills the entries elementwise in order and no further, and writes the count on success only. |
| `HkEntries.NoClass` | app/src/hk_entries.c:110-113 | A text that does not begin with class= has the default class and is left whole. |
| `HkEntries.ClassExact` | app/src/hk_entries.c:105-127 | For every class field that is not white space only in front of other words (HkDefine.ClassBehind settles that case): rejected with -EINVAL unless strtoul takes it whole, with -ERANGE if the value is above 7, else accepted as that class with the text behind the spaces as the rest. |
| `HkEntries.ClassIsNumber` | app/src/hk_entries.c:105-127 | class=N for a field that starts with a digit is class N exactly for whole C numbers of at most 7, -ERANGE for larger ones and -EINVAL for anything else. |
| `HkDefine.ClassBehind` | app/src/hk_entries.c:114-125 | Behind class= any white space makes no difference: what follows it is read with the same result. |
| `HkDefine.LocalDefine` | app/src/shell/shell_hk.c:133-157 | Succeeds exactly when the words parsed one by one define a report, with that class and those entries. |
| `HkDefine.JoinWords` | app/src/shell/shell_hk.c:96-107 | The bounded buffer holds the joined words exactly when they fit; otherwise -E2BIG. |
| `HkDefine.RemoteDefine` | app/src/commands/command_definitions.c:258-275 | Succeeds exactly when the received text defines a report, with that class and those entries. |
| `HkDefine.SendDefine` | app/src/shell/shell_hk.c:96-108 | Joining and then parsing on the other side succeeds exactly when the joined route defines a report, with that class and those entries. |
| `HkDefine.RoutesExact` | app/src/shell/shell_hk.c:80-157 | For every list of non-empty space-free words the joined route gives what the local route gives for the list with blank class words merged into the next word, and fails when the text is over its limit or an entry word has 24 or more characters. |
| `HkDefine.RoutesAgree` | app/src/shell/shell_hk.c:80-157 | For non-empty space-free words whose first is not a blank class word, the joined route gives what the local route gives, with the same class and entries, if and only if the local route fails too or the text fits its limit and every entry word has at most 23 characters. |
| `HkDefine.ClassAgrees` | app/src/hk_entries.c:105-127 | A class word is read with one result alone and in front of any other words. |
| `HkDefine.BlankClassParts` | app/src/hk_entries.c:111-116 | With only white space after class= the routes differ: the list is rejected where it is typed, and sent as text the next word becomes the class. |
| `HkDefine.LongWordParts` | app/src/hk_entries.c:83-85 | A good entry word padded to 24 or more characters is accepted where it is typed and never where it is sent. |
| `HkDefine.LongTextParts` | app/src/shell/shell_hk.c:101-105 | A list of good short words that fill more than the text limit is accepted where it is typed and not sent. |
| `HkDefine.NegativeClassExact` | app/src/hk_entries.c:114-121 | A minus and a C number are a class if and only if the number is 0 or one of the seven up to ULONG_MAX, and then class 0 or its negation modulo ULONG_MAX + 1; every other one is out of range. |
| `HkDefine.NegativeClass` | app/src/hk_entries.c:114-121 | Each class from 1 to 7 is also accepted as class=-N with N in decimal, ULONG_MAX + 1 minus the class. |
| `HkDefine.ClassWordExact` | app/src/shell/shell_hk.c:133-141 | Of the class words exactly those with something other than white space after the equals sign are safe, meaning that the routes agree whatever following words the joined route has room for. |
| `HkDefine.PrintedEntryReads` | tools/ground/hk-report.py:66 | A printed entry is one word, and it is read as its table and offset exactly when the table is at most 255 and the offset within its limit. |
| `HkDefine.PrintedReadsBack` | tools/ground/hk-report.py:65-68 | A printed list is read back by the parser exactly when it holds 1 to max entries that all fit, and then elementwise in order. |
| `HkDefine.PrintedLocally` | tools/ground/hk-report.py:65-68 | The printed words, typed where the report is defined, define it exactly when there are at most max entries that all fit, elementwise in order and with the default class. |
| `StripComments.StripComments` | tools/docs/icd-source.py:22-50 | The index-driven loops end on every text and write what the tokens of the text call for. |
| `StripComments.TokensCover` | tools/docs/icd-source.py:22-50 | The tokens put together are the text: nothing between them is lost. |
| `StripComments.LexExact` | tools/docs/icd-source.py:26-49 | The tokens are the only way to cut the text into literals, comments and plain characters by their grammar: closed ones anywhere, open ones at the end only, a line comment up to its newline. |
| `StripComments.StripBlanksComments` | tools/docs/icd-source.py:22-50 | The stripped text has the same tokens in the same places with one space for each comment. |
| `StripComments.StripIsClean` | tools/docs/icd-source.py:22-50 | No comment is left, all string literals are, byte for byte and in order, and stripping twice is stripping once. |
| `SplitArgs.Split` | tools/docs/icd-source.py:100-131 | The loop returns the stripped pieces between top-level commas, or fails exactly on a backslash that ends the text inside a string. |
| `SplitArgs.PiecesCover` | tools/docs/icd-source.py:100-131 | The raw pieces joined by commas are the text. |
| `SplitArgs.ScanExact` | tools/docs/icd-source.py:104-131 | The scanner's cut is the only one: a list of pieces is what it finds if and only if, joined by commas, they are the text, no piece holds a top-level comma, and the scanner is at depth zero outside strings after every piece but the last. |
| `SplitArgs.ArgumentsExact` | tools/docs/icd-source.py:100-131 | The result is the stripped pieces of that cut in order, without the last if nothing is in it. |
| `SplitArgs.StripTrims` | tools/docs/icd-source.py:124 | Stripping removes white space at both ends and nothing else. |
| `SplitArgs.BlankExact` | tools/docs/icd-source.py:124 | White space is the 29 characters that str.strip takes. |
| `SplitArgs.ShapeIsOnePiece` | tools/docs/icd-source.py:106-128 | A balanced text, any commas inside its brackets and literals, is one piece at every depth and leaves the depth as it was. |
| `SplitArgs.SplitUndoesJoin` | tools/docs/icd-source.py:100-131 | Splitting a comma-space join of arguments that are one piece and trimmed gives the arguments. |
| `SplitArgs.SplitUndoesJoinOfShapes` | tools/docs/icd-source.py:100-131 | The same for all non-empty trimmed arguments given as bracket trees without top-level commas. |
| `Braces.FindBalanced` | tools/docs/icd-source.py:387-406 | The loop finds the first opener and stops where the depth returns to zero or the text ends; without an opener there is no block. |
| `Braces.WalksShape` | tools/docs/icd-source.py:391-405 | Over any balanced body, with braces and quotes inside literals, the scan keeps its depth whatever stands around it. |
| `Braces.FindsBlock` | tools/docs/icd-source.py:387-406 | The block of a balanced body is returned with exactly that body, and the end just behind its brace. |
| `Braces.BlockExact` | tools/docs/icd-source.py:387-406 | The scan of a block ends at depth zero with a body if and only if that body is a balanced text followed by a closing brace. |
| `Braces.UnfinishedBlock` | tools/docs/icd-source.py:391-406 | A block whose brace is never closed ends with the text, and its body is the rest of the text without its last character, or with it when an escape ends the text. |
| `Braces.ListBlocks` | tools/docs/icd-source.py:471-480 | The enumeration loop ends on every text and returns the blocks found one behind the other. |
| `Braces.ListsAllBlocks` | tools/docs/icd-source.py:471-480 | A sequence of n balanced blocks with anything brace-free between them is listed completely and in order. |
| `SignedImage.TlvsExact` | tools/f746-validate.py:66-75 | The walk succeeds with a list exactly on that list's serialisation, with distinct kinds, no empty value, no gap and no padding. |
| `SignedImage.WalkTlvs` | tools/f746-validate.py:66-75 | The loop ends with the entries exactly when the walk succeeds. |
| `SignedImage.Validate` | tools/f746-validate.py:55-83 | The checks in their order give the specified verdict on every input, never reading past the end. |
| `SignedImage.AcceptedExact` | tools/f746-validate.py:55-83 | For every claimed header size a file is accepted with a digest if and only if it is the serialisation of header, payload and exactly the entries 0x01, 0x10 and 0x22, within the limit, where 0x01 holds the hash of the key, 0x10 that of the signed part, the key is P-256 and 0x22 holds a signature that verifies; the digest is the hash. |
| `SignedImage.RefusedForItsValues` | tools/f746-validate.py:77-82 | A file whose parts fit is refused for the image hash, the signing key, the kind of key or the signature exactly when that is the first that does not vouch for it. |
| `SignedImage.MagicBytes` | tools/f746-validate.py:57-64 | The image begins with 3D B8 F3 96 and its entries with 07 69. |
| `SignedImage.EndBehindHeader` | tools/f746-validate.py:57-65 | Whatever size the header claims, in a file whose fields and entries fit the entries begin behind the twenty header bytes that are read. |
| `SignedImage.EntryPointExact` | tools/f746-validate.py:47-50 | The entry address is an even number a exactly when the bytes are those of a 32-bit little-endian ARM executable whose entry field is a or a + 1. |
| `SignedImage.EntryInPayload` | tools/f746-validate.py:51-52 | For a well-formed image the entry check says exactly that the program starts in a byte of the payload. |
| `SignedImage.MapExact` | tools/f746-validate.py:16-18 | The four partitions by their first and last addresses. |
| `SignedImage.EntryInOnePartition` | tools/f746-validate.py:16-52 | The entry address of an accepted image within its slot, after the entry check, lies in that partition and in no other. |
| `SignedImage.BootEntryInOnePartition` | tools/f746-validate.py:47-52 | The same for the bootloader, which has no image header. |
| `LossyLink.Link.Forward` | tests/support/lossy-link.py:134-144 | The byte loop outputs exactly the bytes whose running number n, counted over both directions, has n mod (E + D) < E; every byte is forwarded or dropped. |
| `LossyLink.Link.Watch` | tests/support/lossy-link.py:94-111 | Download chunks are counted up to the limit, the pass ends with the one that reaches it, and it never ends twice. |
| `LossyLink.CountsExact` | tests/support/lossy-link.py:94-102 | A download chunk is a frame with at least twelve payload bytes from port 9 that begin with 1 and 14. |
| `LossyLink.Link.Handle` | tests/support/lossy-link.py:92-146 | A chunk is lost whole while deaf and thinned otherwise; bytes read stay forwarded plus dropped; the link goes deaf exactly with the chunk whose frames make up the number. |
| `LossyLink.Link.Turn` | tests/support/lossy-link.py:75-147 | One turn of the loop accounts for every byte of every chunk; deafness ends by the clock first, and unless the pass ends in this turn the chunks of both sides are lost together or thinned like one stream. |
| `LossyLink.EndOfRun` | tests/support/lossy-link.py:141-144 | The test on the forwarded count strikes exactly at the end of each stretch of E bytes. |
| `LossyLink.KeptConcat` | tests/support/lossy-link.py:134-144 | Chunk boundaries make no difference to what goes through. |
| `LossyLink.KeptCount` | tests/support/lossy-link.py:67-72 | Of N bytes heard, N / (E + D) * E + min(N mod (E + D), E) go through. |
| `LossyLink.PositionsExact` | tests/support/lossy-link.py:134-144 | The places kept are in rising order exactly those not lost. |
| `LossyLink.KeptIsSubsequence` | tests/support/lossy-link.py:134-146 | The output is the input read at those places: an order-preserving subsequence. |
| `HkStore.Store.Record` | tools/ground/hk_store.py:94-115 | A reception is appended with node, report and the big-endian sequence of its header, the table stays fit for the view, and the view grows by the gap before this reception in its own series and in no other. |
| `HkStore.ViewOfSeries` | tools/ground/hk_store.py:54-67 | What the view shows of one node and report is what that series shows alone: other series, however interleaved, change nothing. |
| `HkStore.GapsExact` | tools/ground/hk_store.py:54-67 | The rows of a series are exactly its pairs of neighbours with something between them: after, before, and the number missing from one to the other modulo 65536. |
| `HkStore.MissingExact` | tools/ground/hk_store.py:59-67 | A counter step is reported as step - 1 if and only if it is 1 to 65536; no row appears exactly for steps of 1 modulo 65536; a step of 0 or any whole number of laps is reported as 65535. |
| `HkStore.RepeatIsAGap` | tools/ground/hk_store.py:54-67 | A sample that is received twice in a row shows in the view as a gap of 65535. |
| `HkStore.MissingIsNeverHeard` | tools/ground/hk_store.py:54-67 | For a counter that rises by 1 to 65536 the missing values add up to the number of counter values never heard. |
| `HkStore.ReportLosses` | tools/ground/hk_store.py:54-67 | The same for the rows of one report inside any table. |
| `HkStore.OneReception` | tools/ground/hk_store.py:54-67 | One more row adds to the view of its own series the gap from the last reception there, if there is one, and nothing to any other series. |
| `PacedRelay.Relay` | tests/hil/resources/4800baud_link.py:20-34 | Up to the first empty read the loop writes every chunk it reads, in order, when its budget allows, or at once when there is no rate. |
| `PacedRelay.WriteExact` | tests/hil/resources/4800baud_link.py:31-34 | Every write happens exactly its line time, and the lateness of its sleep, after its clock was read: no budget ever adds to that. |
| `PacedRelay.OneApart` | tests/hil/resources/4800baud_link.py:31-34 | Every write comes at least its own line time after the write before, on either side. |
| `PacedRelay.UnpacedAtOnce` | tests/hil/resources/4800baud_link.py:30-34 | Without a rate every chunk is written at the moment it is read. |
| `PacedRelay.WindowBound` | tests/hil/resources/4800baud_link.py:16-34 | Writes inside any window of length w carry at most rate * w + 256 bytes, in one direction and in both together. |
| `PacedRelay.StartBound` | tests/hil/resources/4800baud_link.py:16-34 | From the start at most rate * elapsed bytes are written. |
| `FtpDiagnostics.PatternSteps` | app/src/diagnostics/ftp_diagnostics.c:45-47 | The pattern begins with 7 and grows by 31 modulo 256 from byte to byte. |
| `FtpDiagnostics.WrapIsHarmless` | app/src/diagnostics/ftp_diagnostics.c:45-47 | The 32-bit wrap of offset, product and sum never shows in the low byte. |
| `FtpDiagnostics.UpdateConcat` | app/src/diagnostics/ftp_diagnostics.c:52 | Updating chunk by chunk is updating with the whole. |
| `FtpDiagnostics.UpdateFromZero` | app/src/diagnostics/ftp_diagnostics.c:32-52 | From zero the update is the CRC-32 of section 8 of RFC 1952 of all bytes. |
| `FtpDiagnostics.Generate` | app/src/diagnostics/ftp_diagnostics.c:26-68 | Returns the code of the first step that fails; on success the file is (31 i + 7) mod 256 at every i below the size and the checksum is the CRC-32 of the whole file, for every 32-bit size. |
| `FtpDiagnostics.Compare` | app/src/diagnostics/ftp_diagnostics.c:70-126 | Returns the code of the first call that fails, a read of either file included, the first file winning a tie; else -EILSEQ for files that differ in content or length, and zero for equal files. |

## Left out

- Input and output: sockets, serial ports, selectors, SQLite, JSON and files are chunk sequences, a row list, a byte sequence with a cursor, or parameters; a poll receives the reads made before its deadline as a list.
- Clocks: time is a real number handed in, so rounding of floating-point seconds is not modelled.
- Integer widths of Python and SQL: unbounded in the source too; the 32-bit wrap of `ftp_diagnostics.c`, the 16-bit limits of the entry parser and ULONG_MAX are written out.
- Csp.HeaderRoundTrip: header fields are natural numbers; a negative field is not modelled.
- Housekeeping.BurstDetected: stated for every polynomial with a leading coefficient of one, which `Housekeeping.CastagnoliIsMonic` shows CRC-32C to have; `Housekeeping.FourBytesDetected` is the instance in use.
- Collect.Poll: the host time that comes with each sample and the message printed for a dropped frame are not modelled; the reads after the deadline are those not in the list.
- RecentSamples.RecentSamples.Accept: the clock must not run backwards between calls, as `time.monotonic` promises.
- FirmwareFixture.Exchange: for CSP 2 only, since it does not hold for CSP 1 (`FirmwareFixture.ReadBackNeedsCsp2`).
- HkEntries.ParseEntry: null pointers are not modelled; KFSW_HK_NODE_LOCAL, KFSW_PARAM_OFFSET_MAX, KFSW_HK_CLASS_DEFAULT and KFSW_PARAM_ID come from another repository and are parameters of the build, of any value.
- HkEntries.ParseEntries: the token buffer and the out-parameters are a string, an array and a counter object; what a failed call leaves in the entries is not stated.
- HkDefine.RoutesExact: a quoted shell word that is empty or holds a space is not covered.
- HkDefine.LocalDefine: the report number, the node argument, `--retry` and the call that stores the definition are not modelled, and of the error codes only zero or not zero is stated.
- HkDefine.RemoteDefine: the detail text of a failed command is not modelled.
- StripComments.StripComments: that the text is read from files with replacement characters is not modelled; `macro_calls`, `guard_at`, `literal` and `designators` of the same file rest on regular expressions or keep no invariant.
- Braces.FindBalanced: for the braces the callers use; other delimiters would be a parameter.
- SignedImage.AcceptedExact: SHA-256, the key type and the signature check are functions of bytes, and an exception of the key library counts as a refusal.
- SignedImage.Validate: the two refusals inside the entry walk share one reason.
- SignedImage.EntryInOnePartition: the partition sizes and addresses of `MAP` are written out; that the device tree has them is `layout`, which only compares.
- LossyLink.Link.Turn: the statistics of repeated blocks are not modelled, and one clock reading serves a whole turn of the loop.
- HkStore.Store.Record: of a row only id, node, report and sequence are kept, which is what the view reads.
- FtpDiagnostics.Compare: path checks, opening, closing and the read that fails, if any, are handed in as codes.
- FtpDiagnostics.Generate: a short write is modelled by its position; what it left in the file is not.
- `describe`, `envelope`, capture and replay of `hk-bridge.py`, `cmd_check` and the XTCE output of `hk-report.py`: formatting without an invariant.
- `gpredict-proxy.py`, `csp_liveness.c`, `hil/fwu/probes.c`, the shell commands, parameter tables and `main.c`: small state whose properties can be read off one function.
- The command-ticket cache, the boot budget, the tracker, radio encryption and firmware-update sessions: only their tests are in this repository.
