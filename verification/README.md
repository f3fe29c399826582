# The Android/D-Bus bridge: string engine, codecs and port multiplexer

The repository connects Android services with D-Bus and FIFO services over one USB byte
stream. This project models its three self-contained parts and proves what they are for.

* **The string engine** (`bstrlib.c`): the growth policy, the edits that accept an argument
  aliasing the string being edited, the substring search, the in-place find and replace, the
  buffered streams, splitting and joining.
* **The codecs and layouts** (`bstraux.c`): base64, uuencoding with its streaming decoder,
  yEnc, netstrings, left and margin justification, the buffered write stream.
* **The bridge protocol** (`bridge.c`, the message queues, `servicespawner.c`, the transport
  read and write loops, Android's `Port.write`): the bounded queue between threads, the start
  lock, the half-close life cycle of a port, framing and its inverse.

Functions over `seq<byte>` say what an operation means; classes and methods follow the C and
Java code, change the same fields in place and are proved against those functions; lemmas say
what holds of the functions, of every run, or of every reachable state.

| module | what it holds |
|---|---|
| `Memory` | bytes, blocks, views (the data/length part of a read-only argument), block copies |
| `Growth`, `Bstrings`, `Edits` | `snapUpSize`, `balloc` and the edits; any sequence of edits |
| `Search`, `FindReplace`, `Replacing` | `binstr`; `findreplaceengine` and its three strategies; replacing as splitting and joining |
| `CharFields`, `Streams`, `StreamRuns` | the character set; `bStream`; any sequence of calls on one |
| `Splits`, `ActingSplits`, `Joins` | split callbacks in memory and over a stream, also such as move it; lists, joining, round trips |
| `Sextets`, `Base64`, `UuCode`, `UuStreams`, `UuDecoders`, `YEnc`, `NetStrings` | the codecs |
| `Justify`, `WriteStreams` | justification; `bwriteStream` |
| `MessageQueue`, `Handshake`, `Ports` | the queue, the start lock, the ports |
| `Bytes`, `Framing`, `Transport`, `Writers` | numbers as bytes; frames; the accessory's reads; all writers of frames |

## How it is modelled

* A `View` is a pointer into a block with a length, so two arguments alias when they lie in
  the same block. `Memcpy` demands that its regions do not overlap and `Memmove` does not.
* When `balloc` moves a block, nothing is said about the old one any more.
* Sizes stay below 2^30, the largest power of two that fits an `int`; `Snapped` keeps the
  branch for sizes at and above it. Allocation succeeds.
* A core stream (`Source`, `Sink`, `Wire`) chooses freely how much it takes or delivers.
* Every function that a method is proved against has laws of its own, stated in bytes, positions,
  lengths and constants: what stands where, which cases are which, when nothing comes out.
* Threads are interleaved atomic steps over any number of threads; every semaphore wait, lock,
  critical section, post and unlock is a step of its own.

## What was found

* **A replacement that dangles.** `bstrlib.txt:255-263` promises that arguments behave as if
  copied first. In the expanding strategy of `findreplaceengine` a replacement that lies in
  the string before `pos` is not copied (`bstrlib.c:1575-1581`), and `balloc` may then move the
  block before it is read (`bstrlib.c:1668-1679`). `FindReplace.Dangles` is the exact condition:
  `FindReplaceEngine` proves that the result is the specification in all other calls and that
  the released block is read in these; `DanglingCall` makes such a call.
* **Overlooked separators.** Behind a match `bsplitstrcb` resumes one position late
  (`bstrlib.c:2616-2621`). Joining still gives the text back; `Joins.StrSplitIsClean` says when
  the pieces are the expected ones, if and only if, and `Joins.AdjacentSeparators` gives a text
  on which they are not.
* **A stream without an end.** When the text behind the last line end gives bytes,
  `bsUuDecodePart` decodes it again on every call (`bstraux.c:653-666`) and never returns 0.
  `UuDecoders.UuDecoder.BsUuDecodePart` proves that 0 is returned only if it gives none,
  `UuDecoders.ReadTimes` says what any number of calls put out, and `UuDecoders.EndlessStream`
  gets as many bytes as it is asked for out of a text of two.
* **Probing outside the array.** `openNewPort` takes its first probe without a modulus
  (`bridge.c:58`): it leaves the array exactly when the last port is 399, and
  `Ports.LastPortIsReachable` gets there.
* **A null callback.** A service that is denied keeps its slot (`servicespawner.c:57-120`), and an
  EOF for that slot calls a null pointer (`bridge.c:255`). `Ports.FaultOf` is the exact condition
  and `Ports.NullCallIsReachable` gets there in two events.
* **A message that goes out without its data.** The size of a message is a `short`
  (`AccessoryMessage.h:5-10`, `bridge.c:47`), but a marshalled signal may be longer
  (`listener.c:55-62`). From 32768 bytes on the header announces a size that is not the message's.
  `Writers.GoesOutWhole` proves that a message goes out as its frame if and only if it is shorter;
  `Writers.TooLong` is one that is not.
* **The documented buffer bound.** `bstrlib.txt:2224-2239` promises buffers of at most 2(n+1)
  bytes for a longest length of n, but the smallest buffer has 8. `Edits.RunEdits` proves that the
  promise is kept if and only if n is at least 3, for every sequence of edits;
  `Edits.BoundExceeded` breaks it with the empty string.

## Model

| member | source | states |
|---|---|---|
| Growth.SnapUpSize | Accessory/AAP-Bridge/bStrLib/bstrlib.c:71-93 | the or-shift cascade gives the least power of two above the request, at least 8, or the request itself when that power does not fit an int |
| Growth.FiveStepsFill | Accessory/AAP-Bridge/bStrLib/bstrlib.c:71-93 | five doubling or-shifts set every bit below the highest one, for all 32-bit values |
| Growth.NextPow2IsLeast | Accessory/AAP-Bridge/bStrLib/bstrlib.c:71-93 | no smaller power of two is above the request |
| Growth.SnappedBounds | Accessory/AAP-Bridge/bStrLib/bstrlib.txt:2224-2239 | the chosen size is above the request, a power of two, and 8 or at most twice the request |
| Growth.ResizeKeepsPolicy | Accessory/AAP-Bridge/bStrLib/bstrlib.txt:2224-2239 | a reallocation keeps the size bound for the longest length so far and at least doubles the buffer |
| Bstrings.Bstring.Balloc | Accessory/AAP-Bridge/bStrLib/bstrlib.c:99-153 | text kept, room for more than the request even when only the bare length is asked for, exact new capacity, no move when it fits, error for sizes that are not positive |
| Bstrings.Bstring.Copy | Accessory/AAP-Bridge/bStrLib/bstrlib.c:411-445 | a fresh terminated copy of the text |
| Bstrings.Bstring.FromBlk | Accessory/AAP-Bridge/bStrLib/bstrlib.c:244-276 | a fresh string with the text and the snapped capacity |
| Bstrings.Bstring.Bconcat | Accessory/AAP-Bridge/bStrLib/bstrlib.c:318-344 | appends the argument as it was before the call, also when it lies in this string's own block |
| Bstrings.Bstring.Bconchar | Accessory/AAP-Bridge/bStrLib/bstrlib.c:350-360 | appends one character within the growth policy |
| Bstrings.Bstring.Bsetstr | Accessory/AAP-Bridge/bStrLib/bstrlib.c:1400-1446 | overwrites from the position, filling a gap, as if an aliasing argument had been copied; a negative position is an error that changes nothing |
| Bstrings.Bstring.Binsert | Accessory/AAP-Bridge/bStrLib/bstrlib.c:1455-1494 | inserts at the position, filling a gap, as if an aliasing argument had been copied |
| Bstrings.Bstring.Breplace | Accessory/AAP-Bridge/bStrLib/bstrlib.c:1502-1541 | replaces the range by the argument, as if an aliasing argument had been copied, in all cases of range and length |
| Bstrings.OverwrittenCut | Accessory/AAP-Bridge/bStrLib/bstrlib.c:1513-1521 | overwriting and cutting behind the new text is replacing a range that reaches the end |
| Bstrings.OverwrittenAt | Accessory/AAP-Bridge/bStrLib/bstrlib.c:1400-1446 | the length and every character after overwriting: the new text at its place, the old one around it, the fill character in the gap |
| Bstrings.InsertedAt | Accessory/AAP-Bridge/bStrLib/bstrlib.c:1455-1494 | the length and every character after an insertion, with the fill character in the gap |
| Bstrings.ReplacedAt | Accessory/AAP-Bridge/bStrLib/bstrlib.c:1502-1541 | the length and every character after a replacement, with the fill character in the gap |
| Bstrings.DeletedAt | Accessory/AAP-Bridge/bStrLib/bstrlib.c:965-987 | the length and every character after a deletion |
| Bstrings.Bstring.Bdelete | Accessory/AAP-Bridge/bStrLib/bstrlib.c:965-987 | removes the range cut to the text, a negative start shortening it; a negative length is an error |
| Bstrings.Bstring.Bassign | Accessory/AAP-Bridge/bStrLib/bstrlib.c:451-465 | the text becomes the argument's, also when that is part of this string |
| Edits.RunEdits | Accessory/AAP-Bridge/bStrLib/bstrlib.txt:2224-2239 | after any sequence of edits, whose arguments may be slices of the text itself, the text is that of the edits applied one by one; the capacity is a power of two, and at most 2(n+1) for a longest length of n if and only if n is at least 3; the block moved at most log2 n times |
| Edits.BoundExceeded | Accessory/AAP-Bridge/bStrLib/bstrlib.txt:2224-2239 | the empty string has a buffer above the documented bound |
| Edits.ApplyTo | Accessory/AAP-Bridge/bStrLib/bstrlib.c:1400-1541 | one edit gives the specified text, and moves the block exactly when the capacity changes |
| Edits.PolicyStep | Accessory/AAP-Bridge/bStrLib/bstrlib.txt:2224-2239 | each reallocation doubles what the number of reallocations is measured by |
| Edits.PeakIsLongest | Accessory/AAP-Bridge/bStrLib/bstrlib.txt:2224-2239 | the peak is reached after some of the edits and exceeded after none |
| Search.FindIsLeast | Accessory/AAP-Bridge/bStrLib/bstrlib.c:1013-1022 | the answer is the least position from pos on where the pattern occurs, and BSTR_ERR exactly when there is none |
| Search.Binstr | Accessory/AAP-Bridge/bStrLib/bstrlib.c:1023-1055 | every branch, the special cases included, answers that position |
| Search.FindLonger | Accessory/AAP-Bridge/bStrLib/bstrlib.c:1056-1099 | the unrolled greedy subsequence loop with its restarts terminates and answers that position |
| Search.Restart | Accessory/AAP-Bridge/bStrLib/bstrlib.c:1056-1099 | a mismatch behind a gap proves that no occurrence starts before i - j, and that i - j lies beyond where the attempt began |
| Search.MismatchRaisesBound | Accessory/AAP-Bridge/bStrLib/bstrlib.c:1056-1099 | a mismatch moves the lower bound on occurrences that the greedy loop maintains |
| FindReplace.FindReplaceEngine | Accessory/AAP-Bridge/bStrLib/bstrlib.c:1554-1692 | for every position and every pair of arguments the result is the leftmost non-overlapping replacement, aliases included, except in the calls of Dangles and there exactly; errors and positions past the last possible match change nothing |
| FindReplace.ReplaceSameSize | Accessory/AAP-Bridge/bStrLib/bstrlib.c:1585-1598 | copying over each match equals the specification; text still to be searched is never disturbed |
| FindReplace.ReplaceShrinking | Accessory/AAP-Bridge/bStrLib/bstrlib.c:1600-1626 | moving the gaps down while searching on equals the specification |
| FindReplace.CollectMatches | Accessory/AAP-Bridge/bStrLib/bstrlib.c:1628-1663 | the table holds all matches from left to right and acc the growth they cause |
| FindReplace.PlaceReplacements | Accessory/AAP-Bridge/bStrLib/bstrlib.c:1665-1683 | the right-to-left moves never overwrite text still to be moved and build the specification |
| FindReplace.ReplaceExpanding | Accessory/AAP-Bridge/bStrLib/bstrlib.c:1628-1692 | the expanding strategy equals the specification unless the replacement dangles |
| FindReplace.MatchFacts | Accessory/AAP-Bridge/bStrLib/bstrlib.c:1632-1663 | successive matches do not overlap and each is the next one behind its predecessor |
| FindReplace.ReplacedLength | Accessory/AAP-Bridge/bStrLib/bstrlib.c:1628-1668 | the new length is the old one plus the growth per match |
| FindReplace.ReplacedByItself | Accessory/AAP-Bridge/bStrLib/bstrlib.c:1545-1554 | replacing a text by itself is the identity |
| Replacing.ReplacingIsJoining | Accessory/AAP-Bridge/bStrLib/bstrlib.c:1545-1554 | to replace every occurrence is to split the text at the pattern and to join the pieces with the replacement |
| FindReplace.DanglingCall | Accessory/AAP-Bridge/bStrLib/bstrlib.c:1575-1581 | a call whose replacement is read from the released block |
| CharFields.SetOneBit | Accessory/AAP-Bridge/bStrLib/bstrlib.c:1280-1284 | setting one character's bit adds that character to the set and no other |
| CharFields.CharField.Build | Accessory/AAP-Bridge/bStrLib/bstrlib.c:1296-1304 | the set holds exactly the characters of the string; an empty string is an error |
| CharFields.CharField.Invert | Accessory/AAP-Bridge/bStrLib/bstrlib.c:1306-1309 | membership is complemented for every character |
| CharFields.CharField.Search | Accessory/AAP-Bridge/bStrLib/bstrlib.c:1312-1319 | the first position from pos on whose character is in the set |
| Streams.LineIsFirst | Accessory/AAP-Bridge/bStrLib/bstrlib.c:2040-2046 | a line is the prefix that ends with the first terminator, or everything if there is none |
| Streams.BStream.ReadLine | Accessory/AAP-Bridge/bStrLib/bstrlib.c:2047-2108 | for any buffer size and any short reads exactly that line is appended and gone from the stream; BSTR_ERR exactly when nothing was left |
| Streams.BStream.Bsreadlna | Accessory/AAP-Bridge/bStrLib/bstrlib.c:1983-2038 | the same for one terminator |
| Streams.BStream.Bsreadlnsa | Accessory/AAP-Bridge/bStrLib/bstrlib.c:2047-2108 | the same for a set of terminators; an empty set is an error |
| Streams.BStream.Bsreada | Accessory/AAP-Bridge/bStrLib/bstrlib.c:2118-2173 | a prefix of at most n bytes moves over, not empty unless the stream is, and all n unless it is read straight into the output |
| Streams.BStream.Bsunread | Accessory/AAP-Bridge/bStrLib/bstrlib.c:2229-2232 | the bytes come before all that was still to be read |
| Streams.BStream.BufferLength | Accessory/AAP-Bridge/bStrLib/bstrlib.c:1945-1951 | sets a positive size, reports the old one, refuses a negative one, loses nothing |
| StreamRuns.RunCalls | Accessory/AAP-Bridge/bStrLib/bstrlib.c:1983-2173 | over any sequence of reads and push-backs every output is accounted for against what the stream held |
| StreamRuns.OutputsAreThePrefix | Accessory/AAP-Bridge/bStrLib/bstrlib.c:1983-2173 | without push-backs the outputs joined are the consumed prefix: nothing lost, doubled or reordered |
| Splits.PiecesAreSeparated | Accessory/AAP-Bridge/bStrLib/bstrlib.c:2540-2581 | every piece is free of separators, stands where it says, and is followed by one separator and the next piece or the end |
| Splits.Bsplitscb | Accessory/AAP-Bridge/bStrLib/bstrlib.c:2555-2581 | the callbacks are these pieces up to the one that gives up, whose answer is returned |
| Splits.UntilIs | Accessory/AAP-Bridge/bStrLib/bstrlib.c:2555-2581 | the callbacks up to and with the one that gives up, or all of them |
| Splits.Bssplitscb | Accessory/AAP-Bridge/bStrLib/bstrlib.c:2309-2356 | for callbacks that leave the stream alone: the same callbacks as for the whole content in memory, however it is chunked, and at each of them the stream stands right behind the separator |
| Splits.AfterIsNext | Accessory/AAP-Bridge/bStrLib/bstrlib.c:2290-2305 | where the stream stands at a callback the next piece begins |
| Splits.PieceEnds | Accessory/AAP-Bridge/bStrLib/bstrlib.c:2309-2356 | piece k ends at the next separator and is the last one when there is none |
| ActingSplits.BssplitscbActing | Accessory/AAP-Bridge/bStrLib/bstrlib.c:2290-2356 | for callbacks that read lines away or push bytes back: each gets the first piece of what the one before it left in the stream, at the offset behind the last separator, and finds the stream right behind its own; the calls end with the one that gives up or with the first piece that no separator follows, and the stream is as the last call left it |
| Joins.Bjoin | Accessory/AAP-Bridge/bStrLib/bstrlib.c:2250-2288 | fills a block of exactly the computed size with the entries and the separators between them; null exactly when that size is not positive, that is for no entries and a separator that is not empty |
| Joins.JoinLength | Accessory/AAP-Bridge/bStrLib/bstrlib.c:2257-2263 | the computed size is that of the joined text and its NUL |
| Joins.JoinAt | Accessory/AAP-Bridge/bStrLib/bstrlib.c:2250-2288 | every entry stands at its place in the joined text, the separator behind all but the last |
| Joins.Bsplit | Accessory/AAP-Bridge/bStrLib/bstrlib.c:2660-2681 | the list of pieces divided by one character |
| Joins.Bsplits | Accessory/AAP-Bridge/bStrLib/bstrlib.c:2717-2740 | the list of pieces divided by any of the characters; the whole text for an empty set |
| Joins.EntriesAreFree | Accessory/AAP-Bridge/bStrLib/bstrlib.c:2717-2740 | no entry contains a separator |
| Joins.JoinUndoesSplit | Accessory/AAP-Bridge/bStrLib/bstrlib.c:2250-2288 | joining the pieces of a split by one character gives the text back |
| Joins.SplitUndoesJoin | Accessory/AAP-Bridge/bStrLib/bstrlib.c:2660-2681 | splitting a joined list gives the list back when no entry contains the separator |
| Joins.Bsplitstr | Accessory/AAP-Bridge/bStrLib/bstrlib.c:2688-2709 | the list for an empty, a one-character and a longer separator |
| Joins.CharactersAre | Accessory/AAP-Bridge/bStrLib/bstrlib.c:2688-2709 | with an empty separator every entry is one character, in order |
| Joins.CompareAndSplit | Accessory/AAP-Bridge/bStrLib/bstrlib.c:2599-2625 | the comparison loop, which resumes one position late behind a match, makes the pieces of StrPieces |
| Joins.StrPieceEnds | Accessory/AAP-Bridge/bStrLib/bstrlib.c:2599-2625 | each piece ends at the first occurrence of the separator behind its own first character, the very first at the first of all, the last at the end |
| Joins.JoinUndoesStrSplit | Accessory/AAP-Bridge/bStrLib/bstrlib.c:2599-2625 | joining with the separator string gives the text back, for every separator |
| Joins.CleanPieceEnds | Accessory/AAP-Bridge/bStrLib/bstrlib.c:2590-2598 | each expected piece ends at the next occurrence of the separator, the last at the end |
| Joins.StrSplitIsClean | Accessory/AAP-Bridge/bStrLib/bstrlib.c:2616-2621 | the pieces are those of all leftmost non-overlapping occurrences if and only if none between two separators is empty |
| Joins.AdjacentSeparators | Accessory/AAP-Bridge/bStrLib/bstrlib.c:2616-2621 | a text of two adjacent separators: three empty pieces are expected, but two are made and the second is a separator |
| Base64.EncodedHasLength | Accessory/AAP-Bridge/bStrLib/bstraux.c:304-367 | the encoding of n bytes has length 4*ceil(n/3) + 2*floor(n/57) |
| Base64.LinesFit | Accessory/AAP-Bridge/bStrLib/bstraux.c:304-367 | no stretch without a line break is longer than 76 characters |
| Base64.Alphabet | Accessory/AAP-Bridge/bStrLib/bstraux.c:304-367 | the 64 letters are those of RFC 1341, section 5.2 |
| Base64.SextetsHaveBits | Accessory/AAP-Bridge/bStrLib/bstraux.c:304-367 | four sextets have the 24 bits of three bytes in their order |
| Base64.EncodedAt | Accessory/AAP-Bridge/bStrLib/bstraux.c:304-367 | where every group of four letters stands, and the padded rest behind the last |
| Base64.BreakAt | Accessory/AAP-Bridge/bStrLib/bstraux.c:304-367 | a carriage return and a line feed stand behind every 57 bytes |
| Base64.LastGroupIs | Accessory/AAP-Bridge/bStrLib/bstraux.c:304-367 | the rest is written as if zeros followed, with one or two padding characters for them |
| Base64.BBase64Encode | Accessory/AAP-Bridge/bStrLib/bstraux.c:304-367 | the loop with its line breaks and the three endings writes the encoding |
| Base64.LetterBack | Accessory/AAP-Bridge/bStrLib/bstraux.c:372-382 | the symbol decoder undoes the alphabet |
| Base64.BBase64DecodeEx | Accessory/AAP-Bridge/bStrLib/bstraux.c:389-489 | the four nested skipping loops give the bytes and the truncation flag of the decoding |
| Base64.BBase64Decode | Accessory/AAP-Bridge/bStrLib/bstraux.h:44 | without a flag to report it in a truncation gives null, exactly then; otherwise the decoded bytes |
| Base64.DecodedIs | Accessory/AAP-Bridge/bStrLib/bstraux.c:389-489 | for any text: the flag is set exactly when a group has begun at the end or the padding is not where it belongs, and the bytes are regrouped from the characters with a meaning alone |
| Base64.DecodeUndoesEncode | Accessory/AAP-Bridge/bStrLib/bstraux.c:389-489 | every string comes back without a truncation error |
| Base64.JunkIsIgnored | Accessory/AAP-Bridge/bStrLib/bstraux.c:389-489 | a character without a meaning makes no difference anywhere before the padding |
| UuCode.OctetsBack | Accessory/AAP-Bridge/bStrLib/bstraux.c:521-556 | four encoded characters give the one to three bytes they stand for |
| UuCode.CodeCharacters | Accessory/AAP-Bridge/bStrLib/bstraux.c:491-491 | the characters of the code are those from 32 to 96, and which six bits each stands for; none that is written is a blank |
| UuCode.QuadHasBits | Accessory/AAP-Bridge/bStrLib/bstraux.c:718-749 | four characters stand for the 24 bits of three bytes in their order |
| UuCode.LineBack | Accessory/AAP-Bridge/bStrLib/bstraux.c:500-569 | a line of 1 to 45 bytes is decoded to them, is not bad and holds no line end |
| UuCode.LinesOf45 | Accessory/AAP-Bridge/bStrLib/bstraux.c:718-749 | lines of 45 bytes and one for the rest, each with its length in front and CR LF behind |
| UuCode.LineIsBad | Accessory/AAP-Bridge/bStrLib/bstraux.c:500-569 | for any line: it is bad exactly when it announces more than 45 bytes, is spoilt, or has a character it needs that is none of the code; it gives no bytes in the first two cases and otherwise all of them |
| UuCode.FirstLine | Accessory/AAP-Bridge/bStrLib/bstraux.c:611-650 | behind a finished line the text is decoded as if it stood alone |
| UuCode.DecodeUndoesEncode | Accessory/AAP-Bridge/bStrLib/bstraux.c:585-604 | every string comes back with no bad line and nothing left over |
| UuCode.LeftoverMayGiveBytes | Accessory/AAP-Bridge/bStrLib/bstraux.c:653-666 | text without a line end that gives a byte each time it is decoded |
| UuStreams.BUuEncode | Accessory/AAP-Bridge/bStrLib/bstraux.c:718-749 | the loops over lines of 45 and groups of 3 write the encoding |
| UuDecoders.DecLine | Accessory/AAP-Bridge/bStrLib/bstraux.c:500-569 | appends what the line gives and reports whether it is bad; a spoilt or short line leaves the text as it was |
| UuDecoders.BUuDecLine | Accessory/AAP-Bridge/bStrLib/bstraux.c:500-569 | with a counter the line decoder never fails; without one it fails exactly on a bad line, whose bytes it has appended |
| UuDecoders.UuDecoder.BsUuDecodePart | Accessory/AAP-Bridge/bStrLib/bstraux.c:611-674 | what is put out and what is still to come are together unchanged by a call, for any block size and any chunks of the source; at the end the leftover is added, and 0 is returned only if it gives no bytes |
| UuDecoders.UuDecoder.DecodeLines | Accessory/AAP-Bridge/bStrLib/bstraux.c:631-650 | the loop over the line ends keeps what is decoded and still to decode together, and stops within a line of the amount wanted |
| UuDecoders.UuDecoder.constructor | Accessory/AAP-Bridge/bStrLib/bstraux.c:686-709 | the whole of the input is still to be decoded, and no line was bad |
| UuDecoders.ReadAll | Accessory/AAP-Bridge/bStrLib/bstraux.c:611-674 | read to the end with any sequence of block sizes the decoded stream and the number of bad lines depend on the text alone; a bad leftover counts once, and twice if anything came out |
| UuDecoders.ReadTimes | Accessory/AAP-Bridge/bStrLib/bstraux.c:611-674 | for any text and any number of calls, what was put out and what is still to come are together the decoding and some number of times the leftover; a leftover that gives bytes keeps every call from ending the stream |
| UuDecoders.EndlessStream | Accessory/AAP-Bridge/bStrLib/bstraux.c:653-666 | a text of two bytes gives at least as many as there are calls |
| UuDecoders.BUuDecodeEx | Accessory/AAP-Bridge/bStrLib/bstraux.c:585-604 | the decoded text and its exact number of bad lines, the leftover counted each time it is met; null exactly when nothing comes out |
| UuDecoders.EncodedIsDecodable | Accessory/AAP-Bridge/bStrLib/bstraux.c:718-749 | encoder output has no leftover, so it meets the decoder's condition and decodes to its source |
| YEnc.EncodedIsClean | Accessory/AAP-Bridge/bStrLib/bstraux.c:757-779 | the encoding has no NUL, CR or LF and at most two characters for a byte |
| YEnc.CodeIs | Accessory/AAP-Bridge/bStrLib/bstraux.c:757-779 | a byte is shifted by 42, and escaped exactly when that gives NUL, LF, CR or the escape itself |
| YEnc.DecodeUndoesEncode | Accessory/AAP-Bridge/bStrLib/bstraux.c:788-835 | every string comes back |
| YEnc.LineBreaksIgnored | Accessory/AAP-Bridge/bStrLib/bstraux.c:812-813 | an encoding may be cut by line ends between any two codes |
| YEnc.DecodedInOrder | Accessory/AAP-Bridge/bStrLib/bstraux.c:788-835 | behind any text that is decoded the rest is decoded as if it stood alone |
| YEnc.OneCharacter | Accessory/AAP-Bridge/bStrLib/bstraux.c:788-835 | what each kind of character gives: nothing, a refusal, or one byte |
| YEnc.BYEncode | Accessory/AAP-Bridge/bStrLib/bstraux.c:757-779 | the loop writes the encoding |
| YEnc.BYDecode | Accessory/AAP-Bridge/bStrLib/bstraux.c:788-835 | with its buffer of 64 bytes the loop gives the decoding, or refuses a NUL or an escape at the end |
| NetStrings.DecodeUndoesEncode | Accessory/AAP-Bridge/bStrLib/bstraux.c:249-296 | every string comes back whatever follows the comma, if its length fits an int, and is refused otherwise |
| NetStrings.AcceptedExactly | Accessory/AAP-Bridge/bStrLib/bstraux.c:273-296 | a text is accepted if and only if it is digits whose value fits an int, a colon, that many bytes and a comma |
| NetStrings.DecimalStarts | Accessory/AAP-Bridge/bStrLib/bstraux.c:249-264 | the length is written without a leading zero and never as nothing |
| NetStrings.HelloWorld | Accessory/AAP-Bridge/bStrLib/bstraux.c:249-264 | the netstring of twelve characters, byte by byte |
| NetStrings.ReadLength | Accessory/AAP-Bridge/bStrLib/bstraux.c:277-282 | the division test accepts exactly the numbers that fit an int, for digits of any length |
| NetStrings.BStr2NetStr | Accessory/AAP-Bridge/bStrLib/bstraux.c:249-264 | length, colon, text, comma |
| NetStrings.BNetStr2Bstr | Accessory/AAP-Bridge/bStrLib/bstraux.c:273-296 | gives the text, refuses, or tells that a byte behind the last one would be read |
| Justify.BJustifyLeft | Accessory/AAP-Bridge/bStrLib/bstraux.c:111-128 | in place, the words joined by single spaces; a space that is no character changes nothing |
| Justify.TailIsWords | Accessory/AAP-Bridge/bStrLib/bstraux.c:118-123 | the flag-driven loop puts out the non-empty pieces of the split by the space |
| Justify.WordsCut | Accessory/AAP-Bridge/bStrLib/bstraux.c:111-128 | cut at a space, a text has the words of both parts; a part without spaces is one word, or none when it is empty |
| Justify.BJustifyMargin | Accessory/AAP-Bridge/bStrLib/bstraux.c:163-197 | in place, the justified text; exactly width characters when two words at least fit |
| Justify.JustifiedFits | Accessory/AAP-Bridge/bStrLib/bstraux.c:163-197 | a text is stretched exactly when it has two words and they and a space for each are shorter than the width; it then has exactly the width and gaps of two neighbouring sizes; otherwise it is its words joined by single spaces |
| Justify.StretchedFits | Accessory/AAP-Bridge/bStrLib/bstraux.c:181-193 | the stretched text has exactly width characters, every gap at least one space, any two gaps differing by at most one |
| Justify.SpreadAt | Accessory/AAP-Bridge/bStrLib/bstraux.c:181-193 | every word stands behind the words and gaps before it, and every gap is filled with spaces |
| Justify.GapsAreEven | Accessory/AAP-Bridge/bStrLib/bstraux.c:184-188 | rounding what is left over the gaps that are left gives two neighbouring sizes and uses up everything |
| Justify.GapsAreRounded | Accessory/AAP-Bridge/bStrLib/bstraux.c:184-188 | each gap is what is left divided by the gaps that are left, rounded |
| Justify.JustifyingKeepsWords | Accessory/AAP-Bridge/bStrLib/bstraux.c:163-197 | the result has the same words in the same order |
| Justify.LeftJustifyingKeepsWords | Accessory/AAP-Bridge/bStrLib/bstraux.c:111-128 | the same for left justification |
| Justify.BInsertChrs | Accessory/AAP-Bridge/bStrLib/bstraux.c:93-105 | inserts the run, filling a gap; refuses a negative position or a length that is not positive |
| WriteStreams.BWriteStream.BwsWriteBstr | Accessory/AAP-Bridge/bStrLib/bstraux.c:1041-1076 | on success core output and pending buffer grow by exactly the text and the buffer is shorter than its size; a failure marks the end; in every case the core has a first part of what was written |
| WriteStreams.BWriteStream.BwsWriteFlush | Accessory/AAP-Bridge/bStrLib/bstraux.c:1027-1033 | on success the core has everything and the buffer is empty |
| WriteStreams.BWriteStream.BwsBuffLength | Accessory/AAP-Bridge/bStrLib/bstraux.c:1106-1112 | sets a positive size and reports the old one |
| WriteStreams.RunCalls | Accessory/AAP-Bridge/bStrLib/bstraux.c:1014-1112 | over any sequence of writes, flushes and size changes the output is what was written, once and in order; after a failure the core has a first part of it |
| MessageQueue.Queue.AddLocked | Accessory/AAP-Bridge/src/Message/sendqueue.c:58-75 | the critical section stores the message at the wrapped position, or drops it when the ring is full |
| MessageQueue.Queue.PollLocked | Accessory/AAP-Bridge/src/Message/sendqueue.c:85-90 | the critical section takes the oldest message |
| MessageQueue.BalancedKept | Accessory/AAP-Bridge/src/Message/sendqueue.c:55-94 | every step of any thread keeps the permits of both semaphores and their holders in balance with the number of messages and the 64 slots |
| MessageQueue.StoreKeepsFaith | Accessory/AAP-Bridge/src/Message/sendqueue.c:67-75 | a store keeps the ring equal to the messages added and not yet polled, across the wrap |
| MessageQueue.TakeKeepsFaith | Accessory/AAP-Bridge/src/Message/receivequeue.c:77-91 | a poll takes the message added first among those not yet polled |
| MessageQueue.QueueIsSafe | Accessory/AAP-Bridge/src/Message/sendqueue.c:55-94 | in every reachable state, for any number of threads: nothing was dropped, no poll sees an empty ring, the polled messages are a prefix of the added ones and at most 64 behind, one thread at most is in a critical section |
| MessageQueue.QueueIsLive | Accessory/AAP-Bridge/src/Message/receivequeue.c:52-91 | no deadlock: some thread inside can always go on, and an idle queue admits writers unless 64 messages are in it and readers unless none is |
| Handshake.FillResponse | Accessory/AAP-Bridge/src/servicespawner.c:44-130 | the switch fills the eight bytes of the answer to the request: which byte is what, and for which requests |
| Handshake.AnswerBytes | Accessory/AAP-Bridge/src/servicespawner.c:44-130 | byte 3 is 1 exactly when a port was found for a known and initialised service, bytes 1 and 2 are then the port; otherwise it is 2, and byte 4 is 5, 1, 3 or 2 for the reason |
| Handshake.AnswersDiffer | Accessory/AAP-Bridge/src/servicespawner.c:44-130 | the bytes tell an opening from a denial, its port and its error |
| Handshake.InitialiseOpens | Accessory/AAP-Bridge/src/servicespawner.c:57-118 | which requests get an instance, its port and a thread of its own; the others change nothing but the answer |
| Handshake.InvKept | Accessory/AAP-Bridge/src/servicespawner.c:42-132 | every step of the spawner and of the service threads keeps the start lock's promise |
| Handshake.NoFrameBeforeItsOpen | Accessory/AAP-Bridge/src/bulkTransfer.c:26-50 | in every run each data, EOF or CLOSE frame of a service instance follows the answer that opened the instance and named the same port, no instance is answered for twice, and behind an answer that opens a port again no frame of an earlier instance on that port follows |
| Handshake.PortIsReused | Accessory/AAP-Bridge/src/servicespawner.c:42-132 | a run, for any port, in which a service is opened, sends, closes, ends, and its port is opened again |
| Handshake.StatusNamesPort | Accessory/AAP-Bridge/src/bridge.c:284-320 | a status message names its port in two bytes |
| Handshake.OnTheWireToo | Accessory/AAP-Bridge/src/Dbus/listener.c:38-64 | in any run of the services and any run of the send queue that is given their frames, what has been polled is a first part of what was sent, and the same order holds of it |
| Ports.Bridge.constructor | Accessory/AAP-Bridge/src/bridge.c:331-368 | three live services, all other slots closed |
| Ports.Bridge.CleanupService | Accessory/AAP-Bridge/src/bridge.c:202-226 | calls the cleanup callback once if there is one and resets the slot |
| Ports.Bridge.DeInitServer | Accessory/AAP-Bridge/src/bridge.c:381-392 | cleans up every slot in use; after it all are closed and every service that was opened has had its one cleanup |
| Ports.Bridge.SendEof | Accessory/AAP-Bridge/src/bridge.c:284-301 | sends the message, closes the output, and cleans up exactly when the input is closed as well |
| Ports.Bridge.SendClose | Accessory/AAP-Bridge/src/bridge.c:303-320 | sends the message, closes the input, and cleans up exactly when the output is closed as well |
| Ports.Bridge.OnStatus | Accessory/AAP-Bridge/src/bridge.c:233-272 | an EOF or CLOSE for any index: faults exactly outside the array and for an EOF to a leaked slot; for a live slot, also when its callback re-enters sendEof, one cleanup and no slot left with both directions closed; a closed slot ignores it |
| Ports.Bridge.OpenNewPort | Accessory/AAP-Bridge/src/bridge.c:56-77 | hands out the first closed slot in cyclic order, none exactly when all are taken; leaves the array exactly when the last port is the highest |
| Ports.PassedInTurn | Accessory/AAP-Bridge/src/bridge.c:56-77 | the search goes from the slot behind the last one upwards and on from 0 |
| Ports.Bridge.OpenService | Accessory/AAP-Bridge/src/servicespawner.c:57-118 | the first closed slot, with both directions open, gets the callbacks of an initialised service; a denied one leaks its slot; nothing else changes |
| Ports.Handle | Accessory/AAP-Bridge/src/bridge.c:56-77 | one event faults exactly when specified; otherwise it changes the slots and the last port exactly as specified and keeps the rules of every slot |
| Ports.Run | Accessory/AAP-Bridge/src/bridge.c:202-320 | any sequence of requests, status messages and calls is a run of these steps up to its first fault, which is the specified one; without a fault a slot holds -1 or its own index, a closed one is reset, a live one has a direction open, and every opening had one cleanup but for those live now |
| Ports.CleanupWhenBothClosed | Accessory/AAP-Bridge/src/bridge.c:157-200 | a service in any state is cleaned up if and only if each direction still open has been closed: the input by an EOF or its own CLOSE, the output by a CLOSE or its own EOF, from either side and in any order |
| Ports.OpenedUntilBothClosed | Accessory/AAP-Bridge/src/servicespawner.c:82-118 | a service just opened is cleaned up if and only if something closed its input and something its output |
| Ports.SlotGoesItsWay | Accessory/AAP-Bridge/src/bridge.c:202-320 | in a run of the bridge a live service changes by the events that concern it, whatever happens to the others |
| Ports.LastPortIsReachable | Accessory/AAP-Bridge/src/bridge.c:58-63 | openings alone reach the call that probes outside the array |
| Ports.NullCallIsReachable | Accessory/AAP-Bridge/src/bridge.c:233-272 | a denied service and an EOF for its slot make the null call |
| Framing.ParseUndoesEncode | Accessory/AAP-Bridge/src/bridge.c:85-124 | parsing the encoding of any frames gives the frames |
| Framing.BrokenOff | Accessory/AAP-Bridge/src/bridge.c:92-117 | a stream cut anywhere parses to the first of its frames |
| Framing.ShortBack | Accessory/AAP-Bridge/src/bridge.c:103-104 | the two bytes of a port or size give it back |
| Framing.EncodedBytes | Accessory/AAP-Bridge/src/bridge.c:99-105 | port and size as two bytes each, low byte first, and the payload behind them |
| Transport.UsbConnection.ReadAccessory | Accessory/AndroidAccessory/src/usb.c:121-151 | a non-empty prefix of all that is pending, from the buffer or after refilling it, or an error at the end |
| Transport.UsbConnection.ReadAllAccessory | Accessory/AndroidAccessory/src/accessory.c:16-26 | exactly the bytes asked for, for any transfer sizes, or an error exactly when fewer are to come |
| Transport.FirstHeader | Accessory/AAP-Bridge/src/bridge.c:99-105 | the size in the first header is that of the first frame and fits the receive buffer |
| Transport.ReceiveFrame | Accessory/AAP-Bridge/src/bridge.c:89-118 | on any stream: one round takes one frame off it, fails exactly when the stream ends first, and overruns exactly when the announced size is negative or above 4000 |
| Transport.Receiver | Accessory/AAP-Bridge/src/bridge.c:85-124 | on any stream: queues exactly the complete frames before its end or the overrun, in order, and then a null unless it was an overrun |
| Transport.ReceivedTiles | Accessory/AAP-Bridge/src/bridge.c:85-124 | for any stream: the frames found stand in it one behind the other, none above 4000 bytes, and behind the last one the header is incomplete, announces more than 4000 bytes, or more than there are |
| Transport.WritersAreReceived | Accessory/AAP-Bridge/src/bridge.c:85-124 | the writers' stream, cut anywhere, never overruns and is received as it parses |
| Writers.Port.Write | Android/AAPbridge/library/src/main/java/nl/bennyjacobs/aapbridge/bridge/AccessoryBridge.java:118-139 | one frame with the remaining bytes, or the first 4000 of more, and the buffer moved on by just these; refused when the output is closed, changing nothing |
| Writers.Port.constructor | Android/AAPbridge/library/src/main/java/nl/bennyjacobs/aapbridge/bridge/AccessoryBridge.java:70-75 | the header starts with the port number |
| Writers.InvKept | Android/AAPbridge/library/src/main/java/nl/bennyjacobs/aapbridge/bridge/AccessoryBridge.java:118-139 | every step of any writer under the two locks keeps frames whole and their bytes accounted for |
| Writers.WireIsParsed | Accessory/AAP-Bridge/src/bridge.c:85-124 | for any interleaving of writes, cut anywhere: the wire is that of the writers and parses to the first of the frames written, and to all of them between two frames |
| Writers.WhatIsQueued | Accessory/AAP-Bridge/src/bridge.c:85-124 | for any interleaving of writes, any cut of the wire and any transfer sizes the receiver queues the first of the frames written and a null, and all of them when the wire is whole and no frame half written |
| Writers.PayloadsArrive | Android/AAPbridge/library/src/main/java/nl/bennyjacobs/aapbridge/bridge/AccessoryBridge.java:118-139 | what a thread's frames carry and what it has not written yet are together the buffer it was given; a port with one writer carries just that |
| Writers.WritesAdvance | Android/AAPbridge/library/src/main/java/nl/bennyjacobs/aapbridge/bridge/AccessoryBridge.java:118-139 | after n complete writes of a thread the first 4000 * n bytes it was given are on the wire, and all of them when it was given no more |
| Writers.CanWrite | Android/AAPbridge/library/src/main/java/nl/bennyjacobs/aapbridge/bridge/AccessoryBridge.java:118-139 | a thread whose locks are free puts one more frame on the wire in four steps |
| Writers.SomeWriterCanGoOn | Android/AAPbridge/library/src/main/java/nl/bennyjacobs/aapbridge/bridge/AccessoryBridge.java:118-139 | no deadlock: while a thread is inside a write, one that is can go on |
| Writers.Wire.WriteAll | Accessory/AndroidAccessory/src/accessory.c:33-43 | as many bytes as the size says go out in order for any transfer sizes, none for a negative size; after an error a first part of them |
| Writers.Sender | Accessory/AAP-Bridge/src/bridge.c:129-176 | what goes out for the polled messages before the first null goes out in order; after an error a first part of it |
| Writers.SendOne | Accessory/AAP-Bridge/src/bridge.c:144-152 | for any message the header with its size as a 16-bit number goes out and then as many bytes as that size says; after an error a first part of that |
| Writers.GoesOutWhole | Accessory/AAP-Bridge/src/bridge.c:43-51 | what goes out for a message is its encoded frame and parses to it if and only if it is shorter than 32768 bytes |
| Writers.WiredBytes | Accessory/AAP-Bridge/src/bridge.c:129-152 | for any length: the size goes out modulo 65536, and as many bytes follow as it says as a signed number |
| Writers.AllGoOutWhole | Accessory/AAP-Bridge/src/bridge.c:129-176 | when all messages are that short, the encoding of their frames goes out |
| Writers.ToSendAre | Accessory/AAP-Bridge/src/bridge.c:133-141 | one frame for each polled message before the first null, in order |
| Writers.TooLong | Accessory/AAP-Bridge/src/Dbus/listener.c:55-62 | a message of 32768 bytes: a header with a negative size and no data |

## Left out

* Allocation failures, null arguments and broken headers (negative lengths, missing blocks): every string is valid, and the checks that refuse others are not part of this model.
* The header of a string is never aliased: read-only arguments are passed as their data and length. `breplace` reads the argument's length once more after `bsetstr`; with aliased headers that read is not modelled.
* A null argument of `bsetstr` is an empty view.
- Bstrings.Bstring.Breplace: views of the string itself may reach past its text, but not start behind it unless the range reaches the end, because they would show bytes that are no text.
- Bstrings.Bstring.Bassign: a view of the string itself may be any but the whole block, whose copy would need the block to grow while it is being read.
* `int` overflow of lengths: sizes stay below 2^30.
- Edits.RunEdits: an argument may be a slice of the text being edited or text of its own; `Delete`, `Append` and the three others are the edits, without `bassign`.
- FindReplace.FindReplaceEngine: does not describe the text when the replacement dangles, because the C code then reads a released block; views of the string itself that start behind its text and the caseless variants of the search are left out, and the match table is a sequence, not the static array that turns into a heap block.
- UuDecoders.BUuDecodeEx: asks that the leftover gives no bytes, because the C code does not end otherwise (`UuDecoders.ReadTimes` covers the other case).
- UuDecoders.UuDecoder.BsUuDecodePart: the stream counts bad lines; a stream without a counter stops at a bad line, keeps its lines buffered and decodes them again, which is modelled for one line only (`UuDecoders.BUuDecLine`).
- Joins.Bjoin: a request for no bytes is taken to fail; where an allocator grants one, the C code writes a NUL behind the empty block.
- ActingSplits.BssplitscbActing: the callback reads one line away or pushes bytes back, once a call; destroying the stream is left out.
- NetStrings.BNetStr2Bstr: a read behind the last byte that is there is an outcome of its own, because the C code is given a pointer without a length.
- Transport.UsbConnection.ReadAccessory: the transfer delivers at least one byte or fails; a transfer of zero bytes makes the C code call itself again without end.
- Transport.Receiver: stops when a size is announced that does not fit its buffer; what the C code does from there on is not described.
- Ports.Bridge.OpenNewPort: stops when the first probe is outside the array.
- Ports.Run: stops at the first fault; the decoding of the port number through a signed byte is left out, and cleanup does not race with a service thread.
- MessageQueue.QueueIsSafe: initialisation and the draining on shutdown are left out; the branch that drops a message would also fail on a null message, and is never reached.
* `bssplitstrcb`, which delivers the last chunk of a stream without searching it.
* `bformat`, `bStrfTime`, case mapping, the C-string variants: foreign calls or members that add nothing harder.
* Right and centred justification: a left justification and one insertion.
* The Android side's port cleanup and its D-Bus decoder, libusb, udev, Bluetooth, PulseAudio, FIFOs and the D-Bus calls themselves: input, output and user interface.
