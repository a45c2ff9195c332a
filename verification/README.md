# Verified models of five components

A Dafny project beside the repository. It models five of its components, in the form the code has
(classes, arrays and loops where the code updates things in place), and proves what they promise.

**cJSON** (`Json*.dfy`, `Utf8.dfy`). `JsonValue` holds the values and the text the printer owes them,
`JsonGrammar` the language the parser accepts as functions of the text that is left. `JsonParser` is the
recursive descent over a byte buffer with offset and depth, which builds linked nodes (`JsonTree`,
`JsonBuild`); `JsonPrinter` is the printer into a growing or fixed buffer; `JsonNodes` compares and
duplicates linked trees, `JsonEdit` and
`JsonEditObject` edit them; `JsonMinify` is the minifier in place. `Bits` relates the
shifts and masks of the code to arithmetic. The remaining modules relate these: `JsonRoundTrip` (printing
and parsing), `JsonStrings` (escapes), `JsonCompare` (what comparing means), `JsonMinifyParse`,
`JsonMinifyPrint`, `JsonMinifyPlain` and `JsonMinifyValue` (what minifying keeps). Five modules say the same
things once more without the functions the code is proved against, with the bytes themselves:
`JsonLiterals` (strings), `JsonNumerals` (numbers) and `JsonSyntax` (everything else) describe the accepted
texts as trees, `JsonLayout` the white space of printed ones by a scan; and `JsonMinifyPieces` cuts any text
into the pieces the minifier keeps or drops. A node carries a ghost `val`, the value it
stands for, and a set of nodes is a `Forest` when every node of it has a well-linked child list and a
value made of the values of its children.

**The frame synchroniser** (`Circular.dfy`, `Packetizer*.dfy`). `Circular` is the ring buffer as a class
over an array. `PacketizerSpec` is the synchroniser as a state machine over the bytes still buffered, with
a log of what became of each byte taken; `Packetizer` is the class with its flags, each method one step
of the machine; `PacketizerDelivery` proves what a stream of frames comes to, and
`PacketizerSwallow` what happens when a packet is asked for at the wrong moment; `PacketizerRoom` is about
the bytes that stay buffered.

**CRC-32** (`Crc.dfy`): the table-driven loop against the bit-serial register of section 8 of RFC 1952.

**The counting search tree** (`Bst.dfy`): nodes and loops against a map from keys to counts and data.

**Two decoders**: the request body reader over arbitrary short reads (`ReadBody.dfy`; `ReadBodyEnds.dfy` and
`ReadBodyCut.dfy` for streams that break off, `ReadBodyLines.dfy` for lines the standard does not have), and
the password database with its serializer and parser (`UserDb.dfy`, and `UserDbFormat.dfy` for the bytes).

`Bytes.dfy` holds the byte type and small definitions the others share.

## Results worth knowing

- Printing and parsing are inverse exactly up to nesting depth 1000 (`JsonRoundTrip.PrintThenParse`).
- The note in `cJSON.h:162` asks for 5 spare bytes in a caller's buffer. The code needs exactly one byte
  more than text and terminator, never fewer and never more (`JsonPrinter.PrintPreallocated`).
- `\u` with malformed digits is read as U+0000 and not rejected (`JsonStrings.MalformedIsNul`). The two
  passes over a string can then disagree about where escapes begin, and still the second one stays inside
  the space the first one allocated (`JsonParser.ParseBuffer.Room`).
- The accepted texts are exactly those of the trees in `JsonSyntax` nested at most 1000 deep
  (`JsonSyntax.TextReads`, `JsonSyntax.TextOf`). Beyond RFC 8259 they have leading zeros and other numerals
  of `strtod`, any byte up to 32 as white space, and the raw bytes, garbled escapes and final backslash of
  `JsonLiterals.UnitsOf`.
- Comparing a tree with its copy fails for an object that has one key twice with different values
  (`JsonCompare.RepeatedKeyDiffers`); `JsonCompare.EqualToCopy` says exactly when it holds.
- The minifier takes the end of a string that ends with a backslash for an escaped quote
  (`JsonMinifyParse.MinifiedDiffers`); `JsonMinifyPrint.MinifiedFormatted` says exactly when minifying
  undoes formatting, `JsonMinifyPlain.MinifiedUnformatted` when it leaves unformatted text alone, and
  `JsonMinifyValue.MinifiedKeepsValue` when it keeps the value of printed text.
- A sync word that ends with the last stored byte is not reported (`Circular.Circular.FindPattern`). So a call of
  `get_packet` at the wrong moment takes part of the next sync word for the end of a cut-off frame: it can
  return a packet nobody sent (`PacketizerSwallow.SpuriousRun`), and the next frame is lost.
  `PacketizerDelivery.Safe` describes these moments by counting bytes; the condition is exact
  (`PacketizerSwallow.PoliteIsExact`). Calls made between frames only are never such moments
  (`PacketizerDelivery.BetweenFramesDelivers`).
- A size line without a digit ends a chunked body as the last-chunk does (`ReadBodyLines.LooseEnd`), and a line
  feed alone ends any line of it (`ReadBodyLines.LooseChunk`).
- Some chunked bodies that break off are returned as complete, with status 200. Those are the ones cut
  between two chunks, in the line end behind the data of any chunk but the first (the line feed of an
  earlier chunk is still in the buffer), behind the CR of the last-chunk, and in leading zeros of a size
  line that an earlier line completes to a zero (`ReadBodyCut.AlwaysTaken`). At some other places it depends
  on what the stack held before (`ReadBodyCut.SometimesTaken`, `ReadBodyEnds.SettledIsExact`). Everywhere
  else the body is refused or the behaviour is undefined (`ReadBodyCut.CutIsExact`).
- The parser of the password database keeps no entry with an empty field, so a buffer that has one does
  not survive reading and writing (`UserDb.ReadIsWritten`).

## Model

| member | source | states |
|---|---|---|
| `Crc.Crc32State.MakeEntry` | challenges/ground_chals/has4-web/challenge/src/crc.c:13-21 | The inner loop of eight conditional shifts ends with the table entry that eight steps of the bit-serial register give for that byte. |
| `Crc.Crc32State.MakeCrcTable` | challenges/ground_chals/has4-web/challenge/src/crc.c:8-23 | All 256 cells of the table hold the entry of their index. |
| `Crc.TableStep` | challenges/ground_chals/has4-web/challenge/src/crc.c:55-55 | One table look-up with the shift by eight does to the register, for every register and byte, what feeding the eight bits one at a time does. |
| `Crc.Crc32State.Crc32` | challenges/ground_chals/has4-web/challenge/src/crc.c:39-58 | For every 32-bit starting value and every length (a negative one reads nothing) the result is the bit-serial CRC of the bytes, whether the table was already there or is built on this call; the flag and the table stay valid for the next call. |
| `Crc.Continued` | challenges/ground_chals/has4-web/challenge/src/crc.c:25-37 | Continuing from the CRC of a with b gives the CRC of a followed by b, as the usage comment promises. |
| `Crc.WindowInjective` | challenges/ground_chals/has4-web/challenge/src/crc.c:39-58 | From one register, two different windows of at most 32 bits lead to different registers. |
| `Crc.SuffixInjective` | challenges/ground_chals/has4-web/challenge/src/crc.c:39-58 | Different registers stay different under any common continuation. |
| `Crc.BurstDetected` | challenges/ground_chals/has4-web/challenge/src/crc.c:39-58 | Two different messages of one length that agree outside a window of 32 consecutive bits (at any bit offset) have different CRCs, for every starting value. |
| `Crc.FourBytesDetected` | challenges/ground_chals/has4-web/challenge/src/crc.c:39-58 | Two different messages of one length that differ only within four consecutive bytes have different CRCs. |
| `Crc.CheckValue` | challenges/ground_chals/has4-web/challenge/src/crc.c:39-58 | The published check value: the digits 1 to 9 give 0xcbf43926, so register, polynomial and both complements are those of the standard. |
| `Circular.Circular.PushBack` | challenges/satellite_chals/containers/h/circular.hpp:50-84 | Bulk push at any wrap position: refused exactly when the free space is too small, then nothing changes; otherwise the bytes are appended to the queue and no other cell of the storage is touched. |
| `Circular.Circular.PushEach` | challenges/satellite_chals/containers/h/circular.hpp:46-49 | Pushing the elements one at a time reaches the same queue and the same storage cells as the bulk push. |
| `Circular.Circular.PopFront` | challenges/satellite_chals/containers/h/circular.hpp:91-111 | Bulk pop with wrap-around: refused exactly when too few are stored, then nothing changes; otherwise the oldest elements are copied out in order and removed, and the destination is unchanged elsewhere. |
| `Circular.Circular.PopEach` | challenges/satellite_chals/containers/h/circular.hpp:85-90 | Popping the elements one at a time has the result of the bulk pop: the same elements in the same order, the same queue left. |
| `Circular.Circular.Remove` | challenges/satellite_chals/containers/h/circular.hpp:112-119 | Drops the oldest elements, the count clamped to what is stored. |
| `Circular.Circular.Clear` | challenges/satellite_chals/containers/h/circular.hpp:26-33 | Empties the queue and zeroes every cell. |
| `Circular.StoredWindow` | challenges/satellite_chals/containers/h/circular.hpp:60-82 | Writing elements behind the window, over the wrap or not, makes the window the old one followed by them. |
| `Circular.WindowDrop` | challenges/satellite_chals/containers/h/circular.hpp:115-117 | Advancing the front modulo the size leaves the window without its first elements. |
| `Circular.Circular.Matches` | challenges/satellite_chals/containers/h/circular.hpp:130-137 | The inner comparison loop, with indices modulo the size, decides whether the pattern occurs at that offset of the queue. |
| `Circular.Circular.FindPattern` | challenges/satellite_chals/containers/h/circular.hpp:120-146 | Finds the least matching offset strictly below size minus pattern length (so a match that ends with the last stored byte is not reported), or reports none with the clean-up offset the callers rely on. |
| `Circular.FindsUnique` | challenges/satellite_chals/containers/h/circular.hpp:120-146 | The search specification leaves one answer only: flag and offset are determined by the contents. |
| `PacketizerSpec.Round` | challenges/satellite_chals/cpp_base/h/Packetizer.hpp:81-106 | Each retry of the loop strictly shrinks twice the buffered bytes plus the sync flag, and a held header keeps the header size. |
| `PacketizerSpec.PacketizeDelivers` | challenges/satellite_chals/cpp_base/h/Packetizer.hpp:39-106 | A call of get_packet that finds a packet logs that one and no other; asked again, it returns the same packet and changes nothing. |
| `PacketizerSpec.ReturnedIsDelivered` | challenges/satellite_chals/cpp_base/h/Packetizer.hpp:39-73 | The packets get_packet returns over any run are exactly the packets the run adds to the log, in order. |
| `PacketizerSpec.NothingLost` | challenges/satellite_chals/cpp_base/h/Packetizer.hpp:107-125 | When no sync word is found, no discarded offset is one at which a sync word starts or could still be completed, whatever bytes come later. |
| `PacketizerSpec.LocateSyncAccounted` | challenges/satellite_chals/cpp_base/h/Packetizer.hpp:107-125 | Searching keeps the account: consumed input plus buffer is still exactly the accepted input, and packets still follow sync words. |
| `PacketizerSpec.UnpackHeaderAccounted` | challenges/satellite_chals/cpp_base/h/Packetizer.hpp:126-150 | Taking or refusing a header keeps the account. |
| `PacketizerSpec.UnpackMessageAccounted` | challenges/satellite_chals/cpp_base/h/Packetizer.hpp:151-185 | Delivering, dropping or waiting keeps the account, and a delivered packet has the length its own header announces. |
| `PacketizerSpec.PacketizeAccounted` | challenges/satellite_chals/cpp_base/h/Packetizer.hpp:81-106 | The whole retry loop keeps the account. |
| `PacketizerSpec.StepAccounted` | challenges/satellite_chals/cpp_base/h/Packetizer.hpp:33-73 | Every call from outside keeps the account, an overflowing push adding nothing. |
| `PacketizerSpec.RunAccounted` | challenges/satellite_chals/cpp_base/h/Packetizer.hpp:33-185 | Over every sequence of calls with arbitrary bytes: every accepted byte is delivered, a sync word, dropped, a held header or still buffered, in stream order. |
| `PacketizerSpec.PacketIsSlice` | challenges/satellite_chals/cpp_base/h/Packetizer.hpp:39-185 | Over every run from the start, each packet get_packet returns is a contiguous slice of the accepted input, directly behind a sync word, and as long as its own header says. |
| `PacketizerSpec.PacketsInOrder` | challenges/satellite_chals/cpp_base/h/Packetizer.hpp:39-185 | The slices of the packets returned, together with the sync words before them, are disjoint and in stream order. |
| `PacketizerRoom.SearchKeeps` | challenges/satellite_chals/cpp_base/h/Packetizer.hpp:107-125 | A search that finds nothing keeps exactly the last five bytes, or all when there are no more: junk leaves the buffer. |
| `PacketizerRoom.CallWaits` | challenges/satellite_chals/cpp_base/h/Packetizer.hpp:81-185 | From any state, a call that returns nothing leaves at most five bytes while it searches, less than a header behind a sync word, or less than the rest of a packet. |
| `PacketizerRoom.RoomAfterGet` | challenges/satellite_chals/cpp_base/h/Packetizer.hpp:33-125 | Over every run: after a call that returns nothing and searches, any push of at most the capacity less five bytes is accepted; in any waiting state, one of at most the capacity less the longest packet, or less five. |
| `PacketizerRoom.ClearForgets` | challenges/satellite_chals/cpp_base/h/Packetizer.hpp:56-62 | After clear, from any state, every run returns what it returns from the start and reaches the same buffer and phase. |
| `PacketizerRoom.PopRestarts` | challenges/satellite_chals/cpp_base/h/Packetizer.hpp:64-73 | After pop_packet every run returns what it returns from a search of the buffered bytes alone. |
| `PacketizerRoom.PushedWhole` | challenges/satellite_chals/cpp_base/h/Packetizer.hpp:33-37 | Two pushes that fit are the push of their bytes in order; one that does not fit changes nothing. |
| `PacketizerDelivery.FindFrame` | challenges/satellite_chals/cpp_base/h/Packetizer.hpp:107-125 | Where only the next frame starts a sync word, the search reports that frame exactly, as soon as one byte behind its sync word is buffered, and never an earlier offset. |
| `PacketizerDelivery.HeaderTracks` | challenges/satellite_chals/cpp_base/h/Packetizer.hpp:126-150 | Outside the swallowing state the header step waits, takes the header of the frame ahead, or gives up exactly on a cut-off frame and stands before the next one. |
| `PacketizerDelivery.MessageTracks` | challenges/satellite_chals/cpp_base/h/Packetizer.hpp:151-185 | Outside the swallowing state the body step delivers exactly the packet of a whole frame, gives up exactly on a cut-off one, or waits because the packet is not complete. |
| `PacketizerDelivery.PacketizeTracks` | challenges/satellite_chals/cpp_base/h/Packetizer.hpp:81-106 | One call moves past exactly the frames that counting the arrived bytes says, with the packets of the whole ones delivered, and returns a packet exactly when that count says so. It may be made whenever it meets no cut-off frame in the swallowing state on its way to the first whole one. |
| `PacketizerDelivery.RunTracks` | challenges/satellite_chals/cpp_base/h/Packetizer.hpp:33-185 | The same over any sequence of pushes, gets and pops, the frames still ahead carried along. |
| `PacketizerDelivery.Delivery` | challenges/satellite_chals/cpp_base/h/Packetizer.hpp:33-185 | For any optional junk and any stream of whole and cut-off frames, however the bytes are split over pushes and calls interleave, the packets get_packet returns are a prefix of the packets of the whole frames, and after a call that returns nothing they include every packet that has completely arrived. |
| `PacketizerDelivery.AllDelivered` | challenges/satellite_chals/cpp_base/h/Packetizer.hpp:33-185 | Once everything is pushed and a call returns nothing, the packets returned are exactly those of the whole frames, in order: cut-off frames, in header or body, cost nothing but themselves. |
| `PacketizerDelivery.WholeFramesAreSafe` | challenges/satellite_chals/cpp_base/h/Packetizer.hpp:33-185 | In a stream without cut-off frames the condition on the moments of get_packet asks nothing: any run whose pushes fit and that pops only what it got meets it. |
| `PacketizerDelivery.BetweenFramesIsSafe` | challenges/satellite_chals/cpp_base/ut/TestPacketizer.hpp:195-242 | Whichever frames are cut, a call made when a frame has just been pushed to its end (and not only its sync word), and nothing of the next, is safe. |
| `PacketizerDelivery.BetweenFramesIsPolite` | challenges/satellite_chals/cpp_base/h/Packetizer.hpp:33-185 | Any run whose pushes fit, that pops only what it got and asks for packets between frames only, meets the condition of Delivery, whichever frames are cut off. |
| `PacketizerDelivery.BetweenFramesDelivers` | challenges/satellite_chals/cpp_base/h/Packetizer.hpp:33-185 | Under such a schedule, once everything is pushed and a call returns nothing, exactly the packets of the whole frames were returned. |
| `PacketizerSwallow.UnsafeGet` | challenges/satellite_chals/cpp_base/h/Packetizer.hpp:81-185 | A call outside the condition, in any phase: it returns a packet nobody sent, which begins with the fragment of a cut-off frame and goes on with bytes of the next sync word, always when the fragment holds a whole header; else it returns such a packet or keeps such a header. |
| `PacketizerSwallow.SafeIsExact` | challenges/satellite_chals/cpp_base/h/Packetizer.hpp:81-185 | A call of get_packet leaves the machine in the stream, with exactly the packets of the frames it passed delivered, if and only if the condition holds. |
| `PacketizerSwallow.PoliteIsExact` | challenges/satellite_chals/cpp_base/h/Packetizer.hpp:33-185 | A run whose pushes fit and that pops only what it got stays in the stream after every call if and only if no call is made outside the condition. |
| `PacketizerSwallow.NextFrameLost` | challenges/satellite_chals/cpp_base/h/Packetizer.hpp:107-185 | After a call outside the condition, whatever calls and bytes follow, no packet is ever returned from the place where the next frame has its packet. |
| `PacketizerSwallow.SpuriousRun` | challenges/satellite_chals/cpp_base/h/Packetizer.hpp:151-185 | A concrete run from the start, of one cut-off and one whole frame, that returns a packet nobody sent and not the one that was sent. |
| `Packetizer.Packetizer.PushBytes` | challenges/satellite_chals/cpp_base/h/Packetizer.hpp:33-37 | One push step of the machine on the object: appended, or refused without a change when it does not fit. |
| `Packetizer.Packetizer.GetPacket` | challenges/satellite_chals/cpp_base/h/Packetizer.hpp:39-55 | One get step; the packet at the front of the line is returned exactly when header and body are complete. |
| `Packetizer.Packetizer.PopPacket` | challenges/satellite_chals/cpp_base/h/Packetizer.hpp:64-73 | One pop step: flags reset, packet memory zeroed, buffer kept. |
| `Packetizer.Packetizer.Clear` | challenges/satellite_chals/cpp_base/h/Packetizer.hpp:56-62 | One clear step. |
| `Packetizer.Packetizer.Packetize` | challenges/satellite_chals/cpp_base/h/Packetizer.hpp:81-106 | The loop over the three flags reaches the state of the specified retry loop. |
| `Packetizer.Packetizer.FindSync` | challenges/satellite_chals/cpp_base/h/Packetizer.hpp:109-111 | Searching the circular buffer gives what searching its contents gives. |
| `Packetizer.Packetizer.LocateSync` | challenges/satellite_chals/cpp_base/h/Packetizer.hpp:107-125 | Removes junk and sync word, or only the bytes that cannot matter. |
| `Packetizer.Packetizer.UnpackHeader` | challenges/satellite_chals/cpp_base/h/Packetizer.hpp:126-150 | Takes the header into the packet memory, waits, or asks for another round. |
| `Packetizer.Packetizer.UnpackMessage` | challenges/satellite_chals/cpp_base/h/Packetizer.hpp:151-185 | Completes the packet in memory, waits, or drops the header for another round. |
| `Utf8.Unique` | challenges/ground_chals/has4-web/challenge/src/cJSON.c:715-764 | No two UTF-8 forms (section 3 of RFC 3629) stand for one code point. |
| `Utf8.EncodeIsUtf8` | challenges/ground_chals/has4-web/challenge/src/cJSON.c:715-764 | For every code point but surrogates the bytes emitted are its UTF-8 form, and the only one. |
| `Utf8.Examples` | challenges/ground_chals/has4-web/challenge/src/cJSON.c:715-764 | The characters of the examples in section 7 of RFC 3629 get the bytes printed there. |
| `JsonLiterals.HexIs` | challenges/ground_chals/has4-web/challenge/src/cJSON.c:615-638 | Exactly the bytes of the two tables 0 to f and 0 to F, written out, are hexadecimal digits. |
| `JsonLiterals.HexDigits` | challenges/ground_chals/has4-web/challenge/src/cJSON.c:622-634 | Each stands for its place in its table, upper case as lower case. |
| `JsonLiterals.LetterReads` | challenges/ground_chals/has4-web/challenge/src/cJSON.c:832-857 | Each of the eight escapes of section 7 of RFC 8259, letters and bytes written out, is read as the byte the standard gives it, the solidus included. |
| `JsonLiterals.OtherLetterFails` | challenges/ground_chals/has4-web/challenge/src/cJSON.c:868-870 | A backslash before any other letter but u makes the string fail, whatever follows. |
| `JsonLiterals.UnitsRead` | challenges/ground_chals/has4-web/challenge/src/cJSON.c:819-877 | Any sequence of raw bytes, letter escapes, escaped units and surrogate pairs is read as the bytes they stand for, one after another. |
| `JsonLiterals.UnitsOf` | challenges/ground_chals/has4-web/challenge/src/cJSON.c:819-877 | Conversely whatever is accepted between the quotes is such a sequence; beyond the standard there are raw bytes that are control characters or not UTF-8, `\u` with four bytes that are not all digits (U+0000), a bare quote behind such an escape, and a backslash that comes last. |
| `JsonLiterals.ClosesAt` | challenges/ground_chals/has4-web/challenge/src/cJSON.c:786-808 | A literal ends at the first quote with no escaping backslash before it. |
| `JsonLiterals.StandardReads` | challenges/ground_chals/has4-web/challenge/src/cJSON.c:773-899 | Every literal of standard units is accepted with its meaning, as far as a C string keeps it. |
| `JsonLiterals.LiteralOf` | challenges/ground_chals/has4-web/challenge/src/cJSON.c:773-899 | Every accepted literal is a quote, units of these kinds and a quote, with their meaning. |
| `JsonStrings.Utf16Reads` | challenges/ground_chals/has4-web/challenge/src/cJSON.c:662-713 | Every escape of a code point, one \uXXXX or a surrogate pair, upper or lower case digits, is read as the code point section 7 of RFC 8259 assigns, with the right number of bytes used. |
| `JsonStrings.EscapeMeaning` | challenges/ground_chals/has4-web/challenge/src/cJSON.c:860-873 | Inside a string such an escape contributes exactly the UTF-8 form of its code point. |
| `JsonStrings.LoneSurrogate` | challenges/ground_chals/has4-web/challenge/src/cJSON.c:671-703 | A low surrogate, or a high one that no low one follows, makes the string fail. |
| `JsonStrings.MalformedIsNul` | challenges/ground_chals/has4-web/challenge/src/cJSON.c:615-648 | Four characters that are not all hexadecimal digits are not rejected: the escape is read as U+0000. |
| `JsonStrings.QuotedReads` | challenges/ground_chals/has4-web/challenge/src/cJSON.c:773-1021 | Any NUL-free byte string, printed with all its escapes and read back, is the same string with the rest of the text left. |
| `JsonLiterals.PrintedByte` | challenges/ground_chals/has4-web/challenge/src/cJSON.c:972-1016 | The two-character escapes printed are those of seven bytes, written out (the tab is `\t`); other bytes below 32 become `\u00` and two small digits, all others stay. |
| `JsonLiterals.PrintedString` | challenges/ground_chals/has4-web/challenge/src/cJSON.c:972-1016 | A printed string is its printed bytes in order. |
| `JsonRoundTrip.NumberReads` | challenges/ground_chals/has4-web/challenge/src/cJSON.c:305-379 | The digits printed for an int are read back as that int, within the 63 characters the parser copies. |
| `JsonNumerals.NumeralReads` | challenges/ground_chals/has4-web/challenge/src/cJSON.c:305-379 | Every numeral of at most 63 characters (sign, digits, a point with digits, an exponent) that no number character follows is read to its end with its exact value, which the lemma gives by counting digits and powers of ten. |
| `JsonNumerals.NumberOf` | challenges/ground_chals/has4-web/challenge/src/cJSON.c:305-379 | Conversely every number that is read is such a numeral with that value. |
| `JsonNumerals.DecimalIs` | challenges/ground_chals/has4-web/challenge/src/cJSON.c:565-568 | A printed int is its decimal digits without leading zeros, behind a minus sign exactly when it is negative. |
| `JsonRoundTrip.ValueReads` | challenges/ground_chals/has4-web/challenge/src/cJSON.c:1312-1825 | Every value with NUL-free strings and int-range numbers, printed at any indentation, formatted or not, and followed by any text that cannot continue a number, is parsed back exactly, the rest left over, provided its nesting fits. |
| `JsonRoundTrip.PrintThenParse` | challenges/ground_chals/has4-web/challenge/src/cJSON.c:1079-1825 | Printing and parsing gives the value back with all text consumed if and only if it is nested at most 1000 deep, with and without required termination. |
| `JsonRoundTrip.ParsedValue` | challenges/ground_chals/has4-web/challenge/src/cJSON.c:1312-1711 | What the parser accepts is nested within the limit left, has NUL-free strings and keys and, where its numbers are integers in range, is printable without loss. |
| `JsonRoundTrip.ParsePrintParse` | challenges/ground_chals/has4-web/challenge/src/cJSON.c:1079-1825 | For every accepted text with integer numbers, printing its value and parsing again gives the same value. |
| `JsonRoundTrip.TextNulFree` | challenges/ground_chals/has4-web/challenge/src/cJSON.c:902-1825 | The printed text holds no NUL byte, on which the strlen of update_offset and every reader rely. |
| `JsonSyntax.TreeReads` | challenges/ground_chals/has4-web/challenge/src/cJSON.c:1312-1711 | The language as trees with every byte written out (gaps, words, numerals, literals, brackets): the text of any tree nested within the limit is read as what the tree stands for, the rest left. |
| `JsonSyntax.TreeOf` | challenges/ground_chals/has4-web/challenge/src/cJSON.c:1312-1711 | Conversely whatever is accepted, at any depth, is the text of such a tree, and its value is what the tree stands for. |
| `JsonSyntax.TextReads` | challenges/ground_chals/has4-web/challenge/src/cJSON.c:1079-1172 | A whole text: an optional mark, a gap, a tree nested at most 1000 deep, and, where the end is required, only a gap behind it, is accepted with the value of the tree. |
| `JsonSyntax.TextOf` | challenges/ground_chals/has4-web/challenge/src/cJSON.c:1079-1172 | Conversely every accepted text is one of these. |
| `JsonLayout.TextIsLaid` | challenges/ground_chals/has4-web/challenge/src/cJSON.c:1539-1825 | A scan of the printed bytes, literals skipped, finds between any two tokens exactly the white space that is due: formatted, one space behind a comma of an array, a line break and one tab for each open bracket before each member, the same with one tab less before a closing brace, one tab behind a colon, and no other; unformatted, none at all. |
| `JsonTree.Saturate` | challenges/ground_chals/has4-web/challenge/src/cJSON.c:361-373 | The int stored beside a number is clamped to the int range, and is the number itself when that is an integer in range. |
| `JsonTree.SaturateMeans` | challenges/ground_chals/has4-web/challenge/src/cJSON.c:361-373 | At and beyond the ends of the int range the stored int is that end, between them the number truncated towards zero. |
| `JsonTree.Item.Size` | challenges/ground_chals/has4-web/challenge/src/cJSON.c:1828-1849 | Walking the next chain counts the children. |
| `JsonTree.Item.GetArrayItem` | challenges/ground_chals/has4-web/challenge/src/cJSON.c:1851-1868 | Returns the child at the index, or NULL beyond the end. |
| `JsonTree.Item.AddItem` | challenges/ground_chals/has4-web/challenge/src/cJSON.c:1956-1987 | Appends to the sequence of children using only the tail pointer in the head; refuses NULL and the parent itself without a change. The list invariant is kept, except that behind other children the list goes on with the next pointer the item came with, if it had one. |
| `JsonTree.Item.Detach` | challenges/ground_chals/has4-web/challenge/src/cJSON.c:2187-2221 | Removes exactly that child from the sequence, keeps the list invariant whether it was first, inner or last, and isolates the node. |
| `JsonTree.Item.DetachFirst` | challenges/ground_chals/has4-web/challenge/src/cJSON.c:2194-2214 | The case of the head: the child pointer moves and the new head takes over the tail pointer. |
| `JsonTree.Item.DetachInner` | challenges/ground_chals/has4-web/challenge/src/cJSON.c:2194-2214 | The other cases: the neighbours are joined, and detaching the last makes its predecessor the tail. |
| `JsonTree.Item.DetachAt` | challenges/ground_chals/has4-web/challenge/src/cJSON.c:2223-2231 | By index; a negative or too large index returns NULL and changes nothing. |
| `JsonTree.Item.InsertAt` | challenges/ground_chals/has4-web/challenge/src/cJSON.c:2263-2290 | Inserts before the child at that index, appends when there is none, refuses a negative index, and keeps the list invariant; only an append leaves the next pointer the item came with. |
| `JsonTree.Item.InsertFirst` | challenges/ground_chals/has4-web/challenge/src/cJSON.c:2279-2288 | The case of the head, in which the new node takes over the tail pointer. |
| `JsonTree.Item.InsertInner` | challenges/ground_chals/has4-web/challenge/src/cJSON.c:2279-2288 | The inner case. |
| `JsonTree.Item.Replace` | challenges/ground_chals/has4-web/challenge/src/cJSON.c:2292-2339 | Puts the replacement in the place of that child, keeps the list invariant and isolates the old node; replacing a node by itself changes nothing. |
| `JsonTree.Item.ReplaceFirst` | challenges/ground_chals/has4-web/challenge/src/cJSON.c:2304-2334 | The case of the head, alone in the list or not. |
| `JsonTree.Item.ReplaceInner` | challenges/ground_chals/has4-web/challenge/src/cJSON.c:2304-2334 | The other cases, the tail pointer in the head kept right. |
| `JsonEdit.AddToArray` | challenges/ground_chals/has4-web/challenge/src/cJSON.c:1992-1995 | Adding to a top-level array of a tree gives a tree again, and the array stands for its elements and the value of the new one. |
| `JsonEdit.InsertInArray` | challenges/ground_chals/has4-web/challenge/src/cJSON.c:2263-2290 | The same for inserting: the array stands for its elements with the new value at that index, or at the end. |
| `JsonEdit.DetachFromArray` | challenges/ground_chals/has4-web/challenge/src/cJSON.c:2223-2231 | The same for detaching by index: the array stands for the other elements, and the item is a tree of its own with its old value. |
| `JsonEdit.ReplaceInArray` | challenges/ground_chals/has4-web/challenge/src/cJSON.c:2341-2349 | The same for replacing by index: the array stands for its elements with the new value in that place; an index outside the list is refused and the value stays. |
| `JsonEditObject.AddToObject` | challenges/ground_chals/has4-web/challenge/src/cJSON.c:2011-2051 | Adding to a top-level object under a name gives a tree again, and the object stands for its members and the new one behind them, also when it had that name already. |
| `JsonEditObject.DetachFromObject` | challenges/ground_chals/has4-web/challenge/src/cJSON.c:2245-2250 | Detaching by name takes out the first member of that name; the object stands for the others, and the item is a tree of its own with its old value. NULL and no change when there is none. |
| `JsonEditObject.ReplaceInObject` | challenges/ground_chals/has4-web/challenge/src/cJSON.c:2351-2382 | Replacing by name puts the new value in the place of the first member of that name; without one it is refused, the object keeps its value, and the replacement has the name all the same. |
| `JsonBuild.Join` | challenges/ground_chals/has4-web/challenge/src/cJSON.c:1493-1497 | Linking one more node to the current tail extends a chain with correct next and prev links. |
| `JsonBuild.Append` | challenges/ground_chals/has4-web/challenge/src/cJSON.c:1485-1497 | The new node of parse_array and parse_object: head or appended to the list under construction. |
| `JsonBuild.Attach` | challenges/ground_chals/has4-web/challenge/src/cJSON.c:2758-2770 | The same for a finished child in Duplicate. |
| `JsonBuild.Close` | challenges/ground_chals/has4-web/challenge/src/cJSON.c:1518-1523 | Setting the prev of the head to the tail and the child of the parent turns the finished chain into a list that meets the list invariant, all of its nodes owned by that parent. |
| `JsonBuild.CloseArray` | challenges/ground_chals/has4-web/challenge/src/cJSON.c:1515-1523 | Closed over an array, the nodes stand for exactly the values parsed, in order. |
| `JsonBuild.CloseObject` | challenges/ground_chals/has4-web/challenge/src/cJSON.c:1691-1699 | Closed over an object, the nodes stand for exactly the members parsed, in order. |
| `JsonParser.ParseBuffer.SkipWhitespace` | challenges/ground_chals/has4-web/challenge/src/cJSON.c:1038-1061 | Skips every byte up to 32 and stays inside the buffer, also when the text ends. |
| `JsonParser.ParseBuffer.ParseHex4` | challenges/ground_chals/has4-web/challenge/src/cJSON.c:615-648 | With shifts and additions on an unsigned word: the value of four digits, 0 when one of them is not hexadecimal. |
| `Bits.JoinedValue` | challenges/ground_chals/has4-web/challenge/src/cJSON.c:620-644 | Adding a digit to a word shifted left by four multiplies its value by 16 and adds the digit. |
| `Bits.SurrogatePair` | challenges/ground_chals/has4-web/challenge/src/cJSON.c:707-707 | The masks and shifts on a surrogate pair compute the code point arithmetic of UTF-16. |
| `Bits.Continuation` | challenges/ground_chals/has4-web/challenge/src/cJSON.c:751-751 | The masks on a continuation byte give 0x80 plus the six lowest bits. |
| `Bits.ShiftSix` | challenges/ground_chals/has4-web/challenge/src/cJSON.c:752-752 | The shift between continuation bytes divides by 64. |
| `Bits.Lead` | challenges/ground_chals/has4-web/challenge/src/cJSON.c:755-762 | The masks on the first byte give its mark plus the remaining bits. |
| `JsonParser.ParseBuffer.Utf16ToUtf8` | challenges/ground_chals/has4-web/challenge/src/cJSON.c:652-770 | Writes the UTF-8 form of the escape and returns the bytes used, or writes nothing and returns 0; bytes in front stay. |
| `JsonParser.ParseBuffer.WriteUtf8` | challenges/ground_chals/has4-web/challenge/src/cJSON.c:715-764 | The backward loop over continuation bytes and the first byte write the UTF-8 form. |
| `JsonParser.ParseBuffer.FindClose` | challenges/ground_chals/has4-web/challenge/src/cJSON.c:786-808 | The first pass finds the closing quote inside the buffer or fails, and counts the escapes it skipped. |
| `JsonParser.BeforeMany` | challenges/ground_chals/has4-web/challenge/src/cJSON.c:790-804 | Escapes are two bytes apart at least, so k of them take 2k bytes, from any position at all. |
| `JsonParser.ParseBuffer.FitsMore` | challenges/ground_chals/has4-web/challenge/src/cJSON.c:821-874 | Whatever position the second pass is at, also one inside an escape of the first pass, each of its steps keeps the written length within the bytes passed less the escapes passed. |
| `JsonParser.ParseBuffer.Room` | challenges/ground_chals/has4-web/challenge/src/cJSON.c:810-877 | Hence the room allocated by the first pass is never exceeded, terminator included. |
| `JsonParser.ParseBuffer.SecondPass` | challenges/ground_chals/has4-web/challenge/src/cJSON.c:819-877 | Every write of the second pass is inside the allocation, on every text, and the result is the unescaped string with a terminator, or a failure exactly for an invalid escape. |
| `JsonParser.ParseBuffer.ParseString` | challenges/ground_chals/has4-web/challenge/src/cJSON.c:773-899 | Both passes together: accepts exactly the literals of the grammar, stores the C string of the value and moves behind the closing quote. |
| `JsonParser.ParseBuffer.ParseNumber` | challenges/ground_chals/has4-web/challenge/src/cJSON.c:305-379 | Copies at most 63 number characters and accepts what strtod accepts of them. |
| `JsonParser.ParseBuffer.ParseValue` | challenges/ground_chals/has4-web/challenge/src/cJSON.c:1312-1364 | For every NUL-terminated text: ends, reads only inside the buffer, agrees with the grammar in acceptance, value and rest, moves the offset forward, restores the depth, and builds nodes that meet the list invariant at every level. |
| `JsonParser.ParseBuffer.ParseArray` | challenges/ground_chals/has4-web/challenge/src/cJSON.c:1441-1536 | The same for arrays, with the nesting limit checked on entry. |
| `JsonParser.ParseBuffer.Elements` | challenges/ground_chals/has4-web/challenge/src/cJSON.c:1473-1513 | The do-while over elements consumes a comma before each further one and builds a linked list of the values parsed. |
| `JsonParser.ParseBuffer.ParseObject` | challenges/ground_chals/has4-web/challenge/src/cJSON.c:1601-1711 | The same for objects. |
| `JsonParser.ParseBuffer.Members` | challenges/ground_chals/has4-web/challenge/src/cJSON.c:1631-1689 | The do-while over members builds a linked list of keys and values. |
| `JsonParser.ParseBuffer.Key` | challenges/ground_chals/has4-web/challenge/src/cJSON.c:1657-1676 | A key is a string literal parsed into the node and moved to its name, then a colon. |
| `JsonParser.ParseBuffer.SkipUtf8Bom` | challenges/ground_chals/has4-web/challenge/src/cJSON.c:1064-1077 | A byte order mark is skipped at offset 0 only, and only when the fifth byte of the buffer, terminator included, is accessible. |
| `JsonParser.ParseBuffer.ParseRoot` | challenges/ground_chals/has4-web/challenge/src/cJSON.c:1120-1138 | Mark, space, value and, where required, nothing behind it but space. |
| `JsonParser.ParseWithOpts` | challenges/ground_chals/has4-web/challenge/src/cJSON.c:1079-1172 | Returns a tree for exactly the accepted texts, standing for the value of the grammar and belonging to no other node, together with the end of the parse; NULL otherwise. |
| `JsonPrinter.PrintBuffer.Ensure` | challenges/ground_chals/has4-web/challenge/src/cJSON.c:439-522 | Succeeds exactly when the bytes asked for and a terminator fit below the limit (INT_MAX, or the fixed length); what is printed so far survives the growth, and a fixed buffer is never replaced. |
| `JsonPrinter.PrintBuffer.UpdateOffset` | challenges/ground_chals/has4-web/challenge/src/cJSON.c:525-535 | With a terminator behind what the last call wrote, the strlen moves the offset to its end. |
| `JsonPrinter.PrintBuffer.PrintNumber` | challenges/ground_chals/has4-web/challenge/src/cJSON.c:545-612 | An int-range number is written with %d and terminated, in reserved space only. |
| `JsonPrinter.PrintBuffer.CountEscapes` | challenges/ground_chals/has4-web/challenge/src/cJSON.c:929-953 | The first loop counts exactly the bytes the escapes add. |
| `JsonPrinter.PrintBuffer.EscapeString` | challenges/ground_chals/has4-web/challenge/src/cJSON.c:972-1020 | The second loop writes exactly the escaped string within that count. |
| `JsonPrinter.PrintBuffer.PrintStringPtr` | challenges/ground_chals/has4-web/challenge/src/cJSON.c:902-1021 | Quoted and escaped text with a terminator, every write in reserved space; both the copying and the escaping branch. |
| `JsonPrinter.PrintBuffer.PrintValue` | challenges/ground_chals/has4-web/challenge/src/cJSON.c:1367-1438 | Prints exactly the specified text with a terminator, every write inside space reserved by the last ensure call, and succeeds if and only if offset plus text plus 2 does not exceed the limit, whatever the buffer size or the growths. |
| `JsonPrinter.PrintBuffer.PrintArray` | challenges/ground_chals/has4-web/challenge/src/cJSON.c:1539-1598 | The same for arrays, depth restored. |
| `JsonPrinter.PrintBuffer.PrintElems` | challenges/ground_chals/has4-web/challenge/src/cJSON.c:1562-1586 | The loop over elements writes values and separators in order. |
| `JsonPrinter.PrintBuffer.PrintObject` | challenges/ground_chals/has4-web/challenge/src/cJSON.c:1714-1825 | The same for objects, with tabs and newlines when formatted. |
| `JsonPrinter.PrintBuffer.PrintMembers` | challenges/ground_chals/has4-web/challenge/src/cJSON.c:1741-1805 | The loop over members writes indentation, key, colon, value and separator of each in order. |
| `JsonPrinter.DecimalShort` | challenges/ground_chals/has4-web/challenge/src/cJSON.c:551-586 | An int takes at most 11 characters, so the 26-byte buffer of print_number holds it. |
| `JsonPrinter.EscapeNone` | challenges/ground_chals/has4-web/challenge/src/cJSON.c:961-970 | When the count is 0 escaping is the identity, so copying is right. |
| `JsonPrinter.Print` | challenges/ground_chals/has4-web/challenge/src/cJSON.c:1187-1249 | The printed text with its terminator in a block of exactly that size, NULL exactly when it cannot fit below INT_MAX. |
| `JsonPrinter.PrintBuffered` | challenges/ground_chals/has4-web/challenge/src/cJSON.c:1262-1290 | The same text for every starting size that is not negative, when the buffer grows by realloc; NULL for a negative size. |
| `JsonPrinter.PrintPreallocated` | challenges/ground_chals/has4-web/challenge/src/cJSON.c:1292-1309 | A caller's buffer, of at least the length given, gets that same text and its terminator exactly when the length is one byte more than they need or greater, and fails otherwise; the 5 bytes of cJSON.h:162 are more than enough. Bytes behind that length are never written. |
| `JsonCompare.Symmetric` | challenges/ground_chals/has4-web/challenge/src/cJSON.c:2986-3109 | Comparing is symmetric on all values, repeated keys and non-integer numbers included. |
| `JsonCompare.CloseInts` | challenges/ground_chals/has4-web/challenge/src/cJSON.c:538-542 | On int-range integers the relative tolerance of compare_double is equality. |
| `JsonCompare.CloseMeans` | challenges/ground_chals/has4-web/challenge/src/cJSON.c:538-542 | Two positive numbers, or two negative ones, are equal if and only if they differ by at most 2^-52 of the larger. |
| `JsonCompare.SignsDiffer` | challenges/ground_chals/has4-web/challenge/src/cJSON.c:538-542 | Numbers on different sides of 0, or one of them 0, are equal only when they are the same. |
| `JsonCompare.CloseExamples` | challenges/ground_chals/has4-web/challenge/src/cJSON.c:538-542 | 1 equals 1 + 2^-52 but not 1 + 2^-51, and 1.2 is not equal to 1.9. |
| `JsonCompare.EqualMeans` | challenges/ground_chals/has4-web/challenge/src/cJSON.c:2986-3109 | On integer trees Compare holds if and only if both trees are coherent (every repeated key repeats the same value) and they are equal up to the order of members and repetition. |
| `JsonCompare.DistinctEqual` | challenges/ground_chals/has4-web/challenge/src/cJSON.c:2986-3109 | Where each object has distinct keys, Compare is exactly equality up to the order of members. |
| `JsonCompare.DistinctSame` | challenges/ground_chals/has4-web/challenge/src/cJSON.c:2986-3109 | The same with that equality as a relation of its own: equal leaves, elements pairwise, as many members and each with its like, of the same name, in the other. |
| `JsonCompare.EqualToCopy` | challenges/ground_chals/has4-web/challenge/src/cJSON.c:2986-3109 | A tree compares equal to a copy of itself if and only if it is coherent; distinct keys suffice. |
| `JsonCompare.RepeatedKeyDiffers` | challenges/ground_chals/has4-web/challenge/src/cJSON.c:3072-3101 | A value with one key twice and two values does not compare equal to its copy. |
| `JsonCompare.Transitive` | challenges/ground_chals/has4-web/challenge/src/cJSON.c:2986-3109 | On integer trees comparing is transitive. |
| `JsonNodes.GetObjectItem` | challenges/ground_chals/has4-web/challenge/src/cJSON.c:1880-1910 | Returns the first child with that key, or NULL. |
| `JsonNodes.Compare` | challenges/ground_chals/has4-web/challenge/src/cJSON.c:2986-3109 | On linked trees decides the specified relation of the values; NULL equals nothing, a node equals itself. |
| `JsonNodes.CompareElements` | challenges/ground_chals/has4-web/challenge/src/cJSON.c:3044-3066 | The loop over two child chains compares pairwise and rejects different lengths. |
| `JsonNodes.CompareMembers` | challenges/ground_chals/has4-web/challenge/src/cJSON.c:3070-3085 | One direction of the object comparison: each member has an equal first namesake in the other. |
| `JsonNodes.Duplicate` | challenges/ground_chals/has4-web/challenge/src/cJSON.c:2706-2787 | A fresh tree with the same value and key, meeting the list invariant at every level and sharing no node with the original; without recursion only the node itself. |
| `JsonNodes.DuplicateKids` | challenges/ground_chals/has4-web/challenge/src/cJSON.c:2749-2776 | The loop copies every child in order into a chain under construction. |
| `JsonMinify.SkipOnelineComment` | challenges/ground_chals/has4-web/challenge/src/cJSON.c:2789-2800 | Stops behind the newline or at the terminator, without reading past it. |
| `JsonMinify.SkipMultilineComment` | challenges/ground_chals/has4-web/challenge/src/cJSON.c:2802-2814 | Stops behind the closing mark or at the terminator. |
| `JsonMinify.MinifyString` | challenges/ground_chals/has4-web/challenge/src/cJSON.c:2816-2836 | Copies a literal up to its closing quote or the terminator, the write index never passing the read index. |
| `JsonMinify.Minify` | challenges/ground_chals/has4-web/challenge/src/cJSON.c:2838-2884 | In place on every NUL-terminated text: the buffer ends up holding the minified text and a terminator, and bytes behind the text are untouched. |
| `JsonMinifyPieces.PieceMinified` | challenges/ground_chals/has4-web/challenge/src/cJSON.c:2838-2884 | Each piece in front of any text is kept or dropped as a whole and the rest is minified by itself: spaces, closed comments and lone slashes are dropped, strings and other bytes kept, and a comment that never ends leaves nothing. |
| `JsonMinifyPieces.PiecesMinified` | challenges/ground_chals/has4-web/challenge/src/cJSON.c:2838-2884 | However a text is cut into such pieces, minifying it leaves exactly those that are kept. |
| `JsonMinifyPieces.PiecesOf` | challenges/ground_chals/has4-web/challenge/src/cJSON.c:2838-2884 | Every text, malformed ones included, can be cut into such pieces. |
| `JsonMinify.SpanStays` | challenges/ground_chals/has4-web/challenge/src/cJSON.c:2816-2836 | A literal copied keeps its end, whatever follows it in the minified text. |
| `JsonMinify.Idempotent` | challenges/ground_chals/has4-web/challenge/src/cJSON.c:2838-2884 | Minifying twice is minifying once, on every text, malformed ones included. |
| `JsonMinifyParse.SameClose` | challenges/ground_chals/has4-web/challenge/src/cJSON.c:2816-2836 | Without a backslash in front of the closing quote, minifier and parser agree on the end of a literal. |
| `JsonMinifyParse.ValueKept` | challenges/ground_chals/has4-web/challenge/src/cJSON.c:2838-2884 | Parsing the minified rest of a text gives the value parsed from the original and the minified rest behind it. |
| `JsonMinifyParse.MinifiedParses` | challenges/ground_chals/has4-web/challenge/src/cJSON.c:2838-2884 | For every text accepted with required termination in which no literal has an escaped backslash directly before its closing quote, the minified text is accepted and stands for the same value. |
| `JsonMinifyParse.MinifiedDiffers` | challenges/ground_chals/has4-web/challenge/src/cJSON.c:2816-2836 | The array of a backslash and a space, printed, is changed by minifying into the array of a backslash and an empty string. |
| `JsonMinifyPrint.EndMissed` | challenges/ground_chals/has4-web/challenge/src/cJSON.c:2822-2835 | Behind every string that ends with a backslash the minifier overlooks the closing quote and copies on to the end of what it takes for the literal. |
| `JsonMinifyPrint.TextKept` | challenges/ground_chals/has4-web/challenge/src/cJSON.c:2838-2884 | A value whose strings and keys do not end with a backslash is minified from its formatted to its unformatted text, whatever follows. |
| `JsonMinifyPrint.Spoiled` | challenges/ground_chals/has4-web/challenge/src/cJSON.c:2816-2884 | With any other final backslash, or with one behind which the texts already differ, the minified text is not the unformatted one. |
| `JsonMinifyPrint.MinifiedFormatted` | challenges/ground_chals/has4-web/challenge/src/cJSON.c:2838-2884 | Minifying formatted text gives exactly the unformatted text if and only if no string or key ends with a backslash, except a last string with nothing behind it but closing brackets of arrays. |
| `JsonMinifyPlain.QuotedStays` | challenges/ground_chals/has4-web/challenge/src/cJSON.c:2816-2884 | How one printed string passes: in step it is kept, and the minifier stays in step unless it ends with a backslash; out of step it is kept only if no space or slash stands before its first quote, and a quote in it brings the minifier back. |
| `JsonMinifyPlain.MinifiedUnformatted` | challenges/ground_chals/has4-web/challenge/src/cJSON.c:2838-2884 | Minifying unformatted text changes nothing if and only if, from string to string in the order they are printed, none that the minifier meets out of step holds a space or a slash before its first quote. |
| `JsonMinifyValue.NeverFirst` | challenges/ground_chals/has4-web/challenge/src/cJSON.c:2838-2884 | In front of printed text the minifier, when it takes itself to be outside a string, produces nothing the parser reads as a string that begins with a space or a slash. |
| `JsonMinifyValue.QuotedLost` | challenges/ground_chals/has4-web/challenge/src/cJSON.c:2838-2884 | A printed string that the minifier meets out of step and that has a space or a slash before its first quote is afterwards read as another string, or not at all, whatever printed text follows. |
| `JsonMinifyValue.ValueOut` | challenges/ground_chals/has4-web/challenge/src/cJSON.c:2838-2884 | A printed value, formatted or not, met in step or not: if its strings survive it is parsed back from the minified text with the minified rest behind it, else something else is parsed, or nothing. |
| `JsonMinifyValue.MinifiedKeepsValue` | challenges/ground_chals/has4-web/challenge/src/cJSON.c:2838-2884 | For every value of int-range integers and C strings, formatted or not: the minified text is accepted and stands for the same value if and only if no string that the minifier meets out of step holds a space or a slash before its first quote, and the value is nested within the limit. |
| `Bst.PathStep` | challenges/ground_chals/has4-web/challenge/src/bst.c:175-206 | One step left or right stays on the search path of the key and shrinks the interval of keys that can lie below. |
| `Bst.PathEnds` | challenges/ground_chals/has4-web/challenge/src/bst.c:182-206 | Where the path of a key ends, the key is nowhere in the tree. |
| `Bst.GrownOrdered` | challenges/ground_chals/has4-web/challenge/src/bst.c:57-128 | Hanging a new node where its path ends keeps the tree ordered. |
| `Bst.Tree.constructor` | challenges/ground_chals/has4-web/challenge/src/bst.c:29-29 | The tree starts empty. |
| `Bst.Tree.Add` | challenges/ground_chals/has4-web/challenge/src/bst.c:24-130 | Adds the key with count 1 and its data when it is new, else only counts it once more; order and all other entries stay, and the result is 0. |
| `Bst.Tree.Hang` | challenges/ground_chals/has4-web/challenge/src/bst.c:64-118 | Linking a fresh node left or right of the last node of the path records exactly that key. |
| `Bst.Tree.Count` | challenges/ground_chals/has4-web/challenge/src/bst.c:59-63 | Incrementing the count of a node records exactly that. |
| `Bst.Tree.Inc` | challenges/ground_chals/has4-web/challenge/src/bst.c:132-162 | Counts a known key once more and returns 0; returns -1 and changes nothing for an unknown one. |
| `Bst.Tree.Find` | challenges/ground_chals/has4-web/challenge/src/bst.c:164-209 | Returns the node of the key with its count and data, NULL exactly when the key was never added. |
| `Bst.Tree.Print` | challenges/ground_chals/has4-web/challenge/src/bst.c:268-296 | The in-order walk visits every key once, in strictly ascending order. |
| `Bst.RunRecords` | challenges/ground_chals/has4-web/challenge/src/bst.c:24-209 | After any sequence of adds and increments a key is recorded exactly when it was added, its count is the number of its adds and of its increments after the first add, and its data are those of the first add. |
| `UserDb.Db.AddPw` | challenges/ground_chals/finalpass/static/DB.py:29-40 | Appends the entry, with ten repeated letters for an empty name (their code point counts the entries) and ten F for an empty password; fails exactly when there is no letter left. |
| `UserDb.Db.GetUserdbBuf` | challenges/ground_chals/finalpass/static/DB.py:42-52 | The bytes built are those of the specified format for the UTF-8 forms of the strings, or none when a string holds a surrogate or the bytes exceed 65535. |
| `UserDb.User.AddPasswordEntry` | challenges/ground_chals/finalpass/static/manager/user.cpp:48-57 | Keeps the entry and succeeds exactly when name and password are not empty. |
| `UserDb.FindNul` | challenges/ground_chals/finalpass/static/manager/manager.cpp:62-62 | The first NUL byte from a position on, or the end. |
| `UserDb.OnlyAlnum` | challenges/ground_chals/finalpass/static/manager/manager.cpp:78-82 | Whether every byte of the name is a letter or a digit. |
| `UserDb.ParseEntries` | challenges/ground_chals/finalpass/static/manager/manager.cpp:96-119 | The loop over the iterator accepts exactly sequences of terminated pairs and keeps those without an empty field, in order. |
| `UserDb.ParseUserDB` | challenges/ground_chals/finalpass/static/manager/manager.cpp:48-124 | Accepts exactly the buffers of the format, with its length, name, digest and entry checks, and returns the user they describe; the null pointer otherwise. |
| `UserDb.ParsedWellFormed` | challenges/ground_chals/finalpass/static/manager/manager.cpp:48-124 | Every accepted buffer gives a user with an alphanumeric name, a digest of 32 bytes and entries of non-empty NUL-free fields. |
| `UserDb.KeptShrinks` | challenges/ground_chals/finalpass/static/manager/user.cpp:48-57 | Dropping entries with an empty field shortens the bytes, so it is visible. |
| `UserDb.WrittenIsRead` | challenges/ground_chals/finalpass/static/manager/manager.cpp:48-124 | For every record that fits 65535 bytes, parsing its serialization gives it back if and only if it is well formed: alphanumeric name of at least one byte, digest of 32 bytes, non-empty NUL-free entries. |
| `UserDb.DatabaseIsRead` | challenges/ground_chals/finalpass/static/DB.py:29-52 | What a database writes is read back as its contents if and only if the user name is of ASCII letters and digits, at least one, and no name or password holds a NUL. |
| `UserDb.EmptyNameIsLost` | challenges/ground_chals/finalpass/static/manager/manager.cpp:96-119 | A concrete accepted buffer with an empty name: the entry is dropped, and the buffer is not written again. |
| `UserDb.ReadIsWritten` | challenges/ground_chals/finalpass/static/DB.py:42-52 | An accepted buffer re-serializes to itself if and only if it has no entry with an empty field. |
| `UserDbFormat.WrittenIs` | challenges/ground_chals/finalpass/static/DB.py:42-52 | What is written, byte by byte: the length of the whole in two bytes, low byte first, user name, NUL, digest, then name, NUL, password, NUL of each entry; nothing when the length does not fit 16 bits. |
| `UserDbFormat.LayoutRead` | challenges/ground_chals/finalpass/static/manager/manager.cpp:48-124 | Every buffer of that layout with a user name of ASCII letters and digits, a digest of 32 bytes and NUL-free fields is accepted, and read as its name, digest and filled entries. |
| `UserDbFormat.LayoutOf` | challenges/ground_chals/finalpass/static/manager/manager.cpp:48-124 | Conversely every accepted buffer has that layout, and what is read is what it says. |
| `UserDbFormat.FilledIs` | challenges/ground_chals/finalpass/static/manager/user.cpp:48-57 | The entries read are those with neither field empty, no more and no fewer. |
| `UserDbFormat.LetterEncoded` | challenges/ground_chals/finalpass/static/DB.py:45-49 | Each letter of a string is written in its UTF-8 form, in order. |
| `UserDbFormat.RecordIs` | challenges/ground_chals/finalpass/static/DB.py:42-52 | The strings written are those of the database, in order; writing fails exactly when one of them has a surrogate. |
| `ReadBody.Socket.Read` | challenges/ground_chals/has4-web/challenge/src/read_body.c:54-54 | A read returns between 1 and the asked number of the next bytes, 0 only at the end of the stream. |
| `ReadBody.ReadLineInto` | challenges/ground_chals/has4-web/challenge/src/socket_io.c:29-68 | Line reading one byte at a time: return value, buffer and remaining stream for a full line, a line too long and an early end. |
| `ReadBody.ChunkHexToInt` | challenges/ground_chals/has4-web/challenge/src/hex_utils.c:75-94 | The value of the leading hexadecimal digits; no value where C leaves the result undefined. |
| `ReadBody.Fill` | challenges/ground_chals/has4-web/challenge/src/read_body.c:52-82 | However short the reads, the bytes asked for are collected in order, or the stream was too short. |
| `ReadBody.ReadCounted` | challenges/ground_chals/has4-web/challenge/src/read_body.c:30-89 | The Content-Length branch on the stream: a length above the limit gets status 400 with nothing read; within it a stream of at least that many bytes gives status 200, exactly those bytes with a terminator behind them, and the rest left; a shorter one status 400. Undefined for a negative length within the limit and where adding the byte for the terminator overflows. |
| `ReadBody.ReadChunked` | challenges/ground_chals/has4-web/challenge/src/read_body.c:92-198 | The chunked branch on every stream, whatever the reads return: body, status 400 or 414, every write inside the memory grown so far. |
| `ReadBody.Read` | challenges/ground_chals/has4-web/challenge/src/read_body.c:15-200 | However short the reads: with Content-Length the same, without it the outcome is a function of the bytes sent and of what the two line buffers hold at the start. |
| `ReadBody.LineRead` | challenges/ground_chals/has4-web/challenge/src/socket_io.c:39-66 | A line that fits is read up to its newline with a terminator, the rest left in the stream. |
| `ReadBody.SizeLine` | challenges/ground_chals/has4-web/challenge/src/read_body.c:106-114 | A size line of at most seven digits gives the number it stands for. |
| `ReadBody.ChunkRead` | challenges/ground_chals/has4-web/challenge/src/read_body.c:106-184 | A well-formed chunk is consumed exactly and its data appended, or the memory limit decides. |
| `ReadBody.ChunksRead` | challenges/ground_chals/has4-web/challenge/src/read_body.c:104-186 | Any number of well-formed chunks, whatever follows: their data are appended in order and nothing behind them is read, or the memory limit decides. |
| `ReadBody.BodyRead` | challenges/ground_chals/has4-web/challenge/src/read_body.c:92-198 | For every well-formed chunked body (section 7.1 of RFC 9112, no extensions or trailers, CRLF lines, sizes of at most seven digits) the outcome is decided exactly: the concatenated data with the rest of the stream left, 400 when the memory asked for passes the limit, undefined when it passes INT_MAX. |
| `ReadBody.DemandIsEnough` | challenges/ground_chals/has4-web/challenge/src/read_body.c:121-138 | Memory of 1024 bytes plus all chunks with one byte each is always enough. |
| `ReadBody.BodyDelivered` | challenges/ground_chals/has4-web/challenge/src/read_body.c:92-198 | Within that size limit the concatenated chunk data are delivered. |
| `ReadBody.BrokenOff` | challenges/ground_chals/has4-web/challenge/src/read_body.c:104-118 | A body that breaks off between its chunks, before the last-chunk, is returned as complete with status 200. |
| `ReadBody.CutInData` | challenges/ground_chals/has4-web/challenge/src/read_body.c:140-164 | A body that breaks off inside the data of a chunk gets status 400. |
| `ReadBodyLines.LineTooLong` | challenges/ground_chals/has4-web/challenge/src/read_body.c:106-112 | A size line with no line feed among its first nine bytes gets status 414. |
| `ReadBodyLines.LooseLine` | challenges/ground_chals/has4-web/challenge/src/read_body.c:106-114 | A size line is digits, none perhaps, and anything up to a line feed that does not go on with a digit; only the digits count. |
| `ReadBodyLines.LooseEnd` | challenges/ground_chals/has4-web/challenge/src/read_body.c:106-188 | A size line that gives zero or has no digits ends the body; one more line of up to four bytes is taken. |
| `ReadBodyLines.LooseChunk` | challenges/ground_chals/has4-web/challenge/src/read_body.c:106-184 | Any chunk for which there is memory: behind its data a line feed with or without a return is accepted, anything else gets status 400. |
| `ReadBodyLines.OneChunk` | challenges/ground_chals/has4-web/challenge/src/read_body.c:121-138 | A body of one chunk: up to 1023 bytes always, a larger one exactly when 1025 bytes more than it has are within the limit. |
| `ReadBodyLines.SmallBody` | challenges/ground_chals/has4-web/challenge/src/read_body.c:121-138 | Any number of chunks of together at most 1023 bytes are delivered whatever the limit. |
| `ReadBodyLines.LargeBody` | challenges/ground_chals/has4-web/challenge/src/read_body.c:121-138 | Where every chunk needs more memory: delivered if and only if 1024 bytes, the data and one byte for each chunk are within the limit, else status 400. |
| `ReadBodyEnds.SettledIsExact` | challenges/ground_chals/has4-web/challenge/src/read_body.c:104-186 | The outcome of the chunked branch is the same whatever the line buffers hold at the start if and only if it is settled by the stream: not when the stream ends in a size line of digits only that is longer than what earlier lines left in the buffer, nor in a lone CR behind the data of the first chunk. |
| `ReadBodyEnds.SettledIsSame` | challenges/ground_chals/has4-web/challenge/src/read_body.c:104-186 | The same at any point of the run: a settled outcome depends only on the bytes of the buffers that are known. |
| `ReadBodyEnds.UnsettledDiffers` | challenges/ground_chals/has4-web/challenge/src/socket_io.c:41-66 | For every unsettled stream there are two contents of the buffers with different outcomes. |
| `ReadBodyEnds.ZeroIsUnsettled` | challenges/ground_chals/has4-web/challenge/src/read_body.c:104-118 | The stream that is only the digit 0 is unsettled: one content of the size buffer gives an empty body, another status 400. |
| `ReadBodyCut.LineBreaksOff` | challenges/ground_chals/has4-web/challenge/src/socket_io.c:39-49 | A line that breaks off at the end of the stream leaves what has come in front of what the buffer held before. |
| `ReadBodyCut.CutIsExact` | challenges/ground_chals/has4-web/challenge/src/read_body.c:92-198 | A well-formed chunked body, cut after any number of its bytes, with any content of the line buffers: it is returned with status 200 if and only if the cut is at one of the places `Taken` lists, and then with the data of the chunks of which at most the last line feed is missing. |
| `ReadBodyCut.AlwaysTaken` | challenges/ground_chals/has4-web/challenge/src/read_body.c:92-198 | A cut body is returned whatever the buffers hold at the start if and only if the cut is between two chunks, behind the CR after the data of any chunk but the first, behind the CR of the last-chunk, or in a size line whose digits so far are zeros and go on, with what earlier lines left in the buffer, to a zero. |
| `ReadBodyCut.SometimesTaken` | challenges/ground_chals/has4-web/challenge/src/read_body.c:92-198 | It is returned for some content of the buffers if and only if the same holds with terminators in the unknown bytes of the size buffer and a newline in the other: then the CR after the first data counts too, and zeros that nothing known goes on from. |

## Left out

- JsonMinifyParse.MinifiedParses: for arbitrary texts the condition on escaped backslashes is sufficient, not necessary; a text that breaks it can keep its value even where bytes are dropped from a string, for instance behind an escaped NUL. For printed texts the condition of `JsonMinifyValue.MinifiedKeepsValue` is exact.
- PacketizerDelivery.Delivery: what a run returns after a call outside its condition is not computed to the end; `PacketizerSwallow.UnsafeGet` and `PacketizerSwallow.NextFrameLost` say what that call does and what is lost. When the next frame is itself a cut-off one, no packet need be missing.
- JsonPrinter.PrintBuffer.PrintNumber: numbers are integers in int range (the `%d` branch); the `%1.15g` and `%1.17g` branches, NaN and infinity have no visible implementation to reason about.
- JsonPrinter.PrintBuffered: the buffer grows by realloc and a block of size 0 exists; without that hook cJSON.c:515 copies one byte out of such a block, and malloc(0) may return NULL.
- JsonParser.ParseBuffer.ParseNumber: decimal texts have their exact real value; rounding and overflow of `strtod` and a decimal point other than `.` are not modelled.
- JsonCompare.EqualMeans: numbers are reals without rounding; other than integers they are compared in `JsonCompare.CloseMeans`, and trees of them are not, since that comparison is not transitive.
- JsonParser.ParseWithOpts: the error position, the end of the parse after a failure, and `cJSON_ParseWithLength` on text without a terminator are not modelled.
- JsonTree.Item.Replace: parent, item and replacement are given; the NULL checks of `cJSON_ReplaceItemViaPointer` and of its neighbours are not modelled.
- JsonTree.Item.AddItem: the list edits are about child lists; what they do to the value of the tree is shown for top-level arrays and objects (`JsonEdit`, `JsonEditObject`), not for those inside other values. Adding an item that is in the list already is not modelled.
- JsonNodes.GetObjectItem: keys are case-sensitive, as they are in Compare.
- Crc.Crc32State.Crc32: starting values are 32 bits wide; what an `unsigned long` of 64 bits does with higher bits is not modelled.
- Circular.Circular.PushBack: the overflow and underflow exceptions are results, and sizes do not wrap.
- Packetizer.Packetizer.GetPacket: the header size is any positive number and `CFE_SB_GetTotalMsgLength` any function of the header between that size and the packet maximum (section 4.1.3.5 of CCSDS 133.0-B-2); the packet is returned as a value, not as a pointer into the object.
- Bst.Tree.Add: memory is always there, counts do not overflow, and data are opaque; `deleteBst` is left out.
- Bst.Tree.Print: the visiting order, not the output.
- ReadBody.Socket.Read: it never returns -1, so the branches for a read error are not modelled.
- ReadBody.Read: memory is always there; a negative Content-Length, one of INT_MAX, a size beyond INT_MAX and a size line that runs off its buffer are `Undefined`; the buffers of the lines start with arbitrary bytes.
- UserDb.ParseUserDB: `isalnum` is that of the C locale and false for bytes above 127.
- UserDb.Db.AddPw: the digest of the user's password is a parameter of the constructor.
- cJSON allocation hooks, allocation failure, freeing, raw and reference items and constant keys: plumbing that adds cases but no hard property.
- The rest of the repository (sockets, threads, HTTP handlers, the flight software applications, geometry over doubles, `base64.c`, dictionaries, filters, message definitions): input and output, floating point, or easier than what is here.
