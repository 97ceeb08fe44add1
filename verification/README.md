# Verified models of the client: JSON, flat combining, connections, bit strings

This project models five parts of the client and the libraries that it carries, and proves what
their code and documentation promise. Code that works step by step (the JSON parser and printer,
the combining passes, the ring buffer, the connection, the splitters) is modelled by classes and
methods with loops, each proved against a function; the theorems are about those functions.
Bytes are integers below 256 and a byte string is a sequence of them; 32- and 64-bit words are
bit-vectors or bounded integers with their wrap-around written out.

**JSON** (`include/json/json11.cpp`). `JsonGrammar` gives sections 2 to 7 of RFC 8259, with the
comment extension, as concrete syntax trees: the bytes a tree spells and the value it denotes.
`JsonScan` states what each routine of `JsonParser` computes; `JsonParsing.JsonParser` is the
cursor machine itself. `JsonComplete` and `JsonSound` prove that parsing accepts exactly the
grammar, nested at most 200 deep (a scalar or empty container having height 0), and returns the
denoted value. `JsonMeaning` covers duplicate keys, Unicode escapes and comments. `JsonDump`,
`JsonPrinting` and `JsonMulti` cover printing, the round trips and `parse_multi`, `JsonTouching` the
exact condition for concatenated texts, `JsonValue` and `JsonOrder` the order of values and what
decides it, `Utf8` the encoder against RFC 3629. `JsonBytes` spells out character by character what
parsing and printing do with single bytes and short texts, so that no table or constant rests on
the grammar and the code agreeing with each other.

**Flat combining** (`include/cds/container/fc*.h`, with the passes of
`include/cds/algo/flat_combining/kernel.h`). `FlatCombining` is a state machine of publish, lock,
pass, apply, unlock and respond steps for any container; elimination that pairs two operations
undoing each other where they stand is proved linearizable in every run. `FlatBatch` treats a whole
combining session: permutation, conservation of values, progress; `FlatNeighbours` says for any
container when a pass does anything at all. `FlatDeque`, `FlatStack` and `FlatQueue` instantiate
these and contain the code of `fc_apply`, `fc_process` and `collide` over the record objects of
`FlatRecords`.

**Connections** (`recyclr-buffer.*`, `recyclr-msg.h`, `recyclr-net.cpp`). `Ring.RingBuffer` refines
a bounded FIFO. `ConnectionSpec` has the state machine on values and one recursive function of a
whole byte stream; `ConnectionRuns` proves that every run computes that function, however the
stream is cut; `Connections.Connection` is the object over two ring buffers.

**Bit strings** (`include/cds/algo/split_bitstring.h`, `include/cds/algo/bit_reversal.h`). Cuts are
slices of the number that a byte string stands for; three reversal algorithms are proved to be
the one bit reversal.

Where the code differs from its documentation or from what a reader expects, the code is followed:

- `RingBuffer::peek` on wrapped contents computes its first length from the size and places its
  second copy by objects instead of bytes. `Ring.PeekExact` says exactly when it is right,
  `Ring.PeekFails` leads a buffer into a wrapped state in which it is wrong. It is right for the
  first header of a connection, however that arrives, so `Connections.Drive` carries out
  completely every run whose first header opens or refuses the connection.
- `byte_splitter::safe_cut` promises the rest of the string but leaves out the current byte:
  `SplitBitstrings.ByteSplitter.SafeCut` says exactly when it cuts what was asked for,
  `SplitBitstrings.LastByteMissed` is a string on which it does not.
- `number_splitter::cut` is documented for multiples of 8; its check allows any count below the
  width, and so does the model.
- The deque's `fc_process` looks back for one end's pushes when the current record is a pop, but
  for both ends' pops when it is a push. So on an empty deque a push standing before a pop of its
  own end is missed, and no other pair (`FlatDeque.DequeMisses`); a batch may hold a pair that no
  number of passes removes (`FlatDeque.DequeMissesAPair`). `FlatDeque.DequePassActs` says exactly
  when a pass on the deque eliminates something; stack and empty queue always make progress.
- `parse_multi` is documented for texts "concatenated or separated by whitespace". It reads
  concatenated texts back if and only if no number is directly followed by a byte that continues
  it (`JsonTouching.MultiExact`); `JsonTouching.TouchingNumbers` is an input that it does not.
- A failing `parse_json` hands back null, but the empty string where a top-level string literal
  failed (`parse_string` returns `""`); `parse_multi` stores that value.

Assumptions: `strtod` and the `"%.17g"` rendering are parameters (`Config.strtod`, `fmt`). The round
trips assume that strtod is exact on 32-bit integers (`JsonDump.ExactOnInts`) and that each finite
double in the value is rendered as a number that reads back equal to it (`JsonDump.Readable`, which
a value without doubles meets by itself); `DumpIsClean` that a rendered double is printable ASCII. A double is a real number or an infinity. A handshake can only
be peeked under `HandshakeReadable`, which is a precondition of the object's `State`; a connection's
buffers hold at least 123 bytes, one answer, and less than 1 MiB is received at once.

## Model

| member | source | states |
|---|---|---|
| JsonSound.ParseExact | include/json/json11.cpp:732-744 | `parse` yields v if and only if the whole text has a derivation in the RFC 8259 grammar (plus comments, in that mode) of height at most 200 that denotes v |
| JsonComplete.DocumentParses | include/json/json11.cpp:644-744 | every derivation of a text fixes the result of `parse`: its denotation, or failure when nested deeper than 200; so no text has two meanings |
| JsonSound.DocumentOf | include/json/json11.cpp:644-744 | an accepted text has a derivation that spells exactly its bytes and denotes the value returned |
| JsonComplete.ValueAt | include/json/json11.cpp:644-728 | at any depth and position, a derivation followed by a byte that cannot continue it is read to its last byte with its denotation, unless too deep |
| JsonSound.ValueOf | include/json/json11.cpp:644-728 | whatever `parse_json` accepts from any position at any depth is one derivable value after one gap |
| JsonComplete.StringAt | include/json/json11.cpp:480-567 | the parser's one-escape delay gives the same text as pairing surrogates by looking ahead |
| JsonComplete.NumberAt | include/json/json11.cpp:573-622 | a number token of the grammar is read to its end, with atoi or strtod as its length and form demand |
| JsonSound.NumberOf | include/json/json11.cpp:573-622 | what the number scanner accepts is a number token of the grammar |
| JsonComplete.SkipGap | include/json/json11.cpp:377-435 | white space and comments are skipped exactly to the next token, a line comment also to the end of the text |
| JsonSound.GapOf | include/json/json11.cpp:377-435 | what is skipped is white space and closed comments, or a line comment that ends the text |
| JsonGrammar.ShortIntegerFits | include/json/json11.cpp:592-595 | an integer token of at most 9 characters fits a 32-bit int, so the atoi exit never overflows |
| JsonScan.AtoiFits | include/json/json11.cpp:592-595 | atoi on such a token is its exact integer |
| JsonParsing.JsonParser.ConsumeWhitespace | include/json/json11.cpp:377-380 | stops at the first byte that is not white space |
| JsonParsing.JsonParser.ConsumeComment | include/json/json11.cpp:386-418 | skips one comment, or fails on an unclosed or malformed one |
| JsonParsing.JsonParser.ConsumeGarbage | include/json/json11.cpp:424-435 | skips a maximal gap; failure is sticky |
| JsonParsing.JsonParser.GetNextToken | include/json/json11.cpp:442-449 | the first byte of the next token, or 0 and failure at the end of the text |
| JsonParsing.JsonParser.ParseString | include/json/json11.cpp:480-567 | the loop computes `ScanString`: value, cursor and failure |
| JsonParsing.JsonParser.ParseNumber | include/json/json11.cpp:573-622 | computes `ScanNumber`, both exits |
| JsonParsing.JsonParser.Expect | include/json/json11.cpp:629-638 | steps back one byte and reads the literal, or fails |
| JsonParsing.JsonParser.ParseJson | include/json/json11.cpp:644-728 | succeeds exactly when `ScanValue` does, with its value and cursor; the cursor stays within the text, an earlier failure persists, and the value handed back on failure is fixed |
| JsonParsing.JsonParser.ParseObject | include/json/json11.cpp:670-701 | the member loop enters members left to right, the last duplicate replacing earlier ones |
| JsonParsing.JsonParser.ParseMember | include/json/json11.cpp:680-690 | key, colon and value of one member, each failure included |
| JsonParsing.JsonParser.ParseArray | include/json/json11.cpp:703-725 | the element loop collects exactly the scanned elements |
| JsonParsing.ParseText | include/json/json11.cpp:732-744 | the method computes `Parse`, and returns null when it fails |
| JsonParsing.ParseMulti | include/json/json11.cpp:747-766 | terminates on every text with the values and stop position of `ScanMulti`; it succeeds exactly when the stop position is the end |
| JsonMulti.MultiSound | include/json/json11.cpp:747-766 | the text up to the stop position is a sequence of grammatical texts denoting the values; a failed last round leaves one more, the value it read before a malformed comment or what the failing `parse_json` handed back |
| JsonMulti.MultiComplete | include/json/json11.cpp:747-766 | any sequence of grammatical texts of legal depth, numbers kept apart from what could continue them, returns exactly its denotations and stops at the end |
| JsonTouching.MultiExact | include/json/json11.cpp:747-766 | grammatical texts of legal depth written one after the other are read back as exactly their values, to the end, if and only if no number is directly followed by a byte that continues it |
| JsonTouching.MultiCount | include/json/json11.cpp:747-766 | where it gets to the end, it returns at most as many values as there are texts, and fewer when numbers touch |
| JsonTouching.TouchingNumbers | include/json/json11.cpp:579-583 | "0" and "1" side by side fail |
| JsonMulti.MultiRoundTrip | include/json/json11.cpp:747-766 | on space-joined dumps it returns exactly the dumped values, up to `==` and with null for infinities, and stops at the end |
| JsonMeaning.PutIsUpdate | include/json/json11.cpp:688 | assigning a key keeps the map sorted, sets that key and changes no other |
| JsonMeaning.LastDuplicateWins | include/json/json11.cpp:670-701 | an object holds for each key the value of its last occurrence, in sorted key order |
| JsonMeaning.ParseWellFormed | include/json/json11.cpp:644-744 | every parsed object, at every level, has strictly increasing keys |
| JsonMeaning.EscapedTextParses | include/json/json11.cpp:511-546 | a literal writing any Unicode scalar values as \u escapes, in hexadecimal numerals of either case and as pairs above the BMP, reads as exactly their UTF-8 encoding |
| JsonMeaning.LiteralParses | include/json/json11.cpp:480-567 | any valid literal followed by any bytes is read to just behind its closing quote |
| JsonMeaning.CommentsAreTransparent | include/json/json11.cpp:382-435 | rewriting the gaps of a text accepted in STANDARD mode to any white space and comments leaves the value parsed in COMMENTS mode unchanged |
| Utf8.EncodeDecode | include/json/json11.cpp:455-474 | the encoding of a scalar value is a well-formed UTF-8 character that decodes to it |
| Utf8.DecodeEncode | include/json/json11.cpp:455-474 | every well-formed UTF-8 character is the encoding of the scalar value it decodes to |
| Utf8.Rfc3629Examples | include/json/json11.cpp:455-474 | the examples of section 7 of RFC 3629 |
| JsonComplete.ReassembleIsPairCode | include/json/json11.cpp:536-537 | the shift-and-or expression is the surrogate-pair formula |
| JsonDump.DumpedStringParses | include/json/json11.cpp:77-112 | for every byte string and every suffix, `parse_string` after the opening quote of the dump returns the string and stops behind the closing quote |
| JsonDump.DumpedIntParses | include/json/json11.cpp:67-71 | a printed int of at most 9 characters comes back through atoi as itself, a longer one through strtod as the double of the same value, equal under `==` |
| JsonDump.DumpRoundTrip | include/json/json11.cpp:53-138 | for every value, doubles included, `parse(dump(v))` succeeds if and only if v is nested at most 200 deep, and then gives a value `==` v with null in place of each infinity |
| JsonDump.PlainRoundTrip | include/json/json11.cpp:67-138 | without doubles the same holds whatever renders them, and gives a value `==` v |
| JsonDump.DumpIsClean | include/json/json11.cpp:53-138 | no dump contains a byte up to 0x1f or the UTF-8 bytes of U+2028 or U+2029, across all contents and nesting |
| JsonBytes.EscapesRead | include/json/json11.cpp:551-562 | each of the eight short escapes reads as its own byte, whatever follows |
| JsonBytes.NoOtherEscape | include/json/json11.cpp:563-565 | a backslash before any other character fails |
| JsonBytes.RawBytes | include/json/json11.cpp:494-503 | every other byte from 0x20 on stands for itself, a control character fails |
| JsonBytes.UnicodeEscapes | include/json/json11.cpp:511-546 | \u and four hexadecimal numerals of either case read as the code unit they spell, any other character among them fails |
| JsonBytes.Keywords | include/json/json11.cpp:658-665 | null, true and false |
| JsonBytes.EmptyTexts | include/json/json11.cpp:667-707 | an empty array, object and string |
| JsonBytes.OneByteTexts | include/json/json11.cpp:644-728 | of all texts of one byte exactly the ten digits parse, each to its value |
| JsonBytes.WhiteSpace | include/json/json11.cpp:377-380 | exactly space, tab, line feed and carriage return are skipped before a token |
| JsonBytes.IntegerTexts | include/json/json11.cpp:573-622 | an integer text of at most nine characters is an int, every longer one what strtod makes of it |
| JsonBytes.OneMoreDigit | include/json/json11.cpp:592-595 | digits count in tens |
| JsonBytes.MinusHundredTwenty | include/json/json11.cpp:573-595 | "-120" is the int -120 |
| JsonBytes.BothParts | include/json/json11.cpp:597-621 | "-1.5E+2" is one double |
| JsonBytes.SmallExponent | include/json/json11.cpp:607-621 | "20e-3" is one double |
| JsonBytes.NestingLimit | include/json/json11.cpp:644-647 | k brackets inside one another parse if and only if k is at most 201 |
| JsonBytes.Comments | include/json/json11.cpp:386-435 | line and block comments, character by character, are skipped in COMMENTS mode and refused in STANDARD mode |
| JsonBytes.FirstValueFails | include/json/json11.cpp:747-766 | a failing first value leaves the empty string behind a quote, null otherwise |
| JsonBytes.PrintedBytes | include/json/json11.cpp:77-111 | how each byte of a string is printed: seven short escapes, \u00 and two lower-case numerals for other control characters, itself otherwise |
| JsonBytes.PrintedSeparators | include/json/json11.cpp:99-106 | U+2028 and U+2029 are escaped, other characters that start like them are not |
| JsonBytes.PrintedTexts | include/json/json11.cpp:53-79 | null, booleans, doubles as rendered and infinities as null, strings in quotes, empty containers |
| JsonBytes.PrintedItems | include/json/json11.cpp:114-124 | one more element adds a comma, a space and its own text before the bracket |
| JsonBytes.PrintedMembers | include/json/json11.cpp:126-138 | one more member adds a comma, a space, its key, a colon, a space and its value before the brace |
| JsonBytes.PrintedIntegers | include/json/json11.cpp:67-71 | ints are printed in decimal, with a minus below zero |
| JsonPrinting.PrintString | include/json/json11.cpp:77-112 | the loop appends exactly the printed string |
| JsonPrinting.Print | include/json/json11.cpp:53-142 | printing appends exactly the value's dump to what was there |
| JsonPrinting.PrintArray | include/json/json11.cpp:114-124 | elements in order with separators between them only |
| JsonPrinting.PrintObject | include/json/json11.cpp:126-138 | members in key order with separators between them only |
| JsonValue.Trichotomy | include/json/json11.cpp:302-318 | exactly one of a < b, a == b, b < a, through nested arrays and objects |
| JsonValue.LessTransitive | include/json/json11.cpp:311-318 | `operator<` is transitive |
| JsonOrder.TypesDecide | include/json/json11.cpp:311-318 | null < number < boolean < string < array < object |
| JsonOrder.NumbersByValue | include/json/json11.cpp:173-189 | ints and doubles compare, and are equal, by the real number they stand for, in any mixture |
| JsonOrder.InfinitiesAtTheEnds | include/json/json11.cpp:173-180 | the infinities lie below and above all other numbers |
| JsonOrder.FalseBeforeTrue | include/json/json11.cpp:165-167 | false < true |
| JsonOrder.StringsByFirstDifference | include/json/json11.cpp:165-167 | strings compare as unsigned bytes at the first difference, a proper prefix being less, and in no other way |
| JsonOrder.ArrayPrefix | include/json/json11.cpp:165-167 | a proper prefix of an array is less |
| JsonOrder.ArrayFirstDifference | include/json/json11.cpp:165-167 | arrays compare as the first elements in which they differ |
| JsonOrder.ObjectPrefix | include/json/json11.cpp:165-167 | a proper prefix of an object's entries is less |
| JsonOrder.ObjectFirstDifference | include/json/json11.cpp:165-167 | objects compare by the key, and under one key by the value, of the first entry in which they differ |
| JsonValue.EqualIsCongruence | include/json/json11.cpp:302-318 | `operator==` is an equivalence and equal values compare alike with everything |
| FlatCombining.Linearizable | include/cds/algo/flat_combining/kernel.h:656-722 | for any container with legal pairs, in every run the log (pairs adjacent) replays to the same results and contents, lists each finished operation once, and respects real-time order |
| FlatCombining.CollisionIsTwoCommits | include/cds/container/fcdeque.h:560-577 | one collision is two ordinary applications back to back that leave the container as it was |
| FlatCombining.VisitKeepsInv | include/cds/container/fcdeque.h:435-555 | a round of `fc_process` keeps the history legal and never changes the container |
| FlatDeque.CollisionsUndo | include/cds/container/fcdeque.h:440-553 | each pair that the deque's switch collides is legal on every deque, empty or not, in the order given |
| FlatDeque.EndsCommute | include/cds/container/fcdeque.h:387-419 | on a nonempty deque pushing at one end and popping at the other commute |
| FlatDeque.SameEndUndoes | include/cds/container/fcdeque.h:387-419 | at one end the last value pushed is the next popped |
| FlatDeque.DequeOrder | include/cds/container/fcdeque.h:387-419 | in every history of pushes at one end and pops at the other the values leave in the order in which they came |
| FlatDeque.FirstOut | include/cds/container/fcdeque.h:387-419 | two values pushed at one end: the first comes out at the other |
| FlatDeque.NothingInside | include/cds/container/fcdeque.h:405-427 | exactly an empty deque gives nothing at either end, and a cleared one is empty |
| FlatDeque.DequeCollides | include/cds/container/fcdeque.h:440-553 | on a nonempty deque a push and a pop collide if and only if they are at one end; nothing else ever collides |
| FlatDeque.DequeLinearizable | include/cds/container/fcdeque.h:387-577 | every run on the deque is linearizable, with the same results and final contents |
| FlatDeque.DequeBatch | include/cds/container/fcdeque.h:387-555 | a batch gives results and contents of some permutation on the plain deque, and conserves values |
| FlatDeque.DequePassActs | include/cds/container/fcdeque.h:435-555 | a pass changes the records if and only if two adjacent pending requests, with only done ones and clears between, collide by the switch |
| FlatDeque.DequePassesIdle | include/cds/container/fcdeque.h:435-555 | where no two adjacent requests collide, no number of passes does anything |
| FlatDeque.DequeSettles | include/cds/container/fcdeque.h:435-555 | half as many passes as waiting requests leave no two adjacent requests that collide |
| FlatDeque.DequeMisses | include/cds/container/fcdeque.h:481-553 | on an empty deque every push before a pop would undo itself, and exactly those where the pop is of the push's own end are missed; after the pop none is |
| FlatDeque.DequeMissesAPair | include/cds/container/fcdeque.h:481-511 | so a front push before a front pop on an empty deque survives any number of passes |
| FlatDeque.FcDeque.FcApply | include/cds/container/fcdeque.h:387-432 | a record's operation acts on the deque as on a plain one and its result is what the publisher reads |
| FlatDeque.FcDeque.CollideRecords | include/cds/container/fcdeque.h:560-576 | `collide` and `collide_move`: both records done, the pop holding the pushed value |
| FlatDeque.FcDeque.Pairs | include/cds/container/fcdeque.h:440-553 | each arm of the switch collides exactly the specified pairs |
| FlatDeque.FcDeque.FcProcess | include/cds/container/fcdeque.h:435-555 | the loop with itPrev over mutable records computes one specified pass, leaving the deque alone |
| FlatDeque.FcDeque.CombiningPass | include/cds/algo/flat_combining/kernel.h:679-705 | every record not yet done is applied once, in list order |
| FlatDeque.FcDeque.BatchCombining | include/cds/algo/flat_combining/kernel.h:707-722 | the elimination passes and the final pass over the real deque and records compute the specified session |
| FlatStack.CollisionsUndo | include/cds/container/fcstack.h:362-396 | elimination is legal in every state of the stack |
| FlatStack.LastOut | include/cds/container/fcstack.h:307-329 | the last value pushed, moved or not, is the next popped |
| FlatStack.NothingInside | include/cds/container/fcstack.h:319-333 | exactly an empty stack gives nothing, `empty` tells so and changes nothing, a cleared stack is empty |
| FlatStack.StackLinearizable | include/cds/container/fcstack.h:307-397 | every run on the stack is linearizable |
| FlatStack.StackBatch | include/cds/container/fcstack.h:307-397 | a batch is some permutation of itself on the plain stack; pushed values are popped, cleared or still stored, each once |
| FlatStack.StackProgress | include/cds/container/fcstack.h:342-397 | a pass with a pending push and a pending pop eliminates a pair; min(pushes, pops) passes eliminate exactly that many and use up one kind |
| FlatStack.FcStack.FcApply | include/cds/container/fcstack.h:307-339 | a record's operation acts as on a plain stack |
| FlatStack.FcStack.CollideRecords | include/cds/container/fcstack.h:362-396 | collides a push and a pop given in either order, and nothing else |
| FlatStack.FcStack.FcProcess | include/cds/container/fcstack.h:342-357 | the loop computes one specified pass |
| FlatStack.FcStack.BatchCombining | include/cds/algo/flat_combining/kernel.h:707-722 | the same session over the real stack |
| FlatQueue.CollisionsUndo | include/cds/container/fcqueue.h:376-410 | elimination is legal on an empty queue |
| FlatQueue.CollisionNeedsEmpty | include/cds/container/fcqueue.h:353-371 | an enqueue, moving or not, directly followed by a dequeue undoes itself exactly when every stored value equals the new one, so the emptiness guard is needed |
| FlatQueue.QueueOrder | include/cds/container/fcqueue.h:321-341 | in every history of enqueues and dequeues the values leave in the order in which they came |
| FlatQueue.NothingInside | include/cds/container/fcqueue.h:333-345 | exactly an empty queue gives nothing, and a cleared one is empty |
| FlatQueue.QueueLinearizable | include/cds/container/fcqueue.h:321-411 | every run on the queue is linearizable |
| FlatQueue.QueueBatch | include/cds/container/fcqueue.h:321-411 | a batch is some permutation of itself on the plain queue; values are conserved |
| FlatQueue.QueueProgress | include/cds/container/fcqueue.h:353-411 | on an empty queue each pass eliminates while it can, and min(enqueues, dequeues) passes exhaust one kind |
| FlatQueue.QueueIdle | include/cds/container/fcqueue.h:353-371 | while the queue holds anything, passes leave every record as it was |
| FlatQueue.FcQueue.FcApply | include/cds/container/fcqueue.h:321-350 | a record's operation acts as on a plain queue |
| FlatQueue.FcQueue.CollideRecords | include/cds/container/fcqueue.h:376-410 | collides an enqueue and a dequeue given in either order |
| FlatQueue.FcQueue.FcProcess | include/cds/container/fcqueue.h:353-371 | the loop computes one specified pass, and leaves every record as it was while the queue holds anything |
| FlatQueue.FcQueue.BatchCombining | include/cds/algo/flat_combining/kernel.h:707-722 | the same session over the real queue |
| FlatBatch.SessionIsRun | include/cds/algo/flat_combining/kernel.h:707-722 | a session between lock and unlock is a sequence of steps of the state machine, so linearizability covers it |
| FlatBatch.CanRespond | include/cds/algo/flat_combining/kernel.h:656-722 | no operation is stuck: whenever nobody combines, any published one can be carried out and responded to |
| FlatBatch.AppliedInOrder | include/cds/algo/flat_combining/kernel.h:679-705 | what the passes leave takes effect in the order of the publication list |
| FlatBatch.FirstInFirstOut | include/cds/container/fcqueue.h:321-341 | for any container whose operations keep order, every history does |
| FlatBatch.BatchIsPermutation | include/cds/algo/flat_combining/kernel.h:707-722 | passes followed by applying the rest is a permutation of the batch, for any container with legal pairs |
| FlatBatch.Conservation | include/cds/algo/flat_combining/kernel.h:707-722 | along any legal history stored plus added values equal stored, taken and dropped ones |
| FlatNeighbours.PassActs | include/cds/container/fcdeque.h:435-555 | for any container, a pass changes the records if and only if two records that it looks at one right after the other collide; otherwise it changes nothing |
| FlatNeighbours.PassesSettle | include/cds/algo/flat_combining/kernel.h:715-716 | for any container, half as many passes as waiting requests leave no such pair |
| FlatBatch.PassesExhaust | include/cds/algo/flat_combining/kernel.h:715-716 | repeated passes remove exactly min(pushes, pops) pairs |
| Ring.RingBuffer.Write | recyclr-buffer.cpp:17-44 | appends as much of the bytes as fits, wrapping or not, overwriting no stored byte |
| Ring.RingBuffer.Read | recyclr-buffer.cpp:46-81 | copies out and removes the oldest bytes, the start index moving on around the end; an emptied buffer starts at the head again |
| Ring.RingBuffer.ReadAll | recyclr-buffer.cpp:83-90 | everything or, if the destination is too small, nothing |
| Ring.RingBuffer.Peek | recyclr-buffer.h:38-51 | wherever it stays within its memory it copies the cells that its two branches compute; under `PeekGood`, the bytes that the next `pop` returns; the buffer is left as it was |
| Ring.RingBuffer.Pop | recyclr-buffer.h:55-67 | `pop` and `pop_buf`: all of the object or nothing |
| Ring.PeekExact | recyclr-buffer.h:38-51 | `peek` reads the cells of the next `pop` if and only if the object lies unwrapped before the end of the ring and, when the contents wrap, the size equals start plus object |
| Ring.PeekFails | recyclr-buffer.h:42-45 | a real buffer of 64 bytes, 60 written, 30 read and 10 written, is in a wrapped state in which a header cannot be peeked |
| Ring.PeekGoodWhenUnwrapped | recyclr-buffer.h:47 | a start index of 0 or below the end index is enough |
| Ring.FifoConserves | recyclr-buffer.cpp:17-90 | over any operations, bytes accepted are bytes returned followed by bytes stored, within capacity |
| Ring.Drive | recyclr-buffer.cpp:17-90 | any sequence of operations on the real buffer accepts, returns and stores what the FIFO does |
| Ring.IdxIsModulo | recyclr-buffer.cpp:28-40 | the end index is (start + size) modulo the capacity |
| MessageHeader.DecodeEncode | recyclr-msg.h:24-31 | the 23 packed bytes read back as the header written |
| MessageHeader.EncodeDecode | recyclr-msg.h:24-31 | every 23 bytes are the encoding of the header read from them |
| MessageHeader.Layout | recyclr-msg.h:24-31 | code, destination and priority lie in the first three bytes, then time stamp, payload length and magic, each lowest byte first |
| MessageHeader.OpeningBytes | recyclr-msg.h:5-17 | the bytes of a handshake: code 2, no payload, the eight bytes of the magic |
| ConnectionRuns.OpeningOpens | recyclr-net.cpp:32-79 | those bytes open a connection at once and are acknowledged |
| ConnectionRuns.ChunkIndependence | recyclr-net.cpp:32-139 | however a stream is cut into deliveries and interleaved with steps, replies are a prefix of those of one function of the stream; once nothing more happens, replies and state equal it |
| ConnectionRuns.RunAwaits | recyclr-net.cpp:32-57 | until it has popped a header a connection awaiting the handshake holds all it received; later it awaits it only because the first header was skipped |
| ConnectionRuns.RunKeepsTotal | recyclr-net.cpp:32-139 | in every run, replies given plus those still due from held and future bytes are constant |
| ConnectionRuns.AckOpensTheChannel | recyclr-net.cpp:32-79 | a message is queued if and only if a payload-free OPEN_CONNECTION header with the magic is reached behind others with the magic; the first is the acknowledgement, the rest are answers |
| ConnectionRuns.RunSilent | recyclr-net.cpp:32-79 | in every run, while no header opens the connection no message is queued |
| ConnectionRuns.RunAnswers | recyclr-net.cpp:32-139 | in every run, however cut, the messages queued are a prefix of the acknowledgement and then one answer for each whole nonempty frame behind the opening header, in order; all of them once nothing more happens |
| ConnectionRuns.OpenedStream | recyclr-net.cpp:49-106 | behind the header that opens the connection the stream is read as frames |
| ConnectionRuns.EachFrameAnswered | recyclr-net.cpp:87-139 | each whole frame with the magic and a payload gets exactly one answer, in order, with its destination plus one modulo 256; a frame cut off gets none |
| ConnectionRuns.FramesOf | recyclr-net.cpp:87-122 | every byte stream is a sequence of whole frames and one cut off, so the previous row covers all streams |
| Connections.Connection.constructor | recyclr-net.cpp:15-29 | starts awaiting the handshake with empty buffers |
| Connections.Connection.State | recyclr-net.cpp:182-185 | running the state function on the object is one step of the machine, leaves the out buffer empty, and does not move the in buffer's start before the first header is popped |
| Connections.Connection.Handshaking | recyclr-net.cpp:32-57 | the handshake function's branches, peeking before popping |
| Connections.Connection.Opening | recyclr-net.cpp:59-79 | queues exactly the acknowledgement's 23 bytes: code 3, destination, priority 0, the clock, no payload, the magic; or stays for a handshake with payload |
| Connections.Connection.HandlingOpenChannel | recyclr-net.cpp:87-107 | pops one header and goes on to its payload |
| Connections.Connection.ReceivingPayload | recyclr-net.cpp:109-122 | receives, then drops the payload once complete |
| Connections.Connection.SendingMsg | recyclr-net.cpp:124-139 | queues one 123-byte answer: code 1, destination, priority 0, no time stamp, payload length 100, the magic, and 100 bytes |
| Connections.Connection.PrepareSend | recyclr-net.cpp:81-85 | the bytes that leave the out buffer for the socket are the message, whole, and the out buffer is empty afterwards |
| Connections.MessagesAreFrames | recyclr-net.cpp:59-139 | to its reader everything that a connection sends is a stream of whole frames, one for each message |
| Connections.Connection.Recv | recyclr-net.cpp:141-161 | of the received bytes as many as there is room for are appended to the in buffer |
| Connections.Connection.Send | recyclr-net.cpp:163-180 | returns exactly the bytes that the out buffer held and empties it, unless they are more than the local buffer holds, and then they stay |
| Connections.Drive | recyclr-net.cpp:141-185 | the object carries out any run of the machine, stopping only at a handshake that cannot be peeked and behind a first header that was skipped; otherwise its replies are a prefix of those due for the stream, and at rest equal them; every message sent is a whole frame with the magic, the acknowledgement first and answers after it |
| Connections.FirstHandshakeReadable | recyclr-net.cpp:41-44 | while the in buffer starts at its head the handshake can be peeked |
| SplitBitstrings.SplitBitstring.Cut | include/cds/algo/split_bitstring.h:80-121 | the loop across byte boundaries returns (N >> offset) mod 2^count of the string's value N and advances by count |
| SplitBitstrings.SplitBitstring.SafeCut | include/cds/algo/split_bitstring.h:129-138 | the same for min(count, rest) bits |
| SplitBitstrings.SliceBits | include/cds/algo/split_bitstring.h:80-121 | bit j of a cut is bit offset + j of the string, and above the count there is none |
| Bits.OrBits | include/cds/algo/split_bitstring.h:92 | the bits of a bitwise or are those of either number |
| Bits.AndBits | include/cds/algo/split_bitstring.h:92 | the bits of a bitwise and are those of both numbers |
| SplitBitstrings.CutAll | include/cds/algo/split_bitstring.h:80-163 | any list of cuts gives consecutive slices, the k-th one at the start plus the counts before it, whose reassembly is the slice they cover; offset plus rest is constant |
| SplitBitstrings.SlicesJoin | include/cds/algo/split_bitstring.h:80-121 | reassembled cuts are the one slice they cover |
| SplitBitstrings.CutsRecover | include/cds/algo/split_bitstring.h:80-121 | a string cut from end to end by any counts can be rebuilt byte for byte |
| SplitBitstrings.ByteSplitter.Cut | include/cds/algo/split_bitstring.h:228-248 | on multiples of 8 it returns what `split_bitstring::cut` returns |
| SplitBitstrings.ByteSplitter.SafeCut | include/cds/algo/split_bitstring.h:256-265 | cuts what was asked for, as far as there is a rest, if and only if a byte more than that remains or the end was reached |
| SplitBitstrings.LastByteMissed | include/cds/algo/split_bitstring.h:256-265 | with one byte left `byte_splitter::safe_cut` cuts nothing and leaves the eight bits uncut |
| SplitBitstrings.NumberSplitter.Cut | include/cds/algo/split_bitstring.h:355-364 | the same slice of the number, for counts below 31 |
| SplitBitstrings.NumberSplitter.SafeCut | include/cds/algo/split_bitstring.h:372-381 | the same for min(count, rest) bits |
| SplitBitstrings.CutAlike | include/cds/algo/split_bitstring.h:355-364 | a number and its bytes are cut alike by any list of counts |
| BitReversal.AllReverse32 | include/cds/algo/bit_reversal.h:18-154 | swar, lookup and both muldiv variants give the same word, whose bit k is the input's bit 31-k |
| BitReversal.AllReverse64 | include/cds/algo/bit_reversal.h:18-154 | the same on 64 bits |
| BitReversal.Involution32 | include/cds/algo/bit_reversal.h:18-154 | each of them undoes itself |
| BitReversal.Involution64 | include/cds/algo/bit_reversal.h:18-154 | each of them undoes itself |
| BitReversal.EntryFlips | include/cds/algo/bit_reversal.h:42-66 | every entry of the table is its index reversed |
| BitReversal.MulDiv64ByteFlips | include/cds/algo/bit_reversal.h:87-90 | multiply, mask and modulo 1023 reverse every byte |
| BitReversal.MulDiv32ByteFlips | include/cds/algo/bit_reversal.h:82-85 | multiply, mask and multiply reverse every byte |

## Left out

- JSON error texts, `has_shape`, accessors, `shared_ptr` sharing and moves: no effect on the values modelled. The pointer-equality shortcut of the comparisons agrees with comparing, as no value is a NaN.
- NaN and the sign of zero; the digits that `"%.17g"` prints and the rounding of `strtod`.
- The cursor position after a failed parse, which no caller reads.
- Output parameters of the printer: the printing methods take the text so far and return it extended.
- Memory orders, statistics, publication-list maintenance, wait strategies and the waiting threads of the combining kernel; a record used for several requests is several records.
- `empty()` and `size()` through `invoke_exclusive`, and the `combining` mode without elimination.
- The underlying std containers: each is a sequence.
- `FCPriorityQueue` and the other containers of the library, which have no elimination or live in headers that these files only wrap.
- Sockets, epoll, threads, time, logging, return codes and object deletion: received bytes and the clock are arguments, and nothing is said about bytes reaching the peer, as `send` drops what the socket refuses.
- Ring.RingBuffer.Peek: states in which the source's copies leave the ring or the destination are excluded, as nothing can be said about them.
- Connections.Connection.State: requires that a held handshake header can be peeked, because `peek` fails on wrapped contents (see Ring.PeekExact); that excludes only handshakes behind skipped headers.
- Connections.Connection.Handshaking: the same condition.
- Connections.Connection.constructor: buffers below 123 bytes, which cannot hold an answer; the source creates connections of 1 MiB.
- Connections.Connection.PrepareSend: only the two lengths and the immediate mode that the source uses.
- Connections.Connection.Recv: less than the 1 MiB of its local buffer is received at once and the peer stays, because otherwise the source deletes the connection.
- `Connection::close` beyond reaching its state; `NetClient`, controllers, commands and configuration.
- Big-endian branches, and signed numbers in `number_splitter`.
- SplitBitstrings.NumberSplitter.Cut: counts of 31 or more, whose mask overflows an int.
- SplitBitstrings.NumberSplitter.SafeCut: the same counts.
