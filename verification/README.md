# A verified model of the ODPI-C core

The C layer under `support/` is the Oracle access library of the repository. This project models its
five hardest parts and proves what they promise.

**Oracle NUMBERs.** `Decimals` gives a sign, a decimal point index and digits their exact value.
`OracleNumber` is the wire format: encoder, decoder and the code of both, with C's truncating
division, eight-bit subtraction, and the zero that the encoder stores behind the digits although it
belongs in front. `WireFormat` writes the bytes out, without the names that encoder and decoder share. `NumberOrder` proves that comparing bytes is comparing values. `NumberText` is the
grammar of number strings with its value and the printed form; `NumberLimits` says which numbers and
which formats are refused; `NumberCode` and `NumberPrinter` are
the parser and the printer as the code runs them, and the way of a number from text to bytes to text.

**Reference counts and closing.** `ReferenceGraph` is the table of all handles with their counts and
internal fields; the cascade of free procedures is proved to free exactly what callers can no longer
reach. `CloseProtocol` is the threaded protocol as a state machine: every section under the mutex and
every client call is one step, and any number of threads release, close and scan in any interleaving.
`ConnectionScans` joins it to the slot table of a connection: which handles a close that reports success
has freed.

**Containers.** `HandlePools` (the circular pool, as an array and as a queue, over whole runs) and
`HandleLists` (the slot table with its rotating cursor).

**Sessions.** `SessionPool` has the ping-and-drop loop and the closing of a pooled connection.

**JSON and queues.** `JsonTree` says what reading and storing a JSON value compute and proves the
round trip; `JsonReader` reads in batches into memory that is accounted for block by block;
`JsonWriter` builds a document whose nodes have identities; `JsonBuffers` is the memory behind number
texts; `JsonNumbers` puts the NUMBER codec into the round trip. `MessageQueue` is the buffer of message
properties and their owners, `QueueBuffers` the memory of its arrays. `Timestamps` splits milliseconds and joins them again. `Allocation` and
`Common` are shared.

## What the proofs found

- A number with forty digits and an odd decimal point index (`OracleNumber.Fits` is the exact
  condition) needs 23 bytes, one more than an OCI number has. The parser accepts it; the encoder writes
  the byte behind, and the reader reports the number as damaged (`NumberPrinter.NoWayBack`).
- The bytes of two numbers compare as their values do unless one number is negative and does not fit and
  the other is what is left of it when its last pair of digits is cut off; that condition is exact
  (`NumberOrder.EncodePreservesOrder`, with an instance in `NumberOrder.WhyFitsMatters`).
- The reader stores the digits in an array of forty. Pairs of 100 to 109, which no encoder writes but no
  test excludes, give three digits. `OracleNumber.DigitsFitExact` has the exact condition under which the
  array is large enough; `OracleNumber.OverlongOverruns` has bytes that give sixty digits.
- The comment above the parser (support/dpiUtils.c:263-281) asks for at least one digit, and one behind a
  point, and says that numbers below 1E-130 become zero. The code accepts `-`, `.` and `1.`
  (`NumberLimits.AcceptedUndocumented`, with the exact condition in `NumberLimits.DocumentedExact`), and
  raises an error for numbers that are too small. It also refuses some zeroes, such as `0e200`
  (`NumberLimits.ZeroRefused`, with the exact condition in `NumberLimits.RefusalExact`). The model follows
  the code; `NumberLimits.TooSmallRefused` is `1e-131`.
- Reading a JSON value a second time does not clear the memory of the top value, and an empty container
  does not write its pointers. After text, whose length lies where a container has its first pointer, an
  empty array is freed with a pointer that was never allocated (`JsonReader.TextThenEmpty`).
  `JsonReader.FreeableExact` has the exact condition.
- A release that makes all slots of the handle pool idle brings its two cursors together, and the pool
  forgets all of its handles. `HandlePools.FirstInFirstOut` and `HandlePools.Conservation` hold exactly
  when no release does that; eight handles out and eight back is such a run (`HandlePools.EightLost`, and
  `HandlePools.TakeEightAndReturn` in the code).
- A connection close can report success while a LOB or object is not freed yet, because a thread that gave
  up the last reference, or closes the LOB itself, has not come to it (`ConnectionScans.SuccessBeforeFree`).
  That is the only way: `ConnectionScans.ClosedFreesAll` has the exact condition.
- Closing a dead pooled connection frees the stamp of its session without checking that the context has
  forgotten it. If it has not and the session is not released, the next close frees the stamp again
  (`SessionPool.StampFreedTwice`; `SessionPool.Pool.Close` has the exact condition).
- No error of a call that reads or sets the network settings around a ping is noticed. A setting that could
  not be read is restored from a variable that was never written; `SessionPool.Pool.PingWithTimeout` says
  when the settings are what they were.
- With errors not propagated a stamp whose memory cannot be allocated is set to null in the context, even over
  an older stamp that could not be read (`SessionPool.Pool.UpdateLastTimeUsed`).
- Removing a handle from a slot that is empty makes the count of the handle list wrong, and that is the
  only way to do so (`HandleLists.HandleList.RemoveHandle`).
- The number-text comment (support/dpiJson.c:211-216) says that buffers are shared by several numbers.
  `tempBufferUsed` never advances, so every number gets a buffer of its own. If the larger pointer array
  cannot be allocated, its recorded size has grown already and no longer matches the array
  (`JsonBuffers.TempBuffers.AddNumber` states that this is the only such case).
- Freeing the queue buffer clears the pointer of the indicators in place of that of the scalar indicators
  (support/dpiQueue.c:448-451), and growing it records the new size before the arrays are there. The scalar
  indicators are freed twice, and missing arrays are used, exactly as `QueueBuffers.Buffer.Allocate` and
  `QueueBuffers.Buffer.Prepare` state; `QueueBuffers.FreedTwice` is such a run.
- A JSON id comes back as an id exactly if the context asks for ids (`JsonTree.IdRoundTrip`).
- Setting a JSON value replaces the old one by a dummy first, so a value that cannot be converted leaves the
  dummy behind (`JsonWriter.SetValue`).
- A raw queue that is given properties with a JSON value beside the raw bytes hands the JSON value to the client
  (`MessageQueue.SentReturns`).
- Two fields of one object that get the same stored name (names go through sixteen bits) leave fewer
  document nodes than native nodes; `JsonWriter.OneEach` has the exact condition.

## Model

| member | source | states |
|---|---|---|
| OracleNumber.PaddedMagnitude | support/dpiData.c:467-493 | the base-100 fraction of the padded digits times the power of 100 is the value of the digits, for odd, even and negative decimal points |
| OracleNumber.StoredPair | support/dpiData.c:470-518 | with the leading zero stored at the end and the first pair taking one digit, the pairs are those of the digits with the zero in front |
| OracleNumber.OddPointInC | support/dpiData.c:467-499 | the two sign cases of C's remainder test detect every odd index, and C's division then gives the exponent |
| OracleNumber.EncodedSize | support/dpiData.c:475-494 | the length byte counts the bytes behind it; the number takes at most 22 bytes if and only if it is not one of forty digits with an odd decimal point |
| OracleNumber.EncodedBytes | support/dpiData.c:494-523 | everything written is a byte: exponent, mantissa and length stay in 0..255 |
| OracleNumber.EncodePreservesValue | support/dpiData.c:467-523 | the bytes, read back with bias, complement and base 100, denote exactly the number given by sign, point and digits |
| OracleNumber.WriteMantissa | support/dpiData.c:503-518 | the mantissa loop writes the mantissa bytes and touches nothing else |
| OracleNumber.PadDigits | support/dpiData.c:467-493 | after the parity fix-ups the digits come in pairs, with zeroes only behind them, and the index gives the scale |
| OracleNumber.ToOracleNumber | support/dpiData.c:462-523 | the encoding is stored from the start of the array, and nothing else changes |
| OracleNumber.UnpackPadded | support/dpiUtils.c:464-500 | unpacking the pairs of an encoded number drops exactly the padding and restores the decimal point |
| OracleNumber.DecodeEncode | support/dpiUtils.c:423-503 | decoding undoes encoding for every normalised number that fits; zero comes back as a single digit zero; a number that does not fit is reported as damaged |
| OracleNumber.EncodeInjective | support/dpiData.c:467-523 | equal encodings come from equal numbers, also when these do not fit |
| WireFormat.ZeroBytes | support/dpiData.c:491-497 | the bytes 1, 128 are those of zero and of no other number |
| WireFormat.ExponentOf | support/dpiData.c:499-503 | the exponent byte is 193 plus, or 62 less, the power of 100 that the magnitude lies at; the sign is its high bit |
| WireFormat.PairBytes | support/dpiData.c:505-518 | each pair of digits is a byte: one more than the pair, or 101 less the pair |
| WireFormat.Ending | support/dpiData.c:476-523 | a negative number of less than forty padded digits ends with 102, and no other number has a byte behind its pairs |
| WireFormat.DecodedParts | support/dpiUtils.c:436-503 | what the decoder reads: sign, exponent, a last byte 102 that is no digits, and pairs by subtraction on eight bits |
| WireFormat.PairDigitsWrite | support/dpiUtils.c:475-500 | the one to three digits that a byte gives write its pair, with a zero in front or behind dropped at the ends |
| WireFormat.MinusFive | support/dpiData.c:452-525 | minus five is 3, 62, 96, 102 and back |
| WireFormat.Twelve | support/dpiData.c:452-525 | 12.345 is 4, 193, 13, 35, 51 and back |
| OracleNumber.UnpackCount | support/dpiUtils.c:470-500 | how many digits a mantissa gives: two for each pair, one more for each pair of 100 to 109, one less for a zero at either end |
| OracleNumber.DigitsFitExact | support/dpiData.c:163-171 | the digits of any number bytes stay within the caller's array of forty exactly under the stated condition on the bytes, and never exceed sixty |
| OracleNumber.EncodedDigitsFit | support/dpiData.c:163-171 | the digits of every number that was encoded and fits stay within that array |
| OracleNumber.OverlongOverruns | support/dpiData.c:163-171 | bytes whose digits do not: from fourteen mantissa bytes of 102 on |
| OracleNumber.ParseMantissa | support/dpiUtils.c:470-500 | the digit loop, with its count kept apart from the digits, stores the unpacked digits and nothing behind them, and shifts the point |
| OracleNumber.ParseOracleNumber | support/dpiUtils.c:423-503 | fails exactly if the length byte is wrong, storing nothing; otherwise gives sign and point, and stores as many digits as the bytes have and nothing behind them |
| NumberOrder.MantissaOrder | support/dpiData.c:503-518 | lexicographic order of mantissa pairs is the order of the fractions |
| NumberOrder.NegativeTail | support/dpiData.c:503-523 | mantissa bytes of negative numbers, with the 102 behind short ones, compare the other way round unless there is no room for the 102 and one mantissa starts the other |
| NumberOrder.EncodePreservesOrder | support/dpiData.c:467-523 | for any two normalised numbers, of any signs and zero included, the bytes behind the length byte compare as the values do if and only if neither number is the other one with its last pair cut off; equal bytes are equal values always |
| NumberOrder.CutLosesOrder | support/dpiData.c:480-523 | a negative number that does not fit compares the wrong way round with what is left of it |
| NumberOrder.WhoLosesOrder | support/dpiData.c:480-523 | the numbers that lose their order against some number: negative, not fitting, and with a digit other than zero in the last pair but one |
| NumberOrder.WhyFitsMatters | support/dpiData.c:467-494 | an instance: forty nines take 23 bytes, and their order against thirty-nine is lost |
| NumberText.ScanComplete | support/dpiUtils.c:324-399 | every well-formed numeral is recognised as itself |
| NumberText.ScanIffNumeral | support/dpiUtils.c:324-399 | a text is recognised as a numeral exactly if it is the rendering of that well-formed numeral |
| NumberText.NumeralWrittenOut | support/dpiUtils.c:324-399 | the characters of a numeral: a minus sign, digits, a point and digits, an exponent |
| NumberText.ExponentWrittenOut | support/dpiUtils.c:366-394 | the characters of an exponent, one of two letters, one of two signs or none, one to three digits, and its value |
| NumberText.ToDecimalValue | support/dpiUtils.c:331-404 | dropping zeroes at both ends and moving the point by the exponent keeps the value |
| NumberText.ParseCorrect | support/dpiUtils.c:282-415 | what is accepted is a well-formed numeral with the value of the resulting normalised decimal |
| NumberText.TextLength | support/dpiData.c:175-187 | the size computed beforehand is the number of characters |
| NumberText.TextWrittenOut | support/dpiData.c:176-263 | the characters of a printed number: zero and a point in front of digits that all lie behind it, a point between digits, or zeroes behind them |
| NumberText.TextFits | support/dpiData.c:175-193 | at most 172 characters, and 172 exactly for a negative number of forty digits with the lowest point |
| NumberText.TextValue | support/dpiData.c:196-259 | the printed text denotes the number for every sign and position of the point |
| NumberText.ParseText | support/dpiData.c:196-259 | parsing the printed text gives the number back |
| NumberLimits.AllDigitsNeeded | support/dpiUtils.c:406-409 | a number whose first and last digits are not zero can be written with k digits and a power of ten exactly if it has at most k digits |
| NumberLimits.PointLimits | support/dpiUtils.c:406-409 | the two limits on the point are the limits 1E126 and 1E-130 on the value |
| NumberLimits.RefusalExact | support/dpiUtils.c:401-412 | a numeral that is not zero has no representation if and only if it needs more than forty digits, is 1E126 or more, or is below 1E-130; a zero if and only if its exponent less the digits behind the point is out of range |
| NumberLimits.ZeroRefused | support/dpiUtils.c:401-412 | 0e200 is refused although it is zero |
| NumberLimits.TooSmallRefused | support/dpiUtils.c:401-412 | 1e-131 is refused although the comment promises zero |
| NumberLimits.DocumentedExact | support/dpiUtils.c:263-281 | text in the documented format is never refused as invalid; accepted text has that format if and only if there is a digit in front of the point and, where there is a point, one behind it |
| NumberLimits.AcceptedUndocumented | support/dpiUtils.c:331-364 | -, . and 1. are accepted without having that format |
| NumberCode.ParseWhole | support/dpiUtils.c:331-345 | the loop stops at the end of the leading digits or reports that something else follows; zeroes in front are skipped |
| NumberCode.ParseFraction | support/dpiUtils.c:347-364 | the loop takes the digits behind the point; zeroes before the first other digit move the point |
| NumberCode.ParseExponentDigits | support/dpiUtils.c:376-391 | one to three digits and nothing behind them give their value; a fourth digit is refused as unsupported |
| NumberCode.ParseExponent | support/dpiUtils.c:366-394 | marker, sign and digits give the exponent that the grammar gives |
| NumberCode.StripTrailingZeroes | support/dpiUtils.c:401-404 | the count that remains ends at the last digit that is not zero |
| NumberCode.ParsePlainNumber | support/dpiUtils.c:331-364 | both digit loops together decide, with whatever exponent follows, what the grammar makes of the text: invalid, or these digits with this point |
| NumberCode.Utf16AsSingleByte | support/dpiUtils.c:295-330 | UTF-16 text of ASCII characters is parsed as the same text of single bytes, with or without an odd byte behind it; any other character makes it invalid |
| NumberCode.ParseNumberString | support/dpiUtils.c:282-415 | the parser accepts and refuses, with the right error, exactly as the grammar and the limits say, for both kinds of encoding, and what it accepts is normalised |
| NumberCode.StoredValue | support/dpiData.c:452-526 | the bytes of accepted text have the value of the numeral |
| NumberCode.ToOracleNumberFromText | support/dpiData.c:452-526 | refused text leaves the buffer unchanged; accepted text writes its encoding and nothing else, and stays inside the 22 bytes exactly if the number fits |
| NumberPrinter.TextPieces | support/dpiData.c:230-259 | the text is sign, leading zeroes, digits with the point among them, trailing zeroes |
| NumberPrinter.WriteDigits | support/dpiData.c:246-250 | the digit loop writes the digits with the point at its place, and nothing behind them |
| NumberPrinter.FromOracleNumberAsText | support/dpiData.c:160-262 | in both encodings, from the bytes: damaged bytes are refused; otherwise it succeeds exactly if the text fits the buffer, writes exactly the bytes computed beforehand and leaves the rest alone; a failure writes nothing; the places behind the array of forty digits stay untouched exactly if the digits fit it |
| NumberPrinter.Widened | support/dpiData.c:196-259 | the UTF-16 form of every printed number is its single-byte form, each byte widened by a zero byte |
| NumberPrinter.TextRoundTrip | support/dpiData.c:160-526 | every accepted text whose number fits comes back from the bytes as text of the same value that parses to the same number; zeroes come back as "0" |
| NumberPrinter.CanonicalTextUnchanged | support/dpiData.c:160-526 | text in the printer's own form comes back unchanged |
| NumberPrinter.NoWayBack | support/dpiData.c:452-526 | accepted text cannot be read back from its bytes if and only if its number does not fit |
| ReferenceGraph.FieldsAlive | support/dpiGen.c:284-309 | no internal field, even of a handle that is being freed, names a freed handle |
| ReferenceGraph.LiveIffReachable | support/dpiGen.c:284-309 | between calls a handle has its memory exactly if a caller can reach it through internal fields |
| ReferenceGraph.NothingLeft | support/dpiGen.c:284-309 | when callers have given up all references every handle has been freed |
| ReferenceGraph.CascadeIsExact | support/dpiConn.c:557-596 | a cascade frees exactly the handles that callers cannot reach, as the fields stood before it |
| ReferenceGraph.CountBalance | support/dpiGen.c:292-299 | taking one reference away, and clearing the check integer at zero, keeps every count equal to the references |
| ReferenceGraph.FieldBalance | support/dpiConn.c:557-596 | a field that is cleared is one reference still to be given up |
| ReferenceGraph.HandleTable.DropReference | support/dpiGen.c:284-309 | the cascade terminates, keeps the counts right, and only frees or lowers counts |
| ReferenceGraph.HandleTable.FreeHandle | support/dpiConn.c:557-596 | the free procedure gives up every internal field once and then the memory |
| ReferenceGraph.HandleTable.AddRef | support/dpiGen.c:175-183 | refused exactly if the handle is not valid; otherwise one more count and one more owner |
| ReferenceGraph.HandleTable.Release | support/dpiGen.c:263-273 | refused exactly if the handle is not valid; otherwise what is freed is exactly what no caller can reach, and other handles keep their fields |
| ReferenceGraph.HandleTable.Allocate | support/dpiGen.c:192-218 | without memory nothing changes; otherwise a new handle with count one takes a reference on each handle that its fields name |
| ReferenceGraph.OneOfEach | support/dpiObject.c:41-84 | a pool, a connection, types, objects, a queue and a LOB that name each other can be built up in this order |
| ReferenceGraph.HandleTable.StoreField | support/dpiQueue.c:206-214 | a caller's reference moves into a field without any count changing |
| ReferenceGraph.HandleTable.TakeField | support/dpiQueue.c:280-290 | the reference in a field moves to the caller without any count changing |
| ReferenceGraph.HandleTable.ReleaseField | support/dpiMsgProps.c:518-555 | the handle in a field is released and the field cleared; everything that stays keeps its fields |
| ReferenceGraph.HandleTable.SetPayload | support/dpiMsgProps.c:521-556 | the old payload is released, the new one gets a reference, all counts stay right |
| CloseProtocol.GateKeepsGood | support/dpiLob.c:85-102 | test-and-set of the closing flag lets one thread in at a time |
| CloseProtocol.WorkKeepsGood | support/dpiObject.c:167-200 | the freeing behind the flag keeps the locator or instance freed at most once, whatever the client answers |
| CloseProtocol.DropKeepsGood | support/dpiGen.c:284-309 | giving up the scan's reference keeps the invariant, also when it is the last one |
| CloseProtocol.StepKeepsInv | support/dpiConn.c:162-235 | every step of every thread keeps the invariant of all handles |
| CloseProtocol.ExecutionInv | support/dpiConn.c:162-235 | the invariant holds in every state of every run of any number of threads |
| CloseProtocol.FreeRunsOnce | support/dpiGen.c:284-309 | the free procedure was entered once if the count is zero and never otherwise, and not while a close or a scan holds its reference; nobody works on freed memory |
| CloseProtocol.FreedAtMostOnce | support/dpiLob.c:85-149 | a locator or instance is freed at most once; the locator of a LOB exactly once by the time its memory goes |
| CloseProtocol.StepIsFinal | support/dpiGen.c:292-299 | no step raises a count from zero or frees anything again |
| CloseProtocol.NeverUndone | support/dpiGen.c:292-299 | however a run goes on, a count of zero stays zero and what was freed stays freed |
| CloseProtocol.CloseAlone | support/dpiLob.c:80-138 | a close that nobody interferes with frees the locator or instance once where it has to, and leaves the closing flag set exactly if it reports no error, so that one that failed can be tried again |
| CloseProtocol.ReferenceAfterClose | support/dpiGen.c:284-309 | the reference of a caller's close goes back to the caller, that of the scan is given up, and the last one enters the free procedure |
| ConnectionScans.CoveredStays | support/dpiLob.c:85-138 | a handle that is freed, or that a thread is about to free, stays so under every step of every thread |
| ConnectionScans.InvalidIsCovered | support/dpiConn.c:219-227 | a handle that the scan passes over as invalid has been freed, or its free procedure is about to |
| ConnectionScans.ClosingIsCovered | support/dpiLob.c:92-102 | a handle that the scan finds being closed has been freed, or the thread that closes it is about to |
| ConnectionScans.RemoveKeepsInv | support/dpiLob.c:112-115 | taking a freed handle out of its slot never takes out another one, also when slots are used again |
| ConnectionScans.StepKeepsInv | support/dpiConn.c:211-236 | every step of the scan, of creating and of removing handles, in any interleaving, keeps each handle in its slot until it is freed and what the scan has passed covered |
| ConnectionScans.ListedUntilFreed | support/dpiHandleList.c:40-129 | in every run a LOB or own object that has not been freed is in the slot that it was given |
| ConnectionScans.ListExact | support/dpiLob.c:112-115 | as long as nobody has begun to close the connection, the list has exactly the LOBs and own objects that have not been freed, apart from those that a thread is at work on |
| ConnectionScans.CallsGoOn | support/dpiLob.c:85-138 | a thread inside a call can always take its next step, whatever the others do |
| ConnectionScans.ScanGoesOn | support/dpiConn.c:216-236 | so can the scan |
| ConnectionScans.CallsCanStart | support/dpiHandleList.c:40-76 | a thread outside can always create a handle, which has a slot also in a full list, and use every reference that is owned |
| ConnectionScans.ClosedFreesAll | support/dpiConn.c:156-236 | after a close that reports success every LOB and own object that was there when it began has been freed, if and only if it is not still set with a thread about to free it; so all are once nobody is at work on them |
| ConnectionScans.ScanOutcome | support/dpiConn.c:156-236 | a close reports failure if and only if, since it began, the client answered with an error when the scan handed it a locator, an instance or an indicator, and success if and only if not |
| ConnectionScans.EndsAtSlot | support/dpiConn.c:230-234 | it reports failure when the scan leaves the slot of that handle, and at no other time |
| ConnectionScans.ScanFreesLob | support/dpiConn.c:216-236 | a run in which the scan frees the LOB of a caller and the close reports success |
| ConnectionScans.SuccessBeforeFree | support/dpiConn.c:216-230 | a run in which a close reports success before the locator of a LOB is freed |
| HandlePools.HandlePool.constructor | support/dpiHandlePool.c:80-100 | the pool starts empty with eight slots |
| HandlePools.HandlePool.Acquire | support/dpiHandlePool.c:43-73 | takes the oldest idle handle, or nothing when there is none; grows by eight slots only with an empty queue, and fails exactly if it would have to grow without memory; the array refines the queue |
| HandlePools.HandlePool.Release | support/dpiHandlePool.c:121-132 | appends the handle, unless that makes all slots idle, which empties the queue; the caller's pointer is cleared |
| HandlePools.StepKeepsInv | support/dpiHandlePool.c:43-132 | every call keeps handles idle at most once, idle or held, and all handles and slots accounted for |
| HandlePools.ExecutionInv | support/dpiHandlePool.c:43-132 | the same in every run |
| HandlePools.NoFailures | support/dpiHandlePool.c:43-73 | an acquisition of a run fails if and only if it finds no idle handle, no free slot and no memory for more slots |
| HandlePools.Exclusive | support/dpiHandlePool.c:43-73 | in every run, also after the cursors have met, an acquired handle is held by nobody else |
| HandlePools.FirstInFirstOut | support/dpiHandlePool.c:43-132 | handles come out in the order in which they went in, none missing, exactly in the runs in which no release made all slots idle |
| HandlePools.Conservation | support/dpiHandlePool.c:43-132 | idle and outstanding handles are the used slots exactly if no release made all slots idle and no allocation failed; used slots never exceed slots without a failure |
| HandlePools.FullReturnLosesAll | support/dpiHandlePool.c:121-132 | a release that makes all slots idle loses one handle per slot |
| HandlePools.EightLost | support/dpiHandlePool.c:43-132 | a run of eight acquisitions and eight releases, without a failure, that loses all eight handles |
| HandlePools.TakeEightAndReturn | support/dpiHandlePool.c:43-132 | the same run of the code ends with an empty queue and nothing outstanding |
| HandleLists.SomeSlotEmpty | support/dpiHandleList.c:65-74 | a table with fewer handles than slots has an empty slot, and the other way round |
| HandleLists.SlotsNeededRounds | support/dpiHandleList.c:45-62 | the bound on the slots is the peak rounded up to a multiple of eight, at least eight |
| HandleLists.HandleList.constructor | support/dpiHandleList.c:83-102 | eight empty slots |
| HandleLists.HandleList.FindEmptySlot | support/dpiHandleList.c:65-74 | the cyclic search ends on the first empty slot at or behind the cursor |
| HandleLists.HandleList.AddHandle | support/dpiHandleList.c:40-76 | the handle goes into an empty slot and nothing else moves, also when the table grows; fails exactly if the table is full and there is no memory; the slots never exceed the rounded peak |
| HandleLists.HandleList.RemoveHandle | support/dpiHandleList.c:123-129 | empties the slot and counts one less; the table stays consistent if and only if the slot was in use |
| SessionPool.Pool.PingWithTimeout | support/dpiConn.c:1043-1073 | one ping of the session; after a successful one the network settings are what they were if and only if each was restored, from a value that was read or happens to agree, or was never changed |
| SessionPool.Pool.TrySession | support/dpiConn.c:988-1080 | one turn ends with a session that is new, exempt, recently used or overdue and pinged in this turn, or drops an overdue session that failed its ping in this turn, or gives up, exactly if a client call reports an error; no other session is pinged |
| SessionPool.Pool.GetSession | support/dpiConn.c:982-1083 | the loop ends for every pattern of ping failures, within one turn more than there are idle sessions with a stamp; it succeeds if and only if no client call reports an error; the pings of the call are exactly one failed one for each dropped session, overdue at that time, and an answered one for the session handed out if that was overdue |
| SessionPool.Pool.UpdateLastTimeUsed | support/dpiConn.c:278-315 | the stamp is set to now, cleared, or left; the connection is found dead or not; and the stamp of a dead session is freed, freed again, or still named by its context: all exactly as the client's answers and the propagation of errors decide |
| SessionPool.Pool.MarkDead | support/dpiConn.c:142-275 | the connection is dead afterwards exactly if it was, a roll-back was seen to fail, it is to be dropped, its server is gone, or closing what it has open showed that it is lost |
| SessionPool.Pool.Close | support/dpiConn.c:133-330 | a session that is closed to be dropped, whose server is gone, that was dead, whose roll-back was seen to fail, or that is found dead while its stamp is set, is dropped and not idle, and every other one is idle again; the cases of success and of failure, written out; a session given back carries the time of the close unless its stamp could not be stored; a stamp is freed again if and only if an earlier close freed it and left it in the context |
| SessionPool.StampFreedTwice | support/dpiConn.c:278-327 | two closes of one connection that free its stamp twice |
| JsonTree.ScalarRoundTrip | support/dpiJson.c:273-392 | a scalar is stored and read as it was if and only if it is of a type that returns, with the options and client conversions that this takes |
| JsonTree.ScalarStored | support/dpiJson.c:491-660 | which scalars can be stored, and what reading each of them gives: binary numbers become numbers, ids may become raw bytes, dates lose their fraction and zone, timestamps their zone |
| JsonTree.BinaryNumbers | support/dpiJson.c:294-303 | binary doubles and floats come back with their value, as numbers |
| JsonTree.ReadExact | support/dpiJson.c:399-421 | reading fails if and only if somewhere there is a node or scalar of an unknown type, or a conversion that fails |
| JsonTree.WriteExact | support/dpiJson.c:486-660 | storing fails if and only if some scalar of the tree has a native type that does not go with its Oracle type, or a value that the client does not take |
| JsonTree.IdRoundTrip | support/dpiJson.c:287-292 | a JSON id comes back as one exactly if the context asks for it |
| JsonTree.MembersInOrder | support/dpiJson.c:455-477 | fields with distinct names are stored in their order under their names |
| JsonTree.RoundTrip | support/dpiJson.c:399-660 | a tree is stored and read as it was if and only if its scalars return and the names in each object are distinct and fit sixteen bits |
| JsonTree.StoredAndRead | support/dpiJson.c:399-660 | what comes back of any tree that can be stored: the same tree, scalar by scalar as above |
| JsonReader.MembersKeepNames | support/dpiJson.c:186-204 | the fields of an object are read as their values are, and keep their names |
| JsonReader.FreeNode | support/dpiJson.c:707-750 | frees every block that hangs from a node once, and nothing else, for complete and partly built trees |
| JsonReader.ReadBatch | support/dpiJson.c:127-140 | reads one batch into its places; it stops only at an element that cannot be converted or an allocation that is refused, and then what was allocated hangs from the array |
| JsonReader.ReadElements | support/dpiJson.c:125-141 | reading in batches of 64 terminates for every length and equals element-by-element conversion; it fails only if that does or an allocation is refused |
| JsonReader.FromOracleArray | support/dpiJson.c:96-144 | the blocks allocated are exactly those that hang from the node, however far the reading got; it succeeds if and only if the plain conversion does and no allocation is refused, with the plain result |
| JsonReader.FromOracleObject | support/dpiJson.c:151-207 | the same for objects and their four arrays |
| JsonReader.FromOracle | support/dpiJson.c:399-421 | the same for every node |
| JsonReader.Json.GetValue | support/dpiJson.c:809-832 | gives back the blocks of the previous tree, complete or not, and holds exactly those of the new one; the pointers freed without having been allocated are counted, and the new value can be freed without any if and only if it is no container, or the words it was read over are null where no pointer was written |
| JsonReader.FreeableExact | support/dpiJson.c:817-827 | a value read over words that were not cleared has no stray pointer if and only if it is no container, or each of the first two words is null or written: the first by any container that is not empty, the second once the first array could be allocated |
| JsonReader.LengthBecomesPointer | support/dpiJson.c:275-280 | after text that is not empty an empty container has one stray pointer |
| JsonReader.WordsAfter | support/dpiJson.c:273-392 | which scalars leave memory behind that an empty container takes for a pointer, byte by byte |
| JsonReader.TextThenEmpty | support/dpiJson.c:809-832 | a run on one handle, text and then an empty array, that frees one pointer that was never allocated |
| JsonReader.Json.Free | support/dpiJson.c:757-792 | gives back the blocks of the tree and frees as many stray pointers as the value has |
| JsonReader.ReadAndFree | support/dpiJson.c:707-832 | reading succeeds exactly if the document can be converted and no allocation is refused; however it went, a handle that reads once is freed without a stray pointer and leaves memory as it was |
| JsonWriter.PutNodes | support/dpiJson.c:472-474 | setting a field gains the subtree set and loses the one replaced |
| JsonWriter.AddElement | support/dpiJson.c:436-445 | an element that cannot be converted gives back the array built so far; otherwise it is appended |
| JsonWriter.AddField | support/dpiJson.c:463-474 | the same for the fields of an object |
| JsonWriter.ToOracle | support/dpiJson.c:484-661 | at any depth, a failure leaves no node behind and a success makes exactly the nodes of its result, which is the plain conversion |
| JsonWriter.OneEach | support/dpiJson.c:428-477 | the document gets at most one node per native node, and exactly one each if and only if no two fields of one object get the same name |
| JsonWriter.SetValue | support/dpiJson.c:668-700 | succeeds exactly if the three client calls do and the value is convertible; before the dummy is parsed a failure leaves the old value, after it the dummy, and a success the plain conversion; the nodes are those of the value in every case, and their number is exact |
| JsonWriter.StoreAndRead | support/dpiJson.c:668-832 | a value is stored and read again if and only if no allocation is refused, and comes back scalar by scalar, the same exactly if it is one that returns; memory is left as it was |
| JsonNumbers.CanonicalReturns | support/dpiData.c:160-526 | number text in the printer's form survives the library's own two conversions |
| JsonNumbers.NumberRoundTrip | support/dpiJson.c:303-321 | such numbers are among the scalars of the JSON round trip |
| JsonNumbers.LibraryConversions | support/dpiData.c:160-263 | the conversions of JSON numbers are those of the parser and of the printer into a temporary buffer |
| JsonBuffers.EncodedNumbersPrint | support/dpiJson.c:253-257 | every number encoded from digits that fits has room in its buffer in a single-byte encoding |
| JsonBuffers.TempBuffers.Reserve | support/dpiJson.c:226-241 | growth by sixteen keeps every pointer; without memory the recorded size no longer matches |
| JsonBuffers.TempBuffers.Fill | support/dpiJson.c:252-257 | the text goes into the newest buffer and no other text changes; the places behind the forty digits are left alone exactly if the digits fit |
| JsonBuffers.TempBuffers.AddNumber | support/dpiJson.c:217-258 | every number gets a fresh buffer of its own with its text, and no earlier text changes, also when the array grows; the places behind the forty digits are left alone exactly if the digits fit |
| MessageQueue.Queue.FreeBuffer | support/dpiQueue.c:423-458 | every handle in the buffer is released once, and those of callers are not; the recorded size stays though the arrays are gone |
| MessageQueue.Queue.AllocateBuffer | support/dpiQueue.c:90-123 | releases what the buffer held and leaves it empty with the new size, which is recorded whether there is memory for the arrays or not |
| MessageQueue.Queue.Populate | support/dpiQueue.c:206-244 | goes well if and only if each empty slot gets properties and each slot that needs a payload gets one; handles that are there stay, and the arrays for the client then describe the slots |
| MessageQueue.Queue.Transfer | support/dpiQueue.c:280-290 | the first k handles move out in order with what the client delivered; the others stay |
| MessageQueue.Queue.Deq | support/dpiQueue.c:189-293 | for raw, object and JSON queues: succeeds if and only if the buffer can grow where it must, every slot can be filled and the client delivers; then slots 0 to k-1 move to the caller, in order and with what was delivered, the rest stays for reuse, and every handle keeps one owner |
| MessageQueue.Queue.Describe | support/dpiQueue.c:319-360 | refuses the first payload that does not suit the queue, and accepts exactly when there is none; the client is then handed the raw bytes, or the JSON value beside them, the instance of the object, or the JSON value, as the queue has it |
| MessageQueue.WhatIsAccepted | support/dpiQueue.c:322-344 | a queue accepts exactly the payloads of its kind, an object queue those of its type; which of three errors the others get |
| MessageQueue.SentReturns | support/dpiQueue.c:280-357 | what is put into a queue comes out when the client delivers what it was handed; raw bytes exactly if there is no JSON value beside them |
| MessageQueue.Queue.Enq | support/dpiQueue.c:300-385 | for raw, object and JSON queues: succeeds if and only if the buffer can grow where it must, every payload suits and the client accepts; the first unsuitable payload is named; the caller keeps its handles and payloads and gets the ids the client assigned; the queue's own handles keep their owner |
| MessageQueue.EnqueueAndDequeue | support/dpiQueue.c:189-385 | messages put into a raw or JSON queue come out with the payloads that went in, under the ids that the client assigned |
| QueueBuffers.Buffer.Free | support/dpiQueue.c:423-458 | nothing leaks, and nothing is freed twice but the scalar indicators, exactly if their pointer dangles; it dangles afterwards if there were any |
| QueueBuffers.Buffer.Allocate | support/dpiQueue.c:90-123 | for every number of allocations that succeed: all arrays are there exactly on success, the recorded size is the new one in any case, and the pointer of the scalar indicators dangles if and only if there were some and an allocation before theirs fails |
| QueueBuffers.Buffer.Prepare | support/dpiQueue.c:198-204 | a call goes on with arrays missing exactly if they were missing before and the recorded size is large enough |
| QueueBuffers.FreedTwice | support/dpiQueue.c:90-123 | a run that goes on without arrays and frees the scalar indicators twice |
| Timestamps.NanosDecide | support/dpiData.c:589-599 | fields in range and of one sign are decided by the number of nanoseconds |
| Timestamps.ToInterval | support/dpiData.c:589-599 | the five fields are in range, of one sign, and amount to the milliseconds truncated to nanoseconds |
| Timestamps.FromInterval | support/dpiData.c:328-333 | the milliseconds are the nanoseconds of the interval, truncated |
| Timestamps.ThereAndBack | support/dpiData.c:328-599 | a timestamp loses its fraction of a millisecond, towards zero, and nothing else |
| Timestamps.BackAndThere | support/dpiData.c:328-599 | an interval of whole milliseconds comes back as it was |

## Left out

- Calls of the Oracle client: they answer as they like, or do what their contract in the model says.
  The contracts are small: a batch has the next 64 elements or as many as there are, a field that is
  set again replaces and frees its old value, and so does a new root; the dummy text is parsed to the number
  zero; sessions and nodes are handed out fresh.
- Widths of counters: reference counts and slot numbers are unbounded, 32 bits in the code.
- NumberPrinter.FromOracleNumberAsText: the two branches, which are the same loops over units of
  different width, are one method with one way of storing a unit for each width.
- NumberCode.ToOracleNumberFromText: text comes as code units; the byte order of UTF-16 input is not
  modelled.
- NumberCode.ParseNumberString: the digit and exponent buffers, which are as large as the longest text and
  the longest exponent, are sequences.
- NumberText.ScanIffNumeral: locale and embedded NUL play no role; code units are numbers.
- ReferenceGraph.HandleTable.FreeHandle: a field is cleared in the same step in which its reference is
  given up; the code clears it just after. No free procedure looks at the field in between.
- ReferenceGraph.HandleTable.Allocate: the rowid handle, which names no other handle, and handles that
  cannot be completed after their memory was allocated; statements and SODA handles.
- CloseProtocol: handle identities are never reused; the pointer that the scan takes from a list may
  be stale, and the code then looks at freed memory, which the model shows as an invalid handle.
  Statements, which close the same way, and failed frees of indicators by a release are left out.
- ConnectionScans.ClosedFreesAll: the list of LOBs or that of objects, one at a time, with atomic reading of a
  slot while the table grows; statements; a client that frees nothing although its answer is not checked.
- HandleLists: the contents after a connection close that failed, when slots are no longer removed.
- SessionPool.Pool.GetSession: one thread at a time; other threads could return sessions in between. The two calls
  that get the session and server handles are one, and so are errors of getting an error handle.
- SessionPool.Pool.Close: standalone and externally created connections, tags and proxy sessions; a release that
  the client refuses while errors are ignored counts as done.
- JsonReader.Json.GetValue: the words are those of a platform with eight-byte pointers. A stray pointer is
  counted and not followed; what the allocator does with it is open.
- JsonReader.Json.Free: the number texts, the descriptors and the connection of the handle.
- JsonReader.ReadAndFree: the number texts, which are in `JsonBuffers`.
- JsonTree.RoundTrip: the conversions of numbers and dates to and from doubles are the client's, as functions; the
  zone that the client reports for a timestamp without one is zero.
- JsonBuffers.TempBuffers.AddNumber: giving the buffers back when the handle is freed.
- MessageQueue.Queue.FreeBuffer: how often each array is freed, which is in `QueueBuffers`.
- MessageQueue.Queue.AllocateBuffer: which of the arrays are missing after a failure, which is in `QueueBuffers`.
- MessageQueue.Queue.Populate: who owns the payloads; message properties are tracked, payloads are values.
- MessageQueue.Queue.Transfer: indicators, and what the client does inside an object.
- MessageQueue.Queue.Deq: a call that goes on with arrays missing (`QueueBuffers.Buffer.Prepare` says when); messages
  of a JSON queue that arrive before an error; recipients.
- MessageQueue.Queue.Enq: a call that goes on with arrays missing (`QueueBuffers.Buffer.Prepare` says when);
  recipients.
- Timestamps.ToInterval: floating-point rounding, and the base date that the client adds and subtracts.
- Timestamps.FromInterval: floating-point rounding, and the base date.
- Timestamps.ThereAndBack: floating-point rounding, and the base date.
- Timestamps.BackAndThere: floating-point rounding, and the base date.
- Two-phase commit, attributes, authentication, object value conversion, SODA, vectors, subscriptions,
  statements, variables, debug output and error texts: plumbing, or members that add nothing hard.
- The migration runner of the repository, which is not part of this model.
