# A verified model of KWCToolkit's core algorithms

KWCToolkit is a C++ utility library.  This project models the parts of it that are algorithms rather
than wrappers around the operating system, and proves what they promise for all inputs, all runs or
all interleavings.  `dafny verify dfyconfig.toml` checks everything.

Code that changes state is modelled by methods with the loops and fields of the C++ code; each is
proved against a function of its inputs or of the old state, and the promises of the code are lemmas
about that function.

| file | component |
|---|---|
| `Levenshtein.dfy` | the two-row edit distance on 32-bit integers, edit scripts, the metric |
| `Search.dfy`, `DataReader.dfy`, `ReaderRuns.dfy` | substring search, readers with chunked reads, the online pattern matcher and the in-memory override, runs of a reader |
| `DataWriter.dfy` | the string writer and the copy of a reader into it |
| `HttpParser.dfy`, `HttpResponses.dfy`, `HttpStatuses.dfy`, `TextUtils.dfy` | the response parser, the serialised responses it undoes, what each status code means for the body, trimming and number parsing |
| `RefCount.dfy`, `RefTransfers.dfy`, `Result.dfy` | the shared reference count under all interleavings, which variable ends with which pointer, the tagged pointer that carries references |
| `Base64.dfy` | the codec, its round trips and the bit string of section 4 of RFC 4648 |
| `FilePath.dfy`, `CreateDirectory.dfy` | path algebra and the creation of missing directories |
| `FileEnumerator.dfy`, `EnumeratedFiles.dfy`, `ReachedFiles.dfy` | the directory walk, the set of paths it returns, and that set by flags, names and pattern |
| `CommandLine.dfy`, `SwitchNames.dfy`, `Reparsing.dfy` | switches and arguments, what they are by their characters, and what parsing again does |
| `ReadFile.dfy` | reading a whole file with short and interrupted reads |

Where the obvious claim is false of the code, the model keeps the code and proves exactly when the
claim holds:

- the edit distance wraps for some first sequences of 2^32 - 1 elements, and the counter that fills
  its first row is an `int`, which overflows for second sequences of 2^31 - 1 elements or more
  (`Levenshtein.ExactLengths`);
- the two pattern matchers disagree as soon as the pattern holds a NUL, at which the online one
  stops (`ReaderRuns.MatchersAgree`, and for single reads `ReaderRuns.MatchersAgreeOn`);
- after a read of negative size, a forward seek clears the error but leaves the reader "done" in the
  middle of its data (`ReaderRuns.DoneMeansEndStep`, `ReaderRuns.NegativeReadThenSeek`);
- a copy of a stream is cut off if the stream was announced with too small a length
  (`DataWriters.WholeRestCopied`);
- a body or chunk that was received in part makes the response parser read beyond the received bytes,
  and it may report the response as complete all the same (`HttpResponses.KnownLength`,
  `HttpResponses.CutInsideChunk`);
- a copied `Result` delivers its value twice (`Results.DeliveredAsMadeIff`), which its move operations
  do not rule out, because they are templates;
- a null success of a `Result<Ref<T>, E>` can be overwritten by a copy, but never be delivered
  (`Results.CanBeEmptiedIff`);
- encoding does not undo decoding for strings that are not canonical
  (`Base64.EncodeDecodeIffCanonical`);
- directory and base name do not always make up the path again (`FilePaths.RejoinIff`);
- appending two names in turn differs from appending them joined when the first makes the path "."
  (`FilePaths.AppendTwo`);
- below a root like "./" no path of an entry starts as the pattern does
  (`FileEnumerators.PatternStartsLikePaths`);
- parsing a parsed command line again does not always reproduce it (`Reparsing.ReparseIff`);
- a header value, an argument or a program name of blanks only makes `TrimString` throw
  (`HttpResponses.HeaderLines`, `CommandLines.CommandLine.InitFromArgv`).

A comment in kwctoolkit/base/check.h says that a failed `KWC_CHECK` aborts, but the code in
kwctoolkit/base/check.cc logs it and goes on; the model goes on as well.

The reference count is a state machine over program variables, threads and counters.  Each operation
on a `Ref` is split into the atomic operations on the counter and the plain stores around them, and
every schedule of these steps is a run.  A `Result<Ref<T>, E>` is a raw owner there: it is filled by
`Detach`, moved by `Move` and emptied by `Acquire`.

What the environment does is left open: a stream may deliver any number of bytes and come back
empty-handed finitely often, `read` may be short, interrupted or lie about the size, the file system
permits what it likes, and `fnmatch` is any predicate.

## Model

| member | source | states |
|---|---|---|
| `Levenshtein.LevenshteinDistance` | kwctoolkit/utils/levenshtein.h:17-34 | the two-row table with row swap, in 32-bit arithmetic, returns the 32-bit recurrence unless the `int` counter of `iota` overflows; for all lengths in `Fits` it does not, and the result is the least cost of an edit script |
| `Levenshtein.FillRow` | kwctoolkit/utils/levenshtein.h:26-30 | one pass overwrites the stale row by the next row of the table and leaves the previous row alone |
| `Levenshtein.DistIsMinCost` | kwctoolkit/utils/levenshtein.h:17-34 | a script from one sequence to the other with this cost exists, and no script is cheaper |
| `Levenshtein.BestScript` | kwctoolkit/utils/levenshtein.h:28-29 | constructs a script of exactly the computed cost |
| `Levenshtein.NoCheaperScript` | kwctoolkit/utils/levenshtein.h:28-29 | every script costs at least the distance of its ends |
| `Levenshtein.CellIsDist` | kwctoolkit/utils/levenshtein.h:20-30 | no 32-bit sum of the table wraps when the second length is 0, or the first is below 2^32 - 1 and the second below 2^31 - 1 |
| `Levenshtein.ExactLengths` | kwctoolkit/utils/levenshtein.h:20-33 | the program is right for all inputs of two given lengths if and only if the second is below 2^31 - 1, and is 0 or the first is below 2^32 - 1 |
| `Levenshtein.WrappedColumn` | kwctoolkit/utils/levenshtein.h:25-33 | with a first sequence of 2^32 - 1 elements the recurrence falls below the length of a non-empty second one |
| `Levenshtein.DistBounds` | kwctoolkit/utils/levenshtein.h:17-34 | the distance lies between the difference of the lengths and the larger length |
| `Levenshtein.ZeroIffEqual` | kwctoolkit/utils/levenshtein_test.cc:45-47 | the distance is zero on equal sequences and on no others |
| `Levenshtein.Symmetric` | kwctoolkit/utils/levenshtein_test.cc:48-49 | the distance does not depend on the order of the two sequences |
| `Levenshtein.TriangleInequality` | kwctoolkit/utils/levenshtein_test.cc:50-55 | going through a third sequence is never shorter |
| `Levenshtein.Compose` | kwctoolkit/utils/levenshtein_test.cc:50-55 | two scripts that meet can be fused into one at no higher cost |
| `Levenshtein.Inverse` | kwctoolkit/utils/levenshtein_test.cc:48-49 | a script can be undone at the same cost |
| `Search.ReadUntilUnique` | kwctoolkit/serialization/data_reader.cc:118-123 | what a pattern read must deliver is determined by the remaining bytes and the pattern |
| `Search.MatchingIsLongest` | kwctoolkit/serialization/data_reader.cc:148-178 | no longer suffix of the consumed bytes than the one from `found_offset` is a prefix of the pattern |
| `Search.MatchExtends` | kwctoolkit/serialization/data_reader.cc:143-146 | an expected byte keeps the invariant of the matcher |
| `Search.MatchBreaks` | kwctoolkit/serialization/data_reader.cc:148-156 | an unexpected byte rules out the current start as well as all earlier ones |
| `Search.CompleteMatch` | kwctoolkit/serialization/data_reader.cc:133-180 | when the pattern is used up, the consumed bytes end with its first occurrence |
| `Search.IncompleteMatch` | kwctoolkit/serialization/data_reader.cc:134-136 | when the source ends before, the pattern does not occur at all |
| `DataReaders.DataReader.FromMemory` | kwctoolkit/serialization/in_memory_data_reader.cc:19-22 | starts at offset 0 without an error, done if and only if there is no data |
| `DataReaders.DataReader.FromStream` | kwctoolkit/serialization/istream_data_reader.cc:19-24 | a stream starts at offset 0 without an error, with the announced length, and is done only if that is 0 |
| `DataReaders.DataReader.SetOffset` | kwctoolkit/serialization/data_reader.cc:38-59 | in memory and in a seekable stream, up to its end: the offset becomes the position, clamped in memory; a negative one is an error at offset -1; the done flag is cleared only by a seek backwards or from -1; any other seek ends with an error at -1 |
| `DataReaders.DataReader.DoSetOffset` | kwctoolkit/serialization/in_memory_data_reader.cc:46-52 | in memory the position is clamped to the length; a seekable stream goes there if it is in its data; any other source stays where it is and returns -1 |
| `DataReaders.DataReader.DoReadIntoBuffer` | kwctoolkit/serialization/in_memory_data_reader.cc:29-44 | copies exactly the next bytes to exactly that part of the buffer, and is done exactly when the data is used up |
| `DataReaders.DataReader.ReadIntoBuffer` | kwctoolkit/serialization/data_reader.cc:61-78 | whatever the source's chunking, delivers the next `max_bytes` bytes or all there are, moves the offset by that number, touches nothing behind them; negative sizes are an error |
| `DataReaders.DataReader.ReadIntoString` | kwctoolkit/serialization/data_reader.cc:80-116 | the same, appended to the string, through a buffer of fixed size |
| `DataReaders.DataReader.ReadUntil` | kwctoolkit/serialization/data_reader.cc:118-123 | consumes up to the end of the first occurrence, or everything, and moves the offset by the consumed bytes, for both matchers |
| `DataReaders.DataReader.AppendUntilInMemory` | kwctoolkit/serialization/in_memory_data_reader.cc:54-60 | the override with `find`; throws at offset -1 |
| `DataReaders.DataReader.DoAppendUntil` | kwctoolkit/serialization/data_reader.cc:130-181 | over any self-advancing source, returns true if and only if the pattern (as a C string) occurs in what is left, and has then consumed exactly up to the end of its first occurrence, else everything |
| `DataReaders.DataReader.Advance` | kwctoolkit/serialization/data_reader.cc:142-177 | one more byte keeps `consumed[found_offset..]` the longest suffix that is a prefix of the pattern |
| `DataReaders.DataReader.FallBack` | kwctoolkit/serialization/data_reader.cc:158-177 | the search inside the consumed bytes finds the next start that is not contradicted |
| `DataReaders.DataReader.Compare` | kwctoolkit/serialization/data_reader.cc:161-166 | the comparison reaches the end of the consumed bytes, or shows that this start is contradicted |
| `ReaderRuns.MemoryUntilIsReadUntil` | kwctoolkit/serialization/in_memory_data_reader.cc:54-60 | the override delivers what a pattern read must deliver, from every offset |
| `ReaderRuns.MatchersAgree` | kwctoolkit/serialization/data_reader.cc:118-181 | the online matcher and the override agree on result and consumed bytes for all data and offsets if and only if the pattern has no NUL |
| `ReaderRuns.MatchersAgreeOn` | kwctoolkit/serialization/data_reader.cc:130-133 | on one read they agree if and only if the pattern has no NUL, or what stands before its first NUL does not occur in the remaining bytes either |
| `ReaderRuns.StepValid` | kwctoolkit/serialization/data_reader.cc:38-123 | every operation keeps the offset in the data, or at -1 with an error; only a pattern read at -1 throws; reads deliver the slice they pass |
| `ReaderRuns.ReadsConcatenate` | kwctoolkit/serialization/data_reader.cc:61-123 | between seeks, any mixture of reads delivers exactly the slice between the two offsets |
| `ReaderRuns.SeekThenRead` | kwctoolkit/serialization/data_reader.cc:38-78 | after a seek, from any state, a read delivers the bytes from that position on and notices the end when it gets there, unless the reader was done and is not moved back |
| `ReaderRuns.DoneMeansEndStep` | kwctoolkit/serialization/data_reader.cc:46-58 | a step keeps "done without an error means at the end" unless it is a forward seek short of the end after an error, and exactly then |
| `ReaderRuns.RunsAreSound` | kwctoolkit/serialization/data_reader.cc:38-123 | in all runs without reads of negative size, done without an error means at the end |
| `ReaderRuns.NegativeReadThenSeek` | kwctoolkit/serialization/data_reader.cc:46-64 | the run that shows why reads of negative size are excluded, on all data |
| `DataWriters.DataWriter.Clear` | kwctoolkit/serialization/data_writer.cc:20-23 | empties the storage and the size, clears an error, does not begin |
| `DataWriters.DataWriter.Begin` | kwctoolkit/serialization/data_writer.cc:25-29 | begins with an empty storage and no error |
| `DataWriters.DataWriter.WriteData` | kwctoolkit/serialization/data_writer.cc:35-55 | appends the bytes and adds their number to the size, after beginning if need be; a bad writer and a negative size write nothing |
| `DataWriters.DataWriter.WriteReader` | kwctoolkit/serialization/data_writer.cc:61-93 | appends exactly the next min(limit, claimed length - offset) bytes of the reader, as far as there are so many, and moves the reader by that number; a reader past its claimed length, or without one, is copied up to the limit; passes on the reader's error |
| `DataWriters.WholeRestCopied` | kwctoolkit/serialization/data_writer.cc:67-72 | a copy without a limit takes all that is left if and only if the claimed length is not between the offset and the end of the data |
| `DataWriters.CopiedBytes` | kwctoolkit/serialization/data_writer.cc:66-83 | a copy takes the next bytes: no more than `max_bytes` if that is not negative, than are left, and than the claimed length allows if the reader has not passed it |
| `DataWriters.CopyEffect` | kwctoolkit/serialization/data_writer.cc:61-85 | storage and size grow by exactly these bytes; a limit of zero leaves a writer that has not begun as it was |
| `DataWriters.DataWriter.CopyChunks` | kwctoolkit/serialization/data_writer.cc:73-84 | the 4096-byte chunking has no effect on what is written |
| `DataWriters.SizeTracksOverRuns` | kwctoolkit/serialization/data_writer.cc:20-93 | over every run of begin, clear, end, writes and copies the size is the stored length, except before a writer with a given string has begun |
| `DataWriters.WritesConcatenate` | kwctoolkit/serialization/string_data_writer.cc:22-32 | any number of writes is one write of the concatenation |
| `RefCounting.StepKeepsInv` | kwctoolkit/base/ref_count.cc:39-69 | every step of every thread keeps the counter, ownership and deletion invariant |
| `RefCounting.RunKeepsInv` | kwctoolkit/base/ref_count.cc:21-69 | so does every run from a program start |
| `RefCounting.SpanKeepsInv` | kwctoolkit/base/ref_count.cc:21-69 | so does any part of a run, in which no object is forgotten |
| `RefCounting.CounterCountsOwners` | kwctoolkit/base/ref_count.cc:17-69 | in every reachable state the counter is twice the number of owners plus the payload bit, and the object has been deleted, or is about to be, exactly when it has no owner |
| `RefCounting.NoUseAfterDelete` | kwctoolkit/base/ref_count.cc:39-50 | a thread about to touch a counter finds its object alive and its assertion true; a thread about to delete is the only one |
| `RefCounting.ExactlyOneLastRelease` | kwctoolkit/base/ref_count.cc:63-68 | over a whole run exactly one release sees a previous value below 4 if nobody owns the object at the end, and none otherwise |
| `RefCounting.OneStepLast` | kwctoolkit/base/ref_count.cc:63-68 | the number of owners drops to zero by such a release and in no other way |
| `RefCounting.OperationsFinish` | kwctoolkit/base/ref_count.h:46-131 | no operation in progress gets stuck, and none takes more than four more steps |
| `RefCounting.NoLeaks` | kwctoolkit/base/ref_count.h:84-87 | when all threads are idle, an object has been deleted, exactly once, if and only if no variable points to it |
| `RefCounting.PayloadNeverChanges` | kwctoolkit/base/ref_count.cc:21-37 | from its construction in a run on, whatever follows, the payload bit of an object's counter is the argument of its constructor |
| `RefCounting.AcquireDoesNotDelete` | kwctoolkit/base/ref_count.h:127-131 | the release in `AcquireRef` never sees the last reference |
| `RefCounting.MoveKeepsObj` | kwctoolkit/base/ref_count.h:67-70 | move construction and `detach` leave every counter right |
| `RefTransfers.EffectAtOnce` | kwctoolkit/base/ref_count.h:49-107 | a new object is held by a raw pointer and a default `Ref` is null; after a move or `detach` the target holds what the source held, the source is null, and nothing else has changed |
| `RefTransfers.DuringKeeps` | kwctoolkit/base/ref_count.h:55-131 | while an operation of a thread is in progress, the other threads leave its variables alone, and the thread itself keeps all pointers |
| `RefTransfers.OperationEffect` | kwctoolkit/base/ref_count.h:51-131 | from its start in a run to its end, under any interleaving: the target of a copy, move or `AcquireRef` holds what the source held at the start; the source is unchanged, null or gone; a destroyed variable is gone; nothing else is changed but by other threads |
| `RefCounting.AddKeepsObj` | kwctoolkit/base/ref_count.cc:39-47 | the atomic increment accounts for the reference about to be stored, without wrapping |
| `RefCounting.SubKeepsObj` | kwctoolkit/base/ref_count.cc:49-68 | the atomic decrement accounts for the variable about to be overwritten and picks the deleter |
| `RefCounting.DeleteKeepsObj` | kwctoolkit/base/ref_count.cc:67 | the deletion is the one that was due |
| `RefCounting.FinishKeepsObj` | kwctoolkit/base/ref_count.h:55-87 | the plain stores at the end of copy, move, assignment, destruction and acquisition keep every counter right |
| `Results.PayloadRoundTrip` | kwctoolkit/base/result.cc:11-19 | tag and pointer are recovered for every 4-aligned pointer, and neither kind looks empty |
| `Results.DecodeEncode` | kwctoolkit/base/result.h:95-110 | reading a payload gives back the success or the error it was made from |
| `Results.Result.constructor` | kwctoolkit/base/result.h:222-229 | a result made from a value carries that value |
| `Results.Result.Moved` | kwctoolkit/base/result.h:231-235 | the new result takes the payload, the old one is left empty |
| `Results.Result.Assign` | kwctoolkit/base/result.h:237-244 | the same for an empty target; a result assigned to itself ends empty |
| `Results.Result.Copied` | kwctoolkit/base/result.h:231-246 | the compiler's copy constructor, which the template for moving does not replace: both results carry the value |
| `Results.Result.AssignCopy` | kwctoolkit/base/result.h:237-246 | the compiler's copy assignment: the target takes the payload whatever it carried, the other result keeps it |
| `Results.Result.GetSuccess` | kwctoolkit/base/result.h:149-153 | for plain pointers, null included: delivers the pointer it was made from and leaves the result empty |
| `Results.Result.GetReference` | kwctoolkit/base/result.h:252-257 | for references: delivers the pointer for `AcquireRef` and leaves the result empty; demands that it is not null |
| `Results.Result.GetError` | kwctoolkit/base/result.h:259-264 | delivers the error it was made from and leaves the result empty |
| `Results.StepConserves` | kwctoolkit/base/result.h:222-264 | making, moving, copying and delivering keep the balance of every value: as often made or copied as delivered, overwritten or still carried |
| `Results.RunConserves` | kwctoolkit/base/result.h:222-264 | so do all runs of them over any number of results |
| `Results.AllDelivered` | kwctoolkit/base/result.h:246 | when every result is empty, as its destructor asserts, each value has been delivered exactly as often as it was made if and only if copies have added exactly what they have overwritten |
| `Results.DeliveredAsMadeIff` | kwctoolkit/base/result.h:222-264 | a program that overwrites no value with a copy and has emptied all its results has delivered each value exactly as often as it was made if and only if it has copied no value |
| `Results.DeliverableIff` | kwctoolkit/base/result.h:252-257 | a made value can be delivered if and only if it is not a null success of a `Result<Ref<T>, E>`, on which `AcquireRef` calls a member |
| `Results.CanBeEmptiedIff` | kwctoolkit/base/result.h:222-264 | at any point of any run, the program can still empty all its results without overwriting a value if and only if it uses plain pointers or no result carries a null reference; if it has overwritten no value so far, that is if it has put no null reference into one |
| `Base64.Base64Encode` | kwctoolkit/utils/base64.cc:22-60 | the group loops and the padding compute `Encode` |
| `Base64.Base64Decode` | kwctoolkit/utils/base64.cc:62-103 | the group loops compute `Decode` on every string, malformed ones included |
| `Base64.EncodePartial` | kwctoolkit/utils/base64.cc:43-57 | one or two bytes left over become two or three letters and the padding |
| `Base64.DecodeGroup` | kwctoolkit/utils/base64.cc:74-79 | the characters are looked up and merged; missing ones are looked up as NUL |
| `Base64.DecodePartial` | kwctoolkit/utils/base64.cc:87-100 | one byte fewer is emitted than there are characters |
| `Base64.DecodeEncode` | kwctoolkit/utils/base64.cc:22-103 | decoding undoes encoding for all byte strings |
| `Base64.EncodeDecodeIffCanonical` | kwctoolkit/utils/base64.cc:22-103 | encoding undoes decoding if and only if the string is canonical |
| `Base64.EncodeIsCanonical` | kwctoolkit/utils/base64.cc:22-60 | encodings are canonical |
| `Base64.EncodedLength` | kwctoolkit/utils/base64.cc:22-60 | n bytes become 4 * ceil(n / 3) characters |
| `Base64.EncodedShape` | kwctoolkit/utils/base64.cc:37-57 | an encoding is letters of the alphabet followed by exactly one '=' for each byte missing from the last group of three |
| `Base64.LetterExactly` | kwctoolkit/utils/base64.cc:12-15 | the letters are those of section 4 of RFC 4648, in its order |
| `Base64.SameBits` | kwctoolkit/utils/base64.cc:32-50 | the sextets are the bits of the bytes in order, followed by the zero bits of section 4 of RFC 4648 |
| `Base64.DecodedBits` | kwctoolkit/utils/base64.cc:70-100 | the decoded bytes are the bits of the letters in order, as far as they fill whole bytes, for all letters, canonical or not |
| `Base64.MergeSplit` | kwctoolkit/utils/base64.cc:77-79 | merging undoes splitting for all three bytes |
| `Base64.SplitMerge` | kwctoolkit/utils/base64.cc:32-35 | splitting undoes merging for all four sextets |
| `Base64.JunkIsNotEmitted` | kwctoolkit/utils/base64.cc:87-99 | what is looked up for the missing characters reaches no emitted byte |
| `Base64.LookupLetter` | kwctoolkit/utils/base64.cc:12-19 | every letter of the alphabet is found at its place and accepted by `IsBase64` |
| `Base64.LetterLookup` | kwctoolkit/utils/base64.cc:12-19 | every accepted character is in the alphabet |
| `TextUtils.Strtol16OfHex` | kwctoolkit/transport/simple_http_transaction.cc:320-322 | a hexadecimal number up to LONG_MAX is read up to whatever cannot continue it |
| `TextUtils.Strtol16Exactly` | kwctoolkit/transport/simple_http_transaction.cc:322 | white space, sign, "0x" and digits are read as a number, clamped to the range of long |
| `TextUtils.AtoiExactly` | kwctoolkit/transport/simple_http_transaction.cc:288 | white space, a sign and decimal digits are read as the number they denote, up to whatever is no digit |
| `TextUtils.ValueOfDecimal` | kwctoolkit/transport/simple_http_transaction.cc:337 | a number written in decimal is read as that number |
| `TextUtils.ValueOfHexadecimal` | kwctoolkit/transport/simple_http_transaction.cc:322 | a number written in hexadecimal, in digits of either case, is read as that number |
| `TextUtils.ToLowerExactly` | kwctoolkit/transport/http_response.h:43-48 | exactly the capital letters change, each to its small letter |
| `TextUtils.RemoveCrAll` | kwctoolkit/transport/simple_http_transaction.cc:203-205 | no carriage return is left in a line, wherever it stood |
| `TextUtils.TrimFront` | kwctoolkit/strings/string_utils.cc:126 | only blanks are cut off, and all of those in front; nothing is left if and only if there are only blanks |
| `TextUtils.TrimBack` | kwctoolkit/strings/string_utils.cc:127 | the same from the back |
| `HttpParser.SimpleHttpProcessor.ProcessStatusLine` | kwctoolkit/transport/simple_http_transaction.cc:256-292 | the words of the line are skipped and read as `StatusCode` says, which `HttpStatuses.CodeIsSecondWord` pins; headers are next |
| `HttpParser.SimpleHttpProcessor.ProcessHeaderLine` | kwctoolkit/transport/simple_http_transaction.cc:294-311 | an empty line ends the headers, or the interim response; any other adds a header, or throws and changes nothing |
| `HttpParser.SimpleHttpProcessor.ProcessDataChunked` | kwctoolkit/transport/simple_http_transaction.cc:131-151 | writes exactly the bytes at the cursor up to the end of the chunk, and ends the chunk exactly when it is used up |
| `HttpParser.SimpleHttpProcessor.ProcessDataNonChunked` | kwctoolkit/transport/simple_http_transaction.cc:153-175 | writes the bytes at the cursor up to the announced length, and completes exactly there |
| `HttpParser.SimpleHttpProcessor.ReadLine` | kwctoolkit/transport/simple_http_transaction.cc:186-206 | collects the bytes before the next LF without any CR, and stops behind it, or at the end of the data |
| `HttpParser.SimpleHttpProcessor.ParseResponse` | kwctoolkit/transport/simple_http_transaction.cc:177-222 | the two nested loops compute the machine on the received bytes; the believed count is never less than what is left, and the loop ends |
| `HttpResponses.BodyStart` | kwctoolkit/transport/simple_http_transaction.cc:327-348 | after the final head the body is chunked if and only if the coding header says so; else its length is the announced one, if the status allows a body |
| `HttpStatuses.CodeIsSecondWord` | kwctoolkit/transport/simple_http_transaction.cc:256-288 | the status code is the number in the second word of the status line, however many blanks there are and whatever follows it |
| `HttpStatuses.CodeOfHead` | kwctoolkit/transport/simple_http_transaction.cc:256-288 | a status line made of a version, decimal digits and a reason has the code that the digits denote |
| `HttpStatuses.HundredIff` | kwctoolkit/transport/simple_http_transaction.cc:294-303 | a response is taken as interim, and another status line expected, if and only if its number is 100 |
| `HttpStatuses.HeadersOfAllLines` | kwctoolkit/transport/simple_http_transaction.cc:305-309 | the headers are those of all header lines received, in order, those of interim responses included |
| `HttpStatuses.ChunkedIff` | kwctoolkit/transport/simple_http_transaction.cc:328-332 | the coding is chunked if and only if the value of the first Transfer-Encoding line starts with "chunked" in any case |
| `HttpStatuses.BodyOutcome` | kwctoolkit/transport/simple_http_transaction.cc:153-175 | the outcome of a body that is not chunked for every announced length, negative and missing ones included |
| `HttpStatuses.ResponseByStatus` | kwctoolkit/transport/simple_http_transaction.cc:256-348 | a whole response that is not chunked, by the number in its status line: 204, 304 and 1xx have an empty body and complete as soon as a byte follows, any other takes the bytes of its first Content-Length line; every other outcome is stated as well |
| `HttpResponses.ChunkedRoundTrip` | kwctoolkit/transport/simple_http_transaction.cc:131-222 | for every response in chunked coding, whatever the split, the data bytes, extensions, trailer, interim responses and following bytes, the parser completes with exactly the concatenated chunks |
| `HttpResponses.KnownLength` | kwctoolkit/transport/simple_http_transaction.cc:153-222 | with a positive Content-Length L and any number of interim responses: the parser completes within the received bytes if and only if L bytes follow the headers, and the body is exactly these; with fewer, but some, it reads beyond the received bytes, and still reports COMPLETE if and only if all received bytes together are at least L; with none it waits for the body |
| `HttpResponses.ShortChunk` | kwctoolkit/transport/simple_http_transaction.cc:131-151 | a chunk of which only a part was received makes the parser read beyond the received bytes, and the chunk counts as ended if and only if the byte count is at least its size; without any of it the parser waits |
| `HttpResponses.CutInsideChunk` | kwctoolkit/transport/simple_http_transaction.cc:131-222 | a whole response, interim responses included, that ends inside a chunk: the chunks before it are written, and the parser waits if none of the chunk was received; otherwise it reads beyond the received bytes, and takes the chunk as complete if and only if all received bytes but those of the chunks before it are at least its size |
| `HttpResponses.UsualCoding` | kwctoolkit/transport/simple_http_transaction.cc:327-332 | a head with the line "Transfer-Encoding: chunked" announces chunked coding, whatever its status line but 100 |
| `HttpResponses.UsualLength` | kwctoolkit/transport/simple_http_transaction.cc:334-338 | a head with a decimal Content-Length line announces the number it denotes, for all numbers |
| `HttpResponses.OneHeader` | kwctoolkit/transport/simple_http_transaction.cc:305-309 | a line made of a name, a colon, a blank and a value adds exactly this name, in lower case, with this value |
| `HttpResponses.HeaderWithoutColon` | kwctoolkit/transport/simple_http_transaction.cc:305-309 | a line without a colon is taken as name and value in one |
| `HttpResponses.HeaderLines` | kwctoolkit/transport/simple_http_transaction.cc:294-311 | all header lines are taken up in order, unless one has a value of blanks only, in which case the parser throws |
| `HttpResponses.HeaderMapFindsFirst` | kwctoolkit/transport/http_response.h:42-50 | a header is found by its name in any case, and the first line of that name wins |
| `HttpResponses.OneHead` | kwctoolkit/transport/simple_http_transaction.cc:256-311 | a status line and its headers are read up to and including the blank line |
| `HttpResponses.Interim` | kwctoolkit/transport/simple_http_transaction.cc:296-298 | any number of 100 Continue responses leaves the parser ready for the final one |
| `HttpResponses.OneChunk` | kwctoolkit/transport/simple_http_transaction.cc:131-151 | a chunk is taken whole, LF and CR in its data included, and the count stays an upper bound |
| `HttpResponses.AllChunks` | kwctoolkit/transport/simple_http_transaction.cc:131-151 | any number of chunks adds exactly their concatenation to the body |
| `HttpResponses.LastChunk` | kwctoolkit/transport/simple_http_transaction.cc:313-325 | a chunk of size zero and the trailer complete the response without touching the body |
| `HttpResponses.Trailer` | kwctoolkit/transport/simple_http_transaction.cc:313-318 | trailer lines are skipped and what follows them is not looked at |
| `FilePaths.FilePath.StripTrailingSeparatorsInternal` | kwctoolkit/file/file_path.cc:136-146 | the resizing loop computes `Strip` in place, "//" included |
| `FilePaths.FilePath.StripTrailingSeparators` | kwctoolkit/file/file_path.cc:129-134 | the same on a fresh copy |
| `FilePaths.FilePath.Append` | kwctoolkit/file/file_path.cc:59-83 | the component up to its NUL is joined with one separator where one is needed, and replaces "." |
| `FilePaths.FilePath.BaseName` | kwctoolkit/file/file_path.cc:89-100 | what follows the last separator of the stripped path; a root is its own base name |
| `FilePaths.FilePath.DirectoryName` | kwctoolkit/file/file_path.cc:102-127 | the stripped path without its last component, a root kept whole, "." for nothing |
| `FilePaths.StripIdempotent` | kwctoolkit/file/file_path.cc:136-146 | stripping twice is stripping once |
| `FilePaths.StripOnlySeparators` | kwctoolkit/file/file_path.cc:136-146 | only trailing separators go, a path never becomes empty, and what still ends in one is "/" or "//" |
| `FilePaths.StripExactly` | kwctoolkit/file/file_path.cc:136-146 | a path of separators only becomes "//" if it is that, else one separator; any other ends before its trailing separators |
| `FilePaths.BaseNameExactly` | kwctoolkit/file/file_path.cc:89-100 | a path of separators only is its own base name after stripping; any other base name is not empty, holds no separator, and is what follows the last one |
| `FilePaths.DirectoryNameExactly` | kwctoolkit/file/file_path.cc:102-127 | the directory of every path: "." without a separator, a root itself, else what stands before the base name, stripped, with "/" and "//" kept |
| `FilePaths.AppendPrefix` | kwctoolkit/file/file_path.cc:59-83 | what follows a NUL is not appended, and appending nothing strips |
| `FilePaths.AppendTwo` | kwctoolkit/file/file_path.cc:59-83 | appending two names in turn is appending them joined, if and only if the first does not make the path "." |
| `FilePaths.DirectoryNameGoesUp` | kwctoolkit/file/file_path.cc:102-127 | `directoryName` is the identity on ".", "/" and "//" and on nothing else, and strictly goes down in rank otherwise, so that iterating it ends |
| `FilePaths.RejoinIff` | kwctoolkit/file/file_path.cc:59-127 | directory and base name append to the path again if and only if it has no trailing separator and its last separator is a root's, or follows neither another one nor a lone "." |
| `CreateDirectories.FileSystem.CreateDirectory` | kwctoolkit/file/file_utils.cc:57-86 | succeeds if and only if every path on the way up exists or may be created; then all are directories; no directory is lost and nothing else is added, whatever the outcome |
| `CreateDirectories.FileSystem.CollectSubPaths` | kwctoolkit/file/file_utils.cc:58-66 | the first loop ends and collects the path and all its ancestors |
| `CreateDirectories.FileSystem.CreateMissing` | kwctoolkit/file/file_utils.cc:68-85 | the second loop creates what is missing from the top down, so that no parent is ever missing |
| `CreateDirectories.FileSystem.CreateOne` | kwctoolkit/file/file_utils.cc:70-83 | an existing directory is left alone; a failed mkdir is a failure only if there is no directory afterwards |
| `CreateDirectories.SubPathsChain` | kwctoolkit/file/file_utils.cc:62-66 | each collected path is the directory of the one before, and the last is ".", "/" or "//" |
| `FileEnumerators.FileEnumerator.constructor` | kwctoolkit/file/file_enumerator.cc:22-35 | a new enumerator matches against the pattern appended to the root, if it is not empty, and has the whole walk from its root ahead |
| `FileEnumerators.FileEnumerator.WithoutPattern` | kwctoolkit/file/file_enumerator.cc:17-20 | a new enumerator without a pattern has the whole walk from its root ahead |
| `FileEnumerators.PatternStartsLikePaths` | kwctoolkit/file/file_enumerator.cc:30-57 | the full pattern starts like the paths of the root's entries if and only if the root is not a "." with separators behind it |
| `FileEnumerators.FileEnumerator.Next` | kwctoolkit/file/file_enumerator.cc:37-78 | returns the first path still ahead and leaves the others; the empty path when there is none, then and ever after; always terminates |
| `FileEnumerators.FileEnumerator.ReadNext` | kwctoolkit/file/file_enumerator.cc:45-75 | taking a directory off the stack and reading it keeps what is ahead, while the number of directories to be read goes down |
| `FileEnumerators.FileEnumerator.ReadEntries` | kwctoolkit/file/file_enumerator.cc:54-75 | entries that pass go to the listing if their type is asked for and to the stack if they are directories of a recursive walk, which `ReachedFiles` states by flags and names |
| `FileEnumerators.EntryPath` | kwctoolkit/file/file_enumerator.cc:57-58 | the path of an entry is a prefix of its directory and the name, and its base name is the name |
| `FileEnumerators.ChildIsLower` | kwctoolkit/file/file_enumerator.cc:67-69 | a directory that is descended into is lower than the one that lists it, which makes the walk end |
| `FileEnumerators.AllConcat` | kwctoolkit/file/file_enumerator.cc:45-47 | what the top of the stack leads to comes before what was pushed earlier |
| `EnumeratedFiles.ReturnsExactlyTheWanted` | kwctoolkit/file/file_enumerator.cc:37-84 | a path is returned if and only if it is an entry of a requested type that is not skipped and matches, in a directory reached through such directories |
| `ReachedFiles.PassesExactly` | kwctoolkit/file/file_enumerator.cc:57-65 | an entry passes if and only if it is not ".", is ".." only if that is asked for, and matches the pattern, if any |
| `ReachedFiles.SubdirectoriesExactly` | kwctoolkit/file/file_enumerator.cc:67-69 | the directories read after one are exactly those it lists under names that pass, in a recursive walk |
| `ReachedFiles.OnlyTheRoot` | kwctoolkit/file/file_enumerator.cc:67-69 | a walk that is not recursive reaches its root only |
| `ReachedFiles.ReturnedIff` | kwctoolkit/file/file_enumerator.cc:37-84 | a path is returned if and only if it is that of an entry of a reached directory which is a directory or not as asked for, is not ".", is ".." only if asked for, and matches the pattern, if any |
| `EnumeratedFiles.ReturnsOnce` | kwctoolkit/file/file_enumerator.cc:37-84 | with distinct names in each directory, no path is returned twice |
| `EnumeratedFiles.ResultsStartWith` | kwctoolkit/file/file_enumerator.cc:57 | every returned path lies below the root of the walk |
| `CommandLines.CommandLine.InitFromArgv` | kwctoolkit/system/cmdline.cc:61-79 | throws if and only if the program or an argument is all blanks; otherwise the state is the program, the switches as written down, then the trimmed other arguments in order, with the map beside them |
| `CommandLines.CommandLine.SetProgram` | kwctoolkit/system/cmdline.cc:97-99 | the first element becomes the trimmed program, nothing else changes |
| `CommandLines.CommandLine.AppendSwitch` | kwctoolkit/system/cmdline.cc:138-153 | the switch goes behind the other switches and before all arguments; its name without its prefix maps to the new value |
| `SwitchNames.AppendedSwitch` | kwctoolkit/system/cmdline.cc:138-152 | a name with no, one or two dashes in front maps to the value; without any it is written with two |
| `CommandLines.CommandLine.GetArgs` | kwctoolkit/system/cmdline.cc:155-162 | the arguments without the first terminator, if there is one |
| `CommandLines.Concat` | kwctoolkit/system/cmdline.cc:66-78 | nothing after the terminator is a switch; switches and arguments keep their order |
| `SwitchNames.IsSwitchExactly` | kwctoolkit/system/cmdline.cc:205-230 | a switch is a string of at least two characters that starts with a dash and is not "--" |
| `SwitchNames.SpellsExactly` | kwctoolkit/system/cmdline.cc:138-141 | its name is what stands between one or two dashes and the first "=", its value what follows that |
| `SwitchNames.WrittenExactly` | kwctoolkit/system/cmdline.cc:145-151 | a switch is written down as it was, but without a last "=" that nothing follows |
| `SwitchNames.DividedAt` | kwctoolkit/system/cmdline.cc:66-78 | before the first terminator arguments are divided by their first characters; it and all that follows are arguments |
| `SwitchNames.ParsedSwitchIff` | kwctoolkit/system/cmdline.cc:61-79 | after parsing, a name has a value if and only if the last switch of that name before the terminator has it |
| `SwitchNames.ParsedLayout` | kwctoolkit/system/cmdline.cc:61-79 | after parsing, `argv` is the program up to a NUL, trimmed, then the switches, then the other arguments in their order |
| `Reparsing.ParsedMap` | kwctoolkit/system/cmdline.cc:138-153 | after parsing, the map is the last-wins map of the switches in `argv` |
| `Reparsing.MapOfWritten` | kwctoolkit/system/cmdline.cc:138-153 | writing switches down does not change their map |
| `Reparsing.WrittenKeeps` | kwctoolkit/system/cmdline.cc:145-152 | a switch as written down has the same name and value |
| `Reparsing.StableIsReread` | kwctoolkit/system/cmdline.cc:205-220 | a switch with a value, or with a name that is not only dashes and does not end in a blank, is read again as written |
| `Reparsing.UnstableIsChanged` | kwctoolkit/system/cmdline.cc:205-220 | any other is read as an argument, as the terminator or as a different switch |
| `Reparsing.ReparseIff` | kwctoolkit/system/cmdline.cc:61-79 | parsing the parsed command line never throws, and reproduces the state if and only if all its switches are of the first kind |
| `ReadFiles.File.Read` | kwctoolkit/file/file_utils.h:64-73 | the `read` that the loops face: short, interrupted finitely often, empty only at the end |
| `ReadFiles.WrapIncomplete` | kwctoolkit/file/file_utils.h:58-77 | delivers `count` bytes or all that are left, exactly those of the file, and touches nothing before them; fails only when a read does |
| `ReadFiles.ReadFile` | kwctoolkit/file/file_utils.h:84-126 | delivers exactly the first min(what is left, num_bytes) bytes whatever the advertised size; after an error, a beginning of them |
| `ReadFiles.Grow` | kwctoolkit/file/file_utils.h:109-123 | each round enlarges the buffer, reaches num_bytes or finds the end, so the loop ends |

## Left out

- The sockets of the HTTP processor, the preparation of requests and the use of one processor for several requests: the model starts with the received bytes and a new processor.
- HttpStatuses.ResponseByStatus: for responses with neither a length nor chunked coding the byte count still includes the header bytes, so the block is longer than the data; the model stops there with `OutOfBounds`, as it does for negative lengths and for bodies and chunks that were received in part. `OutOfBounds` holds the state that the program goes on in, but not the foreign bytes it has written.
- HttpParser.SimpleHttpProcessor.ParseResponse: covers at most INT_MAX received bytes, because the program passes the count on as an int; the body writer is modelled as a string that the bytes are appended to.
- HttpResponses.KnownLength: reads Content-Length as an unbounded number; what atoi does with one that does not fit an int is not specified by C.
- RefCounting.StepKeepsInv: every atomic operation is one sequentially consistent step, so the memory orders are not modelled; destructors of counted objects release nothing themselves; assigning a variable to itself is left out as it returns at once; the number of variables and threads is below 2^63.
- RefCounting.RunKeepsInv: a `Result` that carries a reference is moved and not copied, since `AcquireRef` on both copies would release one reference twice; steps of threads interleave, so the model is a state machine over values and not a class.
- Results.RunConserves: a result assigned to itself loses its value, but only an empty result may be assigned to, so runs move nothing that way; `Result<T*, E>` and `Result<Ref<T>, E>` are one class; `Result<void, E>`, `Result<const T*, E>` and the generic `Result` are not modelled.
- DataReaders.DataReader.DoReadIntoBuffer: any self-advancing source stands for files and input streams, whose own code, like a reader's delete callback, is not modelled; it may come back empty-handed finitely often and never returns a negative number; offsets are unbounded integers.
- DataReaders.DataReader.ReadIntoString: reserving memory and running out of it.
- DataReaders.DataReader.SetOffset: a stream that fails to seek keeps its own position, so nothing is said about reads after a failed seek; a file stream that can be put behind its end; seeks that fail within the data.
- DataReaders.DataReader.FromStream: streams that are not at their beginning, or already at their end or bad when the reader is made.
- DataWriters.DataWriter.WriteReader: sizes are unbounded integers, up to the 64-bit limit on the reader's data.
- The invalid reader, `createManagedDataReader` and the stream and file writers.
- Levenshtein.LevenshteinDistance: first sequences of 2^32 and more elements, whose length the 32-bit loop counter never reaches; what happens after the `int` counter has overflowed, which C++ leaves undefined; the overload for C strings.
- Base64.Base64Encode: inputs longer than an int can count, and locales in which isalnum accepts more than letters and digits of ASCII.
- Base64.DecodeGroup: the program keeps characters and their places in the alphabet in one buffer, the model in two.
- FilePaths.RejoinIff: paths without NUL, which is all that the constructor lets through; the separators of Windows.
- CreateDirectories.FileSystem.CreateDirectory: the file system changes only by this call, so a directory that appears between the check and mkdir is not modelled; "." and ".." inside a path name entries like any other.
- FileEnumerators.FileEnumerator.Next: the tree is a finite map and does not change during the walk, which excludes links back up; whether links are followed is fixed in that map; errors of readdir in the middle of a directory.
- CommandLines.CommandLine.InitFromArgv: the process-wide instance, the overload for argc and argv, and the command line as one string.
- ReadFiles.ReadFile: sizes near the limits of int and size_t, memory running out, and the opening and closing of descriptors; WriteFile.
- DFT, sine generator and PCM conversion, PNG files, IP addresses, UTF conversion, threads, timers, callbacks, logging, scope guards, the regex builder and the other small utilities: floating point, thin wrappers or easy members.
