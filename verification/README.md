# Message formats, lock-free hand-offs and the audio queue

A Dafny model of four components of the amp-rack sources, with proofs about them:

* the **message-format code in `httplib.h`**: the streaming multipart parser with its compacting buffer, and the
  serializer; the chunked transfer coding, both ways; query strings; byte ranges and multipart range bodies; path
  parameters; base64; the buffered stream and its line reader; the worker pool;
* the **lock-free protocols of `atomic.h`**: the generation-counter snapshot and the pointer hand-off;
* the **ring of `LockFreeQueue.h`**, with its wrapping counters;
* the **audio hand-off of `LockFreeQueue.cpp`**, where 128 pooled buffers are reused round robin.

`dafny verify dfyconfig.toml` checks everything. There is one module a file:

| file | what it models |
|---|---|
| `Wrappers.dfy`, `Scanning.dfy` | shared datatype and lemma; find, trim, split, divide |
| `Query.dfy` | percent coding, query-string printer and parser |
| `UrlDecoding.dfy`, `QueryForeign.dfy` | the decoder on any text, the parser on any list of fields |
| `Base64.dfy` | the encoder, its block form and a decoder |
| `Ranges.dfy`, `Byteranges.dfy` | range headers, the range check, multipart range bodies |
| `PathMatcher.dfy` | path parameters |
| `Streams.dfy`, `Chunked.dfy` | socket stream, line reader, chunked coding |
| `ChunkedForeign.dfy` | chunked bodies that other writers send |
| `FormHeaders.dfy`, `FormNames.dfy`, `FormClean.dfy` | header lines of a multipart section, which names survive them, and that none is unclean |
| `FormExtended.dfy` | header lines that other senders write: letter case, any parameters, extended file names |
| `Multipart.dfy`, `MultipartRoundTrip.dfy` | the multipart parser object; the serializer and the round trip |
| `MultipartChunks.dfy`, `MultipartExact.dfy` | cut opening lines; exactly which forms come back from every chunking |
| `MultipartClean.dfy`, `MultipartCallbacks.dfy` | what the callbacks are given for arbitrary bytes, and what a refusal does |
| `MultipartForm.dfy` | the server's side: reading a form, its files, the boundary |
| `ThreadPool.dfy` | the worker pool |
| `Snapshot.dfy`, `AtomicPointer.dfy` | the two protocols of `atomic.h` |
| `LockFreeQueue.dfy` | the ring: index arithmetic, the object, two interleaved threads |
| `AudioQueue.dfy`, `AudioManager.dfy` | the audio hand-off: interleaved runs, and the object with its arrays |

## How it is modelled

* Code that updates fields or arrays is a class or a method with the same loops and branches. Its contract ties the
  new state to a function of the old one, and what the source promises is proved about that function.
* Concurrent code is a state machine in which every atomic load, store, exchange, compare-and-set, slot access,
  sample store and callback is a step of its own; `ValidRun` and `RoomyRun` are its runs. Theorems about runs hold
  for every interleaving. Ghost components (`pushed`, `given`, `freed`, `lost`, `delivered`, unbounded counters)
  record history and decide nothing. The classes beside a machine are proved to do its steps.
* Bytes are characters, counters wrap with an explicit modulus, pointers are numbers with 0 for NULL. A socket is a
  byte sequence whose fragmentation is arbitrary; callbacks are functions of all the calls made so far.
* Recursive functions over the unread bytes (`Run`, `ReadBody`, `Fields`, `DecodedFrom` and so on) say what a loop
  computes; they serve the statements and carry no row below.

## What the source does, where its own text says otherwise

* The multipart parser drops everything up to the opening line, and so also a part of the opening line: the first item
  that is read is the first whose opening line arrives in one chunk (`ReadsFromFirstWhole`). The limit on header lines
  is checked once for what is buffered: a line behind another is read whatever its length when both arrive together
  (`StepLines`), while a line of 8192 bytes or more is refused when it arrives alone and is cut within its line end. So
  the forms that come back from every chunking are those with shorter lines (`LimitExactly`).
* Header lines of a section are percent-decoded before they are checked for CR, LF and NUL, so a form name that
  holds `%0D` is refused; a name with `;` or `=` does not come back (`DispositionExact`).
* A provider call that ends with a write of nothing ends the chunked body without its last chunk; exactly when that
  happens is `CompleteExactly`.
* In front of a chunk size `strtoul` also takes white space, a sign and a `0x`, none of which section 7.1 of RFC 9112
  allows; a size with a minus sign is read as its complement (`SizeSaid`).
* A range with neither bound, a suffix longer than the content and a last position past its end are all rejected;
  section 14.2 of RFC 9110 would shorten the last two (`SingleAccepted`).
* `PathParamsMatcher` never inserts into the set with which it looks for repeated names: repetitions are not
  refused, and the first value is kept, where the comment says the last (`FirstValueKept`).
* `isPowerOfTwo` accepts 0 (`TestMeansPowerOfTwo`), and the example in the comment on `size` should read 106
  (`CommentExample`).
* `enqueue` does not look at the shutdown flag: a job handed in after the workers left is accepted and never starts,
  and only such a job (`JobRunsExactly`).
* The compare-and-set may fail spuriously; then a usage that starts with a full old slot can abort in the debug check,
  although its users do nothing wrong (`UsageFailsExactly`, `SpuriousFailureAborts`).
* `SetSeveralAtomicVariables` is doubted by its own comment. It is correct, up to a wrap of the generation that
  needs 2^30 write sections during one read (`ReadIsConsistent`, `WrapIsSeen`).

## Model

| member | source | states |
|---|---|---|
| MultipartRoundTrip.MultipartRoundTrip | httplib.h:4801-4948 | in every chunking of serialized items whose first chunk holds the opening line, the parser ends valid and its callbacks have given exactly the items, in order, each with its exact content |
| MultipartRoundTrip.RunKeeps | httplib.h:4813-4948 | a call of `parse` on any part of a serialized message neither fails nor loses its place: what was delivered and what is still unread make up the items, and it stops with nothing more to come only at the end |
| MultipartRoundTrip.DelimiterFirst | httplib.h:4906-4928 | the delimiter has no border, so behind content without it its first occurrence is its own place |
| MultipartRoundTrip.PartKeeps | httplib.h:4917-4927 | keeping back as many bytes as the delimiter is long never delivers a byte of a delimiter that has arrived in part |
| MultipartChunks.ReadsFromFirstWhole | httplib.h:4820-4827 | for every list of items and every chunking: the parser reads the items from the first one on whose opening line lies whole in one chunk, is valid if and only if there is one, and loses those before without an error (the opening line occurring only where items start) |
| MultipartChunks.OpeningLineMustBeWhole | httplib.h:4820-4827 | so nothing is lost if and only if the first opening line comes in one chunk |
| MultipartExact.ComesBackExactly | httplib.h:4801-4948 | exactly those forms come back from every chunking whose names and types survive their header lines, whose header lines are shorter than the limit and whose contents are free of the delimiter |
| MultipartExact.LimitExactly | httplib.h:4833-4835 | of forms that could be carried but for the length of their header lines, exactly those come back from every chunking in which every header line is shorter than 8192 bytes |
| MultipartExact.StepLines | httplib.h:4833-4904 | the limit is checked once, against the first line in the buffer: lines behind it are read whatever their length |
| MultipartExact.BadItem | httplib.h:4833-4928 | for every item that cannot be carried a chunking that loses it: line by line, and cut within the line end of a line that is too long |
| MultipartExact.GrownRun | httplib.h:4813-4948 | on arbitrary bytes: items once collected stay, the last with its header while it is open, and unchanged once it is closed |
| MultipartClean.NothingUncleanGiven | httplib.h:4801-4948 | on arbitrary bytes in arbitrary chunks: no name, file name or content type given to the callbacks holds CR, LF or NUL |
| MultipartCallbacks.RefusalEnds | httplib.h:4836-4945 | on arbitrary bytes and for arbitrary callbacks: a refused call is the last one made, the answer is false and the parser is not valid |
| MultipartCallbacks.FileLimit | httplib.h:6551-6558 | the server never accepts a form of more than 1024 files |
| FormClean.HeaderKeepsClean | httplib.h:4846-4898 | the check on the decoded value of a header line covers everything taken from the line, an extended file name after its own decoding included |
| FormClean.CleanSlice | httplib.h:2732-2767 | every part of a text that decodes without a forbidden character does so by itself, wherever it is cut |
| MultipartChunks.FeedUnopened | httplib.h:4820-4827 | bytes without the whole opening line are dropped and leave the parser as it was |
| MultipartRoundTrip.LineShort | httplib.h:4833-4835 | shorter header lines never meet the limit, however they are cut |
| MultipartRoundTrip.SerializedIs | httplib.h:5084-5127 | the serialized form is the opening line and, for every item, header lines, blank line, content and delimiter, with a CRLF or the closing dashes behind it |
| MultipartForm.ItemLines | httplib.h:5084-5100 | a reader of lines finds at the head of an item the delimiter, the disposition with a file name only if there is one, the type if there is one, and an empty line |
| MultipartRoundTrip.SerializeItemBegin | httplib.h:5084-5100 | writes the opening line, the one or two header lines and the blank line |
| MultipartRoundTrip.SerializeMultipartFormdata | httplib.h:5114-5127 | the loop over the items writes the serialized form, with the closing line when asked to |
| MultipartForm.ReadForm | httplib.h:6541-6638 | the server's use of the parser object: for every form of at most 1024 items sent in such chunks it succeeds, and its multimap of files holds exactly the items |
| MultipartForm.FiledByName | httplib.h:6553-6559 | every file is filed under its name, files of one name in the order in which they were sent |
| MultipartForm.BoundaryRoundTrip | httplib.h:4715-4724 | the boundary is read back from the content type if and only if it is not empty, holds no semicolon and is not in quotes |
| Multipart.MultipartFormDataParser.Parse | httplib.h:4813-4948 | one call on the object does what the step function does with the unread bytes and the chunk, for arbitrary callbacks |
| Multipart.MultipartFormDataParser.ParseOpening | httplib.h:4820-4827 | state 0, with everything before the opening line dropped |
| Multipart.MultipartFormDataParser.ParseHeaders | httplib.h:4833-4904 | state 2: all complete header lines, the limit, and the header callback at the blank line |
| Multipart.MultipartFormDataParser.ParseBody | httplib.h:4906-4928 | state 3: content up to the delimiter, or all but its length |
| Multipart.MultipartFormDataParser.ParseBoundary | httplib.h:4929-4945 | state 4: another entry, or validity and the epilogue dropped |
| Multipart.MultipartFormDataParser.BufAppend | httplib.h:5016-5036 | for all the overlapping shift and the growth, the unread bytes are those before followed by the new ones |
| Multipart.MultipartFormDataParser.BufErase | httplib.h:5038 | drops a prefix of the unread bytes; that it never passes the end is proved at every call |
| Multipart.MultipartFormDataParser.BufFind | httplib.h:4990-5014 | the least position in the unread bytes, and their number when there is none |
| Multipart.MultipartFormDataParser.BufStartWith | httplib.h:4969-4988 | whether the unread bytes start with the text |
| FormNames.DispositionExact | httplib.h:4846-4898 | the disposition line gives name and file name back if and only if neither holds a semicolon or equals sign and the line decodes without CR, LF and NUL |
| FormNames.ContentTypeExact | httplib.h:4855-4861 | the content-type line gives the type back if and only if it is trimmed and decodes without CR, LF and NUL |
| FormNames.CleanBefore | httplib.h:4146-4158 | percent-decoding never hides a forbidden character of the raw value |
| FormNames.ExtendedShort | httplib.h:4882-4896 | an extended file name that a file name brings in by its own text is too short to be mistaken for it |
| FormHeaders.ParseHeader | httplib.h:4119-4166 | the scanning loops find trimmed key and value, and refuse lines without a colon, with an empty key or with an unclean value |
| FormHeaders.ParseDispositionParams | httplib.h:4726-4748 | the loops over parts and fields build the multimap of unquoted parameters, repeated parts once |
| FormHeaders.ProcessHeader | httplib.h:4850-4898 | what a header line does to the file, including every refusal; which values it gives is fixed by the rows of `FormExtended` |
| FormExtended.ParametersGiven | httplib.h:4726-4748 | of any list of parameters, quoted or bare, in any order and with repetitions, looking up a key finds the first value given for it |
| FormExtended.NamesGiven | httplib.h:4863-4880 | with header and kind in any letter case and blanks behind them, any such list gives the name and the plain file name, and is refused without a name |
| FormExtended.ExtendedNameGiven | httplib.h:4882-4891 | an extended file name in UTF-8, its charset in any letter case, overrides the plain one, and is decoded to exactly its bytes |
| FormExtended.ExtendedNameRefused | httplib.h:4885-4896 | any other charset, and an extended name without a text, is refused |
| FormExtended.ContentTypeGiven | httplib.h:4853-4857 | a content type is taken from its header in any letter case |
| FormExtended.OtherHeaderIgnored | httplib.h:4853-4898 | every other header with a clean value is accepted and changes nothing |
| FormExtended.SameLetter | httplib.h:346-376 | two characters are equal ignoring case if and only if they are the same or one of 56 letters in its two cases |
| FormHeaders.StartWithCaseIgnore | httplib.h:4957-4966 | prefix up to letter case of the 256-entry table |
| Chunked.ChunkedRoundTrip | httplib.h:4255-4319 | writes followed by `done` are read back as exactly their concatenation, stopping just past the final CRLF; without `done` no read succeeds (section 7.1 of RFC 9112) |
| Chunked.CompleteExactly | httplib.h:4623-4634 | what a provider wrote that goes on until its last call and then calls `done` reaches the reader whole and with success if and only if no call but the last ends with a write of nothing |
| Chunked.ScriptPerformed | httplib.h:4544-4547 | otherwise the body is cut off behind the first call that does |
| Chunked.AnyProvider | httplib.h:4623-4634 | for every provider and every use of the sink: the reader succeeds if and only if some call makes a `done` and all calls before it go on and leave data available |
| Chunked.ScriptRead | httplib.h:4535-4638 | of any operations the reader delivers what was written before the first `done` and stops behind its last chunk, and fails without one |
| Chunked.WriteContentChunked | httplib.h:4535-4638 | over a stream that may break at any byte or say that it cannot be written: a beginning of the performed operations is on the wire, all of them when the answer is true or the stream holds; and while the stream holds the answer is true if and only if the provider goes on whenever it is asked |
| Chunked.ReadContentChunked | httplib.h:4255-4319 | reads from a socket of any fragmentation what the byte-sequence reader reads, and leaves the rest unread; when the socket fails or the receiver refuses a piece, what was delivered is still a beginning of the content, and a receiver that refused is not called again and the answer is false |
| Chunked.ReadContentWithLength | httplib.h:4207-4227 | delivers exactly the next bytes asked for, however they arrive; it fails only at the end of the stream, by the socket or by the receiver, at the piece that it refuses, with nothing lost |
| Chunked.SizeLine | httplib.h:4269-4274 | the printed size line is read back by `strtoul` as the size |
| Chunked.FromIToHex | httplib.h:2550-2558 | prints the number in base sixteen |
| Chunked.HexTextValue | httplib.h:2550-2558 | the digits are hexadecimal and have the value of the number |
| ChunkedForeign.ForeignRead | httplib.h:4255-4319 | chunks with leading zeros, digits in either case and extensions, any last chunk and any trailer lines: the content is delivered exactly, and nothing behind the empty line is taken (section 7.1 of RFC 9112) |
| ChunkedForeign.SizeSaid | httplib.h:4269-4274 | what `strtoul` reads from a size line with blanks, a sign, a `0x` and text behind the digits, overflow and negation included |
| ChunkedForeign.BadSize | httplib.h:4271-4272 | a line without a number, or with one that does not fit, ends the body with failure and nothing delivered |
| ChunkedForeign.DataNotClosed | httplib.h:4276-4284 | data with anything but a line end behind it is delivered, and the body fails |
| ChunkedForeign.TrailerCutOff | httplib.h:4301-4318 | a body may end behind its last size line but not inside its trailer, and a trailer line over the limit is refused |
| Streams.SocketStream.Read | httplib.h:5885-5929 | bytes returned followed by bytes still pending are the bytes pending before, in every branch |
| Streams.LineReader.GetLine | httplib.h:2884-2917 | exactly the bytes up to and including the next CRLF, for every fragmentation, nothing behind it consumed |
| Streams.LineReader.Append | httplib.h:2919-2930 | one byte more, across the switch from the fixed to the growing buffer |
| Query.DecodeUndoesEncode | httplib.h:2679-2767 | decoding undoes encoding on every byte string, for both settings of the plus sign |
| Query.QueryRoundTrip | httplib.h:4676-4709 | parsing the printed query gives the multimap back, with equal entries collapsed to the first |
| Query.QueryRoundTripExactly | httplib.h:4676-4709 | a multimap comes back from its query if and only if every key is nonempty, holds no separator, does not start with a blank and decodes to itself |
| Query.SurvivesExactly | httplib.h:4676-4709 | the same for a single pair, with nothing to collapse |
| Query.AlnumKeySurvives | httplib.h:4676-4709 | nonempty alphanumeric keys are such keys |
| Query.QueryFields | httplib.h:4690-4692 | `split` sees exactly one field for every entry of a printed query |
| Query.EncodeQueryParam | httplib.h:2679-2698 | the loop writes the encoding of every byte |
| Query.DecodeUrl | httplib.h:2732-2767 | the loop decodes, with its `%u` branch and malformed escapes |
| Query.FromHexToI | httplib.h:2533-2548 | the number of exactly so many digits, or nothing |
| UrlDecoding.DecodeMeans | httplib.h:2732-2767 | any text, as a sequence of characters, escaped bytes and escaped code points in which a percent sign stands alone only where it starts no escape, decodes to what these mean, in order |
| UrlDecoding.EveryText | httplib.h:2732-2767 | every text is such a sequence, so the decoder is fixed on all inputs |
| UrlDecoding.Utf8Exactly | httplib.h:2560-2590 | every code point but the surrogates is written as the well-formed sequence that stands for it in section 4 of RFC 3629, and for anything else nothing is written |
| UrlDecoding.HexMeans | httplib.h:2519-2531 | a digit has the value of its place among the sixteen, in either letter case |
| Query.ParamsToQueryStr | httplib.h:4676-4686 | the loop prints the query |
| Query.ParseQueryText | httplib.h:4688-4709 | the loop with its cache parses the query |
| QueryForeign.QueryMeans | httplib.h:4688-4709 | for every list of fields in any order, keys and values any byte strings, with or without an equals sign: the multimap is sorted by key and holds under every key exactly the values of its distinct fields in their order, and nothing under the empty key |
| QueryForeign.EncodedExactly | httplib.h:2679-2698 | a text is its own encoding if and only if it holds only letters, digits and the nine marks |
| QueryForeign.ByteExactly | httplib.h:2679-2698 | every other byte becomes a percent sign and its two digits in upper case |
| Scanning.SplitUpTo | httplib.h:2836-2856 | cuts at the first separators, up to the limit, and calls back on exactly the nonempty trimmed pieces, in order |
| Scanning.PiecesJoin | httplib.h:2836-2856 | the pieces joined are the text, none but the last holds a separator, and the last only when the limit is reached |
| Scanning.Split | httplib.h:2831-2834 | without a limit: the nonempty trimmed fields |
| Scanning.Trim | httplib.h:2787-2796 | the two scans past the ends of the field meet or cross exactly on a blank one, and otherwise delimit the stripped text |
| Scanning.StripExactly | httplib.h:2779-2804 | stripping takes off just the blanks and tabs at both ends |
| Base64.Encode | httplib.h:2594-2620 | the never-masked accumulator gives the block form of section 4 of RFC 4648, with length 4*ceil(n/3), and a decoder recovers every input |
| Base64.AccumulatorLow | httplib.h:2594-2609 | the bits that are read are those of the last bytes, whatever was shifted out at the top |
| Base64.DecodeBlocks | httplib.h:2594-2620 | the reference decoder recovers the input from the block form |
| Ranges.RangeError | httplib.h:5129-5182 | the loop over the in-place rewritten pairs rejects exactly the lists that are not accepted, and leaves behind the positions that the ranges ask for: a suffix of n as the last n, an open range up to the end |
| Ranges.AcceptedAsks | httplib.h:5149-5159 | in every accepted list a range with both bounds stays, an open one reaches to the last position, and a suffix of n becomes the last n positions |
| Ranges.AcceptedBound | httplib.h:5129-5182 | an accepted list lies within the content, ascends, and asks for at most 3*L bytes: at most L, or at most 3*L-3 (section 14.2 of RFC 9110) |
| Ranges.BoundAttained | httplib.h:5170-5174 | for every content of three bytes or more 3*L-3 is reached |
| Ranges.TotalBound | httplib.h:5170-5174 | ranges that overlap nothing before them fit together below the highest last position |
| Ranges.SingleAccepted | httplib.h:5149-5165 | exactly which single ranges are accepted |
| Ranges.CountExactly | httplib.h:5140-5147 | ascending single bytes are accepted up to 1024 of them and no further |
| Ranges.RewriteStable | httplib.h:5149-5159 | an accepted range that was rewritten is not changed by rewriting again |
| Ranges.OffsetAndLength | httplib.h:5184-5192 | offset and length delimit exactly the positions first to last |
| Ranges.HeaderRoundTrip | httplib.h:4753-4799 | the printed list is read back if and only if it is not empty and every range has a bound and is ordered |
| Ranges.MakeRangeHeader | httplib.h:5644-5656 | the loop prints the list |
| Ranges.ParseRangeHeader | httplib.h:4753-4799 | the loop reads the ranges, and nothing when a field is malformed or a number does not fit |
| Ranges.HeaderExactly | httplib.h:4753-4799 | a header value is read as a list of ranges if and only if it starts with `bytes=` and its fields, one or more, each say that range in decimal, in order and within the integer width |
| Byteranges.AcceptedAssembles | httplib.h:5208-5259 | for every accepted list each part holds its head, exactly body[first..last] and CRLF, in request order (section 14.6 of RFC 9110) |
| Byteranges.PayloadAsked | httplib.h:5149-5192 | the payload of every part of an accepted list is what the request asked for: for a suffix of n the last n bytes of the body, for an open range all from its first position |
| Byteranges.PartHeadLines | httplib.h:5208-5236 | a reader of lines finds in the head of a part the delimiter, the type if there is one, the range, and the empty line |
| Byteranges.ContentRangeSays | httplib.h:5194-5206 | the range field is read back as the range and the length of the content |
| Byteranges.MakeMultipartRangesData | httplib.h:5245-5259 | the building pass assembles the body |
| Byteranges.MultipartRangesDataLength | httplib.h:5261-5277 | the counting pass returns exactly the length of that body |
| PathMatcher.SubstitutionMatches | httplib.h:6032-6073 | slash-free values put into a pattern with distinct names give a path that matches and captures exactly them |
| PathMatcher.MatchIsSubstitution | httplib.h:6032-6073 | the pattern with slash-free values put in, up to one slash at the end, matches, and gives the only such values; a path that matches is of this kind where no fragment holds a NUL before its last character |
| PathMatcher.OnlyInstancesMatch | httplib.h:6046-6049 | every path that matches is such a filled pattern if and only if no fragment holds a NUL before its last character, where `strncmp` stops |
| PathMatcher.ParsedRefills | httplib.h:5984-6030 | fragments and names, put together again, are the pattern |
| PathMatcher.NamesExactly | httplib.h:5995-6021 | the names of a pattern are, in order, exactly its pieces between slashes, behind the first, that start with a colon |
| PathMatcher.FirstValueKept | httplib.h:5995-6021 | in every pattern and every path that matches it, repeated names are not refused and of every name the first value is kept |
| PathMatcher.ValuesComeBackExactly | httplib.h:5984-6073 | all values come back from all paths that they are put into if and only if the names are distinct |
| PathMatcher.PathParamsMatcher.constructor | httplib.h:5984-6030 | the loop cuts the pattern into fragments and names, the names that `NamesExactly` fixes |
| PathMatcher.PathParamsMatcher.Match | httplib.h:6032-6073 | the loop over the fragments gives the answer of the pattern, and the bound parameters |
| ThreadPool.JobsRunOnce | httplib.h:752-834 | over every run accepted jobs start once each, in order of acceptance, each started one running or finished, and the queue keeps its limit |
| ThreadPool.JobRunsExactly | httplib.h:765-815 | a job accepted in any state of any run has finished when all workers have exited if and only if some worker had not exited when it was accepted |
| ThreadPool.AllFinished | httplib.h:752-834 | when all workers have exited, every accepted job has finished if and only if none was accepted after the last of them had gone; that nothing was enqueued after shutdown is enough |
| ThreadPool.NoLostWakeup | httplib.h:765-796 | a pool that rests has an empty queue, and after shutdown only exited workers |
| ThreadPool.EveryJobFinishes | httplib.h:765-815 | left to itself, the pool rests after a bounded number of steps whoever is scheduled when; by then every accepted job has finished, if none came after shutdown began, and after shutdown all workers have exited |
| ThreadPool.CanGoOn | httplib.h:765-815 | the pool has a step of its own to take if and only if it is not at rest |
| ThreadPool.NotifiedOnce | httplib.h:765-776 | over every run exactly one notification is sent, or still to be sent, for every accepted job |
| ThreadPool.LateJobIsLost | httplib.h:765-776 | a job accepted after the workers left never starts |
| ThreadPool.Queue.EnqueueJob | httplib.h:765-776 | the section of `enqueue` is the step |
| ThreadPool.Queue.Take | httplib.h:802-815 | the section of a worker is the step: wait, leave, or take the first job |
| Snapshot.ReadIsConsistent | atomic.h:325-362 | when fewer than 2^30 write sections completed during a read, `read_end` returns true if and only if the generation did not move between its two loads, and then nothing was written in between and what was read is part of one committed state |
| Snapshot.UndisturbedRead | atomic.h:347-362 | in every reachable state with the flag down, a reader that nobody disturbs reads the committed values of all variables it asks for and is told true |
| Snapshot.ReadersWait | atomic.h:347-355 | while the flag stays up no read begins and none ends, whatever the other threads do |
| Snapshot.WrapIsSeen | atomic.h:325-362 | with exactly 2^30 sections there is a run in which the reader is told true about a mixed state |
| Snapshot.InvStep | atomic.h:335-362 | every step keeps: variables are written only while the generation is 2 modulo 4 and the flag is set, and what readers saw is accounted for |
| Snapshot.SetSeveralAtomicVariables.WriteStart | atomic.h:335-339 | three steps of the writer |
| Snapshot.SetSeveralAtomicVariables.WriteEnd | atomic.h:341-345 | three steps of the writer |
| AtomicPointer.NothingFreedTwice | atomic.h:369-442 | over every run, spurious failures included, every pointer given is in exactly one place; nothing is freed twice, what the user holds is neither freed nor stored elsewhere, and a debug build loses nothing |
| AtomicPointer.AllFreedAtTheEnd | atomic.h:391-393 | whenever both threads are away the destructor may run, and after it every pointer was freed exactly once or overwritten, with the check in force all were freed exactly once, and no step follows |
| AtomicPointer.UsageFailsExactly | atomic.h:422-441 | a usage that starts in a reachable state can abort (debug build) or lose a pointer (release build) if and only if the old slot is full and, where compare-and-set fails only on a mismatch, a setter stands between its exchanges with a pointer that is not NULL; otherwise it does neither |
| AtomicPointer.UnarmedRun | atomic.h:401-440 | so no run in which every usage starts outside of such states aborts or loses a pointer |
| AtomicPointer.NeverAborts | atomic.h:401-440 | in particular none without spurious failure and without a setter that stands between its exchanges across a gap between usages |
| AtomicPointer.CallsCoverSets | atomic.h:401-440 | no call in progress from before the end of one usage until after the start of the next suffices for that |
| AtomicPointer.SpanningSetLoses | atomic.h:401-440 | without the condition on calls a debug build can abort and a release build lose a pointer |
| AtomicPointer.SpuriousFailureAborts | atomic.h:91-93 | without the condition on compare-and-set a debug build can abort |
| AtomicPointer.AtomicPointerStorage.SetNewPointer | atomic.h:396-406 | the call is the setter's five steps |
| AtomicPointer.ScopedUsage.Leave | atomic.h:428-441 | the destructor is the user's steps: the exchange back, or the check and the store |
| LockFreeQueue.Fifo | LockFreeQueue.h:84-163 | for every power-of-two capacity below the index range and every run what was popped is a prefix of what was pushed, and at most the capacity is outstanding |
| LockFreeQueue.StepsAreQueueOperations | LockFreeQueue.h:84-122 | the increments are the linearization points: each appends to a queue that is not full, or removes the first item, which is the value returned; no other step changes the contents |
| LockFreeQueue.FailuresAreExact | LockFreeQueue.h:154-156 | the decision of `push` sends the producer away exactly if the queue was full at the load of the read counter, that of `pop` and `peek` the consumer exactly if it was empty at the load of the write counter; otherwise they go on to the slot |
| LockFreeQueue.WaitFree | LockFreeQueue.h:84-123 | in every state of every run a thread in a call can take its next step, whatever the other does, and is done after at most seven |
| LockFreeQueue.TakeUndisturbed | LockFreeQueue.h:84-123 | from every reachable state an undisturbed `pop` removes the first item of a queue that is not empty and leaves the rest, `peek` changes nothing, and both give up on an empty queue |
| LockFreeQueue.PutUndisturbed | LockFreeQueue.h:100-108 | from every reachable state an undisturbed `push` appends its item if there is room and otherwise changes nothing |
| LockFreeQueue.NoSharedSlot | LockFreeQueue.h:84-108 | the slot being written is never the one being read and holds no item until the write is complete, and a read finds a complete item |
| LockFreeQueue.MaskIsRemainder | LockFreeQueue.h:158 | masking with a power of two less one is the remainder |
| LockFreeQueue.SlotOf | LockFreeQueue.h:150-158 | masking the wrapped counter gives the slot of the unbounded one |
| LockFreeQueue.SizeIs | LockFreeQueue.h:150 | the wrapped difference is the number of items |
| LockFreeQueue.TestMeansPowerOfTwo | LockFreeQueue.h:75-76 | the static assertion accepts exactly the powers of two, and zero |
| LockFreeQueue.LockFreeQueue.Push | LockFreeQueue.h:100-108 | appends unless full, and says which |
| LockFreeQueue.LockFreeQueue.Pop | LockFreeQueue.h:84-92 | removes and returns the first item unless empty |
| LockFreeQueue.LockFreeQueue.Peek | LockFreeQueue.h:116-123 | the first item, the queue unchanged |
| LockFreeQueue.LockFreeQueue.Size | LockFreeQueue.h:130-151 | the number of items |
| AudioQueue.PayloadIntegrity | LockFreeQueue.cpp:74-115 | if every `process` finds fewer than 128 buffers queued or held, no push fails and every function is given, in registration order, exactly the samples and count of each call, once each and in call order; a buffer keeps them while `main` holds it |
| AudioQueue.EverythingDelivered | LockFreeQueue.cpp:102-115 | from every state in which `main` waits, `main` alone can empty the queue, and then every function has been given every pushed payload, in call order |
| AudioQueue.ProcessUndisturbed | LockFreeQueue.cpp:74-95 | from every state with room a call of `process` can run to its end, and is then queued |
| AudioQueue.CanGoOn | LockFreeQueue.cpp:74-115 | neither thread is ever stuck inside a call, whatever the other does |
| AudioQueue.FullPoolIsOverwritten | LockFreeQueue.cpp:82-93 | with 128 outstanding the next call's first store destroys the oldest payload |
| AudioQueue.OverrunCorrupts | LockFreeQueue.cpp:82-93 | 128 calls without a pop lead there: the bound is sharp |
| AudioQueue.InvStep | LockFreeQueue.cpp:74-115 | every sample store, queue step and callback keeps the buffers of outstanding calls as they were filled |
| AudioManager.Manager.Process | LockFreeQueue.cpp:74-95 | on the arrays: with room the call is queued and nothing queued before is touched; with a full queue the oldest queued buffer holds this call, the push fails and the buffer counter advances all the same |
| AudioManager.Manager.Drain | LockFreeQueue.cpp:102-110 | calls every function with every queued payload, oldest first, and leaves the queue empty |
| AudioManager.Buffer.Fill | LockFreeQueue.cpp:82-87 | the two arrays and the count hold the payload |

## Left out

- Sockets, select, TLS, DNS, threads and other foreign calls: a transport is a byte sequence with arbitrary fragmentation and, for reading, a point at which it fails.
- A stream that recovers after a failed write: the transport of the chunked writer is broken from then on.
- gzip and brotli; the chunked coding is modelled with the identity compressor.
- Trailer fields: the reader's loop over them is modelled and read over any trailer, what it stores is not; `done_with_trailer` is not modelled.
- Chunked.CompleteExactly: for providers that go on until their last call; all others are covered by `AnyProvider`, which says whether the reader succeeds.
- MultipartExact.ComesBackExactly: for boundaries without a carriage return, as valid ones are.
- MultipartChunks.ReadsFromFirstWhole: for forms in which an opening line also occurs elsewhere, in a content say, where the parser would start to read in the middle of an item.
- Integer widths where the source cannot reach them: buffer sizes, offsets and lengths are unbounded, except the range bounds, the chunk size, the generation and the ring's counters.
- `std::regex`: the content-disposition and the extended-file-name patterns are written out as what they match; other uses are not modelled.
- Multimap lookup: `find` on repeated keys gives the first entry, as the usual libraries do; the standard leaves it open.
- `encode_url`, which does not escape `%`.
- PathMatcher.MatchIsSubstitution: requires fragments without a NUL before their last character; that this is exactly the condition is `OnlyInstancesMatch`.
- Overflow of the signed accumulator in `base64_encode`, formally undefined before C++20: it is taken as loss of the high bits.
- Memory orders other than sequential consistency; plain variables beside the atomics are written and read as the protocol's own steps.
- That the spinning waits of `read_start` and `read_end` come to an end while sections keep being written: `UndisturbedRead` is about a reader left alone.
- More than one scoped usage at a time, more than one setter, and a NULL free function in `AtomicPointerStorage`.
- `size` called from a third thread, and more than one producer or consumer: the ring's own documentation excludes them.
- `LockFreeQueueManager::init`, `quit`, `attach`, `detach`, `add_function` (whose limit check is off by one) and the `ready` flag: the model starts from an initialised pool with its functions registered.
- AtomicPointer.NeverAborts: the condition on the history is sufficient; the exact one, on the state in which a usage starts, is `UsageFailsExactly`.
- User interface, plugin loading, file writers, dictionaries, the plugin chain and the approximations in `math.h`.
