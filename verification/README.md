# Service Bus error-queue exporter, modelled in Dafny

The exporter lists the queues of an Azure Service Bus namespace and selects the error queues by a regular expression. It peeks every message of each selected queue without consuming it. It turns each message into an error record (`sbMessageModel`) by reading NServiceBus and dead-letter headers, then hands each queue's records to a data sink. Three sinks exist:

- a Log Analytics sink, which groups the records, counts each group and posts the groups in batches with a shared-key signature;
- a blob sink, which uploads a pipe-separated text;
- a local-file sink, which writes the same text without the raw-body column.

The model keeps the pure logic and passes in everything else as a parameter. Queue listings and peeked pages are sequences. The regular-expression match, `CrLfToTilde`, UTF-8 decoding, JSON, `ChunkBy`, Base64, HMAC-SHA256, HTTP, blob storage and the file system are function-typed parameters. A C# null becomes `Option.None` and a thrown exception becomes `Result.Failure(message)`. The compile-time `DEBUG` switch becomes a `debug: bool` argument.

The modules follow the program:

- `Truncation`, `FieldExtraction`, `QueueDiscovery`, `PeekPaging` and `SvcBusService` cover `SvcBusService`.
- `Aggregation`, `Chunking`, `SharedKey` and `LaDataSink` cover `laDataSink`.
- `QueueAnalyser` covers the engine.
- `PsvText`, `BlobDataSink` and `PsvDataSink` cover the two file sinks.
- `Text`, `Messages`, `Configuration`, `Arithmetic` and `Wrappers` are shared support.

Four behaviours of the code are easy to misread, and the model keeps them:

- the peek loop stops only on a null or empty page, not on a short one;
- a regular-expression timeout during discovery is not caught;
- `Run` has no per-queue exception handling;
- a Release build keeps only every `NotifyUIBatchSize`-th record (see Findings).

## Model

| member | source | states |
|---|---|---|
| SvcBusService.Create | src/SFA.DAS.Tools.AnalyseErrorQueues.Services/SvcBusService/SvcBusService.cs:23-28 | construction succeeds exactly when settings and logger are present; missing settings report "config is null" before a missing logger reports "logger is null"; the client is kept unchecked |
| Truncation.Truncate | src/SFA.DAS.Tools.AnalyseErrorQueues.Services/SvcBusService/SvcBusService.cs:154-165 | lengths are UTF-16 code units, as `string.Length` counts them; the result is empty exactly for null or empty input; input within the limit comes back unchanged; longer input becomes its first `maxLength` code units plus `"..."`, exactly `maxLength + 3` units long; no character is invented except the dots and the stand-in for a surrogate pair cut in half |
| Truncation.TruncateIdempotent | src/SFA.DAS.Tools.AnalyseErrorQueues.Services/SvcBusService/SvcBusService.cs:106-110 | truncating an already truncated value changes nothing, so the nested calls in the field readers are harmless |
| Truncation.SurrogatePairIsCut | src/SFA.DAS.Tools.AnalyseErrorQueues.Services/SvcBusService/SvcBusService.cs:158-161 | one astral character clipped to one code unit keeps only its high surrogate, then `"..."` |
| Text.Utf16Prefix | src/SFA.DAS.Tools.AnalyseErrorQueues.Services/SvcBusService/SvcBusService.cs:161 | `Substring(0, n)`: exactly `n` code units, a prefix of the input except that a surrogate pair cut in half leaves its stand-in last |
| Text.Utf16PrefixOfJoin | src/SFA.DAS.Tools.AnalyseErrorQueues.Services/SvcBusService/SvcBusService.cs:158-161 | clipping a joined text at the length of its first part gives that part back |
| FieldExtraction.ReadString | src/SFA.DAS.Tools.AnalyseErrorQueues.Services/SvcBusService/SvcBusService.cs:102-104 | a missing key reads as ""; the read throws exactly when the stored value's `ToString()` throws; a successful read fits the truncation limit in UTF-16 code units |
| FieldExtraction.ReadTilde | src/SFA.DAS.Tools.AnalyseErrorQueues.Services/SvcBusService/SvcBusService.cs:106-107 | throws exactly when the property's `ToString()` throws; otherwise fits the limit |
| FieldExtraction.ReadFirstType | src/SFA.DAS.Tools.AnalyseErrorQueues.Services/SvcBusService/SvcBusService.cs:109-110 | throws exactly when the property's `ToString()` throws; otherwise fits the limit and holds no comma |
| FieldExtraction.ReadMessage | src/SFA.DAS.Tools.AnalyseErrorQueues.Services/SvcBusService/SvcBusService.cs:116 | the exception message throws exactly for a faulty value; otherwise fits the limit |
| FieldExtraction.ExceptionInfoBranch | src/SFA.DAS.Tools.AnalyseErrorQueues.Services/SvcBusService/SvcBusService.cs:114-124 | with `NServiceBus.ExceptionInfo.Message` present and readable headers, each field comes from its own `NServiceBus.*` header: failure time from `NServiceBus.TimeOfFailure`, only the first enclosed type, and no raw body in either build |
| FieldExtraction.ExceptionInfoTakesPrecedence | src/SFA.DAS.Tools.AnalyseErrorQueues.Services/SvcBusService/SvcBusService.cs:114-125 | when the exception-info header is present, any `DeadLetterReason` value, or none, yields the same record |
| FieldExtraction.DeadLetterBranch | src/SFA.DAS.Tools.AnalyseErrorQueues.Services/SvcBusService/SvcBusService.cs:125-135 | a dead-lettered message gets `"Unknown"` exception type and processing endpoint, an empty stack trace, and failure time from `NServiceBus.TimeSent`; the other fields come from their headers |
| FieldExtraction.DeadLetterIgnoresExceptionHeaders | src/SFA.DAS.Tools.AnalyseErrorQueues.Services/SvcBusService/SvcBusService.cs:125-135 | in the dead-letter branch, the time-of-failure, exception-type, processing-endpoint and stack-trace headers have no effect on the record |
| FieldExtraction.UnrecognisedShape | src/SFA.DAS.Tools.AnalyseErrorQueues.Services/SvcBusService/SvcBusService.cs:137-144 | with neither header, every field stays empty, except that a DEBUG build stores the truncated UTF-8 text of the body |
| FieldExtraction.AssignCatches | src/SFA.DAS.Tools.AnalyseErrorQueues.Services/SvcBusService/SvcBusService.cs:112-150 | the first read that throws sets `ExceptionMessage` to the diagnostic; every other field keeps what was stored before the throw, whatever follows |
| FieldExtraction.ExtractionCatches | src/SFA.DAS.Tools.AnalyseErrorQueues.Services/SvcBusService/SvcBusService.cs:112-152 | a throw while reading the message id still returns a record: the two fields read before it stay, `ExceptionMessage` is `"Error formatting message: "` plus the error, untruncated, and the rest are empty |
| FieldExtraction.StepsAreBounded | src/SFA.DAS.Tools.AnalyseErrorQueues.Services/SvcBusService/SvcBusService.cs:114-143 | every value either branch would store fits the truncation limit, and the enclosed type holds no comma |
| FieldExtraction.FormatIsBounded | src/SFA.DAS.Tools.AnalyseErrorQueues.Services/SvcBusService/SvcBusService.cs:98-153 | for every message, every field except `ExceptionMessage` fits 50,003 UTF-16 code units; `ExceptionMessage` does too unless it is the diagnostic; the enclosed type never holds a comma |
| FieldExtraction.FormatMsgToLog | src/SFA.DAS.Tools.AnalyseErrorQueues.Services/SvcBusService/SvcBusService.cs:98-153 | the record of one message; its branches are stated by `ExceptionInfoBranch`, `DeadLetterBranch` and `UnrecognisedShape`, its catch by `ExtractionCatches`, its bounds by `FormatIsBounded` |
| QueueDiscovery.FilterMembers | src/SFA.DAS.Tools.AnalyseErrorQueues.Services/SvcBusService/SvcBusService.cs:42-44 | a name is selected if and only if it is listed and the predicate accepts it |
| QueueDiscovery.SelectQueues | src/SFA.DAS.Tools.AnalyseErrorQueues.Services/SvcBusService/SvcBusService.cs:40-46 | it succeeds exactly when no match throws; every selected name is listed and matched, and there are no more of them than names; a failure is the exception of the first listed name whose match throws; `SelectIsFilter` relates it to the plain filter |
| QueueDiscovery.SelectIsFilter | src/SFA.DAS.Tools.AnalyseErrorQueues.Services/SvcBusService/SvcBusService.cs:40-46 | when every match decides, discovery equals the order-preserving filter of the listing; it fails exactly when some match throws |
| QueueDiscovery.GetErrorQueues | src/SFA.DAS.Tools.AnalyseErrorQueues.Services/SvcBusService/SvcBusService.cs:30-55 | a failure to build the administration client comes first, then an invalid pattern (even for an empty listing), then the first throwing match, then an enumeration fault; it succeeds exactly when none of these happens, with the order-preserving filter of the listing |
| PeekPaging.StopIndex | src/SFA.DAS.Tools.AnalyseErrorQueues.Services/SvcBusService/SvcBusService.cs:73-92 | the loop goes on through every non-empty page and stops at the first page that is null, empty or a failure |
| PeekPaging.PeekMessages | src/SFA.DAS.Tools.AnalyseErrorQueues.Services/SvcBusService/SvcBusService.cs:57-96 | as written: a DEBUG build throws `NullReferenceException` on a null first page, whose count it logs; otherwise a fetch failure or a zero `NotifyUIBatchSize` after a counted message ends in that exception; otherwise DEBUG returns every peeked record in page order and Release returns the records whose 32-bit running count the batch size divides |
| PeekPaging.PeekLoop | src/SFA.DAS.Tools.AnalyseErrorQueues.Services/SvcBusService/SvcBusService.cs:73-92 | the paging loop for either build: the DEBUG throw on a null first page, then the same failures, and on success the formatted peeked records, all of them or those at counts the batch size divides |
| PeekPaging.FormatPage | src/SFA.DAS.Tools.AnalyseErrorQueues.Services/SvcBusService/SvcBusService.cs:80-90 | one page adds its size to the 32-bit running count and extends the kept records consistently with the whole prefix; a zero batch size throws at the first message |
| PeekPaging.PeekMessagesIntended | src/SFA.DAS.Tools.AnalyseErrorQueues.Services/SvcBusService/SvcBusService.cs:73-92 | with the append outside the `%` test, both builds fail exactly as written (the DEBUG null first page, a fetch failure, a zero batch size) and otherwise return every peeked record in page order |
| PeekPaging.ReleaseDropsRecords | src/SFA.DAS.Tools.AnalyseErrorQueues.Services/SvcBusService/SvcBusService.cs:84-89 | one page of two messages with a batch size of two: both are peeked, no fetch fails, and the Release loop keeps only the second record |
| PeekPaging.ReleaseKeepsFewer | src/SFA.DAS.Tools.AnalyseErrorQueues.Services/SvcBusService/SvcBusService.cs:84-89 | with a batch size of magnitude two or more, a Release build returns fewer records than it peeked whenever it peeked any |
| PeekPaging.EveryNthLength | src/SFA.DAS.Tools.AnalyseErrorQueues.Services/SvcBusService/SvcBusService.cs:83-89 | while the count fits an `int`, a Release build keeps exactly `n / abs(notifyBatchSize)` of `n` records |
| PeekPaging.EveryNthPositions | src/SFA.DAS.Tools.AnalyseErrorQueues.Services/SvcBusService/SvcBusService.cs:83-89 | a record is kept in a Release build if and only if the batch size divides its 1-based position as the 32-bit counter holds it |
| Aggregation.Aggregate | src/SFA.DAS.Tools.AnalyseErrorQueues.Services/DataSinkService/laDataSink.cs:36-48 | there are no more groups than records, and every group carries the given environment and queue |
| Aggregation.BumpShape | src/SFA.DAS.Tools.AnalyseErrorQueues.Services/DataSinkService/laDataSink.cs:38 | counting one more record raises its own group by one, or opens a group of one at the end for a new key; no other group changes |
| Aggregation.TallyIsGrouping | src/SFA.DAS.Tools.AnalyseErrorQueues.Services/DataSinkService/laDataSink.cs:37-38 | the groups are the distinct keys in first-seen order; each counts the records with its key, at least one; the counts add up to the records |
| Aggregation.AggregateConservesCount | src/SFA.DAS.Tools.AnalyseErrorQueues.Services/DataSinkService/laDataSink.cs:36-48 | the group counts sum to the number of records |
| Aggregation.AggregateGroups | src/SFA.DAS.Tools.AnalyseErrorQueues.Services/DataSinkService/laDataSink.cs:36-48 | group keys are pairwise distinct and in first-seen order; each count is the number of records with that key, at least one |
| Aggregation.AggregateCovers | src/SFA.DAS.Tools.AnalyseErrorQueues.Services/DataSinkService/laDataSink.cs:36-48 | a key has a group if and only if some record carries it, so every record falls into the group of its own four fields |
| Chunking.Chunk | src/SFA.DAS.Tools.AnalyseErrorQueues.Services/DataSinkService/laDataSink.cs:54 | the batching the sink relies on: chunks concatenate back to the input, none is empty, and all but the last have exactly the chunk size |
| Chunking.ChunkCount | src/SFA.DAS.Tools.AnalyseErrorQueues.Services/DataSinkService/laDataSink.cs:54 | the number of chunks is the input length divided by the chunk size, rounded up |
| SharedKey.StringToSignLines | src/SFA.DAS.Tools.AnalyseErrorQueues.Services/DataSinkService/laDataSink.cs:71-72 | the string to sign reads back, line by line, as `POST`, the decimal body length, `application/json`, `x-ms-date:` plus the date, and `/api/logs`; the length line parses back to the length |
| SharedKey.StringToSignIsAscii | src/SFA.DAS.Tools.AnalyseErrorQueues.Services/DataSinkService/laDataSink.cs:72-84 | with an ASCII date, the ASCII bytes fed to the HMAC spell out the string to sign exactly, with nothing replaced by `?` |
| SharedKey.StringToSign | src/SFA.DAS.Tools.AnalyseErrorQueues.Services/DataSinkService/laDataSink.cs:71-72 | the five-line string to sign; `StringToSignLines` and `StringToSignIsAscii` state how it reads back |
| SharedKey.BuildSignature | src/SFA.DAS.Tools.AnalyseErrorQueues.Services/DataSinkService/laDataSink.cs:80-90 | fails exactly when the secret does not decode from Base64, with the decoder's exception; otherwise the Base64 of the HMAC of the message's ASCII bytes under the decoded key |
| SharedKey.SignatureVerifies | src/SFA.DAS.Tools.AnalyseErrorQueues.Services/DataSinkService/laDataSink.cs:80-90 | when Base64 decodes what it encodes, the service decoding a signature gets the HMAC of the message's ASCII bytes under the shared key |
| SharedKey.AuthorizationParts | src/SFA.DAS.Tools.AnalyseErrorQueues.Services/DataSinkService/laDataSink.cs:73-74 | the `Authorization` value starts with `SharedKey `; the workspace id is the text up to the first colon, and the signature is the rest |
| SharedKey.Authorization | src/SFA.DAS.Tools.AnalyseErrorQueues.Services/DataSinkService/laDataSink.cs:73-74 | the `SharedKey` header value; `AuthorizationParts` states how it reads back |
| SharedKey.UrlParts | src/SFA.DAS.Tools.AnalyseErrorQueues.Services/DataSinkService/laDataSink.cs:98 | the URL is `https://`, the workspace id, then the fixed ingestion host, path and API version, each at its exact offset |
| SharedKey.UrlInjective | src/SFA.DAS.Tools.AnalyseErrorQueues.Services/DataSinkService/laDataSink.cs:98 | distinct workspaces post to distinct URLs |
| SharedKey.Url | src/SFA.DAS.Tools.AnalyseErrorQueues.Services/DataSinkService/laDataSink.cs:98 | the workspace endpoint; `UrlParts` and `UrlInjective` state its layout and injectivity |
| LaDataSink.Create | src/SFA.DAS.Tools.AnalyseErrorQueues.Services/DataSinkService/laDataSink.cs:24-28 | construction succeeds exactly when settings and logger are present; "config is null" is reported before "logger is null" |
| LaDataSink.RequestHeaderValues | src/SFA.DAS.Tools.AnalyseErrorQueues.Services/DataSinkService/laDataSink.cs:111-115 | each of the five request headers is found by its name with the intended value |
| LaDataSink.PostData | src/SFA.DAS.Tools.AnalyseErrorQueues.Services/DataSinkService/laDataSink.cs:93-128 | the request goes to the workspace URL with the JSON body, the given signature and date, and the configured log type and time field; a failed send becomes a critical log line, never an exception |
| LaDataSink.SinkMessages | src/SFA.DAS.Tools.AnalyseErrorQueues.Services/DataSinkService/laDataSink.cs:30-78 | every batch is posted once, in batch order, through `PostData` with its own JSON body, the call's single date, and the signature over that body's UTF-8 length and the same date, so each post carries all five headers and a failed send is logged at critical level; the only escaping exception is a key that does not decode from Base64, raised before any post |
| LaDataSink.PostedCountsConserved | src/SFA.DAS.Tools.AnalyseErrorQueues.Services/DataSinkService/laDataSink.cs:36-77 | when batching loses and repeats nothing, the counts posted over all batches add up to the number of records |
| LaDataSink.ChunkingConserves | src/SFA.DAS.Tools.AnalyseErrorQueues.Services/DataSinkService/laDataSink.cs:54 | fixed-size chunking with a positive size posts the counts of all groups |
| QueueAnalyser.Create | src/SFA.DAS.Tools.AnalyseErrorQueues.Engine/QueueAnalyser.cs:20-25 | construction succeeds exactly when sink, service, settings and logger are all present; otherwise the first missing one, in that order, is reported by its message |
| Arithmetic.WrapInt32 | src/SFA.DAS.Tools.AnalyseErrorQueues.Engine/QueueAnalyser.cs:41-58 | a C# `int` counter is a 32-bit value congruent to the exact count modulo 2^32, equal to it while it fits |
| Arithmetic.WrapAbsorbs | src/SFA.DAS.Tools.AnalyseErrorQueues.Engine/QueueAnalyser.cs:58 | wrapping after each addition gives the wrap of the exact sum |
| QueueAnalyser.FirstFailure | src/SFA.DAS.Tools.AnalyseErrorQueues.Engine/QueueAnalyser.cs:53-57 | the index of the first queue whose peek throws: all earlier peeks succeed and that one fails |
| QueueAnalyser.Calls | src/SFA.DAS.Tools.AnalyseErrorQueues.Engine/QueueAnalyser.cs:53-62 | the sink calls of a run whose peeks succeed; `CallsCarryPeeks`, `CallsFollowQueues`, `SinkCalledIff` and `CallsCarryEveryRecord` state what they are |
| QueueAnalyser.CallsCarryPeeks | src/SFA.DAS.Tools.AnalyseErrorQueues.Engine/QueueAnalyser.cs:44-62 | every sink call carries the configured environment, a discovered queue, and exactly that queue's non-empty peeked list |
| QueueAnalyser.CallsFollowQueues | src/SFA.DAS.Tools.AnalyseErrorQueues.Engine/QueueAnalyser.cs:53-62 | the sink calls' queues are exactly the discovered queues with records, once each, in discovery order |
| QueueAnalyser.SinkCalledIff | src/SFA.DAS.Tools.AnalyseErrorQueues.Engine/QueueAnalyser.cs:59-62 | the sink is called for a queue if and only if it was discovered and its peek returned at least one record |
| QueueAnalyser.CallsCarryEveryRecord | src/SFA.DAS.Tools.AnalyseErrorQueues.Engine/QueueAnalyser.cs:57-62 | the records handed to the sink add up to the records peeked, so skipping empty lists loses nothing |
| QueueAnalyser.Run | src/SFA.DAS.Tools.AnalyseErrorQueues.Engine/QueueAnalyser.cs:36-73 | a discovery failure ends the run before any peek; otherwise queues are peeked once each, in order, up to and including the first failing peek, which ends the run with its exception; earlier sink calls stand, and a complete run reports the wrapped sum of all peeked counts |
| PsvText.CommonHeaderSplit | src/SFA.DAS.Tools.AnalyseErrorQueues.Services/DataSinkService/psvDataSink.cs:16 | the eight-column header, cut at pipes, gives the eight titles in column order, padded by the separator spaces |
| PsvText.CommonColumnsSplit | src/SFA.DAS.Tools.AnalyseErrorQueues.Services/DataSinkService/psvDataSink.cs:19 | when no field holds a pipe, a line cut at pipes gives the eight fields in header order, two spaces before the failure time and one elsewhere |
| PsvText.DocumentLineCount | src/SFA.DAS.Tools.AnalyseErrorQueues.Services/DataSinkService/BlobDataSink.cs:38-44 | with a one-line-feed newline and line-feed-free fields, the text holds one line more than there are records |
| PsvText.DocumentSplits | src/SFA.DAS.Tools.AnalyseErrorQueues.Services/DataSinkService/BlobDataSink.cs:38-44 | with `"\n"` as the newline, the text splits into the header, each line in order, and an empty rest |
| BlobDataSink.Create | src/SFA.DAS.Tools.AnalyseErrorQueues.Services/DataSinkService/BlobDataSink.cs:19-23 | construction succeeds exactly when settings and logger are present; "config is null" is reported before "logger is null" |
| BlobDataSink.BlobHeaderSplit | src/SFA.DAS.Tools.AnalyseErrorQueues.Services/DataSinkService/BlobDataSink.cs:39 | the nine-column header, cut at pipes, is the eight shared titles followed by `Raw` |
| BlobDataSink.BlobLineSplit | src/SFA.DAS.Tools.AnalyseErrorQueues.Services/DataSinkService/BlobDataSink.cs:42 | when no field holds a pipe, a line cut at pipes gives the nine fields, raw body last, in header order |
| BlobDataSink.BlobTextLines | src/SFA.DAS.Tools.AnalyseErrorQueues.Services/DataSinkService/BlobDataSink.cs:38-44 | the uploaded text is the header, then exactly one line per record in input order |
| BlobDataSink.BlobTextLineCount | src/SFA.DAS.Tools.AnalyseErrorQueues.Services/DataSinkService/BlobDataSink.cs:38-44 | with any one-line-feed newline, the text holds the header line plus one line per record |
| BlobDataSink.BlobText | src/SFA.DAS.Tools.AnalyseErrorQueues.Services/DataSinkService/BlobDataSink.cs:38-44 | the uploaded text; `BlobTextLines`, `BlobTextLineCount`, `BlobHeaderSplit` and `BlobLineSplit` state how it reads back |
| BlobDataSink.BlobNameSplit | src/SFA.DAS.Tools.AnalyseErrorQueues.Services/DataSinkService/BlobDataSink.cs:56 | a blob name of dot-free environment and queue splits at dots into environment, queue, `PeekedMessages` and `psv` |
| BlobDataSink.BlobNameInjective | src/SFA.DAS.Tools.AnalyseErrorQueues.Services/DataSinkService/BlobDataSink.cs:56 | distinct dot-free (environment, queue) pairs never write the same blob |
| BlobDataSink.BlobName | src/SFA.DAS.Tools.AnalyseErrorQueues.Services/DataSinkService/BlobDataSink.cs:56 | the blob name; `BlobNameSplit` and `BlobNameInjective` state how it reads back and that it is injective |
| BlobDataSink.SinkMessages | src/SFA.DAS.Tools.AnalyseErrorQueues.Services/DataSinkService/BlobDataSink.cs:25-68 | the upload goes to the configured account and container under the blob name, with overwrite on and the UTF-8 of the text; a storage failure becomes a critical log line with its message, never an exception |
| PsvDataSink.DumpPathIsBlobName | src/SFA.DAS.Tools.AnalyseErrorQueues.Services/DataSinkService/psvDataSink.cs:23 | the file path is `.\` followed by the blob sink's name for the same environment and queue |
| PsvDataSink.DumpPath | src/SFA.DAS.Tools.AnalyseErrorQueues.Services/DataSinkService/psvDataSink.cs:23 | the file path; `DumpPathIsBlobName` relates it to the blob name |
| PsvDataSink.BlobLineExtendsPsvLine | src/SFA.DAS.Tools.AnalyseErrorQueues.Services/DataSinkService/psvDataSink.cs:16-19 | a file line is a blob line minus its last column, and the file header is the blob header minus `| Raw` |
| PsvDataSink.PsvLineSplit | src/SFA.DAS.Tools.AnalyseErrorQueues.Services/DataSinkService/psvDataSink.cs:19 | when no field holds a pipe, a line cut at pipes gives the eight fields in header order, as many cells as the header |
| PsvDataSink.DumpTextLines | src/SFA.DAS.Tools.AnalyseErrorQueues.Services/DataSinkService/psvDataSink.cs:15-21 | the written text is the header, then exactly one line per record in input order |
| PsvDataSink.DumpTextLineCount | src/SFA.DAS.Tools.AnalyseErrorQueues.Services/DataSinkService/psvDataSink.cs:15-21 | with any one-line-feed newline, the text holds the header line plus one line per record |
| PsvDataSink.DumpText | src/SFA.DAS.Tools.AnalyseErrorQueues.Services/DataSinkService/psvDataSink.cs:15-21 | the written text; `DumpTextLines`, `DumpTextLineCount` and `PsvLineSplit` state how it reads back |
| PsvDataSink.SinkMessages | src/SFA.DAS.Tools.AnalyseErrorQueues.Services/DataSinkService/psvDataSink.cs:12-24 | the dump is written to the path built from environment and queue; a failing write reaches the caller unchanged |
| Text.DecimalRoundTrip | src/SFA.DAS.Tools.AnalyseErrorQueues.Services/DataSinkService/laDataSink.cs:72 | the decimal text of the body length parses back to the length |
| Text.Utf8LengthBounds | src/SFA.DAS.Tools.AnalyseErrorQueues.Services/DataSinkService/laDataSink.cs:71 | the UTF-8 byte count lies between one and four bytes per character, and equals the character count exactly for ASCII text |
| Text.AsciiRoundTrip | src/SFA.DAS.Tools.AnalyseErrorQueues.Services/DataSinkService/laDataSink.cs:82-84 | ASCII text survives `ASCIIEncoding` unchanged |

## Findings

| source | as written | input that shows it | evidently intended | confidence | as-written member | corrected member |
|---|---|---|---|---|---|---|
| src/SFA.DAS.Tools.AnalyseErrorQueues.Services/SvcBusService/SvcBusService.cs:84-89 | in a Release build the `#if DEBUG` log line disappears, so `formattedMessages.Add` becomes the body of `if (totalMessages % notifyBatchSize == 0)` | one page of two messages with `NotifyUIBatchSize` 2: two are peeked, one is returned | every peeked record is returned in both builds, and the `%` test only throttles the progress log | high; not executed | PeekPaging.PeekMessages (shown by PeekPaging.ReleaseDropsRecords and PeekPaging.ReleaseKeepsFewer) | PeekPaging.PeekMessagesIntended |

## Left out

- Service Bus administration and receiver clients, HTTP, blob storage and the file system: they are I/O. Listings, peeked pages, transports, storage and file writes are parameters whose results, success or exception, are given.
- The .NET regular-expression engine and its five-second timeout: the match is a parameter. A timeout is a `Failure` that discovery passes on.
- `CrLfToTilde`, `Encoding.UTF8.GetString`/`GetBytes`, Newtonsoft JSON, `ChunkBy`, Base64 and HMAC-SHA256: parameters. `sbMessageModel`, `CrLfToTilde` and `ChunkBy` are not part of this model. `Chunking.Chunk` states what the sink needs of `ChunkBy`, and `LaDataSink.PostedCountsConserved` takes it as a requirement.
- The date string from `DateTime.UtcNow.ToString("r")` (RFC 1123 form): a parameter read once per `SinkMessages` call.
- Logging, the Stopwatch timing and `CloseAsync` on the receiver: they have no effect on results. The one exception is the DEBUG log of the first page's count (SvcBusService.cs line 75), which throws on a null first page; that throw is modelled (`PeekPaging.FirstPageNull`).
- The sink outcome in `Run`: `Run` discards the task `SinkMessages` returns, so no sink outcome reaches it. The Log Analytics and local-file sinks contain no `await`, so each finishes inside the call and an exception it throws is stored in the discarded task. The blob sink may continue its upload after its first `await` while `Run` goes on to the next queue. The model records the calls in order; when a blob upload finishes is not modelled.
- `PeekMessageBatchSize`: it only sizes the pages, which are given.
- Lone surrogates: a Dafny character is a Unicode scalar value, so the high surrogate that `Substring` leaves when it cuts a pair in half is represented by U+FFFD (`Text.LoneSurrogate`). It has the same UTF-16 length, and it is what `Encoding.UTF8` writes for a lone surrogate.
- Null arguments beyond the constructors' guards: a null `IOptions<T>` makes a constructor throw `NullReferenceException`, and a null setting (a null `SharedKey` reaching `Convert.FromBase64String`, a null workspace id or connection string) throws `ArgumentNullException` in the call that uses it. Settings are records of plain strings here, so neither can happen.
- A record's fields start as empty strings. The model takes this default for `sbMessageModel`, whose declaration is not part of this model.
- The HTTP response body is read and then discarded: it appears only as the `Completed` outcome.
- Startup, dependency-injection wiring, configuration loading, the timer-triggered functions and `IDataSink`: they contain no logic beyond calling the modelled members.
