# A verified model of rpsiod

rpsiod is an epoll web server written in C. This project models its framing code, its state machines and its
in-place tables in Dafny and proves what they are for. `dafny verify dfyconfig.toml` checks everything.

The C code changes buffers, lists and tables step by step, so the model does too: classes with mutable fields,
arrays, linked nodes and loops. Every such method is proved against a specification function or predicate that
does not mention the loop, and lemmas then state what that specification means.

Input and output are scripts. A `Wire.Socket` holds the kernel's answers to the writes still to come (so many bytes
taken, interrupted, not ready, broken) and the bytes that reached the wire; a read script says how many bytes each
read brings. Every theorem holds for every script, so for every way the kernel may cut, delay or break a stream.

| file | what it holds |
|---|---|
| `Bytes.dfy` | bytes, `memmem`, case folding, decimal numbers, bounded copies |
| `Wire.dfy` | partial writes, `writev` with a moving vector |
| `Chunked.dfy`, `ChunkDecoder.dfy`, `Buffer.dfy`, `LoopbackHead.dfy`, `Bridge.dfy` | the PHP response from the chunked writer through the HTTP/2 side's reader, growing buffer, head reader and dechunker to DATA frames |
| `HttpRequest.dfy`, `HttpTheorems.dfy`, `HttpParser.dfy` | request heads: meaning of lines, acceptance, the parsing loops |
| `Connection.dfy`, `SmallestRequest.dfy` | the HTTP/1.1 connection loop over one fixed buffer, and an example request |
| `Streams.dfy` | HTTP/2 streams and their backend connections |
| `RouteTable.dfy`, `RouteBuild.dfy`, `Redirect.dfy` | the open-addressed route table, building it, looking sites up, following redirects |
| `FastCgi.dfy`, `PhpStream.dfy`, `PhpHeaders.dfy`, `PhpBridge.dfy` | FastCGI records and pairs, the record loop of a PHP response, its printed header lines, and the way from records to HTTP/2 frames |
| `Gzip.dfy` | stored-block gzip and its checksum |
| `OpenFileCache.dfy`, `ClientList.dfy`, `RateLimit.dfy` | the LRU descriptor cache, the client list with its sweep, the rate limiter |
| `Text.dfy`, `HeaderMeaning.dfy`, `RequestMeaning.dfy`, `LoopbackMeaning.dfy`, `ChunkMeaning.dfy`, `ConnectionMeaning.dfy`, `BackendMeaning.dfy`, `RouteMeaning.dfy`, `RedirectMeaning.dfy`, `FastCgiMeaning.dfy`, `GzipMeaning.dfy` | what the specifications above mean, stated by the bytes of a text, the rules of a site or the answers of the kernel |
| `ByteRange.dfy`, `FileDelivery.dfy`, `BlockedPath.dfy` | ranges and file bodies, the blocked-path search |

## Main results

* `Bridge.ServeChunked`: a peer gets exactly the concatenated PHP pieces, with the end marked on the last frame and
  only there, or a 502. It gets the pieces if and only if all of them were written and the response is at most 64 MiB.
* `PhpBridge.ServePhp`: from FastCGI records to HTTP/2 frames, the peer gets the body of the concatenated STDOUT or a 502,
  and which, whenever the response was written in full and the head printed for it is read back as meant
  (`PhpBridge.HeadReadable`, decided by `PhpBridge.ReadAsMeantIff`). After a failed write a chunked response is never
  delivered, and one with a declared length only as a strict prefix of its body.
* `Connection.RunConnection`: the requests served are those of the bytes sent before the peer left, however they were
  cut into reads, if and only if no read fills the buffer and no hang-up is reported while a whole message lies ahead
  (`Connection.Loses`, a condition on the reads and hang-ups alone); while the connection is open every byte is in a served
  message or in the buffer.
* `Streams.Connection.Step`, `Streams.Run` and `Streams.RunAndClose`: what every run of the HTTP/2 connection keeps, and that
  its end leaves no descriptor open.
* `RouteBuild.BuildRouteTable`: the table can be built if and only if no key is claimed twice and all fit, and then it
  answers exactly the claims, whatever the order of the sites and the hash.
* `PhpStream.StreamPhp`: a PHP response depends on the concatenated STDOUT bytes alone; it is an error page exactly for a
  lost or stalled backend and for a head that does not fit 64 KiB.
* `OpenFileCache.Cache.Open` and `OpenFileCache.OpenAll`: the cache refines a recency list, never leaks or doubles a
  descriptor, and over unchanging files holds the most recent paths.
* `Gzip.StoredRoundTrip`, `Crc32.BurstChangesCrc`: stored output is read back, and damage within four bytes is detected.
* `RateLimit.RunLimiter`: in every run a client with a bucket of its own gets at most twice the limit through in any
  window's length, and nobody is refused who did not get `limit` requests through in the last one.
* `BlockedPath.SearchIsExactIff`, `Redirect.ChainsEndIff`, `FileDelivery.FileSender.SendFileBody`.

The specification functions the methods are proved against are in turn characterised without themselves, both ways:

* `RequestLineMeaning.RequestLineIff`, one lemma for each header name (`HeaderMeaning.LengthLine`, `ConnectionLine`, `HostLine`,
  `RangeLine` and the others) and the `HeadMeaning` lemmas: what a request line and each header line say by their text, and
  how every field of a parsed request follows from the lines of its head.
* `LoopbackMeaning.ParsedIff` and `HeadlessIsRefused`: which loopback responses are refused for their head, which are taken
  as chunked, and what is delivered of the others.
* `ConnectionMeaning.RequestsIff`: the requests of a stream are the only log in which every entry is made of its own bytes,
  within both limits, and goes on exactly while peer, server, count, site and handler allow.
* `BackendMeaning.AfterProgressIs`: a readiness event by what the kernel takes and brings before the first answer that ends
  the transfer.
* `RouteMeaning.RoutesIff` and `BuildableIff`: a key leads to a site exactly when the site asks for it, and when the table can
  be built; `RedirectMeaning.RedirectedIff`: the text of a Location by the rules of the site.

## Where the code does not meet the natural claim

* `Gzip.CapacityIsExact`: the allocated size equals the written size if and only if the input is not empty; for an
  empty one it is five bytes less, because no block is counted and one is written. `Gzip.GzipStore` answers that the
  stored form fits if and only if the input is not empty.
* `PhpBridge.ServePhp` does not deliver a response whose head is read otherwise than meant. For clean lines the condition is
  exact (`PhpBridge.ReadAsMeantIff`): some line after the first names the coding just when the body is chunked. And for a
  line of the CGI head (`PhpHeaders.PrintedNamesIff`): it is printed so that it names the coding if and only if its name
  keeps a pair of quotes around Transfer-Encoding, because `rpsiod_trim` (src/util.c:84-87) took only one pair off, and its
  value has the coding. `PhpBridge.QuotedCodingIsMisread` is such a head, with a Content-Length: the server prints the line
  (`PhpHeaders.TwiceQuotedIsPrinted`), and a body without a line break behind it is refused on the HTTP/2 side.
* `BlockedPath.SearchIsExactIff`: over the paths with a slash in front, which are all the server asks about, skipping a
  whole pattern after a failed match is exact if and only if no proper border of the pattern follows a slash inside it.
  `BlockedPath.SkippedMatch` builds a missed path for any other pattern. Slash-free patterns are always exact
  (`BlockedPath.SlashFreeSearch`). On such paths the loop always ends (`BlockedPath.Terminates`, `BlockedPath.StaysForEver`).
* `Connection.DispatchedIff`: requests of the stream stay unserved if and only if some read fills the buffer, or a hang-up is
  reported between two events, with a whole servable message ahead (`Connection.Loses`). `Connection.OneBigRead` is an input
  of the first kind: one request and 32768 more bytes in one read, of which nothing is served. `Connection.SentAndClosed` is
  one of the second: a whole request from a peer that closes its side before the next `epoll_wait`.
  `Connection.ShortMessagesNeverLost` gives a plain sufficient condition: messages of at most m bytes, read to their end in
  pieces that together with m stay below the buffer's size.
* `Redirect.ChainsEndIff`: chains of redirects end within the bound if and only if the site is not an upgrading one with
  equal ports; `Redirect.EqualPortsLoop` redirects such a site's request to itself.
* `ByteRange.RepeatedHeaderKeepsSuffix`: `bytes=0-` behind a suffix range gives an empty 206; a single header never does
  (`ByteRange.SingleHeaderProper`).
* `OpenFileCache.StoringAloneDoubles`: storing without the look-up before it would put a path in the table twice. The
  entry count stays exact in an open if and only if `dup` succeeds, or the path is a hit, or it cannot be stored, or the
  list is not full after the look-up (`RecencyList.KeepsCount`, in `OpenFileCache.Cache.Open`, for paths under 512 bytes
  while no longer one was stored). `OpenFileCache.FailedDupIsCounted` is an open that leaves an empty cache with a count of one.
* Paths of 512 bytes and more are cut when stored and never found again (`OpenFileCache.LookedApart`). So one of them can
  stand in the table twice (`OpenFileCache.LongPathDoubles`); `OpenFileCache.DistinctIff` says exactly
  when an entry keeps the paths different, `OpenFileCache.StoredBlocked` when a blocked path enters a table without one.

## Model

| member | source | states |
|---|---|---|
| Wire.Socket.WriteAll | src/server.c:229-256 | all the data goes out if and only if the kernel takes that much before its first refusal; otherwise exactly the prefix it takes |
| Wire.Socket.WritevAll | src/server.c:269-315 | the vector goes out whole or up to some byte, in order; a plain one of at most eight entries whole if and only if the kernel takes that much |
| Wire.Advance | src/server.c:305-312 | after a partial `writev` the vector left holds exactly the bytes not yet taken |
| ChunkSize.HexRoundTrip | src/server.c:943-947 | a printed chunk size is read back as the same number |
| ChunkSize.PrintedSizeParses | src/http2.c:341-378 | a printed size parses to itself up to 64 MiB and is refused above |
| ChunkSize.SizeLineUnique | src/http2.c:341-378 | a size line splits into blanks, digits and the rest in one way only |
| ChunkGrammar.ParseUnique | src/http2.c:323-430 | a byte string starts with at most one chunked body |
| ChunkGrammar.PrefixFree | src/http2.c:323-430 | no strict prefix of an accepted body is accepted |
| ChunkGrammar.DataFits | src/http2.c:399-423 | decoded data stays within 64 MiB and within the input |
| ChunkGrammar.ChunkStep | src/http2.c:399-428 | one positive size line: the body goes on if and only if data, CRLF and limit are right |
| ChunkGrammar.LastStep | src/http2.c:379-397 | a zero size ends the body if and only if its trailer section is complete |
| ChunkMeaning.SizeIff | src/http2.c:341-378 | a line gives a size if and only if it is blanks, hexadecimal digits, blanks and perhaps an extension behind a semicolon |
| ChunkMeaning.TrailersIff | src/http2.c:379-397 | a trailer section is complete if and only if it starts with a line break or has an empty line in it |
| ChunkDecoder.ReadSize | src/http2.c:341-378 | the digit loop with its overflow check computes the grammar's size, or refuses |
| ChunkDecoder.SkipTrailers | src/http2.c:379-397 | accepts exactly the complete trailer sections |
| ChunkDecoder.ReadChunk | src/http2.c:330-428 | one turn of the decoder agrees with the grammar |
| ChunkDecoder.DecodeChunkedBody | src/http2.c:323-430 | terminates on any input; answers the carried data if and only if the input is a chunked body |
| Chunked.EncodeCarries | src/server.c:939-958 | a printed body carries exactly the concatenated pieces, whatever follows |
| Chunked.EncodedPrefixRefused | src/server.c:939-958 | every strict prefix of a printed body is refused, however large the pieces |
| Buffer.GrowBuffer.Append | src/http2.c:256-279 | appends the whole piece or changes nothing, and only within 64 MiB |
| Bridge.WriteChunked | src/server.c:939-958 | the whole encoding goes out, or a strict prefix of it because the kernel gave up |
| Bridge.ReadAll | src/http2.c:638-669 | the bytes collected do not depend on the read sizes; refused exactly above 64 MiB |
| LoopbackHead.HeaderValueHasToken | src/http2.c:298-321 | finds a coding if and only if some element, parameters and blanks aside, is it |
| LoopbackHead.ReadLoopbackHead | src/http2.c:439-476 | refused without a readable status line; otherwise whether some line names the chunked coding |
| LoopbackMeaning.StatusIff | src/http2.c:452-456 | a status line is readable if and only if it is "HTTP/", a word, white space and a number that may have a sign |
| LoopbackMeaning.TrimQuotedIff | src/util.c:69-88 | white space and one pair of quotes come off, and nothing else |
| LoopbackMeaning.CodingLineIff | src/http2.c:298-321 | a line names chunked if and only if its trimmed name is Transfer-Encoding and its trimmed value lists chunked, parameters aside |
| LoopbackMeaning.HeadIff | src/http2.c:445-476 | a head is readable by its first line and chunked by its later ones, where lines end at CR, LF or NUL |
| LoopbackMeaning.ParsedIff | src/http2.c:437-496 | of a response with such a head what follows the first empty line is delivered, dechunked exactly when a line says so |
| LoopbackMeaning.HeadlessIsRefused | src/http2.c:437-456 | any other is refused |
| LoopbackHead.PrintedHeadReads | src/http2.c:451-476 | a head of clean lines is read line by line, with nothing added or lost |
| LoopbackHead.ChunkedLineIsRead | src/server.c:736-740 | the line the server prints for a chunked body is recognised on the other side |
| LoopbackHead.PrintedHeadEnds | src/http2.c:439-443 | a head of clean lines and the empty line behind it ends exactly there |
| LoopbackHead.SampleHeadIsRead | src/http2.c:439-476 | an example: a status line and the chunked line are read as a chunked head |
| Bridge.ParseLoopback | src/http2.c:437-496 | the body is what follows the first empty line, dechunked when a line of the head says so, refused without a status line |
| Bridge.ResponseBody.NextData | src/http2.c:226-254 | the next bytes in order, the end marked exactly with the last |
| Bridge.Drain | src/http2.c:226-254 | frames of any positive lengths concatenate to the body, only the last one marked |
| LoopbackHead.QuotedLineIsRead | src/util.c:71-88 | a header line with the coding's name in quotes names the coding all the same |
| Bridge.SubmitBody | src/http2.c:713-723 | what is submitted for a body: nothing but the end on HEADERS for HEAD or an empty body, otherwise exactly the body |
| Bridge.ServeChunked | src/http2.c:437-496 | end to end: exactly the pieces with the end marked once, or a 502; and exactly when which |
| HttpParser.ValidHeaderBlockNewlines | src/http.c:15-27 | accepts exactly blocks whose CR and LF come in pairs |
| HttpParser.ParseHostValue | src/http.c:77-141 | computes the specified host without port, for names, ports and brackets |
| HttpParser.HeaderTokenPresent | src/http.c:284-304 | finds a token if and only if some comma-separated element is it |
| HttpParser.ReadHeaders | src/http.c:386-474 | the loop over header lines is the fold over the split block |
| HttpParser.ParseRequest | src/http.c:346-489 | the cursor loops compute the specified answer for any buffer |
| HttpTheorems.ParseStable | src/http.c:346-489 | a decided answer does not change when bytes are appended |
| HttpTheorems.ParseAtHeadEnd | src/http.c:357-365 | undecided before the end of the head, decided from there on |
| HttpTheorems.AcceptIff | src/http.c:346-489 | accepted if and only if: one Host, no Transfer-Encoding, equal Content-Lengths, every line readable, all limits kept |
| HttpTheorems.LengthIsUnambiguous | src/http.c:143-166 | an accepted head announces one body length |
| HttpTheorems.AcceptedBounds | src/http.c:346-489 | header length at most 16384 and within the buffer, body length within 64 bits |
| Text.EqualCiIff | src/util.c:90-102 | two texts are equal when every byte is the same or the other case of the same letter |
| Text.TrimIff | src/http.c:61-75 | the trimmed value is what stands between the blanks |
| Text.SpecIff | src/http.c:306-344 | a Range value is read as this range if and only if its text asks for it, signs, white space and saturation included |
| HeaderMeaning.TokenIff | src/http.c:29-49 | a name is valid exactly when it is a token of section 5.6.2 of RFC 9110 |
| HeaderMeaning.ReadIsSaid | src/http.c:386-417 | only lines of a token, a colon and a printable value between blanks are read |
| HeaderMeaning.LengthLine | src/http.c:143-166 | a Content-Length line gives the number of its digits, or is refused |
| HeaderMeaning.TransferLine | src/http.c:447-451 | a Transfer-Encoding line names chunked, or is refused |
| HeaderMeaning.ConnectionLine | src/http.c:452-460 | a Connection line tells which of its three tokens it lists |
| HeaderMeaning.UpgradeLine | src/http.c:461-464 | an Upgrade line tells whether it names websocket |
| HeaderMeaning.SchemeLine | src/http.c:465-468 | the internal scheme line tells whether it says https |
| HeaderMeaning.TraceLine | src/http.c:469-471 | the trace line tells whether it says 1 or true |
| HeaderMeaning.EncodingLine | src/http.c:426-427 | an Accept-Encoding line gives the first 255 bytes of its value |
| HeaderMeaning.NoneMatchLine | src/http.c:428-429 | so does an If-None-Match line |
| HeaderMeaning.ModifiedLine | src/http.c:430-431 | and an If-Modified-Since line |
| HeaderMeaning.HostLine | src/http.c:421-425 | a Host line gives the host its value names, or is refused |
| HeaderMeaning.RangeLine | src/http.c:432-435 | a Range line gives the range its value asks for, or is refused |
| HeaderMeaning.OtherLine | src/http.c:421-471 | a line of any other name is let pass |
| HeaderMeaning.ListsIff | src/http.c:284-304 | a token is found exactly when the value is some list with it as an element |
| HeaderMeaning.HostIff | src/http.c:77-141 | a text names a host: bracketed, with or without a port, or with several colons |
| HeaderMeaning.AuthorityIff | src/http.c:193-201 | an authority matches a Host exactly when both name the same host |
| RequestLineMeaning.TargetIff | src/http.c:180-240 | a target is its own path, or a scheme, an authority and a path |
| RequestLineMeaning.RequestLineIff | src/http.c:242-282 | a line is read as this if and only if it is that method, target and version between single spaces |
| HeadMeaning.SplitIff | src/http.c:386-393 | the lines of a header section are exactly what stands between its CRLFs |
| HeadMeaning.LineIsSaid | src/http.c:366-384 | method, path, query, HEAD and absolute form are those of the request line, and an authority names the Host |
| HeadMeaning.HostIsSaid | src/http.c:421-425 | an accepted head has a Host line, and each names the request's host |
| HeadMeaning.LengthIsSaid | src/http.c:436-446 | every Content-Length line gives the body length |
| HeadMeaning.LengthIsUnsaid | src/http.c:436-446 | a body length other than zero stands on some Content-Length line |
| HeadMeaning.NoTransferIsSaid | src/http.c:475-480 | an accepted head has no Transfer-Encoding line |
| HeadMeaning.KeepAliveIsSaid | src/http.c:452-457 | the connection is kept as the last line says that decides, without one as the version says |
| HeadMeaning.UpgradeIsSaid | src/http.c:457-487 | a WebSocket upgrade takes a Connection line and an Upgrade line |
| HeadMeaning.SchemeIsSaid | src/http.c:465-468 | a request is internal exactly when some line says so |
| HeadMeaning.TraceIsSaid | src/http.c:469-471 | the last trace line decides |
| HeadMeaning.TextsAreSaid | src/http.c:426-431 | the negotiation and validation texts are those of the last line of each name |
| HeadMeaning.RangeIsSaid | src/http.c:432-435 | the range of a request whose Range lines ask for the same is that |
| ConnectionMeaning.RequestsIff | src/server.c:2297-2413 | the requests of a stream are its only log: each made of its own bytes, within the body and buffer limits, followed by the next exactly while peer, server, count, site and handler allow |
| ConnectionMeaning.SentBeforeEnd | src/server.c:2299-2325 | what the peer sends are the bytes of all reads before the first end, whatever pauses and hang-ups stand between |
| Connection.RequestsBounded | src/server.c:2355-2393 | at most max(1, limit) requests of a stream are served |
| Connection.RequestsSplit | src/server.c:2297-2413 | the requests of a stream are those of its start and those of what the start leaves |
| Connection.DispatchedIff | src/server.c:2315-2325 | all requests of the stream are served if and only if no filling read and no hang-up loses one |
| Connection.ShortMessagesNeverLost | src/server.c:2315-2325 | messages of at most m bytes read to their end in pieces shorter than the rest of the buffer are never lost |
| Connection.TracksServe | src/server.c:2330-2412 | serving the front message keeps "served plus buffered is the stream", or settles the connection |
| Connection.Client.BufferedRequestReady | src/server.c:2250-2264 | true exactly for a bad head or a complete message |
| Connection.Client.Receive | src/server.c:2300-2325 | the bytes that fit are appended, and a full buffer ends the connection |
| Connection.Client.Consume | src/server.c:2385-2392 | the message leaves the front and the leftover moves down unchanged |
| Connection.Client.HandleEvent | src/server.c:2297-2413 | one event keeps the framing invariant and the outlook; when it closes, what was served is what the reads call for |
| Connection.RunConnection | src/server.c:2297-2413 | for every ending the served requests are a function of the reads and hang-ups, and of the bytes alone if and only if no filling read and no hang-up loses one |
| Connection.Client.Drop | src/server.c:2668-2669 | a hang-up closes the client without a read: what was served is what the bytes received call for |
| Connection.SentAndClosed | src/server.c:2668-2669 | a concrete input: a whole request sent before a hang-up, of which nothing is served |
| Connection.OneBigRead | src/server.c:2315-2325 | a concrete input with a whole request of which nothing is served |
| SmallestRequest.SmallestIsServed | src/http.c:346-489 | a request of 27 bytes is accepted by the whole grammar |
| Streams.Connection.GetOrCreateStream | src/http2.c:111-135 | ids stay unique: the known stream, or a new idle one at the front |
| Streams.Connection.RemoveStream | src/http2.c:137-156 | exactly that stream leaves the list, its descriptor closed |
| Streams.Connection.CountBackendFds | src/http2.c:897-905 | counting descriptors gives the active counter |
| Streams.Connection.CloseBackend | src/http2.c:498-506 | descriptor closed and counter lowered together |
| Streams.Connection.StartLoopback | src/http2.c:508-572 | the exact state, attempts and request a start leaves, for every outcome of routing, socket and connect |
| Streams.Connection.RetryDelayed | src/http2.c:574-596 | a stream silent for too long below eight attempts starts again from its first byte; any other is left alone |
| Streams.Connection.ProgressWriting | src/http2.c:614-636 | the bytes of an attempt grow as a prefix of the request; where it stops and in which state |
| Streams.DoneIff | src/http2.c:638-669 | a backend is done exactly when all it said up to its end was read and fits, and that is what was collected |
| BackendMeaning.AfterWritesIff | src/http2.c:614-636 | reading once the kernel took all, failed on an error before that, otherwise writing with exactly the rest left |
| BackendMeaning.AfterReadsIff | src/http2.c:638-669 | failed when it is too much or an error comes, done at the end of the stream, otherwise reading on, with all that was brought |
| BackendMeaning.AfterProgressIs | src/http2.c:598-671 | a whole event by what is signalled, taken and brought |
| BackendMeaning.StartedIff | src/http2.c:508-572 | which starts leave a stream writing, connecting or failed |
| BackendMeaning.DueIff | src/http2.c:574-596 | which streams are started again |
| Streams.Connection.Progress | src/http2.c:598-671 | the exact state, progress and response after an event; done and failed are final |
| Streams.Connection.RetryAll | src/http2.c:882-886 | every stream of the list is retried if it is due and left alone if not |
| Streams.Connection.SubmitReady | src/http2.c:853-880 | only finished streams get a response, each one; afterwards none is missing unless nghttp2 refused one |
| Streams.Connection.Step | src/http2.c:758-886 | every step keeps unique ids, descriptors, counter, attempts, prefixes and single responses |
| Streams.Run | src/http2.c:907-1010 | every sequence of steps keeps them, and no stream left means no descriptor left |
| Streams.RunAndClose | src/http2.c:1061 | at the end of any run all streams are freed and no descriptor is left open |
| RouteTable.InsertRepresents | src/config.c:810-846 | filling the first empty probe slot adds the key to the map the array stands for |
| RouteTable.Table.Search | src/config.c:1054-1070 | linear probing finds the key's slot if and only if the key is in the map, for any hash |
| RouteTable.Table.Lookup | src/config.c:1054-1070 | a lookup is the map's answer |
| RouteTable.Table.Add | src/config.c:810-846 | inserts, accepts a repetition, or reports conflict or full table, and which |
| RouteBuild.BuildRouteTable | src/config.c:852-887 | succeeds if and only if no key has two sites and all fit; then the map is exactly the claims |
| RouteMeaning.KeyIff | src/config.c:774-783 | a key is the port, the address and the lower-case host of at most 255 bytes, or the default site |
| RouteMeaning.MatchesIff | src/config.c:802-808 | slots are compared by port, address and default flag, and by host in any case |
| RouteMeaning.RoutesIff | src/config.c:852-887 | a key leads to a site if and only if the site asks for it: its domains and their other spelling, on each nonzero port |
| RouteMeaning.BuildableIff | src/config.c:852-887 | the table can be built if and only if no key is asked for by two sites and at most 4096 are asked for |
| RouteMeaning.SiteIsFound | src/config.c:1072-1086 | an enabled site is found by every name it serves, in any case, on both of its ports |
| RouteBuild.BuildOrderIndependent | src/config.c:852-887 | reordering sites does not change whether it succeeds |
| RouteBuild.LookupOrderIndependent | src/config.c:852-887 | nor which site a key leads to |
| RouteBuild.FindSiteForListener | src/config.c:1072-1086 | the site of the name at the own address, else at every address, else the default site there or everywhere |
| RouteBuild.FoundSiteListens | src/server.c:2188-2196 | the site found listens there or everywhere, so the 400 guard cannot fire |
| Redirect.BuildRedirectLocation | src/route.c:11-54 | location and status of the specified step, none when no rule applies or it does not fit |
| RedirectMeaning.LocationIff | src/route.c:42-54 | the text of a Location: scheme, host, the decimal port unless it is the scheme's own, path |
| RedirectMeaning.RedirectedIff | src/route.c:11-54 | a redirect by the rules of the site: where to, with which status, and when at all |
| Redirect.ChainEnds | src/route.c:11-54 | unless the site loops, a chain is at most two hops towards www, and leading "www."s plus one away from it |
| Redirect.ChainsEndIff | src/route.c:11-54 | all chains stay within the bound if and only if the site is not an upgrading one with equal ports |
| Redirect.EqualPortsLoop | src/route.c:19-23 | with equal ports an upgrade leads back to itself |
| Redirect.WwwTargetIsRouted | src/config.c:866-883 | the www target of a configured apex domain is routed to the same site on both ports |
| FastCgi.WriteRecord | src/server.c:1521-1539 | the record goes out whole, or a prefix of it because the kernel gave up |
| FastCgi.RecordRoundTrip | src/server.c:1521-1539 | a record is read back, and is a multiple of 8 bytes long |
| FastCgiMeaning.RecordIff | src/server.c:1689-1712 | a record is read if and only if its bytes stand there, whatever version, request id and padding say |
| FastCgiMeaning.StdoutIs | src/server.c:1713-1795 | records of type 6 add to STDOUT, type 3 ends it, all others are passed over |
| FastCgiMeaning.LengthIs | src/server.c:1560-1575 | a length stands in one byte, or in four with the highest first and the top bit set |
| FastCgiMeaning.PairExample | src/server.c:1577-1588 | an example: both lengths, then name and value |
| FastCgi.RecordsRoundTrip | src/server.c:1689-1712 | any sequence of records is recovered, in order and complete |
| FastCgi.PairsRoundTrip | src/server.c:1560-1588 | any list of pairs with lengths below 2^31 is recovered |
| FastCgi.LengthRoundTripIff | src/server.c:1560-1588 | a length comes back if and only if it is below 2^31 |
| FastCgi.ParamBuffer.AddParam | src/server.c:1590-1595 | appends the pair, or changes nothing, exactly when it does not fit |
| FastCgi.EncodeParams | src/server.c:1590-1595 | a block that fits decodes to the pairs added, and which blocks fit |
| PhpStream.Backend.ReadRecord | src/server.c:1689-1712 | a record comes whole whatever the read sizes, or the stream is lost or stalls |
| PhpStream.TakeStdout | src/server.c:1713-1790 | one record of any cut keeps "what is on the wire is what the bytes seen call for" |
| PhpStream.HeadFitsStep | src/server.c:1713-1718 | whether the head fits is decided record by record, up to the one that completes it |
| PhpStream.StreamPhp | src/server.c:1680-1811 | a completed response is the one the concatenated STDOUT calls for; an error page exactly for loss, stall or a head that does not fit; after a failed write, a strict prefix of that response |
| PhpStream.BodyWireDecodes | src/server.c:1680-1811 | a chunked PHP body decodes to exactly the bytes after the head |
| ResponseMeaning.HeadlessResponseIff | src/server.c:1796-1811 | without an empty line on STDOUT: the server's own head and all that was said |
| ResponseMeaning.HeadResponseIff | src/server.c:1719-1750 | with one, for HEAD: the printed head alone |
| ResponseMeaning.LengthResponseIff | src/server.c:1719-1790 | with a declared length: the printed head and the body as it is |
| ResponseMeaning.ChunkedResponseIff | src/server.c:1719-1790 | without one: the printed head and the body in chunks |
| PrintedMeaning.AllowedIff | src/server.c:868-890 | which names of a CGI head are not passed on |
| PrintedMeaning.PrintedIff | src/server.c:892-913 | a line is printed if and only if its trimmed name is a token that is passed on and its trimmed value is printable, and then as name, colon, space, value |
| PhpHeaders.PrintedNamesIff | src/server.c:868-913 | a CGI header line is printed so that it names the chunked coding if and only if its name keeps quotes around Transfer-Encoding and its value has the coding |
| PhpHeaders.TwiceQuotedIsPrinted | src/server.c:868-913 | an example: the name in two pairs of quotes passes the list and is printed with one |
| PhpBridge.CutParses | src/http2.c:437-496 | of a response cut by a failed write nothing is taken if it was chunked, and otherwise at most a strict prefix of the body |
| PhpBridge.ResponseParses | src/http2.c:437-496 | a whole PHP response whose head is read as meant is read on the HTTP/2 side as the body of what was said on STDOUT |
| PhpBridge.ReadAsMeantIff | src/http2.c:451-476 | a printed head of clean lines is read as meant if and only if some line after the first names the coding just when it is meant |
| PhpBridge.SampleIsReadable | src/server.c:917-937 | an example: a printer of a status line and the coding is read as meant, whatever was said on STDOUT |
| PhpBridge.QuotedCodingIsMisread | src/server.c:892-913 | a head with a line the server prints that is read otherwise than meant; a body without a line break behind it is refused |
| PhpBridge.ServePhp | src/server.c:1680-1811 | from records to frames: what arrives is what the wire carries; and with the head read as meant exactly that body, or a 502 above 64 MiB; after a failed write a 502 or, unless chunked, a strict prefix |
| PhpBridge.AnswerStream | src/http2.c:675-734 | a finished stream is answered with the body its last attempt carries, with none for HEAD, or with a 502; without a byte of body there is no DATA frame |
| PhpBridge.ReadsAreDelivered | src/http2.c:638-734 | reads that bring a chunked response collect it and carry exactly its pieces |
| Crc32.Update | src/compress.c:14-23 | the masked bit loop computes the register machine's checksum |
| Crc32.BitwiseIsTableDriven | src/compress.c:14-23 | eight bit steps are one table look-up of section 8 of RFC 1952 |
| Crc32.CrcComposes | src/compress.c:14-23 | checksums of parts, fed on, give the checksum of the whole |
| Crc32.BurstChangesCrc | src/compress.c:14-23 | inputs that differ only within four adjacent bytes have different checksums |
| CrcExample.CrcOfLetter | src/compress.c:14-23 | the checksum of "a" is that of every CRC-32 |
| TrailerWords.CrcBytesMean | src/compress.c:164-166 | the checksum's bytes stand least significant first |
| TrailerWords.SizeBytesMean | src/compress.c:167-169 | and so do those of the size |
| GzipMeaning.ReadIsMember | src/compress.c:122-174 | what the reader accepts is a member by its bytes: magic, method, flags, blocks, checksum, size |
| GzipMeaning.StoredIsMember | src/compress.c:122-174 | the stored form is a member of its input |
| Gzip.StoredRoundTrip | src/compress.c:122-174 | a reader of section 2.3 of RFC 1952 and section 3.2.4 of RFC 1951 recovers the input |
| Gzip.CapacityIsExact | src/compress.c:123-124 | allocated and written size agree if and only if the input is not empty |
| Gzip.GzipStore | src/compress.c:122-174 | fits if and only if the input is not empty, and then the array is filled exactly to its end with the stored form, which reads back |
| Gzip.DamageIsRefused | src/compress.c:160-171 | data damaged within four adjacent bytes is refused by the reader |
| RecencyList.SameIff | src/server.c:1307-1313 | a cached entry is used exactly for a regular file of the same size, time and inode |
| RecencyList.OpeningKeepsRecent | src/server.c:1376-1392 | an open keeps the list the most recent different paths that fit |
| OpenFileCache.VictimIsOldest | src/server.c:1337-1353 | a free slot is taken if there is one, otherwise the least recently used entry goes |
| OpenFileCache.StoringAloneDoubles | src/server.c:1337-1353 | the slot search alone stops at a free slot before an entry with the same path |
| OpenFileCache.DistinctIff | src/server.c:1364-1369 | the exact condition for a new entry to keep the paths different |
| OpenFileCache.LongPathDoubles | src/server.c:1337-1367 | one path of 512 bytes or more stands twice after being stored twice |
| OpenFileCache.StoredBlocked | src/server.c:1330-1367 | a table without blocked paths gets one exactly when a longer path that is cut to a blocked one is stored |
| OpenFileCache.Cache.FindSlot | src/server.c:1335-1353 | the loop finds the slot described |
| OpenFileCache.Cache.Lookup | src/server.c:1289-1327 | hit, stale entry dropped, or not listed; descriptors accounted for; too long a path is never found |
| OpenFileCache.Cache.Store | src/server.c:1329-1374 | the new entry is last, the oldest goes when full; the exact effect on the count, and exactly when a blocked path enters |
| OpenFileCache.Cache.Open | src/server.c:1376-1392 | gives what a fresh open would; refines the recency list; no descriptor leaks or is shared; the exact condition under which the entry count stays right |
| OpenFileCache.FailedDupIsCounted | src/server.c:1355-1363 | a concrete full cache whose count is one too high after a failed dup |
| OpenFileCache.OpenAll | src/server.c:1376-1392 | over unchanging files the cache holds the last paths used, and its count is exact |
| ClientList.Worker.Add | src/server.c:492-499 | the client is first, links right in both directions |
| ClientList.Worker.Remove | src/server.c:501-512 | exactly that client leaves, order kept, links right |
| ClientList.Worker.Accept | src/server.c:2525-2608 | accepted counts once, and the client is listed or closed |
| ClientList.ExpiredIff | src/server.c:2265-2290 | a client expires when it is idle, has sent nothing and that many seconds have passed to the nanosecond |
| ClientList.Worker.Sweep | src/server.c:2278-2295 | closes exactly the expired clients, keeps the order of the rest, counts them |
| ClientList.SurvivorsAreTheLiving | src/server.c:2278-2295 | the clients kept are exactly those not expired |
| ClientList.Run | src/server.c:2610-2693 | after any events accepted equals closed plus active, and active the list length |
| RateLimit.Limiter.Exceeded | src/rate_limit.c:12-42 | refusal, bucket and waiting time as specified, other buckets untouched; clients without an IPv4 address pass |
| RateLimit.RefusalIsDeserved | src/rate_limit.c:25-40 | a refusal means `limit` accepted requests of this client in the running window; waiting as told suffices |
| RateLimit.TwiceTheLimit | src/rate_limit.c:25-40 | a client alone in its bucket gets at most twice the limit through in any window's length |
| RateLimit.TwiceTheLimitInARun | src/rate_limit.c:12-42 | over a whole run, a client whose bucket no other address reaches gets at most twice the limit through in any window's length |
| RateLimit.RefusedInARun | src/rate_limit.c:12-42 | over a whole run, whoever is refused got `limit` requests through in the last window's length |
| RateLimit.ReachingMonotone | src/rate_limit.c:21-24 | a bucket sees the calls of its addresses in the order of the clock |
| RateLimit.RunLimiter | src/rate_limit.c:12-42 | over any run every call is judged by the history of its own bucket, and both bounds hold |
| ByteRange.IntRangeMeaning | src/http.c:306-344 | refused or the interval of section 14.1.2 of RFC 9110, for numbers of any width |
| ByteRange.SuffixMeaning | src/server.c:1041-1047 | a suffix selects the last bytes, refused exactly for zero |
| ByteRange.ResolveProper | src/server.c:1036-1075 | the interval is within the file and not reversed, except after a zero suffix |
| ByteRange.SingleHeaderProper | src/http.c:306-344 | after a single header of any value the interval is never empty or reversed |
| ByteRange.RepeatedHeaderKeepsSuffix | src/http.c:306-344 | a second header can leave such a zero suffix |
| FileDelivery.FileSender.CopyReadWrite | src/server.c:317-344 | the copying loop sends exactly the slice, or a prefix when kernel, client or file end stop it |
| FileDelivery.FileSender.SendFileBody | src/server.c:346-379 | exactly the slice under any partial sendfile results and a fallback at any point; fails only for those reasons |
| BlockedPath.BlocksPath | src/security.c:9-24 | the inner loop is the skipping search |
| BlockedPath.StaysForEver | src/security.c:14-21 | where the cursor would never move: on no path with a slash in front, so on none the server asks about |
| BlockedPath.BlockedDirectAccess | src/security.c:9-24 | true if and only if the search for some pattern of the site answers true |
| BlockedPath.SearchIsExactIff | src/security.c:9-24 | over the paths with a slash in front, the search finds every standing match if and only if no border of the pattern follows a slash |
| BlockedPath.SkippedMatch | src/security.c:9-24 | for any other pattern, a path with a slash in front whose match is missed |
| BlockedPath.SlashFreeSearch | src/security.c:9-24 | for slash-free patterns, true if and only if some segment of the path is the pattern |

## Left out

- Memory: `malloc` and `realloc` never fail; `fcntl`, `epoll_ctl` and `clock_gettime` failures are left out.
- Sockets, epoll, poll, TLS, nghttp2, zlib and brotli: arbitrary answers, or not modelled at all.
- The stream pointers `rpsiod_http2_serve_connection` keeps across a poll: a step looks its stream up in the list.
- Streams.Connection.EndRequest: requires an untouched stream, because nghttp2 delivers one request per stream id.
- Response headers and pseudo-headers on the HTTP/2 side: of a head only its readability and its coding are followed.
- The text of the CGI head: how it is read and printed as a whole is the parameter `Heads` of `PhpStream.StreamPhp`, and only the printing of one line is modelled (`PhpHeaders.Printed`, `PrintedMeaning.PrintedIff`); `PhpBridge.ServePhp` says what is delivered when the block printed for the response is read back as meant, which `PhpBridge.ReadAsMeantIff` decides.
- Error pages written after part of a response went out.
- Gzip.GzipStore: stops before the trailer when that would be written past the buffer, see above.
- Gzip.ReadGzip reads members without optional header fields and with stored blocks only, which is all that is written.
- BlockedPath.BlockedDirectAccess: requires the inputs on which the C loop ends; a path with a slash in front always is one.
- OpenFileCache.Cache.Open: the recency-list clause is for paths under 512 bytes while no longer one was stored; the rest holds for all paths.
- The tick of the cache and the counters are unbounded integers; wrap-around after 2^64 events is left out.
- RouteTable: listen addresses of 64 bytes and more, which the table would cut, cannot come out of the configuration.
- RateLimit.TwiceTheLimit: for one client alone in its bucket; colliding clients reset each other's windows.
- Configuration parsing, percent decoding, forbidden segments, MIME types, dates, logging, the static metadata cache, proxying, workers and reload: easier than the rest, or plumbing.
