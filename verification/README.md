# Warudo, modelled and proved in Dafny

This project models the parts of the Warudo web server in which something can go subtly wrong: its
byte-string parsers and printers, its codecs, its configuration, and the loop that serves connections.

- `CStrings.dfy`, `Decimal.dfy`: C strings in memory, `strstr`, `memchr`, cutting at a first
  occurrence, decimal numbers.
- `Multipart.dfy`, `UrlDecode.dfy` (src/query.c): the form-data scanner against a grammar of its inputs
  and against a printer; percent decoding as a rewriting system.
- `Http.dfy` (src/http.c, src/query.c): the request parser against splitting at line breaks, and the
  round trip of a request and its body.
- `Response.dfy` (src/http.c, src/net.c): the output buffers, and a receiver that takes responses off a
  stream.
- `Worker.dfy` (src/worker.c, src/net.c): the connection loop against an observer.
- `Base64.dfy` (src/auth.c), `Html.dfy` (src/output.c), `Hpack.dfy` and `Trie.dfy` (src/hpack.c),
  `Config.dfy` (src/conf.c), `QueryString.dfy` (src/app/app.c).

Each piece of code is a method, over arrays and objects where the source changes memory in place, proved
equal to a specification function; the lemmas are about those functions. A block of memory is a sequence
of characters, and `CStr` is the C string at its start. A response handler, the network, the clock, the
environment variables and the configuration file are inputs, so every statement is about all of them.

The leaves are held against references of their own: alphabets and words written out, decimal and hexadecimal
notation, the six methods and their numbers, the form and the query a client writes, the five entities, the
twenty defaults, and for a run the course every connection has to take.

What the proofs rest on and what they found:

- Form data round trips because a valid boundary has no carriage return, so the delimiter cannot overlap
  itself. The scanner leaves through the closing delimiter exactly on the inputs its grammar describes as
  lists of parts, and in one way only. It also reports success without any closing line, exactly where the
  headers of a part end at or past the announced length. How far its index gets is decided by the grammar too: it passes the announced length exactly on inputs where a
  delimiter, or the headers of a part, end past it. On all strings of a given size it stays within the
  length if and only if the size does not exceed the length.
- Percent decoding computes the one normal form of rewriting `%hh` in any order, up to its first zero byte,
  except where it returns early: a pass that meets a `%` at the end of the string ends the whole decoding.
  The exact condition is proved for all inputs. Without zero bytes it reads: a `%` ends the normal form, and
  some character takes more than one pass longer to appear than that `%`. So `%2541%` becomes `%41%` and
  not `A%`, and so does `%252541%25`, which does not end in `%`.
- The request parser agrees with splitting the head at its line breaks, stops at 64 headers (the body
  offset then stays 0), and does not see what earlier requests left in the buffer when a complete head
  has been read.
- The parser searches with `strstr`, which only a zero byte bounds. Its searches stay inside the input buffer
  exactly if there is a zero byte anywhere in it, or the buffer, cut at its line breaks, has one, and the
  request line is rejected, or the bytes read end before the last line does, or an empty line or 64 headers
  come first. A buffer filled by `GET / HTTP/1.1`, a line break and `A` is outside; one filled by the same
  without the `A` is inside. From a zeroed buffer, all runs with reads of at most m bytes stay inside if and
  only if m is less than its size.
- On every connection, whatever the network does: one close per accept, the TLS session released first,
  no dispatch without a session when TLS is on, nothing after a response marked close.
- A load and close of the configuration leaves on the heap exactly the file strings that an environment
  variable overrode. README.md of the server says that every setting can be passed in the environment. A
  variable that is set takes effect if and only if a valid file has been read, or it says what the default
  says: `WRD_PORT=8080` beside an empty file leaves the port at 6251. The same README.md names the variable
  for the configuration path `WRD_CONFIG_PATH`, while src/server.c:33 reads `WRD_CONF_PATH`.

## Model

| member | source | states |
|---|---|---|
| CStrings.StrStr | src/query.c:134 | The search loop returns the first occurrence of a word at or after a position inside the C string, or none. |
| CStrings.MemChr | src/http.c:305 | The search loop returns the first position of a character in a range. |
| CStrings.BorderFreeAppend | src/query.c:116-125 | A word that cannot overlap itself first occurs at the end of `s + word` exactly when it does not occur in `s`. |
| CStrings.CutIsSplit | src/http.c:207-248 | A text has one decomposition around the first occurrence of a word, and cutting finds it. |
| Decimal.StrtolShow | src/query.c:199-211 | Reading a printed number in range gives the number, whatever non-digit follows. |
| Decimal.ShowIsDecimal | src/http.c:416-417 | A printed number is a digit of `0123456789`, or the number of its tens followed by one. |
| Decimal.StrtolIs | src/query.c:199-211 | Blanks, a sign or none, and a number of any size read as its value, or the nearest 64-bit one. |
| Decimal.StrtolOfNone | src/query.c:199-211 | A text with no digit after blanks and sign reads as zero. |
| Multipart.IsValidBoundary | src/query.c:58-77 | Accepts exactly the non-empty strings of letters, digits, `-` and `_`. |
| Multipart.BoundaryCharIs | src/query.c:64-72 | The accepted characters are the letters and digits, written out, and `-` and `_`. |
| Multipart.GetFormdataBoundary | src/query.c:80-98 | Returns `b` exactly when the header is `multipart/form-data; boundary=` followed by the valid boundary `b`. |
| Multipart.ParseFormdata | src/query.c:100-197 | For any memory, length, boundary and callback, the calls made, the returned code and the last value of the index are those of the scanner's specification; the callback may answer by all calls so far. |
| Multipart.Turn | src/query.c:133-189 | Every turn that goes on has moved the index strictly forward, and not past the string. |
| Multipart.SucceedsIff | src/query.c:133-196 | For every input and callback the returned code is no error if and only if the scanner left through the closing delimiter or because the announced length was used up; the latter if and only if, after a found delimiter, the parse ends with headers at or past that length. |
| Multipart.ExitCodes | src/query.c:100-197 | The number of every exit, for every input, and else how many calls the callback accepted. |
| Multipart.CountIsAccepted | src/query.c:144-146 | The count returned is the number of calls that gave `WRD_OK`. |
| Multipart.ClientFormIs | src/query.c:163-189 | The printed form is what a client writes, word by word. |
| Multipart.SucceedsUnclosed | src/query.c:133-196 | A form of one part with a body, and the headers of another, has no closing line, and yet its one body is handed over and the code is no error. |
| Multipart.IndexPassesLengthIff | src/query.c:133-189 | For every input that passes the early tests (before them the index is 0), the index passes the announced length if and only if a delimiter is found and, in the parse after it, a delimiter or the headers of a part end past the length; never where the closing line is reached. |
| Multipart.IndexStaysIff | src/query.c:133-189 | For every valid boundary, every length that passes the early test and every size n: the index stays within the length on all strings of size n if and only if n does not exceed the length. |
| Multipart.IndexDetermined | src/query.c:133-189 | The parse decides exactly how far the index gets. |
| Multipart.Determined | src/query.c:133-189 | Whatever the grammar says of the rest of the input decides the callback slices and the exit. |
| Multipart.AnatomyFits | src/query.c:133-189 | Every input has a parse in the grammar. |
| Multipart.OneAnatomy | src/query.c:133-189 | Every input has only one parse in the grammar. |
| Multipart.ClosedIffDecomposes | src/query.c:133-189 | The scanner leaves through the closing delimiter exactly when the input after the first delimiter is a list of parts, delimiter-free bodies and the closing line; the list is unique and the slices are its non-empty bodies. |
| Multipart.ChainOf | src/query.c:127-131 | The early length test never rejects an input made of parts and a closing line. |
| Multipart.SlicesAreBodies | src/query.c:141-146 | The slices hold exactly the non-empty bodies, in order, disjoint and separated by at least a delimiter. |
| Multipart.BoundaryIsBorderFree | src/query.c:58-77 | With a valid boundary the delimiter cannot overlap itself. |
| Multipart.RoundTrip | src/query.c:100-197 | For every valid boundary and every non-empty list of parts a client can write (last body non-empty), scanning the client's form ends at the closing line, hands over exactly the non-empty bodies in order and returns how many were accepted. |
| UrlDecode.UrlDecode | src/query.c:13-56 | The nested loops over one array, with their `memmove`, leave the C string that the pass-by-pass specification gives. |
| UrlDecode.PassShrinks | src/query.c:24-52 | A pass never lengthens the string, and keeps its length only if nothing is left to rewrite. |
| UrlDecode.EveryOrder | src/query.c:24-52 | Rewriting `%hh` at any places in any order keeps the normal form, shortens by two each time, and where it ends it ends in the normal form. |
| UrlDecode.HexIs | src/query.c:41-50 | A hexadecimal digit is a character of `0123456789abcdef` or `0123456789ABCDEF`, and counts what its place there says. |
| UrlDecode.EscapedIs | src/query.c:38-51 | `%` and the two digits of a byte, each in either case, are rewritten to that byte. |
| UrlDecode.NormalIsReached | src/query.c:24-52 | The normal form can be reached by such rewriting. |
| UrlDecode.PassKeepsNormal | src/query.c:24-52 | One pass of the code stays within the same normal form. |
| UrlDecode.NormalAroundNul | src/query.c:24-52 | A decoded zero byte separates: what follows it cannot change what precedes it. |
| UrlDecode.DecodeIsNormal | src/query.c:13-56 | Without a dangling `%` in the normal form, before its end or before a zero byte, the result is the normal form up to its first zero byte. |
| UrlDecode.NestedEncodings | src/query.c:13-56 | Any nested percent-encoding of a string with no `%hh`, no zero byte and no final `%` decodes to it, and decoding again changes nothing. |
| UrlDecode.DecodeEncoded | src/query.c:13-56 | Escaping every byte of any text, in any mix of cases, and decoding gives the text decoded once more, as a C string; so it gives the text back if and only if the text has no zero byte and no escape of its own. |
| UrlDecode.PassLowers | src/query.c:24-52 | One pass brings every character of the normal form one pass closer to appearing, and no other. |
| UrlDecode.DecodeExact | src/query.c:33-35 | For every input, zero bytes or not, the result is the C string of the normal form if and only if no pass meets, at the end of the string as cut so far, a `%` that has appeared, without cutting it off, while something in front of it needs more than that pass. |
| UrlDecode.TooEarlyWithoutNul | src/query.c:33-35 | With a normal form free of zero bytes the condition reads: a `%` ends it, and some character takes more than one pass longer to appear than that `%`. |
| UrlDecode.TooEarly | src/query.c:33-35 | `%2541%` decodes to `%41%`, which is not its normal form `A%`. |
| UrlDecode.TooEarlyEncoded | src/query.c:33-35 | `%252541%25`, which does not end in `%`, decodes to `%41%` as well. |
| UrlDecode.TooEarlyNul | src/query.c:33-35 | `%2500%` decodes to `%00%`, while the C string of its normal form is empty. |
| Http.Parse | src/http.c:187-343 | The body offset never exceeds the bytes just read. |
| Http.WalkIsSplit | src/http.c:288-340 | Over header lines and an empty line, the pointer walk stores the headers of the colon-bearing lines in order, up to 64, and then the body offset just past the empty line, or 0 with 64 stored. |
| Http.ParseIsSplit | src/http.c:187-343 | On a block that starts with a complete head, the parser computes what splitting the head at its line breaks gives. |
| Http.CompleteHead | src/http.c:187-343 | Every block whose first empty line lies within the bytes read, with no zero byte before it, holds such a head, ending with that empty line. |
| Http.LeftoversDoNotMatter | src/http.c:199-340 | With a complete head in the bytes read, the result does not depend on what lies beyond them; the body offset is 0 or just past the first empty line. |
| Http.ParseIncomplete | src/http.c:187-343 | A read that breaks off in its head gives the headers of its complete lines, up to 64, and no body. |
| Http.ParseNothing | src/http.c:190-211 | Nothing read, or no line break before a zero byte, is rejected with every field reset. |
| Http.VerbIs | src/http.c:225-237 | Each of the six methods is stored as its number in src/warudo.h, and any other word as zero. |
| Http.RequestLineIs | src/http.c:213-286 | A line of three words: the method's number, path and query around the first `?`, each cut to 2047 bytes, and the version. |
| Http.RequestLineRejected | src/http.c:217-245 | A line of one or two words is rejected; version, path, query and headers stay reset. |
| Http.VersionOf | src/http.c:277-286 | `HTTP/d.e` gives d and e, without the dot d and zero, and anything else zeros. |
| Http.RequestLineRoundTrip | src/http.c:206-286 | A printed request line gives back the number of its method, path, query and version. |
| Http.HeaderLineIs | src/http.c:304-336 | A header line gives the name before its first colon, cut to 127 bytes, and the value after its leading spaces, cut to 4095; without a colon it gives none. |
| Http.SameNameIs | src/http.c:345-363 | Two names are the same if and only if each pair of characters is equal or the two cases of one letter. |
| Http.HeaderValueIsFirst | src/http.c:345-363 | The value found is that of the first header of the name, and none only if there is no such header. |
| Http.HeadersRoundTrip | src/http.c:288-340 | Printed headers within the limits are parsed back, in order. |
| Http.MessageParses | src/http.c:187-343 | Printing any message with fewer than 64 in-limit headers and parsing gives back every field, the method as its number, and the body offset, whatever follows in the buffer. |
| Http.RequestRoundTrip | src/query.c:199-236 | Reading its content gives as many bytes of what follows the head as its Content-Length announces, or a requested length asks for, or as there are; so exactly the body where its own length is announced; and none for a length of zero announced or a negative one requested. |
| Http.NothingAnnounced | src/query.c:199-211 | Without a Content-Length header the announced length is zero. |
| Http.Request.ParseFirstLine | src/http.c:215-286 | Sets verb, path, query and version as the specification of a request line says, on every exit. |
| Http.Request.ReadHeader | src/http.c:304-336 | One line: the first colon is found, and name and value, without its leading spaces, are cut to what fits. |
| Http.Request.ParseHeaderLines | src/http.c:288-340 | The loop fills the header array and sets the body offset as the walk says. |
| Http.StopsIff | src/http.c:206-302 | For every buffer and number of bytes read, the exact condition under which every `strstr` the parser reaches ends inside the buffer. |
| Http.FullReadStops | src/http.c:206-302 | For a full, zero-free buffer, line by line: the request line is rejected, or the last line is empty, or an empty line is among those between, or 64 of them hold headers. |
| Http.NoBreakNoStop | src/http.c:206-207 | A full, zero-free buffer without a line break is searched past its end. |
| Http.BlankStops | src/http.c:206-302 | An empty line within the bytes read is enough to keep the searches inside. |
| Http.Unfinished | src/http.c:298 | A concrete full buffer that is searched past its end, and two that are not although they hold neither an empty line nor a zero byte. |
| Http.Request.ParseQueryHeaders | src/http.c:187-343 | The whole parser: result and every stored field, for any earlier state of the request, on every buffer in which its searches end. |
| Http.Request.GetHeader | src/http.c:345-363 | Returns the value of the first header of that name, ignoring case. |
| Http.Request.ReadContent | src/query.c:213-236 | Returns a fresh copy of the announced or requested number of body bytes, or of the fewer that are there, or none. That the body offset is not past the bytes read, so that the unsigned difference does not wrap, is what Http.Parse and Worker.Server.Answer state. |
| Response.Buffer.Puts | src/http.c:127-138 | Copies as much of any text as leaves the last byte of the buffer alone, changes nothing else, and moves the position by the whole length, past the end if the text does not fit. |
| Response.Buffer.Append | src/http.c:127-155 | A text that fits is appended, and everything beyond the position stays zero. |
| Response.Buffer.Send | src/net.c:291-310 | Hands over what was appended and leaves the buffer empty and zeroed; an error exactly when there was something to send and the system accepted nothing. |
| Response.Flush | src/http.c:413-423 | Sends head, the printed content length, an empty line and the body, and empties both buffers. |
| Response.LengthLineIs | src/http.c:416-417 | The printed length line announces the length it was printed from. |
| Response.BlankEndsLines | src/http.c:416-417 | In non-empty header lines followed by an empty line, the first empty line is that one. |
| Response.ReceivesOne | src/http.c:413-423 | A receiver that looks for the first empty line and then takes the announced number of bytes takes exactly one response off any stream. |
| Response.ReceivesAll | src/http.c:413-423 | The concatenation of everything flushed splits back into exactly the responses written, in order. |
| Response.OneStream | src/http.c:413-423 | Two runs that send the same bytes sent the same responses. |
| Worker.ParseDependsOnRead | src/net.c:267-289 | A read with a complete head is parsed to the same request whatever earlier requests left in the buffer. |
| Worker.OverwriteIs | src/net.c:267-289 | A read replaces the bytes it brings and leaves every other byte of the buffer as it was. |
| Worker.ServeIsAllowed | src/worker.c:148-225 | Every connection, on each of its paths, keeps the observer's rules and ends with nothing open. |
| Worker.RunIsAllowed | src/worker.c:148-225 | Every run keeps them, and ends with nothing open. |
| Worker.TlsSafety | src/worker.c:148-210 | In any run the observer allows with TLS enabled, a session is attached at every dispatch. |
| Worker.ClosedOnce | src/net.c:187-202 | Accepts and closes of every descriptor balance at every moment, up to the one that is open. |
| Worker.CloseIsLast | src/worker.c:208-221 | After a response marked close, or a redirect, nothing but release and close happens on the connection. |
| Worker.RejectedEnds | src/http.c:190-245 | A request the parser rejects is answered with close, wherever the connection stands, and ends it. |
| Worker.EachConnection | src/worker.c:182-222 | On each connection of every run at most max(1, keep_alive_max) requests are dispatched. |
| Worker.RunsAreSafe | src/worker.c:148-225 | For every initialised configuration and every script of the environment: each dispatch happens over an attached session if TLS is on, and each descriptor is closed as often as it was accepted. |
| Worker.EveryMoment | src/worker.c:148-225 | At every moment of every run the rules hold, and each descriptor has been closed as often as it was accepted, but for the one that is open. |
| Worker.EveryConnectionIsServed | src/worker.c:148-225 | Every run does on every connection what it is to do: a redirect exactly where TLS is on and the connection is plain or does not begin as TLS does; only the close after a failed handshake; else the turns up to the first that is not ready, reads nothing, or is answered with close are dispatched and answered, in order, with the handler's head and body and the Connection header; and what it leaves in the buffer. |
| Worker.DispatchedIff | src/worker.c:148-225 | Something is dispatched on a connection if and only if it is not redirected, no handshake fails, and its first turn is ready and reads something. |
| Worker.PrintedKeeps | src/worker.c:119-139 | Of a printed request: kept alive if and only if there is a timeout, its first Connection header is not `close`, and that header is `keep-alive` or the version is 1.1 or a later 1.x. |
| Worker.EveryWireSplits | src/worker.c:182-222 | In every run, what is sent on each connection splits back into exactly the responses of its events. |
| Worker.RunsStopIff | src/net.c:267-289 | For every configuration and zeroed buffer: the parser's searches stay inside the buffer in all runs with reads of at most m bytes if and only if m is less than its size. |
| Worker.RunTaken | src/net.c:267-289 | They also do in every run, full buffers or not, whose successful reads each hold an empty line. |
| Worker.ProperAnswer | src/worker.c:208-221 | The Connection header keeps a handler's output a well-formed response without a length line of its own. |
| Worker.ConnectionSplits | src/worker.c:182-222 | All that is sent on a connection splits back into exactly its responses. |
| Worker.Server.Accept | src/net.c:129-185 | Sets descriptor and kind of connection, by socket when there are two, by configuration otherwise, and the socket's receive timeout if keep-alive has one. |
| Worker.Server.AcceptFails | src/net.c:129-185 | A failing `select` or `accept` leaves no client descriptor. |
| Worker.Server.FinishRequest | src/net.c:187-202 | Releases the session if there is one, then closes the descriptor if there is one; an error exactly when that close fails. |
| Worker.Server.Read | src/net.c:267-289 | For any read up to the size of the buffer: overwrites the front of the input buffer, leaves the rest, and sets the position, 0 on failure. |
| Worker.Server.KeepAlive | src/worker.c:119-139 | The decision for the current request. |
| Worker.Server.Answer | src/worker.c:197-221 | One request: parsed, counted, dispatched and answered, with both output buffers empty and zeroed after; at the dispatch the body offset is not past the bytes read. |
| Worker.Server.ServeTurns | src/worker.c:179-222 | The keep-alive loop does exactly the events of its specification, counts its dispatches, and sends the frames of its answers. |
| Worker.Server.RedirectHttps | src/http.c:365-411 | Reads, parses, answers with a redirect marked close, and leaves the buffers empty. |
| Worker.Server.ServeConnection | src/worker.c:148-225 | One connection from accept to finish; no session and empty, zeroed buffers at the end of every path. |
| Worker.Server.WorkerLoop | src/worker.c:141-228 | The events, the bytes sent on each connection and the global request counter of the whole loop; the counter grows by the sum of the dispatches; after a failed accept there is no client descriptor. |
| Worker.Server.NetClose | src/net.c:107-127 | After the loop, closing the network closes the listening sockets and finds no client to close again; a listening socket that fails to close is not reported. |
| Base64.LetterIsInverse | src/auth.c:70-86 | Letters and six-bit values correspond one to one. |
| Base64.AlphabetIs | src/auth.c:17 | A letter's value is its place in the alphabet, written out. |
| Base64.AlphabetHas | src/auth.c:70-86 | The decoder accepts that alphabet and `=`, and nothing else. |
| Base64.EncodeSpells | src/auth.c:30-63 | The places of every group of letters are the digits, to the base 64, of the number its bytes write, with zero bits and `=` for missing bytes. |
| Base64.GroupRoundTrip | src/auth.c:30-57 | Regrouping up to three bytes into sextets and back gives them, and zeros for the missing ones. |
| Base64.DecodeEncode | src/auth.c:12-141 | Encoding has length 4 * ceil(n / 3); decoding it gives the bytes back and one zero per padding character. |
| Base64.CStringRoundTrip | src/auth.c:12-141 | As C strings the decoded and the original text are equal. |
| Base64.EncodeDecode | src/auth.c:88-141 | Encoding the payload of a canonical padded text gives the text back. |
| Base64.CStringEncodeDecode | src/auth.c:88-141 | The same through the C string the decoder returns, for a payload without zero bytes. |
| Base64.Base64Encode | src/auth.c:12-68 | The loops fill the buffer with the encoding and its terminator. |
| Base64.Base64Decode | src/auth.c:88-141 | Fails exactly when the length is no multiple of four or a character lies outside the alphabet; otherwise writes the decoded bytes and the terminator. |
| Html.EscapeHtml | src/output.c:13-57 | The buffer of 6n + 1 bytes is never overrun and ends up holding the escaped text. |
| Html.DecodeEscape | src/output.c:24-53 | A decoder of the five entities, written out on its own, recovers every text from its escaped form. |
| Html.EscapeIsSafe | src/output.c:24-53 | No raw `<`, `>` or quote is left, and every `&` starts one of the five entities. |
| Html.SafeIsEscaped | src/output.c:24-53 | Every text with that property is the escaped form of what it decodes to. |
| Html.EscapeFits | src/output.c:18-19 | The escaped length lies between n and 6n, and is 6n exactly for texts of quotes alone. |
| Hpack.TableIsRecentLiterals | src/hpack.c:124-165 | After any run of compressions the table is the last 64 (or fewer) pairs emitted as literals. |
| Hpack.AfterOk | src/hpack.c:141-165 | Its pairs are always distinct, and none is in the static table. |
| Hpack.IndexStandsForPair | src/hpack.c:141-187 | An emitted index stands for its pair; after any later compressions with k evictions a static index is unchanged, a surviving dynamic index has shifted down by exactly k, and an evicted pair is gone unless emitted again. |
| Hpack.PrintedIndex | src/hpack.c:141-187 | The printed index decompresses to the pair that was compressed. |
| Hpack.LookupIs | src/hpack.c:170-180 | Indices 1 to 61 are the static pairs, those from 62 on the dynamic ones, the oldest first. |
| Hpack.LiteralCarries | src/hpack.c:160-162 | Name and value of a literal can be read off its text. |
| Hpack.EmittedIsTaken | src/hpack.c:160-187 | Of what is emitted, the decompressor can take exactly the indices and the literals whose name starts with a number above zero; for any other literal it reads the index 0 or one too large for an `int`. |
| Hpack.HeaderTable.Add | src/hpack.c:124-139 | Appends at the end, dropping the oldest pair of a full table. |
| Hpack.HeaderTable.Compress | src/hpack.c:141-165 | The output and the new table are those of the specification. |
| Hpack.HeaderTable.Decompress | src/hpack.c:167-187 | An indexed input yields the pair in that place of the static or the dynamic table, or nothing beyond them; an input without a number yields nothing. |
| Trie.Build | src/hpack.c:189-217 | The tree has exactly one node per distinct prefix of a code word, the root included, each holding the last symbol spelled so; the allocations are counted. |
| Trie.WalksMeetTable | src/hpack.c:189-217 | Walking a path leads to a node exactly when it starts a code word; where all words differ, the walk along word i ends at symbol i. |
| Trie.NumberOfSpell | src/hpack.c:199 | The bits taken from the most significant one down spell the code's number. |
| Trie.SpellInjective | src/hpack.c:199 | Codes that differ in number or length spell different paths. |
| Trie.Free | src/hpack.c:219-235 | Frees each node at or below the given one exactly once, that one last; `NULL` is an error. |
| Trie.NothingLeft | src/hpack.c:189-235 | Freeing from the root releases as many nodes as were allocated, every one of them, none twice. |
| Config.LoadLayers | src/conf.c:274-325 | After a valid file every field is the environment value if set, else the usable file value, else the default, and its letter says which. |
| Config.FileValue | src/conf.c:130-182 | Over the raw file, a field no variable is set for: a number in the `int` range as it is, a text as it is, a number for a text field in decimal, and for a missing, null, empty or wrongly typed column the default. |
| Config.EnvValue | src/conf.c:57-98 | Over the raw environment, a field a variable is set for: its text, or the number it spells, whatever the file says. |
| Config.DefaultsAre | src/conf.c:25-51 | The twenty defaults, and which fields are texts. |
| Config.NoFileNoEnvironment | src/conf.c:203-222 | With no path, an empty file, or one that cannot be read or loaded, every field is its default, whatever the environment; only the first two count as loaded, and a failure is returned as it is. |
| Config.EnvironmentIff | src/conf.c:203-222 | A variable that is set shows in its field if and only if a valid file has been read or the variable says what the default says. |
| Config.PortIgnored | src/conf.c:203-222 | With `WRD_PORT=8080` and an empty file or none, the port is 6251. |
| Config.RunsAreSound | src/conf.c:101-339 | Over any sequence of loads and closes only live heap strings are freed, so no default and no string twice; a loaded string field has a non-default letter exactly when it holds a heap copy of its own. |
| Config.FreeIsJudged | src/conf.c:107-111 | What counts as misuse in these runs: freeing a string twice, or anything never given out. |
| Config.FreeAllFrees | src/conf.c:101-128 | Closing frees exactly the strings held and nothing else. |
| Config.CloseKeeps | src/conf.c:101-128 | After a close nothing is loaded, no field points into the heap, and the live strings are those not held before. |
| Config.LoadAndClose | src/conf.c:185-339 | A load and close leaves on the heap exactly one string for each string field that both file and environment set. |
| Config.Warudo.SetDefaults | src/conf.c:14-54 | All twenty defaults, with the default letter; the application pointers are cleared and the four counters zero. |
| Config.Warudo.ReadFile | src/conf.c:285-318 | The fields after the file values have been taken over. |
| Config.Warudo.ReadEnv | src/conf.c:57-98 | The fields after the environment has been taken over. |
| Config.Warudo.CloseConfig | src/conf.c:101-128 | Frees and clears the strings that are not defaults; an error when nothing is loaded. |
| Config.Warudo.Init | src/conf.c:185-339 | The new state and the result on every path, closing what was loaded first; the application pointers and counters start over. |
| QueryString.JoinPieces | src/app/app.c:70-71 | Cutting at `&` loses nothing, and no piece holds one. |
| QueryString.PiecesOfJoin | src/app/app.c:70-71 | The pieces are the only `&`-free strings that join to the text. |
| QueryString.TokensArePieces | src/app/app.c:71-99 | What repeated `strtok_r` yields is the non-empty pieces, in order. |
| QueryString.StrTokR | src/app/app.c:71-99 | One call returns the next token as a C string in place, or none, and has changed nothing but its delimiter. |
| QueryString.ParseQueryString | src/app/app.c:51-103 | The query is the fold over the parameters, each of its texts a live heap copy of its own, with one copy made per text parameter; of the buffer, exactly the `&`s that end a token have become zero bytes. |
| QueryString.Last | src/app/app.c:73-100 | The value found for a name is that of the last parameter of exactly that name, or none when there is none. |
| QueryString.LastWins | src/app/app.c:73-100 | Each field of the result is read from the last parameter of its name, or keeps its default. |
| QueryString.PairOfWritten | src/app/app.c:74-78 | A parameter is cut at its first `=`, so a value may hold more of them. |
| QueryString.ParameterIs | src/app/app.c:74-96 | A parameter counts if and only if it has a `=` and one of the eight names, written out, before the first. |
| QueryString.StrtoullIs | src/app/app.c:82-86 | Blanks, a sign or none, and a number: its value, its negation modulo 2^64, or the greatest value. |
| QueryString.PrintIsShown | src/app/app.c:71-99 | The printed query is what a client writes, name by name. |
| QueryString.NothingAsked | src/app/app.c:57-64 | The empty query: zeros, a limit of 10, and no texts. |
| QueryString.ParametersRoundTrip | src/app/app.c:70-100 | Any list of known parameters with `&`-free values, repeated or not, is read back from its joined form. |
| QueryString.RoundTrip | src/app/app.c:51-103 | Writing any in-range query with texts free of `&` and zero bytes as a client does, and parsing the C string, gives the query back. |
| QueryString.ParseAndFree | src/app/app.c:129-152 | A parse and the free at the end of a route leave on the heap exactly one copy for each text parameter beyond the first of its name. |
| QueryString.FreeQuery | src/app/app.c:105-121 | Exactly the heap copies held are freed, each once and none that is not live; the fields hold none after, so a second call has nothing to free. |

## Left out

- Worker.Server.WorkerLoop: assumes that every response fits into its buffers (`puts` and `printf` do not
  clamp the position), that sends are complete, and that the parser's searches end inside the buffer, whose
  exact condition is Http.StopsIff at each parse.
- Worker.Server.Accept: `select`, `accept`, `read`, the handshake, polling and the first-byte peek are the
  script's outcomes; descriptors are positive.
- Worker.Server.RedirectHttps: the header text before the Connection header is any text of the script, and
  not built from the Host header and the path.
- Http.Request.ParseQueryHeaders: demands that its searches end inside the buffer, as Http.StopsIff says
  when; what a search finds outside is not part of this model.
- Hpack.HeaderTable.Decompress: where a number is read it is an `int` above zero; for others the source reads
  outside its tables. The text of a literal is not decompressed: it starts with `0` and is read as a number.
- Hpack.HeaderTable.Compress: the 61 static pairs are a parameter, and so is the symbol table of the tree
  in Trie.Build, for which nothing but its 256 rows is assumed.
- Trie.Build: shifts by 31 or more bits, which the source's table does not have, are taken as plain bit tests.
- Config.Warudo.Init: the file and SQLite are their outcomes (no path, a failure, empty, or a column per
  name); allocation succeeds; a string overridden by the environment is not freed, as in the source.
- Config.Warudo.ReadFile: the macro repeated for twenty names is a loop over the names in their order.
- QueryString.ParseQueryString: a text overwritten by a repeated parameter, or held before the call, is not
  freed, as in the source.
- Multipart.ParseFormdata: the 32-bit `int` that holds a body's length and the callback's own effects.
- Response.Buffer.Puts: demands that the position still lies inside the buffer; once it does not, the
  source's unsigned difference wraps and it writes past the end.
- Html.EscapeHtml: a failing `malloc`, here as in every other member that allocates.
- Bytes are characters 0 to 255 and `char` is signed where a difference from `'0'` is stored, as on x86.
- Counters are unbounded: `requests_count` does not wrap.
- The Huffman encoder and decoder of src/hpack.c:237-287: packing loses bits, and the tree marks inner
  nodes with 0 where the decoder looks for -1, so there is no round trip to prove.
- Real sockets, `fork`, signals, PID files, OpenSSL and SQLite; routing, static files, logging, timing, the
  database and the code generators: not part of this model.
