# Viking HTTP server core in Dafny

This project models and verifies the core of the Viking C++ HTTP server:

- **The event-loop scheduler** (`src/io/schedulers/io_scheduler.cpp`). It owns one channel per socket; each channel has a write queue. It registers channels with epoll, accepts connections, hands readable data to the read callback and queues the response, and drains the write queue:
  - in order;
  - across partial writes, would-block, pending (asynchronous) items and the `diy` fallback for files;
  - then keeps or closes the connection.
- **The response header list** (`src/http/response.cpp`): an ordered upsert, the Content-Length resolution, keep-alive detection, `Init` and the constructors.
- **Request classification and MIME lookup** (`src/http/util.cpp`).
- **Percent-encoding and quote trimming** (`src/http/directory_listing.cpp`).
- **Socket result classification** in both socket generations (`src/io/socket/socket.h`, `src/api/io/socket/socket.h`). This covers how a system call's return value and `errno` become a value or an exception, and the descriptor hand-over of the older `Socket` on a move.

Modules, one per source component:

| module | file | form |
|---|---|---|
| `Base` | base.dfy | bytes, `Option`, value-initialised buffer helpers |
| `TcpSocket` | tcp_socket.dfy | pure result classification |
| `ApiSocket` | api_socket.dfy | `Socket` class (move semantics), pure result classification |
| `ScheduleItem` | schedule_item.dfy | the write queue as a value; its operations as the scheduler uses them |
| `Epoll` | epoll.dfy | interest flags as symbols |
| `WritePath` | write_path.dfy | `fill_channel` and the `process_write` loop as specification functions, with lemmas |
| `IoScheduler` | io_scheduler.dfy | `Channel`, `Scheduler`, `SchedulerHandle` classes; imperative methods proved against `WritePath` |
| `HttpResponse` | response.dfy | the header list as functions and lemmas; `Response` class |
| `HttpUtil` | http_util.dfy | pure predicates and functions |
| `DirectoryListing` | directory_listing.dfy | `url_encode` as a loop proved against `Encoded`; `trim_quotes` |

Everything outside the program is an input:

- The operating system is a `Kernel` of oracles. It holds:
  - what the t-th `::send` of a drain returned, with its `errno`;
  - what the t-th `send_to_fd` did;
  - what the barrier callback answers for a pending item.
- A readiness event carries its flags together with the answers of the read callback and of `Accept()`.
- `poll.schedule`, `poll.remove`, `poll.modify` and the before-removing hook are recorded in ghost traces. These are the scheduler's `trace` and each channel's `modes`.

The write queue's header (`sched_item.h`) is not part of this model, so its operations are stated as assumptions in `ScheduleItem`:

- every sendable item carries the keep-alive decision of its response;
- `keep_file_open()` reports the decision of the item removed last;
- a file item's partial send advances the item.

## Model

| member | source | states |
|---|---|---|
| TcpSocket.ReadSome | src/io/socket/socket.h:74-84 | a zero-byte read throws `connection_closed_by_peer` and nothing else throws; a count read gives exactly the bytes read; -1 leaves `available` bytes |
| TcpSocket.WriteSome | src/io/socket/socket.h:86-97 | throws exactly when the count is ≤ 0 and errno is not EAGAIN/EWOULDBLOCK, and then always `write_error` (the ECONNRESET/EPIPE branches never fire); otherwise returns the count, -1 read as 0, never more than offered |
| ApiSocket.Socket.Close | src/api/io/socket/socket.h:66 | the descriptor held, if any, is released once and the object then owns `-1`; the other fields are unchanged |
| ApiSocket.Socket.MoveAssign | src/api/io/socket/socket.h:40-51 | from another object: the old descriptor is closed, all four fields are taken over and `other` is left at -1; self-assignment changes nothing |
| ApiSocket.Socket.Moved | src/api/io/socket/socket.h:39 | the new object holds what `other` held, closes nothing, and `other` owns -1, so at most one of them holds the descriptor |
| ApiSocket.ReadSome | src/api/io/socket/socket.h:70-88 | throws `runtime_error` exactly when `AvailableToRead` throws or the bytes read differ from the bytes available; otherwise returns the bytes read |
| ApiSocket.Read | src/api/io/socket/socket.h:90-105 | 0 throws `ConnectionClosedByPeer`; -1 with EAGAIN/EWOULDBLOCK returns the `size`-byte buffer unresized; -1 with another errno throws `runtime_error`; a read of n > 0 bytes returns exactly them |
| ApiSocket.Write | src/api/io/socket/socket.h:140-152 | throws exactly on -1 with errno not EAGAIN/EWOULDBLOCK, and then `WriteError`; otherwise returns the count with -1 read as 0 |
| ApiSocket.WriteAgreesWithWriteSome | src/api/io/socket/socket.h:140-152 | the two generations agree on every send result except 0, where `Write` returns 0 and `write_some` throws unless errno says would-block |
| ScheduleItem.RemoveFront | src/io/schedulers/io_scheduler.cpp:164-165 | the queue loses exactly its front and remembers the front's keep-alive decision |
| ScheduleItem.ReplaceFront | src/io/schedulers/io_scheduler.cpp:129 | the front is swapped in place; length, the rest of the queue and the remembered decision are unchanged |
| ScheduleItem.PutBack | src/io/schedulers/io_scheduler.cpp:208-210 | the items are appended after everything queued |
| ScheduleItem.PutAfterFirstIntact | src/io/schedulers/io_scheduler.cpp:208-210 | the items are inserted right behind the front, or become the queue when it is empty |
| ScheduleItem.PutAfterFirstIntactOrder | src/io/schedulers/io_scheduler.cpp:84-98 | with at most one item queued, inserting behind the front is appending; otherwise the new response goes on the wire right after the front, ahead of the rest |
| WritePath.FillMemory | src/io/schedulers/io_scheduler.cpp:160-175 | a full write pops the front; a partial one leaves exactly the unsent suffix in place with length and order kept; 0 returns would-block and changes nothing; an exception fails and changes nothing |
| WritePath.FillFile | src/io/schedulers/io_scheduler.cpp:177-204 | as for memory, with `send_to_fd`; on `diy` the item is replaced in place by a memory buffer of the same bytes and filled once more, and a failure to build that buffer fails |
| WritePath.Fill | src/io/schedulers/io_scheduler.cpp:156-206 | would-block sends nothing and does not fail; blocking or failing leaves the queue length; a sendable front is popped after the whole of it, or keeps the unsent rest in place, nothing behind it changing; any other front is left alone |
| WritePath.Resolve | src/io/schedulers/io_scheduler.cpp:126-129 | a ready answer of the barrier replaces a pending front with a sendable item; a non-pending front is left alone |
| WritePath.Drain | src/io/schedulers/io_scheduler.cpp:122-154 | the loop terminates (pending count, then remaining weight, decreases); an unready pending front parks with the queue unchanged; `Drained` leaves an empty queue whose last decision was keep-open; `Closed` an empty queue whose decision was close; `Blocked` a ready front |
| WritePath.TurnProgress | src/io/schedulers/io_scheduler.cpp:124-148 | each turn that neither fails nor blocks strictly lowers the loop measure |
| WritePath.DrainDelivers | src/io/schedulers/io_scheduler.cpp:122-206 | what a drain sends followed by what it leaves queued is exactly what was queued: nothing is lost, duplicated or reordered, however the kernel splits writes |
| WritePath.DrainDecision | src/io/schedulers/io_scheduler.cpp:136-145 | a drain that empties the queue keeps or closes the connection as the last queued response decided |
| WritePath.DrainCompletes | src/io/schedulers/io_scheduler.cpp:122-206 | against a kernel that always takes at least one byte, a queue of non-empty ready items drains completely and sends exactly its contents |
| IoScheduler.Without | src/io/schedulers/io_scheduler.cpp:215-216 | the erase never grows the list and leaves no entry equal to the removed channel |
| IoScheduler.WithoutMembers | src/io/schedulers/io_scheduler.cpp:215-216 | exactly the entries other than the removed channel survive |
| IoScheduler.WithoutDistinct | src/io/schedulers/io_scheduler.cpp:215-216 | the erase keeps a duplicate-free list duplicate-free |
| IoScheduler.WithoutAbsent | src/io/schedulers/io_scheduler.cpp:215-216 | erasing a channel that is not in the list changes nothing |
| IoScheduler.WithoutSlot | src/io/schedulers/io_scheduler.cpp:215-216 | on a duplicate-free list, the erase cuts out exactly the channel's slot, keeping the others in order |
| IoScheduler.AdmittedExactly | src/io/schedulers/io_scheduler.cpp:107-120 | a connection is kept exactly when it was accepted before the first "no connection" answer and epoll registered it |
| IoScheduler.ChannelsAfterMembers | src/io/schedulers/io_scheduler.cpp:122-154 | after `process_write` exactly the listed channels survive, except the drained one when the drain closed or failed |
| IoScheduler.OpenedNew | src/io/schedulers/io_scheduler.cpp:107-120 | every channel opened for an accepted connection holds a non-listening, non-blocking socket among the kept ones, with an empty queue and no history |
| IoScheduler.NewChannels | src/io/schedulers/io_scheduler.cpp:107-120 | after accepting, the channels not listed before are exactly the appended ones, each a new connection on a kept socket |
| IoScheduler.FirstNoMore | src/io/schedulers/io_scheduler.cpp:115-116 | the loop stops at the first "no connection" answer |
| IoScheduler.Enqueued | src/io/schedulers/io_scheduler.cpp:86-94 | queuing a response never changes the remembered keep-alive decision |
| IoScheduler.EnqueuedOrder | src/io/schedulers/io_scheduler.cpp:86-94 | a response starting with a ready item goes on the wire after everything queued; one starting with a pending item goes right after the front |
| IoScheduler.Scheduler.constructor | src/io/schedulers/io_scheduler.cpp:44 | no channels, no epoll calls |
| IoScheduler.Scheduler.Start | src/io/schedulers/io_scheduler.cpp:45-54 | the acceptor is the one channel, registered for read and termination; a refused registration throws (null) |
| IoScheduler.Scheduler.Add | src/io/schedulers/io_scheduler.cpp:56-64 | exactly one fresh channel is appended, and only after registration succeeded; otherwise list and trace are unchanged |
| IoScheduler.Scheduler.Modify | src/io/schedulers/io_scheduler.cpp:72 | records the mask on the channel and changes nothing else |
| IoScheduler.Scheduler.Remove | src/io/schedulers/io_scheduler.cpp:212-217 | the hook is called once, then the channel is deregistered, then every entry equal to it is erased; exactly the other channels stay listed, and the list stays duplicate-free |
| IoScheduler.Scheduler.EnqueueItem | src/io/schedulers/io_scheduler.cpp:208-210 | the queue becomes `PutBack` or `PutAfterFirstIntact` of the old one |
| IoScheduler.Scheduler.FillChannel | src/io/schedulers/io_scheduler.cpp:156-206 | the channel's queue, its sent bytes and the results are those of `Fill`, with the `diy` retry done by one recursive call |
| IoScheduler.Scheduler.WriteTurn | src/io/schedulers/io_scheduler.cpp:135-147 | one fill; an empty queue then either drops write interest and goes level-triggered, or removes the channel; a failure removes it |
| IoScheduler.Scheduler.ProcessWrite | src/io/schedulers/io_scheduler.cpp:122-154 | the channel ends with the queue, sent bytes and epoll calls of `Drain`, and is removed exactly when the drain closed or failed |
| IoScheduler.Scheduler.AddNewConnections | src/io/schedulers/io_scheduler.cpp:107-120 | one fresh read-and-termination channel is appended per kept connection, in order, and registered in that order; existing channels are untouched |
| IoScheduler.Scheduler.AcceptOne | src/io/schedulers/io_scheduler.cpp:110-117 | one accepted connection, made non-blocking, is added with read and termination interest; the channel list, the registrations and the kept sockets grow by it exactly when epoll took it, and any new channel is fresh |
| IoScheduler.Scheduler.HandleEvent | src/io/schedulers/io_scheduler.cpp:70-104 | the event's channel ends in the state `AfterEvent` gives, which is edge-triggered first and then, in this order: an acceptor accepts; termination or a closed peer removes; a read queues the response after enabling write interest; writability drains as `Drain` says. It stays listed exactly when `RemovedBy` is false. The trace grows by the registrations or the removal. Other listed channels stay listed, and any new channel is a fresh connection admitted by this (acceptor) event |
| IoScheduler.Scheduler.Run | src/io/schedulers/io_scheduler.cpp:66-105 | with no channels nothing happens; otherwise every event's channel settles as `AfterEvent` says, from its state before the wait, and stays listed exactly when that event did not remove it; a listed channel no event names stays listed; every channel that appears is a fresh connection admitted by some acceptor event; the trace only grows |
| IoScheduler.Scheduler.HandleNext | src/io/schedulers/io_scheduler.cpp:70-104 | one turn of the event loop: the next event's channel settles, the channels of earlier events keep what they settled to, the channels of later events are untouched, and new channels are fresh connections |
| IoScheduler.SchedulerHandle.constructor | src/io/schedulers/io_scheduler.cpp:228-235 | the handle holds the implementation |
| IoScheduler.SchedulerHandle.MoveAssign | src/io/schedulers/io_scheduler.cpp:249-255 | from another handle: its implementation is taken over and it is left null; self-assignment changes nothing |
| IoScheduler.SchedulerHandle.Moved | src/io/schedulers/io_scheduler.cpp:257 | the new handle holds the implementation and the source is null |
| IoScheduler.SchedulerHandle.Run | src/io/schedulers/io_scheduler.cpp:247 | forwards to the implementation, keeping the handle and its invariant, with the same per-event outcome as `Scheduler.Run` |
| HttpResponse.SizeT | src/http/response.cpp:60 | conversion to `std::size_t` keeps values in range and wraps negative ones by 2^64 |
| HttpResponse.ToDecimalValue | src/http/response.cpp:82 | `std::to_string` writes the number's decimal digits with no leading zero |
| HttpResponse.StoiToDecimal | src/http/response.cpp:60 | `std::stoi` reads back what `std::to_string` wrote |
| HttpResponse.StoiDigits | src/http/response.cpp:60 | `std::stoi` of a digit string is its value |
| HttpResponse.StoiNegative | src/http/response.cpp:60 | a leading '-' negates the value |
| HttpResponse.StoiLeadingSpace | src/http/response.cpp:60 | leading white space is skipped |
| HttpResponse.FindField | src/http/response.cpp:45 | `find_if` gives the index of the first pair with the name, or none when no pair has it |
| HttpResponse.Upsert | src/http/response.cpp:44-51 | no contract; the value-level `Set`, whose placement, lookup and uniqueness are stated in `UpsertPlacement`, `UpsertLookup` and `UpsertUnique` |
| HttpResponse.UpsertPlacement | src/http/response.cpp:44-51 | an absent name is appended at the end; a present one gets the value at its first match in place; no other pair changes; the name then reads the value |
| HttpResponse.UpsertLookup | src/http/response.cpp:44-51 | after `Set(f, v)`, `f` reads `v` and every other name reads what it read before |
| HttpResponse.UpsertUnique | src/http/response.cpp:44-51 | unique field names stay unique |
| HttpResponse.ContentLengthOf | src/http/response.cpp:57-68 | without a Content-Length field, the size of the file, resource or text `type_` selects, and 0 for any other type; a parsed field fits in `std::size_t` |
| HttpResponse.ContentLengthOfLookup | src/http/response.cpp:58-60 | only the first Content-Length field matters |
| HttpResponse.ContentLengthRoundTrip | src/http/response.cpp:57-68 | a Content-Length field set to the decimal of n reads back as n |
| HttpResponse.KeepAliveOf | src/http/response.cpp:70-75 | true exactly when the first Connection field reads "Keep-Alive" |
| HttpResponse.KeepAliveExact | src/http/response.cpp:70-75 | the comparison is case-sensitive and only the first Connection field counts |
| HttpResponse.FreshHeadersFacts | src/http/response.cpp:77-85 | the seven fields of a fresh response have unique names, ask for keep-alive, and give back the declared length |
| HttpResponse.Response.Default | src/http/response.cpp:87 | code OK, no type, no fields |
| HttpResponse.Response.SetResource | src/http/response.cpp:24-27 | stores the resource and sets the type to Resource, nothing else changes |
| HttpResponse.Response.SetText | src/http/response.cpp:30-33 | stores the text and sets the type to Text, nothing else changes |
| HttpResponse.Response.SetFile | src/http/response.cpp:36-39 | stores the file and sets the type to File, nothing else changes |
| HttpResponse.Response.Set | src/http/response.cpp:44-51 | the list becomes `Upsert` of the old one; unique names stay unique; no other member changes |
| HttpResponse.Response.Init | src/http/response.cpp:77-85 | Date, Connection: Keep-Alive, Access-Control-Allow-Origin and Content-Type are set; if `stoi` of an existing Content-Length throws, `Init` stops there; otherwise Content-Length holds the decimal length and Transfer-Encoding and Cache-Control are set; other names are unchanged; on a fresh response the seven fields come in order |
| HttpResponse.Response.WithCode | src/http/response.cpp:89-92 | the code, type Text, and the seven fresh fields with length 0 |
| HttpResponse.Response.FromText | src/http/response.cpp:94-97 | code OK, the text, and the seven fresh fields with Content-Length the text's size |
| HttpResponse.Response.FromResource | src/http/response.cpp:99-103 | code OK, the resource, the seven fresh fields with its size, then Content-Type overwritten in place, the field count unchanged |
| HttpUtil.IsPassable | src/http/util.cpp:5-21 | no contract; its method set is stated in `PassableWithBody` |
| HttpUtil.CanHaveBody | src/http/util.cpp:41-52 | no contract; its method set is stated in `PassableWithBody` |
| HttpUtil.IsComplete | src/http/util.cpp:28-39 | no contract; its cases are stated in `IsCompleteCases`, `IsCompleteMonotone` and `NegativeLengthNeverCompletes` |
| HttpUtil.GetMimeType | src/http/util.cpp:54-75 | no contract; the lookup key is stated in `MimeAfterLastDot` and `MimeWithoutDot` |
| HttpUtil.ExtensionAllowed | src/http/util.cpp:23-27 | no contract; the pattern is characterised in `ExtensionAllowedIsSplit` |
| HttpUtil.PassableWithBody | src/http/util.cpp:5-52 | `IsPassable` holds exactly for Get, Post, Put, Delete, Head and `CanHaveBody` exactly for Put, Post, Options; they overlap at Post and Put only |
| HttpUtil.IsCompleteCases | src/http/util.cpp:28-39 | complete when no body is possible or no Content-Length is given; with a length in range, complete exactly when the body is at least that long |
| HttpUtil.IsCompleteMonotone | src/http/util.cpp:28-39 | a complete request stays complete as more body arrives |
| HttpUtil.NegativeLengthNeverCompletes | src/http/util.cpp:32-34 | a negative `atoi` value wraps to a huge size, so the request never completes |
| HttpUtil.FindLastOf | src/http/util.cpp:56 | the index of the last '.', or `npos` when there is none |
| HttpUtil.MimeAfterLastDot | src/http/util.cpp:54-75 | the extension looked up is exactly the text after the last '.' |
| HttpUtil.MimeWithoutDot | src/http/util.cpp:56-57 | with no '.', `npos + 1` wraps to 0 and the whole url is the extension |
| HttpUtil.MimeCaseSensitive | src/http/util.cpp:59-74 | "html" maps to TextHtml, "PNG" falls back to TextPlain |
| HttpUtil.MimeLastExtension | src/http/util.cpp:56-74 | only the last extension counts; a url without a dot is its own extension |
| HttpUtil.Lower | src/http/util.cpp:25 | `icase` folds each ASCII letter and keeps the length |
| HttpUtil.ExtensionAllowedIsSplit | src/http/util.cpp:23-27 | the regex match holds exactly when the url is a line, a '.', and one of the eleven extensions in any case |
| HttpUtil.ExtensionAllowedExamples | src/http/util.cpp:23-27 | case is ignored, the dot is required, and a line break before it defeats `.*` |
| DirectoryListing.HexDigit | src/http/directory_listing.cpp:31-32 | each digit printed is an uppercase hexadecimal digit |
| DirectoryListing.EncodeByte | src/http/directory_listing.cpp:25-33 | an unreserved byte is kept; any other byte becomes '%' and two uppercase hex digits of its value |
| DirectoryListing.UrlEncode | src/http/directory_listing.cpp:16-37 | the loop writes `Encoded(value)` |
| DirectoryListing.EncodeSpace | src/http/directory_listing.cpp:31-33 | a space becomes "%20" |
| DirectoryListing.EncodedAppend | src/http/directory_listing.cpp:21-34 | the encoding of a concatenation is the concatenation of the encodings |
| DirectoryListing.EncodedLength | src/http/directory_listing.cpp:21-34 | output length is input length plus twice the number of escaped bytes |
| DirectoryListing.EncodedSafe | src/http/directory_listing.cpp:21-34 | every output byte is unreserved or '%' |
| DirectoryListing.DecodeEncoded | src/http/directory_listing.cpp:16-37 | percent-decoding the output gives back the input |
| DirectoryListing.EncodedInjective | src/http/directory_listing.cpp:16-37 | no two inputs share an encoding |
| DirectoryListing.TrimQuotes | src/http/directory_listing.cpp:8-14 | a leading quote is removed; nothing else changes |
| DirectoryListing.TrimQuotesKeepsTrailingQuote | src/http/directory_listing.cpp:11-12 | the trailing quote of a quoted name survives |
| DirectoryListing.TrimQuotesIntended | src/http/directory_listing.cpp:8-14 | one leading and one trailing quote are removed, each if present; a name without quotes is unchanged |
| DirectoryListing.TrimQuotesIntendedRoundTrip | src/http/directory_listing.cpp:8-14 | quoting a name and trimming it gives the name back |

## Left out

- WritePath.FillMemory: the interface of `io::Socket`, whose `WriteSome` `fill_channel` calls (src/io/schedulers/io_scheduler.cpp:163), is not part of this model. It is assumed to classify `::send` as `io::tcp_socket::write_some` does (src/io/socket/socket.h:86-97), not as the older `IO::Socket::Write`, because the scheduler shares that generation's `connection_closed_by_peer` name and the `Some` suffix. The two differ on a 0 return (`ApiSocket.WriteAgreesWithWriteSome`): here 0 with an errno other than EAGAIN/EWOULDBLOCK throws and `process_write` removes the channel, where `Write` would report would-block and keep it.
- IoScheduler.Scheduler.HandleEvent: removal on a closed peer (src/io/schedulers/io_scheduler.cpp:95-97) ends the event here. In the source, control falls through to `CanWrite()`/`process_write` (:100-101) on the channel it has just freed. That use after free is not modelled.
- IoScheduler.SchedulerHandle.MoveAssign: the implementation a handle held before the move is overwritten without being deleted (a leak). Deallocation is not part of this model.
- IoScheduler.Scheduler.Run: which events `poll.Wait` reports is an input. The model assumes at most one event per channel, at most as many events as channels, and only for channels in the list.
- IoScheduler.Scheduler.Run: the trace is only stated to grow; the exact entries each event adds are stated per event by `HandleEvent`, not concatenated over the whole wait.
- IoScheduler.Scheduler.AddNewConnections: only `poll_error` from registration is caught, as in the source. Another exception from `Accept()` or `MakeNonBlocking()` would escape a `noexcept` function and end the program; that is not modelled.
- WritePath.Drain: an exception from the barrier callback itself, which `process_write` would also catch and answer by removing the channel, is not modelled. The barrier is a function of the item's id within one `process_write`.
- The meaning of an epoll mask (bit arithmetic, `~write`, `~EdgeTriggered`) lives in the epoll wrapper and is not part of this model. The masks are recorded as symbols from src/io/schedulers/sys_epoll.h:29-34.
- `sched_item.h`, `from(unix_file)` and `unix_file::send_to_fd` are not part of this model. Their effects are the assumptions stated in `ScheduleItem` and `WritePath.FileReply`.
- TcpSocket.ReadSome: `available_read()` failing or returning a negative value is not modelled; `available` is a `nat`.
- ApiSocket.ReadSome: a negative `AvailableToRead()` answer, which goes through `std::size_t` and then `ssize_t`, is not modelled; a throwing call is `None` and any other answer is a `nat`.
- ApiSocket.Socket.Close: the body of `Close()` is not part of this model; its effect (the held descriptor released once, then `-1`) is assumed.
- HttpResponse.Stoi: `std::out_of_range` for values beyond `int` is not modelled; the parsed value is unbounded.
- HttpResponse.Response.Init: the `std::invalid_argument` that `std::stoi` throws on a malformed Content-Length is reported as `ok == false`, with the four fields set before it kept.
- HttpResponse.Response.Init: `Date::Now()` and `Storage::GetSettings().default_max_age` are parameters (`now`, `maxAge`).
- The header name constants of `Http::Header::Fields`, the `Http::Method`, `Http::ContentType` and `Http::Request` declarations, and the `Resource` class are not part of this model. The standard header spellings are assumed, and the method list holds the methods the switches name plus the remaining standard ones.
- HttpResponse.Response.FromResource: `mime_types` and `IO::FileSystem::GetExtension` are not part of this model; their answer is the parameter `mime`.
- The trivial getters and setters of `Response` for the code, version and type (src/http/response.cpp:20-42) are not modelled; `version_` is left out of the class.
- HttpUtil.IsComplete: `std::atoi` is a parameter.
- HttpUtil.ExtensionAllowed: the regex is stated as a predicate, not run through a regex engine. `icase` uses ASCII case folding.
- DirectoryListing.UrlEncode: `isalnum` on a `char` is taken in the C locale over unsigned bytes. On a signed `char` a byte of 128 or more is a negative argument, whose behaviour the C library leaves undefined.
- DirectoryListing.TrimQuotes: the empty string and the lone quote `"` are excluded, because `front()` or `back()` on an empty string is undefined.
- `ReadUntil` (src/api/io/socket/socket.h:107-138) and `list_directory` are I/O loops over the socket and the file system. They are not modelled.

## Findings

| source | as written | input that shows it | evidently intended | confidence | as-written member | corrected member |
|---|---|---|---|---|---|---|
| src/http/directory_listing.cpp:11-12 | after a trailing quote is found, `str.substr(0, str.size())` keeps the whole string | `"a"` (with both quotes) trims to `a"` | `str.substr(0, str.size() - 1)`, dropping the trailing quote | high (not executed) | DirectoryListing.TrimQuotesKeepsTrailingQuote | DirectoryListing.TrimQuotesIntendedRoundTrip |
