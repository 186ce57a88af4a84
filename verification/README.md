# simple_file_server in Dafny

A model of the request-handling core of `simple_file_server.c`, a small static-file
HTTP server. It accepts connections, queues them in a fixed ring buffer, and worker
threads answer each one. A worker reads one `GET` request line, percent-decodes
the path, resolves it under a root directory with `realpath`, checks that the
result is inside the root, and sends a header followed by the file.

Modules, leaf first:

- `CString`: the C library pieces the server leans on. These are NUL-terminated
  strings, `strchr`/`strrchr`, `isspace` in the C locale, hexadecimal digits and
  `strcasecmp`. One C byte is one `char`.
- `UrlDecode`: `url_decode`, including `strtol(…, 16)` on the two characters after a
  '%' and the `(char)` cast. There is a loop version beside the recursive definition,
  an encoder, and the round trip between them.
- `Mime`: `get_mime_type`, the table scan, plus an independent map from
  extension to type that the scan is proved to agree with.
- `Request`: `sscanf(buffer, "%s %s %s", …)` as a tokenizer, with an independent
  word count.
- `Http`: the fixed error headers, `%lld` printing and the 200 header. It also proves
  that the 200 header always fits the 1024-byte buffer.
- `Handler`: `handle_client` as a pure function. Its inputs are the bytes the client
  sent, the configured root, and a filesystem snapshot that stands in for
  `realpath`, `open` and `fstat`. Its result is the response and the ordered list
  of filesystem calls made.
- `TaskQueue`: the global `task_queue`/`queue_head`/`queue_tail` ring buffer, as a
  value with `Enqueue`/`Dequeue` and as an array-backed class.
- `Config`: the range checks of `load_config` and the root-directory check at the
  start of `main`.

The model follows the code as written. Where the code falls short of what a
safe, well-behaved server would do, that is stated here and the model still
follows the code:

- **Containment.** The code tests `strncmp(real_path, root_dir, strlen(root_dir))`.
  That is a plain string prefix against the root exactly as configured, which is
  not canonicalised. A safe check would be a component-wise ancestor test against
  the canonical root. `Handler.Contained` is the string-prefix test.
  - `Handler.SiblingDirectoryPasses` shows that "/srv/www2/…" passes for root "/srv/www".
  - `Handler.RelativeRootServesNothing` shows that a relative root such as the
    default "." never matches an absolute canonical path, so nothing is ever served.
- **Queue capacity.** The queue has 1024 slots, but the code keeps one of them
  free, so at most 1023 connections can be pending, not 1024
  (`TaskQueue.Capacity`).
- **Header overflow.** The code answers 500 when the 200 header does not fit its
  1024-byte buffer (:190). The model keeps that branch, and
  `Handler.ResolveNeverOverflows` proves it unreachable for every `off_t` size. A
  size prints in at most 19 digits, and the longest content type,
  `application/octet-stream`, has 24 characters.
- **Missing files.** POSIX `realpath` fails when the last component of the path
  does not exist. So in the code a request for a missing file under the root is
  answered 403 at :153, not 404. The 404 branch (:163-170) is reached only when
  `open` fails after `realpath` succeeded, for example for a file that cannot be
  read. In the model this is the difference between a candidate missing from
  `FileSystem.canonical` (403) and a canonical path missing from `FileSystem.files`
  (404).

## Model

| member | source | states |
|---|---|---|
| CString.SpaceCharacters | simple_file_server.c:113 | `isspace` in the "C" locale holds for exactly space, \t, \n, \v, \f and \r, which `%s` skips and stops at |
| CString.EqualsIgnoreCaseCharwise | simple_file_server.c:74 | `strcasecmp(a, b) == 0` exactly when the strings have the same length and agree position by position up to case |
| CString.CStr | simple_file_server.c:110 | the C string is the longest NUL-free prefix: it ends at the first NUL or at the end of the bytes |
| CString.IndexOf | simple_file_server.c:127 | `strchr`: -1 exactly when the character is absent, otherwise the position of its first occurrence |
| CString.LastIndexOf | simple_file_server.c:50 | `strrchr`: -1 exactly when the character is absent, otherwise the position of its last occurrence |
| CString.LastIndexOfSamePositions | simple_file_server.c:50 | two strings with the character at the same positions have the same `strrchr` result |
| CString.LastDotUnchangedByLower | simple_file_server.c:50-52 | lower-casing a name does not move its last '.' |
| UrlDecode.Strtol2 | simple_file_server.c:88-89 | `strtol` base 16 on two characters yields a value above -16 and below 256, so the cast keeps a well-defined byte |
| UrlDecode.ToByte | simple_file_server.c:89 | the `(char)` cast gives a byte and keeps any value 0..255 unchanged |
| UrlDecode.Decode | simple_file_server.c:83-97 | the decoded text is never longer than the C string it comes from |
| UrlDecode.DecodeEscapeStep | simple_file_server.c:87-90 | a '%' followed by two non-NUL characters consumes three input characters and emits one byte |
| UrlDecode.DecodeCopyStep | simple_file_server.c:91-93 | any other non-NUL character is copied and consumes one input character |
| UrlDecode.DecodeLoop | simple_file_server.c:83-97 | the cursor-and-output loop computes the same text as the recursive decoder |
| UrlDecode.DecodeWithoutPercent | simple_file_server.c:86-93 | text without '%' or NUL decodes to itself |
| UrlDecode.DecodeEscape | simple_file_server.c:87-90 | '%' and two hex digits decode to the byte 16·hi + lo, followed by the decoding of the rest |
| UrlDecode.DecodeTrailingPercent | simple_file_server.c:87 | a '%' with fewer than two characters after it is copied literally |
| UrlDecode.DecodeStopsAtNul | simple_file_server.c:86 | decoding depends only on the text before the first NUL |
| UrlDecode.EscapeByte | simple_file_server.c:87-89 | a byte is escaped as '%' and two hexadecimal digits |
| UrlDecode.Encode | simple_file_server.c:83-97 | the encoding is three characters per byte, each '%' or a hex digit |
| UrlDecode.DecodeEncode | simple_file_server.c:83-97 | decoding the percent-encoding of any byte string gives that byte string back |
| Mime.Lookup | simple_file_server.c:73-78 | the scan returns the generic type or the type of some table entry |
| Mime.LookupFinds | simple_file_server.c:73-75 | the scan returns the type of the first entry whose extension matches, ignoring case |
| Mime.LookupMisses | simple_file_server.c:73-78 | when no entry matches, the scan falls through to `application/octet-stream` |
| Mime.TableKeysDistinct | simple_file_server.c:57-71 | no extension appears twice in the table |
| Mime.TypeOf | simple_file_server.c:49-78 | the result is the generic binary type or one of the table's types |
| Mime.LookupAgreesWithTypes | simple_file_server.c:57-78 | the first-match, case-insensitive scan equals a lookup of the lower-cased extension in the extension map, with the generic type when it is absent |
| Mime.TypeOfWithoutDot | simple_file_server.c:50-51 | a name without '.' is `application/octet-stream` |
| Mime.TypeOfLastExtension | simple_file_server.c:50-78 | the type of `stem.ext` is determined by `ext` alone: the map entry of its lower-case form, else the generic type |
| Mime.LookupIgnoresCase | simple_file_server.c:74 | the scan gives the same type for an extension and its lower-case form |
| Mime.TypeOfIgnoresCase | simple_file_server.c:74 | lower-casing a name never changes its type |
| Request.SpanSpace | simple_file_server.c:113 | the leading white-space run is all white space and is followed by a non-space or the end |
| Request.SpanWord | simple_file_server.c:113 | the leading word is free of white space and is followed by a space or the end |
| Request.ScanWord | simple_file_server.c:113 | one `%s` fails exactly when only white space remains; otherwise the input is white space, a non-empty space-free word, then a rest that starts at a space or is empty |
| Request.ParseRequestLine | simple_file_server.c:112-113 | on success, the method, path and version are each non-empty and contain no white space |
| Request.ScanWordCounts | simple_file_server.c:113 | a successful `%s` consumes exactly one word of the independent word count; a failed one leaves none |
| Request.ParseFailsIffFewerThanThreeWords | simple_file_server.c:113-118 | the scan fails (400) exactly when the buffer holds fewer than three words |
| Request.ParseSplitsWords | simple_file_server.c:113 | the three fields are the first three words in order: the buffer is white space, method, white space, path, white space, version, rest |
| Http.Code | simple_file_server.c:114 | every error status is sent with a 4xx or 5xx code |
| Http.ThreeDigits | simple_file_server.c:114 | every status code prints in exactly three digits |
| Http.ErrorText | simple_file_server.c:114-191 | each of the error texts at :114, :121, :132, :143, :154, :164, :174 and :191 starts `HTTP/1.1 `, carries its status code as the next three digits, and ends with `Content-Length: 0` and the blank line |
| Http.OkHeader | simple_file_server.c:184-189 | the 200 header starts with `HTTP/1.1 200 OK`, carries the size as digits that read back as the size, has the content type just before the blank line, and ends with the blank line |
| Http.DigitChar | simple_file_server.c:186 | a digit value prints as a decimal digit |
| Http.Decimal | simple_file_server.c:186 | `%lld` of a non-negative size is a non-empty run of decimal digits |
| Http.DecimalRoundTrip | simple_file_server.c:186 | the printed Content-Length reads back as the file size |
| Http.DecimalLength | simple_file_server.c:186 | a value below 10^k prints in at most k digits |
| Http.OkHeaderFits | simple_file_server.c:183-190 | for any `off_t` size and a type of at most 24 characters, the 200 header is shorter than its 1024-byte buffer |
| Handler.Wire | simple_file_server.c:114-191 | nothing is written exactly for a closed connection; every error header ends with the empty-body declaration and carries the status code; a success starts with the 200 status line |
| Handler.RequestText | simple_file_server.c:107-110 | the request text holds at most 1023 bytes, is a prefix of what was sent and holds no NUL; it stops only at the 1023-byte cut, the end of what was sent, or the first NUL |
| Handler.StripSlash | simple_file_server.c:130 | a leading '/' is dropped once; a path without one is unchanged |
| Handler.OneSlashDropped | simple_file_server.c:130 | "/p" names what `p` decodes to, so exactly one leading '/' is removed ("//etc" asks for "/etc") |
| Handler.JoinPath | simple_file_server.c:140-149 | the candidate is the root, one '/', then the name, with length `strlen(root) + strlen(name) + 1` |
| Handler.Contained | simple_file_server.c:153 | `strncmp(real_path, root_dir, strlen(root_dir)) == 0`: the canonical path is at least as long as the root and agrees with it on the root's first characters |
| Handler.Respond | simple_file_server.c:113-118 | a failed scan is 400 with no filesystem call; a GET answered 400 never touched the filesystem |
| Handler.CutQuery | simple_file_server.c:127-128 | the result is the prefix of the path before its first '?', and it contains no '?' |
| Handler.RequestedName | simple_file_server.c:127-131 | the file name holds no NUL and is no longer than the path |
| Handler.Success | simple_file_server.c:183-198 | a regular file is answered 200 exactly when its header fits the 1024-byte buffer, and 500 otherwise |
| Handler.SuccessIsOk | simple_file_server.c:183-198 | with a content type of at most 24 characters the answer is always 200 |
| Handler.KnownTypesShort | simple_file_server.c:49-78 | every type `get_mime_type` returns has at most 24 characters |
| Handler.Resolve | simple_file_server.c:149-152 | the first filesystem call is `realpath` of root + "/" + name, and a header is always sent |
| Handler.Dispatch | simple_file_server.c:120-148 | 405 exactly when the method is not `GET`; the filesystem is untouched exactly when the method is wrong, the name is empty or the allocation fails |
| Handler.Handle | simple_file_server.c:107-108 | the connection is closed without a response exactly when the read returned nothing |
| Handler.MethodChecked | simple_file_server.c:120-125 | for a scanned line, 405 exactly when the method is not `GET`, with no filesystem call |
| Handler.RequestLineChecks | simple_file_server.c:107-125 | fewer than three words is 400 with no filesystem call; three words always scan; 405 exactly for a non-`GET` method |
| Handler.QueryIgnored | simple_file_server.c:127-130 | appending "?query" to a path does not change the requested name |
| Handler.DispatchIgnoresQueryAndVersion | simple_file_server.c:112-130 | two GET lines whose paths differ only in the query, and whose versions may differ, get the same outcome |
| Handler.EmptyNameRejected | simple_file_server.c:131-137 | an empty name is 400 and no filesystem call is made |
| Handler.EmptyNameExamples | simple_file_server.c:130-131 | "/" and any path starting "/%00" name nothing |
| Handler.EncodedPathNamesItsBytes | simple_file_server.c:127-131 | a path that percent-encodes every byte names exactly those bytes up to the first NUL, so "%2E%2E" reaches `realpath` as ".." |
| Handler.OutsideRootForbidden | simple_file_server.c:152-160 | a candidate that fails to resolve, or resolves outside the root, is 403 after only the `realpath` call |
| Handler.OpenOnlyInsideRoot | simple_file_server.c:152-162 | any `open` is of the canonical path of the candidate, and that path passed the containment test |
| Handler.StatusAfterContainment | simple_file_server.c:162-181 | once contained: 404 exactly when the file cannot be opened, 403 exactly when it opens but is not a regular file |
| Handler.ResolveOkExactly | simple_file_server.c:149-198 | resolution answers 200 exactly for a regular file found inside the root, with that file's size and the requested name's type |
| Handler.OkExactly | simple_file_server.c:107-198 | 200 exactly when the request is a GET with a non-empty name whose candidate resolves inside the root to a regular file; the length is its size and the type comes from the requested name |
| Handler.ResolveNeverOverflows | simple_file_server.c:183-198 | resolution never answers 500 |
| Handler.DispatchInternalError | simple_file_server.c:139-148 | after the method check, 500 only when the candidate path could not be allocated |
| Handler.InternalErrorOnlyFromAllocation | simple_file_server.c:139-198 | a 500 answer implies the allocation failed |
| Handler.SiblingDirectoryPasses | simple_file_server.c:153 | the containment test accepts "/srv/www2/secret" for root "/srv/www" |
| Handler.RelativeRootServesNothing | simple_file_server.c:153 | with a relative root and absolute canonical paths, no request is ever answered 200 |
| TaskQueue.Count | simple_file_server.c:37-38 | the number pending, (tail − head) mod 1024, never exceeds 1023 |
| TaskQueue.Contents | simple_file_server.c:37-38 | the pending connections, oldest first, number exactly `Count` |
| TaskQueue.Initial | simple_file_server.c:37-38 | the zero-initialised globals are a well-formed, empty queue |
| TaskQueue.SlotIsTail | simple_file_server.c:394 | the slot i places after head is tail exactly when i is the count |
| TaskQueue.FullIffAtCapacity | simple_file_server.c:390 | the full test `(tail + 1) % 1024 == head` holds exactly when 1023 connections are pending |
| TaskQueue.EmptyIffNonePending | simple_file_server.c:234 | the wait condition `head == tail` holds exactly when nothing is pending |
| TaskQueue.Enqueue | simple_file_server.c:389-397 | accepted exactly when fewer than 1023 are pending; an accepted connection is appended at the back and the count grows by one; a dropped one leaves the queue unchanged; head and the other slots are untouched |
| TaskQueue.EnqueueContents | simple_file_server.c:394-395 | storing at tail and advancing it appends the connection and adds one to the count |
| TaskQueue.Dequeue | simple_file_server.c:233-238 | from a non-empty queue, the oldest pending connection is taken and the rest stay in order; tail and slots are untouched |
| TaskQueue.ModShift | simple_file_server.c:238 | advancing head and then stepping i slots lands on the slot i + 1 past the old head |
| TaskQueue.DequeueContents | simple_file_server.c:237-238 | advancing head drops exactly the first pending connection |
| TaskQueue.EnqueueAll | simple_file_server.c:383-399 | any run of accepts leaves a well-formed queue |
| TaskQueue.EnqueueAllStep | simple_file_server.c:383-399 | a burst is its first connection's accept-or-drop followed by the rest of the burst |
| TaskQueue.EnqueueAllAccepts | simple_file_server.c:389-397 | the connections queued from a burst are its first ones, as many as fit, in order |
| TaskQueue.EnqueueAllAppends | simple_file_server.c:394-395 | after a burst, the queue holds its earlier contents followed by exactly the connections queued |
| TaskQueue.EnqueueAllKeepsPrefix | simple_file_server.c:389-397 | with no worker draining, a burst queues its first connections up to the free capacity, in order, and drops every later one |
| TaskQueue.BurstFromInitial | simple_file_server.c:389-397 | from empty, a burst of 1023 + k queues exactly the first 1023 and leaves the queue full |
| TaskQueue.ConnectionQueue.TryEnqueue | simple_file_server.c:389-397 | the array-backed enqueue, run on the globals, does what `TaskQueue.Enqueue` does to their value |
| TaskQueue.ConnectionQueue.Take | simple_file_server.c:233-238 | the array-backed take, run on the globals, does what `TaskQueue.Dequeue` does to their value |
| Config.CheckPort | simple_file_server.c:285-289 | the port is in 1..65535; it is kept exactly when valid, and replaced by 18945 otherwise |
| Config.CheckBacklog | simple_file_server.c:291-295 | the backlog is at least 1; it is kept exactly when valid, and replaced by 100 otherwise |
| Config.CheckPoolSize | simple_file_server.c:297-301 | the worker count is at least 1; it is kept exactly when valid, and replaced by 64 otherwise |
| Config.LoadConfig | simple_file_server.c:250-319 | no readable settings gives the defaults; otherwise each setting is checked on its own: port kept when in 1..65535, backlog and pool size when at least 1, root when it is a directory, each missing or invalid one replaced by its own default |
| Config.Startup | simple_file_server.c:327-344 | the server starts only with a root that is a directory; with one argument it starts exactly when that argument is a directory, and then uses it with the default numbers; otherwise it starts exactly when the loaded root is a directory, and then uses the loaded settings |
| Config.ValidSettingsKept | simple_file_server.c:284-315 | settings that are present and valid are used exactly as given |

## Left out

- Socket I/O is left out: `read`, `write`, `sendfile` and the portable copy loop at
  simple_file_server.c:208-216. A response is modelled as the header chosen. A
  failed read and a read of zero bytes are the same empty input.
- A read that returns fewer bytes than the client sent is left out. The model
  covers one read that gets everything the client sent, cut to 1023 bytes.
- A failed header write (:200-206) is left out. It only changes what happens after
  the header is chosen.
- Body transfer is left out. The code does not retry a partial `sendfile` or
  `write`, so a client can receive fewer bytes than the announced length.
- Threads are left out: the mutex, the condition variable, pool creation and the
  worker loop. Each queue operation is one atomic step, and a worker's wait becomes
  `Dequeue`'s precondition that the queue is not empty. A worker's iteration is
  `Dequeue` followed by `Handler.Handle`. That composition is not a separate member.
- `realpath`, `open` and `fstat` are left out as code. They become the
  `FileSystem` snapshot. Canonicalisation itself (`.`, `..`, symbolic links) is
  whatever that map says.
- The fixed buffer widths of `sscanf` (`method[16]`, `path[256]`, `version[16]`)
  are left out. A longer word overflows in C, which has no defined behaviour to
  model; the model reads words of any length.
- The unchecked `malloc` in `url_decode` is left out. Allocation is assumed to
  succeed there. The `file_path` allocation is the `pathAllocated` parameter.
- Memory bookkeeping (`free`, `close`) is left out.
- Reading and parsing `config.json` is left out, and so are cJSON and its
  `cJSON_GetObjectItemInt` conversions. The parsed file is a `Settings` value with
  each key present or absent.
- `syslog`, the signal handlers, socket creation, `bind` and `listen` are left out.
- Config.LoadConfig: does not check that the fallback root "." is a directory,
  because the code does not. `Config.Startup` then rejects it if it is not one.
