# A verified model of the otus homework core

This project models the core components of a set of Python homework
programs and proves properties of them. Each Dafny module follows one
component of the source:

- **Static file server** (`06/homework/httpd.py`)
  - `HttpRequest`: `read_request`, reading a connection until the blank line, the size limit, end of stream or a timeout; and `parse_request`, parsing the request line.
  - `HttpPath`: `resolve_path`, mapping a request target onto a file under the document root.
  - `HttpResponse`: `guess_content_type` and `build_headers`.
  - `HttpServer`: `handle_client`, the dispatch and the replies it sends.
- **Scoring API** (`03/homework/api.py`)
  - `ApiFields`: the field classes and their `clean`.
  - `ApiRequest`: `RequestBase._validate` and `is_valid`, as a `Request` class.
  - `ApiHandler`: `method_handler`, with `online_score` and `clients_interests`.
- **Nginx log analyser** (`01/src/log_analyzer/analyzer.py`)
  - `LogFiles`: `LOG_NAME_RE` and `find_latest_log`.
  - `LogStats`: `parse_log_lines` and `aggregate_stats`.
  - `LogReport`: `build_report_rows`.
  - `LogConfig`: `load_config` and the typed getters.
- **Retrying key-value store** (`04/homework/store.py`)
  - `KeyValueStore`: `Store` with `_call`, `get`, `cache_get` and `cache_set`, plus `InMemoryClient`.
- **Django settings helpers** (`07/config/settings.py`)
  - `Settings`: `_get_bool`, `_split_csv` and `_parse_database_url`.
- **Warehouse domain** (`05/homework_warehouse_management/domain`)
  - `WarehouseModels`: `Product` validation and `Order`.
  - `WarehouseServices`: `WarehouseService`, over the in-memory repositories of the tests.

Shared modules model the Python library behaviour the code relies on:

- `Base`: `Option`, `Result` and the raised exceptions.
- `Seqs`: `find`, `split` and `join`.
- `Text`: `strip`, `lower`, `split()`, `isdigit` and `str(int)`.
- `Dicts`: an insertion-ordered dict, kept as a list of pairs.
- `Json`: a dynamically typed Python/JSON value.

Code that changes state step by step is modelled as methods and classes:

- socket reads and sends;
- the request's `_validate` loop;
- `find_latest_log` and `aggregate_stats`;
- `build_report_rows`;
- the store's retry loop;
- orders and repositories.

Each of these methods is proved against a specification function. The properties the source promises are proved as lemmas about that function.

Some inputs are parameters of the model:

- what a connection delivers;
- the file system;
- the clock, as the `Date` header text and the date checks of `DateField`/`BirthDayField`;
- `mimetypes.guess_type`;
- the digest comparison of `check_auth`, and `get_score` and `get_interests`;
- the log line regular expression;
- `urlparse`;
- the store client's answers.

## Model

| member | source | states |
|---|---|---|
| HttpRequest.Connection.Recv | 06/homework/httpd.py:60-61 | `recv` hands over the next chunk of what the peer sent, `b""` once the peer has closed, or None on a timeout, and touches nothing else |
| HttpRequest.Connection.SetTimeout | 06/homework/httpd.py:56 | `settimeout` changes only the timeout |
| HttpRequest.Connection.SendAll | 06/homework/httpd.py:149 | `sendall` appends exactly its bytes to what was sent |
| HttpRequest.Connection.Close | 06/homework/httpd.py:181 | `close` marks the connection closed and changes nothing else |
| HttpRequest.ReadFrom | 06/homework/httpd.py:58-68 | the read loop never consumes more events than there are |
| HttpRequest.ReadRequestSpec | 06/homework/httpd.py:53-72 | `read_request` consumes no more events than the peer delivers |
| HttpRequest.ReadRequest | 06/homework/httpd.py:53-72 | the loop returns what the specification gives, consumes exactly the events it says, and restores the previous timeout on every path, the timeout path included |
| HttpRequest.ReadFromShape | 06/homework/httpd.py:58-68 | the loop reads while no terminator is held and the limit is not passed; it returns the bytes received, or drops them on a timeout |
| HttpRequest.ReadRequestStops | 06/homework/httpd.py:58-72 | the result is all bytes received, non-empty, and holds `\r\n\r\n`, exceeds 8192 bytes or ends with the peer closing; None only after a timeout or when the peer closed before sending anything, and a timeout always gives None, dropping whatever was read before it |
| HttpRequest.ReadRequestBound | 06/homework/httpd.py:58-68 | with chunks of at most READ_BUFFER bytes the request is at most MAX_HEADER_SIZE + READ_BUFFER bytes |
| HttpRequest.Latin1Decode | 06/homework/httpd.py:78 | ISO-8859-1 decoding maps each byte to the character with that code and never fails, so the `UnicodeDecodeError` branch is dead |
| HttpRequest.Latin1Encode | 06/homework/httpd.py:136 | ISO-8859-1 encoding of characters below 256 keeps every code |
| HttpRequest.FirstLineOfHeader | 06/homework/httpd.py:77-78 | the first line of the header part is the first line of all the data, with or without a terminator |
| HttpRequest.DecodeFirstLine | 06/homework/httpd.py:78 | decoding commutes with cutting at the first `\r\n` |
| HttpRequest.ParseRequestFirstLine | 06/homework/httpd.py:75-87 | `parse_request` gives (method, target, version) exactly when the first line splits into three whitespace tokens, and None otherwise |
| HttpRequest.ParseRequest | 06/homework/httpd.py:75-87 | a parsed request line holds three non-empty tokens, none containing whitespace |
| HttpRequest.WordsOfThree | 06/homework/httpd.py:81 | three tokens joined by single spaces are split back into those three |
| HttpRequest.ParseRequestRoundTrip | 06/homework/httpd.py:75-87 | a request line built from three tokens parses back to them, whatever follows it |
| HttpPath.PercentDecode | 06/homework/httpd.py:93 | decoding never lengthens the path and leaves a path without `%` unchanged |
| HttpPath.PercentRoundTrip | 06/homework/httpd.py:93 | decoding undoes percent-encoding |
| HttpPath.NormalizeExtends | 06/homework/httpd.py:95 | without `..`, resolving only appends to the document root |
| HttpPath.Normalize | 06/homework/httpd.py:95 | lexical `Path.resolve` of the names onto the base: the result is never longer than the base plus the names, and is the base itself when there are no names |
| HttpPath.NormalizeCanonical | 06/homework/httpd.py:95 | resolving gives a canonical path, with no empty, `.` or `..` names |
| HttpPath.ResolvePath | 06/homework/httpd.py:90-123 | only 200, 403 and 404 come out; a file is returned exactly with 200, and it lies under the document root and is a regular file |
| HttpPath.OutsideIsForbidden | 06/homework/httpd.py:97-101 | a target outside the document root is (None, 403), whatever exists |
| HttpPath.NoParentStaysInside | 06/homework/httpd.py:94-95 | a path with no `..` name stays inside the document root |
| HttpPath.TargetCanonical | 06/homework/httpd.py:95 | the resolved target of a canonical root is canonical |
| HttpPath.DirectoryRules | 06/homework/httpd.py:103-111 | for a directory: 403 without a trailing slash unless the path is empty; otherwise the regular `index.html` with 200, else 404 |
| HttpPath.FileRules | 06/homework/httpd.py:113-123 | for anything else: a trailing slash is 404, a missing path 404, a non-regular file 403, a regular file 200 |
| HttpPath.QueryIgnored | 06/homework/httpd.py:91 | everything from the first `?` plays no part |
| HttpPath.Resolve | 06/homework/httpd.py:92-123 | on the path cut at the `?`: only 200, 403 and 404 come out; a file is returned exactly with 200, and it lies under the document root and is a regular file |
| HttpPath.TraversalRefused | 06/homework/httpd.py:95-101 | a target that climbs out of a two-level document root with `../..` and names another place, as `../../etc/passwd` under `/srv/www` does, is refused with 403 |
| HttpPath.ClimbOut | 06/homework/httpd.py:95 | resolving `../../x/y` against a two-level root gives `/x/y`: `..` stops at the file-system root |
| HttpResponse.StatusMessage | 06/homework/httpd.py:20-26 | the reason is non-empty exactly for 200, 400, 403, 404 and 405 |
| HttpResponse.StatusLine | 06/homework/httpd.py:128 | `HTTP/1.1 <code> <reason>` (no contract of its own: `HttpResponse.StatusLineNoBreak` states its shape) |
| HttpResponse.StatusLineNoBreak | 06/homework/httpd.py:128 | the status line is non-empty and holds no `\r` or `\n` |
| HttpResponse.ContentTypes | 06/homework/httpd.py:28-37 | every table entry is non-empty |
| HttpResponse.Suffix | 06/homework/httpd.py:41 | `Path.suffix` is empty or a final dot-name that is shorter than the name and has no other dot |
| HttpResponse.GuessContentType | 06/homework/httpd.py:40-45 | the content type is never empty, whatever `mimetypes` guesses |
| HttpResponse.SuffixOfLower | 06/homework/httpd.py:41 | the suffix of the lower-cased name is the lower-cased suffix |
| HttpResponse.GuessIgnoresCase | 06/homework/httpd.py:41 | the lookup is case-insensitive |
| HttpResponse.TableComesFirst | 06/homework/httpd.py:41-43 | a suffix in the table decides the type, whatever `mimetypes` would say |
| HttpResponse.UpperCaseJpeg | 06/homework/httpd.py:40-45 | a name ending `.JPG` is `image/jpeg` |
| HttpResponse.HeaderLines | 06/homework/httpd.py:127-135 | the status line comes first; there are five lines, or six exactly when a non-empty content type is given, the sixth being its `Content-Type` line |
| HttpResponse.BuildHeaders | 06/homework/httpd.py:126-136 | the bytes are the ISO-8859-1 encoding of the joined lines plus `\r\n\r\n`, and encoding fails only when a character is outside ISO-8859-1 |
| HttpResponse.HeaderText | 06/homework/httpd.py:136 | the lines joined by `\r\n` plus the blank line (no contract of its own: `HttpResponse.HeaderBlockEnds` states how the text is framed) |
| HttpResponse.JoinedLines | 06/homework/httpd.py:136 | lines without line breaks, joined by `\r\n`, contain no `\r` that is followed two places later by another `\r` |
| HttpResponse.HeaderBlockEnds | 06/homework/httpd.py:136 | the header block holds exactly one `\r\n\r\n`, at its end, and its first line is the status line |
| HttpResponse.LinesHaveNoBreak | 06/homework/httpd.py:127-135 | no header line holds a line break when the content type and the date have none |
| HttpServer.HandleClient | 06/homework/httpd.py:139-181 | the connection is closed on every path, the previous timeout is kept, and what is sent is the specified response to what `read_request` returned |
| HttpServer.Respond | 06/homework/httpd.py:145-177 | the dispatch sends exactly the specified reply |
| HttpServer.SendFile | 06/homework/httpd.py:166-177 | the 200 branch sends the headers and then the file's bytes for GET |
| HttpServer.HeaderBytes | 06/homework/httpd.py:169-170 | bytes are sent exactly when the header text is Latin-1, and they decode back to that text |
| HttpServer.ErrorReply | 06/homework/httpd.py:148-149 | an error reply is sent exactly when its header text (`Content-Length: 0`, `text/plain`) is Latin-1, and it is that text alone, with no body |
| HttpServer.NameOf | 06/homework/httpd.py:40-41 | `Path.name` of the resolved file, the last name of the path, whose suffix `guess_content_type` reads (no contract of its own: `HttpResponse.GuessContentType` and `HttpResponse.Suffix` state what is made of it) |
| HttpServer.FileReply | 06/homework/httpd.py:166-177 | the 200 reply for a regular file: the headers with the file's size and content type, then the file's bytes only for GET (no contract of its own: `HttpServer.FileReplyParts` states its parts) |
| HttpServer.Reply | 06/homework/httpd.py:145-177 | 400 for a request that does not parse, 405 for a method other than GET or HEAD, 403 or 404 as `resolve_path` decides, and otherwise the 200 reply for the resolved regular file, with the body for GET only |
| HttpServer.FileReplyParts | 06/homework/httpd.py:166-177 | the 200 reply is sent exactly when its header text is Latin-1; it is that text encoded, then the file's bytes for GET and nothing for HEAD |
| HttpServer.Response | 06/homework/httpd.py:141-150 | nothing is sent for a missing or empty request, and a request that does not parse gets the 400 reply |
| HttpServer.SendChunks | 06/homework/httpd.py:172-177 | the read/send loop sends the whole file content, in order |
| HttpServer.NoRequestNoReply | 06/homework/httpd.py:141-144 | nothing is sent for an empty or timed-out request |
| HttpServer.MethodNotAllowed | 06/homework/httpd.py:153-157 | a method other than GET/HEAD gets 405 whatever the file system holds; the path is never resolved |
| HttpServer.ErrorsAreBare | 06/homework/httpd.py:159-164 | a GET or HEAD whose path does not resolve to 200 resolves to 403 or 404 and gets the bare error reply for that status, whatever the MIME guess |
| HttpServer.DispatchToFile | 06/homework/httpd.py:159-177 | a GET or HEAD of a resolvable file gets that file's 200 reply |
| HttpServer.HeadMatchesGet | 06/homework/httpd.py:169-177 | HEAD sends the same headers as GET and no body |
| ApiFields.CleanChar | 03/homework/api.py:44-47 | accepted exactly for strings, unchanged, else "must be a string" |
| ApiFields.CleanArguments | 03/homework/api.py:56-59 | accepted exactly for dicts, unchanged |
| ApiFields.CleanEmail | 03/homework/api.py:63-67 | accepted exactly for a string that is empty or holds `@` |
| ApiFields.CheckPhoneDigits | 03/homework/api.py:83-89 | a non-empty phone is accepted exactly when it is 11 digits starting with 7 |
| ApiFields.CleanPhone | 03/homework/api.py:76-90 | an accepted phone is always returned as a string: an int as its decimal text `str(i)`, a string (the empty one included) unchanged |
| ApiFields.PhoneAcceptsIff | 03/homework/api.py:76-90 | accepted exactly for "", an 11-digit string starting with 7, or a non-bool int in [7·10^10, 8·10^10) |
| ApiFields.PhoneInt | 03/homework/api.py:79-80 | `str(i)` is 11 digits starting with 7 exactly when i is in [7·10^10, 8·10^10) |
| ApiFields.CleanDate | 03/homework/api.py:99-105 | accepted exactly for a string that is a `%d.%m.%Y` date |
| ApiFields.CleanBirthDay | 03/homework/api.py:114-128 | accepted exactly for a date string that is not more than 70 years old |
| ApiFields.CleanGender | 03/homework/api.py:137-142 | accepted exactly for a non-bool int in {0, 1, 2} |
| ApiFields.CleanClientIds | 03/homework/api.py:151-159 | accepted exactly for a non-empty list of non-bool ints |
| ApiFields.CleanIdempotent | 03/homework/api.py:44-159 | cleaning a cleaned value again gives the same result, for every field class |
| ApiRequest.FieldOutcome | 03/homework/api.py:182-204 | one field's outcome. A rejection names the field first. None is set only for an absent optional field or a null on a nullable one. Any other value comes from the data and is `clean`'s result, except `""` on a nullable field. The field is accepted exactly when `clean` accepts it. The exact outcomes: `<name> is required` or None for an absent field, None or `<name> cannot be null` for a null, `""` stored as it is on a nullable field, and `<name> <clean's message>` when `clean` refuses |
| ApiRequest.CleanNeverNull | 03/homework/api.py:44-159 | no `clean` returns None |
| ApiRequest.Request.constructor | 03/homework/api.py:176-179 | the request's errors and attributes are those of validating its data |
| ApiRequest.Request.Validate | 03/homework/api.py:181-204 | the loop appends the errors of the fields in declaration order and sets their attributes |
| ApiRequest.Request.ValidateField | 03/homework/api.py:183-204 | one field either appends exactly its `FieldOutcome` message to the errors or sets exactly its outcome value as the attribute, and nothing else changes |
| ApiRequest.ValidIff | 03/homework/api.py:206-208 | `is_valid` holds exactly when every field is accepted |
| ApiRequest.Request.IsValid | 03/homework/api.py:206-208 | no error was recorded (no contract of its own: `ApiRequest.ValidIff` states when that is) |
| ApiRequest.Errors | 03/homework/api.py:181-204 | the messages `_validate` appends, in field order (no contract of its own: `ApiRequest.ValidIff` and `ApiRequest.OneErrorPerField` state its properties) |
| ApiRequest.Assigned | 03/homework/api.py:181-204 | an attribute set before `_validate` stays set; `ApiRequest.AssignedAttr` and `ApiRequest.AssignedUntouched` state which names get which values |
| ApiRequest.OneErrorPerField | 03/homework/api.py:184-203 | each field adds at most one error, and each error starts with its field's name |
| ApiRequest.AssignedAttr | 03/homework/api.py:187-204 | an accepted field's attribute is its outcome's value |
| ApiRequest.AssignedUntouched | 03/homework/api.py:181-204 | no attribute is set for a name that is not a field |
| ApiHandler.IntsOf | 03/homework/api.py:285-287 | one id per list entry |
| ApiHandler.IsAdmin | 03/homework/api.py:236-238 | true exactly when `login` was set and equals the admin login, so an unset login is never the admin |
| ApiHandler.OnlineScore | 03/homework/api.py:259-279 | 200 exactly when the arguments validate and one pair is fully present; otherwise 422 with a non-empty message and the context left as it was |
| ApiHandler.ClientsInterests | 03/homework/api.py:281-287 | 200 exactly when the arguments validate; otherwise 422 with a non-empty message and the context left as it was |
| ApiHandler.PresentKeys | 03/homework/api.py:272 | the keys listed are exactly the argument keys whose values are present (neither None nor empty), and there are no more of them than arguments |
| ApiHandler.PresentKeysOrdered | 03/homework/api.py:272 | the listed keys keep the arguments' order: of two listed keys, the earlier one comes earlier in the dict, so no key is listed twice |
| ApiHandler.Interests | 03/homework/api.py:287 | the answer has distinct keys, exactly `str(id)` for each id given, each mapped to that client's interests |
| ApiHandler.MethodHandler | 03/homework/api.py:250-290 | 200, 403, 404, 422, or 500 when a valid request has a null login and `check_auth` raises on it (api.py:245-246, answered by `do_POST` at 318-320); with oracles that cannot raise, that is the only 500; every non-200 answer is a non-empty message and leaves the context unchanged |
| ApiHandler.NullLoginRaises | 03/homework/api.py:242-246 | a null login passes validation as null (the field is nullable), is not the admin login, and so makes `check_auth` raise |
| ApiHandler.NullLoginCrashes | 03/homework/api.py:243-246 | a valid request whose `login` is null makes `check_auth` raise, and the answer is 500 "Internal Server Error" whatever the other fields say |
| ApiHandler.ErrorTextNotEmpty | 03/homework/api.py:250-254 | the joined error text of an invalid request is never empty |
| ApiHandler.ValidRequiredCleaned | 03/homework/api.py:183-204 | in a valid request a required, non-nullable field is present and holds `clean`'s result |
| ApiHandler.ValidMethodRequest | 03/homework/api.py:229-234 | a valid method request has a dict `arguments` and a string `method`, both taken from the body |
| ApiHandler.ValidClientIds | 03/homework/api.py:215-216 | a valid clients-interests request holds the non-empty int list it was given |
| ApiHandler.InvalidBeforeAuth | 03/homework/api.py:252-254 | an invalid method request gets 422 with the joined errors, whatever authentication would say |
| ApiHandler.EmptyRequest | 03/homework/api.py:251-254 | an empty body gets 422 |
| ApiHandler.BadAuth | 03/homework/api.py:256-257 | a valid request on which `check_auth` does not raise and whose digest does not match gets 403 "Forbidden" |
| ApiHandler.UnknownMethod | 03/homework/api.py:290 | a valid, authenticated request for another method gets 404 "Not Found" |
| ApiHandler.NotEnoughArguments | 03/homework/api.py:264-270 | valid score arguments without a fully present pair get 422 "Not enough arguments" |
| ApiHandler.OnlineScoreAnswer | 03/homework/api.py:272-279 | a scored request gets 200; `ctx["has"]` lists exactly the present argument keys, nothing else in the context changes, and the admin gets score 42 |
| ApiHandler.ClientsInterestsAnswer | 03/homework/api.py:281-288 | a valid request gets 200; `ctx["nclients"]` is the number of ids, and the answer maps each `str(id)` to that client's interests and nothing else |
| LogFiles.MatchLogName | 01/src/log_analyzer/analyzer.py:18 | a match yields an 8-digit stamp from a name that starts with `nginx-access-ui.log-` |
| LogFiles.LogNameMatches | 01/src/log_analyzer/analyzer.py:18 | both the plain and the `.gz` names of a stamp match and give back that stamp |
| LogFiles.MatchedNameShape | 01/src/log_analyzer/analyzer.py:18 | every matching name is a log name, optionally `.gz`, optionally followed by one newline (`$`) |
| LogFiles.OtherEndingRefused | 01/src/log_analyzer/analyzer.py:18 | any other ending after the stamp is refused |
| LogFiles.Bz2Refused | 01/src/log_analyzer/analyzer.py:18 | a `.bz2` name is refused |
| LogFiles.ParseDate | 01/src/log_analyzer/analyzer.py:129 | `strptime("%Y%m%d")` succeeds exactly for a valid calendar date, and raises ValueError otherwise |
| LogFiles.StampValue | 01/src/log_analyzer/analyzer.py:129 | the stamp read as a number is year·10^4 + month·100 + day |
| LogFiles.LaterStampLaterDate | 01/src/log_analyzer/analyzer.py:129-131 | of two valid stamps, the later date is the larger number |
| LogFiles.FindLatestLog | 01/src/log_analyzer/analyzer.py:118-133 | a missing directory gives None; otherwise the loop gives what the specification gives |
| LogFiles.Consider | 01/src/log_analyzer/analyzer.py:124-132 | one step fails exactly on a matching regular file with an impossible date; it never drops the best log so far; a changed best is the entry looked at, a log, whose gzip flag tells whether its name ends in `.gz` |
| LogFiles.Latest | 01/src/log_analyzer/analyzer.py:123-133 | the chosen log's gzip flag tells whether its name ends in `.gz` (`LogFiles.LatestIsNewest`, `LogFiles.NoneIffNoLog` and `LogFiles.FailsIffBadStamp` state the rest) |
| LogFiles.NoneIffNoLog | 01/src/log_analyzer/analyzer.py:123-133 | None exactly when no regular file has a matching name |
| LogFiles.FailsIffBadStamp | 01/src/log_analyzer/analyzer.py:129 | the search raises exactly when some matching regular file has an impossible date |
| LogFiles.FailureSticks | 01/src/log_analyzer/analyzer.py:129 | after a failed date, the rest of the listing does not matter |
| LogFiles.BeforeOrder | 01/src/log_analyzer/analyzer.py:131 | datetime `<` on dates is a strict total order |
| LogFiles.ConsiderPicks | 01/src/log_analyzer/analyzer.py:131-132 | a step that changes the best log takes the entry it looked at, which is newer |
| LogFiles.FirstLogChosen | 01/src/log_analyzer/analyzer.py:131-132 | the first log seen becomes the best |
| LogFiles.NewerLogChosen | 01/src/log_analyzer/analyzer.py:131-132 | a strictly newer log replaces the best so far |
| LogFiles.OlderLogSkipped | 01/src/log_analyzer/analyzer.py:131 | a log that is not newer leaves the best in place, so the first of equal dates wins |
| LogFiles.LatestIsNewest | 01/src/log_analyzer/analyzer.py:118-133 | the chosen file is a log with its date and gzip flag, no log is newer, and every log before it is strictly older |
| LogStats.DecimalValue | 01/src/log_analyzer/analyzer.py:144 | `float` of a captured time is never negative |
| LogStats.ParseLogLines | 01/src/log_analyzer/analyzer.py:136-148 | one result per line; None exactly when the line does not match, otherwise the URL and a non-negative time |
| LogStats.MaxOr0 | 01/src/log_analyzer/analyzer.py:175 | `time_max` is at least 0 and every time, and equals one of the times when there is one |
| LogStats.AggregateStats | 01/src/log_analyzer/analyzer.py:151-194 | the result is None exactly when the log is empty or the error share exceeds the threshold. Otherwise each URL has one bucket, in first-seen order, holding its count, sum, maximum and times; total is the line count and total_time the sum of all times |
| LogStats.AddTime | 01/src/log_analyzer/analyzer.py:170-176 | `setdefault`, then the four updates: only that URL's bucket changes, and a new URL goes last |
| LogStats.StatsStep | 01/src/log_analyzer/analyzer.py:163-176 | one more line keeps the table equal to the buckets of the lines read so far |
| LogStats.UrlsDistinct | 01/src/log_analyzer/analyzer.py:170 | each URL has one bucket |
| LogStats.DecimalOfParts | 01/src/log_analyzer/analyzer.py:144 | a time written as digits, a point and digits has the value they spell |
| LogStats.AllBadLinesRejected | 01/src/log_analyzer/analyzer.py:178-192 | a non-empty log in which no line parses yields None for any threshold below 1 |
| LogStats.BucketCountsAddUp | 01/src/log_analyzer/analyzer.py:164-176 | the bucket counts add up to total − errors |
| LogReport.RowOf | 01/src/log_analyzer/analyzer.py:205-220 | a row copies its URL and its bucket's count, sum and maximum; its average times its count is its sum, its count share times the total count is its count times 100 and its time share times the total time is its sum times 100; an empty bucket has average 0, and a zero total count or time gives share 0 |
| LogReport.RowsOf | 01/src/log_analyzer/analyzer.py:203-220 | one row per URL, in table order |
| LogReport.SortDesc | 01/src/log_analyzer/analyzer.py:222 | the sort gives a permutation ordered by non-increasing `time_sum` |
| LogReport.SortStable | 01/src/log_analyzer/analyzer.py:222 | the sort is stable: rows with equal `time_sum` keep their order |
| LogReport.Head | 01/src/log_analyzer/analyzer.py:223 | `rows[:n]` is a prefix of length n clamped to the list, counting from the end when n is negative |
| LogReport.BuildReportRows | 01/src/log_analyzer/analyzer.py:197-223 | the loop builds the rows, sorts them and slices them as specified |
| LogReport.ReportRowsShape | 01/src/log_analyzer/analyzer.py:197-223 | at most `report_size` rows, sorted, each copying a bucket; with room for every row, every row is there |
| LogReport.InsertDistinct | 01/src/log_analyzer/analyzer.py:222 | inserting a row whose URL is new into rows with distinct URLs keeps them distinct |
| LogReport.SortDescDistinct | 01/src/log_analyzer/analyzer.py:222 | sorting rows by `time_sum` keeps URLs that were distinct distinct |
| LogReport.ReportRowsDistinct | 01/src/log_analyzer/analyzer.py:197-223 | when the bucket table has one entry per URL, as a dict does, the report has at most one row per URL |
| LogReport.FirstRowIsSlowest | 01/src/log_analyzer/analyzer.py:222-223 | the first row has the largest `time_sum` of all buckets |
| LogConfig.LoadConfig | 01/src/log_analyzer/analyzer.py:99-115 | FileNotFoundError exactly for a missing file; ValueError exactly for bad JSON or a non-object; otherwise every default and loaded key, with the loaded value winning |
| LogConfig.Lookup | 01/src/log_analyzer/analyzer.py:78-96 | `config[key]` gives the stored value, or KeyError exactly when the key is missing |
| LogConfig.GetInt | 01/src/log_analyzer/analyzer.py:78-82 | accepted exactly for a non-bool int; ValueError for another value, KeyError for a missing key |
| LogConfig.GetFloat | 01/src/log_analyzer/analyzer.py:85-89 | accepted exactly for a non-bool int or float, returned as its exact real value; otherwise ValueError or KeyError |
| LogConfig.GetStr | 01/src/log_analyzer/analyzer.py:92-96 | accepted exactly for a string; otherwise ValueError or KeyError |
| LogConfig.BoolRefused | 01/src/log_analyzer/analyzer.py:78-89 | a bool setting is refused by every getter |
| LogConfig.LoadedOverridesDefault | 01/src/log_analyzer/analyzer.py:112-115 | a default key survives the merge, and a getter reads the loaded value when there is one, else the default |
| KeyValueStore.UsedFrom | 04/homework/store.py:24-33 | the attempts stop at the first success or at the last retry, and every earlier attempt failed |
| KeyValueStore.Used | 04/homework/store.py:24 | at most `retries` attempts, and none when `retries <= 0` |
| KeyValueStore.Outcome | 04/homework/store.py:23-36 | `_call` gives the answer of the last attempt made, or RuntimeError when there was no attempt |
| KeyValueStore.UsedIsFirst | 04/homework/store.py:29-33 | the number of attempts is the first success plus one, or all the retries |
| KeyValueStore.SucceedsIff | 04/homework/store.py:29-36 | `_call` returns exactly when some attempt within the retries returns |
| KeyValueStore.FirstAnswerReturned | 04/homework/store.py:29-30 | on success the answer is that of the first attempt that returned |
| KeyValueStore.LastErrorReraised | 04/homework/store.py:31-35 | when every attempt raises, the last exception is re-raised |
| KeyValueStore.FlakyClientRecovers | 04/homework/store.py:23-33 | one failure and then a success, with two retries, returns the success |
| KeyValueStore.FlakyClientGivesUp | 04/homework/store.py:23-35 | two failures with two retries raise the second error |
| KeyValueStore.Store.constructor | 04/homework/store.py:14-18 | a new store has no client |
| KeyValueStore.Store.Connect | 04/homework/store.py:20-21 | `_connect` calls the factory once and installs a client |
| KeyValueStore.Store.Call | 04/homework/store.py:23-36 | returns `Outcome` after exactly `Used` attempts. The factory is called before every attempt except a first one that finds a client. The client is kept after a success and dropped after a failure |
| KeyValueStore.Store.Get | 04/homework/store.py:38-39 | `get` is the client's `get` with retries: the result, the attempts and connects, and a client kept after a success and dropped after a failure, as for `_call` |
| KeyValueStore.Store.CacheGet | 04/homework/store.py:41-42 | `cache_get` is the same client `get`, with the same result, attempts, connects and kept or dropped client as `get` |
| KeyValueStore.Store.CacheSet | 04/homework/store.py:44-45 | `cache_set` is the client's `set` with retries: the result, the attempts and connects, and a client kept after a success and dropped after a failure |
| KeyValueStore.Lookup | 04/homework/store.py:5-6 | `dict.get` gives the stored value, or None for a missing key |
| KeyValueStore.Respond | 04/homework/store.py:5-10 | the in-memory client answers the stored value to `get` and True to `set` |
| KeyValueStore.Apply | 04/homework/store.py:8-10 | `set` stores the value under its key and changes no other key |
| KeyValueStore.InMemoryClient.constructor | 04/homework/store.py:2-3 | a new client holds nothing |
| KeyValueStore.InMemoryClient.Get | 04/homework/store.py:5-6 | `get` answers as `Respond` says, without a change |
| KeyValueStore.InMemoryClient.Set | 04/homework/store.py:8-10 | `set` answers True and stores the value |
| KeyValueStore.SetThenGet | 04/homework/store.py:5-10 | a get after a set of the same key gives the value set; other keys are as before |
| KeyValueStore.ReliableClientOneAttempt | 04/homework/store.py:23-30 | a client that never raises is called once, and its answer is returned |
| Settings.GetBool | 07/config/settings.py:9-11 | an unset variable gives the default |
| Settings.GetBoolIff | 07/config/settings.py:9-12 | a set variable is true exactly when it is `1`, `true`, `yes` or `on`, in any ASCII case, with whitespace around it |
| Settings.StripLowerIn | 07/config/settings.py:12 | `strip().lower() in words` holds exactly when the value is a word, up to case, padded with whitespace |
| Settings.StripPadded | 07/config/settings.py:9-18 | `strip` removes exactly the padding around a word |
| Settings.NonEmptyStripped | 07/config/settings.py:18 | every kept item is non-empty and stripped (its membership is stated by `Settings.NonEmptyStrippedMembers`) |
| Settings.SplitCsv | 07/config/settings.py:15-18 | an unset or empty variable gives the default; otherwise every item is non-empty, stripped and free of commas |
| Settings.NonEmptyStrippedMember | 07/config/settings.py:18 | a string is kept exactly when it is non-empty and is the stripped form of one of the pieces |
| Settings.NonEmptyStrippedMembers | 07/config/settings.py:18 | the kept items are exactly the non-empty stripped pieces |
| Settings.SplitCsvMembers | 07/config/settings.py:15-18 | for a set, non-empty variable the items are exactly the comma-separated pieces that are non-empty once stripped, each stripped |
| Settings.SplitJoin | 07/config/settings.py:18 | comma-free items joined with commas split back into those items |
| Settings.SplitCsvJoin | 07/config/settings.py:15-18 | `_split_csv` inverts `",".join` on non-empty, stripped, comma-free items |
| Settings.ReplaceFirst | 07/config/settings.py:25 | `replace(old, new, 1)` leaves a string without `old` unchanged |
| Settings.PortText | 07/config/settings.py:36 | `str(port or "")` is empty for no port and for port 0, else the decimal port |
| Settings.ParseDatabaseUrl | 07/config/settings.py:21-37 | a `sqlite:///` URL gives sqlite exactly. Another scheme that is not postgres or postgresql raises ValueError naming it. A postgres URL gives NAME without leading `/`, USER, PASSWORD and HOST or `""`, and PORT as `str(port or "")`; a port that cannot be read raises its ValueError |
| Settings.SqliteName | 07/config/settings.py:22-26 | a sqlite URL's NAME is everything after the prefix |
| Settings.PostgresAccepted | 07/config/settings.py:27-37 | a postgres URL with a readable port always gives the postgresql engine, with a name that does not start with `/` |
| WarehouseModels.NewProduct | 05/homework_warehouse_management/domain/models.py:11-17 | a product is built exactly when the name is non-empty and quantity and price are non-negative; otherwise ValueError with the message of the first failed check |
| WarehouseModels.SumPrices | 05/homework_warehouse_management/domain/models.py:27-28 | the sum of prices is never negative, and 0 for no products |
| WarehouseModels.SumPricesAppend | 05/homework_warehouse_management/domain/models.py:24-28 | appending a product adds exactly its price to the total |
| WarehouseModels.PriceBelowTotal | 05/homework_warehouse_management/domain/models.py:27-28 | no product costs more than the total |
| WarehouseModels.Order.Empty | 05/homework_warehouse_management/domain/models.py:20-22 | an order made without products has an empty product list |
| WarehouseModels.Order.constructor | 05/homework_warehouse_management/domain/models.py:20-22 | an order holds the id and products it was given |
| WarehouseModels.Order.AddProduct | 05/homework_warehouse_management/domain/models.py:24-25 | the product goes last, earlier products and the id stay, and the total rises by exactly its price |
| WarehouseModels.Order.TotalPrice | 05/homework_warehouse_management/domain/models.py:27-28 | the total is never negative, is 0 for an empty order, and is at least each product's price |
| WarehouseServices.ProductRepository.constructor | 05/homework_warehouse_management/tests/test_domain/test_services.py:9-11 | a new repository is empty and numbers from 1 |
| WarehouseServices.ProductRepository.Add | 05/homework_warehouse_management/tests/test_domain/test_services.py:13-17 | the product gets the next id and is stored last, and the numbering 1, 2, 3, … is kept |
| WarehouseServices.ProductRepository.Get | 05/homework_warehouse_management/tests/test_domain/test_services.py:19-20 | the first product with the id, or StopIteration exactly when there is none; in a numbered repository id k is the k-th product added |
| WarehouseServices.ProductRepository.List | 05/homework_warehouse_management/tests/test_domain/test_services.py:22-23 | the stored products in insertion order |
| WarehouseServices.OrderRepository.constructor | 05/homework_warehouse_management/tests/test_domain/test_services.py:27-29 | a new repository is empty and numbers from 1 |
| WarehouseServices.OrderRepository.Add | 05/homework_warehouse_management/tests/test_domain/test_services.py:31-35 | the order object gets the next id and is stored last, and adding an order not yet stored keeps the numbering |
| WarehouseServices.OrderRepository.Get | 05/homework_warehouse_management/tests/test_domain/test_services.py:37-38 | the first order with the id, or StopIteration exactly when there is none; in a numbered repository id k is the k-th order added |
| WarehouseServices.OrderRepository.List | 05/homework_warehouse_management/tests/test_domain/test_services.py:40-41 | the stored orders in insertion order |
| WarehouseServices.WarehouseService.constructor | 05/homework_warehouse_management/domain/services.py:6-8 | the service keeps the two repositories |
| WarehouseServices.WarehouseService.CreateProduct | 05/homework_warehouse_management/domain/services.py:10-12 | an invalid product raises before the repository is touched; a valid one is stored with the repository's next id and returned |
| WarehouseServices.WarehouseService.CreateOrder | 05/homework_warehouse_management/domain/services.py:14-18 | an empty list raises ValueError and leaves the repository untouched; otherwise a new order holding exactly those products is stored with the next id and returned |
| WarehouseServices.ProductThenOrder | 05/homework_warehouse_management/domain/services.py:10-18 | on fresh repositories a valid product gets id 1 and an order of it gets id 1 holding exactly that product; an invalid product creates no order |

## Left out

- Sockets, the accept loop, `ThreadPoolExecutor`, `serve`, `main`/argparse, the `DEBUG` flag and `debug` printing (06/homework/httpd.py:48-50 and 184-220). These are I/O and concurrency. A connection is modelled as the sequence of what `recv` delivers or a timeout.
- The `Date` header value and `mimetypes.guess_type` (06/homework/httpd.py:40-45 and 126-136). They are parameters: the clock and the platform's MIME table are outside the model.
- `Path.resolve` is modelled lexically over a map from paths to files and directories. Symbolic links and `stat` errors are not modelled.
- `HttpPath.PercentDecode`: decodes each `%XX` to the character with that code. `urllib.parse.unquote` decodes UTF-8 sequences and replaces invalid ones; that is not modelled.
- `handle_client` swallows exceptions from file reads (06/homework/httpd.py:178-179). File reads do not fail in the model.
- `MainHTTPHandler`, `do_POST`, logging and the server entry point of the scoring API (03/homework/api.py:293-350). These are HTTP and JSON plumbing.
- `ApiHandler.MethodHandler`: takes the body as a JSON object. `request.get("body") or {}` on a body that is not a dict is not modelled.
- `ApiHandler.MethodHandler`: the 500 that `do_POST` gives for other exceptions escaping `method_handler` is not modelled, because their sources are oracles that cannot raise here. These are the `OverflowError` of `BirthDayField.clean` for a birthday late enough that adding 70 years passes year 9999 (03/homework/api.py:122-125; `_validate` catches only ValueError), and any exception from `get_score` or `get_interests`, such as the store's re-raised error. So its "500 exactly on a null login" holds only of the model.
- `check_auth` (03/homework/api.py:241-247): the digest comparison is an oracle. It needs SHA-512 and the wall clock. Its one failure that does not depend on them, the `TypeError` of concatenating a null login, is modelled.
- The `scoring` module, behind `get_score` and `get_interests`, is not part of this model. Both are oracles.
- `ApiFields.CleanDate`, `ApiFields.CleanBirthDay`: the `%d.%m.%Y` parse and the 70-year check against `today()` are oracles. The cleaned value is kept as the string, not a `datetime`.
- `Text.IsDigit`, `Text.Lower`: ASCII only. `str.isdigit` and `\d` also accept other Unicode digits. For `_get_bool`, ASCII `lower` matches Python, because no other character lowers to a letter of `true`, `yes` or `on`.
- `LogFiles.ParseDate`: only the success/ValueError split is modelled, not the text of strptime's message.
- The log line regex `LOG_LINE_RE` (01/src/log_analyzer/analyzer.py:19-21) is an oracle. It is assumed to capture times of the form `\d+(\.\d+)?`; the model holds only that shape.
- `LogStats.DecimalValue`: exact reals. Float rounding of `float()` and of the sums is not modelled.
- `LogStats.AggregateStats`: the error ratio `errors / total` and its comparison with the threshold (01/src/log_analyzer/analyzer.py:182-183) are exact rational arithmetic, not doubles. A ratio and a threshold that differ by less than the rounding, such as 1/3 against 0.3333333333333333, can fall on the other side of the gate.
- `LogConfig.GetFloat`: `float(value)` of an int is its exact value. The rounding of ints above 2^53 and the OverflowError for ints too large for a double (01/src/log_analyzer/analyzer.py:89) are not modelled.
- `LogReport.RowOf`: the `time_med` column (`statistics.median`) is not modelled; shares and averages are exact reals, not rounded floats.
- Logging, gzip and file opening, `render_report`, `ensure_tablesorter` and `analyze_log` (01/src/log_analyzer/analyzer.py:31-56 and 226-279) are I/O and orchestration.
- 01/src/log_analyzer/cli.py and 01/log_analyzer.py are argparse and `sys.path` glue.
- `LogConfig.LoadConfig`: the file read and `json.loads` are abstracted into the file's three possible states.
- `KeyValueStore.Store.Call`: the client object, the factory and the `timeout` argument are not modelled. What each attempt returns or raises is an oracle; the contracts count connections and attempts instead. `_connect()` runs outside the `try` (04/homework/store.py:26-27), so a factory that raises leaves `_call` at once without a retry; the model's `Store.Connect` cannot fail, and that path is not modelled.
- The module-level Django settings and `os.getenv` reads (07/config/settings.py:40-159) are configuration constants.
- `Settings.ParseDatabaseUrl`: `urlparse` is an oracle that returns the URL's components, including the result of reading `.port`.
- `WarehouseModels.SumPrices`: prices are exact reals, not floats.
- `WarehouseModels.Order.constructor`: Python keeps the caller's list object. The model copies the list as a value, so aliasing between an order and its creator is not modelled.
- `WarehouseServices.ProductRepository.Add`: Python sets `product.id` on the caller's own object and stores that same object (05/homework_warehouse_management/tests/test_domain/test_services.py:13-17). The model's `Product` is a value: the repository stores a copy with the new id, and the caller's value keeps its old id. So sharing is not modelled: a product added twice, or one already held by an order, does not see its id change everywhere.
- The abstract repository interfaces, the unit of work, the SQLAlchemy infrastructure and the entry point (05/homework_warehouse_management/domain/repositories.py, domain/unit_of_work.py, infrastructure/ and main.py) are not modelled. The in-memory repositories of the tests stand in for them.
