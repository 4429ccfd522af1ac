# Verification of the chat room servers

This project models the parts of the chat room system whose correctness is hardest to see, and proves
what they promise:

- **cJSON** (`lib/cjson/cJSON.c`), through which every request and response passes: the parser, the
  printer, minifying, duplicating and comparing.
- **The load balancer** (`load_balancer/src/proxy.rs`) and the heartbeat daemons of the logic server
  and the data server: how a server identifies itself, stays up, goes down and is chosen.
- **The data server's chat tables** (`data_server/`): who is in a chat, who administers it, which
  message is its last.
- **The two-step login** of the logic server against the data server.
- **The linked queue** (`lib/queue/queue.c`).

## How it is organised

| module | what it holds |
|---|---|
| `Options` | a value that may be missing |
| `JsonTree`, `JsonNumbers`, `JsonStrings` | values, byte constants and limits; number text; the two scans of a string |
| `JsonParser`, `JsonParseBuffer` | the parser as functions of buffer, offset and depth; the cursor machine that follows them and links the items it reads |
| `JsonGrammar` | JSON texts as syntax trees (RFC 8259), and that each is parsed as what it means |
| `JsonAccepted` | the language the parser accepts, with everything beyond RFC 8259 that it lets through |
| `JsonRender`, `JsonPrintBuffer` | the two printed forms; the growing print buffer that writes them |
| `JsonRoundTrip` | parsing undoes printing |
| `JsonMinify`, `JsonMinifyPrint` | Minify in place; what it does to the two printed forms |
| `SiblingList`, `JsonItems`, `JsonTreeEdits` | child lists on the heap; trees of items, duplicating and comparing them; editing them |
| `JsonCompare` | what comparing means |
| `HeartbeatProxy`, `HeartbeatDaemons` | the proxy's table and its round robin; the daemons of the servers |
| `HeartbeatProtocol` | the protocol as a transition system: safety and staleness in every run |
| `HeartbeatLiveness`, `HeartbeatRecovery` | self-stabilisation in runs fair to one server, and in runs fair to all |
| `HeartbeatUptime` | which servers are kept up, in both kinds of runs |
| `ChatTables`, `ChatInvariants`, `ChatEffects`, `ChatStore` | the tables and requests; what runs of requests keep; what each request does row by row; the handlers |
| `LoginProtocol` | the session, the two queries, and who gets a token |
| `LinkedQueue` | the queue on the heap and as a sequence |

Code that works step by step is a method on the state it changes (`ParseBuffer`, `PrintBuffer`,
`Item`, `Queue`, `ReverseProxy`, `LogicDaemon`, `DataDaemon`, `Store`, `LogicSession`, and Minify on an
array), proved against functions of the old state; the theorems are about those functions and about
runs of them. Where a method has the same branches as such a function (the handlers of `LogicSession`, the
single statements of `Store`) it is a refinement that ties the theorems to the code, not a result of its own.
`dafny verify dfyconfig.toml` checks everything.

## Where a claim holds only under a condition

Each of these is stated with its exact condition, or with the input that breaks it.

- **Round trip.** Printing and parsing give a tree back if and only if it nests at most 1000 levels; a deeper
  one is printed, and its print is refused (`RoundTrip`).
- **Every JSON text is parsed.** With the demand for a terminator, a document is parsed as the tree it means
  if and only if that nests at most 1000 levels and every number text has at most 63 bytes, and is refused
  otherwise. Without that demand the same holds, but for a document that is a single longer number: the value
  of its first 63 bytes is returned (`ParsesDocument`). A document that holds NUL is passed with its length;
  for one without NUL this is cJSON_ParseWithOpts, which measures it with strlen. parse_number ends where the
  number text ends if and only if that has at most 63 bytes, whatever its sign, fraction and exponent
  (`NumberEndsExactly`).
- **What else is parsed.** A text is parsed as a tree if and only if the tree nests at most 1000 levels and the
  text is, after an optional byte order mark, blanks, a spelling of the tree and then blanks, or then anything
  at all where the end is not demanded (`AcceptsExactly`). Spellings are looser than RFC 8259: any byte up to
  the space is a blank, a number may lack the digits on one side of its point and may start with zeros, though
  it starts with a minus sign or a digit and has at most 63 bytes, and a string is whatever its two scans accept.
  At any position parse_value reads a value if and only if it is spelled there, fits the nesting limit and, if it
  is a number, no longer number is (`ReadsExactly`).
- **The two scans of parse_string** can disagree about where escapes begin (`ScansOutOfStep`); the output
  still never needs more than was allocated (`SecondScanFits`). A well-formed body is exactly one that is
  decoded and in which every `\u` that the first scan meets is followed by four hexadecimal digits
  (`AcceptsExactlyWellFormed`): the ill-formed strings that are accepted are the decoded ones without those
  digits.
- **Printing into a caller's buffer.** `lib/cjson/cJSON.h:197-198` advises five bytes more than needed. One
  byte beyond the text and its terminator is enough, and without it printing fails (`PrintPreallocated`).
- **Minify** turns the formatted print into the unformatted one if and only if no string ends in a
  backslash, unless only closing brackets follow that string (`MinifiesFormatted`). A backslash right before
  a closing quote makes minify_string miss the quote.
- **Compare** is equality of values with objects read as maps if and only if no object repeats a key with
  another meaning (`SameIsEqualMeaning`). A tree that does is not even equal to its own duplicate, though
  comparing an item with itself succeeds by identity (`Compare`, `CompareWithDuplicate`). It is symmetric on all
  trees (`SameIsSymmetric`). On the trees with numbers from any given set it is transitive if and only if the
  tolerance of numbers is transitive on that set (`TransitiveExactly`), as it is on the ints
  (`SameIsTransitive`) and not on all numbers (`ToleranceIsNotTransitive`).
- **Self-stabilisation** of the heartbeat protocol, with distinct configured pairs and sockets and each pair
  announced from its own server's socket only. If fairness is owed to one server alone, and all other daemons
  may stay silent, that server recovers from exactly the states in which no other entry can keep its OKs for
  good (`HealsExactly`). If all daemons keep sending, it recovers from exactly the states in which it is in no
  ring of stuck servers whose entries claim each other's sockets (`HealsWithAllExactly`); two servers that send
  OK under each other's entry are the smallest such ring (`SwappedIsLocked`) and never recover
  (`SwappedNeverHeals`).
  After a restart of the proxy every state recovers (`RestartHeals`).
- **Being settled is not being up.** An OK refreshes the first entry with the sender's socket. A settled server
  whose OKs all refresh another entry is never up (`ClaimedServerStaysDown`, in Ld); it is up after every point
  of a run if and only if the claims in front of its entry are gone at some point (`SettledServerComesUp`,
  `FreshIsUp`). All runs fair to that one server keep it fresh if and only if the state is curable and no entry in
  front of its own has its socket (`StaysFreshExactly`); all runs fair to every server do if and only if it is
  in no locked ring (`StaysFreshWithAllExactly`).
- **AUTH** is never sent to a server before the proxy restarts if and only if its daemon starts announcing and
  restarts announcing (`NeverRefusedExactly`). A logic server's daemon does; data_server/heartbeat_manager.c never
  sets auth_done, so a data server may send OK first and be refused. Identification safety is claimed for daemons
  of the first kind, with the others free to do as they like (`IdentificationSafety`, `NextIsSafe`).
- **Staying up.** In a run without a proxy restart, an identified server that is up stays up at every point if
  and only if at every sweep its last OK was handled no longer than the timeout ago (`TimelyServerStaysUp`). In
  Fl, an up server without any OK yet has no such OK to be judged by.
- **Round robin** is fair over every window of selections from an unchanged table, wraps of the counter included,
  if and only if no server is up or the number of servers that are up divides the counter's range
  (`AlwaysFairExactly`). Otherwise, with a remainder of r, the r + 1 selections around the wrap choose the first
  up server twice (`UnfairWindow`). Windows without a wrap are always fair (`RoundRobinFair`).
- **The staleness bound** holds in every run if and only if the variant is Ld (`BoundedExactly`). An Fl server
  that announces itself and then falls silent stays up for any time (`SilentServerIsUp`), because only a
  handled OK sets the time that the sweep looks at. In both variants a server that is up is identified, and
  right after a sweep it meets the bound if and only if it has had a heartbeat (`SweptBound`).
- **EXIT_CHAT** deletes a chat with one participant whoever asks, also for a user who is not in it
  (`ExitDeletesLoneChat`). A created chat gets an admin if and only if its creator is a user (`CreateGoverns`).
- **Who may ask the database.** A client's message is forwarded if and only if it is complete, no ping, and a
  login, a registration or accompanied by a valid token (`ClientStepExactly`), and in every run nothing else is
  ever asked, but for the second query of a login (`QueriesAreAuthorised`).
- **Login.** A token is for a row of the key, after a password was proven for a row of the key
  (`LoginSoundness`). Every token for a key goes to a user whose own password was given if and only if the
  key is safe: whichever of its rows the two queries return, the second is not the system user's if the first
  is not, and some row of the key with the second one's id has the first one's password (`FaithfulExactly`). A key
  with one row is safe (`UnambiguousIsSafe`). A user whose name is another user's email makes a key unsafe
  (`AmbiguousKeyMixesUsers`). A refused second query leaves a session that issues no further token
  (`RefusedInfoWedges`).

## Assumptions about the database

The schema is not part of the repository. The tables of `ChatTables` assume that (chat, user) is unique
among participants, that inserts need an existing chat and user, that ids are handed out in increasing
order, that deleting a chat deletes its participants and messages, that the clock does not go back, and
that statements fail for no other reason. A chat's creator exists and participant ids are numbers. A user is
only inserted with a name, an email and an id that are still free, and a select by key may return any
matching row first.

## Model

| member | source | states |
|---|---|---|
| JsonTree.TokensAre | lib/cjson/cJSON.c:1216-1270 | the tokens are the ASCII texts of RFC 8259, byte by byte |
| JsonTree.FoldsAlike | lib/cjson/cJSON.c:132-149 | keys compare equal if and only if they match byte by byte, up to the case of ASCII letters where that is ignored |
| JsonTree.ValueIntTruncates | lib/cjson/cJSON.c:339-348 | valueint is the number cut towards zero, and the nearest int for numbers beyond the ints |
| JsonTree.IntValuedIs | lib/cjson/cJSON.c:540-546 | the numbers printed as ints are exactly the whole numbers of an int's range |
| JsonStrings.Utf8IsShortestAndInvertible | lib/cjson/cJSON.c:659-697 | the encoding can be undone, is the shortest one that carries the code point, and has the lead and trail bytes of section 3 of RFC 3629 |
| JsonStrings.Utf8Examples | lib/cjson/cJSON.c:659-697 | the examples of section 7 of RFC 3629 are encoded as they are there |
| JsonStrings.HexTextReads | lib/cjson/cJSON.c:574-604 | four hexadecimal digits in either case are read as the number they write, the most significant digit first |
| JsonStrings.HexDigitsAre | lib/cjson/cJSON.c:574-604 | the hexadecimal digits are those of the two alphabets and no others |
| JsonStrings.CodePointMeans | lib/cjson/cJSON.c:608-704 | every code point written as escapes, a pair beyond 16 bits, is read as its UTF-8 encoding, except that the lone surrogates are ill-formed |
| JsonStrings.ReadsShortEscape | lib/cjson/cJSON.c:773-801 | parse_string reads an escape with a letter as the byte of the table in section 7 of RFC 8259, and refuses every letter that is not in it |
| JsonStrings.StepFits | lib/cjson/cJSON.c:758-806 | one step of the second scan, in or out of step with the first, writes no more than was charged for what it passes |
| JsonStrings.UnescapeFits | lib/cjson/cJSON.c:731-806 | so does the whole second scan, from any position and with anything written before |
| JsonStrings.SecondScanFits | lib/cjson/cJSON.c:719-806 | for every byte input, an accepted string needs at most the bytes the first scan counted |
| JsonStrings.ScansOutOfStep | lib/cjson/cJSON.c:731-806 | the scans do get out of step on some inputs |
| JsonStrings.PieceDecodes | lib/cjson/cJSON.c:608-704 | each well-formed unit of a string body is stepped over by the first scan and decoded to its meaning by the second, surrogate pairs as in section 2.2 of RFC 2781 |
| JsonStrings.BodyDecodes | lib/cjson/cJSON.c:719-806 | on every well-formed body the first scan finds the closing quote and the second yields the concatenated meanings |
| JsonStrings.StringDecodes | lib/cjson/cJSON.c:707-828 | parse_string on a quoted well-formed body gives the C string of its meaning and stops behind the quote |
| JsonStrings.AcceptedIsWellFormed | lib/cjson/cJSON.c:719-806 | what the second scan accepts, in step, is a well-formed body, which is returned, and it is decoded to its meaning |
| JsonStrings.BodyHexEscapes | lib/cjson/cJSON.c:719-738 | in a well-formed body every `\u` the first scan meets has its four digits, so the scans stay in step |
| JsonStrings.BodyCharged | lib/cjson/cJSON.c:719-751 | the first scan charges a well-formed body its length without the backslashes that start an escape |
| JsonStrings.AcceptsExactlyWellFormed | lib/cjson/cJSON.c:719-806 | for every closed string: a well-formed body stands there if and only if every `\u` has its four digits and the second scan accepts; lone surrogates are refused |
| JsonStrings.EscapedTextMeans | lib/cjson/cJSON.c:830-938 | the escaped text of any bytes is a well-formed body that means those bytes |
| JsonStrings.PrintedAs | lib/cjson/cJSON.c:896-930 | each byte of a string is printed, wherever it stands, as its two-character escape, as u00 and two lower-case digits if it is another control byte, and as itself otherwise |
| JsonStrings.QuotedRoundTrip | lib/cjson/cJSON.c:707-938 | parse_string undoes print_string_ptr on every NUL-free text, wherever it stands |
| JsonNumbers.ReadsIntText | lib/cjson/cJSON.c:330-353 | strtod reads the whole of a printed int, and its value |
| JsonNumbers.IntTextLength | lib/cjson/cJSON.c:512-571 | a printed int fits print_number's and parse_number's temporary buffers |
| JsonNumbers.IntTextIsCanonical | lib/cjson/cJSON.c:540-556 | it has a minus sign exactly for negative ints, only digits behind that, and no leading zero |
| JsonParser.ParseValue | lib/cjson/cJSON.c:1216-1270 | on every buffer a parsed value ends strictly behind its start and inside the buffer, nests within the limit left by the depth, and holds no NUL; a failure stops inside the buffer |
| JsonParser.ParseItems | lib/cjson/cJSON.c:1339-1424 | the same progress and depth guarantees for the rest of an array, through every backward step of the cursor |
| JsonParser.ParseMembers | lib/cjson/cJSON.c:1481-1585 | the same for the rest of an object |
| JsonParser.SkipBlanks | lib/cjson/cJSON.c:960-979 | skipping never leaves the buffer, and from inside it ends inside it |
| JsonParser.MarkIs | lib/cjson/cJSON.c:982-994 | the byte order mark is the encoding of U+FEFF |
| JsonParser.ParseBuffer | lib/cjson/cJSON.c:1014-1083 | every accepted tree nests at most 1000 levels and has only NUL-free strings |
| JsonParser.ReportedEnd | lib/cjson/cJSON.c:1061-1083 | the position reported to the caller is in the buffer, and an index of it on failure |
| JsonParseBuffer.EncodeUtf8 | lib/cjson/cJSON.c:659-698 | the loop that fills the bytes from the last to the first writes the UTF-8 encoding and nothing before it |
| JsonParseBuffer.ParseBuffer.SkipWhitespace | lib/cjson/cJSON.c:960-979 | the cursor ends where SkipBlanks says |
| JsonParseBuffer.ParseBuffer.CopyNumberText | lib/cjson/cJSON.c:298-328 | the copied characters are the number's run, at most 63 |
| JsonParseBuffer.ParseBuffer.ParseNumber | lib/cjson/cJSON.c:286-353 | value and cursor are those of the specification |
| JsonParseBuffer.ParseBuffer.ParseHex4 | lib/cjson/cJSON.c:574-604 | the value of four hexadecimal digits, and 0 for anything else |
| JsonParseBuffer.ParseBuffer.Utf16LiteralToUtf8 | lib/cjson/cJSON.c:608-704 | fails exactly where the specification does; otherwise consumes its length and writes its bytes, all in bounds |
| JsonParseBuffer.ParseBuffer.MeasureString | lib/cjson/cJSON.c:719-751 | finds the closing quote exactly when there is one; the size it computes is what the first scan charges plus one |
| JsonParseBuffer.ParseBuffer.ParseString | lib/cjson/cJSON.c:707-828 | both loops and the terminator stay inside the buffer and the output block, and give the specified string and cursor |
| JsonParseBuffer.ParseBuffer.WriteStep | lib/cjson/cJSON.c:758-800 | one turn of the second loop writes the bytes of one decoding step and moves past it |
| JsonParseBuffer.ParseBuffer.ParseValue | lib/cjson/cJSON.c:1216-1270 | the recursive machine terminates with the specified cursor and a new tree of items, well-formed at every level, that has the specified value; on success it restores the depth |
| JsonParseBuffer.ParseBuffer.ParseArray | lib/cjson/cJSON.c:1339-1424 | the same for an array, which is left with its elements as children |
| JsonParseBuffer.ParseBuffer.ParseElements | lib/cjson/cJSON.c:1368-1397 | the element loop, which steps back one byte before each element, reads what the specification reads and links a tree of each value behind the last |
| JsonParseBuffer.ParseBuffer.ParseObject | lib/cjson/cJSON.c:1481-1585 | the same for an object |
| JsonParseBuffer.ParseBuffer.ParseMembers | lib/cjson/cJSON.c:1509-1559 | the member loop likewise, with the key of each member on its item |
| JsonParseBuffer.ParseBuffer.ParseMember | lib/cjson/cJSON.c:1530-1557 | one key, colon and value, on one new item |
| JsonParseBuffer.ParseWithLengthOpts | lib/cjson/cJSON.c:1013-1083 | a new well-formed tree of the specified value, or nothing, and the reported end, for every text, with and without the demand for a terminator |
| JsonGrammar.NumberReads | lib/cjson/cJSON.c:330-353 | strtod reads every number text of RFC 8259 completely, as the place value of its digits on both sides of the point times the power of ten, and so every one that lacks the digits on one side |
| JsonGrammar.DigitsAreRead | lib/cjson/cJSON.c:298-353 | parse_number reads a run of digits as the sum of the digits times their powers of ten |
| JsonGrammar.NumberIsCut | lib/cjson/cJSON.c:298-353 | parse_number reads the first 63 bytes of any number text, with sign, fraction and exponent, as strtod reads them alone |
| JsonGrammar.NumberEndsExactly | lib/cjson/cJSON.c:298-353 | it ends at the end of the number text, with its value, if and only if that has at most 63 bytes; otherwise it stops in front of a byte of the number |
| JsonGrammar.ValueParses | lib/cjson/cJSON.c:1216-1270 | wherever a well-formed text stands, with any blanks and any spelling of strings and numbers, parse_value reads it as its meaning and stops right behind it if it fits the nesting limit and has no long number; otherwise it fails, or stops inside the number the text is |
| JsonGrammar.ItemsParse | lib/cjson/cJSON.c:1366-1409 | the element loop reads all items up to the bracket, from anywhere in the first item's blanks, or fails, on the same condition |
| JsonGrammar.MembersParse | lib/cjson/cJSON.c:1508-1570 | the member loop reads all members up to the brace, or fails, on the same condition |
| JsonGrammar.ParsesDocument | lib/cjson/cJSON.c:996-1083 | a document, with or without byte order mark, passed with its length, is parsed as the tree it means if that nests at most 1000 levels and its numbers have at most 63 bytes, and refused otherwise, but for a lone long number without the demand for a terminator |
| JsonAccepted.NumberExactly | lib/cjson/cJSON.c:286-353 | parse_number reads a value up to an end if and only if the bytes up to there are a number of at most 63 bytes with that value and no longer one starts there |
| JsonAccepted.StringExactly | lib/cjson/cJSON.c:707-828 | parse_string reads a text up to an end if and only if the bytes up to there, taken alone, are a string of that text |
| JsonAccepted.ReadIsSpelled | lib/cjson/cJSON.c:1216-1270 | whatever parse_value reads, in any buffer and at any depth, the bytes it passed spell that value: the converse of ValueParses |
| JsonAccepted.SpelledIsParsed | lib/cjson/cJSON.c:1216-1585 | wherever a value is spelled and the nesting limit leaves room for it, it is read |
| JsonAccepted.ReadsExactly | lib/cjson/cJSON.c:1216-1585 | the two together: parse_value reads a value up to an end if and only if the bytes up to there spell it, it fits the nesting limit and, if it is a number, no longer number stands there |
| JsonAccepted.SpelledMoves | lib/cjson/cJSON.c:1216-1585 | what bytes spell depends on those bytes alone, not on where they stand or what surrounds them |
| JsonAccepted.AcceptsExactly | lib/cjson/cJSON.c:996-1083 | a text is parsed as a tree if and only if the tree nests at most 1000 levels and the text is an optional byte order mark, blanks, a spelling of the tree and blanks; without the demand for the end anything may follow, but a number is taken as far as it goes |
| JsonAccepted.ReportsEnd | lib/cjson/cJSON.c:1053-1055 | of an accepted text the end of the value is reported, or the terminator where that was demanded |
| JsonAccepted.StopsBehindElement | lib/cjson/cJSON.c:1389-1402 | a wrong byte behind an array element is where parsing stops |
| JsonAccepted.StopsBehindKey | lib/cjson/cJSON.c:1537-1547 | a wrong byte behind a key is where parsing stops |
| JsonAccepted.StopsBehindMember | lib/cjson/cJSON.c:1548-1566 | and a wrong byte behind a member |
| JsonRoundTrip.SyntaxSpells | lib/cjson/cJSON.c:1273-1685 | either print of a tree is a well-formed JSON text that means the tree |
| JsonRoundTrip.RoundTrip | lib/cjson/cJSON.c:1160-1270 | parsing either print gives the tree back if it nests at most 1000 levels, and refuses the print otherwise |
| JsonRoundTrip.RenderInjective | lib/cjson/cJSON.c:1273-1336 | trees within the limit with the same print are the same |
| JsonRoundTrip.ReparsesPrint | lib/cjson/cJSON.c:1086-1166 | the print of any accepted tree with int numbers parses to the same tree |
| JsonRoundTrip.DeepArrays | lib/cjson/cJSON.c:1339-1346 | n opening brackets and n closing ones are parsed as n nested arrays if n is at most 1000, and refused otherwise |
| JsonRender.RenderStart | lib/cjson/cJSON.c:1273-1336 | no print starts with a blank, a closing bracket or a byte of a byte order mark |
| JsonRender.TwoElements | lib/cjson/cJSON.c:1427-1478 | the bytes around and between array elements in both prints |
| JsonRender.TwoMembers | lib/cjson/cJSON.c:1588-1685 | the bytes around and between object members in both prints: the formatted one has a line for each, indented by one tab per level |
| JsonRender.EmptyContainers | lib/cjson/cJSON.c:1427-1685 | the prints of an empty array and of an empty object |
| JsonPrintBuffer.RenderNulFree | lib/cjson/cJSON.c:1273-1336 | no print contains NUL, so strlen measures it |
| JsonPrintBuffer.PrintBuffer.Ensure | lib/cjson/cJSON.c:424-491 | grants the bytes exactly when they fit the limit (INT_MAX, or the caller's block), and keeps the bytes before the offset across a move |
| JsonPrintBuffer.PrintBuffer.Write | lib/cjson/cJSON.c:424-491 | bytes behind the offset are written exactly when granted, in bounds, and what was printed before stays |
| JsonPrintBuffer.PrintBuffer.UpdateOffset | lib/cjson/cJSON.c:495-503 | moves the offset to the terminator of the text just written, from anywhere inside it |
| JsonPrintBuffer.PrintBuffer.PrintNumber | lib/cjson/cJSON.c:512-571 | the number's text and terminator, exactly when they fit |
| JsonPrintBuffer.PrintBuffer.CountEscapes | lib/cjson/cJSON.c:847-871 | the first pass computes the length of the escaped text |
| JsonPrintBuffer.PrintBuffer.EscapeText | lib/cjson/cJSON.c:890-933 | the second pass writes the escaped text and touches at most one byte behind it |
| JsonPrintBuffer.PrintBuffer.PrintString | lib/cjson/cJSON.c:830-938 | the quoted text and its terminator, exactly when they fit |
| JsonPrintBuffer.PrintBuffer.PrintValue | lib/cjson/cJSON.c:1273-1336 | succeeds if and only if text, terminator and one spare byte fit; then old bytes, text and terminator stand in the block and the depth is restored |
| JsonPrintBuffer.PrintBuffer.PrintArray | lib/cjson/cJSON.c:1427-1478 | the same for arrays |
| JsonPrintBuffer.PrintBuffer.PrintObject | lib/cjson/cJSON.c:1588-1685 | the same for objects |
| JsonPrintBuffer.Print | lib/cjson/cJSON.c:1097-1157 | a fresh block with exactly the text and its terminator, if and only if they leave a spare byte below INT_MAX |
| JsonPrintBuffer.PrintPreallocated | lib/cjson/cJSON.c:1196-1213 | succeeds if and only if the block has one byte more than text and terminator |
| JsonMinify.MinifyString | lib/cjson/cJSON.c:2584-2603 | moves a string down verbatim; the write cursor never overtakes the read cursor |
| JsonMinify.Minify | lib/cjson/cJSON.c:2605-2644 | leaves in place exactly what the specification keeps, with a terminator, and nothing behind the text is touched |
| JsonMinify.DroppedExactly | lib/cjson/cJSON.c:2605-2644 | outside strings exactly the four blanks of RFC 8259 and slashes are dropped, with the comments they start |
| JsonMinify.LineCommentVanishes | lib/cjson/cJSON.c:2562-2571 | a comment to the end of the line vanishes with its newline, wherever it stands |
| JsonMinify.BlockCommentVanishes | lib/cjson/cJSON.c:2573-2582 | so does a comment up to the next closing mark |
| JsonMinify.OpenCommentVanishes | lib/cjson/cJSON.c:2562-2582 | an unfinished comment takes the rest of the text with it |
| JsonMinify.MinifyTwice | lib/cjson/cJSON.c:2584-2644 | minifying twice is minifying once, for every text |
| JsonMinifyPrint.QuotedScan | lib/cjson/cJSON.c:2584-2603 | minify_string ends at a printed string's own quote if and only if the text does not end in a backslash |
| JsonMinifyPrint.ValueBares | lib/cjson/cJSON.c:2605-2644 | without such strings, either print is minified to the unformatted one wherever it stands |
| JsonMinifyPrint.MinifiesPrint | lib/cjson/cJSON.c:2605-2644 | so Minify makes either print the unformatted one |
| JsonMinifyPrint.ValueSpoils | lib/cjson/cJSON.c:2584-2644 | with such a string the formatted print leaves the scan open, or leaves a blank where the unformatted print has a visible byte |
| JsonMinifyPrint.MinifiesFormatted | lib/cjson/cJSON.c:2584-2644 | Minify turns the formatted print into the unformatted one if and only if no string or key ends in a backslash, except one behind which only closing brackets follow |
| JsonMinifyPrint.FinalBackslashKeepsBlanks | lib/cjson/cJSON.c:2584-2603 | a concrete array that Minify does not reduce to its unformatted print |
| SiblingList.Item.AddItemToArray | lib/cjson/cJSON.c:1779-1829 | appends to the sequence and keeps the list well-formed; fails exactly for null and for the array itself |
| SiblingList.Item.GetArrayItem | lib/cjson/cJSON.c:1708-1722 | the item at the index, or null behind the end |
| SiblingList.Item.GetArraySize | lib/cjson/cJSON.c:1688-1706 | the length of the sequence |
| SiblingList.Item.GetObjectItem | lib/cjson/cJSON.c:1732-1760 | the item that the search by key means, in both case modes |
| SiblingList.NamedIsFirst | lib/cjson/cJSON.c:1732-1760 | the search finds the first child whose key matches, in ASCII case or without it, and null exactly when there is none; a child without a key is passed over where the case is ignored and ends the search where it is not |
| SiblingList.Item.InsertItemInArray | lib/cjson/cJSON.c:2090-2117 | inserts at the index, or appends behind the end, and keeps the list well-formed |
| SiblingList.Item.DetachItemViaPointer | lib/cjson/cJSON.c:2021-2050 | removes exactly that child, leaves it without links, and keeps the list well-formed |
| SiblingList.Item.DetachItemFromArray | lib/cjson/cJSON.c:2052-2059 | removes the child at the index, if there is one |
| SiblingList.Item.ReplaceItemViaPointer | lib/cjson/cJSON.c:2119-2160 | puts the replacement at the child's place; the old child has no links left |
| SiblingList.Item.ReplaceItemInArray | lib/cjson/cJSON.c:2162-2170 | the same by index |
| JsonTreeEdits.AddItem | lib/cjson/cJSON.c:1804-1834 | adding a tree to a tree gives a tree whose children's values are the old ones and the new one |
| JsonTreeEdits.InsertItem | lib/cjson/cJSON.c:2090-2117 | so does inserting, with the new value at its place and every other child's tree untouched |
| JsonTreeEdits.DetachItem | lib/cjson/cJSON.c:2021-2059 | detaching leaves a tree of the other values, and what comes off is a tree of its own value with nothing in common |
| JsonTreeEdits.ReplaceItem | lib/cjson/cJSON.c:2119-2170 | replacing puts the new value in the place of the old one |
| JsonItems.Append | lib/cjson/cJSON.c:2535-2545 | links a new child behind the last one; the list grows by its value and no sibling changes its own |
| JsonItems.Close | lib/cjson/cJSON.c:2548-2550 | the finished list is a well-formed tree of exactly the copied values |
| JsonItems.Duplicate | lib/cjson/cJSON.c:2483-2560 | a new tree that shares nothing with the old one, well-formed at every level and of the same value, if and only if the tree fits the depth limit |
| JsonItems.Compare | lib/cjson/cJSON.c:2725-2833 | true for one and the same item and for two trees whose values are the same; for no others if the trees share no item, or are int-numbered and repeat no key with another meaning |
| JsonItems.CompareWithDuplicate | lib/cjson/cJSON.c:2479-2833 | a duplicate compares equal to its original if and only if the tree is shallow enough and repeats no key with another meaning |
| JsonItems.NamedIsLookup | lib/cjson/cJSON.c:1732-1760 | the item found by key is the value found by key |
| JsonCompare.CloseToExactly | lib/cjson/cJSON.c:506-509 | two numbers are close if and only if they differ by at most 2^-52 of one of them |
| JsonCompare.IntsCloseOnlyIfEqual | lib/cjson/cJSON.c:506-509 | the tolerance of compare_double never confuses two ints |
| JsonCompare.SameIsEqualMeaning | lib/cjson/cJSON.c:2725-2833 | on int-numbered trees comparison is equality of meanings, with objects as maps, and false for every tree that repeats a key with another meaning |
| JsonCompare.SameIsSymmetric | lib/cjson/cJSON.c:2725-2833 | comparison is symmetric on all trees |
| JsonCompare.SameIsTransitive | lib/cjson/cJSON.c:2725-2833 | and transitive on int-numbered trees |
| JsonCompare.TransitiveExactly | lib/cjson/cJSON.c:506-509 | for every set of numbers: comparison is transitive on the trees with numbers from the set if and only if compare_double is on the set |
| JsonCompare.ToleranceIsNotTransitive | lib/cjson/cJSON.c:506-509 | three concrete numbers on which it is not |
| JsonCompare.CompareIsUnorderedEquality | lib/cjson/cJSON.c:2725-2833 | on trees with distinct keys it is equality up to the order of members |
| JsonCompare.DistinctIsCoherent | lib/cjson/cJSON.c:2798-2828 | distinct keys are enough for a tree to equal its duplicate |
| JsonCompare.ContradictoryKeyIsNotReflexive | lib/cjson/cJSON.c:2798-2828 | a concrete object whose value is not the same as itself |
| HeartbeatProxy.ReverseProxy.constructor | load_balancer/src/proxy.rs:104-123 | one entry per configured pair, in order, unidentified and down |
| HeartbeatProxy.ReverseProxy.HandleDatagram | load_balancer/src/proxy.rs:206-270 | table and reply after an OK, an address pair or anything else; Fl marks a server up when it identifies itself, Ld does not (lines 466-532) |
| HeartbeatProxy.ReverseProxy.CheckHeartbeatExpiry | load_balancer/src/proxy.rs:273-289 | every entry whose last heartbeat is older than the timeout is down, all others are as before |
| HeartbeatProxy.ReverseProxy.GetAvailableBackend | load_balancer/src/proxy.rs:291-299 | the chosen server and the counter, which moves only if some server is up |
| HeartbeatProxy.Available | load_balancer/src/proxy.rs:293-293 | exactly the positions of the servers that are up, in table order |
| HeartbeatProxy.WindowHits | load_balancer/src/proxy.rs:297-297 | any m consecutive counter values leave each remainder modulo n between m/n rounded down and rounded up times |
| HeartbeatProxy.RoundRobinFair | load_balancer/src/proxy.rs:291-299 | over m selections without a wrap of the counter each of the n servers that are up is chosen m/n times, rounded down or up, and no other server ever |
| HeartbeatProxy.AlwaysFairExactly | load_balancer/src/proxy.rs:291-299 | every window of selections is that fair, wraps of the counter included, if and only if nobody is up or the number of servers that are up divides the counter's range |
| HeartbeatProxy.UnfairWindow | load_balancer/src/proxy.rs:297-297 | with r counter values left over, the window of r + 1 selections around the wrap is not fair |
| HeartbeatDaemons.LogicDaemon.SendReports | logic_server/udp_lb_daemon.c:58-78 | once an interval has passed, one datagram to each client balancer and one to each database balancer, in turn, OK if that entry is in the OK state and the address pair otherwise; before that none |
| HeartbeatDaemons.ReportsReachAll | logic_server/udp_lb_daemon.c:63-76 | the reports of a round reach every balancer of both kinds exactly once, with the message for its state |
| HeartbeatDaemons.HearExactly | logic_server/udp_lb_daemon.c:89-108 | an entry is set by OK and AUTH from its own address and by nothing else |
| HeartbeatDaemons.LogicDaemon.OnDatagram | logic_server/udp_lb_daemon.c:80-112 | exactly the entries with the sender's address change, by the text |
| HeartbeatDaemons.DataDaemon.SendReports | data_server/heartbeat_manager.c:55-65 | to every load balancer, whatever auth_done held at the start |
| HeartbeatDaemons.DataDaemon.OnDatagram | data_server/heartbeat_manager.c:73-89 | the first entry with the sender's address hears the text, and no other entry does |
| HeartbeatProtocol.NextIsSafe | load_balancer/src/proxy.rs:212-252 | of all steps but a proxy restart, with loss, repetition, reordering, strangers and daemons that restart in any state, exactly one kind breaks the safety of a server: its own daemon restarts sending OK while it is not identified |
| HeartbeatProtocol.IdentificationSafety | load_balancer/src/proxy.rs:212-252 | a server whose own daemon starts and restarts announcing, in every run without a proxy restart: if it sends OK, or has an OK under way, it is identified; no AUTH is ever sent to it; each of its OKs refreshes its own entry only; all other daemons may start and restart in any state |
| HeartbeatProtocol.NeverRefusedExactly | data_server/heartbeat_manager.c:55-89 | over all runs without a proxy restart AUTH is never sent to a server if and only if its daemon starts announcing and only restarts announcing; a data server whose auth_done starts set is refused |
| HeartbeatProtocol.StalenessBound | load_balancer/src/proxy.rs:466-562 | in every run of Ld an up server is identified and its last heartbeat is no older than the timeout plus the time since the last sweep |
| HeartbeatProtocol.TimelyServerStaysUp | load_balancer/src/proxy.rs:535-562 | in every run without a proxy restart an identified server that is up stays up at every point if and only if at every sweep the last OK handled from it, if any, is no older than the timeout |
| HeartbeatProtocol.UpIsKnown | load_balancer/src/proxy.rs:206-270 | in every run from the start, restarts included, every up server is identified by its own socket |
| HeartbeatProtocol.BoundedExactly | load_balancer/src/proxy.rs:206-289 | of all configurations with a server, exactly those of Ld keep that bound in every run |
| HeartbeatProtocol.SilentServerIsUp | load_balancer/src/proxy.rs:236-289 | the run from the start that breaks it in Fl: announced, silent for any time, swept, and still up |
| HeartbeatProtocol.SweptBound | load_balancer/src/proxy.rs:206-289 | in every run of either variant an up server is identified, and right after a sweep it meets the bound if and only if it has had a heartbeat |
| HeartbeatProtocol.SilentFlServerStaysUp | load_balancer/src/proxy.rs:236-289 | in every run without a proxy restart a server that is up without a heartbeat and of which no OK is handled stays so |
| HeartbeatLiveness.RankStep | load_balancer/src/proxy.rs:206-270 | on a curable state no step without loss raises the rank, and the helpful step lowers it |
| HeartbeatLiveness.SelfStabilisation | load_balancer/src/proxy.rs:206-270 | from every curable table, daemon state and bag of datagrams, every run without loss that is fair to the server reaches a point from which the server stays identified and in the OK state |
| HeartbeatLiveness.MisledRuns | load_balancer/src/proxy.rs:212-228 | from every other state some run without loss that is fair to that one server, with all other daemons silent, never identifies it |
| HeartbeatLiveness.HealsExactly | load_balancer/src/proxy.rs:206-270 | all runs without loss that are fair to that one server settle it if and only if the state is curable |
| HeartbeatRecovery.HealsWithAllExactly | load_balancer/src/proxy.rs:206-270 | all runs without loss that are fair to every server settle server k if and only if k is in no locked ring: a set of servers, none of them curable, each claimed by the entry of another |
| HeartbeatRecovery.LockedNeverHeals | load_balancer/src/proxy.rs:212-228 | serving all servers in turn, which is fair to all, keeps a locked ring locked for ever |
| HeartbeatRecovery.StuckAreLocked | load_balancer/src/proxy.rs:206-270 | the servers that no point of a run fair to all finds curable form a locked ring at its start |
| HeartbeatRecovery.RingIsCyclic | load_balancer/src/proxy.rs:212-228 | in a locked ring each entry claims the socket of a member, so the claims go round in cycles |
| HeartbeatRecovery.SwappedIsLocked | load_balancer/src/proxy.rs:212-228 | two entries under each other's socket are such a ring |
| HeartbeatLiveness.RestartHeals | load_balancer/src/proxy.rs:104-123 | after a proxy restart every state recovers |
| HeartbeatUptime.SettledServerComesUp | load_balancer/src/proxy.rs:212-228 | in Fl and Ld, a server that is settled in a run fair to it has its entry refreshed by its OKs again and again if and only if the claims of its socket in front of its entry are gone at some point |
| HeartbeatUptime.FreshIsUp | load_balancer/src/proxy.rs:212-228 | then it is up after every point of the run, with a heartbeat of that moment |
| HeartbeatUptime.ClaimedServerStaysDown | load_balancer/src/proxy.rs:212-228 | otherwise it need not be: a run of Ld fair to a settled server in which it is never up |
| HeartbeatUptime.StaysFreshExactly | load_balancer/src/proxy.rs:206-270 | all runs without loss that are fair to that one server keep it fresh if and only if the state is curable and no entry in front of its own has its socket |
| HeartbeatUptime.StaysFreshWithAllExactly | load_balancer/src/proxy.rs:206-270 | all runs without loss that are fair to every server keep it fresh if and only if it is in no locked ring |
| HeartbeatLiveness.AnyRunIsHonest | load_balancer/src/proxy.rs:242-242 | from an honest table no run, restarts and losses included, gives an entry a foreign identifier |
| HeartbeatLiveness.SwappedNeverHeals | load_balancer/src/proxy.rs:212-228 | two entries under each other's socket, both servers sending OK, stay that way in every reliable run |
| ChatStore.Store.CreateChat | data_server/chat_manager.c:10-26 | refines the insertion of a chat: a new row under the next id |
| ChatStore.Store.AddToChat | data_server/chat_manager.c:28-45 | refines joining: succeeds exactly for an existing chat and user and a free seat |
| ChatStore.Store.SendMessage | data_server/chat_manager.c:47-78 | refines posting: the message under the next id, and the chat's last_message_id set to it |
| ChatStore.Store.PromoteParticipant | data_server/chat_manager.c:332-364 | some participant becomes an admin, exactly if there is one |
| ChatStore.Store.GetChats | data_server/chat_manager.c:80-143 | exactly the listed chats in the order of their ids, cut at MAX_CHATS |
| ChatStore.Store.AddUsers | data_server/data_server.c:156-170 | the loop does what adding one by one does, and counts the seats it took |
| ChatStore.Store.HandleCreateChat | data_server/data_server.c:120-186 | tables, response code and number of seats taken |
| ChatStore.Store.HandleAddToGroupChat | data_server/data_server.c:188-240 | tables and response code; the chat is not asked for its type or size |
| ChatStore.Store.HandleRemoveFromChat | data_server/data_server.c:422-471 | 403 exactly unless an admin asks for a group chat; otherwise the listed participants but the remover are gone |
| ChatStore.Store.HandleExitChat | data_server/data_server.c:473-530 | tables and response code, with an heir among those left when one is needed |
| ChatInvariants.HeirExists | data_server/data_server.c:508-517 | whenever an exit needs a new admin there is somebody left, so the 500 of a failed promotion does not occur |
| ChatInvariants.LeaveAllKeeps | data_server/data_server.c:447-462 | a removal takes exactly the listed seats except the remover's, and no flag changes |
| ChatInvariants.JoinAllKeeps | data_server/data_server.c:149-170 | joining adds seats of that chat and those users only, admin only for the creator, and leaves taken seats alone |
| ChatInvariants.ApplyKeepsSound | data_server/data_server.c:120-530 | every request keeps foreign keys, the newest-message link and the order of times |
| ChatInvariants.CreateGoverns | data_server/data_server.c:137-170 | creating a chat leaves every chat with an admin if and only if an accepted request's creator is a user |
| ChatInvariants.RemoveGoverns | data_server/data_server.c:422-471 | removing keeps an admin in every chat |
| ChatInvariants.ExitGoverns | data_server/data_server.c:473-530 | exiting keeps an admin in every chat that is left |
| ChatInvariants.AdminPreservation | data_server/data_server.c:120-530 | in every serial run every existing chat has a participant and an admin |
| ChatInvariants.ExitDeletesLoneChat | data_server/data_server.c:481-506 | an exit deletes the chat if and only if it had one participant, and takes it from a remaining participant if and only if an outsider asked |
| ChatInvariants.LastMessageIsNewest | data_server/chat_manager.c:47-78 | in every serial run each chat's last_message_id is its newest message |
| ChatInvariants.ListedByNewest | data_server/chat_manager.c:99-113 | the EXISTS filter over all messages is decided by the newest one |
| ChatInvariants.IncrementalListing | data_server/chat_manager.c:99-113 | in every serial run an incremental listing selects exactly the user's chats without a message or with one newer than the timestamp |
| ChatEffects.SendExactly | data_server/chat_manager.c:47-78 | an accepted message is exactly one new row with its chat, its sender and the time, and the chat's last_message_id; a refused one changes nothing |
| ChatEffects.RequestKeepsLog | data_server/data_server.c:120-530 | every request keeps old messages as long as their chat, and all it adds are the sent message or messages of the system, user 1, to its own chat |
| ChatEffects.MessagesStay | data_server/data_server.c:120-530 | in every serial run a message stays, unchanged, exactly as long as its chat |
| ChatEffects.MessagesWereSent | data_server/data_server.c:120-530 | in every serial run every message is the system's or was sent to its chat by its sender |
| ChatEffects.SentMessagesStay | data_server/chat_manager.c:47-78 | every accepted message is there at the end of the run, as it was sent, if its chat is |
| ChatEffects.CreateExactly | data_server/data_server.c:120-186 | a group with one to eight ids, or a chat of two with one, is created as the kind asked for, with seats for exactly those of its creator and the ids who are users, the creator as the only admin, and one system message for the chat and each seat; anything else changes nothing |
| ChatEffects.AddExactly | data_server/data_server.c:188-240 | adding gives exactly the listed users a seat, none as admin, with a system message each |
| ChatEffects.RemoveExactly | data_server/data_server.c:422-471 | an admin of a group removes exactly the listed seats but the own one, with a system message for each id; anybody else changes nothing |
| ChatEffects.ExitExactly | data_server/data_server.c:473-530 | an exit takes the own seat, the chat with it if that had one seat, and otherwise changes exactly one flag, an heir's, if the last admin left |
| ChatEffects.RestExactly | data_server/data_server.c:120-530 | registering adds a user, the clock only moves forward, and neither touches anything else |
| ChatEffects.KindStays | data_server/chat_manager.c:10-26 | no request changes whether a chat is a group |
| ChatEffects.FullListing | data_server/chat_manager.c:80-98 | a full listing holds all chats the user has a seat in |
| LoginProtocol.LogicSession.ProcessClientRequest | logic_server/logic_server.c:219-471 | refines the client step of the protocol: session, query and response after a client message |
| LoginProtocol.LogicSession.HandleDbResponse | logic_server/logic_server.c:510-660 | refines its database step: session, second query and response after a database reply |
| LoginProtocol.ClientStepExactly | logic_server/logic_server.c:219-471 | a client's message leads to a query if and only if it is complete, no ping, and needs no token or has a valid one; the query is the one for its action and key, and all other messages are answered with 400, 401 or a pong and change nothing |
| LoginProtocol.QueriesAreAuthorised | logic_server/logic_server.c:219-471 | in every run an outstanding query is the one for a client's request that may ask, or the second one of its login |
| LoginProtocol.DbStepExactly | logic_server/logic_server.c:510-660 | for every reply: a second query exactly for a proven password, a token exactly in the second step of a login, 401 and 503 exactly for the failed and the unconnected login, and everything else is passed on |
| LoginProtocol.StrayReply | logic_server/logic_server.c:510-534 | a reply that nobody asked for is answered with 500 |
| LoginProtocol.StoredExactly | data_server/user_manager.c:3-17 | a user is added exactly by a query to create one whose name, email and id are still free, so no two users share one of them |
| LoginProtocol.NextIsCoherent | logic_server/logic_server.c:535-651 | every step keeps: a second query is outstanding only with the proof of the first |
| LoginProtocol.LoginSoundness | logic_server/logic_server.c:535-651 | in every run with one outstanding query a token goes to a row of the key after the stored password of a row of the key was given, never of system user 1; if the key is safe it is that user's own password |
| LoginProtocol.FaithfulExactly | logic_server/logic_server.c:535-651 | over all runs from any coherent session that is not in a login: every token for a key goes to a user whose own password was given if and only if the key is safe; a key with one row is (UnambiguousIsSafe) |
| LoginProtocol.RightPasswordGetsToken | logic_server/logic_server.c:535-651 | with an unambiguous key and answered queries the login ends with a token exactly for the right password |
| LoginProtocol.AmbiguousKeyMixesUsers | data_server/user_manager.c:19-85 | a run in which one user's name is another user's email and the rows differ between the two queries |
| LoginProtocol.WedgedStays | logic_server/logic_server.c:602-619 | a session that is validated without a second query outstanding stays so and issues no token |
| LoginProtocol.RefusedInfoWedges | logic_server/logic_server.c:602-619 | a refused second query leads there |
| LinkedQueue.Queue.Enqueue | lib/queue/queue.c:46-66 | appends, also after clearing left the tail stale |
| LinkedQueue.Queue.Dequeue | lib/queue/queue.c:68-94 | takes the first element, or fails on an empty queue |
| LinkedQueue.Queue.Front | lib/queue/queue.c:96-108 | the first element, without change |
| LinkedQueue.Queue.Reverse | lib/queue/queue.c:110-125 | the recursion through dequeue and enqueue reverses the sequence |
| LinkedQueue.Queue.Clear | lib/queue/queue.c:127-141 | the empty queue, usable again |
| LinkedQueue.Queue.Copy | lib/queue/queue.c:161-180 | an equal queue without a node in common |
| LinkedQueue.ReversedAt | lib/queue/queue.c:110-125 | element i of the reversed sequence is the i-th from the end |
| LinkedQueue.Run | lib/queue/queue.c:46-180 | any run of enqueue, dequeue, front, clear, reverse and copy gives the results and leaves the contents that it gives on a sequence |

## Left out

- Sockets, poll, fork, signals, tokio tasks and the copying of traffic between connections: input and output only. A datagram arrives as its meaning (`Message`, `Text`); reading addresses out of its text is not modelled.
- The MySQL client, SQL text and its quoting: each statement is what it does to the tables. Interleavings of forked handlers are not modelled; requests run one after the other.
- JWT encoding and time(): a token is the user id it carries.
- Floating point: a number is the exact decimal value of its text, without the rounding of strtod; printing is modelled for int values, NaN and infinity and the 15 or 17 digits of other doubles are not. The decimal point of the locale is a point.
- Allocation failures, allocation hooks, Raw items and the ownership flags IsReference and StringIsConst; memory that is given back is not tracked.
- The printer takes trees as values, not as linked items. The parser links an element once its value is read, where the source links it just before; what a failed parse had linked so far is not tracked.
- cJSON_PrintBuffered; shrinking the printed block with realloc, where `Print` copies it into one of the exact size.
- cJSON_Duplicate without recursion.
- The fixed C buffers and the frees of handle_action and handle_client, the Caesar cipher, configuration files, server/server.c.
- MAX_PARTICIPANTS as a bound on chats: only creation looks at it, additions do not.
- Fairness of Ld's selection, whose counter is shared between backends and frontends.
- The fields of a forwarded request beyond its action and key, and the user id the logic server puts into it.
- HandleAddToGroupChat: covers lists of any length. data_server/data_server.c:193-206 writes each id into participants[MAX_PARTICIPANTS] without asking for the length, so beyond ten ids the source writes past the end of that array and the contract no longer describes it.
- RightPasswordGetsToken: does not cover a database that refuses a query it could answer; LoginSoundness does.
