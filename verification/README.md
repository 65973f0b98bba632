# Verification model of the CGI server and the VPN daemon

A Dafny 4.11 model of the parts of this repository that compute something: the Basic-authorization
chain, the Internet checksum, the line and header readers, the multipart upload, the VPN monitor with
its command thread, and the path check. `dafny verify dfyconfig.toml` checks all of it.

## How the model is built

- **Characters and memory.** A C `char` is a Dafny `char`. A C string is the text in front of its NUL
  (`CStrings.CStr`); a buffer is an `array<char>`, or, in the value-level state, the whole memory of the
  buffer as a sequence. Octets are characters with codes below 256.
- **The connection** (`LineReader.Socket`) is the text the peer sends before it closes its side, and a
  cursor. `read` and the peeking `recv` return 0 at the end. A result of -1 takes the same branches
  where `char` is signed, which the model assumes: the result is kept in a `char`
  (`src/http_server.c:310,314`), and an unsigned one turns it into 255, which counts as success.
  Reading at the end of the stream makes the header loops and the upload loop spin for ever; the
  functions that describe them (`ReadBlock`, `CopyLines`) are `None` there, and the methods require
  that they are not. Only an empty upload marker, which the empty line read at the end holds, ends
  the upload loop even there.
- **Methods against functions.** What the C code does step by step is a method with its loops; it is
  proved equal to a function of its input, and the properties are lemmas about that function.
- **Laws beside the functions.** A function that a method is proved against has laws of its own that do not
  go through its body: what a whole block of headers leaves in each flag, the names and sizes as literals,
  and the text positions a search may come from.
- **Null pointers.** Where the code goes on with a pointer that a failed search returned, the model has
  an outcome of its own for it (`Verdict.Fault`, `None`).

| file | models |
|---|---|
| `CStrings.dfy` | the C library searches and comparisons |
| `LineEnds.dfy`, `LineReader.dfy` | `read_line` |
| `HeaderFraming.dfy`, `HeaderCursor.dfy`, `HeaderReader.dfy` | continuation lines, delimiter lines, the end of a header block |
| `HeaderFields.dfy` | the if-chains over field names, the comma lists |
| `RequestHeaders.dfy`, `RequestReader.dfy` | `read_headers`, `read_post_headers`, the header record, the globals |
| `HeaderArrival.dfy`, `HeaderEffects.dfy` | what one header leaves among others, and what a whole block leaves |
| `SourceSizes.dfy` | buffer sizes and fixed texts as literals |
| `Base64.dfy`, `Base64Codec.dfy` | `pos`, `token_decode`, `http_base64_decode`; RFC 4648 |
| `Authorization.dfy`, `PostAuthorization.dfy` | `auth_user`, `check_authorization`, the opening of `http_post_request`; RFC 7617 |
| `Upload.dfy`, `UploadContent.dfy`, `UploadRequest.dfy` | `getfilename`, `write_file`, the boundary marker |
| `Checksum.dfy`, `ChecksumLaws.dfy` | `CheckSum`, the echo request; RFC 1071 |
| `VpnMonitor.dfy`, `VpnLifecycle.dfy` | the monitor loop; the enable flag, its commands and threads |
| `PathCheck.dfy`, `FileServe.dfy`, `RequestLine.dfy` | `is_valid_fname`, the reassembly loop, the request line |

## Where the code is not what one would expect

Each of these is proved, with the exact condition under which the expected behaviour holds where there is one.

- Headers are framed and unfolded as their lines say exactly when every *unfolded* header fits 8095
  characters. Short lines are not enough: a continuation that fills the buffer up to its own line end
  makes that line end look like the empty line (`HeaderFraming.FullBufferEndsBlock`). The reader still
  stops at the empty line, although headers are cut, exactly when no new header is read where a cut
  left a bare line end (`HeaderCursor.HeaderBlockEnd`).
- `Accept` in a GET request is always read as `Accept-Language`; the `Accept` branch is dead, and no GET
  request can be refused for its media types (`HeaderFields.GetAcceptIsDead`,
  `RequestHeaders.GetNeverRefusesText`).
- A header line whose name is empty, or is the beginning of a field's name, is taken for that field: in a POST
  request `:` alone begins an Authorization header (`HeaderFields.SelectsNothing`).
- The NUL behind a copied cipher is written one place too far, so the field is right exactly when the place
  behind the cipher was NUL before (`RequestHeaders.MemCpyHoldsIfCleared`). Of two Authorization headers
  among the headers of a request the second is read back exactly when its cipher is not the shorter one;
  otherwise one character of the first shows behind it (`PostAuthorization.SecondHeaderReadsBack`).
- Characters outside the base64 alphabet are mostly decoded instead of rejected
  (`Base64Codec.RejectionOfStrangers`); where a group would start, such a character ends the text with
  success, and nothing behind it is looked at (`Base64Codec.StrangerEndsText`). A whole text is rejected
  exactly when its groups come to a bad one before such a character (`Base64Codec.RejectedExactly`); and
  the authorization does not ask whether it was (`Authorization.RejectedRestIsIgnored`).
- A boundary works only if it begins with 24 dashes and has no more than 25 in a row: with fewer the
  part's delimiter line is not recognised and its disposition is dropped, with more the Content-Type line
  of the request is itself taken for a delimiter, and the boundary is never stored
  (`UploadRequest.BoundaryWorksExactly`).
- The upload marker lacks the boundary's last character, because the code removes two characters for a
  line end of which one is left (`src/http_post.c:234`). A boundary of 25 characters, or of less than 24
  in a field that was cleared, leaves an empty marker, one of 24 characters leaves the line end
  (`UploadContent.MarkerOf`). The loop
  copies up to the first piece that holds the marker, so an upload is complete exactly when no piece does;
  a piece is what one `read_line` hands out, up to its first NUL, and a marker that lies across a cut is
  not seen (`UploadContent.UploadedFile`).
- The line break in front of the closing delimiter is written to the file as well, so what is written is
  the payload only in odd cases: never for a boundary of more than 25 characters; for an empty marker only
  when the payload is empty too; for one of 24 characters when the payload has no CR, is cut by the reader
  at its very end, and no piece of it shows a line end (`UploadContent.FileIsPayloadExactly`).
- The file is not truncated when it is opened (`src/http_post.c:237`): it holds what was written exactly
  when the old one was not longer, and a complete upload never leaves the payload, whatever was there
  (`UploadContent.UploadOverExisting`).
- Without a marker in the way Content-Length stops the copying only behind a whole piece
  (`UploadContent.CountdownStops`).
- On a big-endian machine the checksum accumulator is safe for 65536 bytes, one less than on a
  little-endian one (`ChecksumLaws.SafeLengthIsTight`).
- START right after STOP lets sessions overlap; the old client then switches off the new session
  (`VpnLifecycle.LateExitOrphansNewClient`). A START is safe from this, whatever the interleaving with orderly
  STARTs behind it, exactly when all earlier threads had ended (`VpnLifecycle.OneSessionExactlyWhenQuiet`).
- A START whose client cannot be created, with no earlier client alive, leaves the flag on, and every
  further START is then refused until a STOP (`VpnLifecycle.StuckUntilStop`, `VpnLifecycle.StuckExactlyWhen`).
- A path that passes the check stays under `doc` only if the url is empty or starts with a slash
  (`PathCheck.ValidStaysUnderDoc`).
- The comment above the monitor speaks of more than three lost pings (`vpn.c:625`); the code restarts at
  the third (`vpn.c:652`), and the model follows the code.

## Model
| member | source | states |
|---|---|---|
| LineReader.NextChar | src/http_server.c:314-330 | one pass of the reading loop: CR and CRLF count as one LF, at the end of the stream nothing changes |
| LineReader.ReadLine | src/http_server.c:307-337 | the buffer gets the next line of the normalised stream, cut at size-1 characters, and a NUL; the rest of the buffer and of the stream is untouched |
| LineEnds.NormaliseSkip | src/http_server.c:307-337 | what is left unread normalises to what was not handed out |
| LineEnds.SkipIsSuffix | src/http_server.c:307-337 | the unread raw text is the end of the stream, and what is gone normalises to what was handed out |
| LineEnds.NormaliseHasNoCr | src/http_server.c:319-330 | a CR is never handed out, and the text never gets longer |
| LineEnds.NormaliseConcatExactly | src/http_server.c:319-330 | normalising can be done piece by piece exactly when the cut is not inside a CRLF |
| LineEnds.LineEndStyleIsForgotten | src/http_server.c:319-330 | LF, CR and CRLF texts all arrive as the same text |
| LineEnds.ReadRunConserves | src/http_server.c:307-337 | for every stream and all buffer sizes, the lines read plus the normalised rest are the normalised stream |
| LineEnds.ReadRunDrains | src/http_server.c:307-337 | with sizes of at least 2, enough reads give the whole normalised stream, whatever the sizes |
| HeaderReader.AppendLine | src/http_server.c:648-651 | one continuation line, without its first whitespace character, is appended within the buffer |
| HeaderReader.FoldContinuations | src/http_server.c:641-653 | the running header never exceeds 8095 characters, ends in NUL, and is what folding the stream gives |
| HeaderReader.TakeHeader | src/http_server.c:620-653 | one turn of the header loop: empty line, delimiter line, or a header with its continuations |
| HeaderReader.EmptyLineAsCStr | src/http_server.c:635-638 | comparing the C string with a lone LF recognises exactly the empty line |
| HeaderReader.ReadOnIsSkip | src/http_server.c:617-653 | the raw read position is fixed by the normalised text that is left |
| HeaderFraming.EmptyLineEndsBlock | src/http_server.c:617-653 | termination: an empty line anywhere in the stream ends the block, and nothing behind the first one is read |
| HeaderFraming.FoldJoins | src/http_server.c:641-653 | the loop takes all continuation lines and nothing else |
| HeaderFraming.BlockUnfoldsExactly | src/http_server.c:617-653 | a block of lines is framed and unfolded as its lines say iff each unfolded header fits the buffer |
| HeaderFraming.HeaderBlockFraming | src/http_server.c:617-653 | the same on any stream: the reader stops right behind the first empty line with all headers unfolded iff each fits; the cursor alone is HeaderCursor.HeaderBlockEnd |
| HeaderFraming.BlockOnTheWire | src/http_server.c:617-653 | the same for lines sent with CRLF line ends: they arrive framed and unfolded iff each unfolded header fits |
| HeaderFraming.FoldExactly | src/http_server.c:642 | the four characters that continue a header |
| HeaderFraming.OneLineBlock | src/http_server.c:617-653 | a block of one line: a header, or in a POST request a delimiter iff it holds 26 dashes |
| HeaderFraming.FoldedBlock | src/http_server.c:641-653 | two lines, the second behind one of those characters, are one header without it |
| HeaderCursor.BlockEndsInPlace | src/http_server.c:617-653 | the cursor alone: the block of any lines ends, never behind its empty line, and right behind it iff no new header is read where a cut left a bare line end |
| HeaderCursor.HeaderBlockEnd | src/http_server.c:617-653 | the same on any stream that holds an empty line |
| HeaderCursor.FittingHeadersEndInPlace | src/http_server.c:617-653 | headers that all fit meet the condition on the cursor |
| HeaderFraming.FullBufferEndsBlock | src/http_server.c:651 | a family of blocks of short lines that end too early |
| HeaderFields.FirstMatch | src/http_server.c:674-798 | the branch taken is the first whose key has the name as a prefix, letter case ignored |
| HeaderFields.FullNameMatches | src/http_server.c:674-798 | a complete name takes its own branch iff no earlier key extends it |
| HeaderFields.PostNames | src/http_post.c:133-198 | in the POST chain every complete name takes its own branch |
| HeaderFields.GetNames | src/http_server.c:674-798 | in the GET chain every complete name does, except Accept |
| HeaderFields.GetAcceptIsDead | src/http_server.c:710-740 | no name at all reaches the Accept branch |
| HeaderFields.GetNamesSpelt | src/http_server.c:674-798 | each field name, letter by letter in any case, and the GET branch it takes |
| HeaderFields.PostNamesSpelt | src/http_post.c:133-198 | the same for the POST chain |
| HeaderFields.ChainsSpelt | src/http_server.c:674-798 | the names of both chains in the order they are tried |
| HeaderFields.SelectsNothing | src/http_server.c:674-798 | no branch is taken iff the name begins no key; an empty name takes the first |
| HeaderFields.ListNamesWhere | src/http_server.c:767-788 | a list names a token iff the text has it at its start or behind a comma and whitespace |
| HeaderFields.ListsWhere | src/http_server.c:717-788 | the same for the media types, languages and character sets asked for |
| HeaderFields.ScanList | src/http_server.c:767-788 | the pointer loop ends and finds a token iff some comma-separated element starts with one, left-trimmed except for the first |
| HeaderFields.TrimSplit | src/http_server.c:783-786 | skipping whitespace behind a comma trims that element and no other |
| RequestReader.HandleGetHeader | src/http_server.c:655-813 | the effect of one GET header on the flags and the record |
| RequestReader.HandleGetFlag | src/http_server.c:674-798 | the effect of each branch on the flags, `time_is_valid` included |
| RequestReader.HandlePostHeader | src/http_post.c:114-204 | the effect of one POST header, which depends on the body-part flag |
| RequestReader.HandlePostFlag | src/http_post.c:152-189 | the branches that set flags |
| RequestReader.HandlePostInfo | src/http_post.c:133-204 | the branches that fill the record; Content-Disposition only in a body part |
| RequestReader.StoreAuthorization | src/http_server.c:800-811 | scheme and cipher are cut at the space and the LF and copied with their NUL one place late |
| RequestReader.ReadHeaders | src/http_server.c:612-814 | flags and record end up as the headers of the block applied in order; the cursor is behind the block |
| RequestReader.ReadPostHeaders | src/http_post.c:53-206 | the same for POST, with delimiter lines and the header length |
| RequestReader.Globals.constructor | src/http_server.c:54-67 | the flags before any header |
| RequestHeaders.ValueExactly | src/http_server.c:666-671 | the value is what stands behind the colon, blanks and tabs |
| RequestHeaders.MemCpyHoldsIfCleared | src/http_server.c:810-811 | the copied text can be read back iff the place behind it was NUL |
| RequestHeaders.StrCpyHolds | src/http_post.c:191-202 | a copied value can be read back |
| RequestHeaders.GetNeverRefusesText | src/http_server.c:710-766 | no sequence of GET headers turns acceptable_text off |
| RequestHeaders.ContentLengthRoundTrip | src/http_post.c:148-151 | a decimal Content-Length is read back as its number |
| RequestHeaders.AtoiExactly | src/http_post.c:150 | whitespace, sign, leading zeros, number, rest; 0 where no digit stands |
| HeaderArrival.OneHeaderDecides | src/http_post.c:133-204 | wherever the only header of a field stands, the field ends up as if it alone had been read |
| HeaderArrival.PostLinesSpelt | src/http_post.c:114-198 | which header lines are which, for literal names in any letter case, any blanks and any value |
| HeaderArrival.ContentTypeArrives | src/http_post.c:191-197 | the Content-Type of the request fills its field iff no delimiter line stands in front of it |
| HeaderArrival.ContentLengthArrives | src/http_post.c:148-151 | the Content-Length is its number, wherever its header stands and however its name is written |
| HeaderArrival.DispositionArrives | src/http_post.c:198-204 | the disposition of a part is stored iff a delimiter line stands in front of it |
| HeaderEffects.GetLinesSpelt | src/http_server.c:655-798 | which GET header lines are which, for literal names in any letter case, any blanks and any value |
| HeaderEffects.GetHeaderExactly | src/http_server.c:655-798 | what one GET header does to every flag, with the words the code looks for |
| HeaderEffects.GetStickyFlags | src/http_server.c:656-798 | over a whole block: cookie iff a Cookie header, header error iff a line without colon, encoding refused iff an Accept-Encoding header, time invalid iff an If-Modified-Since header without a place to write to |
| HeaderEffects.GetTextFlag | src/http_server.c:710-740 | over a whole block: the text flag is on iff it was or some language list names an acceptable one |
| HeaderEffects.GetLastDecides | src/http_server.c:674-798 | the last Content-Length, Accept-Charset and User-Agent decide, and the last Connection header with one of its two words |
| HeaderEffects.GetSilentFlags | src/http_server.c:674-798 | without a header of the field its flag stays, and without an Authorization header the record |
| HeaderEffects.GetCipherArrives | src/http_server.c:798-811 | one Authorization header among others leaves scheme and cipher in the record and nothing else |
| HeaderEffects.PostFlags | src/http_post.c:114-189 | over a whole POST block: header error, encoding, text and agent flags exactly, and no other flag changes |
| HeaderEffects.PostLastDecides | src/http_post.c:152-189 | the last Accept and User-Agent header decide |
| HeaderEffects.HeaderLengthCounts | src/http_post.c:81 | the header length counts delimiter lines, first lines and the empty line |
| HeaderEffects.NoContinuationLengths | src/http_post.c:81 | without continuation lines that is the length of the block |
| SourceSizes.Sizes | src/http_server.h:29-57 | the buffer sizes and limits as numbers |
| SourceSizes.Cleared | src/http_post.c:280 | a cleared record is zero throughout |
| Base64.Pos | src/http_server.c:90-97 | the search returns the sextet of Table 1 of RFC 4648, or -1 |
| Base64.AlphabetByCodes | src/http_server.c:76-97 | the alphabet is Table 1 of RFC 4648 |
| Base64.TokenDecode | src/http_server.c:108-127 | the word of a group on 32 bits with wrap-around; nothing behind a NUL is read |
| Base64.OrMarkerBits | src/http_server.c:126 | the pad count is added bit by bit, also when the accumulator has wrapped around |
| Base64.PutWord | src/http_server.c:198-212 | the octets of a word are written as far as there is room |
| Base64.HttpBase64Decode | src/http_server.c:184-215 | writes exactly the first min(size, n) octets of the unbounded run, leaves the rest alone, and returns n iff all fit and no group is bad |
| Base64Codec.WordIsSound | src/http_server.c:115-126 | over letters and pads the accumulator stays below 2^24, the top byte is the pad count, and only a bad group gives the error value |
| Base64Codec.GroupRoundTrip | src/http_server.c:108-127 | a group decodes to the octets it encodes |
| Base64Codec.DecodeEncode | src/http_server.c:184-215 | decoding the RFC 4648 encoding of any octets gives them back |
| Base64Codec.EncodeDecode | src/http_server.c:184-215 | encoding a decoded text gives the text back up to its pad bits |
| Base64Codec.DecodeForgetsPadBits | src/http_server.c:184-215 | two valid texts decode alike iff they differ only in pad bits |
| Base64Codec.DecodeConcat | src/http_server.c:193-213 | decoding distributes over concatenation between groups |
| Base64Codec.RejectionOfStrangers | src/http_server.c:115-126 | exactly when a group with a character outside the alphabet is rejected |
| Base64Codec.RejectedExactly | src/http_server.c:193-213 | a whole text is rejected iff some group is bad and it and all groups before it start with a letter or a pad |
| Base64Codec.StrangerEndsText | src/http_server.c:193-213 | behind full groups, a character that starts no group ends the text with success |
| Base64Codec.StrangerIsDecoded | src/http_server.c:115-126 | an input that is decoded although RFC 4648 wants it rejected |
| Authorization.AuthUser | src/http_server.c:227-239 | true iff the pair is in the table |
| Authorization.CheckPlaintext | src/http_server.c:260-266 | the text is cut in place at its first colon and the halves looked up |
| Authorization.CheckAuthorization | src/http_server.c:250-267 | the verdict is the table lookup of the decoded text cut at its first colon |
| Authorization.CredentialsRoundTrip | src/http_server.c:259-264 | user and password encoded as RFC 7617 says are taken apart again |
| Authorization.FaultExactly | src/http_server.c:260-262 | the code goes on with a null pointer iff the decoded text has no colon |
| Authorization.NulEndsCredentials | src/http_server.c:259-264 | a NUL behind the password ends it |
| Authorization.RejectedRestIsIgnored | src/http_server.c:259 | a rejected rest behind full groups does not change the verdict |
| PostAuthorization.AuthorizePost | src/http_post.c:280-300 | clears a record, reads the headers and judges the cipher they leave in it; unauthorized iff no header is an Authorization header; a request turned away does not keep its connection |
| PostAuthorization.UnauthorizedExactly | src/http_post.c:283-289 | a request is unauthorized iff none of its headers is an Authorization header |
| PostAuthorization.RequestWithoutCredentials | src/http_post.c:280-300 | the same from the bytes on the connection |
| PostAuthorization.AbsentFields | src/http_post.c:280-281 | fields no header was sent for are zero or empty |
| PostAuthorization.CipherArrives | src/http_post.c:133-147 | wherever the Authorization header stands among the others, and whatever its scheme, scheme and cipher end up in their fields |
| PostAuthorization.GrantedExactlyForUsers | src/http_post.c:280-300 | among any other headers, one Authorization header of any scheme is granted iff its pair is in the table |
| PostAuthorization.RequestIsGranted | src/http_post.c:280-300 | the same from the bytes on the connection, for any header lines that fit |
| PostAuthorization.BasicRequestIsGranted | src/http_post.c:280-300 | a request with this header alone, from its bytes to the verdict, with nothing left to ask of the lines |
| PostAuthorization.SecondHeaderReadsBack | src/http_post.c:137-146 | of two Authorization headers anywhere among others the second cipher is read back iff it is not shorter; otherwise it is followed by one character of the first |
| Upload.GetFilename | src/http_post.c:207-224 | the name cut out in place is the text between the first quote and the last two characters |
| Upload.FileNameRoundTrip | src/http_post.c:213-220 | a quoted name at the end of the line is found |
| Upload.NoNameExactly | src/http_post.c:213-216 | no name comes out iff "filename" or a quote behind it is missing |
| Upload.SaveBody | src/http_post.c:244-258 | file and cursor after the copying loop |
| Upload.WriteFile | src/http_post.c:225-261 | part headers, name, the cut in the caller's field, and the contents of a new or existing file; a failing open copies nothing |
| UploadContent.BoundaryIsFound | src/http_post.c:301-307 | the boundary text is the boundary parameter and the line end |
| Upload.BoundaryAtExactly | src/http_post.c:301-306 | it is the first "----" behind the first "boundary=", for any text |
| UploadContent.MarkerOf | src/http_post.c:230-235 | what is searched for in the field: the boundary without its first 24 characters and its last one, the line end for one of 24 characters, nothing for one of 25 or less than 24 |
| UploadContent.CopiesUpToFirstHit | src/http_post.c:244-258 | with a boundary line behind the body the loop ends, and the copy is the body up to the first piece that holds the marker |
| UploadContent.CopiesBodyExactly | src/http_post.c:244-258 | the copy is the body iff no piece of the body holds the marker; the countdown does not stop it early |
| UploadContent.CountdownStops | src/http_post.c:244-247 | without a marker the loop stops behind the piece with which the characters copied reach Content-Length |
| UploadContent.NothingStops | src/http_post.c:244-258 | with neither it never ends |
| UploadContent.UploadedFile | src/http_post.c:225-261 | for any boundary, any payload and a true Content-Length the loop ends and what is written is the normalised payload and a line end up to the first piece that holds the marker; it is all of it iff no piece does |
| UploadContent.CutLeavesPayload | src/http_post.c:244-258 | for any marker: the text up to the first piece with it is the payload iff the payload has no CR, ends on a cut, and that piece is the line end behind it |
| UploadContent.FileIsPayloadExactly | src/http_post.c:244-258 | what is written is the payload itself: never above 25 characters of boundary; for 24 iff it has no CR, ends on a cut and no piece of it shows a line end; otherwise iff it is empty |
| UploadContent.FullPieceSurvives | src/http_post.c:244-258 | a payload of 8095 characters without line end or NUL is such a payload for 24 characters |
| UploadContent.UploadOverExisting | src/http_post.c:237-258 | over an existing file: the contents are what was written iff the old file was not longer; a complete upload never leaves the payload |
| UploadContent.EmptyMarkerStopsAtOnce | src/http_post.c:249 | with an empty marker the file stays as it was |
| UploadRequest.DelimiterIsSeen | src/http_post.c:90-95 | a delimiter line is recognised iff the boundary begins with 24 dashes or holds 26 |
| UploadRequest.TypeLineIsTakenForDelimiter | src/http_post.c:90-95 | the request's Content-Type line is taken for a delimiter iff it holds 26 dashes |
| UploadRequest.BoundaryWorksExactly | src/http_post.c:90-95 | boundary stored and part recognised iff the boundary begins with 24 dashes and no more than 25 stand in a row |
| UploadRequest.RequestIsTaken | src/http_post.c:280-311 | among any other headers, Content-Type and Content-Length leave the marker and the length |
| UploadRequest.UploadEndToEnd | src/http_post.c:225-311 | from the bytes of the whole request, among any other headers in both blocks: length, marker, file name, and what is written |
| UploadRequest.ShortestUpload | src/http_post.c:225-311 | a request with only the headers it needs, for any boundary, name and length the fields can take and any payload, with nothing left to ask of its lines |
| Checksum.CheckSum | vpn.c:372-402 | the complement of the one's-complement sum of the words, with no overflow within the safe length |
| Checksum.SumInRange | vpn.c:384-395 | no partial sum leaves the range of an int within the safe length |
| Checksum.TwoFoldsValue | vpn.c:397-399 | two folds, the second unmasked, are exact: same residue modulo 65535, and 0 only for 0 |
| Checksum.FoldsAreOnesSum | vpn.c:384-399 | deferring the carries gives the end-around-carry sum of RFC 1071 |
| ChecksumLaws.SafeLengthIsTight | vpn.c:375-395 | the accumulator is safe for every buffer of a length iff it is at most 65537 (65536 on a big-endian machine) |
| ChecksumLaws.OrderIsIrrelevant | vpn.c:384-389 | the sum does not depend on the order of the words |
| ChecksumLaws.SumInParts | vpn.c:384-389 | a buffer may be summed in parts cut at even offsets |
| ChecksumLaws.OddTailIsPadded | vpn.c:391-395 | an odd last byte counts as if a zero byte followed |
| ChecksumLaws.ByteOrderIndependent | vpn.c:384-399 | the other byte order gives the byte-swapped checksum |
| ChecksumLaws.InsertedChecksumVerifies | vpn.c:460-467 | a buffer that carries its own checksum sums to zero |
| ChecksumLaws.EchoRequest | vpn.c:460-467 | the message that is sent, and that its checksum verifies |
| ChecksumLaws.EchoOctets | vpn.c:460-467 | that message octet by octet, on either kind of machine |
| VpnMonitor.CheckConnection | vpn.c:630-669 | over every sequence of passes the restarts are the sum of a third of the failures in each stretch, and the counter is the remainder of the last one, never more than 2 |
| VpnMonitor.SkippedDoNotCount | vpn.c:643-646 | passes without a tunnel neither count nor reset |
| VpnMonitor.AnswerClosesStretch | vpn.c:660-663 | an answered ping closes the account |
| VpnMonitor.EveryThirdFailure | vpn.c:646-659 | failures alone give a restart for every three; passes behind the stop flag do not count |
| VpnMonitor.ThirdFailureRestarts | vpn.c:652 | two failures never restart, the third does |
| VpnLifecycle.EnabledMeansAlive | vpn.c:153-188 | in every interleaving, while the flag is on the last settled START has a client short of its exit and a live monitor |
| VpnLifecycle.RefusedCommands | vpn.c:681-733 | RESTART, START while the flag is on and STOP while it is off leave everything as it is |
| VpnLifecycle.FlagIsLastWrite | vpn.c:153-188 | over every run the flag is what its last write says: START, STOP or a client's exit |
| VpnLifecycle.FlagStaysOn | vpn.c:681-733 | a flag that is on stays on without a STOP or a client's exit |
| VpnLifecycle.ThreadStep | vpn.c:630-739 | threads come from successful creations only; a monitor ends only by finding the flag off |
| VpnLifecycle.ClientFollowsEvents | vpn.c:153-169 | over every run a client is what its own events say |
| VpnLifecycle.StopRuns | vpn.c:709-722 | a STOP runs through: the flag goes off and every thread is left to see it |
| VpnLifecycle.OrderlyRunsHaveOneSession | vpn.c:671-739 | if no START overlaps earlier threads there is one session at most; while the flag is on there is exactly one iff the last START has created both its threads; and once it has, the flag goes off only by STOP or by the client's own exit |
| VpnLifecycle.StartIsCleanExactlyWhenQuiet | vpn.c:681-707 | a START leaves exactly one client and one monitor iff all earlier threads had ended |
| VpnLifecycle.OneSessionExactlyWhenQuiet | vpn.c:681-707 | however the steps interleave from a START on, later STARTs being orderly, there is never more than one session iff all earlier threads had ended |
| VpnLifecycle.StuckUntilStop | vpn.c:683-713 | with the flag on and no client alive, no run without a STOP changes anything |
| VpnLifecycle.StuckExactlyWhen | vpn.c:685-691 | that state is entered exactly by a failed client creation while no earlier client is alive |
| VpnLifecycle.FailedClientLeavesFlagOn | vpn.c:685-691 | the first START may enter it |
| VpnLifecycle.LateExitOrphansNewClient | vpn.c:167 | a run in which an old client switches off a new session and its monitor leaves |
| PathCheck.IsValidFname | src/http_get.c:70-81 | true iff no segment begins with two dots, that is, iff two dots stand neither at the start nor behind a slash |
| PathCheck.ValidNeverClimbs | src/http_get.c:228-247 | a path that passes resolves to its own named segments |
| PathCheck.ValidStaysUnderDoc | src/http_get.c:228-247 | it stays under doc iff the url is empty or starts with a slash |
| PathCheck.BuildPath | src/http_get.c:229-233 | the path is `doc` and the url, less one slash at its end |
| PathCheck.FilePathExactly | src/http_get.c:229-233 | nothing but that slash is lost |
| PathCheck.OpensWhatUrlNames | src/http_get.c:228-247 | the file opened for a url that passes is what the url names, below `doc` |
| FileServe.ReadContents | src/http_get.c:294-315 | the pieces are strung together in order, each up to its first NUL |
| FileServe.ServedExactly | src/http_get.c:294-315 | the file is served unchanged iff it holds no NUL |
| RequestLine.SplitRequestLine | src/http_server.c:839-854 | the fields hold the three parts of the line |
| RequestLine.PartsRoundTrip | src/http_server.c:839-854 | a line put together from method, url and version comes apart into them |
| RequestLine.PartsMakeLine | src/http_server.c:839-854 | a line that comes apart was put together from its parts |

## Left out

- Sockets, accept and fork, ping, the route table, `system`, `open`, `stat` and `fopen`: foreign calls; a file is the text it holds.
- The canned responses and `write_socket`: fixed strings, and a loop that hands bytes to `write`.
- `http_get` and `http_post_request` as wholes: both branch on a variable that was never set (`src/http_get.c:171`, `src/http_post.c:274`); the functions they call are modelled.
- `gethttpmethod`, `checkurl`, `dealwithcgi`: comparisons with fixed strings and a switch with empty branches.
- `read_socket`: it searches a moving pointer that may not be terminated. `analysis_request`: never called.
- `vpnstartbyserialcmd`: starts a client without the flag; the signals by which a client is told to stop or restart are left out too, a client may return at any time.
- `src/error.h`, `get.c`, `readFileList`, `openvpn_update_openvpn_file`: nothing beyond what is modelled elsewhere or foreign calls.
- RequestReader.HandleGetHeader: what `strptime` writes for If-Modified-Since is not modelled, only whether there is a place to write to and what the branch makes of `time_is_valid`; the library call with a null pointer is undefined in C.
- RequestReader.ReadHeaders: the same, and it requires that copied values fit their fixed-size fields and that a Content-Length is in the range of `int`; beyond that the C code is undefined. `user_agent` is kept as the string it holds, not as its buffer. The same holds for RequestReader.ReadPostHeaders, whose `iheaderlen` is an unbounded integer.
- Upload.WriteFile: stops where the code would go on with an unset or stray pointer, and takes what `open` finds as a parameter; a short or failing `write` is not modelled.
- Authorization.CheckAuthorization: for a text without a colon the outcome is `Fault`, since the code computes with a null pointer there.
