# gyzor in Dafny

gyzor is a client for Pyzor, a network of servers that count reports of the same mail. It computes
a digest of a message, asks every configured server about it over UDP, and decides from the
answers whether the message is spam. This project models the four parts of it where the
difficulty is, and proves what they promise.

**The digest** (`pyzor/digest.go`). Hand-written scanners replace the regular expressions and the
decoders of the Python original.

- `Regex` gives leftmost-first, greedy matching and `ReplaceAllString` their meaning for patterns
  like those of the source, and `Language` says what that meaning is apart from the search: the
  most greedy way to match, in the language of the pattern. `Normalize` proves that the scanners
  compute those regular expressions, and that the five passes of `normalize`, one after the other,
  amount to one map over the whitespace-free runs of the text (`Normalized`): a run of ten or more
  runes or with an inner `@` goes, any other is cut at its first `letters:` that something follows.
  `Twice` gives the texts that normalisation leaves alone, and so when normalising again changes
  the result.
- `Lines` specifies line splitting by a lossless, unique decomposition and proves that
  normalisation distributes over it. `Digest` is `Compute` behind the MIME parsers: which lines
  are hashed, and which changes to a message the digest cannot see.
- `Utf8` (section 4 of RFC 3629) and `Base64` (section 4 of RFC 4648) are the byte-level decoders.
- `Mime` is the walk over the MIME tree, over abstract parsers; `MimeLaws` says what each media
  type, transfer encoding and charset does to the payloads; `MessageDigest` joins the walk to
  `Digest`.

**The accounts file** (`pyzor/account.go`, `LoadAccounts`). `Accounts` is one line, `AccountsFile`
the loader and the text edit, `AccountLines` which lines are read, as what, and which an edit
keeps, said of their characters. `AccountsMeaning` is what the edit means: an update of the map
that loads, with the exact condition for any old file, and byte-identical saves.
`IndependentSaves` says when two saves commute. `DiskFiles` is the atomic replacement as primitive
steps, each of which may be the last one before a crash.

**The wire format** (`pyzor/message.go`, `query`). `Message` prints, signs and parses header lists;
`Reply` says which packets are accepted and what is read from them, `Arrival` which header lists
reach the receiver as they were added, `Signature` that the signed text determines the request.
`Wire` gives a request character by character, and says which fields any packet holds.

**Concurrency and the verdict** (`pyzor/client.go`). `Fanout` is `queryAll` as a state machine in
which the caller and one goroutine for each server interleave freely. `Resolver` is the cache of
addresses with any number of concurrent callers. `Verdict` is the folding of the answers, and
`Check` goes all the way from the packets to the verdict.

`Basics`, `Runes`, `Bytes` and `Text` hold what these share (rune classes, trimming, splitting,
decimal numbers); `Classes` lists the characters of each class, and `Numerals` says which texts are
numbers.

Code that changes things step by step is a method with loops and invariants, or a class; each is
proved equal to a function, and the laws are lemmas about that function. SHA1, hexadecimal
printing and lower-casing are parameters, as are clocks, thread numbers, the resolver's answers,
the faults of a disk, and the outcomes of queries: the results hold for all of them.

## What turned out not to hold

- `normalize` is not idempotent. `Twice.NormalIffUnchanged` gives the texts it leaves alone,
  `Twice.NormalizedTwice` the condition for a second pass, `Twice.HelloWorldVanishes` an input.
- Deciding from the two aggregates of `CheckDigest` agrees with `Hit` exactly for thresholds that
  are not negative (`Verdict.AggregatesSufficeIffNonNegative`).
- A host with a colon in it is written to the accounts file but never recognised again
  (`AccountsMeaning.ColonHostIsNotRecognised`); saving takes effect exactly under the condition of
  `AccountsMeaning.SavedBindingsLoad`, and is an update of the map exactly under that of
  `AccountsMeaning.SaveOverridesIff`.
- Saving twice does not always replace: it does exactly under the condition of
  `AccountsMeaning.SaveTwice`, and a newline in the user name breaks it
  (`AccountsMeaning.NewlineIsNotReplaced`).
- A save is not always an update of the map: a line hidden behind an overlong one can come to light
  (`AccountsMeaning.UnreadRestComesToLight`).
- Saves for disjoint addresses do not always commute; they do exactly under the condition of
  `IndependentSaves.DisjointSavesCommuteIff`.
- A signed request does not always arrive as it was added: exactly when its values are clean
  (`Arrival.RequestArrivesIff`, with the requests of `Arrival.UncleanUserIsMisread`).
- Different header lists can print alike when a value holds a newline
  (`Signature.NewlineMakesListsAlike`); different requests still never sign the same text
  (`Signature.SignedTextInjective`).
- `invalidateAddr` does not hold against a resolver call under way
  (`Resolver.RemovalIsUndoneByCallUnderWay`). It holds, in the sense that the address is cached
  again only after a new resolver call, exactly when no call for the key is under way at that
  moment (`Resolver.RemovalHoldsIffNoneUnderWay`).
- With five or six kept lines one line is hashed twice (`Digest.PositionsAreSound`).
- The comment at pyzor/client.go:134 says that counts are summed; the code takes the maximum, and
  so does the model.

## Model

| member | source | states |
|---|---|---|
| Regex.SpanIsLongest | pyzor/digest.go:48-53 | a greedy class repetition takes the longest prefix of its class |
| Regex.KeepPrefix | pyzor/digest.go:90-102 | replacing keeps the text before the first place where the pattern matches |
| Regex.DeleteFirst | pyzor/digest.go:90-102 | replacing deletes the leftmost match, nothing before it, and goes on behind it |
| Language.MatchIsBest | pyzor/digest.go:48-53 | the matcher finds a match whenever there is one, and the one in which earlier atoms take the most |
| Language.MatchIsInLanguage | pyzor/digest.go:48-53 | what is matched is in the language of the pattern, and when nothing is, no start of the text is |
| Language.BestIsUnique | pyzor/digest.go:48-53 | there is only one most greedy way to match |
| Language.LongMatches | pyzor/digest.go:104-136 | the long-token pattern matches exactly the whitespace-free texts of ten runes or more |
| Language.EmailMatches | pyzor/digest.go:51 | the e-mail pattern matches exactly the whitespace-free texts with an '@' strictly inside |
| Language.UrlMatches | pyzor/digest.go:52 | the URL pattern matches exactly letters, a colon, and at least one more rune that is no whitespace, like all behind the colon |
| Normalize.LongOnRun | pyzor/digest_test.go:54-64 | the long-token pattern deletes a maximal run of ten or more non-space runes entirely, and keeps a shorter one |
| Normalize.EmailOnRun | pyzor/digest.go:48-53 | the e-mail pattern, with backtracking, deletes a whole run exactly when '@' stands strictly inside it |
| Normalize.UrlOnRun | pyzor/digest.go:48-53 | the URL pattern keeps of a run what comes before its first block of letters directly followed by ':' and one more rune |
| Normalize.PassesAreRunwise | pyzor/digest.go:90-102 | long-token, e-mail, URL and whitespace passes over a whole text equal one map over its maximal runs |
| Normalize.NoSeparatorNoMatch | pyzor/digest.go:90-102 | the fast guards are right: without '@' (or ':') the guarded pass deletes nothing |
| Normalize.NormalizeLine | pyzor/digest.go:88-102 | normalize, with its guards, computes the run-wise closed form, free of whitespace |
| Normalize.RemoveLongRuns | pyzor/digest.go:104-136 | the scanner with its lagging indices and lazy builder equals leftmost-greedy deletion of every run of ten or more |
| Normalize.LongRunsGone | pyzor/digest.go:104-136 | the result has no run of ten non-space runes left, and is the input exactly when that had none |
| Normalize.LongRunsIdempotent | pyzor/digest.go:104-136 | a second pass changes nothing |
| Normalize.RemovePyWhitespace | pyzor/digest.go:161-186 | the slice-copying scanner drops every whitespace rune and nothing else |
| Normalize.SqueezeIsDeletion | pyzor/digest_test.go:54-64 | dropping whitespace rune by rune is what the reference pattern does |
| Classes.PySpacesAre | pyzor/digest.go:140-153 | whitespace is Go's and the four information separators |
| Classes.SpacesAre | pyzor/account.go:169 | the twenty-five runes that trimming takes for whitespace |
| Classes.BreaksAre | pyzor/digest.go:193-220 | the ten runes that end a line |
| Classes.LettersAre | pyzor/digest.go:52 | the letters of the URL pattern: a to z in either case and the two runes that fold to one |
| Classes.StrippedAre | pyzor/digest.go:189-191 | the six characters at the end of a line that rstrip removes |
| Twice.NormalIffUnchanged | pyzor/digest.go:90-102 | the fixpoints of normalisation: texts without whitespace or NUL that are empty, or shorter than ten runes with no inner '@' and no URL |
| Twice.NormalizedTwice | pyzor/digest.go:90-102 | normalising twice equals once exactly when the result is shorter than ten runes, has no inner '@' and no URL |
| Twice.TwoWords | pyzor/digest.go:90-102 | any two surviving words a space apart are joined, and vanish in a second pass once they reach ten runes |
| Twice.HelloWorldVanishes | pyzor/digest.go:90-102 | a concrete text on which a second pass differs |
| Lines.SplitLinesScan | pyzor/digest.go:193-220 | the scanner computes the line list of the specification |
| Lines.SplitIsLossless | pyzor/digest.go:193-220 | the lines are those of a decomposition that rebuilds the text: no line holds a break, CR LF is one boundary, a final boundary adds no line |
| Lines.SplitIsUnique | pyzor/digest.go:193-220 | every such decomposition of a text has exactly these lines |
| Lines.NormalizedAppend | pyzor/digest.go:90-102 | normalising is a homomorphism wherever a text is cut behind whitespace |
| Lines.NormalizeDistributes | pyzor/digest.go:58-66 | concatenating the normalised lines gives the normalised text, for every text |
| Lines.SqueezeDistributes | pyzor/digest.go:161-186 | the same for whitespace removal alone |
| Lines.KeptAppend | pyzor/digest.go:58-66 | cutting a text behind any boundary, even between CR and LF, cuts its kept lines in two |
| Lines.CrlfIsNoise | pyzor/digest.go:58-66 | replacing every LF by CR LF leaves the kept normalised lines unchanged |
| Lines.InsertedLine | pyzor/digest.go:58-66 | a line with any boundary, put in at a line start, adds its normal form to the kept lines if that has eight runes or more, and nothing else |
| Lines.ShortLineIsNoise | pyzor/digest.go:157-159 | a line inserted with any boundary leaves the kept lines as they are exactly when it normalises to fewer than eight runes |
| Lines.NulIsNoise | pyzor/digest.go:88-102 | a NUL anywhere in a text leaves its normal form as it is |
| Digest.CollectLines | pyzor/digest.go:57-66 | the loops collect the long enough normalised lines of all payloads, in order |
| Digest.KeptAllAreNormalized | pyzor/digest.go:189-191 | every kept line has at least eight runes and nothing for rstrip to remove |
| Digest.PositionsAreSound | pyzor/digest.go:68-84 | the positions hashed exist, are min(n, 6) many and strictly increasing, except at five and six lines, where all but the first are hashed and one of them twice |
| Digest.WindowsArePositions | pyzor/digest.go:74-83 | the two windows at 20 and 60 percent, cut at the end, are 1,2,3,3,4 of five lines, 1,2,3,3,4,5 of six, and three each from n/5 and 3n/5 on from seven on |
| Digest.HashInput | pyzor/digest.go:68-84 | the sampling loops feed the hash exactly the lines at those positions |
| Digest.Compute | pyzor/digest.go:57-86 | the digest is the hash of the sampled kept lines |
| Digest.SampledText | pyzor/digest.go:68-84 | the hash input for every number of kept lines: all of up to four; 1,2,3,3,4 of five; 1,2,3,3,4,5 of six; from seven on three from n/5 and three from 3n/5 on |
| Digest.OneLineIsHashed | pyzor/digest.go:57-66 | a payload of one line is hashed, as its normal form, exactly when that has eight runes or more |
| Digest.LineEndsDoNotMatter | pyzor/digest.go:57-86 | rewriting line ends from LF to CR LF leaves the hash input unchanged |
| Digest.ShortLinesDoNotMatter | pyzor/digest.go:57-86 | inserting a short line with any boundary anywhere in any payload leaves the hash input unchanged |
| MessageDigest.Compute | pyzor/digest.go:57-86 | the digest of a message is the hash of the sampled kept lines of the payloads found in it |
| MessageDigest.TextsLoseNothing | pyzor/digest.go:57-66 | reading valid payloads rune by rune loses nothing |
| MessageDigest.NoiseIsNotHashed | pyzor/digest.go:226-328 | messages that differ only in bytes outside the alphabet within base64 texts, at any depth, have the same hash input |
| Utf8.DecodeChar | pyzor/digest.go:423-439 | the decoder accepts every character of the RFC 3629 grammar, with its exact length, and re-encoding gives its bytes |
| Utf8.DecodeAccepts | pyzor/digest.go:423-439 | what the decoder accepts is a character of the grammar |
| Utf8.ValidIffDecodesCleanly | pyzor/digest.go:423-427 | the fast path's validity test is validity by the grammar |
| Utf8.DecodeInvertsEncode | pyzor/digest.go:423-439 | text survives encoding and decoding |
| Utf8.Utf8Ignore | pyzor/digest.go:421-439 | fast path and loop both yield the input without its invalid bytes |
| Utf8.CleanedIsValid | pyzor/digest.go:421-439 | the result is always valid UTF-8, is the input exactly when that was valid, and cleaning is idempotent |
| Utf8.CleanedKeepsValid | pyzor/digest.go:421-439 | valid input in front is kept whatever follows, an encoded U+FFFD included |
| Utf8.CleanedKeepsAscii | pyzor/digest.go:400-439 | dropping invalid bytes loses no ASCII byte |
| Utf8.ErrorIffNoChar | pyzor/digest.go:430-436 | the decoder reports an error exactly when no start of its input is a character of the grammar |
| Utf8.BadByteIsDropped | pyzor/digest.go:430-436 | where no character starts, exactly one byte is dropped; with the law for characters this determines the result |
| Utf8.OnlyBadByteGoes | pyzor/digest.go:421-439 | a byte that starts no character, between two valid texts, goes alone |
| Utf8.RuneOfChar | pyzor/digest.go:423-439 | the rune of a character is the number its bits spell, for each of the four lengths |
| Utf8.DroppedStaysValid | pyzor/digest.go:393-398 | removing the bytes of U+FFFD from a valid text removes exactly those runes, so it stays valid |
| Utf8.AsciiIgnore | pyzor/digest.go:400-419 | fast path and copy loop equal the plain filter of bytes below 0x80 |
| Classes.AsciiIs | pyzor/digest.go:400-419 | the bytes kept are the characters of UTF-8 that are one byte |
| Base64.FilterBase64 | pyzor/digest.go:337-359 | the filter with its no-copy path equals the plain filter |
| Base64.FilterIsIdempotent | pyzor/digest.go:337-359 | filtering twice is filtering once |
| Base64.AlphabetAndPad | pyzor/digest.go:361-369 | the accepted bytes are the sixty-four letters of RFC 4648 and the padding |
| Base64.DecodeInvertsEncode | pyzor/digest.go:317-328 | decoding inverts encoding |
| Base64.DecodesIffWellPadded | pyzor/digest.go:317-328 | decoding succeeds exactly on letters followed by at most two padding bytes, a multiple of four in all |
| Base64.QuantumBits | pyzor/digest.go:317-328 | decoded bytes hold the bits of their letters, most significant first, for all three paddings |
| Base64.LettersAre | pyzor/digest.go:361-369 | the alphabet of Table 1 of RFC 4648, letter by letter |
| Base64.DecodeBase64Body | pyzor/digest.go:317-328 | the base64 branch: filter, decode, or else the raw body |
| Base64.NoiseImmunity | pyzor/digest.go:317-328 | whatever non-alphabet bytes stand anywhere in an encoding of x, the branch yields x |
| Mime.DigestPayloads | pyzor/digest.go:226-235 | its result is the payloads of the leaves of the message's part tree |
| Mime.WalkPart | pyzor/digest.go:237-287 | the same for one part: multiparts flattened, embedded messages descended into, multiparts without boundary taken as one leaf |
| Mime.WalkParts | pyzor/digest.go:255-265 | the appending loop concatenates what the parts give, in order |
| Mime.PayloadsInDocumentOrder | pyzor/digest.go:226-287 | one payload for each leaf of the tree, at the leaf's place in document order, none lost or repeated |
| Mime.MessageLoad | pyzor/digest.go:226-287 | however parts nest, the leaves' raw bodies and their number together never exceed the message's length plus one |
| Mime.TextIsValidUtf8 | pyzor/digest.go:381-398 | a decoded text is valid UTF-8 for every charset name and every body, if the library's codecs yield that |
| MimeLaws.UnreadableMessage | pyzor/digest.go:226-235 | what does not parse as a message is one payload as it is |
| MimeLaws.ReadableMessage | pyzor/digest.go:226-235 | what does gives the payloads of its body under its header |
| MimeLaws.MultipartIsWalked | pyzor/digest.go:254-266 | a multipart with a boundary gives the payloads of its parts, in order |
| MimeLaws.UnboundedMultipartIsRaw | pyzor/digest.go:246-253 | a multipart without one is one payload as it is |
| MimeLaws.EmbeddedIsWalked | pyzor/digest.go:268-273 | message/rfc822 gives the payloads of the message inside |
| MimeLaws.TextIsDecoded | pyzor/digest.go:275-282 | a text part is decoded by transfer encoding and charset; of text/html, and only of it, the tags are stripped |
| MimeLaws.OtherIsRaw | pyzor/digest.go:284-287 | any other part is one payload, still encoded |
| MimeLaws.DefaultIsPlainAscii | pyzor/digest.go:237-245 | a part whose type is absent or does not parse is read as plain text in ASCII |
| MimeLaws.BareTextIsDecoded | pyzor/digest.go:306-311 | the type text without a subtype is no HTML |
| MimeLaws.BareTypeHasNoSubtype | pyzor/digest.go:306-311 | any other type without a subtype, message included, is one payload as it is |
| MimeLaws.Base64IsDecoded | pyzor/digest.go:315-328 | base64 with any noise in it yields the bytes encoded |
| MimeLaws.BrokenBase64IsRaw | pyzor/digest.go:317-328 | base64 that is not well padded once filtered is left as it is |
| MimeLaws.QuotedPrintableIsDecoded | pyzor/digest.go:329-331 | quoted-printable, in any case and with blanks round the name, goes through its reader |
| MimeLaws.OtherEncodingIsNone | pyzor/digest.go:332-334 | any other transfer encoding leaves the body as it is |
| MimeLaws.AsciiIsFiltered | pyzor/digest.go:381-384 | no charset, or a name of ASCII: the bytes below 0x80 |
| MimeLaws.Utf8IsCleaned | pyzor/digest.go:385-387 | a name of UTF-8: the input without its invalid bytes |
| MimeLaws.UnknownCharsetIsAscii | pyzor/digest.go:388-396 | a charset that is unknown or does not decode: the bytes below 0x80 |
| MimeLaws.KnownCharsetIsDecoded | pyzor/digest.go:388-398 | a known one: its text without the runes U+FFFD |
| Accounts.SameAddress | pyzor/account.go:167-183 | loading and saving see the same address in a line |
| Accounts.AddrInjective | pyzor/client.go:40 | the address of a host without a colon determines host and port |
| Accounts.PrintedLineParses | pyzor/account.go:113-115 | a well-formed line is read back as its server's address and account |
| Accounts.ParsedIsPlain | pyzor/client.go:423-442 | whatever is loaded is well formed and could have been printed |
| Accounts.LineRoundTrip | pyzor/account.go:53-61 | printing and parsing give a binding back exactly when it is well formed |
| AccountLines.EntryReadIff | pyzor/client.go:410-444 | a line is loaded as an entry exactly when it has four colon-free cells, padded in any way, with host, port numeral, user, and salt and key with a comma between, not both empty; and no '#' in front |
| AccountLines.AddressReadIff | pyzor/account.go:167-183 | an edit reads an address off exactly such lines, whatever the last two cells hold |
| AccountLines.PaddedLineIsRead | pyzor/account.go:167-183 | a well-formed binding is read, by loader and edit, with any whitespace or none round its cells |
| AccountLines.AddrReads | pyzor/client.go:40 | an address is host, colon and port, the host in brackets when it holds a colon |
| AccountsFile.LoadAccounts | pyzor/client.go:410-444 | the loader computes the map the file stands for: last line wins, up to the first line beyond the scanner's buffer |
| AccountLines.FileMeans | pyzor/client.go:410-444 | for every text: an address is bound to an account exactly when the last line read for it says so, among those up to the first line of 65536 bytes or more |
| AccountLines.OneLineFile | pyzor/client.go:410-444 | a file of one line binds what the line says, with or without a final newline |
| AccountLines.PaddedFileLoads | pyzor/client.go:410-444 | a file of one well-formed line, padded anyhow, binds that address to that account |
| AccountsFile.EditAccounts | pyzor/account.go:137-160 | the edit drops lines of the given addresses and blank ones, keeps the others, appends one line for each server |
| AccountLines.OldLineStays | pyzor/account.go:137-152 | an old line, comment or not, stays without its final carriage returns exactly when something is left of it and no given address is read off it |
| AccountsMeaning.SaveThenLoad | pyzor/account.go:117-163 | loading after saving gives the old map with exactly the given addresses rebound, for any old file |
| AccountsMeaning.SavedBindingsLoad | pyzor/account.go:117-163 | all given addresses load as the account exactly when every field can be printed on its line and every line fits the scanner |
| AccountsMeaning.SaveOverridesIff | pyzor/account.go:117-163 | for any old file and any servers, loading after saving gives the old map with exactly the given addresses rebound, just when all is printable, all lines fit, and no unread rest of the old file comes to light |
| AccountsMeaning.SaveTwice | pyzor/account.go:137-160 | for any accounts, saving a and then b writes byte for byte what saving b alone writes, exactly when each line that a's text falls into is blank or recognised |
| AccountsMeaning.SaveTwiceOneLine | pyzor/account.go:137-160 | without newlines in the fields: exactly when a's printed lines are recognised |
| AccountsMeaning.NewlineIsNotReplaced | pyzor/account.go:113-115 | with a newline in the user name the first save is not replaced |
| AccountsMeaning.SaveOverwrites | pyzor/account.go:117-121 | for well-formed servers a later save replaces an earlier one byte for byte; with the same account it is idempotent |
| AccountsMeaning.UnreadRestComesToLight | pyzor/account.go:137-160 | an overlong line of one server hides the line behind it until a save drops it: then saving is no map update |
| IndependentSaves.DisjointSavesCommuteIff | pyzor/account.go:117-163 | for every old file, saves for disjoint addresses commute under loading exactly when reading stops in the lines both keep, or all new lines fit, or the first of neither does |
| IndependentSaves.DisjointSavesCommute | pyzor/account.go:117-163 | for every old file they commute when the new lines fit |
| AccountsMeaning.ColonHostIsNotRecognised | pyzor/account.go:169-183 | a line printed for a host with a colon is neither loaded nor recognised |
| DiskFiles.Disk.Write | pyzor/account.go:196-200 | data reaches the temporary file piece by piece; a failure leaves a prefix |
| DiskFiles.Disk.WriteFileAtomic | pyzor/account.go:185-207 | at every step the path holds the old or the complete new text; an error leaves the old text; the temporary file stays only if removing it fails |
| DiskFiles.Disk.SaveAccount | pyzor/account.go:117-165 | succeeds exactly without a fault and with valid arguments, and then changes the accounts file only, to the edited text; every state on the way loads as before or with exactly the given addresses rebound |
| DiskFiles.CrashLeavesOldOrNewBindings | pyzor/account.go:117-207 | a state in which the accounts file holds the old or the new text loads as before, or as before with exactly the given addresses rebound |
| Message.Request.constructor | pyzor/message.go:36-48 | a new request starts with its operation, then digest and spec when given |
| Message.HeaderTextNext | pyzor/message.go:22 | an added header shows as one more line at the end of the printed text |
| Message.AddedHeaderArrives | pyzor/message.go:22 | an added clean header changes exactly its own field for the receiver, whatever stands in front of it |
| Message.Request.HeaderString | pyzor/message.go:76-87 | prints the header lines in order, joined by newlines |
| Message.Request.Serialize | pyzor/message.go:59-74 | the packet is the completed header list, printed, and a blank line; the operation stays |
| Message.WireIsSignedTextAndSig | pyzor/message.go:59-74 | on the wire: the signed text byte for byte, the Sig line over it, a blank line |
| Wire.RequestOnTheWire | pyzor/message.go:27-87 | the packet of a request, character by character: operation, digest if any, spec only with a digest, thread, version, user, time, and the signature with its nested hashes |
| Wire.RequestIsRead | pyzor/message.go:27-110 | the receiver of a clean request reads those fields and no others |
| Message.ParseResponse | pyzor/message.go:92-110 | the parser computes the field map of the packet's lines, later ones winning |
| Wire.LineReadIff | pyzor/message.go:92-110 | a line is read as a header exactly when it is a key without colon, a colon and a value, padded in any way |
| Wire.PacketMeans | pyzor/message.go:92-110 | for every packet: a field has a value exactly when the last line with its key says so |
| Message.HeaderRoundTrip | pyzor/message.go:92-110 | a header survives printing and parsing exactly when its key has no colon and both parts are trimmed |
| Message.ParseInvertsPrint | pyzor/message.go:63-110 | parsing a printed list of such one-line headers gives its map |
| Message.HeaderMapExact | pyzor/message.go:63-110 | with distinct keys that map has exactly the headers |
| Message.HeaderTextInjective | pyzor/message.go:76-87 | different header lists with newline-free fields never print alike |
| Signature.NewlineMakesListsAlike | pyzor/message.go:76-87 | a newline in a value makes two different lists print alike |
| Signature.SignedTextInjective | pyzor/message.go:63-87 | the signed text tells operation, digest, user, time and thread, whatever the user name: different requests never sign the same text |
| Reply.Validate | pyzor/message.go:119-139 | accepts exactly complete replies whose thread is an integer below 1024 or the request's own |
| Reply.RequireCounts | pyzor/message.go:146-161 | accepts exactly replies whose two counts are present and integers |
| Reply.Accept | pyzor/client.go:355-371 | query returns a reply exactly when it is valid and, for a check with code 200, has both counts |
| Reply.AcceptableMeans | pyzor/message.go:119-161 | for every packet: four fields, a numeral for a thread below 1024 or the request's own, and with code 200 to a check two numerals as counts |
| Reply.GarbledThreadRejected | pyzor/message.go:119-139 | a thread that is missing or holds a character neither digit nor sign is rejected for every request |
| Reply.GarbledCountRejected | pyzor/message.go:146-161 | a successful check reply with such a count is rejected, never taken for 0 |
| Reply.FieldArrives | pyzor/message.go:92-110 | a field of a printed header list arrives as it was sent |
| Arrival.FieldsAreClean | pyzor/message.go:92-110 | keys and values read from any packet are trimmed and hold no newline, keys no colon |
| Arrival.ArrivesIffClean | pyzor/message.go:76-110 | a header list with distinct keys is read back exactly, nothing lost and nothing added, if and only if each header is clean |
| Arrival.RequestArrivesIff | pyzor/message.go:63-110 | a signed request is read back as exactly the headers added to it, if and only if operation, digest, user name and signature are trimmed and hold no newline |
| Arrival.UncleanUserIsMisread | pyzor/message.go:63-110 | user names with a newline, or a blank in front, with which it is not |
| Reply.SharedReplyIsError | pyzor/message.go:119-139 | a packet that two requests accept is accepted by every request, and is an error reply |
| Reply.PrintedForeignReplyRejected | pyzor/message.go:50-57 | the clean reply printed for another request is rejected |
| Reply.LastThreadDecides | pyzor/message.go:92-139 | any printed text, clean or not, that ends with the Thread line of another request is rejected |
| Reply.CheckReplyArrives | pyzor/client.go:309-316 | a complete reply to a check is accepted and yields exactly the integers printed |
| Text.AtoiInvertsItoa | pyzor/message.go:141-144 | decimal parsing inverts printing over all 64-bit integers |
| Numerals.AtoiMeaning | pyzor/message.go:141-144 | for every text: a numeral (sign, digits) gives its number or the nearest limit of 64 bits, anything else gives 0 |
| Numerals.AtoiOkIff | pyzor/client.go:428-431 | parsing succeeds exactly on numerals within 64 bits, leading zeros and plus signs included |
| Numerals.GarbageIsNoNumber | pyzor/message.go:154-158 | one character that is neither digit nor sign spoils a number |
| Numerals.ItoaIsCanonical | pyzor/message.go:64-67 | printing gives the one numeral without plus sign and leading zeros |
| Fanout.StepInv | pyzor/client.go:295-320 | every step of the caller or of a goroutine keeps permits, wait group, start order and slots accounted for |
| Fanout.AtMostMaxFanoutQueries | pyzor/client.go:21-24 | in every state of every interleaving at most sixteen queries are under way, each with a permit |
| Fanout.SideBySide | pyzor/client.go:295-320 | for every k up to sixteen and the number of servers, some run has k queries under way at once |
| Fanout.WaitsOnlyWhenFull | pyzor/client.go:298-306 | the caller waits for a permit exactly while sixteen goroutines hold one |
| Fanout.SlotWrittenOnceByOwner | pyzor/client.go:303-318 | a slot changes only in its own goroutine's store, once, to that server's answer |
| Fanout.NeverStuck | pyzor/client.go:295-320 | until the caller has returned, some step is possible: no deadlock |
| Fanout.MoveOf | pyzor/client.go:303-319 | every goroutine that was started and has not ended can take its next step, whatever the others do |
| Fanout.RunMeasure | pyzor/client.go:295-320 | every step of every interleaving brings the end nearer by one |
| Fanout.EveryRunReturnsAllAnswers | pyzor/client.go:292-330 | every interleaving returns after exactly 7n + 1 steps, with no permit held and the answers in server order |
| Fanout.EveryRunCanBeCompleted | pyzor/client.go:292-330 | however an interleaving began, it can be continued to one that has returned with all answers |
| Verdict.CheckDigest | pyzor/client.go:202-220 | the aggregates are the largest counts of the successful servers, at least zero |
| Verdict.AggregatesAreUnique | pyzor/client.go:202-220 | which determines them |
| Verdict.NoServerNoCounts | pyzor/client.go:202-220 | no server, no counts |
| Verdict.OneMoreCounts | pyzor/client.go:202-220 | one more server anywhere raises the maxima when it replied with code 200, and has no say otherwise |
| Verdict.Hit | pyzor/client.go:222-248 | spam exactly when all servers succeeded, none whitelists beyond its threshold and some count exceeds its own |
| Verdict.AllOk | pyzor/client.go:250-261 | true exactly when there is a server and all succeeded |
| Verdict.VerdictFromAggregates | pyzor/client.go:202-248 | for non-negative thresholds the verdict can be read off the aggregates |
| Verdict.AggregatesSufficeIffNonNegative | pyzor/client.go:202-248 | that law holds on all answers exactly for non-negative thresholds |
| Verdict.OrderDoesNotMatter | pyzor/client.go:202-248 | verdict and aggregates do not depend on the order of the servers |
| Verdict.StricterThresholdsOnlyClear | pyzor/client.go:231-248 | the verdict is antitone in the report threshold and monotone in the whitelist threshold |
| Verdict.OneMoreServer | pyzor/client.go:222-248 | what one more server anywhere in any list does to the verdict; a failed one always clears it |
| Verdict.VerdictIsScheduleIndependent | pyzor/client.go:206-330 | the same answers give the same verdict, however the queries were scheduled and the servers listed |
| Check.VerdictOfPackets | pyzor/client.go:202-372 | for any packets and any schedule: spam exactly when every reply is accepted with code 200 and whitelists at most w, and one counts more than r |
| Check.VerdictOfReplies | pyzor/client.go:202-372 | when all servers print clean replies, the verdict is read off the numbers printed |
| Resolver.LookupSeesLastEvent | pyzor/client.go:74-102 | over any history of stores and removals, a lookup hits exactly when the last event about its key was a store less than thirty seconds old, whatever happened to other keys |
| Resolver.AddrCache.Invalidate | pyzor/client.go:97-102 | removes this entry and no other |
| Resolver.AddrCache.Resolve | pyzor/client.go:71-95 | one undisturbed call: hit, failure that changes nothing, or answer that is stored |
| Resolver.StepInv | pyzor/client.go:74-102 | every step of concurrent callers keeps all entries vouched for by a successful resolver call |
| Resolver.ServedIsFresh | pyzor/client.go:71-95 | whatever the interleaving, the address a call ends with, cached or not, was answered for the same key by a resolver call made less than thirty seconds before the call began |
| Resolver.LookEndsIffFresh | pyzor/client.go:71-83 | a call ends at its lookup with the cached address exactly when that has not expired, and otherwise goes on to ask the resolver |
| Resolver.CachedIffStoredSince | pyzor/client.go:74-102 | in every run, a key is cached exactly when it was stored since its last removal |
| Resolver.RemovalHoldsIffNoneUnderWay | pyzor/client.go:97-102 | after a removal the key is cached again only once the resolver has been asked anew, whatever other callers do, exactly when no call for it was under way |
| Resolver.RemovalIsUndoneByCallUnderWay | pyzor/client.go:97-102 | a call under way stores its older answer after a removal, and the next caller is served it |

## Left out

- Strings with invalid UTF-8 in `normalize` and `splitLines`: they are sequences of runes here. `Mime.TextIsValidUtf8` covers decoded texts; raw, undecoded payloads may hold other bytes.
- Packets and the accounts file are sequences of runes too: bytes that are not UTF-8 in them are not modelled, nor is the length limit of a packet.
- MessageDigest.Compute: only for messages whose payloads are valid UTF-8.
- Digest.Compute: takes the payloads as given; finding them is module `Mime`, the whole is `MessageDigest.Compute`.
- Reply.Accept: the part of `query` behind the socket; the packet is an argument.
- SHA1, hexadecimal printing and lower-casing are parameters of `Message` and `Wire`; `deriveKey` and `GenKey` are straight-line.
- The HTML tokenizer, the quoted-printable reader, other codecs, the media-type, header and multipart parsers: parameters of `Mime`.
- Mime.TextIsValidUtf8: takes it from the codecs that what they decode is valid UTF-8.
- Mime.DigestPayloads: needs of its parsers that a message's header takes at least one byte and that parts are disjoint stretches of their container, each behind a delimiter.
- UDP, deadlines, DNS and the buffer pool: a query is an arbitrary outcome for each server that eventually comes; a resolver call an arbitrary answer.
- Fanout.NeverStuck: every query returns at some time (the deadline); fairness of the scheduler is not modelled.
- `broadcast` beyond `Verdict.AllOk`, which makes the same decision; logging of results.
- LoadServers: its regular expression is not anchored at the end, and nothing reads back what it would write.
- `New`, `account` and `DefaultAccount`: selection of defaults.
- `cmd/gyzor`: flags, environment, HTTP handlers, metrics; its request gate is a weaker form of the semaphore proved here.
- DiskFiles.Disk.WriteFileAtomic: takes each primitive operation, the rename included, to be atomic and lasting; file modes and the synchronisation of a disk's buffers are not modelled.
- DiskFiles.Disk.SaveAccount: the directory's creation only succeeds or fails, and no other process writes the file between reading and renaming.
- AccountsMeaning.SaveThenLoad: requires the old file's lines to fit the scanner; `AccountsMeaning.SaveOverridesIff` is the law for every old file.
- Reading errors in the middle of the accounts file, which the loader takes for its end.
