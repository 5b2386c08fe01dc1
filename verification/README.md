# Model of the OIDC token validator

The repository is a PostgreSQL module that decides whether a bearer token authorizes a connection.
It fetches the issuer's documents over HTTP through a cache shared by all backends, parses them and
the token with vendored JSON, base64 and JWT code, chooses a key, verifies the token and compares
scopes. This project models that code in Dafny and proves what it promises.

`dafny verify dfyconfig.toml` checks everything.

## The parts

- **JSON** (`Json*.dfy`, `Utf8.dfy`). `JsonInput` is the push-back stream and `JsonParser` the
  recursive-descent parser over it, both in the imperative form of the source. `JsonGrammar` says what
  they compute as functions of the text that is left, `JsonText` what the printer writes and
  `JsonPrinter` how. `JsonRoundTrip` proves that parsing undoes printing, `JsonReading` and
  `JsonLocality` what every parse has in common, and `JsonTheorems` the laws that the rest uses.
  `JsonSyntax` builds texts as RFC 8259 does, without any parser, and proves what the parser makes of
  each; `JsonRfc` says which of them are accepted and what the parser accepts beyond them.
  `JsonNumbers` takes literals apart and says what each is worth; `JsonLayout` describes printed text
  by its characters alone.
- **base64** (`Base64*.dfy`). The loops, the recursive count of fills, pad and trim, and the laws:
  round trips, the kernel of decoding and its exact domain. `Base64Meaning` says what all of it
  stands for, from the tables and the bit order of RFC 4648.
- **Tokens** (`Token.dfy`, `Verifier.dfy`, `KeyHandles.dfy`, `EcdsaFormat.dfy`). Signing and decoding
  in JWS compact form, the configurable verifier, reference counts of key handles, and the
  fixed-width format of ECDSA signatures.
- **The shared cache** (`SharedTable.dfy`, `EntryRefs.dfy`, `HttpCache.dfy`, `HttpClient.dfy`).
  Double-checked creation as a state machine over the single accesses of any number of backends, the
  accounting of entry locks, the cache over fixed char arrays, and `get_json` on top of it.
- **The decision** (`Jwks.dfy`, `Scopes.dfy`, `Validator.dfy`). Key selection, scope matching and
  `validate_token` over every way out.

`ByteStrings` and `Holding` hold what several parts share.

## How it is modelled

- A `std::string` is a sequence of characters below 256. `c_str()` is the part before the first NUL.
- A `picojson::value` is `JsonValue.Value`. An object is a map that is printed in byte order of its
  keys. A number that is no int64 keeps the literal it was read from; how it prints, which second it
  rounds to and when two are equal are arguments, so each theorem holds for every choice of them.
  Round trips and equality are stated for double-free values.
- Shifts and masks are quotients and remainders by powers of two; `Utf8.BitForms`,
  `Utf8.CombineBits` and the `Bits` lemmas of `Base64Code` compare the two on machine words.
  The tables of base64 symbols and indices are written as ranges, which `Base64Meaning` compares
  with the tables.
- Exceptions and error codes are results; where all of them end the same way they are one result.
- A plain `char` is signed, as on x86.
- A decimal literal that rounds to an infinite double makes `value(double)` throw. The parser's
  specification refuses it as it refuses a syntax error; the limit is computed exactly.
- The transfer of a document, the clock, cryptography, PEM text and the tenant that a regular
  expression finds are arguments. A transfer carries, for each header line, the max-age that the
  regular expression finds in it.
- Each class of the source that changes in place is a class here, and each of its methods is held to
  a function of the old state; the laws are proved about those functions.
- The iteration order of the verifier's hash map is left open: `Verify` takes any claim that is left.

## Where the code differs from what one might expect

- `parse_object_start` (`jwt-cpp/include/picojson/picojson.h:1013`) does not take a unit of depth,
  so only arrays count, and `parse_object_stop` gives one back all the same. Only the context of
  that object sees it, and it is not used again. `JsonTheorems.ObjectsNestFreely` gives the texts that
  nest objects without bound.
- `input::cur` moves over a byte without counting a newline. `JsonInput.Input.Run` says exactly when
  the line count survives that, and `JsonInput.CurMissesNewline` gives a sequence where it does not.
- `input::match` compares a `char` with an `int`, so it finds a pattern where it comes next only for
  ASCII patterns (`JsonInput.PrefixIffAscii`); the three that the parser uses are.
- `azure_scopes_match` lets a required scope without a slash pass although it was not received.
  `Scopes.AzureMatchMeaning` says exactly when a match means what it should.
- `evp_pkey_handle`'s assignment from a raw pointer drops the old reference first.
  `KeyHandles.StepKeeps` says exactly when that is harmless.
- `header_callback` sets the max-age on every header line (`src/http_client.cpp:43`), so the last
  line decides. `HttpClient.LastLineDecides`: if that line has no max-age, as the blank one that ends
  the headers has none, the answer is not cached whatever the lines in front of it say.
- Expired entries are erased on lookup. `HttpCache.ErasingIsUnobservable` says exactly when that
  cannot be told from a map that keeps them; a clock that does not run back is enough, and
  `HttpCache.ClockMustNotRunBack` gives a run that tells the difference.
- A guard whose `dshash` object has been moved away keeps its lock for ever;
  `EntryRefs.ReleasedOnceIffNotStranded` says exactly when that does not happen.
- The parser takes numbers that RFC 8259 does not allow: with a zero in front of other digits, without
  a digit in front of the point, and without one behind it. `JsonRfc.RfcNumberIff` says that there are
  no others, and three lemmas give one text of each kind. It also takes any bytes from 0x20 on inside
  strings, and `parse` ignores what follows the value.
- The parser refuses a surrogate that stands alone, which the grammar of RFC 8259 lets through.
  `JsonRfc.RfcTextsExactly` says exactly which texts of RFC 8259 are accepted.
- An RSA key without `alg` is taken for RS256.
- A segment of a token may carry two fills of its own, `%3d%3d`, when its symbols are two more than a
  multiple of four: the fill has three bytes, so `pad` takes such a text for complete.
  `Base64Meaning.SegmentAccepts` says that this is the only addition to bare symbols.

## Model

| member | source | states |
|---|---|---|
| `JsonInput.Input.GetC` | jwt-cpp/include/picojson/picojson.h:661-674 | the next byte or -1; the pair `cur`/`consumed` moves as the plain index of `Got` does, and the line keeps its distance from the newlines before `cur` |
| `JsonInput.Input.UngetC` | jwt-cpp/include/picojson/picojson.h:675-677 | gives the last byte back exactly when one was handed out; at the end of the text it changes nothing |
| `JsonInput.Input.Cur` | jwt-cpp/include/picojson/picojson.h:678-685 | the position behind what was read; the line falls one behind exactly when the byte it steps over is a newline |
| `JsonInput.CurMissesNewline` | jwt-cpp/include/picojson/picojson.h:678-685 | a concrete sequence that reaches that state: read a newline, then ask for the position |
| `JsonInput.Input.SkipWs` | jwt-cpp/include/picojson/picojson.h:689-697 | leaves the input at the first byte that is no white space |
| `JsonInput.Input.Expect` | jwt-cpp/include/picojson/picojson.h:698-705 | skips white space and takes one byte exactly when it is the expected one |
| `JsonInput.Input.Match` | jwt-cpp/include/picojson/picojson.h:706-714 | compares a signed `char` with `getc` byte by byte; for an ASCII pattern it succeeds exactly when the text goes on with it |
| `JsonInput.MatchMeans` | jwt-cpp/include/picojson/picojson.h:706-714 | for every pattern, when it is matched: its ASCII bytes come next, and any others are 0xff at the end of the text |
| `JsonInput.PrefixIffAscii` | jwt-cpp/include/picojson/picojson.h:706-714 | a pattern is matched exactly where it comes next if and only if it is ASCII |
| `JsonInput.Input.Run` | jwt-cpp/include/picojson/picojson.h:652-715 | every sequence of stream operations, `cur` included, does to the stream what it does to a plain index into the text; the line is one plus the newlines before `cur` if and only if `cur` was never called with a newline pending |
| `JsonInput.MatchedMeans` | jwt-cpp/include/picojson/picojson.h:706-714 | matching on the index never gets beyond the pattern, and gets through an ASCII one if and only if it is a prefix of what is left |
| `JsonParser.ParseQuadHex` | jwt-cpp/include/picojson/picojson.h:717-736 | four hexadecimal digits and their number, or -1 |
| `JsonParser.PushUtf8` | jwt-cpp/include/picojson/picojson.h:760-775 | appends the bytes of `Utf8.Encode` |
| `JsonParser.ParseCodepoint` | jwt-cpp/include/picojson/picojson.h:738-777 | what an accepted escape appends and where it stops; failure for lone surrogates |
| `JsonParser.ParseString` | jwt-cpp/include/picojson/picojson.h:779-818 | the string loop computes `StringFrom`: escapes, control characters refused, stops behind the quote |
| `JsonParser.ParseEscape` | jwt-cpp/include/picojson/picojson.h:788-812 | the part behind a backslash: what it appends, or failure |
| `JsonParser.ParseNumber` | jwt-cpp/include/picojson/picojson.h:856-874 | collects the longest run of number characters and nothing behind it |
| `JsonParser.ParseNumberValue` | jwt-cpp/include/picojson/picojson.h:898-923 | an int64 if all of the text is one in range, else a decimal literal unless it rounds to infinity, else failure |
| `JsonParser.Context.ParseArrayStart` | jwt-cpp/include/picojson/picojson.h:996-1002 | an array takes one unit of depth, and is refused when none is left |
| `JsonParser.Context.ParseObjectStart` | jwt-cpp/include/picojson/picojson.h:1013-1018 | an object needs a unit of depth but takes none |
| `JsonParser.Context.ParseObjectStop` | jwt-cpp/include/picojson/picojson.h:1024-1027 | gives a unit back that the object had not taken; only the object's own context sees it |
| `JsonParser.ParseArray` | jwt-cpp/include/picojson/picojson.h:820-835 | the array loop computes the specification of `ItemsFrom`, and returns the budget unchanged |
| `JsonParser.ParseObject` | jwt-cpp/include/picojson/picojson.h:837-854 | the object loop computes the specification of `MembersFrom`; a repeated key gets its last value |
| `JsonParser.Parse` | jwt-cpp/include/picojson/picojson.h:876-928 | the mutually recursive parser terminates on every text (unread bytes decrease) and computes `ValueFrom`: same value, same rest, same failures |
| `JsonParser.ParseText` | jwt-cpp/include/picojson/picojson.h:1122-1131 | `parse` with the default budget of 100 |
| `JsonGrammar.NumberSpanMeans` | jwt-cpp/include/picojson/picojson.h:856-874 | the collected run holds only number characters and the byte behind it is none |
| `JsonReading.ValueConsumes` | jwt-cpp/include/picojson/picojson.h:779-928 | a successful parse has read a prefix of its text that holds no NUL |
| `JsonReading.ValueFits` | jwt-cpp/include/picojson/picojson.h:966-1027 | whatever is accepted fits the depth budget it was given |
| `JsonReading.BudgetMonotone` | jwt-cpp/include/picojson/picojson.h:966-1027 | a larger budget accepts all that a smaller one does, with the same value and the same rest |
| `JsonLocality.ValueLocal` | jwt-cpp/include/picojson/picojson.h:876-928 | a parse depends only on the bytes it reads and on whether a number character follows: any other text may be put behind |
| `JsonLocality.CutAtNul` | jwt-cpp/include/picojson/picojson.h:1122-1131 | a text that parses, cut at its first NUL, parses to the same value |
| `JsonValue.FitsIffShallow` | jwt-cpp/include/picojson/picojson.h:996-1027 | the recursive budget is the same as: no array or object lies beneath that many arrays on any path |
| `JsonTheorems.AcceptedDepth` | jwt-cpp/include/picojson/picojson.h:996-1027 | in every accepted value no array or object lies beneath 100 arrays and no path crosses more than 100 arrays |
| `JsonTheorems.ObjectsNestFreely` | jwt-cpp/include/picojson/picojson.h:1013-1027 | any number of objects inside each other is accepted: the budget does not bound them |
| `JsonSyntax.TreeReads` | jwt-cpp/include/picojson/picojson.h:717-928 | the text of every syntax tree is read as the tree means and to its end, and refused exactly when the tree means nothing |
| `JsonSyntax.ReadsExactlyTheSyntax` | jwt-cpp/include/picojson/picojson.h:717-928 | the parser returns a value and leaves a rest if and only if some syntax tree spells the text in front of that rest and means that value within the budget |
| `JsonSyntax.ParseExact` | jwt-cpp/include/picojson/picojson.h:1122-1131 | `parse` gives a value if and only if the text starts, behind white space, with a tree that means it within 100 units of depth |
| `JsonNumbers.NumberCharExact` | jwt-cpp/include/picojson/picojson.h:856-874 | the characters collected for a number are the ten digits, plus, minus, point and e in either case |
| `JsonNumbers.DigitsValueExact` | jwt-cpp/include/picojson/picojson.h:906-915 | digits are worth what they are in base ten |
| `JsonNumbers.Int64Exact` | jwt-cpp/include/picojson/picojson.h:906-915 | an integer is read if and only if the text is a sign or none and digits, and its number is between -9223372036854775808 and 9223372036854775807 |
| `JsonNumbers.DecimalExact` | jwt-cpp/include/picojson/picojson.h:917-921 | the decimal literals are: a sign or none, digits on at least one side of a point, an exponent or none |
| `JsonNumbers.NumberExact` | jwt-cpp/include/picojson/picojson.h:898-923 | what becomes of a number in every case: an int64, else the literal unless its digits, scaled by point and exponent, reach the limit, else failure |
| `JsonNumbers.LimitIsMidpoint` | jwt-cpp/include/picojson/picojson.h:917-921 | that limit is half way between the largest double and two to the 1024th |
| `JsonNumbers.RfcNumberExact` | jwt-cpp/include/picojson/picojson.h:856-923 | the numbers of RFC 8259 among those literals: no plus in front, a digit on both sides of the point, no zero in front of other digits |
| `JsonRfc.MeaningExists` | jwt-cpp/include/picojson/picojson.h:738-928 | a tree has a meaning if and only if it keeps the budget, every surrogate has its partner and every literal is a number that the parser can hold |
| `JsonRfc.RfcTextsExactly` | jwt-cpp/include/picojson/picojson.h:717-928 | every text of RFC 8259, with any white space, any way to write a character and repeated names: accepted, with its value, if and only if it keeps the budget, every surrogate has its partner and no number is too large for a double |
| `JsonRfc.RfcTextsAreAccepted` | jwt-cpp/include/picojson/picojson.h:717-928 | in particular every such text within those limits is accepted |
| `JsonRfc.LoneSurrogateRefused` | jwt-cpp/include/picojson/picojson.h:743-756 | a concrete text of RFC 8259 that the parser refuses |
| `JsonRfc.RfcNumberIff` | jwt-cpp/include/picojson/picojson.h:898-923 | exactly which numbers the parser accepts are numbers of RFC 8259: a digit in front of the point, no zero in front of other digits, a digit behind the point |
| `JsonRfc.AcceptedIsRfcIff` | jwt-cpp/include/picojson/picojson.h:876-928 | of the syntax trees that the parser gives a value, exactly those whose literals all have such digits are trees of RFC 8259 |
| `JsonRfc.LeadingZeroAccepted` | jwt-cpp/include/picojson/picojson.h:906-915 | the parser takes `01` for the integer 1, which is no number of RFC 8259 |
| `JsonRfc.BarePointAccepted` | jwt-cpp/include/picojson/picojson.h:917-921 | it takes `1.` |
| `JsonRfc.BareFractionAccepted` | jwt-cpp/include/picojson/picojson.h:917-921 | it takes `-.5` |
| `JsonSyntax.TextInFront` | jwt-cpp/include/picojson/picojson.h:717-928 | what stands behind a tree does not change its text |
| `JsonPrinter.PrintString` | jwt-cpp/include/picojson/picojson.h:529-564 | appends the quoted and escaped string |
| `JsonPrinter.PrintIndent` | jwt-cpp/include/picojson/picojson.h:574-579 | a newline and two blanks for each level |
| `JsonPrinter.PrintItems` | jwt-cpp/include/picojson/picojson.h:591-599 | the loop over an array appends all items with their commas and line breaks |
| `JsonPrinter.PrintMembers` | jwt-cpp/include/picojson/picojson.h:614-627 | the loop over an object appends all members in key order |
| `JsonPrinter.Print` | jwt-cpp/include/picojson/picojson.h:581-650 | the appending recursion computes `Serialize`, compact and prettified |
| `ByteStrings.SortedKeys` | jwt-cpp/include/picojson/picojson.h:614-614 | the keys in strictly increasing byte order, each once: the order of `std::map` |
| `ByteStrings.LessExact` | jwt-cpp/include/picojson/picojson.h:614-614 | one key comes before another if and only if it ends, or has the smaller byte, at the first place where they differ |
| `JsonNumbers.IntTextExact` | jwt-cpp/include/picojson/picojson.h:487-492 | every integer is printed in base ten, with a minus exactly when it is negative and no zero in front of other digits |
| `JsonLayout.QuotedExact` | jwt-cpp/include/picojson/picojson.h:559-564 | a string is printed as its escaped bytes in order between two quotes |
| `JsonLayout.CompactLayout` | jwt-cpp/include/picojson/picojson.h:581-650 | compact text is brackets, commas, colons and the items, or the members in increasing byte order of their keys, with nothing else between |
| `JsonLayout.PrettyArray` | jwt-cpp/include/picojson/picojson.h:586-608 | prettified, each item stands on its own line, two blanks further in than the closing bracket; an empty array is two brackets |
| `JsonLayout.PrettyObject` | jwt-cpp/include/picojson/picojson.h:609-636 | the same for the members of an object, with a blank behind each colon |
| `JsonLayout.PrettyEnd` | jwt-cpp/include/picojson/picojson.h:581-650 | only the outermost prettified value ends in a newline |
| `JsonRoundTrip.EscapedStringReads` | jwt-cpp/include/picojson/picojson.h:529-564 | reading an escaped string gives the string back and stops behind its closing quote, whatever follows |
| `JsonRoundTrip.IntReads` | jwt-cpp/include/picojson/picojson.h:487-492 | the decimal text of every int64 is made of number characters and reads back as that integer |
| `JsonRoundTrip.ValueReads` | jwt-cpp/include/picojson/picojson.h:581-650 | the text of a value at any indentation parses to the value and is read to its end and no further |
| `JsonTheorems.BodyRoundTrip` | jwt-cpp/include/picojson/picojson.h:581-650 | for any budget: the text comes back as the value if and only if the nesting fits, and is refused otherwise |
| `JsonTheorems.CompactRoundTrip` | jwt-cpp/include/picojson/picojson.h:566-572 | compact text followed by anything that cannot extend a number: the value and exactly that remainder, or failure when too deep |
| `JsonTheorems.PrettyRoundTrip` | jwt-cpp/include/picojson/picojson.h:566-579 | prettified text parses to the same value; its final newline stays unread |
| `JsonTheorems.ParseSerialize` | jwt-cpp/include/picojson/picojson.h:1127-1131 | parse after serialize is the identity exactly on the values within the budget of 100 |
| `JsonTheorems.SerializationDecidesEquality` | jwt-cpp/include/jwt-cpp/jwt.h:3451-3453 | two double-free values of any nesting have the same text if and only if they are equal |
| `JsonTheorems.EscapeMeaning` | jwt-cpp/include/picojson/picojson.h:738-777 | an escape is accepted if and only if it names a scalar value, and then appends the one well-formed UTF-8 character of that value; lone surrogates name nothing |
| `JsonTheorems.HexValueExact` | jwt-cpp/include/picojson/picojson.h:723-731 | a byte is worth k as a hexadecimal digit if and only if it is the k-th of 0 to 9 and a to f in either case |
| `JsonTheorems.UnescapeExact` | jwt-cpp/include/picojson/picojson.h:791-804 | the eight letters that may follow a backslash, and the byte that each stands for |
| `JsonTheorems.EscapeByteExact` | jwt-cpp/include/picojson/picojson.h:529-557 | how each byte is printed: by one of those letters; a control character or DEL without one by four lower-case digits; any other as it is |
| `JsonTheorems.WsExact` | jwt-cpp/include/picojson/picojson.h:689-697 | white space is blank, tab, line feed and carriage return |
| `JsonTheorems.ToStrExact` | jwt-cpp/include/picojson/picojson.h:480-523 | `to_str` gives the bytes of a string, a word for an array or an object, and the compact text of anything else |
| `Utf8.EncodeCorrect` | jwt-cpp/include/picojson/picojson.h:760-775 | each scalar value is encoded by a character well-formed under section 4 of RFC 3629 that spells it |
| `Utf8.EncodeUnique` | jwt-cpp/include/picojson/picojson.h:760-775 | each well-formed character is the encoding of the scalar value it spells |
| `Utf8.BitForms` | jwt-cpp/include/picojson/picojson.h:760-775 | on 32-bit words the shifts, masks and ors are the quotients and sums used elsewhere |
| `Utf8.CombineBits` | jwt-cpp/include/picojson/picojson.h:757-758 | on 32-bit words the shift, mask and or of a surrogate pair are that sum |
| `Utf8.SurrogatePairsCover` | jwt-cpp/include/picojson/picojson.h:757-758 | each value from 0x10000 to 0x10ffff has a surrogate pair |
| `Utf8.SurrogatePairsInjective` | jwt-cpp/include/picojson/picojson.h:757-758 | and only one: the pair is recovered from the value |
| `Base64Code.EncodeLoop` | jwt-cpp/include/jwt-cpp/base.h:179-226 | the encoding loop computes `Encode` |
| `Base64Code.EncodeTail` | jwt-cpp/include/jwt-cpp/base.h:199-225 | the incomplete group and its fill |
| `Base64Code.DecodeLoop` | jwt-cpp/include/jwt-cpp/base.h:228-272 | the decoding loop computes `Decode` for every byte string and never indexes outside its input |
| `Base64Code.DecodeSymbols` | jwt-cpp/include/jwt-cpp/base.h:236-272 | the part behind the size checks: all octets, or an error as soon as a byte is outside the alphabet |
| `Base64Code.TripleBits` | jwt-cpp/include/jwt-cpp/base.h:187-191 | on 32-bit words the shifts that pack three octets are products and sums |
| `Base64Code.SextetBits` | jwt-cpp/include/jwt-cpp/base.h:193-196 | on 32-bit words the shifts and masks of the encoder are quotients and remainders |
| `Base64Code.OctetBits` | jwt-cpp/include/jwt-cpp/base.h:252-254 | the same for the octets of the decoder |
| `Base64Code.GroupBits` | jwt-cpp/include/jwt-cpp/base.h:249-263 | the same for packing four sextets, and for the or of a short group |
| `Base64Code.IndexOfSymbol` | jwt-cpp/include/jwt-cpp/base.h:32-61 | the two tables of an alphabet invert each other |
| `Base64Code.SymbolOfIndex` | jwt-cpp/include/jwt-cpp/base.h:71-100 | the same in the other direction |
| `Base64Meaning.SymbolExact` | jwt-cpp/include/jwt-cpp/base.h:32-78 | the symbol of each index is that of the table of RFC 4648: A to Z, a to z, 0 to 9, then + and / or - and _ |
| `Base64Meaning.IndexExact` | jwt-cpp/include/jwt-cpp/base.h:41-100 | a byte has an index if and only if it is in the table, and then it is its place there |
| `Base64Meaning.SymbolsMeaning` | jwt-cpp/include/jwt-cpp/base.h:179-226 | each group of four symbols and the group of three octets it stands for are the same 24-bit number, the first octet highest, missing octets zero; and how many symbols there are |
| `Base64Meaning.EncodeExact` | jwt-cpp/include/jwt-cpp/base.h:179-226 | an encoding is its symbols and one fill, `=` or `%3d`, for each octet the last group lacks |
| `Base64Meaning.PadExact` | jwt-cpp/include/jwt-cpp/base.h:279-289 | `pad` adds the fills that complete a multiple of four |
| `Base64Meaning.OctetsMeaning` | jwt-cpp/include/jwt-cpp/base.h:228-272 | the octets of a full group are the bits of its symbols, those of a short one their high bits |
| `Base64Meaning.DecodeOutcome` | jwt-cpp/include/jwt-cpp/base.h:228-272 | every byte string, by what stands in front of its fills and how many there are: too much fill, wrong size, not in the alphabet, or the octets |
| `Base64Meaning.SegmentAccepts` | jwt-cpp/include/jwt-cpp/base.h:228-289 | decode after pad accepts bare symbols in a possible number, and symbols that are two more than a multiple of four with both fills already there, and nothing else |
| `Base64Laws.CountsFills` | jwt-cpp/include/jwt-cpp/base.h:166-177 | `count_padding` counts exactly the fills behind the symbols, although part of `%3d` consists of symbols |
| `Base64Laws.DecodeCompleted` | jwt-cpp/include/jwt-cpp/base.h:228-272 | symbols completed by any mixture of accepted fills decode to the octets of the symbols |
| `Base64Laws.DecodePadded` | jwt-cpp/include/jwt-cpp/base.h:274-289 | decode after pad: the octets, or the error that the length deserves |
| `Base64Laws.DecodeAccepts` | jwt-cpp/include/jwt-cpp/base.h:228-272 | over all byte strings: decoding succeeds if and only if the text is symbols in a possible number followed by exactly their fill |
| `Base64Laws.DecodeDefined` | jwt-cpp/include/jwt-cpp/base.h:228-289 | decode after pad succeeds if and only if the length modulo 4 is not 1, and gives floor(3n/4) bytes |
| `Base64Laws.RoundTrip` | jwt-cpp/include/jwt-cpp/base.h:179-276 | decode(encode(x)) = x for both alphabets |
| `Base64Laws.TrimPad` | jwt-cpp/include/jwt-cpp/base.h:279-294 | trim undoes pad |
| `Base64Laws.TrimEncode` | jwt-cpp/include/jwt-cpp/base.h:291-294 | trim after encode leaves the bare symbols |
| `Base64Laws.TrimmedRoundTrip` | jwt-cpp/include/jwt-cpp/base.h:228-294 | decode(pad(trim(encode(x)))) = x for both alphabets |
| `Base64Laws.PercentRoundTrip` | jwt-cpp/include/jwt-cpp/base.h:108-137 | the percent-encoding variant decodes base64url with its fills in either case, mixed as they may be |
| `Base64Laws.DecodeKernel` | jwt-cpp/include/jwt-cpp/base.h:228-289 | two texts decode alike if and only if they have the same length and differ at most in the unused bits of the last symbol |
| `Base64Laws.ReencodeIffCanonical` | jwt-cpp/include/jwt-cpp/base.h:179-294 | decoding, encoding and trimming reproduces the text if and only if the unused bits are zero |
| `Token.Builder.SetHeaderClaim` | jwt-cpp/include/jwt-cpp/jwt.h:3136-3139 | replaces that header claim and nothing else |
| `Token.Builder.SetPayloadClaim` | jwt-cpp/include/jwt-cpp/jwt.h:3157-3160 | replaces that payload claim and nothing else |
| `Token.Builder.Sign` | jwt-cpp/include/jwt-cpp/jwt.h:3328-3360 | the signed token for the claims, `alg` filled in when absent; the builder stays as it was |
| `Token.DecodeToken` | jwt-cpp/include/jwt-cpp/jwt.h:3028-3043 | `decoded_jwt`: the nine fields, or which exception |
| `Token.SegmentRoundTrip` | jwt-cpp/include/jwt-cpp/jwt.h:3353-3360 | a segment holds no dot and decodes to the bytes it was made from |
| `Token.SegmentExact` | jwt-cpp/include/jwt-cpp/jwt.h:3353-3360 | a segment is the bare base64url symbols of its bytes |
| `Token.SignedTokenExact` | jwt-cpp/include/jwt-cpp/jwt.h:3328-3343 | the signed text is the header with `alg`, where the caller's own value wins, and the payload, as segments in this order with a dot between; the token adds a dot and the segment of the signature |
| `Token.ClaimsRoundTrip` | jwt-cpp/include/jwt-cpp/jwt.h:2755-2760 | claims come back from their text exactly when their nesting fits the parser's budget |
| `Token.TokenRoundTrip` | jwt-cpp/include/jwt-cpp/jwt.h:3328-3360 | decoding a signed token gives the payload claims, the header claims with `alg`, and the exact signature, and `verify` checks the very text that was signed; claims nested too deeply give invalid JSON instead |
| `Token.AcceptedToken` | jwt-cpp/include/jwt-cpp/jwt.h:3028-3043 | every token that decodes is three dot-free segments joined by two dots, and its claims are what the JSON of the first two spells |
| `Token.DecodeExact` | jwt-cpp/include/jwt-cpp/jwt.h:3028-3043 | a token decodes to nine fields if and only if it is three dot-free segments that decode to the header, the payload and the signature, and the JSON of the first two is an object with the claims |
| `Token.DecodeFailures` | jwt-cpp/include/jwt-cpp/jwt.h:3028-3043 | which exception every other token gives: fewer than two dots, a segment that is no base64url, a header and only then a payload that is no JSON or no object |
| `Verifier.EqualsIsStructural` | jwt-cpp/include/jwt-cpp/jwt.h:3440-3462 | on double-free values `equals_claim` passes if and only if the claim is present and structurally equal |
| `Verifier.EqualsOutcome` | jwt-cpp/include/jwt-cpp/jwt.h:3383-3462 | for every expected value: null, a missing claim, another type, equal or not, and the outcome of each; arrays and objects are compared by their texts |
| `Verifier.DateOutcome` | jwt-cpp/include/jwt-cpp/jwt.h:3469-3496 | a date check with its own leeway takes integers only, and passes up to the date plus the leeway, or from the date less the leeway; the outcome of every other case |
| `Verifier.SubsetOutcome` | jwt-cpp/include/jwt-cpp/jwt.h:3503-3527 | a string has to be the whole expected audience, an array of strings has to hold each of it; the outcome of every other case |
| `Verifier.DefaultChecks` | jwt-cpp/include/jwt-cpp/jwt.h:3631-3651 | for every token each default check passes if and only if its date is absent, or is a number, double or not, whose second the clock keeps to with the leeway; a date of any other type never passes |
| `Verifier.Verifier.constructor` | jwt-cpp/include/jwt-cpp/jwt.h:3630-3652 | the three default date checks, no leeway, no algorithm |
| `Verifier.Verifier.RequireAudience` | jwt-cpp/include/jwt-cpp/jwt.h:3734-3737 | registers the subset check for `aud` in place of any earlier one |
| `Verifier.Verifier.RequireClaim` | jwt-cpp/include/jwt-cpp/jwt.h:3768-3771 | registers a check for one claim in place of any earlier one |
| `Verifier.Verifier.Allow` | jwt-cpp/include/jwt-cpp/jwt.h:3801-3804 | registers an algorithm under its name |
| `Verifier.Verifier.Verify` | jwt-cpp/include/jwt-cpp/jwt.h:3821-3839 | for every order in which the claims are visited: passes if and only if `Accepts`, and otherwise reports a failure that some check really gives |
| `Verifier.RejectionReasons` | jwt-cpp/include/jwt-cpp/jwt.h:3821-3839 | which failures can be reported: no `alg`, an algorithm that is not allowed, the signature's, or that of a failing check; none if and only if the token is accepted |
| `Verifier.SetterMeaning` | jwt-cpp/include/jwt-cpp/jwt.h:3669-3784 | what each setter asks of a token, in terms of the claim itself, is exactly what the check that it registers tests |
| `Verifier.ConfigIsLastCalls` | jwt-cpp/include/jwt-cpp/jwt.h:3659-3804 | after any sequence of calls the configuration holds the last check of each claim, the last algorithm of each name and the last leeway |
| `Verifier.AcceptanceAfterCalls` | jwt-cpp/include/jwt-cpp/jwt.h:3630-3839 | after any sequence of calls a token is accepted if and only if its algorithm was allowed and the last signature check, and the last check registered for each claim, pass |
| `Verifier.AcceptanceMeaning` | jwt-cpp/include/jwt-cpp/jwt.h:3630-3839 | after any calls a token is accepted if and only if the last algorithm allowed under its `alg` passes the signature, the claims meet what the last call about each asks, and each date no call was about holds |
| `Verifier.AcceptedTimesAreAnInterval` | jwt-cpp/include/jwt-cpp/jwt.h:3469-3496 | the clock readings at which a token is accepted form an interval |
| `Verifier.LeewayOnlyWidens` | jwt-cpp/include/jwt-cpp/jwt.h:3659-3662 | more default leeway never rejects what was accepted |
| `Verifier.AcceptedWindow` | jwt-cpp/include/jwt-cpp/jwt.h:3631-3651 | with the default date checks a token accepted at some time is accepted at exactly the times from the later of `iat` and `nbf` less the leeway to `exp` plus the leeway |
| `Verifier.LimitsFitIff` | jwt-cpp/include/jwt-cpp/jwt.h:3631-3651 | the 64-bit computation of a limit does not overflow if and only if the date, with the leeway on either side, is at most 9223372036 seconds from the epoch |
| `Verifier.WindowAfterCalls` | jwt-cpp/include/jwt-cpp/jwt.h:3630-3839 | after any calls that leave the date checks alone the accepted times are exactly that window, with the last leeway set; so they form an interval that only grows with the leeway |
| `KeyHandles.StepKeeps` | jwt-cpp/include/jwt-cpp/jwt.h:449-495 | an operation touches no freed key if and only if it is not a raw-pointer assignment of a key that only the assigned handle refers to; every safe operation keeps each count equal to live handles plus outside references |
| `KeyHandles.StepMeaning` | jwt-cpp/include/jwt-cpp/jwt.h:449-495 | where each handle points behind an operation: a copy to the key of its source, a moved-from handle nowhere, all others where they did; which outside references change; and so each count |
| `KeyHandles.RunKeeps` | jwt-cpp/include/jwt-cpp/jwt.h:449-495 | over every sequence of operations, raw assignments only with a reference held by the caller, no freed key is touched and all counts stay right |
| `KeyHandles.RawSelfAssignFails` | jwt-cpp/include/jwt-cpp/jwt.h:475-480 | a concrete raw assignment that touches a freed key: the old reference is dropped before the new one is taken |
| `KeyHandles.Handles.CopyConstruct` | jwt-cpp/include/jwt-cpp/jwt.h:450-452 | the copy constructor's statements make that step, and conserve the counts |
| `KeyHandles.Handles.MoveConstruct` | jwt-cpp/include/jwt-cpp/jwt.h:457-460 | the same for the move constructor; no count changes |
| `KeyHandles.Handles.CopyAssign` | jwt-cpp/include/jwt-cpp/jwt.h:461-467 | the same for copy assignment, self-assignment included |
| `KeyHandles.Handles.MoveAssign` | jwt-cpp/include/jwt-cpp/jwt.h:468-474 | the same for move assignment |
| `KeyHandles.Handles.RawAssign` | jwt-cpp/include/jwt-cpp/jwt.h:475-480 | the same for raw-pointer assignment where it is safe |
| `KeyHandles.Handles.Destroy` | jwt-cpp/include/jwt-cpp/jwt.h:481-495 | the same for the destructor |
| `EcdsaFormat.FitsIff` | jwt-cpp/include/jwt-cpp/jwt.h:828-840 | a number takes at most k bytes if and only if it is below 256 to the k |
| `EcdsaFormat.BigEndian` | jwt-cpp/include/jwt-cpp/jwt.h:847-858 | the first byte of a number counts most |
| `EcdsaFormat.HalvesInOrder` | jwt-cpp/include/jwt-cpp/jwt.h:1742-1746 | the first half of the fixed form is r and the second is s |
| `EcdsaFormat.FixedRoundTrip` | jwt-cpp/include/jwt-cpp/jwt.h:1735-1739 | the size exception is raised if and only if r or s does not fit its half; otherwise the result has the full length and converts back to the same r and s |
| `EcdsaFormat.FixedIsExact` | jwt-cpp/include/jwt-cpp/jwt.h:1742-1746 | every byte string of the right length is the fixed form of the pair it is read as |
| `EntryRefs.StepKeeps` | src/dshash_wrapper.hpp:76-98 | while the owner has its table every operation keeps: each lock is owned by one guard, or has been released once |
| `EntryRefs.StepMeaning` | src/dshash_wrapper.hpp:67-98 | which guard owns which lock behind an operation, and that a lock is released exactly when its guard is destroyed or assigned over while the owner has its table |
| `EntryRefs.LocksReleasedOnce` | src/dshash_wrapper.hpp:76-98 | over every sequence of finds, moves and destructions of guards no lock is released twice, and when no guard is left each was released exactly once |
| `EntryRefs.ReleasedOnceIffNotStranded` | src/dshash_wrapper.hpp:76-98 | with moves of the `dshash` object too: no lock is ever released twice, and when no guard is left each was released exactly once if and only if no guard owned one when the object was first moved away |
| `EntryRefs.MovedOwnerStrandsLock` | src/dshash_wrapper.hpp:213-216 | a guard that owns a lock when its `dshash` object is moved away never releases it |
| `EntryRefs.Guards.FindRef` | src/dshash_wrapper.hpp:240-258 | a find hands the lock just taken to one new guard |
| `EntryRefs.Guards.MoveOwnerAway` | src/dshash_wrapper.hpp:213-238 | the move leaves the old object without a table and changes no guard |
| `EntryRefs.Guards.MoveConstructRef` | src/dshash_wrapper.hpp:85-85 | the move constructor's statements make that step |
| `EntryRefs.Guards.MoveAssignRef` | src/dshash_wrapper.hpp:87-98 | the same for move assignment, self-assignment included |
| `EntryRefs.Guards.DestroyRef` | src/dshash_wrapper.hpp:76-80 | the same for the destructor |
| `SharedTable.StepKeeps` | src/dshash_wrapper.hpp:159-187 | each step of each backend keeps the invariant: what is known about the shared state at every line, and who owns the lock |
| `SharedTable.CreationIsSafe` | src/dshash_wrapper.hpp:159-193 | for any number of backends and any interleaving: at most one area and one table, a visible area handle comes with a valid table handle, no attach is given a bad handle, at most one backend is inside the critical section, and all attached backends hold the same pair |
| `SharedTable.PublishedHandlesAreFinal` | src/dshash_wrapper.hpp:170-171 | a handle once published is never changed |
| `SharedTable.FastPath` | src/dshash_wrapper.hpp:156-187 | a backend that sees the published area at its first look attaches in three steps and touches nothing else, the lock included |
| `SharedTable.SlowPath` | src/dshash_wrapper.hpp:159-180 | one that finds it published once it has the lock attaches too, and gives the lock back |
| `SharedTable.CreatingPath` | src/dshash_wrapper.hpp:159-180 | one that finds nothing creates an area and a table in it, publishes both and is attached to them |
| `SharedTable.SomebodyCanMove` | src/dshash_wrapper.hpp:159-187 | while some backend is not attached yet, some backend can take a step that changes the state |
| `SharedTable.EverybodyCanAttach` | src/dshash_wrapper.hpp:159-193 | from every reachable state some schedule attaches every backend that is on its way and detaches none |
| `SharedTable.AreaFirstFails` | src/dshash_wrapper.hpp:170-171 | with the two publishing writes exchanged there is an interleaving that is not safe |
| `HttpCache.StrNCpy` | src/http_cache.hpp:118-122 | `strncpy` from a C string: the bytes before the NUL, NULs up to the size, and nothing beyond |
| `HttpCache.Entry.Fill` | src/http_cache.hpp:118-124 | after the writes both arrays are NUL-terminated and read back as the URL and the text |
| `HttpCache.Cache.Attach` | src/http_cache.hpp:62-68 | attaching changes no entry |
| `HttpCache.Cache.Detach` | src/http_cache.hpp:130-130 | detaching changes no entry of the shared table |
| `HttpCache.Cache.Get` | src/http_cache.hpp:70-94 | the array-backed table answers and changes as `GetSpec` does, erasing an expired entry |
| `HttpCache.Cache.Put` | src/http_cache.hpp:96-128 | the table changes as `PutSpec` says: only that URL, and not at all when the put is rejected |
| `HttpCache.GetAfterPut` | src/http_cache.hpp:70-128 | a put is taken if and only if the URL has at most 511 bytes, the text at most 8191 and the age is positive; what was taken is what get returns until it expires, and no other URL is affected |
| `HttpCache.GetMeaning` | src/http_cache.hpp:70-94 | what a lookup finds, and that it takes out the entry of its URL if that has expired, and nothing else |
| `HttpCache.ErasingIsUnobservable` | src/http_cache.hpp:70-128 | whatever the clock does: every put and get is answered as by a plain map that never erases anything if and only if no lookup comes, by its clock, before the expiry of an entry that an earlier lookup has found expired |
| `HttpCache.Replay` | src/http_cache.hpp:70-128 | the array-backed table answers every sequence so |
| `HttpCache.SimpleIs` | src/http_cache.hpp:116-124 | the plain map holds the last accepted put of each URL and nothing else |
| `HttpCache.TableIs` | src/http_cache.hpp:70-128 | the table holds the same less what a lookup has found expired |
| `HttpCache.RefinesExpiringMap` | src/http_cache.hpp:70-128 | in particular under a clock that never runs back |
| `HttpCache.ClockMustNotRunBack` | src/http_cache.hpp:87-90 | without that condition there is a sequence that is answered differently |
| `HttpClient.Client.ReceiveHeaders` | src/http_client.cpp:37-46 | each header line overwrites the max-age that earlier ones have given |
| `HttpClient.LastLineDecides` | src/http_client.cpp:37-46 | a last header line without a max-age keeps the answer out of the cache whatever the lines in front of it say, and does not change the answer |
| `HttpClient.Client.GetJson` | src/http_client.cpp:71-133 | the answer and the new cache contents for a lookup and, behind a miss, a transfer |
| `HttpClient.AnswerExact` | src/http_client.cpp:71-133 | the answer is a value if and only if an unexpired cached text parses to it, or, behind a miss, the transfer has status 200 and a body that parses to it, attached or not and whatever the max-age |
| `HttpClient.CacheExact` | src/http_client.cpp:71-133 | what the call leaves in the cache: the body and its expiry when the last header line of a fetched answer gives a positive max-age and the URL and the body fit, otherwise what was there less an expired entry |
| `HttpClient.StoredThenServed` | src/http_client.cpp:71-133 | after such an answer every later call before its expiry gives the same value without the network |
| `HttpClient.RunKeeps` | src/http_client.cpp:113-130 | in every run each cached text is the body of the last stored fetch of its URL, cut at its first NUL, with that fetch's expiry |
| `HttpClient.CachedIsFetched` | src/http_client.cpp:74-81 | in every run a cache hit parses, and gives the value that the full body of the last stored fetch of that URL gave, before that fetch's time plus its max-age; NUL bytes in the body do not matter |
| `HttpClient.GetJsonAnswers` | src/http_client.cpp:71-133 | attached or not, every value returned is what this call's own transfer parsed to, or what the body of an unexpired earlier fetch of the same URL did; a call fails only when its own transfer gives no value |
| `Scopes.WordsExact` | src/jwk.cpp:205-208 | splitting yields exactly the maximal runs without white space |
| `Scopes.ParseScopesExact` | src/jwk.cpp:199-211 | a scope is read from a claim if and only if an item of the array prints as it or it is a maximal word of the string |
| `Scopes.IsSpaceExact` | src/jwk.cpp:205-208 | white space is the six characters of `isspace` in the C locale |
| `Scopes.SuffixExact` | src/jwk.cpp:226-229 | the part behind the last slash: what is not empty, holds no slash, and ends the scope behind a slash |
| `Scopes.AzureScopesMatch` | src/jwk.cpp:213-236 | the loop decides `AzureMatch` |
| `Scopes.AzureMatchMeaning` | src/jwk.cpp:213-236 | a match means that each required scope is `openid`, was received in full or by what ends it behind a slash, or has nothing behind a slash; so it means that all but `openid` were received if and only if the bare ones were |
| `Scopes.UnqualifiedScopePasses` | src/jwk.cpp:226-232 | a concrete required scope that matches although nothing was received |
| `Scopes.ScopesMonotone` | src/pg_oidc_validator.cpp:135-149 | more received scopes and fewer required ones never turn a yes into a no |
| `Jwks.KeyFixesAlgorithm` | src/jwk.cpp:38-115 | the key alone fixes the algorithm; HMAC algorithms come from `oct` keys only, RSA ones from RSA keys, and each elliptic-curve one from its own curve |
| `Jwks.KeyAlgorithmExact` | src/jwk.cpp:38-115 | a key is usable, with this algorithm and signature check, if and only if: RSA, PEM from n and e, its `alg` among six or RS256 when empty; EC, PEM from crv, x and y, algorithm and curve a pair of three; oct, the text of k, one of three HMAC names |
| `Jwks.VisitsFirstMatch` | src/jwk.cpp:146-180 | the loop ends with the algorithm of the first signing key with the token's key id, and with none if and only if every key is well-formed and passed over |
| `Jwks.LaterKeysIrrelevant` | src/jwk.cpp:146-180 | keys behind the one that stops the loop have no influence, well-formed or not |
| `Jwks.InfoUrlIdempotent` | src/jwk.cpp:185-193 | the well-known path is appended once |
| `Jwks.InfoUrlExact` | src/jwk.cpp:185-193 | a URL that ends in `/.well-known/openid-configuration` is kept, any other gets it |
| `Jwks.ExpectedIssuerExact` | src/jwk.cpp:14-34 | which `iss` is expected: the issuer itself unless it mentions a host of Azure; then a tenant is needed, and with the login host the tenant's page on `sts.windows.net` is expected |
| `Jwks.ConfigureVerifierWithJwks` | src/jwk.cpp:124-183 | the verifier's configuration, or an exception, for every issuer, key set and key id |
| `Validator.AuthorizationRestsOnFetches` | src/pg_oidc_validator.cpp:73-95 | in every run, other backends interleaving, an authorization rests on a discovery document and a key set that were each parsed from a transfer of their URL, made by this call or not yet expired, and the deciding key is in that set |
| `Validator.DiscoveryUrlExact` | src/pg_oidc_validator.cpp:69-74 | the override wins when it is set, and the well-known path is behind whichever URL counts |
| `Validator.FetchKeysExact` | src/pg_oidc_validator.cpp:74-95 | the key set is what `get_json` gives at the URL that the `jwks_uri` of the discovery object prints as, if that is not empty |
| `Validator.SessionIsARun` | src/pg_oidc_validator.cpp:73-95 | an uninterrupted run of `validate_token` is one of those runs, with its own lookup and fetch between the two documents |
| `Validator.SessionRestsOnFetches` | src/pg_oidc_validator.cpp:54-175 | so the verdict of `ValidateToken` rests on fetches in the same way |
| `Validator.SetResult` | src/pg_oidc_validator.cpp:100-168 | the identity and the scope decision behind the verifier |
| `Validator.ValidateToken` | src/pg_oidc_validator.cpp:54-175 | the returned value and both fields of the result over every early return and exception, with both documents obtained through `GetJson` from the shared cache, and what that leaves in the cache |
| `Validator.AcceptsMeaning` | src/jwk.cpp:137-182 | what the configured verifier accepts: its one algorithm named and passed, the issuer equal, and each date that is present a number the clock keeps to |
| `Validator.VerdictExact` | src/pg_oidc_validator.cpp:54-175 | the whole verdict: accepted if and only if all of that but the scopes holds; then it names the identity claim and the scopes alone decide; otherwise it is denied and names nobody |
| `Validator.AuthorizedIffEvidence` | src/pg_oidc_validator.cpp:54-175 | authorized if and only if there is evidence: the first matching key of the fetched set gives the algorithm that the header names and the signature passes, the issuer is the expected one, each date is a number the clock keeps to, the identity claim is there and the scopes are in order |
| `Validator.ScopesInOrder` | src/pg_oidc_validator.cpp:66-148 | for an issuer other than Azure the scopes are in order if and only if each word of the configured scope is named by `scp` or `scope` of the token |
| `Validator.AzureScopesInOrder` | src/pg_oidc_validator.cpp:137-146 | for an Azure issuer each word may also be `openid`, be named by what stands behind its last slash, or have nothing behind a slash |
| `Validator.ExitsAreConsistent` | src/pg_oidc_validator.cpp:57-58 | a false return leaves the identity unset and authorized false; an authorization names the identity claim |
| `Validator.NoMatchingKeyNoAuthorization` | src/pg_oidc_validator.cpp:98-99 | no signing key with the token's key id, no authorization |
| `Validator.LaterKeysDoNotDecide` | src/pg_oidc_validator.cpp:98-99 | appending keys behind a match changes nothing of the verdict |
| `Validator.SomethingIsAuthorized` | src/pg_oidc_validator.cpp:54-175 | the conditions for an authorization can be met together |
| `Validator.SignedTokenIsAuthorized` | src/pg_oidc_validator.cpp:96-168 | end to end: a token built and signed with the matching key and the right claims is authorized, with its identity claim |

## Left out

- Verifier.AcceptedWindow: dates, leeway and clock are unbounded integers; the source computes in 64-bit nanoseconds, whose overflow is undefined behaviour there. Verifier.LimitsFitIff says exactly which dates overflow.
- Verifier.WindowAfterCalls: the same holds for its dates.
- Verifier.AcceptedTimesAreAnInterval: says nothing about caller-supplied checks, whose dependence on the clock is unknown.
- JsonTheorems.CompactRoundTrip: doubles are excluded; `strtod`, `snprintf`, and the locale's decimal point are library behaviour.
- JsonParser.ParseNumber: takes a dot as it is; the source puts the locale's decimal point in its place, which is a dot unless the process sets another locale.
- JsonParser.ParseNumberValue: an infinite double ends in failure, where the source throws.
- JsonParser.ParseText: the text of the error message and the position it reports are presentation only.
- JsonParser.Parse: a nested context stores its value into its parent when it is done, where the source writes through a pointer into the parent from the start; a failed parse therefore leaves no partial value here. An infinite double ends in failure, where the source throws; no caller modelled here tells the two apart, since only texts that have parsed are cached.
- HttpCache.RefinesExpiringMap: each operation is atomic; `get` erases while its entry reference is alive, and how the library's partition lock takes that is not modelled.
- JsonInput.Input.Match: on a platform where `char` is unsigned a byte above 0x7f matches itself; that case is not modelled.
- HttpClient.GetJsonAnswers: the transfer itself, the regular expression for header lines and `CURLOPT` settings are arguments or absent.
- SharedTable.CreationIsSafe: accesses are sequentially consistent and library calls succeed; error recovery inside the critical section and weak memory ordering are not modelled.
- KeyHandles.RunKeeps: `EVP_PKEY_up_ref` succeeds on a live key; the `shared_ptr` variant for old OpenSSL versions is not modelled.
- EntryRefs.ReleasedOnceIffNotStranded: all guards belong to one `dshash` object, which is not destroyed before them and is given no new table; the destructor leaves `table_` set, so a guard that outlives the object reads freed memory.
- EcdsaFormat.FixedRoundTrip: a DER signature is the pair of numbers it encodes; DER and allocation failures are not modelled.
- Token.TokenRoundTrip: signing is an arbitrary function of the text; the cryptography of each algorithm is not modelled.
- Validator.ValidateToken: runs without interruption between its two documents; Validator.AuthorizationRestsOnFetches covers other backends in between. Memory exhaustion is one flag, for the copy of the identity.
- PostgreSQL's error handling (`PG_TRY`, `pg_try`, memory contexts), log messages and settings.
- `std::regex` for Cache-Control and tenant ids.
- `insensitive_string_claim` and `with_type`: they depend on a locale.
- `null_parse_context`, `deny_parse_context`, stream operators and the conversion of an int64 to a double inside `get<double>`.
- The traits for other JSON libraries, the error-category tables, examples, tests and packaging: no further algorithm.
