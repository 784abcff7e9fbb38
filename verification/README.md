# A model of the JSON key-value service

The program serves key-value requests over TCP: a session puts together length-prefixed
requests, `exec_json` parses each with the bundled JsonCpp reader, performs it on a RocksDB
database and replies with a JSON text. This project models that path and proves properties of
it, from bytes to runs of requests.

- **Strings and numbers.** `Utf8`, `Quoting`, `Unquoting`, `QuoteRoundTrip`: UTF-8 (sections 3
  and 4 of RFC 3629), the writer's escapes and surrogate pairs (sections 2.1 and 2.2 of RFC
  2781), the reader's string decoder, and what the two do to each other. `Numbers`: 64-bit
  decimal decoding and printing.
- **Values.** `JsonValue`, `ValueOrder`, `ArrayOps`, `ArrayValue`: the tree whose arrays and
  objects are ordered maps, its comparison, and the array operations on a mutable object.
- **The reader.** `Lexer` and `Parser` say, as functions of the document and a position, what is
  read; `Reader` holds the class `OurReader` with its cursor, value stack and error list, each
  method proved to do that. `LexLocal`, `Window`, `Offsets`, `BuiltTrees`, `TokenMeaning` and
  `Errors` prove things about all documents; `Alphabet` says what the characters are.
- **The writers.** `FastWriter` and `StyledWriter` hold the two writer classes and what they
  write; `FastLayout` and `StyledLayout` prove that this is the value's tokens in some layout,
  `Tight` and `StyledLines` in which: without white space, or in indented lines.
- **Grammar.** `Literals` and `Grammar` hold the texts the reader may accept as trees, those of
  RFC 8259 among them, with their tokens, their meaning and a verdict; `Tokens`, `GrammarCorrect`
  and `Texts` prove that the reader treats every such text as the verdict says, `Comments` that
  comments make no difference, `Accepted` that without comments it accepts nothing else,
  `Defaults` what the default settings accept, `Surrogates` what becomes of surrogate escapes.
- **Round trip.** `PrintedValues`, `PrintedTrees`, `RoundTrip`: what the writers produce is such a
  text, and is read as the value.
- **The service.** `Streambuf` (asio's stream buffer as a bounded queue), `Session` (frames),
  `Service` (the state machine and its runs), `Server` (the classes that implement it), `Startup`
  (the configuration file and the databases it names), `Client` (requests as documents), `ReplySize` (which replies fit), `Conversation` (all of it together, from
  bytes to bytes).

A document is a sequence of bytes and a value records the offsets it was read from. The two
conversions between doubles and text are parameters of the settings. What the program takes from
outside - whether a path exists, whether a RocksDB call succeeds, how a stream is cut into pieces
- is a parameter of each step.

Some behaviour the model keeps because the code has it, although a reader of the code or of its
comments may not expect it: after a comment any token at all is taken for the comma between two
members; a block comment at the end of the document is accepted when the last byte is a slash; a
lone minus sign is the number 0; a NUL byte in a document reads as the end of the stream, but is
consumed; a dropped null is recorded with the byte before the token in its place; any second \u
escape is taken for the low half of a high surrogate; the malformed four-byte sequences that denote
numbers above 0x10FFFF are written as a wrapped surrogate pair; the buffer of a reply is sized by
its request; comments are skipped in objects and behind elements even where they are not allowed,
and so is a trailing comma behind a member whose name is empty; `config.json` names its database
outside "dbs", where main does not look, so that with it no database is configured.

`dafny verify dfyconfig.toml` checks the whole project.

## Model

| member | source | states |
|---|---|---|
| Utf8.EncoderBits | src/json_tool.h:39-65 | the masks and shifts of codePointToUTF8, on 32-bit words, are the divisions and remainders the model uses |
| Utf8.DecoderBits | src/json_writer.cc:188-254 | the same for the masks and shifts of utf8ToCodepoint |
| Utf8.Utf8ToCodepoint | src/json_writer.cc:188-254 | on arbitrary bytes the decoder ends inside the string and never returns a surrogate |
| Utf8.EncodeThenDecode | src/json_tool.h:39-65 | for every Unicode scalar value, whatever follows, the encoder writes one well-formed character and the decoder returns that value, ending on its last byte |
| Utf8.DecodeThenEncode | src/json_writer.cc:188-254 | conversely a well-formed character (by the grammar of section 4 of RFC 3629) decodes to a scalar value whose encoding is that character |
| Utf8.DecodedExactly | src/json_writer.cc:188-254 | on any bytes: where the sequence a lead byte announces is cut short, one byte is replaced by U+FFFD; otherwise the whole sequence is taken for its bits and replaced if it is overlong or a surrogate |
| Utf8.EncodedAnyway | src/json_tool.h:39-65 | the encoder writes three bytes for a surrogate and none for a number beyond Unicode |
| Quoting.DoesAnyCharRequireEscaping | src/json_writer.cc:180-186 | true exactly when some byte is a quote, a backslash, a control character or above 0x7F |
| Quoting.NothingToEscape | src/json_writer.cc:280-281 | in both modes the escaping loop copies a string without such bytes, so the fast path writes what the loop would |
| Quoting.ValueToQuotedStringN | src/json_writer.cc:275-350 | both paths produce the quoted string of the specification, in both modes |
| Unquoting.Lockstep | src/json_reader.cc:1680-1731 | on the inside of every token readString accepts, decodeString never meets a bare quote (so never stops early) and never reaches its empty-escape error |
| Unquoting.TurnInStep | src/json_reader.cc:1422-1432 | one turn of decodeString takes bytes that readString passes over as well, so both stay on the same boundaries |
| QuoteRoundTrip.HexUndone | src/json_reader.cc:1758-1782 | the four digits the writer produces decode to the number they were made of |
| QuoteRoundTrip.CodePointUndone | src/json_writer.cc:329-344 | every escape the writer makes is taken in one turn of decodeString and yields the code point (one above 0x10FFFF folded into range) |
| QuoteRoundTrip.Utf8ModeRoundTrip | src/json_writer.cc:320-328 | with emitUTF8 set, decoding what was quoted is the identity on every byte string, valid UTF-8 or not |
| QuoteRoundTrip.AsciiModeDecodes | src/json_writer.cc:329-344 | in the default mode decoding what was quoted always succeeds, with every malformed character replaced |
| QuoteRoundTrip.SanitizedIsValid | src/json_writer.cc:188-254 | the string that comes back is valid UTF-8 |
| QuoteRoundTrip.AsciiModeRoundTrip | src/json_writer.cc:275-350 | in the default mode the decoded string is valid UTF-8, equals the original exactly when that was valid UTF-8, and quotes to the same text again |
| QuoteRoundTrip.QuotedIsOneToken | src/json_reader.cc:1422-1432 | in both modes the quoted string is one complete string token for readString, whatever follows it |
| Alphabet.DigitsWritten | src/json_writer.cc:239-270 | hexadecimal digits are written in lower case |
| Alphabet.DigitsRead | src/json_reader.cc:1765-1777 | and read in either |
| Alphabet.EscapesRead | src/json_reader.cc:1693-1726 | the eight short escapes of RFC 8259 and the characters they stand for; no other letter is one |
| Alphabet.EscapesWritten | src/json_writer.cc:284-319 | seven of them are written, each for its character; the solidus is not escaped |
| Alphabet.CodePointWritten | src/json_writer.cc:329-344 | in ASCII mode each code point is written as itself from the space on, as its short escape, or as one \u escape or two |
| Alphabet.ByteWritten | src/json_writer.cc:320-328 | in UTF-8 mode each byte is written as itself but for control characters and short escapes |
| Alphabet.ReplacementWritten | src/json_writer.cc:188-254 | a byte that begins no character is written as \ufffd |
| Numbers.AccumulateDigits | src/json_reader.cc:1602-1625 | the digit loop with its threshold test never overflows 64 bits and stops exactly when the number exceeds the limit |
| Numbers.DecodeNumber | src/json_reader.cc:1562-1640 | on an optional sign and digits: the exact integer if it lies in [-2^63, 2^64-1], otherwise the conversion to double is left to decide |
| Numbers.OldDecodeNumber | src/json_reader.cc:547-588 | the same for the older reader |
| Numbers.ReadersAgree | src/json_reader.cc:547-588 | both readers fall back to double on the same tokens and otherwise give the same number |
| Numbers.DecodedTypes | src/json_reader.cc:1562-1640 | an integer token is signed in [-2^63, 2^63-1], unsigned up to 2^64-1 and left to the conversion to double beyond; the older reader takes signed ones only up to 2^31-1 |
| Numbers.UintToString | src/json_tool.h:81-88 | writes the decimal digits and a terminator downwards, at most 21 bytes, touching nothing above |
| Numbers.UIntToText | src/json_writer.cc:110-116 | the decimal text of an unsigned 64-bit integer, without leaving its buffer |
| Numbers.IntToText | src/json_writer.cc:94-108 | the decimal text of a signed 64-bit integer, the smallest one included |
| Numbers.IntegerRoundTrip | src/json_writer.cc:94-116 | the text of every integer in [-2^63, 2^64-1] is an integer token that decodes to it |
| JsonValue.BytesLessIsDictionaryOrder | src/json_value.cc:295-324 | the name comparison (memcmp on the common length, then the lengths) is the dictionary order, total and antisymmetric, with equality of strings as its equivalence |
| JsonValue.KeyStrictOrder | src/json_value.cc:295-324 | CZString::operator< is irreflexive, transitive and total on keys |
| JsonValue.PutThenGet | src/json_value.cc:1038-1073 | inserting or replacing one key leaves every other key as it was (operator[] on the ordered map) |
| JsonValue.EraseThenGet | src/json_value.cc:1193-1194 | map_->erase(key): the key is gone, and every other key is there or not, with its value, as before |
| ValueOrder.OperatorsAgree | src/json_value.cc:490-586 | on values without NaN, operator< and operator== agree with one three-way comparison, both ways round |
| ValueOrder.StrictTotalOrder | src/json_value.cc:490-586 | operator< is irreflexive, transitive and total on values without NaN, and incomparability is operator== |
| ValueOrder.SelfComparison | src/json_value.cc:490-586 | no value at all is less than itself, and one equals itself if and only if it contains no NaN |
| ValueOrder.OrderedExactly | src/json_value.cc:490-586 | among the values of any collection the laws of that order hold if and only if none of them contains a NaN |
| ValueOrder.TypesInOrder | src/json_value.cc:490-494 | values are ordered by type first: null, int, uint, real, string, bool, array, object |
| ValueOrder.TypesApart | src/json_value.cc:490-494 | any two values of different types are ordered |
| ValueOrder.NaNIsNotOrdered | src/json_value.cc:501-502 | a NaN is neither less than nor equal to itself |
| ValueOrder.SameTypeOrder | src/json_value.cc:495-538 | within a type by number, false before true, dictionary order, and the smaller container first |
| ValueOrder.FirstDifference | src/json_value.cc:524-532 | of two containers of one type and size the first entry that differs decides, by its key or else its value |
| ArrayOps.ShrinkAssertion | src/json_value.cc:906-923 | the size assertion at the end of resize holds, when an array shrinks to a size above 0, if and only if the element that becomes the last one was present |
| ArrayOps.SparseShrinkFails | src/json_value.cc:906-923 | a sparse array for which it fails: indices 0 and 5 shrunk to 3 leave size 1 |
| ArrayOps.SlotsDetermine | src/json_value.cc:859-939 | an array is determined by its slots, the missing ones included |
| ArrayOps.SlotsResized | src/json_value.cc:906-923 | resize on any array: the slots cut off (and trimmed to the last one present), or nulls added |
| ArrayOps.ResizedDense | src/json_value.cc:906-923 | on arrays without gaps resize is truncation or padding with nulls to exactly that size |
| ArrayOps.DenseSlots | src/json_value.cc:925-939 | an array is without gaps exactly when no slot is missing |
| ArrayValue.JsonArray.Size | src/json_value.cc:859-880 | every index present is below the size, and the last index below it is present unless the array is empty |
| ArrayValue.JsonArray.At | src/json_value.cc:925-939 | operator[] on any array returns the element, creating a null one when it is missing (and gaps below it when it is beyond the end) |
| ArrayValue.JsonArray.Resize | src/json_value.cc:906-923 | the slots after resize, and exactly when its assertion holds, on any array |
| ArrayValue.JsonArray.Append | src/json_value.cc:1128-1135 | on any array, with gaps or without: one more slot, behind the last one present |
| ArrayValue.JsonArray.Insert | src/json_value.cc:1141-1153 | on any array: the value is inserted and the slots behind it are moved up and filled, or false and no change beyond the end |
| ArrayValue.JsonArray.RemoveIndex | src/json_value.cc:1198-1220 | on any array: true exactly when the element is present, which is returned; the later slots are moved down and filled, and when there are none the gap at the new end goes too |
| Lexer.ReadToken | src/json_reader.cc:1158-1267 | the token advances except at the end of the document, stays inside it, and has the extent its kind implies |
| LexLocal.LexLocally | src/json_reader.cc:1158-1267 | a token depends on its own bytes only: cutting the text off anywhere behind it gives the same token |
| LexLocal.TokenInWindow | src/json_reader.cc:1158-1267 | in every window of a document that contains a token, the lexer reads that token |
| Alphabet.TokensSpelled | src/json_reader.cc:1158-1267 | the words and marks are those of sections 2 and 3 of RFC 8259 |
| Alphabet.WhiteSpace | src/json_reader.cc:1269-1277 | white space is space, tab, line feed and carriage return |
| Alphabet.SpecialFloats | src/json_reader.cc:1234-1249 | NaN and Infinity are tokens if and only if they are allowed |
| Alphabet.SignedInfinity | src/json_reader.cc:1206-1221 | the same with a sign |
| Alphabet.SpecialMeanings | src/json_reader.cc:1102-1119 | and they denote what they say |
| Alphabet.SingleQuotes | src/json_reader.cc:1180-1188 | so are strings between single quotation marks, which end as those between double ones do |
| Alphabet.LineCommentEnds | src/json_reader.cc:1380-1394 | a line comment ends behind the first line break, which may be CR LF, or with the document |
| Alphabet.BlockCommentEnds | src/json_reader.cc:1366-1378 | a block comment ends behind the first star and solidus; without them it takes the rest and is a comment only if that ends in a solidus |
| Alphabet.CommentLexes | src/json_reader.cc:1300-1320 | what begins with two solidi, or a solidus and a star, is a comment that ends there |
| Alphabet.ErrorExtent | src/json_reader.cc:1158-1267 | what is no token: a string or block comment without its end takes the rest of the document, a solidus that begins no comment and a sign before an I two bytes, anything else one |
| Alphabet.NumericKeys | src/json_reader.cc:1463-1471 | a number is a name if and only if that is allowed: the text that is printed for it |
| Reader.OurReader.GetNextChar | src/json_reader.cc:1814-1818 | advances by one byte, or returns 0 at the end |
| Reader.OurReader.SkipSpaces | src/json_reader.cc:1269-1277 | skips exactly the white space |
| Reader.OurReader.Match | src/json_reader.cc:1289-1298 | consumes the pattern if it is there and nothing otherwise |
| Reader.OurReader.ReadString | src/json_reader.cc:1422-1444 | stops behind the closing quote, or fails at the end of the document |
| Reader.OurReader.ReadNumber | src/json_reader.cc:1396-1421 | consumes digits, fraction and exponent, or the I of Infinity after a sign |
| Reader.OurReader.ReadCStyleComment | src/json_reader.cc:1366-1378 | what a block comment consumes, and that a slash in the last place ends one |
| Reader.OurReader.ReadCppStyleComment | src/json_reader.cc:1380-1394 | what a line comment consumes, with all three line endings |
| Reader.OurReader.ReadToken | src/json_reader.cc:1158-1267 | the cursor and token the specification gives |
| Reader.OurReader.RecoverFromError | src/json_reader.cc:1793-1804 | terminates, stops where the specification says, and discards the errors it met |
| Reader.OurReader.SkipCommentTokens | src/json_reader.cc:1148-1156 | the first token that is not a comment, if comments are allowed |
| Reader.OurReader.DecodeUnicodeEscapeSequence | src/json_reader.cc:1758-1782 | the number of four hexadecimal digits, or one error |
| Reader.OurReader.DecodeUnicodeCodePoint | src/json_reader.cc:1733-1756 | one escape or a surrogate pair, or one error |
| Reader.OurReader.DecodeStringInto | src/json_reader.cc:1680-1731 | the decoded string, or exactly one error |
| Reader.OurReader.DecodeNumberInto | src/json_reader.cc:1562-1667 | the decoded number, or one error when the double conversion rejects the text |
| Reader.OurReader.ReadValue | src/json_reader.cc:1056-1146 | the value, cursor, errors and result of the specification; the stack below is restored, and at every call it holds at most stackLimit + 1 values |
| Reader.OurReader.ReadChild | src/json_reader.cc:1486-1491 | push, read, pop: the stack is what it was |
| Reader.OurReader.ReadObject | src/json_reader.cc:1446-1508 | the members, cursor, errors and result of the specification |
| Reader.OurReader.ReadArray | src/json_reader.cc:1510-1550 | the elements, cursor, errors and result of the specification |
| Reader.OurReader.Parse | src/json_reader.cc:1010-1054 | the outcome of the specification, from any earlier state of the reader; the stack ends empty |
| Parser.ReadValue | src/json_reader.cc:1056-1146 | on every byte sequence the recursion ends with the cursor inside the document; success leaves no error, failure exactly one, however deep it occurred; a value is only read within the stack limit |
| Parser.ReadMembers | src/json_reader.cc:1446-1508 | the same for the members of an object |
| Parser.ReadElements | src/json_reader.cc:1510-1550 | the same for the elements of an array |
| Tokens.RecoverStops | src/json_reader.cc:1793-1804 | recovery skips whole tokens and stops behind the first one of the kind it looks for, or behind the end of the stream |
| Parser.Parse | src/json_reader.cc:1010-1054 | parse returns true exactly when there is no error |
| ReaderErrors.ValueErrors | src/json_reader.cc:1056-1146 | whatever the reader cannot take for a value it reports at a token the document has there, with a message that is true of that token; then it has skipped, from behind that token, to the closing tokens of the containers that were open |
| ReaderErrors.ParseErrors | src/json_reader.cc:1010-1054 | the same for all errors of a document, but for a last one about the root; it is rejected with at least one and accepted with none |
| ReaderErrors.StringErrors | src/json_reader.cc:1680-1782 | each message about a string is given exactly for what it says: nothing behind a backslash, an unknown escape, too few digits or others, too little behind a high surrogate, or no second escape |
| ReaderErrors.DroppedNulls | src/json_reader.cc:1120-1131 | a separator or closing bracket in the place of a value is a null if dropped nulls are allowed, recorded with the byte before it, and an error otherwise |
| ReaderErrors.FailedValues | src/json_reader.cc:1132-1137 | a string or number that cannot be decoded, and any token that is no value, leave the value that was there |
| Alphabet.ByteOrderMark | src/json_reader.cc:1279-1287 | the three bytes of a byte order mark are skipped if and only if that is asked for |
| BuiltTrees.ValueIsTidy | src/json_reader.cc:1446-1550 | whatever the document and settings, and whether reading succeeds or fails, every array in the result has the keys 0..n-1 and every object is an ordered map of names |
| Window.ValueInWindow | src/json_reader.cc:1056-1146 | under any settings a value that is read successfully is read the same, up to its offsets, from every window around its text (and around the token in its place, if it is a dropped null), at any smaller depth |
| Offsets.ValueAnchored | src/json_reader.cc:1056-1146 | under any settings the offsets recorded below a successfully read value nest, the texts of the members or elements of a container do not overlap, array elements follow one another in index order with keys 0, 1, ..., and the text of each value reads alone as that value; a dropped null is followed by the separator or bracket it was read at |
| Offsets.PlaceholderExactly | src/json_reader.cc:1120-1131 | the text recorded for a value reads alone if and only if the value is not a dropped null |
| Offsets.ParsedOffsets | src/json_reader.cc:1010-1146 | the same for every successful parse, offsets counted from behind a byte order mark |
| Offsets.SliceParses | src/json_reader.cc:1010-1146 | the slice of any value of a parsed tree, parsed as a document, is accepted, consumed to its end and yields that value (with a strict root, for containers) |
| TokenMeaning.MeaningIsTokens | src/json_reader.cc:1010-1146 | two documents with the same tokens are both accepted or both rejected under any settings, and accepted ones have the same tree: white space never matters |
| FastWriterModel.FastWriter.WriteValue | src/json_writer.cc:381-432 | appends the text of the specification |
| FastWriterModel.FastWriter.Write | src/json_writer.cc:373-379 | the whole document, whatever was written before |
| FastLayout.FastLays | src/json_writer.cc:381-432 | for every printable value (nulls kept, either colon style) the output is the tokens of the value with only white space around them |
| StyledWriterModel.BuiltStyledStreamWriter.WriteValue | src/json_writer.cc:941-1002 | writes, or collects as a child value, the text of the specification; the indentation is restored |
| StyledWriterModel.BuiltStyledStreamWriter.WriteArrayValue | src/json_writer.cc:1004-1052 | the text of an array over several lines or on one; there the assertion that as many child values were collected as there are elements holds |
| StyledWriterModel.BuiltStyledStreamWriter.IsMultilineArray | src/json_writer.cc:1054-1079 | decides by size, nested containers and line length, and collects the child values of an array that may go on one line |
| StyledWriterModel.BuiltStyledStreamWriter.CollectChildValues | src/json_writer.cc:1067-1076 | one child value per element, and the line length with its 32-bit wrap-around |
| StyledWriterModel.BuiltStyledStreamWriter.WriteOneLineArray | src/json_writer.cc:1036-1050 | the array on one line, from the collected child values |
| StyledWriterModel.BuiltStyledStreamWriter.WriteMultiLineArray | src/json_writer.cc:1009-1033 | the array over several lines, from the collected child values or by writing each element |
| StyledWriterModel.BuiltStyledStreamWriter.Write | src/json_writer.cc:926-940 | the whole document, from any earlier state of the writer |
| StyledLayout.StyledLays | src/json_writer.cc:941-1052 | for every printable value, every white-space indentation, both comment styles and both quoting modes, the output is the tokens of the value with only white space around them |
| StyledLayout.BuilderIsNeat | src/json_writer.cc:1162-1206 | the colon and null symbols newStreamWriter chooses are such settings |
| TightLayout.BuilderSymbols | src/json_writer.cc:1162-1206 | which they are: " : ", ": " for YAML, ":" without an indentation; "null" or nothing; no line feed at the end |
| StyledLines.ValueIsLines | src/json_writer.cc:941-1112 | with an indentation, what is written for a value is its lines: one for each member, each element of an array over several lines, and each bracket of such a container (that of a member's value included), each behind a newline and one indentation for every container open there |
| StyledLines.DocumentLines | src/json_writer.cc:926-1112 | split at its newlines, a document is exactly those lines; nothing else contains a newline |
| StyledLines.DocumentBalanced | src/json_writer.cc:1088-1112 | each line is indented as often as earlier lines have opened containers that none has closed |
| StyledLines.MultiLineExactly | src/json_writer.cc:1004-1079 | an array goes over several lines if and only if all comments are kept, three times its size is 74 or more, an element is an array or object that is not empty, or it would take 74 bytes or more on one line |
| TightLayout.FastIsTight | src/json_writer.cc:373-432 | a document of FastWriter is the tokens of the value and nothing else, but for the space of YAML colons, dropped nulls and the line feed at the end |
| TightLayout.CompactDocument | src/json_writer.cc:926-1052 | without an indentation the stream writer writes what FastWriter does |
| Literals.CharsDecoded | src/json_reader.cc:1680-1782 | decodeString, character by character, on every string of section 7 of RFC 8259 and on those with control characters: what each turn gives, and that it fails exactly when a high surrogate at the front of a turn has no other escape of that form behind it |
| Surrogates.UnescapedExactly | src/json_reader.cc:1733-1756 | decodeString takes the characters of a string if and only if every row of high-surrogate escapes that no other such escape follows is even |
| Surrogates.AgreesExactly | src/json_reader.cc:1733-1756 | decodeString gives what section 2.2 of RFC 2781 makes of the escapes if and only if it fails or every high surrogate stands right before a low one and every low one right behind a high one |
| Surrogates.TakenAnyway | src/json_reader.cc:1733-1756 | strings it takes although they denote nothing: a high surrogate with a second escape that is no low one, and a lone low one |
| Surrogates.ValidExactly | src/json_reader.cc:1680-1782 | what decodeString gives is valid UTF-8 if and only if the text is and no low surrogate in it is left alone |
| Literals.CharsScanned | src/json_reader.cc:1422-1432 | a string of the grammar is one complete token for readString, whatever follows |
| Literals.NumeralLexes | src/json_reader.cc:1396-1421 | a number of section 6 of RFC 8259, or one of the laxer form the reader takes, is one token, unless a byte that could continue it follows |
| Literals.QuotedIsString | src/json_writer.cc:275-350 | in both modes the quoted form of every string is a string of the grammar that denotes it (sanitized in ASCII mode) |
| Tokens.RecognizedLexes | src/json_reader.cc:1158-1267 | every token of RFC 8259, and every laxer number or string, is read as one token of its kind |
| Tokens.DocumentLexes | src/json_reader.cc:1158-1267 | a layout of such tokens, to the end of the document or to a NUL, lexes to exactly them |
| Grammar.VerdictExactly | src/json_reader.cc:1056-1146 | a tree is accepted if and only if its strings, numbers, names and trailing commas are and its nesting is within the limit; if the nesting alone is not, the reader throws |
| GrammarCorrect.TreeIsRead | src/json_reader.cc:1056-1146 | wherever the tokens of a tree of the grammar, trailing commas included, follow in a document, with whatever white space and (if allowed) comments, readValue accepts, rejects or throws as the verdict on the tree says, and what it accepts it reads as the tree means, up to its last token |
| Texts.TextIsParsed | src/json_reader.cc:1010-1146 | the same for whole documents, a byte order mark that is skipped and a NUL that ends them included, under any settings |
| Texts.AcceptedExactly | src/json_reader.cc:1010-1146 | such a document is accepted, as the value its tree denotes, if and only if nothing in it is refused, it nests within the stack limit and, with a strict root, it is an object or an array; one that only nests too deeply makes the reader throw |
| Texts.JsonTextAccepted | src/json_reader.cc:1010-1146 | the same for every JSON text of RFC 8259 |
| Texts.CommaBeforeEnd | src/json_reader.cc:1446-1550 | the tokens with a comma behind the last member or element are those without it, and a comma before the last |
| Texts.TrailingMemberComma | src/json_reader.cc:1456-1459 | a comma before the closing brace: the text is accepted if and only if it would be without the comma and trailing commas are allowed or the last name is empty; the value is the same |
| Texts.TrailingElementComma | src/json_reader.cc:1515-1526 | a comma before the closing bracket: the same with "or null elements may be dropped", in which case there is one more null |
| Comments.CommentedText | src/json_reader.cc:1148-1156 | where comments are allowed, a text with comments is parsed as it would be without them, wherever they stand but before a colon or directly before a closing bracket |
| Comments.CommentForValue | src/json_reader.cc:1056-1064 | a comment in the place of a value is skipped if comments are allowed and an error otherwise |
| Defaults.DefaultsAre | src/json_reader.cc:1962-1977 | the settings of CharReaderBuilder |
| Defaults.DefaultAccepts | src/json_reader.cc:1962-1977 | with them a text is accepted if and only if everything in it can be decoded and it nests at most 1000 levels deep, whatever its root, its trailing commas and its duplicate names |
| Defaults.LastMember | src/json_reader.cc:1480-1491 | the member of an object's value is the last one of that name |
| Defaults.ElementsInOrder | src/json_reader.cc:1510-1550 | the k-th element of an array's value is the value of its k-th element |
| Accepted.NumberIsNumeral | src/json_reader.cc:1396-1421 | conversely every number token is a number of the laxer form |
| Accepted.DecodedIsChars | src/json_reader.cc:1680-1731 | and every string that is decoded to its end is made of the characters above |
| Accepted.ValueIsTree | src/json_reader.cc:1056-1146 | what readValue reads, in a document without comments, is the tokens of a tree of the grammar, trailing commas included |
| Accepted.AcceptedIsText | src/json_reader.cc:1010-1146 | so an accepted document is a layout of a tree, or begins with one if more may follow, and its value is what the tree denotes |
| Accepted.AcceptedTexts | src/json_reader.cc:1010-1146 | the documents without comments that are accepted, under the default settings among others, are exactly those that begin with (or, if nothing may follow, are) a tree the reader accepts |
| Accepted.CommentIsSkipped | src/json_reader.cc:1446-1508 | a document with a comment that is accepted although comments are not allowed |
| Texts.TextTokens | src/json_reader.cc:1158-1267 | a JSON text has exactly the tokens of its tree |
| PrintedTrees.TreeIsGrammatical | src/json_writer.cc:381-432 | a printable value is printed as a tree of RFC 8259, as deep as the value nests |
| PrintedTrees.TreeMeaning | src/json_reader.cc:1056-1146 | which means the value as it comes back and holds nothing the reader refuses |
| RoundTrip.LayoutIsParsed | src/json_reader.cc:1010-1146 | a document that is a layout of a printable value parses to it if and only if the stack limit admits its nesting and a strict root is satisfied; the exception is thrown if and only if the value nests more deeply |
| RoundTrip.FastRoundTrip | src/json_writer.cc:373-432 | parsing what FastWriter wrote gives back the tree (unsigned integers up to 2^63-1 signed, malformed UTF-8 replaced) |
| RoundTrip.CanonicalOfValid | src/json_writer.cc:275-350 | with valid UTF-8 strings nothing but the tag of small unsigned integers changes |
| RoundTrip.DefaultRoundTrip | src/server.cc:362-363 | the replies of the server, read with the default settings: the same tree |
| RoundTrip.StyledRoundTrip | src/json_writer.cc:926-1052 | parsing what BuiltStyledStreamWriter wrote gives back the tree, in both quoting modes |
| RoundTrip.RequestRoundTrip | src/catchtest.cc:14-15 | the requests of the test client, written with the default StreamWriterBuilder and read by the server: the same tree |
| RoundTrip.LayoutTokens | src/json_reader.cc:1158-1267 | a layout of a printable value has exactly the tokens of the value |
| RoundTrip.SameTokens | src/json_writer.cc:941-1052 | with ASCII quoting the indented document has the same token sequence as the FastWriter one |
| Streambuf.BasicStreambuf.constructor | include/asio/basic_streambuf.hpp:131-141 | an empty queue with the smaller of the maximum and 128 bytes prepared |
| Streambuf.BasicStreambuf.Reserve | include/asio/basic_streambuf.hpp:308-346 | throws exactly when size() + n exceeds max_size() or what a vector can hold, or the buffer has to grow and the allocation fails; otherwise room for n bytes, unread bytes preserved by shifting and growing |
| Streambuf.BasicStreambuf.Prepare | include/asio/basic_streambuf.hpp:214-219 | the same, and where the n bytes may be written |
| Streambuf.BasicStreambuf.Commit | include/asio/basic_streambuf.hpp:233-238 | appends the first min(n, prepared) prepared bytes to the queue, if and only if that count survives the cast to int (is below 2^31) |
| Streambuf.BasicStreambuf.Consume | include/asio/basic_streambuf.hpp:248-255 | drops min(n, size()) bytes if and only if what gbump is given is that count: when the 64-bit sum of the get pointer and n does not wrap around and the count is below 2^31, or in the case that the truncated count is by chance the right one |
| Streambuf.ConsumesExactly | include/asio/basic_streambuf.hpp:250-254 | what gbump is given is min(n, size()) under exactly that condition |
| Streambuf.LargestCountWraps | include/asio/basic_streambuf.hpp:250-254 | a count for which it fails: 2^64 - 1 moves the get pointer back by one |
| Streambuf.SmallCountsAreConsumed | include/asio/basic_streambuf.hpp:248-255 | it holds for every count below 2^63 if there are fewer than 2^31 bytes |
| Streambuf.BasicStreambuf.Underflow | include/asio/basic_streambuf.hpp:263-275 | the first unread byte, or none exactly when the queue is empty |
| Streambuf.BasicStreambuf.Overflow | include/asio/basic_streambuf.hpp:283-306 | appends a byte, or throws exactly when the queue has its maximum size |
| Streambuf.BasicStreambuf.Receive | include/asio/basic_streambuf.hpp:214-238 | prepare, write and commit: the queue with the data at its end, or an exception exactly when it does not fit |
| Streambuf.BasicStreambuf.Run | include/asio/basic_streambuf.hpp:214-346 | every run of operations is a run of the bounded queue, up to the first exception; the bytes handed out, followed by those left, are those that were there followed by those added |
| Streambuf.CastKeeps | include/asio/basic_streambuf.hpp:236-254 | a count survives static_cast<int> if and only if it is below 2^31 |
| Streambuf.TwoGigabytesAreLost | include/asio/basic_streambuf.hpp:236-237 | a count that does not: 2^31 bytes, prepared and committed, move the put pointer back by as many |
| Streambuf.FirstInFirstOut | include/asio/basic_streambuf.hpp:214-346 | over every run of the queue, what was removed followed by what is left is what was there followed by what was added, and the bound holds |
| Streambuf.StepFits | include/asio/basic_streambuf.hpp:214-346 | an operation fails exactly when the queue would grow beyond its maximum |
| Service.FailureChangesNothing | src/server.cc:305-366 | a request that crashes or replies an error changes no data; only 0, 1, 3, 4, 6, 7 and -2 are replied, -1 never |
| Service.ErrorsBefore | src/server.cc:317-336 | 1 is replied exactly if the request is not accepted as a document, 6 exactly without the name of a database, 3 exactly if none has that name, 4 exactly if the first of that name cannot be opened |
| Service.ErrorsBehind | src/server.cc:337-360 | 7 exactly for an unknown operation or column, -2 exactly if the operation fails or the key is not there, 0 exactly if a write has been performed |
| Service.OpeningExactly | src/server.cc:54-108 | opening ends the program exactly if the path does not exist, there are column families and a call that creates one of them fails; otherwise it succeeds as DB::Open does |
| Service.TextsOfValues | src/json_value.cc:628-652 | asString: numbers in decimal, "true", "false", nothing for null, an exception for arrays and objects |
| Service.FieldsOfValues | src/json_value.cc:1038-1073 | root[key]: the member, null where there is none and of null, an exception of anything else |
| Service.ItemsOfValues | src/server.cc:202-216 | the items of a batch are the names and texts of the members of an object; an exception if one has no text |
| ServerModel.DefaultFamilyConfigured | src/server.cc:109-201 | for every configuration read_config builds, put and get do what put_cf and get_cf do on "default" if and only if it has a "column_family" member; without one the latter reply 7 |
| Service.PutAllCell | src/server.cc:202-226 | what a batch leaves in each cell: its last value for the key, or what was there |
| Service.BatchIsPuts | src/server.cc:202-226 | a written batch equals putting each of its members |
| Service.ExecRemembered | src/server.cc:305-366 | one request changes each cell exactly by the writes it asks for and that succeed |
| Service.RunRemembers | src/server.cc:305-366 | over every run each cell holds the value of the last successful write to it |
| Service.GetAnswersLastWrite | src/server.cc:305-366 | after any run, get and get_cf reply the last value successfully written to their cell, or -2 if there is none |
| Service.StoredRemembered | src/server.cc:136-226 | after the writes an operation asks for, each key of its family has what the operation stores there |
| Service.ReadsItsWrite | src/server.cc:305-366 | a put, put_cf or write_batch that is served, requests that write other cells, a get or get_cf of the same family and key that is served: the get replies the value written |
| Service.OthersUntouched | src/server.cc:305-366 | a request leaves the cells of every other database alone, and of the configuration changes only whether its database is open |
| ServerModel.AskedIsConfigured | src/server.cc:86-98 | the descriptors open() builds are exactly the configured names, in order |
| ServerModel.Config.Create | src/server.cc:64-83 | the database and its families are created one call after the other; true exactly when every call succeeds |
| ServerModel.Config.Open | src/server.cc:54-108 | opens lazily, creating what is missing; afterwards the handles line up with the configured names |
| ServerModel.Config.Descriptors | src/server.cc:86-98 | "default", then the configured names other than it |
| ServerModel.Config.GetHandle | src/server.cc:128-135 | the handle opened under that name, and none exactly when the name is not configured |
| ServerModel.Config.Put | src/server.cc:185-201 | the step of the state machine (error -1 only on a null pointer) |
| ServerModel.Config.PutCf | src/server.cc:136-158 | the step of the state machine |
| ServerModel.Config.Get | src/server.cc:109-127 | the step of the state machine |
| ServerModel.Config.GetCf | src/server.cc:159-186 | the step of the state machine |
| ServerModel.Config.WriteBatch | src/server.cc:202-226 | all members are converted before anything is written; then the step of the state machine |
| ServerModel.ReadConfig | src/server.cc:230-259 | the configuration it builds has the given name, the text of "dbname" as its path (empty without one), and "default" followed by the texts of the "column_family" array other than "default", in order, as its families (none without that member); no configuration exactly when a conversion, that of the options included, throws |
| ServerModel.DescribesOne | src/server.cc:230-259 | there is only one such configuration |
| ServerModel.ConfigIsConfigured | src/server.cc:238-245 | "default" is first in the configured families and never repeated; there are none exactly without "column_family" |
| StartupModel.ReadConfigs | src/server.cc:283-286 | one configuration for every member of "dbs", in their order, under its name, or an exception |
| StartupModel.Start | src/server.cc:266-300 | the program serves exactly if the configuration file is accepted and every conversion succeeds, and then the databases the file names |
| StartupModel.FileLoads | src/server.cc:278-286 | the databases named by a configuration file in any layout: each with its name, its path, and "default" and the other families it lists |
| StartupModel.FoundByName | src/server.cc:327-328 | and each is found under its name |
| StartupModel.NamesOfDatabases | src/server.cc:284-286 | each has the name of its member; those of an array are named by their positions |
| StartupModel.NoDatabases | src/server.cc:283-286 | without "dbs" none is configured |
| ServerModel.Server.Find | src/server.cc:327-328 | the first configuration of that name |
| ServerModel.Server.Operate | src/server.cc:337-359 | the dispatch on "op" does what the decoded operation does |
| ServerModel.Server.Execute | src/server.cc:305-361 | reply and new state are those of the state machine |
| ServerModel.Server.ExecJson | src/server.cc:305-366 | the same, with the text of the reply |
| ServerModel.Server.Serve | src/server.cc:305-366 | every run of requests is a run of the state machine, with the texts of its replies, up to the first request that ends the program |
| ServerModel.ReplyIsRead | src/server.cc:362-363 | every reply text, read by a client, is the object with the error code and value (the value sanitized) |
| SessionModel.PrefixBytes | src/networkinterface.cc:25-26 | the prefix is four bytes that give the length, the least significant first |
| SessionModel.FramesOfSent | src/networkinterface.cc:22-47 | requests of at most 1048576 bytes sent one after the other are the frames of the stream |
| SessionModel.FramesExactly | src/networkinterface.cc:22-47 | the frames of any stream are the requests, none longer than 1048576 bytes, that it sends before something that does not begin with a frame: less than a prefix, a larger length, or less than that length |
| SessionModel.Session.DoRead | src/networkinterface.cc:22-47 | reads the length prefix and starts the payload; the session ends at a length above 1 MB |
| SessionModel.Session.ReadSomeDone | src/networkinterface.cc:7-21 | after each piece offset plus remaining is the frame length and the buffer holds the bytes so far; every event makes progress |
| SessionModel.Session.DoWrite | src/networkinterface.cc:49-70 | the request passed on is the complete payload |
| SessionModel.Session.Run | src/networkinterface.cc:7-70 | for every fragmentation the requests passed on are, in order, the payloads of the frames, and all of them when the connection does not fail |
| ClientModel.RequestIsParsed | src/server.cc:308-321 | every layout of a request object is parsed, with its texts as they were |
| ClientModel.RequestDecodes | src/server.cc:322-359 | a request document, in any layout, for a configured database leads to that database and to the operation the client wants |
| ClientModel.PutCfDecodes | src/server.cc:338-342 | a put_cf document: the named column is the family, the named key and value are those of the operation |
| ClientModel.PutDecodes | src/server.cc:343-346 | a put document: its key and value |
| ClientModel.BatchDecodes | src/server.cc:347-349 | a write_batch document: each member name of "items" is a key and its text the value |
| ClientModel.GetDecodes | src/server.cc:350-352 | a get document: its key |
| ClientModel.GetCfDecodes | src/server.cc:353-356 | a get_cf document: its column and key |
| Conversation.FrameReply | src/networkinterface.cc:49-60 | when the buffer, sized by the request, holds the reply, the frame is its length and the reply (up to a NUL) |
| ReplySize.ReplyTextIs | src/server.cc:362-365 | the text of every reply: an object with the member "error" and, for a value, the member "value", and a line feed |
| ReplySize.ReplyLength | src/server.cc:362-365 | its length: 11 bytes and the error code, and for a value 9 more and the value as it is quoted |
| ReplySize.KnownRequestsAreLong | src/server.cc:322-357 | a request that reaches its database and asks for a known operation is at least 16 bytes long, because a parsed object fits into its document with all its names |
| Service.FoundIsReplied | src/server.cc:350-356 | a value is replied exactly if a served get or get_cf of a configured family finds one in an open database |
| ReplySize.FitsExactly | src/networkinterface.cc:49-60 | the reply fits its buffer if and only if the request is at least 12 bytes long and, if it is a get that finds a value, at least 21 bytes and the value as it is quoted: the request, the configuration and the stored value decide |
| ReplySize.EmptyRequestHasNoRoom | src/networkinterface.cc:49-60 | a request for which it does not: the empty one is answered in 12 bytes |
| Conversation.EmptyFrameHasNoRoom | src/networkinterface.cc:22-60 | such a request reaches the service, as a frame of length 0 |
| Conversation.ReplyNoNul | src/networkinterface.cc:55-57 | no reply contains a NUL, so strncpy copies all of it |
| Conversation.Converse | src/networkinterface.cc:7-70 | a session with the service behind it, for every fragmentation: the frames are performed in order as a run of the state machine and the client is sent the frames of its replies, up to the first request that ends the program or has no room for its reply; all have room if and only if the frames, the configuration and the data say so |
| Conversation.WhatIsReadBack | src/server.cc:338-356 | a put_cf is read back by a get_cf with its column and key exactly on a database that has the column, each item of a write_batch by a get of its name, a put by a get |
| Conversation.LastReply | src/server.cc:305-366 | a document that asks for a write, documents that write other cells, and one that asks for what was written: the state machine runs to the end and its last reply is the value |
| Conversation.ReadOwnWrite | src/networkinterface.cc:7-70 | a client sends such documents of at most 1048576 bytes, in whatever pieces: it is sent one frame for each, and the last one parses to error 0 and the value it wrote, if every request has room for its reply; of two documents alone, if and only if the second is at least 21 bytes and the value as it is quoted |

## Left out

- Numbers.DecodeNumber: is about an optional '-' and digits; tokens with a fraction or an exponent, or a lone sign and other characters, are left to the double conversion, which is a parameter.
- RoundTrip.FastRoundTrip: is stated for values without reals, with integers within the ranges of their types, arrays without gaps, names shorter than 2^30 bytes that are valid UTF-8, and null placeholders kept.
- ValueOrder.StrictTotalOrder: excludes NaN, for which it is false; ValueOrder.OrderedExactly is the exact condition.
- Streambuf.BasicStreambuf.Reserve: after an exception only the offsets and the possible shift of the unread bytes are described.
- Streambuf.BasicStreambuf.Consume: counts for which the condition fails are only shown to move the get pointer elsewhere.
- Streambuf.BasicStreambuf.Commit: counts of 2^31 and more, which the cast to int does not keep, are only shown to move the put pointer elsewhere.
- SessionModel.Session.DoWrite: passes the request on; the reply and its frame are the part of Conversation.Converse, where exec_json runs right behind the handler that completes a request instead of within it.
- Conversation.Converse: nothing is said about what happens when a reply is written beyond its buffer; ReplySize.FitsExactly says when that is.
- Accepted.AcceptedTexts: documents with comments are left out, because the reader takes any token behind a comment for a comma between members; Comments.CommentedText says how texts with comments are read.
- Comments.CommentedText: comments directly before a colon or before a closing bracket are left out: the reader looks for comments in neither place, though it finds one between an element and the bracket.
- StyledLines.DocumentBalanced: is stated for values without reals and without a line feed symbol at the end; newStreamWriter never sets one.
- StyledLines.MultiLineExactly: is stated for arrays for which the 32-bit sums do not wrap around; IsMultilineArray covers the others.
- TightLayout.CompactDocument: is stated for values without reals, arrays without gaps, and ASCII quoting.
- ReaderErrors.ParseErrors: that a duplicate key has been met before in its object is not part of what its message is shown to say.
- StartupModel.FileLoads: is stated for configuration files without "options", which are converted by options_from_json.
- StyledWriterModel.BuiltStyledStreamWriter.WriteValue: writes no comments; the service parses with collectComments off, so that no value it holds has any.
- StyledWriterModel.BuiltStyledStreamWriter.WriteArrayValue: likewise without comments before and after elements.
- StyledWriterModel.BuiltStyledStreamWriter.WriteMultiLineArray: likewise.
- StyledWriterModel.BuiltStyledStreamWriter.IsMultilineArray: likewise without the test for comments on elements.
- StyledWriterModel.BuiltStyledStreamWriter.CollectChildValues: likewise.
- StyledWriterModel.BuiltStyledStreamWriter.Write: likewise without comments around the root.
- Conversions between reals and text (src/json_writer.cc:127-170, src/json_reader.cc:1652-1667): two functions given as parameters; the round trip leaves reals out.
- Comments attached to values: collecting, normalizing and writing them. The lexer's treatment of comments is modelled; values are printed as if they had none.
- Error locations (`extra_`), message formatting with line and column, and getStructuredErrors.
- The stack of pointers `nodes_`: a stack of values, the finished child being stored back into its parent; aliasing between the two is not captured.
- Array indices as machine integers: `int index` in readArray and ArrayIndex sizes are unbounded, except for the wrap-around in isMultilineArray, which is modelled.
- String and key ownership, allocation and copying in Value and CZString: strings and keys are byte sequences.
- Single-quoted strings, special floats, numeric keys and dropped nulls (but for one behind a trailing comma): the lexer and the reader have them, the grammar does not.
- StyledWriter, StyledStreamWriter and the older Reader apart from its decodeNumber: near copies of what is modelled.
- Path, iterators, comments and type conversions of Value: easy members beside the map operations.
- fixZerosInTheEnd and the formatting of doubles: part of the text of reals.
- RocksDB itself, the file system, signals and logging: a map whose calls succeed or fail as a whole, the outcomes being given with each request; two configurations with the same path are not told apart from one database.
- options_from_json (a parameter says which options it accepts), the sockets main opens and the shutdown on a signal.
- The Lua bindings (src/cf.cc, src/db_open.cc, src/iter.cc, src/writebatch.cc, src/writebatch_cf.cc) and the other asio headers.
- The order in which the sessions of several clients interleave: one session is modelled, and requests are executed one at a time.
