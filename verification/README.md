# mYm: serialization, queries and connections

mYm stores MATLAB values in MySQL. This project models its logic in Dafny and
proves what that logic is for, and exactly where it fails: a value sent to the
database comes back, a query holds the data it was given (outside CREATE and
ALTER without exception), a connection handle is closed once and never used
after that.

| file | what it models |
|---|---|
| `Bytes`, `ByteOrder` | bytes, little-endian integers, `uint8korr`/`int8store` |
| `MatlabValue` | values as trees: arrays, sparse matrices, cells, structs; elements may be NULL |
| `Encoding`, `Decoding` | the byte format, as a pure encoder and a decoder that returns its cursor |
| `CodecProofs`, `CodecTheorems` | the decoder undoes the encoder, and what follows from that |
| `Format`, `Reading`, `Stored`, `Statements`, `Calls` | the same logic case by case, with every tag, letter, class number and keyword spelled out: the bytes of each kind of value, what any blob reads as, what each placeholder stores, which statement is sent, what each call does to the table |
| `MixedWidth` | what 8-byte lengths become when read as 4-byte ones |
| `Serializer`, `Deserializer` | the two-pass writers and the cursor-moving readers, on arrays, against the two above |
| `Envelope` | the `mYm`/`ZL123` envelope around a blob |
| `Placeholders`, `QueryRebuild` | finding placeholders with `po`/`pc`, and building the new query |
| `Arguments` | classifying and serializing the arguments of a command |
| `SerialCommands`, `QueryCommand` | SERIALIZE, DESERIALIZE and MySQL commands end to end |
| `BraceDamage` | a CREATE query that damages the value it carries |
| `BraceUnescape` | `\{` and `\}` in CREATE and ALTER |
| `Text` | `hex2char` and `char2hex` against section 3 of RFC 3629 |
| `Connections` | the table of 20 connections |
| `TrailingSpace` | the three forms of trailing-space removal |

Code that moves pointers through buffers or updates fields is modelled by
methods on arrays and a class; each is proved equal to a specification function,
and the theorems are about those functions.

How the model reads the source:

- A `mexErrMsg*` exit is a failure result. Reading or writing outside memory the
  source owns, undefined in C++, is the failure `OutOfBuffer`; sending bytes that
  were never written is `Unwritten`. The two errors the readers raise inside the
  `try` of `deserialize` are caught there, as the code means them to be; an array
  MATLAB refuses to create ends the call.
- Memory is little-endian and `ulong` has 64 bits; `int`, `mxClassID` and
  `mxComplexity` have 4 bytes; class numbers are those of MATLAB's `matrix.h`.
  The width of stored lengths (`MYM_USE_32BIT_DIMS`) and of `mwSize` are
  parameters, 4 or 8 bytes.
- zlib (RFC 1950, section 2.2) is a parameter with the laws in `ZlibLaw` and, for
  one result, `HeaderLaw`; `ZlibLawConsistent` shows they can be met. `mysql_real_escape_string` is a map from
  a byte to one or two bytes, none NUL, with laws that `EscapeLawConsistent` shows
  can be met. File contents, number formatting and
  MATLAB's conversion of a char array to UTF-8 are parameters.
- The compression rate, a `float` in the source, is read as an exact quotient
  and its threshold as 11/10.
- An array that MATLAB creates loses trailing singleton dimensions beyond the
  second, has at least two dimensions, and is refused for a class without data.

Where the code and its documentation differ, the code is followed:

- `src/mym.m` numbers handles 0 to 10; the table has 20. It says a successful
  open returns 0; the code returns the handle. It lists status codes 0 to 2;
  there is a code 3, for a server that answers a ping but gives no status.
- `src/mym.m` speaks of a space gain above 10%; the test is old/new > 1.1, a gain
  above one eleventh (`Envelope.RateIsExact`).
- A sparse matrix sent with `{M}` goes to the dense array writer. It comes back
  only inside a cell or a struct (`SerialCommands.OnlySparseIsLost`).
- A blob of 2^32 bytes or more is compressed but cannot be decompressed
  (`Envelope.OversizeComesBackWrapped`).
- `MYM_USE_32BIT_DIMS` changes what is read but not what is written: with it, the
  program reads nothing back that has elements. What does come back is a cell of
  dimensions 0, a struct array of dimensions 0 without fields, and a sparse double
  matrix without columns or room for elements (`MixedWidth.OnlyEmptyComesBack`).
- In a CREATE or ALTER query the backslash before every brace is removed after the
  data are in it, and with it those that escape the data. A datum arrives whole
  if and only if no brace stands right behind one of its escaped bytes
  (`QueryCommand.DatumSent`); `BraceDamage` is a query that is sent all the same
  and stores another value.
- A blob for which the readers raise an error is meant to come back as bytes. If
  it was compressed, the copy takes the content's length from the start of the
  compressed blob and runs past its end (`Envelope.MalformedComesBack`).
- A char vector sent with `{S}` is cut at its first NUL, yet counted whole
  (`SerialCommands.TextStoredIff`).
- The result of `hex2char` on an empty string, and a CREATE or ALTER query
  without escaped braces, have no room for their NUL (`Text.HexToChar`,
  `BraceUnescape.RoomForNul` say exactly when); the model's buffers are one byte
  longer.
- `mysql_init` failing on a slot that kept its handle after a failed open or ping
  overwrites that handle: it is lost. This is the only way to lose one
  (`Connections.RunLoses`).

## Model

| member | source | states |
|---|---|---|
| `CodecProofs.RoundTrip` | src/mym.cpp:1260-1922 | for every value tree that fits its fields, and anywhere in memory, decoding the encoding gives the value with NULL elements filled by 0x0 doubles and stops exactly at its end |
| `CodecProofs.RoundTripChildren` | src/mym.cpp:1861-1880 | the same for any list of length-prefixed elements |
| `CodecProofs.SparseReads` | src/mym.cpp:1780-1831 | counts, jc, ir and both data parts of a sparse matrix are read back one after the other, from the places they were written to |
| `CodecProofs.StructReads` | src/mym.cpp:1835-1859 | dimensions and NUL-terminated field names are read back, and the cursor is then at the first element |
| `CodecTheorems.PrefixFree` | src/mym.cpp:1481-1516 | two encodings followed by anything are equal exactly when the values agree up to NULL elements and the rest agrees |
| `CodecTheorems.CursorsAgree` | src/mym.cpp:1902-1920 | the decoder of each element stops exactly where its length prefix says, which is where the next prefix starts |
| `CodecTheorems.EncodeNorm` | src/mym.cpp:1289-1299 | a NULL element is written as the 0x0 double array it reads back as |
| `CodecTheorems.WidthsAgree` | src/mym.cpp:55-60 | the layouts with 4-byte and 8-byte lengths are read to the same value tree |
| `CodecTheorems.SizeCheck` | src/mym.cpp:1944-1953 | stored lengths are delivered unchanged if the platform can hold all of them, and refused otherwise |
| `CodecTheorems.ReadUintsSound` | src/mym.cpp:1944-1959 | whatever was read is what is stored at that place, and fits |
| `CodecTheorems.DecodedIsWellFormed` | src/mym.cpp:1737-1922 | from any bytes whatever, a value that is delivered has the shape MATLAB guarantees, no NULL elements and no unsupported class |
| `CodecTheorems.SecondTripIsExact` | src/mym.cpp:1737-1922 | a value read from any bytes survives being written and read again unchanged |
| `CodecTheorems.ChildrenTakeSpace` | src/mym.cpp:1902-1920 | each element consumes memory, which bounds the element count |
| `Format.ArrayShapeIff` | src/mym.cpp:1456-1464 | an array is one MATLAB holds if and only if its data are 1, 2, 4 or 8 bytes per element according to its class number, and its dimensions are trimmed |
| `Format.SparseShapeIff` | src/mym.cpp:1540-1549 | the same for sparse matrices: logical of one byte per element and real, or double of eight |
| `Format.TrimMeaning` | src/mym.cpp:1760 | created arrays lose the ones at the end of their dimensions, beyond the second, and nothing else |
| `Format.FirstBytes` | src/mym.h:164-182 | what is written starts with A, P, C or S according to the kind; the headers are mYm and ZL123 with a NUL |
| `Format.LengthRead` | src/mym.cpp:1944-1959 | a stored length is delivered unless `mwSize` has 4 bytes and it does not fit, or memory ends |
| `Format.ArrayRead` | src/mym.cpp:1737-1776 | byte 65, dimensions, class, complexity and the bytes of the class's size are read as exactly that array, the imaginary part if and only if the complexity is 1 |
| `Format.ArrayRefused` | src/mym.cpp:1760 | fewer than two dimensions, or a class without element size, is refused |
| `Format.ArrayWritten` | src/mym.cpp:1476-1516 | the bytes written for an array are those; for a NULL element they are a 0x0 double |
| `Format.NullRead` | src/mym.cpp:1289-1299 | a NULL element comes back as a real double array of 0 by 0 |
| `Format.SparseRead` | src/mym.cpp:1780-1831 | byte 80, counts, class, complexity, jc, ir and data are read as logical for class 3 and as double for any other |
| `Format.SparseWritten` | src/mym.cpp:1567-1613 | the bytes written for a sparse matrix are those |
| `Format.CellWritten` | src/mym.cpp:1417-1435 | cells and structs are their tag, dimensions, names and length-prefixed elements, in this order |
| `Format.CellRefused` | src/mym.cpp:1896-1900 | a cell array of fewer than two dimensions, or more elements than an `int` counts, is refused |
| `Format.StructRefused` | src/mym.cpp:1845-1859 | the same for struct arrays |
| `Format.FieldsRefused` | src/mym.cpp:1849-1854 | and for a field count that is negative as an `int` |
| `Format.PaddingSkipped` | src/mym.cpp:1902-1920 | the next element is where the length prefix says, even if the element itself ends before |
| `MixedWidth.NothingComesBack` | src/mym.cpp:55-66 | with 4-byte lengths asked for, nothing read from what the writer wrote has any element |
| `MixedWidth.TwoDimensional` | src/mym.cpp:55-66 | then a two-dimensional array with dimensions below 2^32 is refused, a cell or struct array comes back empty |
| `MixedWidth.OnlyEmptyComesBack` | src/mym.cpp:55-66 | of all values, what comes back is exactly: a cell with all dimensions 0, a struct array with all dimensions 0 and no fields, a sparse double matrix without columns and with `nzmax` 0, the counts below 2^32 |
| `MixedWidth.PlainBlobComesBack` | src/mym.cpp:2010-2083 | the same of a whole blob that was not compressed |
| `MixedWidth.CompressedBlobComesBack` | src/mym.cpp:2022-2043 | a compressed blob is then not recognised and comes back as its bytes |
| `Serializer.SerializeArray` | src/mym.cpp:1452-1527 | never fails; the buffer, as long as computed beforehand, holds header and encoding |
| `Serializer.SerializeSparse` | src/mym.cpp:1531-1622 | the same for sparse matrices |
| `Serializer.SerializeCell` | src/mym.cpp:1369-1448 | fails exactly for an unsupported class somewhere in the tree, so the size check never fires; otherwise the buffer is header and encoding |
| `Serializer.SerializeStruct` | src/mym.cpp:1260-1366 | the same for struct arrays |
| `Serializer.CollectStruct` | src/mym.cpp:1279-1315 | the first pass leaves every element's bytes, in order, and the sum of their sizes and prefixes |
| `Serializer.PutChildren` | src/mym.cpp:1346-1352 | the second pass writes prefixes and elements in order behind what is there |
| `Serializer.PutAll` | src/mym.cpp:64-66 | consecutive 64-bit integers, the position moved behind them |
| `Deserializer.ReadLength` | src/mym.cpp:55-57 | one length read, checked and stepped over |
| `Deserializer.ReadLengths` | src/mym.cpp:58-60 | as many lengths as asked for, or the first error |
| `Deserializer.DeserializeArray` | src/mym.cpp:1737-1776 | exactly the decoding function's value, cursor or error |
| `Deserializer.DeserializeSparse` | src/mym.cpp:1780-1831 | exactly the decoding function's value, cursor or error |
| `Deserializer.DeserializeStruct` | src/mym.cpp:1835-1884 | exactly the decoding function's value, cursor or error, through both loops |
| `Deserializer.DeserializeCell` | src/mym.cpp:1886-1922 | exactly the decoding function's value, cursor or error |
| `Deserializer.DeserializeElement` | src/mym.cpp:1903-1919 | one element is decoded and stepped over by its stored length |
| `Envelope.ZlibLawConsistent` | src/mym.cpp:782-789 | some compressor meets all that is asked of zlib, the header of its streams included |
| `Envelope.PackArgument` | src/mym.cpp:780-803 | compression never fails, the scratch buffer grows to at least `compressBound`, and the result is what the format says |
| `Envelope.RateIsExact` | src/mym.cpp:790-791 | a blob is stored compressed exactly if 10 old > 11 (14 + new) |
| `Envelope.PackSize` | src/mym.cpp:780-803 | what is stored is never longer than the serialization, and shorter by more than a tenth of itself if compressed |
| `Reading.PackIff` | src/mym.cpp:780-802 | a blob is stored as ZL123, NUL, length and stream if and only if compression is allowed, it has more than 1000 bytes and 10 old > 11 (14 + new); otherwise it is stored as it is |
| `Envelope.DeserializeBlob` | src/mym.cpp:2010-2083 | the entry point delivers exactly what the specification says for any memory and length |
| `Reading.PlainOutcome` | src/mym.cpp:2045-2081 | for any memory without the compression tag: error, value or dump, by the bytes it starts with and what the readers report |
| `Reading.CompressedOutcome` | src/mym.cpp:2022-2044 | with the tag: what zlib is given, how much room, and that the content is read the same way, or the blob as it is if zlib fails |
| `Reading.DataJointIff` | src/mym.cpp:2045-2047 | the error for DataJoint for Python is raised if and only if the bytes, once any compression is undone, start with dj0 in any case and a NUL |
| `Envelope.EnvelopeTransparent` | src/mym.cpp:2022-2079 | up to 2^32 bytes a wrapped blob, not wrapped twice, reads as its content, whatever lies behind it in memory, if and only if the readers raise no error for the content and it does not end within the tag of a compressed blob |
| `Envelope.Unwrapped` | src/mym.cpp:2022-2044 | what is read is the content, with the compressed blob kept for a caught error |
| `Envelope.MalformedComesBack` | src/mym.cpp:2068-2079 | after a caught error the copy starts at the blob but has the length of the content: the blob itself if it was not compressed, otherwise more than the blob holds |
| `Envelope.UnknownElementIsMalformed` | src/mym.cpp:1916-1917 | a cell whose first element has an unknown tag is such content |
| `Envelope.OversizeComesBackWrapped` | src/mym.cpp:2031-2039 | from 2^32 bytes on, the compressed blob itself comes back |
| `Envelope.UndecompressableComesBack` | src/mym.cpp:2038-2043 | a blob with the tag that cannot be decompressed comes back byte for byte |
| `Envelope.HeadedRoundTrip` | src/mym.cpp:2048-2074 | header and encoding read back to the value |
| `Envelope.PackedRoundTrip` | src/mym.cpp:2010-2083 | whether or not it was compressed, a stored value comes back with NULL elements filled in |
| `Envelope.RawRoundTrip` | src/mym.cpp:2075-2081 | bytes that with their NUL start with none of the tags come back as an n-by-1 column, compressed or not |
| `Envelope.UnknownTagShifts` | src/mym.cpp:2063-2081 | behind a header with an unknown tag, what comes back is memory shifted by the header |
| `Placeholders.FindPlaceholders` | src/mym.cpp:734-745 | the pointer arrays hold exactly the spans of the specification, in order; the only error is a missing closing brace |
| `Placeholders.ScanIff` | src/mym.cpp:737-745 | the scan gives `spans` if and only if each opens at the first brace after the one before, closes at the first closing brace after that, and none is left over below the limit |
| `Placeholders.ScanOrdered` | src/mym.cpp:737-745 | spans are disjoint and in order, inside the text |
| `Placeholders.ScanTruncates` | src/mym.cpp:737-745 | with fewer arguments than placeholders just the first ones are found |
| `Placeholders.CountFlags` | src/mym.cpp:715-723 | the number of trailing arguments whose C string is the flag |
| `Statements.FlagIff` | src/mym.cpp:717 | an argument is the flag if and only if it is a char array whose first 16 characters spell it in any letter case, with nothing or a NUL after them |
| `Placeholders.MatchMeaning` | src/mym.cpp:746-752 | the check passes exactly if all arguments without a placeholder are the flag; the flag is then in force exactly if the last argument is it |
| `QueryRebuild.EscapeString` | src/mym.cpp:813 | escaped data and a NUL are written, within twice the data and one byte |
| `QueryRebuild.BuildQuery` | src/mym.cpp:805-822 | the new query is the text outside the spans with escaped data in between, no planted NUL among it, inside the buffer allocated |
| `QueryRebuild.RebuiltSize` | src/mym.cpp:806 | the new query holds no NUL and fits twice the data plus the old text |
| `QueryRebuild.DataIntact` | src/mym.cpp:809-817 | the query falls into what the earlier data made, the untouched text before a placeholder, its datum escaped and whole, and what the later data make |
| `Statements.WholeTextKept` | src/mym.cpp:809-817 | if each datum escapes to its own placeholder the query is the one given: no text around them is lost, moved or added |
| `Arguments.CollectIff` | src/mym.cpp:777-804 | a loop over arguments succeeds with a list exactly if each step does with its element |
| `Arguments.TopArrayShape` | src/mym.cpp:1974-1975 | what the array writer makes of a sparse matrix is a well-formed dense array |
| `Arguments.ClassifyAll` | src/mym.cpp:759-769 | classification is not disturbed by the NULs planted so far; afterwards there is one at the end of each placeholder and nowhere else |
| `Arguments.ReadInString` | src/mym.cpp:765-766 | the in-string argument is the text between type letter and closing brace |
| `Arguments.ClassifyIff` | src/mym.cpp:1961-2006 | a placeholder is accepted with a serializer and a compression choice if and only if its letter, perhaps behind a `u`, is that serializer's, the serializer takes this class of value, and compression is allowed just without `u` and not for text |
| `Arguments.ClassifyFails` | src/mym.cpp:1972-1981 | only a value of a class that cannot be serialized makes `{M}` or `{uM}` fail |
| `Arguments.SerializeText` | src/mym.cpp:1626-1702 | a string argument, cut at its first NUL, gives the bytes its specification says or its error; `SerialCommands.TextOutcome` says which |
| `Arguments.SerializeAll` | src/mym.cpp:770-804 | each argument's stored bytes in order, and their total size |
| `Stored.MatlabStored` | src/mym.cpp:1971-1981 | `{M}` and `{uM}` store header and encoding, compressed where that pays only without `u` |
| `Stored.SparseStored` | src/mym.cpp:1974-1975 | a sparse matrix is stored as the dense array of its first rows times columns elements, or read past its data if it has fewer |
| `Stored.BinaryStored` | src/mym.cpp:1986-1990 | `{B}` and `{uB}` store the bytes of a uint8 row or column and refuse everything else |
| `Stored.FileStored` | src/mym.cpp:1715-1731 | `{F}` and `{uF}` store the contents of the file a char row or column names, and fail if it cannot be opened |
| `Stored.TextStored` | src/mym.cpp:1626-1702 | `{S}` stores nothing for an empty value and the formatted number for numbers, with the placeholder's own text as format |
| `Stored.TextRejected` | src/mym.cpp:2139-2142 | text that is not well formed is an error |
| `Stored.OtherLetters` | src/mym.cpp:2002-2003 | any other letter is an error |
| `Stored.FirstRefusal` | src/mym.cpp:1077-1088 | the first placeholder that does not accept its argument decides the error, before anything is serialized |
| `SerialCommands.Serialize` | src/mym.cpp:1029-1168 | the whole command on memory with planted NULs refines its specification |
| `SerialCommands.SerializeIff` | src/mym.cpp:1029-1168 | succeeds exactly if there are as many placeholders as arguments and each accepts its own; cell i depends on placeholder i and argument i alone |
| `Stored.CountMismatch` | src/mym.cpp:1050-1065 | the errors for an unclosed placeholder and for a wrong number of them |
| `SerialCommands.WholeBlob` | src/mym.cpp:1169-1175 | the length DESERIALIZE assumes is that of the data if and only if the bytes form a row or a column |
| `Stored.BlobRead` | src/mym.cpp:1169-1175 | the blob's length is the larger of the first two dimensions; without data the result is a 0x0 char array |
| `SerialCommands.EndToEnd` | src/mym.cpp:1029-1175 | for any number of `{M}`/`{uM}` placeholders and non-sparse arguments under 2^32 bytes, SERIALIZE succeeds and DESERIALIZE of each cell gives its argument |
| `SerialCommands.SparseComesBackDense` | src/mym.cpp:1974-1975 | a top-level sparse matrix comes back as a dense array of its first elements, or is read past its data |
| `SerialCommands.OnlySparseIsLost` | src/mym.cpp:1974-1975 | at top level a value comes back if and only if it is not sparse |
| `SerialCommands.BinaryComesBack` | src/mym.cpp:1708-1713 | a uint8 vector sent with `{B}` or `{uB}` comes back as a column of its bytes |
| `SerialCommands.TextOutcome` | src/mym.cpp:1635-1643 | for every text: the low bytes of the characters before the first NUL are stored if they are as many as UTF-16 units, with one NUL more if one is missing, and otherwise bytes are sent that were never written |
| `SerialCommands.TextStoredIff` | src/mym.cpp:1635-1643 | every character is stored, a byte each, if and only if none is above U+FFFF and none but the last is NUL |
| `SerialCommands.NulCutsText` | src/mym.cpp:1640-1642 | the text `a`, NUL, `b` is one that is not stored |
| `SerialCommands.TextComesBack` | src/mym.cpp:1635-1643 | `{S}` or `{uS}` stores the low bytes of a char vector exactly for such text, and what it stores comes back |
| `QueryCommand.AdjustFlags` | src/mym.cpp:715-752 | counting and adjusting the flags gives what the specification says |
| `QueryCommand.Prepare` | src/mym.cpp:708-889 | the whole branch up to sending refines its specification |
| `QueryCommand.FilledIff` | src/mym.cpp:726-822 | for any text and arguments, the text is filled if and only if its placeholders are closed, the arguments beyond them are flags, and each placeholder accepts its own |
| `Statements.FillErrors` | src/mym.cpp:737-761 | which error a text that cannot be filled gives |
| `Statements.BigintIff` | src/mym.cpp:878-883 | big integers are asked for as doubles if and only if the last argument is the flag |
| `Statements.FinishedIff` | src/mym.cpp:834-876 | a query that spells CREATE or ALTER first, in any case, is sent without the backslashes before its braces or refused; any other is sent as it is; one with leading white space is lost |
| `QueryCommand.DatumSent` | src/mym.cpp:805-876 | the query sent is what comes before, the datum's bytes as sent, and what comes after; these are the escaped datum if and only if the query is no CREATE or ALTER or no brace stands behind one of its bytes, and otherwise fewer bytes |
| `QueryCommand.StoredAndFetched` | src/mym.cpp:759-876 | a value comes back from the row if its escaped blob was sent whole: the server unescapes what was sent at its place, and reading that gives the value |
| `BraceDamage.ValueDamaged` | src/mym.cpp:838-876 | with `CREATE{uM}` and the bytes backslash and brace, the command is sent, and the server unescapes the value's bytes without the backslash |
| `BraceDamage.OtherDataComesBack` | src/mym.cpp:1737-1776 | the row then reads as the brace and whatever follows the row in memory |
| `QueryCommand.EscapeLawConsistent` | src/mym.cpp:813 | escaping backslash and NUL with a backslash meets all that is asked of escaping and of the server's unescaping |
| `QueryCommand.SentAsFilled` | src/mym.cpp:834-876 | what is sent is the rebuilt query itself, except for CREATE and ALTER: these are refused exactly for a bare brace in text or data, and otherwise the text sent, with its braces escaped, is that query |
| `BraceUnescape.TestPrefix` | src/mym.cpp:1246-1256 | the prefix in any letter case |
| `BraceUnescape.Parse` | src/mym.cpp:838-876 | accepts exactly the queries where every brace but a first character follows a backslash, and delivers the unescaped text |
| `BraceUnescape.StepsBackOntoBackslash` | src/mym.cpp:854-864 | where the index steps back, the last thing emitted is a backslash, and the brace takes its place |
| `BraceUnescape.UnescapedIsKept` | src/mym.cpp:848-867 | the result is the query without the backslashes right before a brace, all other bytes in order |
| `BraceUnescape.KeptWhole` | src/mym.cpp:848-867 | of an accepted query a part loses bytes if and only if a brace stands behind one of them, the one right after the part included |
| `BraceUnescape.UnescapedSize` | src/mym.cpp:848-862 | one byte is dropped for each brace |
| `BraceUnescape.RoomForNul` | src/mym.cpp:842-870 | the source's buffer has room for the NUL exactly if some brace was unescaped |
| `BraceUnescape.UnescapeEscape` | src/mym.cpp:838-876 | escaping every brace, then parsing, restores any text |
| `BraceUnescape.EscapeUnescape` | src/mym.cpp:838-876 | parsing an accepted query, then escaping, restores the query |
| `Text.HexToChar` | src/mym.cpp:2084-2118 | the widened bytes and a NUL inside the buffer; inside the source's own buffer exactly if the input is not empty |
| `Text.CharToHex` | src/mym.cpp:2119-2158 | terminates, writes no more bytes than it reads, and delivers or rejects what the specification says |
| `Text.MaskTests` | src/mym.cpp:2127-2148 | the bit masks of the source are the byte ranges of the model |
| `Text.WholeText` | src/mym.cpp:2119-2158 | well-formed UTF-8 gives the low byte of each code point, one for each |
| `Text.StepTable` | src/mym.cpp:2124-2153 | for any bytes, well formed or not: how many are taken at each place and which byte is written |
| `Text.RejectsSurrogates` | src/mym.cpp:2139-2142 | among three-byte sequences exactly U+D800 to U+DFFF are rejected |
| `Text.WidenIsUtf8` | src/mym.cpp:2084-2118 | `hex2char` writes the UTF-8 form of its bytes taken as code points |
| `Text.TextRoundTrip` | src/mym.cpp:2084-2158 | any bytes survive the way to text and back; the text is longer by the number of bytes above 0x7F |
| `Text.LatinOnly` | src/mym.cpp:2084-2158 | text survives the way to bytes and back exactly if no code point is above U+00FF |
| `Text.CallerBuffer` | src/mym.cpp:1639-1643 | the caller's buffer suffices; its byte count is right exactly if no code point is 0 or above U+FFFF |
| `Connections.InitialIsSafe` | src/mym.h:149-160 | the table starts in a safe state |
| `Calls.StartsEmpty` | src/mym.h:149-160 | the table starts with 20 empty slots |
| `Calls.OutsideRefused` | src/mym.cpp:400-411 | a number outside 0 to 19 is refused, but for -1 with an open |
| `Calls.OpenChooses` | src/mym.cpp:467-476 | -1 opens the least slot that is not open |
| `Calls.OpenOverOpen` | src/mym.cpp:481-561 | opening an open slot closes its handle, then allocates; the whole new table, log and reply |
| `Calls.OpenEmpty` | src/mym.cpp:501-561 | the same for an empty slot: it keeps the handle even if connecting fails |
| `Calls.OpenKept` | src/mym.cpp:501-561 | the same for a slot that kept a handle: it is used again, or lost if `mysql_init` fails |
| `Calls.CloseOpen` | src/mym.cpp:562-571 | closing an open slot closes the handle it holds and empties it |
| `Calls.CloseClosed` | src/mym.cpp:562-571 | closing a slot that is not open changes nothing |
| `Calls.CloseAllEmpties` | src/mym.cpp:572-581 | closing all closes the handles of the open slots, in order, and empties these |
| `Calls.QueryGoesOn` | src/mym.cpp:582-590 | a query goes on, with nothing changed, if and only if the connection is open and answers; otherwise the slot is marked closed |
| `Calls.ReportRefused` | src/mym.cpp:622-635 | a report is refused, and the slot marked closed, if and only if it was open and does not answer |
| `Calls.ReportAllReply` | src/mym.cpp:636-675 | a report on all is refused if and only if slot 0 alone was open and does not answer |
| `Calls.ReportAllPings` | src/mym.cpp:636-675 | it leaves open just those that were open and answer |
| `Calls.StatusCodes` | src/mym.cpp:677-696 | each of the codes 0 to 3, by what the slot and the server say |
| `Connections.EveryRunIsSafe` | src/mym.cpp:467-707 | over every run and all library answers: open slots hold live handles, no handle is in two slots, and only live handles are closed |
| `Connections.NeverClosedTwice` | src/mym.cpp:481-581 | between two closes of a handle it was allocated anew |
| `Connections.AutoOpen` | src/mym.cpp:467-476 | asking for a free connection gets the least closed slot, leaves other slots alone, and is refused before any attempt exactly if all are open |
| `Connections.AutoOpenClosesNothing` | src/mym.cpp:467-503 | a free connection is found without closing any handle |
| `Connections.OthersUntouched` | src/mym.cpp:481-707 | a call on one connection leaves all others alone, and one on a number outside the table leaves the table alone |
| `Connections.RepliesTell` | src/mym.cpp:481-707 | the reply to an open, a query or a status code says whether the connection is open afterwards, that to a close that it is not, that to a report whether it was found broken |
| `Connections.CloseAllCloses` | src/mym.cpp:572-581 | afterwards no slot is open, those that were are empty, and a handle kept by a closed slot stays |
| `Connections.CloseAllLog` | src/mym.cpp:572-581 | `mysql_close` gets the handles of the open slots, each of them, in order, and no other |
| `Connections.CloseAllLive` | src/mym.cpp:572-581 | a handle stays live if and only if no open slot held it |
| `Connections.RunLoses` | src/mym.cpp:501-504 | over a run, a live handle is in no slot exactly if a failed `mysql_init` overwrote it |
| `Connections.ARunThatLoses` | src/mym.cpp:501-504 | two failing opens of the same connection are such a run |
| `Connections.Table.Execute` | src/mym.cpp:467-707 | each call leaves the slots, the live handles and the reply as the transition function says |
| `Connections.Table.OpenAt` | src/mym.cpp:481-561 | closing, allocating and connecting, with the slot left as it is at the failing step |
| `Connections.Table.ReportEvery` | src/mym.cpp:636-675 | the report pings every open slot, or only slot 0 if no other is open |
| `TrailingSpace.EndIsUnique` | mysql-connector/include/m_string.h:307-309 | the end is the one place with only spaces after it and no space before it |
| `TrailingSpace.SkipPlain` | mysql-connector/include/m_string.h:307-309 | the byte loop finds that end |
| `TrailingSpace.SkipEight` | mysql-connector/include/m_string.h:317-329 | so does the loop over eight bytes |
| `TrailingSpace.SkipWords` | mysql-connector/include/m_string.h:280-310 | so does the word loop, for every base address, and each load is aligned and inside the buffer |
| `ByteOrder.KorrIsLoad` | mysql-connector/include/byte_order_generic.h:46-69 | both loads are the little-endian number at that place |
| `ByteOrder.Int8Store` | mysql-connector/include/byte_order_generic.h:91-97 | two 32-bit halves store the 8-byte little-endian number and nothing else |
| `ByteOrder.StoreThenLoad` | mysql-connector/include/byte_order_generic.h:56-97 | loading after storing gives every 64-bit number back |

## Left out

- MATLAB's own API, and the MySQL client beyond success or failure of init,
  connect, stat and ping: sockets, TLS options, the plugin directory, server behaviour.
- Printing, status and version text, result columns other than blobs, and the
  field type conversions: display or library formatting.
- Number formatting and file reading: parameters `number` and `file` of `Arguments.Env`.
- Freeing and leaks, including the shadowed `p_cmp`: no effect on results.
- `removeWhiteSpaceAtTheBeginning` (src/mym.cpp:1205-1238): it frees the query and
  reassigns its own copy of the pointer, so any query that starts with white space
  is used after being freed; the model fails with `OutOfBuffer` there.
- Locale and Windows variants of `strcasecmp` and `sprintf`: letters are ASCII.
- Placeholder sizes are `unsigned` in the source: queries of 2^32 bytes or more.
- Counts of 2^31 or more, which the source keeps in an `int`: of elements or of
  fields, excluded by `MatlabValue.Shape` and refused by the decoder; of all
  fields of all elements of a struct array, excluded for the writer alone by
  `MatlabValue.Countable`.
- `getstring` (src/mym.cpp:318-324) raising an error for a char argument that does
  not fit its buffer in the local encoding.
- Allocation failure, and MATLAB raising `nzmax` 0 to 1 when it creates a sparse matrix.
- An empty object array or function handle sent with `{S}`: refused in the model.
- `mysql_init` giving a new handle an address that is still live: excluded by `Connections.Plausible`.
- The 2-byte and the signed forms in byte_order_generic.h: easy members.
- CodecProofs.RoundTrip: asks that every stored length fits its field, which
  with 8-byte lengths holds of every value in memory, and that field names hold
  no NUL and dimension lists are as MATLAB keeps them.
- SerialCommands.EndToEnd: is about reading 8-byte lengths, as they are written;
  `MixedWidth` is about reading them as 4-byte ones. It asks for less
  than 2^32 serialized bytes and no sparse matrix at top level, which
  `Envelope.OversizeComesBackWrapped` and `SerialCommands.OnlySparseIsLost` show
  to be needed.
- SerialCommands.BinaryComesBack: is about rows of a result, which end in a NUL;
  in a MATLAB argument the tag comparison can look at memory behind it.
