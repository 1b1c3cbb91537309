# godror in Dafny

godror is the Go driver for Oracle databases; under it lies ODPI-C, a C layer over the Oracle
client library. This project models the parts of both where data changes shape or where resources
and threads meet, and proves what they are for.

* **Numbers.** Oracle's NUMBER format (sign and base-100 exponent in one byte, base-100 digits,
  a trailing 102 for short negative numbers) is read and written three times over: by `OCINum` in
  package `num`, by the C codec of ODPI, and as decimal text by `Number`. All of them are measured
  against one yardstick, the real number that digits with a point denote (`Decimals`, `OciFormat`,
  `BigNumbers`, `Words`; modules `OciPrint`, `OciScan`, `OciParts`, `OciRoundTrip`, `OdpiNumber`,
  `OdpiGrammar`, `OdpiRoundTrip`, `GodrorNumber`), and the encoders of Go and C are compared byte for byte
  (`EncodersAgree`).
* **Intervals.** Durations split into days, hours, minutes, seconds and nanoseconds (`Interval`).
* **Texts.** Connection descriptors (`Descriptor`), old-style data source names (`Dsn`), and the
  rewriting of named SQL parameters to numbered ones (`NamedParams`).
* **LOBs.** The buffered reader over a library that answers in portions of its own choosing, for
  bytes and for UTF-8 text counted in UTF-16 code units (`LobReader`, `Utf`).
* **Memory and handles.** The C node tree of a JSON value in a memory of numbered blocks
  (`JsonMemory`), the variable handles of bind slots (`BindSlots`), rows collected into typed
  columns (`Batch`).
* **Sharing.** Sessions that leave and enter a pool (`SessionPool`), callers racing for the map of
  pools (`PoolRegistry`) and for closing a connection (`ConnClose`). The last two are state machines
  in which any number of callers take steps in any order.

Code that works step by step is modelled by methods with loops and by classes; each is proved against
a specification function or a property, and lemmas state what the specification means. What lies
outside (the Oracle client library, the network, the clock, the memory allocator's choice for empty
requests) enters as a parameter: a function that answers, an outcome, a flag. The theorems hold for
every such answer within the stated limits. `dafny verify dfyconfig.toml` checks everything.

## What the proofs brought out

The model follows the code, also where comments or documentation promise something else. The members
named here state when this happens, exactly, unless it is said otherwise.

* `OCINum.SetString` leaves out the trailing 102 of a negative number with exactly 19 base-100
  digits, and stores leading zero pairs of small fractions such as 0.0005; these are the only texts
  for which Go and C store different bytes (`OciScan.SetString`, `EncodersAgree.EncodeBoth`).
* `OCINum.Compose` wraps exponents below -65 and from 63 to 127, and keeps only the low 21 base-100
  digits, both without an error; above 127 it returns one (`OciParts.Compose`,
  `OciParts.DecomposeComposed`).
* The exponent of `OCINum.Decompose` and `OCINum.Compose` counts base-100 places of the leading digit,
  where the decimal interface says coefficient times ten to the exponent. Both mean the same number
  exactly if it is zero, or the exponent is twice the number of base-100 digits behind the first; one
  hundred goes over as ten (`OciParts.ReadingsAgree`, `OciParts.DecomposeForInterface`,
  `OciParts.ComposeForInterface`, `OciParts.HundredExample`).
* The C encoder turns 40 digits around an odd decimal point into 21 base-100 digits: 23 bytes with
  length and exponent, one more than a number has room for, which the C decoder refuses
  (`OdpiNumber.ToOracleNumber`, `OdpiNumber.ReadStored`).
* The C decoder makes three digits of a byte that stands for 100 to 109, so that bytes that are no
  encoding can have more than the 40 digits it is meant for; the count is stated for all bytes
  (`OdpiNumber.ParseOracleNumber`, `OdpiNumber.WideExample`).
* `dpiUtils__parseNumberString` accepts a lone "-" or ".", in UTF-16 half a character as well, and
  refuses a zero whose exponent is out of range, as well as numbers too small, for which its comment
  promises zero (`OdpiNumber.ParseNumberString`, `OdpiRoundTrip.ZeroStored`,
  `OdpiRoundTrip.RefusedExponents`, `OdpiRoundTrip.LoneSign`, `OdpiRoundTrip.HalfCharacter`).
* `Number.Compose` does not look at the form, and slices out of range for the smallest 32-bit
  exponent; composing with a positive exponent is not undone by taking apart
  (`GodrorNumber.Compose`, `GodrorNumber.DecomposeComposed`).
* `Number.Decompose` takes a sign behind a leading point: ".-5" becomes minus five hundredths. It counts
  the characters behind the point in 32 bits, so that the number is lost with more than 2^31 of them
  (`GodrorNumber.Accepts`, `GodrorNumber.DecomposedValue`, `GodrorNumber.BehindPointValue`).
* `MapToSlice` does not look again at the character that ends a parameter, so the second parameter
  of ":a:b" is not found, and in ":a':b'" a literal is rewritten. Query and values come out as for a
  scanner that looks again exactly if both find parameters at the same places. That is so whenever no
  literal and no parameter starts right behind a colon or a parameter, and, where no literal does,
  only then; a literal there may do no harm, as in ":a'x'" (`NamedParams.ResultTells`,
  `NamedParams.QuietResult`, `NamedParams.ResultChanges`, `NamedParams.Missed`,
  `NamedParams.LiteralRewritten`, `NamedParams.HarmlessLiteral`).
* Parsing the descriptor "(X=)" is an index out of range. A text of this kind is recognized by one
  pass over it from left to right with a stack of open parentheses; a text without an empty value
  never is one, but "(X=a=)" is not one either (`Descriptor.PanicsExactly`, `Descriptor.NeverPanics`,
  `Descriptor.HarmlessExample`).
* The descriptor parser accepts a text that ends behind an equals sign, and children whose list is never
  closed (`Descriptor.EndsBehindEquals`, `Descriptor.UnclosedParsed`).
* A data source name without "@" and without "/" comes back as the connect string with its " AS SYS..."
  ending written twice (`Dsn.NoLogin`).
* No quoting can put a backslash into a user name, a password, or a connect string next to these
  (`Dsn.Expressible`).
* A LOB read with an empty destination throws away what is buffered, and a CLOB read straight into
  four to seven bytes ends early at the first character beyond the basic plane
  (`LobReader.Reader.Read`, `LobReader.LostExample`, `LobReader.Reader.ReadAll`,
  `LobReader.StarvedExample`).
* A CLOB that ends in U+FFFD never arrives whole, since that character is cut off as a decoding error.
  Elsewhere in the text it is lost, with all that follows, exactly if the library delivers a portion
  of nothing else where reading has got to (`LobReader.Reader.ReadAll`, `LobReader.WalkSpoken`).
* `Batch` panics when the first column has only seen nil by the time it is flushed, and when a column
  gets its first value while more than `Limit` rows are waiting; a failing `RowsAffected` keeps rows
  that the database has already executed (`Batch.Batch.Add`, `Batch.Batch.Flush`,
  `Batch.LimitExample`).
* `bindVars` forgets the handles of a slot array that it replaces by a longer one
  (`BindSlots.Binds.BindVars`, `BindSlots.LeakExample`).
* A session dropped after a failed ping keeps its time cell allocated (`SessionPool.Sessions.GetSession`).

## Model

| member | source | states |
|---|---|---|
| `OciPrint.Print` | num/ocinum.go:66-159 | the text denotes exactly the stored number, and is the canonical text of it unless a zero is stored in a long form; empty for a null |
| `OciPrint.PointedValue` | num/ocinum.go:95-135 | wherever the point is put (before, inside or behind the pairs), the digit buffer reads as the stored number |
| `OciPrint.StripFront` | num/ocinum.go:136-138 | dropping zeros in front keeps the number and never takes the digit before the point |
| `OciPrint.TrimBack` | num/ocinum.go:142-149 | dropping zeros and a point at the end keeps the number and leaves no zero at the end of the fraction |
| `OciScan.Scan` | num/ocinum.go:181-204 | passes exactly the texts with at most one sign, one point and 39 digits; counts their digits; a failure names a character that is to blame |
| `OciScan.GoodIsDecimal` | num/ocinum.go:185-204 | character by character acceptance is the same as being a decimal text |
| `OciScan.ZeroText` | num/ocinum.go:208-211 | no digit but zeros is the same as denoting zero |
| `OciScan.AlignedValue` | num/ocinum.go:222-241 | padding to whole pairs around the point, and dropping a lone leading zero, keeps the number |
| `OciScan.Pack` | num/ocinum.go:246-270 | the assembled bytes denote the signed number; the trailing 102 is there exactly for negative numbers of at most 18 pairs |
| `OciScan.TrimPairs` | num/ocinum.go:243-245 | what is kept is the row without pairs of zeros at its end, down to a last pair, and denotes the same number |
| `OciScan.SetString` | num/ocinum.go:172-272 | accepts exactly decimal texts of at most 39 digits; the result denotes the text's number, and each of its bytes is determined by the text; which errors come when; from the text alone, exactly when the sentinel rule is kept and when the result is normalized |
| `OciScan.StoresRule` | num/ocinum.go:246-270 | the sentinel rule is kept exactly unless a minus sign stands before a text that fills 19 pairs |
| `OciScan.SentinelExample` | num/ocinum.go:248-266 | a minus sign and 38 ones are stored against the sentinel rule |
| `OciScan.ZeroPairExample` | num/ocinum.go:223-237 | "0.0005" is stored with a leading zero pair |
| `OciRoundTrip.PrintScanned` | num/ocinum.go:66-272 | printing what was scanned gives the canonical text of the same number, hence the very text if it was canonical |
| `OciRoundTrip.PrintRecomposed` | num/ocinum.go:66-374 | the same with taking apart and putting together in between |
| `OciParts.Decompose` | num/ocinum.go:277-322 | coefficient and exponent are those of the base-100 digits read as one integer, leading zeros counted off |
| `OciParts.DecomposedValue` | num/ocinum.go:277-322 | the parts denote the stored number, the exponent read as one of base 100 for the leading digit |
| `OciParts.ReadingsAgree` | num/ocinum.go:377-384 | coefficient times ten to the exponent is that number exactly if the coefficient is zero or the exponent is twice the number of base-100 digits behind the first |
| `OciParts.DecomposeForInterface` | num/ocinum.go:277-322 | for every stored number, exactly when what is handed to the decimal interface means it |
| `OciParts.ComposeForInterface` | num/ocinum.go:328-374 | for all parts that can be represented, exactly when what is stored is what the decimal interface means |
| `OciParts.HundredExample` | num/ocinum.go:277-322 | one hundred is handed over as one with the exponent one, which means ten |
| `OciParts.Compose` | num/ocinum.go:328-374 | for every form, coefficient and exponent: nothing, zero, an error, or the encoding of the kept digits |
| `OciParts.DecomposeComposed` | num/ocinum.go:277-374 | taking apart undoes putting together exactly if the exponent is in -65..62 and the coefficient has at most 21 base-100 digits |
| `OciParts.WrapExample` | num/ocinum.go:339-348 | an exponent of 63 does not come back |
| `OciParts.ComposeDecomposed` | num/ocinum.go:277-374 | the two operations run one after the other are the function the next three rows are about |
| `OciParts.RecomposeParts` | num/ocinum.go:277-374 | the result is normalized, follows the sentinel rule, keeps the sign and loses only leading zero pairs |
| `OciParts.RecomposeValue` | num/ocinum.go:277-374 | the number is kept exactly if the smaller exponent can still be stored |
| `OciParts.RecomposeIdentity` | num/ocinum.go:277-374 | a normalized encoding keeps all parts, and comes back byte for byte exactly if it follows the sentinel rule |
| `OdpiNumber.ToOracleNumber` | odpi/src/dpiData.c:452-526 | the first byte counts the bytes that follow, and these are the sentinel-terminated encoding of the digits; they fit the 22 bytes of a number exactly if it can be read again |
| `OdpiNumber.BodyParts` | odpi/src/dpiData.c:467-523 | the encoding denotes the digits with their point, and has a legal length exactly unless 40 digits stand around an odd point |
| `OdpiNumber.ParseOracleNumber` | odpi/src/dpiUtils.c:423-503 | refuses exactly illegal lengths; otherwise yields sign, point and digits of the mantissa with one zero dropped on either side, at most 40 of them; for bytes that are no encoding as well, what is written, how many digits that is and where the point goes |
| `OdpiNumber.WideExample` | odpi/src/dpiUtils.c:481-490 | twenty bytes that stand for 101 make sixty digits |
| `OdpiNumber.ReadStored` | odpi/src/dpiUtils.c:423-503 | decoding undoes encoding for all digits and points in range, exactly unless 40 digits stand around an odd point |
| `OdpiNumber.RefusedExample` | odpi/src/dpiUtils.c:433-438 | forty ones around an odd point are encoded and then refused |
| `OdpiNumber.ParseNumberString` | odpi/src/dpiUtils.c:282-415 | in one-byte and in two-byte character sets: the parts of a text, or the error it deserves, each of the four told apart; which texts and parts these are is stated from the text alone in the rows of `OdpiGrammar` |
| `OdpiNumber.AnswersNumbers` | odpi/src/dpiUtils.c:282-415 | in either character set exactly the texts of the grammar that are in range are parsed |
| `OdpiNumber.Narrow` | odpi/src/dpiUtils.c:311-324 | the conversion of UTF-16 succeeds exactly on ASCII texts, and then yields the text |
| `OdpiNumber.RawText` | odpi/src/dpiUtils.c:311-324 | a text is read back from its bytes, in either character set and byte order |
| `OdpiNumber.PartsOfValue` | odpi/src/dpiUtils.c:325-404 | what is parsed denotes the number of the text, and has no zeros at either end |
| `OdpiGrammar.PlainNumber` | odpi/src/dpiUtils.c:325-366 | without an exponent mark the accepted texts are an optional minus sign before digits with at most one point, and each denotes what the decimal text does, zero if it has no digit |
| `OdpiGrammar.MarkedValue` | odpi/src/dpiUtils.c:368-398 | e or E with one to three digits, behind a plus sign, a minus sign or none, multiplies the number by ten to plus or minus that number, by moving the point and nothing else |
| `OdpiGrammar.PlainScan` | odpi/src/dpiUtils.c:325-412 | the answer to every text without a mark, with the limits of 40 digits and of the point |
| `OdpiGrammar.MarkedScan` | odpi/src/dpiUtils.c:368-412 | the answer to every text with a mark: which coefficients and exponents are no number, that a fourth exponent digit is not supported whatever follows it, and when the moved point is out of range |
| `OdpiGrammar.SplitExists` | odpi/src/dpiUtils.c:368-376 | every text with a mark has the form that `MarkedValue` and `MarkedScan` are about |
| `OdpiGrammar.MagShift` | odpi/src/dpiUtils.c:397 | moving the point by some places multiplies the number by that power of ten |
| `OdpiNumber.TextOfValue` | odpi/src/dpiData.c:195-259 | the printed text denotes the number, and is canonical when no zeros stand at the ends |
| `OdpiNumber.TextOfLength` | odpi/src/dpiData.c:175-186 | the size computed in advance is the size of the text in every case |
| `OdpiNumber.AsText` | odpi/src/dpiData.c:160-262 | the buffer receives exactly the bytes of the text, in one byte a character or in two of either order, nothing beyond them, and nothing at all if it is too small |
| `OdpiNumber.TextFits` | odpi/src/dpiImpl.h:104 | 172 characters are enough for every number in range |
| `OdpiRoundTrip.PrintBoth` | odpi/src/dpiData.c:160-526 | a text parsed, encoded and printed in C is printed alike by Go, as the canonical text of its number, in the bytes of the character set it came in |
| `OdpiRoundTrip.ZeroStored` | odpi/src/dpiUtils.c:401-412 | texts for zero lose all digits, and yet are stored exactly if exponent and fraction keep the point in range |
| `OdpiRoundTrip.RefusedExponents` | odpi/src/dpiUtils.c:406-412 | "0e200", "0e-130" and "1e-131" have no representation |
| `OdpiRoundTrip.LoneSign` | odpi/src/dpiUtils.c:325-345 | a lone minus sign is parsed, as a negative zero |
| `OdpiRoundTrip.HalfCharacter` | odpi/src/dpiUtils.c:311-324 | a single byte is parsed in UTF-16, as zero |
| `EncodersAgree.EncodeBoth` | num/ocinum.go:172-272 | Go and C store the same bytes for a text exactly if its number is zero, or it starts with no pair of zeros and does not fill 19 pairs behind a minus sign |
| `EncodersAgree.SameEncoding` | odpi/src/dpiData.c:467-523 | of all encodings of a number without a pair of zeros at the end, C's is the one without a pair of zeros in front that keeps the sentinel rule |
| `EncodersAgree.TextParsed` | odpi/src/dpiUtils.c:282-415 | what C prints is parsed in C to the same digits, sign and point, in either character set |
| `EncodersAgree.PartsUnique` | odpi/src/dpiUtils.c:401-404 | without zeros at the ends, digits, sign and point are determined by the number |
| `GodrorNumber.Compose` | number.go:45-85 | the shifted and filled byte buffer holds the text that the next rows are about; a slice is out of range exactly for the smallest exponent |
| `GodrorNumber.ComposeValue` | number.go:45-85 | in every case of the shifting the text denotes coefficient times ten to the exponent |
| `GodrorNumber.Decompose` | number.go:17-41 | accepts exactly an optional sign before a decimal text, or a point, a sign and digits; what it yields denotes the text's number, in the second case with a zero for the sign, exactly unless that is not zero and more than 2^31 characters stand behind the point |
| `GodrorNumber.Accepts` | number.go:18-27 | the texts that are numbers for it: signed decimal texts, and digits behind a point and a sign |
| `GodrorNumber.DecomposedValue` | number.go:18-40 | the parts of a signed decimal text denote its number exactly if it is zero or the count of fraction digits fits |
| `GodrorNumber.BehindPointValue` | number.go:19-23 | a sign behind a leading point moves the digits one place further |
| `GodrorNumber.BehindPointExample` | number.go:19-23 | ".-5" is no decimal text, and is taken for minus five hundredths |
| `GodrorNumber.DecomposeComposed` | number.go:17-85 | for a coefficient without leading zero bytes, taking apart undoes putting together exactly up to exponent zero |
| `GodrorNumber.ComposeDecomposed` | number.go:17-85 | for every text that is a non-zero number, putting together gives the text back exactly if it is a plain numeral (fraction zeros allowed) |
| `Interval.Split` | data.go:188-204 | for every 64-bit duration the parts share its sign, stay below their units, fit 32 bits and add up to it |
| `Interval.RemOfRem` | stmt.go:1752-1761 | taking the remainder of the value before the last one is as good as of the last one |
| `Interval.JoinExact` | data.go:178-186 | joining parts of one sign restores the duration, and no product or partial sum overflows exactly if the total fits |
| `Descriptor.Parse` | sid/sid.go:57-98 | the recursive parser over the remaining text computes the result that the following rows describe for every text: statement, remainder, refusal or panic |
| `Descriptor.ParsedSuffix` | sid/sid.go:57-98 | whatever the input, unless the parser panics, what it returns as left over, with an error or without, is the end of the input |
| `Descriptor.ParsedByMachine` | sid/sid.go:57-98 | for every text the recursive parser and a machine without recursion, which goes over the text once with a stack of open statements and their children, give the same statement and remainder, the same refusal, or the same panic |
| `Descriptor.PlainText` | sid/sid.go:60-62 | a text that does not start with a parenthesis, such as a plain service name, is no statement and no error, and is left as it is but for leading white space |
| `Descriptor.RefusesExactly` | sid/sid.go:64-88 | the texts that are refused, and the remainder returned with the error, are those that one scan from left to right with a stack finds: no "=" before the next ")", a value without ")" or with "(" in it |
| `Descriptor.EndsBehindEquals` | sid/sid.go:67-72 | a text that ends behind "=" is accepted, as a statement without value |
| `Descriptor.UnclosedParsed` | sid/sid.go:82-97 | a list of children that is not closed is accepted, and what stands behind it is left |
| `Descriptor.PanicsExactly` | sid/sid.go:57-98 | the texts over which the parser panics are those that one scan from left to right with a stack finds |
| `Descriptor.NeverPanics` | sid/sid.go:57-98 | no text panics in which every "=" is followed by something else than white space and ")" |
| `Descriptor.HarmlessExample` | sid/sid.go:74-98 | "(X=a=)" has an empty value and is parsed |
| `Descriptor.PrintParsed` | sid/sid.go:42-98 | a clean statement printed with any white space and followed by anything is read back and the rest left, or, if it holds an empty statement, the parser panics |
| `Descriptor.ParsedClean` | sid/sid.go:57-98 | only clean statements come out of the parser |
| `Descriptor.RoundTrip` | sid/sid.go:42-98 | printing and parsing is the identity exactly on clean statements without an empty one |
| `Descriptor.EmptyExample` | sid/sid.go:74-77 | "(X=)" is an index out of range |
| `Dsn.Unquote` | dsn/dsn.go:868-899 | the loop with its pending backslash computes the specified text |
| `Dsn.SplitQuoted` | dsn/dsn.go:903-919 | the split is at the first separator without a backslash before it, if there is one |
| `Dsn.ParseUserPassw` | dsn/dsn.go:920-950 | user, password and connect string are those of the specification |
| `Dsn.JoinParsed` | dsn/dsn.go:868-950 | joining with quoted separators and parsing is the identity for all parts without backslashes, whatever "://" they hold |
| `Dsn.ParsedIsPlain` | dsn/dsn.go:868-950 | no parsed user or password holds a backslash |
| `Dsn.LoginWithRole` | dsn/dsn.go:930-946 | without "@", user and password are what stands around the slash, and the connect string is the " AS SYS..." ending or nothing |
| `Dsn.NoLogin` | dsn/dsn.go:930-940 | without "@" and "/" there is neither user nor password, and the connect string is the whole text with that ending once more |
| `Dsn.NoPassword` | dsn/dsn.go:929-949 | without "/" there is no password: the user stands before "@", the connect string behind it |
| `Dsn.SpelledUnquoted` | dsn/dsn.go:888-896 | line ends and tabs written with a backslash and a letter are read back |
| `Dsn.Expressible` | dsn/dsn.go:868-950 | a login can be written down, quoted in whatever way, exactly if it holds no backslash, or is a connect string alone: a URL, or a text that nothing splits |
| `NamedParams.MapToSlice` | orahlp.go:401-470 | the state machine over the query replaces exactly the parameters of the query, in order, by placeholders, and yields one value for each; a parameter is a colon with a letter behind it that lies in no line comment, block comment or literal and does not end another parameter |
| `NamedParams.PlacesExact` | orahlp.go:422-462 | told from where comments and literals are opened and closed in the text: no parameter is found inside one or on the character that ends another, and every other colon with a letter behind it is one; for the code and for a scanner that looks again |
| `NamedParams.PlacesFilled` | orahlp.go:410-420 | the result is the query with the names at these places replaced by numbers, and the values are those of these names |
| `NamedParams.RestoreLex` | orahlp.go:401-470 | putting the names back for the placeholders restores the query |
| `NamedParams.RenderIsNumbered` | orahlp.go:401-470 | the result is the query with names replaced by numbers and every other character as it was |
| `NamedParams.NumbersCount` | orahlp.go:410-420 | the numbers are 1, 2, 3, ... in the order of the parameters |
| `NamedParams.LexMaximal` | orahlp.go:454-460 | every parameter is an identifier that could not be longer |
| `NamedParams.RescanMatters` | orahlp.go:454-460 | the pieces the text is cut into are those of a scanner that looks again exactly if no literal and no parameter starts behind a colon or a parameter |
| `NamedParams.ResultTells` | orahlp.go:401-470 | the returned query is that of a scanner that looks again exactly if both find parameters at the same places, and then so are the values |
| `NamedParams.QuietResult` | orahlp.go:401-470 | query and values are the same if nothing starts behind a colon or a parameter |
| `NamedParams.Missed` | orahlp.go:454-460 | where no literal does, fewer parameters are found than by a scanner that looks again exactly if another parameter starts there |
| `NamedParams.ResultChanges` | orahlp.go:401-470 | where no literal does, the query is the same exactly if nothing starts there |
| `NamedParams.LiteralRewritten` | orahlp.go:454-460 | ":a':b'" has two parameters for the code, one for a scanner that looks again, and comes out differently |
| `NamedParams.HarmlessLiteral` | orahlp.go:454-460 | ":a'x'" has a literal behind a parameter and comes out the same |
| `NamedParams.SecondIsMissed` | orahlp.go:454-460 | ":a:b" has one parameter for the code, two for a scanner that looks again |
| `LobReader.ReplyFits` | lob.go:289-293 | asking for a quarter of the buffer in code units never needs more bytes than the buffer has |
| `LobReader.TrimErrors` | lob.go:338-348 | cutting erroneous endings leaves exactly the whole characters, up to the last that is not U+FFFD |
| `LobReader.CountUnits` | lob.go:352-357 | the rune loop counts the UTF-16 code units of the text |
| `LobReader.Reader.ReadLob` | lob.go:251-371 | one answer is the next piece of the LOB; offset and position advance together; the end is reported exactly if nothing came or a BLOB is exhausted; reading ends early exactly when nothing is left of an answer, which without U+FFFD is when the next character does not fit |
| `LobReader.Reader.Read` | lob.go:164-215 | what callers are given continues what they were given, directly or through the buffer; how many bytes an empty destination loses; at the end everything was given exactly if nothing was lost and no character failed to fit |
| `LobReader.Reader.ReadAll` | lob.go:164-371 | reading to the end gives the front of the LOB, all of a BLOB, and all of a text exactly if the walk along the library's answers gets to its end: never if it ends in U+FFFD; for any library without an answer of U+FFFD only, and any destination size, exactly unless fewer than eight bytes are read without buffer from a text with a two-unit character |
| `LobReader.WalkSpoken` | lob.go:289-366 | that walk stops early, without an answer of U+FFFD only, exactly if one code unit fits and a character needs two |
| `LobReader.ClearIsSpoken` | lob.go:338-348 | a text without U+FFFD has no such answers |
| `LobReader.Reader.Size` | lob.go:221-249 | the size in bytes or code units, refused for a CLOB, and remembered |
| `LobReader.LibraryExists` | lob.go:301-305 | for every LOB there is a library that answers as is asked for in these rows |
| `LobReader.LostExample` | lob.go:183-207 | three bytes in one answer, one given, an empty destination: two are lost |
| `LobReader.ReplacementExample` | lob.go:338-348 | a text that ends in U+FFFD, for any library and size: end reported, not all given |
| `LobReader.StarvedExample` | lob.go:176-181 | a text of one such character, of which the size was asked, read by four bytes: end reported, not all given |
| `Utf.DecodeEncoded` | lob.go:353-357 | the first rune of an encoded text is its first character |
| `Utf.Decoded` | lob.go:339-357 | conversely, whatever the bytes, a rune that is found is the character whose encoding they start with, or an error of one byte |
| `Utf.LastEncoded` | lob.go:339-348 | the last rune of an encoded text is its last character |
| `Utf.BytesPerUnit` | lob.go:289-293 | a code unit takes one to three bytes of UTF-8 |
| `Utf.SurrogateSpoils` | lob.go:339-348 | half a character, encoded on its own, is an error at every cut |
| `Utf.ReplacementSpoils` | lob.go:339-348 | so is U+FFFD itself |
| `JsonMemory.Heap.Populate` | json.go:622-722 | for every value the tree is built as far as its first unsupported part, in new blocks only, and success is reported exactly if every part is supported |
| `JsonMemory.Heap.FreeNode` | json.go:147-211 | exactly the blocks of the built tree are freed, each while it is alive, and entries that were not begun are not visited; the value left over names no block, and from such a value nothing is freed |
| `JsonMemory.Heap.FreeNodeTwice` | json.go:147-211 | freeing a node twice is freeing it once |
| `JsonMemory.Heap.FreeMem` | json.go:213-220 | the memory afterwards is the memory before without the blocks of the tree |
| `JsonMemory.Heap.Alloc` | json.go:731-738 | a tree if every part is supported, and otherwise a memory exactly as before |
| `JsonMemory.Heap.AllocThenFree` | json.go:725-738 | allocating and freeing leaves the memory exactly as it was, for every value |
| `JsonMemory.Frame` | json.go:622-722 | a built tree does not depend on memory outside its blocks, its node and its value |
| `JsonMemory.KidSeen` | json.go:167-190 | an entry has a value exactly if it was begun |
| `SessionPool.Sessions.Acquire` | odpi/src/dpiConn.c:989-1077 | one round: the session goes out with its own settings if it is new, recent or answers, else it is gone from the pool |
| `SessionPool.Sessions.GetSession` | odpi/src/dpiConn.c:982-1083 | the loop ends; every session given up was used before, not recent and did not answer; the one handed out has its own settings and is new, recent or has just answered; it is reported new exactly if it was never closed back |
| `SessionPool.Sessions.GetSessionAmong` | odpi/src/dpiConn.c:982-1083 | among other callers, who take sessions out and close them back between the rounds, no more rounds fail than there were used sessions in the pool and sessions closed back meanwhile; the session handed out is new, recent or has just answered |
| `SessionPool.Sessions.Close` | odpi/src/dpiConn.c:259-331 | dead, dropped or disconnected sessions leave with their time cell freed, all others come back with the time |
| `ConnClose.AlwaysExclusive` | odpi/src/dpiConn.c:1627-1675 | in every threaded run at most one thread is inside the internal close, and at most one close ever succeeds |
| `ConnClose.Retry` | odpi/src/dpiConn.c:1660-1672 | as long as no close has succeeded, any thread can get to the internal close again once the others rest |
| `ConnClose.Race` | odpi/src/dpiConn.c:1645-1656 | without the lock there is a run in which two closes succeed |
| `ConnClose.ExclusiveIffThreaded` | odpi/src/dpiConn.c:1627-1675 | exclusion holds for all runs exactly in threaded mode |
| `PoolRegistry.StepKeeps` | drv.go:794-820 | every step of every caller keeps the ledger: who holds which pool, what is published, what is closed |
| `PoolRegistry.OnePoolForever` | drv.go:794-820 | a published key has one pool forever, which carries the key and is never closed |
| `PoolRegistry.SameAnswer` | drv.go:794-820 | any two answers for a key are the same pool |
| `PoolRegistry.NothingLost` | drv.go:269-276 | a pool in nobody's hands is either open and published under exactly one key, or was closed exactly once |
| `PoolRegistry.Answered` | drv.go:797-820 | from every reachable state in which nobody holds the lock, any caller that has not begun or is done can get to an answer, the pool that is then published under its key |
| `Batch.Append` | batch.go:48-75 | a column takes a value of an assignable type, a nil as zero, a first value late or a change of type exactly unless types clash, and then holds the longer row of values |
| `Batch.Batch.Add` | batch.go:32-82 | rows added are the rows flushed followed by the rows waiting; the columns are the transpose of the waiting rows; exactly when it panics |
| `Batch.ArgumentsHold` | batch.go:96-106 | what is sent is the transpose of the waiting rows; a column that saw a value is sent as it is, a column of nils as that many empty strings |
| `Batch.Batch.Flush` | batch.go:91-127 | on success the waiting rows are flushed, in order; on failure they wait on; whenever the database is asked, each column with values goes to it as it is, each column of nils as empty strings; exactly when it panics, and which failures leave executed rows waiting |
| `Batch.NilExample` | batch.go:91-94 | a single nil at a limit of one panics |
| `Batch.RoomExample` | batch.go:48-53 | one refused execution at a limit of one, and then the first value of a column: no panic |
| `Batch.LimitExample` | batch.go:48-53 | two refused executions at a limit of one, and then the first value of a column: panic |
| `BindSlots.Binds.Prepare` | stmt.go:1003-1013 | a slot is reused exactly if its handle was made for the same; else that handle is released and gone from the slot, and the slot holds a new live handle, which was made for the argument |
| `BindSlots.Binds.BindVars` | stmt.go:852-1078 | succeeds exactly if every argument gets variable and value; then every handle bound is live and was created for what its argument needs; exactly which handles are forgotten |
| `BindSlots.Binds.Close` | stmt.go:344-383 | all handles in slots are released, once; only forgotten ones stay unreleased |
| `BindSlots.UseAndClose` | stmt.go:344-1078 | over any executions and then Close, nothing stays unreleased if no argument list is longer than the first non-empty one, and, when no argument fails, only then |
| `BindSlots.LeakExample` | stmt.go:857-861 | one argument and then two: a handle stays unreleased |

## Left out

- The Oracle client library itself, cgo casts, thread pinning, logging, finalizers, contexts and their cancellation.
- `dsn.Parse` and its formatting, time zones, the large type switches for binding and fetching, queues, subscriptions, objects, vectors and tokens: branch by branch code without a property across operations.
- The typed printers of package sid beyond the generic statement.
- OciPrint.Print: says nothing about bytes that are not an encoding (base-100 digits out of range) beyond ending without an index error.
- Dsn.ParseUserPassw: upper-casing is modelled for ASCII letters only.
- NamedParams.MapToSlice: texts are sequences of characters, not of bytes; names are made of ASCII characters in the source as well.
- LobReader.Reader.ReadLob: library failures, the retry after ORA-22831 and the wrap-around of 64-bit offsets.
- LobReader.Reader.Size: a reader is taken to know from the start whether its LOB is a CLOB, and asking for the size does not fail.
- JsonMemory.Heap.Populate: texts are represented by their lengths, map entries by the order in which they are visited; allocation of a non-empty block always succeeds, and numbers of blocks are not used again.
- SessionPool.Sessions.GetSession: the sessions given up are named for an undisturbed loop, and counted in `GetSessionAmong` for a disturbed one; failures of OCI calls other than the ping, standalone connections, tags, and the statement cache size.
- ConnClose.AlwaysExclusive: the checks of tag, mode and external handle are one step that may refuse; what the internal close does inside is one step that succeeds or fails.
- PoolRegistry.OnePoolForever: no closing of the driver meanwhile; how the key is built from the parameters.
- Batch.Batch.Add: rows shorter than the first one, which its comment forbids; after a panic over a clash of types or a value too many the batch is not described.
- Batch.Append: assignable types are those whose underlying types agree, one of them without a name; channel directions are left out.
- BindSlots.Binds.BindVars: array lengths and the setting of values are one outcome each; binding itself does not fail.
