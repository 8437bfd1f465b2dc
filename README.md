# A verified model of the `sec` two-factor tool

`sec` keeps TOTP secrets and encrypted passwords in one CSV file. Its
`2fa` command, and the first tab of its desktop window, print the current
six-digit code of every secret. Its `decrypt` command, and the second tab,
print the passwords selected by a key. This project models the core of
those four functions in Dafny and proves what they compute:

- the counter message of `toBytes`: eight big-endian bytes;
- the dynamic truncation of `oneTimePassword` (section 5.3 of RFC 4226)
  over an in-place digest buffer, checked against the published values of
  Appendix D of RFC 4226;
- the 30-second time step of section 4.2 of RFC 6238, with Go's truncating
  `/` and `%`;
- the secret cleaning: spaces removed, then upper-cased, then decoded as
  unpadded base32 (section 6 of RFC 4648), with an encoder as the partner
  the decoder is proved to invert;
- the two row loops: the listing loop of `TowFA` and `Gen2FAText`, and the
  password-selection loop of `Decrypt` and `GenPasswordText`.

Modules, one per file:

- `Numeric`: positional numerals, powers and division facts;
- `Otp`: `toBytes`, `toUint32` and `oneTimePassword`;
- `AppendixD`: the RFC 4226 test vectors;
- `TimeStep`: the counter and the seconds remaining;
- `Base32`: cleaning, decoding and encoding;
- `Format`: `%d`, `%06d`, and text accumulated line by line;
- `Credentials`: the file's rows and what the two loops compute from them,
  as functions;
- `Listings`: the listing loop, written once and shared by both commands;
- `Commands`: `TowFA` and `Decrypt` of `main.go`;
- `View`: `Gen2FAText` and `GenPasswordText` of `view.go`.

HMAC-SHA1 (`hmac`), the AES decryption (`decrypt`), the opened CSV file
(`CsvFile`) and the clock (`epochSeconds`) are parameters. The outcome of
a run is a value (`Run`): the open error returned, the text produced, or
the decode error that ends the process.

## Model

| member | source | states |
|---|---|---|
| Numeric.ValueOfDigitsOf | main.go:161-169 | the `n` base-`b` digits of `v` denote `v` modulo b^n, for negative `v` too |
| Numeric.DigitsOfAt | main.go:165-167 | digit `i` of `v` (most significant first) is `v` divided by b^(n-1-i), modulo b |
| Numeric.DigitsOfValueOf | main.go:111 | writing the number a digit sequence denotes gives back those digits |
| Numeric.ValueOfBound | main.go:111 | `n` digits in base `b` denote a number below b^n |
| Numeric.ValueOfAppend | main.go:120 | the value of `a + b` is that of `a` shifted by \|b\| places plus that of `b` |
| Otp.ToBytes | main.go:161-169 | the loop over shifts 56, 48, ..., 0 builds exactly the counter message: 8 bytes denoting the value modulo 2^64 |
| Otp.ToBytesStep | main.go:165-167 | the byte `(value >> shift) & 0xFF` taken at step `i` extends the prefix of the counter message built so far |
| Otp.CounterByteAt | main.go:166 | byte `i` of the counter message is the value shifted right by 56 - 8i bits, modulo 256 |
| Otp.CounterBytes | main.go:161-169 | the counter message is eight bytes |
| Otp.CounterBytesValue | main.go:161-169 | the counter message read big-endian is the counter modulo 2^64, and the counter itself for a non-negative int64 |
| Otp.BigEndian4 | main.go:171-174 | four bytes read big-endian are b0·2^24 + b1·2^16 + b2·2^8 + b3 |
| Otp.ToUint32 | main.go:171-174 | `toUint32` is the big-endian value of the first four bytes, below 2^32 |
| Otp.LowMasks | main.go:186-192 | on an octet, `& 0x0F` is the remainder by 16 and `& 0x7F` the remainder by 128 |
| Otp.LowNibble | main.go:186 | the low nibble is at most 15 |
| Otp.ClearTopBit | main.go:192 | the masked byte is below 128 |
| Otp.Offset | main.go:183-189 | the offset is the low nibble of byte 19, at most 15, so the 4-byte window ends inside the 20-byte digest |
| Otp.Masked | main.go:189-192 | the write through the window clears bit 7 of `hash[offset]` and leaves the other 19 bytes unchanged |
| Otp.ClearTopByteBit | main.go:191-194 | clearing the top bit of the first window byte takes the window's value modulo 2^31 |
| Otp.TruncatedNumber | main.go:186-194 | the masked window read big-endian is below 2^31 and is the unmasked window's value modulo 2^31 |
| Otp.Code | main.go:196-199 | the code is below 10^6: the window's value modulo 2^31, modulo 10^6 |
| Otp.OneTimePassword | main.go:176-202 | masking the digest buffer in place and truncating gives `Code` of the HMAC, below 10^6 |
| AppendixD.AppendixDCount0 | main.go:186-199 | count 0 of Appendix D truncates to 1284755224 and gives 755224 |
| AppendixD.AppendixDCount1 | main.go:186-199 | count 1 gives 1094287082 and 287082 |
| AppendixD.AppendixDCount2 | main.go:186-199 | count 2 gives 137359152 and 359152 |
| AppendixD.AppendixDCount3 | main.go:186-199 | count 3 gives 1726969429 and 969429 |
| AppendixD.AppendixDCount4 | main.go:186-199 | count 4 gives 1640338314 and 338314 |
| AppendixD.AppendixDCount5 | main.go:186-199 | count 5 gives 868254676 and 254676 |
| AppendixD.AppendixDCount6 | main.go:186-199 | count 6 gives 1918287922 and 287922 |
| AppendixD.AppendixDCount7 | main.go:186-199 | count 7 gives 82162583 and 162583 |
| AppendixD.AppendixDCount8 | main.go:186-199 | count 8 gives 673399871 and 399871 |
| AppendixD.AppendixDCount9 | main.go:186-199 | count 9 gives 645520489 and 520489 |
| TimeStep.GoDiv | main.go:119 | Go's `/` truncates toward zero: `b*q` lies within `b` of the dividend, at or below it when the dividend is non-negative and at or above it when it is negative |
| TimeStep.GoRem | main.go:99 | Go's `%`: quotient times divisor plus remainder is the dividend, and the remainder has the dividend's sign and is smaller than the divisor |
| TimeStep.Counter | main.go:119 | from the epoch on, `epochSeconds/30` is the step X that contains the time; an int64 time gives an int64 counter |
| TimeStep.SecondsRemaining | main.go:99 | `30 - epochSeconds%30` is at least 1; from the epoch on it is at most 30, and 30 exactly when the time is divisible by 30 |
| TimeStep.RemainingUntilNextStep | main.go:99 | the counter stays the same for fewer than the remaining seconds and moves to the next step when they run out |
| TimeStep.StepUnique | main.go:119 | a time in [30c, 30c + 30) has counter `c` |
| Base32.Symbol | main.go:111 | the character for a 5-bit value is its entry in the RFC 4648 alphabet |
| Base32.SymbolsAreAlphabet | main.go:111 | the range test `A`-`Z`, `2`-`7` is membership in the alphabet |
| Base32.SymbolValue | main.go:111 | a character has a value exactly when it is in the alphabet, and the value's symbol is that character |
| Base32.RemoveSpaces | main.go:109 | no space is left and every other character keeps its count |
| Base32.RemoveSpacesAppend | main.go:109 | removing spaces keeps the order of what remains |
| Base32.RemoveSpacesNone | main.go:109 | a string without spaces is unchanged |
| Base32.ToUpper | main.go:110 | same length, no lower-case ASCII letter left, `a`-`z` mapped to their capitals and every other character unchanged |
| Base32.Clean | main.go:109-110 | the cleaned secret has no space and no lower-case letter |
| Base32.CleanIdempotent | main.go:109-110 | cleaning twice is cleaning once |
| Base32.CleanIgnoresSpace | main.go:109-110 | a space anywhere in a stored secret does not change what is decoded |
| Base32.EncodedLengthValid | main.go:111 | every byte count has an encoded length the decoder accepts, which decodes to that many bytes |
| Base32.SymbolValues | main.go:111 | the values of all symbols, or the position of the first character outside the alphabet, with every earlier one inside it |
| Base32.DecodeGroup | main.go:111 | a group of 2, 4, 5, 7 or 8 symbols carries 1, 2, 3, 4 or 5 bytes |
| Base32.DecodeValues | main.go:111 | the decoded length is 5 bytes per whole group plus those of the final group |
| Base32.Decode | main.go:111 | decoding succeeds exactly when every character is in the alphabet and the length is one an RFC 4648 encoding can have (not 1, 3 or 6 modulo 8); the decoded length is 5 bytes per whole group plus those of the final group |
| Base32.EncodeGroup | main.go:111 | the encoder's groups have ceil(8k/5) symbols of 5 bits each |
| Base32.EncodeValues | main.go:111 | the encoding has 8 symbols per 5 bytes plus those of the final group |
| Base32.Symbols | main.go:111 | every value becomes its alphabet character |
| Base32.Encode | main.go:111 | an encoding has a length the decoder accepts and only alphabet characters |
| Base32.PaddedDigits | main.go:111 | padding bits added to a group's bytes are exactly the bits the decoder drops |
| Base32.GroupRoundTrip | main.go:111 | decoding an encoded group gives the group back |
| Base32.EncodeValuesLength | main.go:111 | the encoder produces only lengths the decoder accepts |
| Base32.DecodeValuesAppend | main.go:111 | a whole group of eight symbols in front decodes on its own |
| Base32.ShortValuesRoundTrip | main.go:111 | one to five bytes survive encoding and decoding |
| Base32.ValuesRoundTrip | main.go:111 | decoding the encoded values gives the bytes back |
| Base32.SymbolValuesOfSymbols | main.go:111 | reading the symbols of values gives the values back |
| Base32.DecodeEncode | main.go:111 | decoding an encoding gives the bytes back |
| Base32.CleanEncode | main.go:109-111 | an encoding is already clean, so a stored encoding of a key decodes to that key |
| Base32.IllegalSymbolFails | main.go:111-115 | a character outside the alphabet (a `1`, `8`, `0` or `=`) anywhere makes the decode fail with the first such position |
| Credentials.SecretRows | main.go:100-106 | the rows the listing decodes have at least two fields, none is a marker, and there are at most as many as rows |
| Credentials.SecretRowsAppend | main.go:100-106 | before any marker, the secret rows of a concatenation are those of its parts |
| Credentials.SecretRowsStopAtMarker | main.go:104-106 | a marker ends the secret rows: nothing after it is kept |
| Credentials.SecretRowsSkipShortRow | main.go:101-103 | a row with fewer than two fields is dropped and changes nothing else |
| Credentials.SecretRowsKeepAll | main.go:100-106 | when every row has two fields and none is a marker, every row is a secret row |
| Credentials.SecretKey | main.go:109-111 | the secret, without spaces and upper-cased, decodes exactly when it has a length the decoder accepts and only alphabet characters |
| Credentials.Listing | main.go:100-121 | on success, one entry per secret row, each with a six-digit code |
| Credentials.SecretEntries | main.go:107-120 | the secrets turn into entries exactly when every one decodes, one entry per secret |
| Credentials.ListingSkips | main.go:101-103 | a row with fewer than two fields is skipped |
| Credentials.ListingEndsAtMarker | main.go:104-106 | a `password` row ends the listing |
| Credentials.ListingFails | main.go:111-115 | a secret that does not decode ends the listing with its error |
| Credentials.ListingStep | main.go:107-120 | a secret that decodes contributes its label and the code of its key under the shared counter, before the rest |
| Credentials.ListingSucceedsIff | main.go:100-121 | the listing succeeds exactly when every secret row before the marker decodes |
| Credentials.ListingOfSecrets | main.go:100-121 | the listing of the file is that of its secret rows alone |
| Credentials.SecretEntryAt | main.go:117-120 | when every secret decodes, there is one entry per secret and entry `k` is made from secret `k` |
| Credentials.ListingEntries | main.go:100-121 | on success: one entry per secret row, in file order, named by its label, carrying the code of its key under the one counter |
| Credentials.FirstBadSecret | main.go:111-115 | the index of the first secret that does not decode is within the secrets |
| Credentials.FirstBadSecretIsFirst | main.go:111-115 | every secret before that index decodes and the one at it does not |
| Credentials.ListingFirstError | main.go:111-115 | on failure, the error is that of the first secret row that does not decode |
| Credentials.ListingStopsAtMarker | main.go:104-106 | no row after a marker changes the listing |
| Credentials.ListingAbortIgnoresRest | main.go:111-115 | once a prefix fails to decode, no later row changes the outcome |
| Credentials.ListingSkipsShortRow | main.go:101-103 | a short row anywhere contributes nothing and no error |
| Credentials.Matches | main.go:144-154 | a row that is printed has two fields and is not the marker |
| Credentials.PasswordLine | main.go:156 | the line is the label, `: `, the decrypted value and a newline |
| Credentials.Matching | main.go:152-154 | the matching rows are exactly those of the input that match, and no more of them |
| Credentials.Selection | main.go:142-155 | every selected row has two fields, is not a marker, and has the key as label or the key is `all` |
| Credentials.SelectionAppend | main.go:142-155 | selection runs through the file in order, the flag carried over set exactly when it was set or a marker was seen |
| Credentials.HasMarkerSnoc | main.go:145-148 | a marker is among `rows + [row]` exactly when it is among `rows` or is `row`: the flag never goes back |
| Credentials.SelectionSnoc | main.go:142-155 | one more row adds that row to the selection exactly when a marker came before it and it matches |
| Credentials.NothingBeforeMarker | main.go:150-152 | rows before the first marker are never selected |
| Credentials.SelectionAfterFirstMarker | main.go:145-155 | the marker row and every row before it are never selected: the selection is that of the rows after it |
| Credentials.SelectionWithFlag | main.go:150-155 | once the flag is set, every matching row is selected, in file order |
| Format.Decimal | main.go:123 | `%d` is a numeral denoting the number, without a leading zero |
| Format.ZerosValue | main.go:120 | a numeral of zeros denotes zero |
| Format.LeadingZeros | main.go:120 | leading zeros do not change what a numeral denotes |
| Format.ZeroPadded | main.go:120 | `%0<w>d` denotes the number and is the longer of `w` and its `%d` |
| Format.DecimalLength | main.go:120 | a number below 10^k has at most k digits |
| Format.SixDigits | main.go:120 | `%06d` of a code below 10^6 is exactly six digits |
| Format.JoinedSnoc | main.go:120 | appending an element appends its line |
| Format.JoinedAppend | main.go:120 | the text of a concatenation is the concatenation of the texts |
| Format.JoinedAt | main.go:120 | the line of element `k` stands between the lines of the elements before and after it, so lines keep file order |
| Format.JoinedConcat | view.go:171 | accumulating the lines in one string gives what printing them one by one gives |
| Listings.ListCodes | main.go:100-121 | the loop returns the lines of the listing, in order, or the listing's error as soon as a secret does not decode |
| Commands.CodeLine | main.go:120 | a line is the label, `: `, digits denoting the code, then ` \n` |
| Commands.CodeLineParts | main.go:120 | a line is the label, `: `, six digits denoting the code, then ` \n` |
| Commands.Trailer | main.go:123 | the trailer is `剩余有效期: `, digits denoting the seconds remaining, and `s` |
| Commands.TowFA | main.go:89-125 | an open failure is returned; a bad secret ends the run with its error and no output; otherwise the listing at counter `epochSeconds/30`, then the trailer once |
| Commands.Decrypt | main.go:133-159 | an open failure is returned with nothing printed; otherwise one line `label: decrypted\n` per selected row, in file order |
| View.ExpiringLine | view.go:142 | a line starts with the label and `: ` and ends with `秒后过期\n` |
| View.ExpiringLineParts | view.go:142 | a line is the label, `: `, six digits denoting the code, a space, digits denoting the remaining seconds, and `秒后过期\n` |
| View.SameCodeAsCommandLine | view.go:142 | a window line shows the same label and six-digit code as the command-line listing |
| View.Gen2FAText | view.go:109-145 | an open failure gives the empty text and the error; a bad secret ends the process; otherwise the listing at counter `epochSeconds/30`, each line with the same seconds remaining |
| View.GenPasswordText | view.go:147-174 | an open failure gives the empty text and the error; otherwise the selected rows in file order, one `label: decrypted\n` line each |

## Left out

- HMAC-SHA1 (main.go:178-180) is the parameter `hmac`. Its internals come from Go's crypto packages; the only fact the model uses is that it returns a 20-byte digest.
- The AES-ECB decryption under `AES_KEY` is the parameter `decrypt`. The source discards its error. `Encrypt` and the `main` command wiring are not part of this model.
- The GUI of view.go (windows, tabs, navigation) is not part of this model. Only `Gen2FAText` and `GenPasswordText` are.
- Reading the CSV file through `csvx` is the parameter `CsvFile`. It holds either the open error or the rows `ReadLine` returns before its first error. How lines are split into fields, and the deferred `Close`, are not modelled.
- The environment variables `FA_PATH` and `AES_KEY` are not modelled. Neither is `time.Now()`: the time is the parameter `epochSeconds`, within the int64 range.
- Printing is modelled as values. `TowFA`'s `Output` is the text of its two `Printf` calls. `Decrypt` returns the lines it prints. A decode error is the outcome `Exit`: the message written to stderr and the exit status 1 are not modelled.
- Base32.Decode: Go's decoder also skips `\r` and `\n` in its input, while the model rejects them as illegal symbols. The position carried by Go's error is modelled only as the index of the first illegal character or as a bad length.
- Base32.ValidLength: the rejection of a final group of 1, 3 or 6 characters follows section 6 of RFC 4648, where no whole number of bytes has such an encoding. Go's unpadded decoder may not check the length of the last group and may return the bytes decoded so far instead, so for those lengths the model's error is stricter than the library.
- Base32.ToUpper: only ASCII letters are mapped. Go's `strings.ToUpper` also maps other Unicode letters. Two of them, `ı` and `ſ`, become the alphabet letters `I` and `S`, so Go accepts secrets containing them while the model rejects those secrets.
- Otp.LowNibble and Otp.ClearTopBit compute the masks `& 0x0F` and `& 0x7F` as remainders. Otp.LowMasks proves that on an octet the bitwise form equals this.
- View.GenPasswordText: view.go:155 reads the key from a `c` that the file never declares. The key is a parameter.
- TimeStep.SecondsRemaining: the range [1, 30] is proved only for times at or after the epoch. For an earlier time, Go's truncating `%` makes `30 - epochSeconds%30` as large as 59. The model follows the code, so the upper bound is 59 there.
