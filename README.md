# OpenYXDB record engine, modelled in Dafny

This project models the record engine of OpenYXDB, the open reader and writer for
Alteryx `.yxdb` files. A schema (`RecordInfo`) is a list of typed fields laid out
one after the other in the fixed part of a record. Variable-length values (V_String,
V_WString, Blob, SpatialObj) live behind a 4-byte slot in a var-data region that
follows the fixed part. The model covers:

- how fields are added and named;
- how each field type reads and writes its bytes;
- how a record grows and is written to a byte stream and read back;
- how a `RecordCopier` plans and performs copies between two schemas;
- the string, number, XML, UTF-16 and message helpers these rest on.

A record is a byte sequence (`seq<byte>`); multi-byte integers are little-endian. The
maximum field and record length is `MaxFieldLength` = 0x7fffffff (the 64-bit build).
C strings are `seq<char>` without NUL; a read one past the end gives NUL. A UTF-16
unit is a `u16`.

One Dafny file per source file:

| Dafny file (module) | source |
|---|---|
| RecordInfo.dfy (`RecordInfos`), FieldNames.dfy (`FieldNames`) | src/RecordInfo.cpp, include/RecordLib/RecordInfo.h |
| VarData.dfy (`VarData`) | the var-data slot of src/RecordInfo.cpp |
| Record.dfy (`Records`) | src/Record.cpp |
| RecordCopier.dfy (`RecordCopiers`) | src/RecordCopier.cpp |
| FieldBase.dfy (`Fields`), FieldDispatch.dfy (`FieldDispatch`) | src/FieldBase.cpp and the virtual dispatch of the field classes |
| FieldBool.dfy, FieldNum.dfy, FieldString.dfy, FieldBlob.dfy, FieldFixedDecimal.dfy, FieldDateTime.dfy | the field classes of the same names |
| FieldSchema.dfy (`FieldSchemas`), FieldType.dfy (`FieldTypes`), FieldXml.dfy (`FieldXml`) | src/FieldSchema.cpp, src/FieldType.cpp, include/FieldType.h, the field XML of src/RecordInfo.cpp |
| DateTimeValidate.dfy | include/Base/DateTimeValidate.h |
| StringHelper.dfy | src/SRC_stringHelper_OpenAlteryx.cpp |
| MiniXml.dfy | src/MiniXmlParser.cpp |
| Utf16.dfy | src/UTF16Traits.cpp |
| SrcLib.dfy | include/SrcLib_Replacement.h |
| GlotKernel.dfy | src/GlotKernel.cpp |
| Stream.dfy (`ByteStreams`), Bytes.dfy, Wrappers.dfy | the byte stream that `Write`/`Read` use, byte-level helpers, `Option`/`Result` |

State that the source changes in place is modelled by classes whose methods have
`modifies` clauses:

- `RecordInfos.RecordInfo`, `Records.Record`, `RecordCopiers.RecordCopier`;
- the field objects (`FieldDispatch.FieldObj`, `FieldFixedDecimal.FixedDecimalField`);
- the error sink (`Fields.Reporter`), the `SrcLib.Tstr` string, `SrcLib.BlobDataRead`,
  `Utf16.CodePointIterator` and the byte stream.

Pure computations are modelled as functions with lemmas about them. A field getter is a
function from the field's bytes to a value plus the conversion messages it raises. The
caller hands those messages to the sink, which applies the rate limit. A thrown
exception is modelled as an error result (`Result.Err`, `Attempt.Threw`).

Where the source has a defect (see "## Findings"), the classes and the field dispatch
run the code as written, and the corrected version is modelled beside it with its
intended property proved. In particular `RecordInfo` names fields with the map insert
that keeps an existing entry: its invariant (`RecordInfos.SoundInfo`) is the layout, the
var-data flag and a map whose entries all lead to fields, not an exact map. The few
places that still run a corrected half are listed under "## Left out".

## Model

| member | source | states |
|---|---|---|
| DateTimeValidate.IsNDigitInt | include/Base/DateTimeValidate.h:7-22 | some value iff all n characters are '0'..'9', and the value is the decimal number they spell |
| DateTimeValidate.DigitFoldCorrect | include/Base/DateTimeValidate.h:10-21 | the digit loop fails exactly at the first non-digit and otherwise accumulates the decimal value |
| DateTimeValidate.ValidateDateMeaning | include/Base/DateTimeValidate.h:32-75 | a date is valid iff it is "dddd-dd-dd" with year >= 1400, month 1..12 and day from 1 to the month's length |
| DateTimeValidate.LeapDay | include/Base/DateTimeValidate.h:52-57 | February 29 of a year from 1400 is valid iff the year is a Gregorian leap year |
| DateTimeValidate.ValidateTimeMeaning | include/Base/DateTimeValidate.h:77-88 | a time is valid iff it is "dd:dd:dd" with hours <= 23, minutes <= 59, seconds <= 59 |
| DateTimeValidate.ValidateDateTimeMeaning | include/Base/DateTimeValidate.h:89-98 | length 10 is a date, length 19 a date, a space and a time; any other length is invalid |
| Utf16.WriteCodePoint | src/UTF16Traits.cpp:20-40 | writes one unit up to 0xFFFF and a surrogate pair above, returns the unit count and the advanced position, and leaves the rest of the buffer alone |
| Utf16.CombinePair | src/UTF16Traits.cpp:16-52 | a lead and a trail surrogate combine, through the 32-bit wrapping offset, to the supplementary code point they encode |
| Utf16.NumberInvertsEncode | src/UTF16Traits.cpp:20-59 | Number reads back every code point that WriteCodePoint wrote, whatever follows it |
| Utf16.NumberBroken | src/UTF16Traits.cpp:42-59 | a lone trail, or a lead without a trail (length 1, NUL or another unit), decodes to '?'; a sound pair decodes to a supplementary scalar |
| Utf16.NextNeverSkipsNul | src/UTF16Traits.cpp:67-78 | operator++ never steps over a NUL, even after a lead surrogate |
| Utf16.PrevUndoesNext | src/UTF16Traits.cpp:80-85 | operator-- brings the position back to the start of a well-formed code point that operator++ stepped over |
| Utf16.RetreatUndoesNext | src/UTF16Traits.cpp:102-116 | one step of operator-= over a stepped-over code point lands on its start |
| Utf16.CountPointsReachesNul | src/UTF16Traits.cpp:118-131 | counting by operator++ steps ends on the NUL and every earlier step is on a non-NUL unit |
| Utf16.LengthPointsSkipsNul | src/UTF16Traits.cpp:118-131 | as written, a lead surrogate right before the NUL makes LengthPoints step over the NUL: [D800,0,'a',0] counts 2 points, not 1 |
| Utf16.LengthPointsAgree | src/UTF16Traits.cpp:118-131 | where no lead surrogate stands right before the NUL, LengthPoints equals the operator++ count |
| Utf16.RepairInvertsEncode | src/UTF16Traits.cpp:165-182 | NumberAdvRepair reads back every written code point and advances by exactly its unit count |
| Utf16.RepairAgainstNumber | src/UTF16Traits.cpp:165-182 | NumberAdvRepair agrees with Number on sound input and returns U+FFFD exactly where Number returns '?' for a surrogate |
| Utf16.CodePointIterator.constructor | src/UTF16Traits.cpp:61-65 | the iterator starts on the given buffer and position |
| Utf16.CodePointIterator.Next | src/UTF16Traits.cpp:67-78 | operator++ moves two units past a lead surrogate followed by a non-NUL, else one |
| Utf16.CodePointIterator.Prev | src/UTF16Traits.cpp:80-85 | operator-- moves back to the closest earlier unit that is not a trail surrogate, or to 0 |
| Utf16.CodePointIterator.Advance | src/UTF16Traits.cpp:93-100 | operator+= n is n single steps |
| Utf16.CodePointIterator.Retreat | src/UTF16Traits.cpp:102-116 | operator-= n steps back over trail surrogates with their lead; fails (the source throws) exactly on a trail at position 0 |
| Utf16.CodePointIterator.LengthPoints | src/UTF16Traits.cpp:118-131 | the loop returns the as-written count, stepping 2 after every lead surrogate |
| Utf16.CodePointIterator.ValidNumber | src/UTF16Traits.cpp:133-158 | -1 for a trail, a broken pair or an invalid code point, else the code point Number decodes |
| Utf16.CodePointIterator.NumberAdvRepair | src/UTF16Traits.cpp:165-182 | returns the code point and advances 2 on a sound pair, else returns the unit or U+FFFD and advances 1 |
| Utf16.ValidNumberOfEncode | src/UTF16Traits.cpp:133-158 | ValidNumber gives back every valid code point written by WriteCodePoint |
| Utf16.PrevStart | src/UTF16Traits.cpp:80-85 | the position operator-- reaches: 0 from 0, else an earlier unit that is not a trail (or 0), with only trail surrogates skipped |
| StringHelper.SkipSpace | src/SRC_stringHelper_OpenAlteryx.cpp:44-45 | the first index not skipped; every character before it is white space (or U+00A0 in the narrow build) |
| StringHelper.SkipPrefix | src/SRC_stringHelper_OpenAlteryx.cpp:44-69 | white space, one sign, then "0x"/"0X" only for base 0 or 16 and "0" only for base 0 or 8; base 0 otherwise becomes 10 |
| StringHelper.ScanDigits | src/SRC_stringHelper_OpenAlteryx.cpp:75-97 | the digit loop accumulates the negated value and stops before the digit that would pass the width's limit, or at the first non-digit of the base |
| StringHelper.OverflowTest | src/SRC_stringHelper_OpenAlteryx.cpp:76-89 | the source's limit test on the negative accumulator, with truncating division, holds exactly when one more digit passes the limit |
| StringHelper.TstrtoNum | src/SRC_stringHelper_OpenAlteryx.cpp:34-110 | the pointer-walking parse returns the as-written result: value, endptr and ERANGE |
| StringHelper.AsWrittenAgrees | src/SRC_stringHelper_OpenAlteryx.cpp:89-107 | as written and as strtol would do it agree iff the digit loop does not overflow; on overflow the source gives MAX for negative input and -MAX for positive, with ERANGE |
| StringHelper.StrToNumInRange | src/SRC_stringHelper_OpenAlteryx.cpp:89-109 | the value is always within the width's range |
| StringHelper.EndPtrAdvances | src/SRC_stringHelper_OpenAlteryx.cpp:86-99 | in base 10 or 16, when a digit follows the prefix the end pointer is past the start |
| StringHelper.ScanRun | src/SRC_stringHelper_OpenAlteryx.cpp:86-97 | over a run of digits whose value stays within the limit the loop reads the whole run and stops after it |
| StringHelper.DecimalMeaning | src/SRC_stringHelper_OpenAlteryx.cpp:34-110 | an optional minus and decimal digits that fit parse to their signed value, with endptr at the end |
| StringHelper.MinParsesExactly | src/SRC_stringHelper_OpenAlteryx.cpp:95-96 | "-" followed by the digits of the minimum parses to the minimum exactly, without ERANGE |
| StringHelper.BadBase | src/SRC_stringHelper_OpenAlteryx.cpp:70-74 | a base outside 2..36 sets ERANGE, returns 0 and leaves endptr untouched |
| StringHelper.OverflowAsWritten | src/SRC_stringHelper_OpenAlteryx.cpp:89-107 | "99999999999" parses as -MAX and "-99999999999" as +MAX as written, where strtol gives MAX and MIN |
| StringHelper.OverflowSaturates | src/SRC_stringHelper_OpenAlteryx.cpp:89-94 | the corrected parse saturates an overflow to MIN or MAX by the sign, with ERANGE |
| StringHelper.DigitsValue | src/SRC_stringHelper_OpenAlteryx.cpp:132-147 | the digits utowcs produces are digits of the radix and read back as the value |
| StringHelper.DecimalDigits | src/SRC_stringHelper_OpenAlteryx.cpp:132-147 | in radix 10 the digits are '0'..'9' and read back as the value |
| StringHelper.ReverseRange | src/SRC_stringHelper_OpenAlteryx.cpp:147 | the in-place std::reverse reverses buf[lo..hi] and leaves the rest alone |
| StringHelper.PutDigits | src/SRC_stringHelper_OpenAlteryx.cpp:118-144 | puts the digits least significant first and fails exactly when the next one would reach the reserved last place |
| StringHelper.Utowcs | src/SRC_stringHelper_OpenAlteryx.cpp:125-149 | EINVAL for a bad radix or too small a buffer; otherwise the lowercase digits most significant first and a NUL, nothing outside the buffer touched |
| StringHelper.Itowcs | src/SRC_stringHelper_OpenAlteryx.cpp:157-173 | writes '-' only for a negative value in radix 10, then the digits of the magnitude or of the unsigned image |
| StringHelper.PutSigned | src/SRC_stringHelper_OpenAlteryx.cpp:163-171 | for a negative value: a '-' and then the digits of the magnitude and a NUL when they fit in the one place fewer, EINVAL otherwise, nothing outside the buffer touched |
| StringHelper.Unsigned | src/SRC_stringHelper_OpenAlteryx.cpp:162 | the two's-complement image is below 2^width and equals the value when non-negative |
| StringHelper.DecimalRoundTrip | src/SRC_stringHelper_OpenAlteryx.cpp:181-229 | sh_strtoi(sh_itostr(n)) == n, consuming the whole text without ERANGE, as written and as corrected |
| StringHelper.IntTextShort | src/SRC_stringHelper_OpenAlteryx.cpp:221-238 | the decimal text of a 32- or 64-bit value has at most 21 characters and no NUL |
| StringHelper.DecimalHasNumber | src/SRC_stringHelper_OpenAlteryx.cpp:157-173 | a digit follows the optional sign of the decimal text |
| StringHelper.DecimalAscii | src/SRC_stringHelper_OpenAlteryx.cpp:157-173 | decimal text is digits with at most a leading '-' |
| StringHelper.DecimalSameWidth | src/SRC_stringHelper_OpenAlteryx.cpp:221-238 | a 32-bit value has the same decimal text in the 32- and 64-bit formatters |
| SrcLib.CLen | include/SrcLib_Replacement.h:309-315 | the C-string length: no NUL before it, and a NUL at it when it is inside the buffer |
| SrcLib.Strlen | include/SrcLib_Replacement.h:309-315 | the loop walks to the first NUL and returns its index |
| SrcLib.Strchr | include/SrcLib_Replacement.h:317-325 | the first position of c before the NUL, or none when c does not occur there (a NUL is never found) |
| SrcLib.Strstr | include/SrcLib_Replacement.h:327-350 | the first position where the needle occurs; an empty needle matches at 0; none when it occurs nowhere |
| SrcLib.Strncmp | include/SrcLib_Replacement.h:352-365 | 0 exactly when the first n places agree up to a NUL, else the unit difference at the first mismatch |
| SrcLib.TrimMeaning | include/SrcLib_Replacement.h:259-284 | Trim keeps exactly the middle of a NUL-free string: leading and trailing white space dropped, nothing else |
| SrcLib.TrimIdempotent | include/SrcLib_Replacement.h:280-284 | trimming twice is trimming once |
| SrcLib.Find | include/SrcLib_Replacement.h:155 | std::string::find gives the first occurrence from the start position, or none when there is none |
| SrcLib.FindThenReplace | include/SrcLib_Replacement.h:149-162 | left-to-right replacement keeps the text up to the first match, replaces it, and resumes after it; with no match the rest is kept |
| SrcLib.NoMatchUnchanged | include/SrcLib_Replacement.h:149-162 | replacing a target that does not occur leaves the string unchanged |
| SrcLib.SpinAsWritten | include/SrcLib_Replacement.h:155-159 | as written, replacing "a" by "ba" in b..ba never terminates: the loop resumes inside the inserted text |
| SrcLib.ReplaceAsWrittenDefects | include/SrcLib_Replacement.h:149-162 | as written: "a"->"ba" never ends, an empty target never ends, and "aaaa" with "aa"->"" gives "aa" where non-overlapping replacement gives "" |
| SrcLib.EmptyTargetSpins | include/SrcLib_Replacement.h:155-159 | an empty target matches forever at the same position |
| SrcLib.AsWrittenAgrees | include/SrcLib_Replacement.h:149-162 | for a one-character target and a replacement that does not repeat it after its first character, the source's loop gives the non-overlapping replacement |
| SrcLib.ReplaceRound | include/SrcLib_Replacement.h:155-159 | one round of the corrected loop: the text up to the resume point is final |
| SrcLib.Tstr.constructor | include/SrcLib_Replacement.h:61-99 | a Tstr built from a TChar pointer holds the C string there |
| SrcLib.Tstr.Truncate | include/SrcLib_Replacement.h:229-233 | shortens to n only when n is below the length |
| SrcLib.Tstr.AppendN | include/SrcLib_Replacement.h:245-248 | appends the first nLen characters |
| SrcLib.Tstr.Append | include/SrcLib_Replacement.h:250-257 | appends the C string, up to its NUL |
| SrcLib.Tstr.TrimLeft | include/SrcLib_Replacement.h:259-264 | drops the white space at the END (the source's naming) and nothing else |
| SrcLib.Tstr.TrimRight | include/SrcLib_Replacement.h:266-278 | drops the white space at the START and re-reads the rest as a C string |
| SrcLib.Tstr.Trim | include/SrcLib_Replacement.h:280-284 | TrimRight then TrimLeft |
| SrcLib.Tstr.ReplaceString | include/SrcLib_Replacement.h:149-162 | the source's loop: the result of the as-written replacement, none where it does not terminate within the fuel |
| SrcLib.Tstr.ReplaceStringResuming | include/SrcLib_Replacement.h:149-162 | the corrected loop, resuming after the inserted text: non-overlapping left-to-right replacement; an empty target changes nothing |
| SrcLib.Tstr.AssignInt | include/SrcLib_Replacement.h:164-188 | Assign(int) holds the decimal text of the value |
| SrcLib.MsgNoXL | include/SrcLib_Replacement.h:922-954 | the result is the key, up to its NUL, expanded: @1..@4 by their argument, "<Missing Argument Text n>" for an absent one or @5..@9, "@@" as "@" |
| SrcLib.MsgPiece | include/SrcLib_Replacement.h:928-951 | one round of the loop appends the expansion of the key at the current position and advances past what it read |
| SrcLib.ExpandPlain | include/SrcLib_Replacement.h:928-933 | a key without '@' is its own expansion |
| SrcLib.ExpandQuoted | include/SrcLib_Replacement.h:946-951 | doubling every '@' in a text is undone by the expansion |
| SrcLib.ExpandArg | include/SrcLib_Replacement.h:934-945 | "@d" expands to argument d when d <= 4 and it is present, else to the placeholder naming d |
| SrcLib.WStrlen | include/SrcLib_Replacement.h:495 | TStrLen over UTF-16 units returns the index of the first NUL |
| SrcLib.NarrowString | include/SrcLib_Replacement.h:490-516 | a null or empty source leaves dest unchanged; otherwise dest is the first len units (all of them when len < 0), units >= 256 as '?' |
| SrcLib.WideString | include/SrcLib_Replacement.h:537-551 | a null or empty source gives an empty string; otherwise the first len characters widened as Latin-1 |
| SrcLib.LatinRoundTrip | include/SrcLib_Replacement.h:490-551 | Latin-1 text survives widening then narrowing unchanged |
| SrcLib.NarrowLossless | include/SrcLib_Replacement.h:500-509 | narrowing loses nothing exactly when every unit is below 256; any other unit comes back as '?' |
| SrcLib.LexDiffZero | include/SrcLib_Replacement.h:599-603 | the unit difference at the first mismatch is 0 exactly on equal strings |
| SrcLib.LexDiffAntisymmetric | include/SrcLib_Replacement.h:599-603 | swapping the operands negates the difference |
| SrcLib.PrefixComparesEqual | include/SrcLib_Replacement.h:582-614 | as written, "ab" compares equal to "a" because the loop stops when either string ends |
| SrcLib.AsWrittenAgainstCompact | include/SrcLib_Replacement.h:582-614 | a non-zero as-written result is the difference of the whitespace-compacted strings; a zero result means one compacted string is a prefix of the other |
| SrcLib.CompareCompact | include/SrcLib_Replacement.h:582-614 | the source's pointer loop: skips spaces outside double quotes and returns the as-written result |
| SrcLib.CompareCompactToEnd | include/SrcLib_Replacement.h:582-614 | the corrected loop, run to both ends: the strcmp of the two strings with spaces outside quotes removed |
| SrcLib.SkipSpaces | include/SrcLib_Replacement.h:593-596 | the inner loop skips exactly the leading white space and does not change the compacted string |
| SrcLib.BlobDataRead.constructor | include/SrcLib_Replacement.h:679-683 | a new reader is at the start of the blob |
| SrcLib.BlobDataRead.IsEof | include/SrcLib_Replacement.h:685-688 | end of blob iff nothing is left to read |
| SrcLib.BlobDataRead.Read | include/SrcLib_Replacement.h:690-699 | reading past the end throws and moves nothing; otherwise it returns the next n bytes and advances by n |
| SrcLib.BlobDataRead.Get | include/SrcLib_Replacement.h:701-709 | like Read, returning the position of the n bytes |
| MiniXml.ReplaceOneChar | src/MiniXmlParser.cpp:28-45 | each ReplaceString pass of EscapeAttributeOld, with a one-character target, replaces every occurrence of that character and nothing else |
| MiniXml.ChainChar | src/MiniXmlParser.cpp:28-45 | running the five passes over one character yields exactly that character's entity ('&' first, so no entity produced by a later pass is escaped again) |
| MiniXml.EscapeMeaning | src/MiniXmlParser.cpp:57-63 | TEscapeAttribute replaces each of & " > < ' by its entity and keeps every other character, and leaves the empty string empty |
| MiniXml.KeyNCmpZero | src/MiniXmlParser.cpp:47-55 | keyncmp with the key's own length returns 0 exactly when the C string starts with the key (both directions) |
| MiniXml.UnescPlain | src/MiniXmlParser.cpp:165-178 | text with no '&' and no CDATA opener unescapes to itself (the fast path) |
| MiniXml.UnescapeEscaped | src/MiniXmlParser.cpp:205-247 | decoding the entity form of any text gives the text back |
| MiniXml.UnescapeEscape | src/MiniXmlParser.cpp:159-257 | round trip: TUnescapeAttribute(TEscapeAttribute(s)) == s for every s, with or without CDATA handling |
| MiniXml.CdataVerbatim | src/MiniXmlParser.cpp:184-204 | a closed CDATA section contributes its body verbatim and decoding resumes after "]]>"; an opener with no closer is the "unclosed CDATA" error |
| MiniXml.CdataTest | src/MiniXmlParser.cpp:184-186 | the source's test (CDATA enabled, '<', keyncmp with "![CDATA[" is 0) holds exactly when a CDATA opener starts here |
| MiniXml.KeyedEntityIsEntity | src/MiniXmlParser.cpp:205-247 | the chain of keyncmp tests for amp/quot/gt/lt/apos/#x/# recognises the same entity and length as the reference decoder |
| MiniXml.KeepPlainPrefix | src/MiniXmlParser.cpp:165-178 | the plain prefix before the first '&' or CDATA opener is copied unchanged and decoding continues from there |
| MiniXml.UnescapeStep | src/MiniXmlParser.cpp:180-250 | one loop iteration either fails with the unclosed-CDATA error or emits a piece and a strictly shorter rest whose decoding completes the whole decoding |
| MiniXml.CopyCdata | src/MiniXmlParser.cpp:184-204 | the CDATA copy loop finds the first "]]>" exactly when one exists, returns the body before it and the text after it, and otherwise yields the error |
| MiniXml.UnescapeAttribute | src/MiniXmlParser.cpp:159-257 | the method's result equals the reference decoder Unesc on every NUL-free input, including the error for an unclosed CDATA |
| MiniXml.ScanForTagEnd | src/MiniXmlParser.cpp:547-572 | stops at the first '>' outside quotes or at the NUL, and no earlier position is such a '>' |
| MiniXml.BoolAttribute | src/MiniXmlParser.cpp:410-420 | a missing (empty) attribute gives the default; otherwise true exactly when it starts with 'T' or 't' |
| GlotKernel.FillAt | src/GlotKernel.cpp:95-100 | position p of the buffer after copying t at offset at holds t's character inside the copied window and the old character everywhere else; the buffer's length never changes |
| GlotKernel.FillConcat | src/GlotKernel.cpp:95-100 | two consecutive appends write the same buffer as one append of the concatenation, which is what advancing len by the whole text achieves |
| GlotKernel.FillFromStart | src/GlotKernel.cpp:87-93 | copying from the start keeps the first min(N, cap) characters of the text followed by the untouched rest of the buffer |
| GlotKernel.NulOnlyIfRoom | src/GlotKernel.cpp:328-329 | the terminating NUL is written only when the text is shorter than the capacity; otherwise the buffer holds the truncated text with no NUL |
| GlotKernel.AppendCount | src/GlotKernel.cpp:97-98 | the clamped count never exceeds the text length, never writes past the capacity, and is min(nFill, cap - len) while len is inside the buffer |
| GlotKernel.AppendCountAgrees | src/GlotKernel.cpp:97-98 | the source's min(nFill, cap - len) equals the clamped count while len <= cap, and is negative exactly when len has passed cap |
| GlotKernel.AppendBufOverrun | src/GlotKernel.cpp:280-315 | on capacity 1 with "ab@1" and argument "x" the first append leaves len at 2 and the next asks memcpy for -1 characters |
| GlotKernel.AppendBuf | src/GlotKernel.cpp:95-100 | as written: len advances by the whole text; the overrun is flagged exactly when min(nFill, cap - len) is negative, and otherwise the buffer is the old one with the text copied in at len |
| GlotKernel.AppendBufClamped | src/GlotKernel.cpp:95-100 | what fits of the text is copied at len, nothing outside the window changes, and len advances by the whole text length |
| GlotKernel.CopyTextToBuffer | src/GlotKernel.cpp:87-93 | returns N, the length it wanted to copy, and leaves min(cap, N) characters of the text plus a NUL when there is room |
| GlotKernel.MainNoAt | src/GlotKernel.cpp:280-315 | a key with no '@' expands to itself |
| GlotKernel.UsedAreGiven | src/GlotKernel.cpp:298-302 | an argument is marked used only when its index is below nArgs and it is non-null |
| GlotKernel.NoNotesWhenAllUsed | src/GlotKernel.cpp:316-327 | no "Internal error" note is appended when every argument is used, null or empty |
| GlotKernel.UnusedArgReported | src/GlotKernel.cpp:316-327 | each unused non-empty argument contributes its whole note |
| GlotKernel.MainDoubleAt | src/GlotKernel.cpp:285-291 | "@@" expands to a single '@' and marks no argument |
| GlotKernel.MainArg | src/GlotKernel.cpp:292-312 | "@d" expands to argument d when given, else to "<Missing Arg Text @d>", and marks exactly that argument as used |
| GlotKernel.MainPlain | src/GlotKernel.cpp:280-314 | any other character is copied as it is |
| GlotKernel.Interp | src/GlotKernel.cpp:270-331 | returns the full length of the expansion plus the unused-argument notes, and the buffer holds what fits of that text followed by a NUL when there is room |
| FieldTypes.GetFieldTypeFromName | src/FieldType.cpp:25-34 | a null or empty name gives Unknown |
| FieldTypes.NameRoundTrip | src/FieldType.cpp:12-80 | reading back the name GetNameFromFieldType gives for any type yields that type (the two tables agree) |
| FieldTypes.CaseInsensitive | src/FieldType.cpp:30-77 | the lookup only looks at characters 0, 1, 2, 3 and 4 and ignores their case |
| FieldTypes.UnknownFirstLetter | src/FieldType.cpp:30-79 | a name whose first letter starts no type name gives Unknown |
| FieldTypes.TypeClasses | include/FieldType.h:44-141 | the classification predicates relate as the header defines them: numeric is integer, float or FixedDecimal; string is narrow or wide; variable-length strings are strings; binary and not-binary are complements |
| FieldSchemas.NarrowToInt16 | src/FieldSchema.cpp:19 | static_cast<int16_t> of the scale: congruent to the argument modulo 2^16, and the argument itself when it fits |
| FieldSchemas.ToUint | src/FieldSchema.cpp:103-118 | an int passed as the unsigned size: congruent modulo 2^32, unchanged when non-negative and in range |
| FieldSchemas.NameKey | src/FieldSchema.cpp:125 | the case-insensitive field-name key has the name's length and upper-cases each character |
| FieldSchemas.NewSchema | src/FieldSchema.cpp:6-21 | a new schema is outside any RecordInfo (position -1), keeps name, type, size, source and description, and stores the scale narrowed to int16 |
| FieldSchemas.DeriveKeeps | src/FieldSchema.cpp:28-74 | every derived-schema constructor resets the position, takes the new name, keeps the description, and keeps each of type, size, scale and source it is not given |
| FieldSchemas.CopyKeeps | src/FieldSchema.cpp:76-85 | the copy constructor keeps everything but the position, which it resets, so the copy compares equal to the original |
| FieldSchemas.CompareImpliesEqualType | src/FieldSchema.cpp:123-187 | schemas that compare equal have equal types |
| FieldSchemas.EqualTypeIsCompareRenamed | src/FieldSchema.cpp:123-187 | EqualType holds exactly when the first schema, renamed to the second's name, compares equal to it |
| FieldSchemas.CompareEquivalence | src/FieldSchema.cpp:123-182 | Compare (and ==) is reflexive, symmetric and transitive, and ignores position, source and description |
| FieldSchemas.WithScopedSource | src/FieldSchema.cpp:133-137 | SetSource(scope, value) changes only the source, and the source's scope reads back as the given scope |
| FieldSchemas.ScopeBeforeColon | src/FieldSchema.cpp:133-137 | the text before the first ':' of scope + ":" + value is the scope, given the scope has no ':' |
| FieldSchemas.AfterPoint | src/FieldSchema.cpp:112-114 | the text after the size's first '.' exists exactly when the size contains a '.' |
| FieldSchemas.FromXML | src/FieldSchema.cpp:91-121 | succeeds exactly when type is present and known, name is present, a string type has a positive size, and a FixedDecimal has a readable scale; on success the schema has position -1, the prefixed name, the size as sh_strtoi reads it (an overflow turning a positive size into -MAX), the attribute source and description, and a scale only for FixedDecimal |
| FieldXml.WrittenSize | src/RecordInfo.cpp:122-125 | the size written never exceeds the given size, and a V_WString size over MaxFieldLength/2 is capped to MaxFieldLength/2 |
| FieldXml.ToInt32 | src/RecordInfo.cpp:143-147 | static_cast<int> of the size lies in the int range and is the size itself when the size fits |
| FieldXml.KeyOrderSorted | src/RecordInfo.cpp:101 | the keys description, name, scale, size, source and type are in strictly increasing alphabetical order |
| FieldXml.OptSorted | src/RecordInfo.cpp:101-157 | prepending an optional attribute whose key comes earlier in the fixed order keeps the keys sorted |
| FieldXml.AttributesSorted | src/RecordInfo.cpp:101-157 | the attributes CreateFieldXml writes are in alphabetical order of key, which the comparison of parsed and rebuilt XML relies on |
| FieldXml.AttributeMap | src/RecordInfo.cpp:103-157 | the tag carries description only when non-empty, always name, scale only for FixedDecimal, size only for sized types, source only when non-empty, and always type |
| FieldXml.EmptyIsZero | src/RecordInfo.cpp:138 | a missing size attribute reads back as size 0, which is what the sizeless types get |
| FieldXml.DecimalBack | src/RecordInfo.cpp:119-147 | the decimal text written for an int has no '.' and converts back to the int |
| FieldXml.SizeBack | src/RecordInfo.cpp:122-148 | the size text converts back to the written size (0 for sizeless types), positive for string types, with no '.' to be taken for a scale |
| FieldXml.ScaleBack | src/RecordInfo.cpp:116-120 | a FixedDecimal's scale attribute reads back as the scale |
| FieldXml.FieldXmlRoundTrip | src/RecordInfo.cpp:86-163 | reading back the attributes CreateFieldXml writes gives the schema again: name, type, source and description as given, size 0 for sizeless types and the capped size otherwise, and the scale for FixedDecimal only |
| Fields.CharWidth | include/RecordLib/FieldString.h:409-412 | a character takes two bytes exactly in the wide string types, one otherwise |
| Fields.GetMaxBytes | src/FieldBase.cpp:69-72 | the base class's maximum is the size; a string class's is the size times its character width |
| Fields.RawSize | include/RecordLib/FieldString.h:372-380 | the raw size is at least 1, and agrees with the constructors' 32-bit computation except where a fixed string's size times its width plus 1 reaches 2^32 |
| Fields.RawSizeWraps | include/RecordLib/FieldString.h:372-380 | as written, a String of 0xffffffff characters gets raw size 0 and a WString of 2^31 characters raw size 1 |
| Fields.ContentOf | src/Record.cpp:116-122 | a fixed field's contents are its rawSize bytes at its offset; a var field's are the value its slot points to |
| Fields.Apply | src/Record.cpp:116-122 | a fixed field's bytes are written after GetRecord brings the var-data length word up to date, and always succeed; a var field's value goes through SetVarDataValue and fails with the record unchanged exactly when the record would exceed MaxFieldLength; on success the field reads back what was written, and every other byte of the record's used part stays, except the var-data length word GetRecord brings up to date |
| Fields.EffectiveLimit | include/AyxData/dc/sdk/GenericEngineBase.h:51-56 | an engine limit of 0 means the largest unsigned; any other limit is kept |
| Fields.Errors | src/FieldBase.cpp:54-55 | each message reaches the engine as one conversion error naming the field |
| Fields.SilentWhenDetached | src/FieldBase.cpp:46-52 | a field without an engine reports nothing and counts nothing |
| Fields.PassedBelowLimit | src/FieldBase.cpp:46-67 | below the limit every error is passed on, in order, and counted |
| Fields.StopsAtLimit | src/FieldBase.cpp:57-65 | the error that reaches the limit is passed on, followed by one "Limit Reached" notice; the engine is then dropped and nothing more is sent |
| Fields.StepCounts | src/FieldBase.cpp:46-67 | one report below the limit passes the error on and counts it, with the notice and the detach when the count reaches the limit |
| Fields.RateLimit | src/FieldBase.cpp:46-67 | reporting a sequence of errors sends them all while under the limit, and otherwise exactly the first limit - count of them, then the notice |
| Fields.NeverPastLimit | src/FieldBase.cpp:46-67 | the engine receives at most limit - count errors plus one notice, and the field stops reporting exactly when that many errors arrived |
| Fields.Reporter.constructor | src/FieldBase.cpp:8-22 | a new field has no engine and a zero error count |
| Fields.Reporter.Attach | src/RecordInfo.cpp:46 | handing a field an engine attaches it with the engine's effective limit; the count and what was sent are kept |
| Fields.Reporter.IsReporting | src/FieldBase.cpp:249-252 | a field is reporting exactly while it holds an engine |
| Fields.Reporter.Report | src/FieldBase.cpp:46-67 | the new reporting state is one Step of the old one: sent, counted modulo 2^32, and detached at the limit |
| Fields.Reporter.ReportAll | src/FieldBase.cpp:46-67 | reporting messages one after another leaves the state Sent computes, so RateLimit applies to it |
| FieldBool.GetVal | src/FieldBool.cpp:6-15 | the byte's bit 1 is the null flag; a null reads as false, any other byte as its bit 0 |
| FieldBool.SetVal | src/FieldBool.cpp:54-58 | setting writes 1 for true and 0 for false, which clears the null flag |
| FieldBool.RoundTrip | src/FieldBool.cpp:6-98 | a value set reads back as that value, not null; the null byte 2 reads as null false |
| FieldBool.TestChar | src/FieldBool.cpp:100-103 | a character reads as true exactly when it is a digit 1 to 9 or t or T |
| FieldBool.NarrowTestChar | src/FieldBool.cpp:80-83 | a narrow string's first byte, widened as a signed char, is true exactly for 1-9, t and T |
| FieldBool.GetAsInt32 | src/FieldBool.cpp:22-26 | the integer is 1 for true and 0 for false, with the same null flag |
| FieldBool.GetAsAString | src/FieldBool.cpp:28-39 | a value reads as "True" or "False"; a null as the empty string, flagged null |
| FieldBool.GetAsWString | src/FieldBool.cpp:41-52 | the wide text is the narrow text widened, with the same null flag |
| FieldBool.SetFromInt | src/FieldBool.cpp:65-73 | any non-zero integer sets true, zero sets false, never null |
| FieldBool.SetFromAString | src/FieldBool.cpp:80-83 | a narrow string sets TestChar of its first character (the NUL of an empty string gives false) |
| FieldBool.SetFromWString | src/FieldBool.cpp:85-88 | a wide string sets TestChar of its first unit |
| FieldBool.ConversionsRoundTrip | src/FieldBool.cpp:22-88 | a non-null value survives a trip through its narrow text, its wide text and its integer |
| FieldBlob.TypeOf | src/FieldBlob.cpp:162-173 | a Blob field is a Blob or a SpatialObj, lives in var data and is not string storage |
| FieldBlob.GetAsBlob | src/FieldBlob.cpp:117-122 | the value is null exactly when the slot is null, otherwise the slot's bytes |
| FieldBlob.GetAsAString | src/FieldBlob.cpp:22-55 | a null reads as "[Null]" flagged null; a SpatialObj as "SpatialObject" |
| FieldBlob.GetAsWString | src/FieldBlob.cpp:57-90 | the wide text is the narrow text widened, with the same null flag |
| FieldBlob.SizeTextReadsBack | src/FieldBlob.cpp:44-48 | a Blob's text is its byte count in decimal, which parses back to the count, followed by " Bytes" |
| FieldBlob.GetAsSpatialBlob | src/FieldBlob.cpp:124-140 | a null reads as null; any other value fails the shape check, which accepts nothing in this build |
| FieldBlob.SetFromBlob | src/FieldBlob.cpp:142-150 | the slot takes the bytes as given without any message, and they read back unchanged |
| FieldBlob.SetNull | src/FieldBlob.cpp:157-160 | setting null leaves a slot that reads as null |
| FieldBlob.BlobRoundTrip | src/FieldBlob.cpp:117-145 | writing back what GetAsBlob read gives the same contents and no message |
| FieldBlob.NullRead | src/FieldBlob.cpp:22-160 | after SetNull every getter sees null: no bytes, "[Null]", and a null spatial blob |
| FieldNum.TypeOf | include/RecordLib/FieldNum.h:324-327 | each numeric class has a numeric layout type: Byte, Int16, Int32, Int64 |
| FieldNum.Size | include/RecordLib/FieldNum.h:138-149 | the value takes sizeof(T_Num) bytes, 1, 2, 4 or 8, before its null flag |
| FieldNum.RangeWithinWidth | include/RecordLib/FieldNum.h:324-327 | a value of the class's C type fits the width the parser uses, and every class but Int64 fits an int |
| FieldNum.WideKinds | include/RecordLib/FieldNum.h:326-327 | every int fits Int32 and Int64, every int64 fits Int64 |
| FieldNum.Encode | include/RecordLib/FieldNum.h:80-86 | the value's bytes have the type's size |
| FieldNum.Decode | include/RecordLib/FieldNum.h:72-78 | any bytes of the type's size read as a value in the type's range |
| FieldNum.DecodeEncode | include/RecordLib/FieldNum.h:72-86 | a stored value reads back as itself (little-endian, two's complement, Byte unsigned) |
| FieldNum.EncodeDecode | include/RecordLib/FieldNum.h:72-86 | any stored bytes are re-encoded exactly from the value they read as |
| FieldNum.GetVal | include/RecordLib/FieldNum.h:72-78 | a non-zero flag byte after the value means null, read as 0; otherwise the value bytes decode to the value |
| FieldNum.SetVal | include/RecordLib/FieldNum.h:80-86 | setting writes the value's bytes and a zero flag, and reads back as the value, not null |
| FieldNum.NullBytes | include/RecordLib/FieldNum.h:313-319 | SetNull zeroes the value bytes and sets the flag to 1, which reads as null |
| FieldNum.StoredBytes | include/RecordLib/FieldNum.h:72-86 | writing back the value of any non-null field gives the same bytes |
| FieldNum.Cast | include/RecordLib/FieldNum.h:285-287 | static_cast to the class's type lands in its range, congruent modulo 2^(8*size), and changes nothing that already fits |
| FieldNum.ThreeHundredInAByte | include/RecordLib/FieldNum.h:287 | 300 cast to an unsigned char is 44 |
| FieldNum.ValueWithinWidth | include/RecordLib/FieldNum.h:72-78 | whatever a field holds fits its parser's width, an int64, and an int for every class but Int64 |
| FieldNum.GetAsBool | include/RecordLib/FieldNum.h:156-164 | null stays null; otherwise true exactly when the value is non-zero |
| FieldNum.GetAsInt32 | include/RecordLib/FieldNum.h:166-181 | a value that fits an int is returned as it is; an Int64 outside it reports "does not fit in the type Int32" and reads as null 0 |
| FieldNum.GetAsInt64 | include/RecordLib/FieldNum.h:183-197 | every integer value is returned as it is, within the int64 range |
| FieldNum.GetAsAString | include/RecordLib/FieldNum.h:207-216 | a value reads as its decimal text; a null as the empty string, flagged null |
| FieldNum.GetAsWString | include/RecordLib/FieldNum.h:218-227 | the wide text is the narrow text widened, with the same null flag |
| FieldNum.SetFromInt32 | include/RecordLib/FieldNum.h:229-243 | an int outside a narrower type reports "does not fit in the type" and stores null; any other int is stored as it is, without a message |
| FieldNum.SetFromInt64 | include/RecordLib/FieldNum.h:245-260 | an int64 outside the type reports that it does not fit and stores null; any other is stored as it is |
| FieldNum.NumberRoundTrip | include/RecordLib/FieldNum.h:166-260 | writing back what GetAsInt64 (and, below Int64, GetAsInt32) read gives the same bytes and no message |
| FieldNum.CheckStringConvError | include/RecordLib/FieldNum.h:101-133 | the overflow report comes first; then nothing more when the parse used the whole text or the text is empty, "is not a number" when it stopped at the start, "stopped converting at a comma" when it stopped at a comma, and "was not fully converted" when it stopped anywhere else |
| FieldNum.SetFromStringAsWritten | include/RecordLib/FieldNum.h:278-306 | as written: null exactly for an empty text, ERANGE, or a parse whose end pointer did not move; otherwise the parsed value cast to the type; the messages are the overflow report, then the comma or not-fully-converted report when the end pointer stopped inside the text |
| FieldNum.SetFromString | include/RecordLib/FieldNum.h:101-135 | corrected: null exactly for an empty text, ERANGE or text without digits, which also reports "is not a number"; otherwise the parsed value cast to the type; the overflow report comes first, and a parse that stops inside the text adds the comma or not-fully-converted report |
| FieldNum.CorrectionOnlyWithoutDigits | include/RecordLib/FieldNum.h:278-306 | the corrected setter differs from the written one only on text with no digit after the blanks and sign |
| FieldNum.NoDigitsAsWritten | include/RecordLib/FieldNum.h:115-122 | as written, " " and "-" store 0 with no message, where the corrected setter stores null and reports "is not a number" |
| FieldNum.TextRoundTrip | include/RecordLib/FieldNum.h:207-306 | the decimal text of any value, narrow or wide, sets that value back with no message, under both setters |
| FieldNum.TextNarrowedSilently | include/RecordLib/FieldNum.h:229-243 | a text outside a Byte or Int16 is cast silently, while the same number through SetFromInt32 is refused with a message |
| FieldString.TypeOf | include/RecordLib/FieldString.h:712-720 | the four string classes: width 2 exactly for WString and V_WString, var data exactly for V_String and V_WString |
| FieldString.EncodeUnits | include/RecordLib/FieldString.h:119 | characters are stored as one byte each, or as two little-endian bytes each in a wide field |
| FieldString.DecodeUnits | include/RecordLib/FieldString.h:72-100 | stored bytes read back as one character per byte, or per two bytes in a wide field |
| FieldString.UnitBytes | include/RecordLib/FieldString.h:119 | a UTF-16 unit is stored low byte first |
| FieldString.DecodeEncode | include/RecordLib/FieldString.h:72-124 | characters stored and read back are unchanged |
| FieldString.EncodeDecode | include/RecordLib/FieldString.h:72-124 | bytes read as characters and stored again are unchanged |
| FieldString.DecodeAppend | include/RecordLib/FieldString.h:72-100 | reading two byte runs is reading each in turn |
| FieldString.CUnits | include/RecordLib/FieldString.h:93-96 | the C string is the prefix of the units up to the first NUL, with no NUL inside |
| FieldString.CUnitsCut | include/RecordLib/FieldString.h:93-96 | the C string stops at the first NUL, whatever follows |
| FieldString.CUnitsWhole | include/RecordLib/FieldString.h:93-96 | units without a NUL are their own C string |
| FieldString.GetVal | include/RecordLib/FieldString.h:72-100 | null exactly when the flag after a fixed field is non-zero or a var slot is null; a fixed field's value is at most size units with no NUL |
| FieldString.GetAsBlob | include/RecordLib/FieldString.h:136-146 | a fixed field's blob is all size characters' bytes, a var field's the slot's bytes; null reads as an empty null blob |
| FieldString.Written | include/RecordLib/FieldString.h:119-123 | a fixed field receives at most size characters, followed by a NUL when the text is shorter than the field |
| FieldString.WriteFixed | include/RecordLib/FieldString.h:113-123 | the write clears the null flag, copies min(size, len) characters and a NUL when there is room, and leaves the rest of the field's bytes as they were |
| FieldString.SetVal | include/RecordLib/FieldString.h:102-124 | a text longer than the field reports "was truncated" (quoting 97 characters and "..." for a var field over 100) and keeps the first size characters; a var field stores exactly those in its slot |
| FieldString.SetNull | include/RecordLib/FieldString.h:131-134 | SetNull sets the flag byte of a fixed field to 1, leaving the characters, and nulls a var field's slot |
| FieldString.SetThenGet | include/RecordLib/FieldString.h:72-124 | a text set reads back as its first size characters, cut at the first NUL for a fixed field, and not null |
| FieldString.FixedSetThenGet | include/RecordLib/FieldString.h:102-124 | for a fixed field, reading after writing gives the C string of the first size characters |
| FieldString.NullRead | include/RecordLib/FieldString.h:126-146 | after SetNull both the value and the blob read as null and empty |
| FieldString.LatinUnits | include/RecordLib/FieldString.h:327-351 | UTF-16 text below 256 narrowed and widened again is unchanged |
| FieldString.DoConvertString | include/RecordLib/FieldString.h:327-369 | narrowing keeps the length and reports "could not be fully converted" exactly when some unit is 256 or more |
| FieldString.NarrowLoop | include/RecordLib/FieldString.h:337-351 | the character loop gives the narrowed text and flags a loss exactly when DoConvertString reports one |
| FieldString.FirstByte | include/RecordLib/FieldString.h:61-70 | the first byte is null exactly when the field is null |
| FieldString.GetAsBool | include/RecordLib/FieldString.h:414-421 | null exactly when the field is null, and then false |
| FieldString.BoolOfFirstChar | include/RecordLib/FieldString.h:414-421 | when the first character is ASCII, GetAsBool is TestChar of it, and false for an empty value |
| FieldString.BaseOf | include/RecordLib/FieldString.h:429-445 | the base is 16 after a leading 0x or 0X, 10 otherwise |
| FieldString.CheckNumberConvError | include/RecordLib/FieldString.h:281-313 | ERANGE, no text, or a parse that consumed nothing read as null; ERANGE reports "does not fit in an Int32" (or Int64); a fully consumed or empty text reports nothing; nothing consumed reports "is not a number"; text left after the number keeps the value and reports "stopped converting at a comma" when a comma follows, else "lost information in translation" |
| FieldString.Strtol | include/RecordLib/FieldString.h:435-437 | strtol's value fits a 64-bit long, and when it consumed nothing it is 0 without ERANGE |
| FieldString.ToInt | include/RecordLib/FieldString.h:437 | a long assigned to an int is congruent modulo 2^32, in the int range, and unchanged when it fits |
| FieldString.ViaTstrtoNum | include/RecordLib/FieldString.h:444-448 | the UTF-16 parse's value lies in the width's range |
| FieldString.GetAsInt32AsWritten | include/RecordLib/FieldString.h:423-451 | as written: null reads as null 0 without a message; the result always lies in the int range |
| FieldString.GetAsInt32 | include/RecordLib/FieldString.h:423-451 | corrected: null reads as null 0 without a message, and every result lies in the int range; NarrowWrapsAsWritten and BlankAsWritten state how it differs from the code as written |
| FieldString.GetAsInt64AsWritten | include/RecordLib/FieldString.h:453-482 | as written: null reads as null 0; the result lies in the int64 range |
| FieldString.GetAsInt64 | include/RecordLib/FieldString.h:453-482 | corrected: null reads as null 0; the result lies in the int64 range |
| FieldString.GetAsAString | include/RecordLib/FieldString.h:490-520 | the narrow text is the value narrowed, with the same null flag, and a message exactly for a wide value with a unit of 256 or more |
| FieldString.GetAsWString | include/RecordLib/FieldString.h:532-550 | a wide field returns its value; a narrow field's value widened, empty when it starts with NUL |
| FieldString.GetAsSpatialBlob | include/RecordLib/FieldString.h:557-606 | without a GeoJSON converter the result is always null and empty, with the messages GetAsAString reports |
| FieldString.UnitsOf | include/RecordLib/FieldString.h:644-672 | the characters a setter stores fit the field's width and are as many as the input's |
| FieldString.SetFromString | include/RecordLib/FieldString.h:644-672 | the storage stays well formed (what it then reads back is stated by NarrowTextRoundTrip, WideTextRoundTrip and WideIntoNarrow); the text is converted to the field's width (narrowing reports lost characters) and stored by SetVal, the conversion's messages before SetVal's |
| FieldString.SetFromInt32 | include/RecordLib/FieldString.h:608-618 | storing an int keeps the storage well formed; Int32RoundTrip states what reads back |
| FieldString.SetFromInt64 | include/RecordLib/FieldString.h:620-630 | storing an int64 keeps the storage well formed; Int64RoundTrip states what reads back |
| FieldString.SetFromBlob | include/RecordLib/FieldString.h:674-679 | the storage stays well formed; a blob without a pointer stores null in a var field, without a message |
| FieldString.SetFromSpatialBlob | include/RecordLib/FieldString.h:691-709 | without a GeoJSON converter the field is set null |
| FieldString.WidenedNoNul | include/RecordLib/FieldString.h:537-545 | Latin-1 text without NUL widens to units without NUL that narrow back to it |
| FieldString.NarrowTextRoundTrip | include/RecordLib/FieldString.h:490-672 | a Latin-1 text that fits is stored without a message and reads back as itself |
| FieldString.WideTextRoundTrip | include/RecordLib/FieldString.h:532-672 | UTF-16 text without NUL that fits a wide field is stored without a message and reads back as itself |
| FieldString.WideIntoNarrow | include/RecordLib/FieldString.h:327-369 | UTF-16 text into a narrow field reports a loss exactly when some unit is 256 or more, reads back narrowed, and widens back to the original exactly when nothing was lost |
| FieldString.Int32RoundTrip | include/RecordLib/FieldString.h:423-482 | an int whose text fits is stored silently and read back by GetAsInt32 and GetAsInt64, as written and corrected |
| FieldString.Int64RoundTrip | include/RecordLib/FieldString.h:453-482 | an int64 whose text fits is stored silently and read back by GetAsInt64 |
| FieldString.NarrowWrapsAsWritten | include/RecordLib/FieldString.h:435-437 | as written, an int64 outside the int range stored in a narrow field reads through GetAsInt32 as its low 32 bits, not null and silently; the corrected getter reads null and reports it |
| FieldString.WrapExamples | include/RecordLib/FieldString.h:437 | 4294967297 wraps to 1 and 2147483648 to -2147483648 |
| FieldString.BlobRoundTrip | include/RecordLib/FieldString.h:136-146 | setting a field from the blob another non-null field of the same layout reads (a var value within size and of whole units) makes it equal to that field, without a message |
| FieldString.BlankAsWritten | include/RecordLib/FieldString.h:444-448 | as written, a UTF-16 field holding one blank reads as the int 0 silently; corrected, as null with "is not a number" |
| FieldString.BlankRead | include/RecordLib/FieldString.h:444-448 | corrected: a UTF-16 field holding one blank reads through GetAsInt32 as null 0 with "is not a number" |
| FieldString.HeldInt32 | include/RecordLib/FieldString.h:423-451 | a field whose value is the decimal text of an int reads back that int through GetAsInt32, as written and corrected, without a message |
| FieldString.TrailingText | include/RecordLib/FieldString.h:300-310 | text left after the number keeps the value and is reported, through GetAsInt32 and GetAsInt64, narrow or wide, as written and corrected: "12abc" reads as 12 with "lost information in translation", "12,5" as 12 with "stopped converting at a comma" |
| FieldFixedDecimal.SkipDigits | src/FieldFixedDecimal.cpp:107-108 | the scan stops at the first non-digit after a run of digits, or at the end |
| FieldFixedDecimal.Prefixed | src/FieldFixedDecimal.cpp:91-94 | a leading "." gets a "0" before it and "-." becomes "-0."; the text is never empty |
| FieldFixedDecimal.Lead | src/FieldFixedDecimal.cpp:101-102 | one sign character at most is skipped |
| FieldFixedDecimal.DigitsValid | src/FieldFixedDecimal.cpp:98-122 | an optional sign and one or more digits are accepted, with no fraction digits |
| FieldFixedDecimal.PointValid | src/FieldFixedDecimal.cpp:98-122 | digits, a point and one or more digits are accepted, with the digits after the point counted |
| FieldFixedDecimal.ValidForm | src/FieldFixedDecimal.cpp:98-122 | an accepted text is a sign, digits and, when it has a point, at least one digit after it |
| FieldFixedDecimal.ValidChars | src/FieldFixedDecimal.cpp:98-122 | an accepted text is ASCII without NUL, starts with a digit or a sign, and has only digits and points after that |
| FieldFixedDecimal.CheckForm | src/FieldFixedDecimal.cpp:98-122 | the validating scan accepts exactly the texts Valid describes, and counts their fraction digits |
| FieldFixedDecimal.Cut | src/FieldFixedDecimal.cpp:133 | the text is cut right after scale fraction digits |
| FieldFixedDecimal.CarryMeaning | src/FieldFixedDecimal.cpp:143-185 | the carry loop adds one unit in the place it starts from, keeping the text accepted, its sign and its fraction digits |
| FieldFixedDecimal.RoundUp | src/FieldFixedDecimal.cpp:145-184 | the in-place carry loop produces the text Carry describes |
| FieldFixedDecimal.RoundTo | src/FieldFixedDecimal.cpp:131-185 | cutting and rounding produce the text Rounded describes |
| FieldFixedDecimal.PadTo | src/FieldFixedDecimal.cpp:198-205 | adding the point and zeros produces the text Normalized describes |
| FieldFixedDecimal.KeptForm | src/FieldFixedDecimal.cpp:131-141 | the text cut to scale fraction digits is accepted, with scale fraction digits and the same sign |
| FieldFixedDecimal.NormalizedForm | src/FieldFixedDecimal.cpp:131-205 | the stored text is accepted, has exactly scale fraction digits (no point at all for scale 0) and keeps the sign |
| FieldFixedDecimal.NormalizedValue | src/FieldFixedDecimal.cpp:131-205 | padding multiplies the digits by 10 per zero; cutting divides by 10 per digit cut, and adds one exactly when the digits cut are at least half a unit of the last place kept |
| FieldFixedDecimal.MagnitudeConcat | src/FieldFixedDecimal.cpp:131-205 | the number the digits of a + b spell is a's shifted past b's digits plus b's |
| FieldFixedDecimal.RoundingExamples | src/FieldFixedDecimal.cpp:131-205 | 9.95 at scale 1 is 10.0, -9.5 at scale 0 is -10, 12.345 at scale 2 is 12.35, 7 at scale 2 is 7.00, and .5 is read as 0.5 |
| FieldFixedDecimal.Store | src/FieldFixedDecimal.cpp:77-215 | the storage stays well formed; what it then reads back, and when it reports, is stated by StoreReadsBack and StoreKept |
| FieldFixedDecimal.StoreReadsBack | src/FieldFixedDecimal.cpp:77-215 | the field is null after SetFromString exactly when the text is empty, malformed or too long once normalised, and otherwise reads back as the normalised text; a message comes exactly unless the text is empty or is stored without cutting fraction digits |
| FieldFixedDecimal.StoreKept | src/FieldFixedDecimal.cpp:131-214 | an accepted text that fits reads back normalised, with "too many digits" reported exactly when fraction digits were cut |
| FieldFixedDecimal.StoredText | src/FieldFixedDecimal.cpp:214 | a stored text goes to the narrow string setter as its normalised form, which is ASCII without NUL |
| FieldFixedDecimal.WideText | src/FieldFixedDecimal.cpp:217-221 | corrected: an empty UTF-16 text hands on nothing, any other one its narrowed characters |
| FieldFixedDecimal.StaleTextAsWritten | src/FieldFixedDecimal.cpp:217-221 | as written, an empty UTF-16 text stores whatever text the field worked on last, so the field is not null; corrected, it is null |
| FieldFixedDecimal.IntTextForm | src/FieldFixedDecimal.cpp:61-75 | the text of an int64 is accepted with no fraction digits and is stored followed by a point and scale zeros |
| FieldFixedDecimal.IntReadsBack | src/FieldFixedDecimal.cpp:61-75 | an int64 whose padded text fits reads back as that text, without a message |
| FieldFixedDecimal.WholeText | src/FieldFixedDecimal.cpp:40-42 | the text printed for a whole number is shorter than the 512-character scratch buffer |
| FieldFixedDecimal.StoreWhole | src/FieldFixedDecimal.cpp:40-54 | the storage stays well formed |
| FieldFixedDecimal.WholeAgreesWithInt | src/FieldFixedDecimal.cpp:35-75 | a whole number stored through the double path is stored exactly as SetFromInt64 stores it when its padded text fits; when it does not, both make the field null |
| FieldFixedDecimal.StoredFixed | src/FieldFixedDecimal.cpp:198-214 | a text that needs no rounding and fits is written into the record as its padded form, without a message |
| FieldFixedDecimal.StaleDigitsAsWritten | src/FieldFixedDecimal.cpp:17-33 | as written, a size 6 field set to 123.5 and then to 0.0 reads 0.0, yet its bytes past the NUL still hold the 5, which GetAsBool counts |
| FieldFixedDecimal.FixedDecimalField.constructor | src/FieldFixedDecimal.cpp:228-236 | a field with its size and scale and an empty scratch text |
| FieldFixedDecimal.FixedDecimalField.SetFromString | src/FieldFixedDecimal.cpp:77-215 | the result is what Store describes, and the scratch text is left prefixed and normalised as in the source |
| FieldFixedDecimal.FixedDecimalField.SetFromWStringAsWritten | src/FieldFixedDecimal.cpp:217-221 | as written: the narrowed text, or the old scratch text for an empty input, is stored as SetFromString would |
| FieldFixedDecimal.FixedDecimalField.SetFromWString | src/FieldFixedDecimal.cpp:217-221 | corrected: the narrowed text is stored, an empty input making the field null |
| FieldFixedDecimal.FixedDecimalField.SetFromInt64 | src/FieldFixedDecimal.cpp:61-75 | a text longer than the field makes it null with "does not fit", otherwise it goes through SetFromString |
| FieldFixedDecimal.FixedDecimalField.SetFromInt32 | src/FieldFixedDecimal.cpp:40-59 | the value printed with scale fraction digits is stored as it is, or the field made null with "does not fit" when it is too long |
| FieldFixedDecimal.FixedDecimalField.SetFromBool | src/FieldFixedDecimal.cpp:35-38 | true is stored as 1 and false as 0 through the double path |
| FieldFixedDecimal.FixedDecimalField.GetAsBoolAsWritten | src/FieldFixedDecimal.cpp:17-33 | as written: null reads as null false; otherwise true exactly when some byte of the field's whole blob is a digit 1 to 9 |
| FieldFixedDecimal.FixedDecimalField.GetAsBool | src/FieldFixedDecimal.cpp:17-33 | corrected: null reads as null false; otherwise true exactly when some character of the value is a digit 1 to 9 |
| FieldDateTime.Size | src/FieldDateTime.cpp:191-219 | a Date holds 10 characters, a Time 8 and a DateTime 19 |
| FieldDateTime.StoreBase | src/FieldDateTime.cpp:110-115 | the storage stays well formed; what it then reads back is stated by SetFromStringMeaning, which stores through it |
| FieldDateTime.SetFromString | src/FieldDateTime.cpp:147-179 | the storage stays well formed; when the field is null, what it reads back and what it reports are stated by SetFromStringMeaning, and per kind by DateAccepts, DateTimeAccepts and TimeAccepts |
| FieldDateTime.SetFromWString | src/FieldDateTime.cpp:117-121 | UTF-16 text is narrowed, its lost characters reported, and then stored exactly as the narrow setter stores the narrowed text |
| FieldDateTime.SetNull | include/RecordLib/FieldDateTime.h:21 | the flag byte makes the field null and the storage stays well formed |
| FieldDateTime.Kept | src/FieldDateTime.cpp:112 | the text the field keeps is at most its size |
| FieldDateTime.AdjustedPlain | src/FieldDateTime.cpp:147-179 | the kinds' adjustments keep text free of NUL and of characters from 256 on |
| FieldDateTime.SetFromStringMeaning | include/RecordLib/FieldDateTime.h:17-26 | the field is null after SetFromString exactly when the text it kept fails its kind's check; otherwise it reads back as that text without a message, and a failure reports the adjusted text as "not a valid" the kind |
| FieldDateTime.DateAccepts | src/FieldDateTime.cpp:110-128 | a Date is set exactly when the first ten characters are a valid date, and then holds them without a message |
| FieldDateTime.MidnightValid | src/FieldDateTime.cpp:169-176 | a date followed by " 00:00:00" is a valid date-time exactly when the date is valid |
| FieldDateTime.DateTimeAccepts | src/FieldDateTime.cpp:159-179 | a DateTime given ten characters is set exactly when they are a valid date and holds them with " 00:00:00"; any other text is set exactly when its first 19 characters are a valid date-time |
| FieldDateTime.TimeAccepts | src/FieldDateTime.cpp:137-155 | a Time given a valid date, one character and eight more keeps the eight; any other text keeps its first eight; the field is set exactly when those are a valid time |
| FieldDispatch.ImplOf | src/RecordInfo.cpp:369-486 | a class, of the schema's type, exactly for the types other than Unknown, Float and Double, and for a FixedDecimal only with a scale of at least 0 (the other two cases are left out) |
| FieldDispatch.HoldsLaidOut | src/FieldBase.cpp:24-32 | a fixed field's storage is exactly its raw size in the record; a var field's is a var data slot |
| FieldDispatch.ReadHolds | src/Record.cpp:116-122 | what a field reads from a record it fits in is well formed for its class |
| FieldDispatch.ReadContent | src/Record.cpp:116-122 | a field reads its own bytes, or its slot's value, from the record |
| FieldDispatch.GetAsInt32 | src/FieldBlob.cpp:17-20 | only a Blob throws; every other value lies in the int range, text-stored fields read as written (a narrow strtol result narrowed to int, a wide end pointer past blanks) |
| FieldDispatch.GetAsInt64 | src/FieldBase.cpp:106-110 | only a Blob throws, through the inherited GetAsInt32; every other value lies in the int64 range, text-stored fields read through the as-written parse |
| FieldDispatch.GetAsBool | src/FieldBase.cpp:74-104 | only a Blob throws, since the inherited GetAsBool goes through GetAsInt32; a FixedDecimal scans every byte of its storage as written |
| FieldDispatch.GetAsBlob | src/FieldBase.cpp:118-121 | a Bool and the numbers throw "doesn't support Blobs" naming their type; the others read their bytes |
| FieldDispatch.GetAsSpatialBlob | src/FieldBase.cpp:133-136 | a Bool and the numbers throw "doesn't support Spatial Objects" naming their type |
| FieldDispatch.SetNull | src/FieldBase.cpp:143-149 | SetNull leaves storage that is well formed and null |
| FieldDispatch.ClassOfType | include/FieldType.h:44-141 | the classes line up with the type classes: bool or integer, FixedDecimal, date or time, binary |
| FieldDispatch.SetBool | src/FieldBool.cpp:54-98 | a Bool stores one byte for every value but a blob or a spatial object, which it refuses |
| FieldDispatch.SetNum | include/RecordLib/FieldNum.h:229-306 | a number stores its size plus the null byte for every value but a blob or a spatial object; a bool goes through SetFromInt32; text is parsed as written |
| FieldDispatch.SetString | include/RecordLib/FieldString.h:608-709 | the string types take every value and keep their storage well formed |
| FieldDispatch.SetDecimal | src/FieldFixedDecimal.cpp:35-226 | a FixedDecimal refuses only a blob, and otherwise keeps its storage well formed |
| FieldDispatch.SetDate | src/FieldDateTime.cpp:15-121 | the date types refuse exactly a bool, an Int32 and an Int64, and otherwise keep their storage well formed |
| FieldDispatch.SetBlob | src/FieldBlob.cpp:92-155 | a Blob refuses everything but a blob or a spatial object, and one longer than a record can hold |
| FieldDispatch.SetFrom | src/FieldBase.cpp:123-141 | a setter throws exactly when the type refuses the kind of value, or the blob is too long; otherwise the storage stays well formed |
| FieldDispatch.SetFromVal | src/FieldBase.cpp:143-211 | the TFieldVal setters keep the storage well formed |
| FieldDispatch.NullValueSetsNull | src/FieldBase.cpp:143-211 | a null value makes every type null, without a message, without throwing, and without touching the scratch text |
| FieldDispatch.BoolThroughInt32 | src/FieldBase.cpp:123-126 | SetFromBool stores what SetFromInt32 stores for 1 or 0 in every type but the dates |
| FieldDispatch.Int64WidensInt32 | src/FieldBase.cpp:106-110 | where GetAsInt64 is inherited it is GetAsInt32 widened, null flag and all |
| FieldDispatch.NullReadsNull | src/FieldBase.cpp:74-110 | every getter that does not throw reads a null field as null |
| FieldDispatch.FieldObj.constructor | src/FieldBase.cpp:24-32 | a field object with its layout, class, a detached error sink and an empty scratch text |
| FieldDispatch.FieldObj.Set | src/FieldBase.cpp:143-211 | a throw changes nothing; otherwise the errors are reported in order and the record holds what the setter computed, unless a var value makes the record too long, which throws and leaves it as it was |
| FieldDispatch.FieldObj.GetInt32 | src/FieldBase.cpp:46-67 | the value GetAsInt32 gives, its errors reported to the sink |
| FieldDispatch.FieldObj.GetText | src/FieldBase.cpp:46-67 | the text GetAsAString gives, its errors reported to the sink |
| VarData.GetVarDataValue | src/RecordInfo.cpp:734-784 | a slot word of 1 reads as null and only that; 0 reads as an empty value |
| VarData.ValueBounded | src/RecordInfo.cpp:754-782 | no value read from a slot is longer than a field can be |
| VarData.InlineWord | src/RecordInfo.cpp:794-810 | a value of one to three bytes packs into a word below bit 31 whose bits 28-29 hold its length |
| VarData.OffsetWord | src/RecordInfo.cpp:813-825 | the offset word strips back to the offset, and has bit 31 set exactly when the offset passes 0x0fffffff |
| VarData.ShortRoundTrip | src/RecordInfo.cpp:734-832 | a null, an empty value or a value of up to three bytes written into the slot reads back as itself |
| VarData.OffsetRoundTrip | src/RecordInfo.cpp:762-782 | a value of four bytes or more behind its length prefix, with the slot pointing at the prefix, reads back as itself |
| VarData.Reach | src/RecordInfo.cpp:734-784 | the bytes a slot's value depends on start at the slot and lie in the record |
| VarData.SameValue | src/RecordInfo.cpp:734-784 | two records that agree from the slot up to the end of its value hold the same value there |
| VarData.SetVarDataValue | src/RecordInfo.cpp:786-832 | the slot then reads back as the value; a null, an empty value or up to three bytes change only the slot; a longer value is appended to the var data behind its prefix and pointed at, and fails, changing nothing, exactly when the record would pass MaxFieldLength |
| VarData.StoreLong | src/RecordInfo.cpp:811-826 | a value of four bytes or more is appended after its length prefix and the slot points at it, relative to the slot; the bytes before the slot and the old var data are kept |
| Records.LenPrefix | src/Record.cpp:78-100 | a value of up to 127 bytes gets a one-byte prefix, a longer one a four-byte prefix |
| Records.PrefixRoundTrip | src/Record.cpp:78-100 | the prefix read back as a 32-bit word gives the prefix size and the value length that were written |
| Records.Resized | src/Record.cpp:36-40 | realloc keeps the leading bytes up to the smaller of the old and new sizes, and the buffer takes the new size |
| Records.Record.constructor | include/RecordLib/Record.h:36-50 | a new record has an empty buffer, no var data and a current length word |
| Records.Record.Allocate | src/Record.cpp:9-41 | fails exactly when the fixed part, the length word and n exceed MaxFieldLength; otherwise a short buffer grows to twice the need (capped) with var data, to the fixed size without, and keeps its bytes |
| Records.Record.Init | src/Record.cpp:43-49 | sets the layout; succeeds exactly when the fixed part and the word fit; then the var data is empty and its length word stale |
| Records.Record.Reset | src/Record.cpp:51-56 | the var data is taken to be n bytes long and its length word marked stale; the bytes are untouched |
| Records.Record.AddVarData | src/Record.cpp:65-108 | fails exactly when the value and its prefix do not fit; otherwise returns the prefix position (var-data size plus 4, never 0) and the var data grows by exactly prefix + value, the fixed part unchanged |
| Records.Record.StoreValue | src/Record.cpp:78-107 | the prefix-and-copy half of AddVarData: the var data grows by prefix + value when the allocation succeeds, else nothing changes |
| Records.Record.SetLength | src/Record.cpp:110-114 | the length word is overwritten with the var-data size and marked current |
| Records.Record.GetRecord | src/Record.cpp:116-122 | returns the buffer; a stale length word with var data is first rewritten, so the returned word equals the var-data size |
| Records.Record.ReadVarData | include/RecordLib/RecordInfo.h:274-292 | succeeds exactly when n bytes and 4 more fit; then the buffer holds the fixed part and word as read followed by the next n stream bytes, the stream advances by n and the word is current |
| Records.Record.CopyVarData | src/RecordInfo.cpp:871-887 | succeeds exactly when the var data fits; then the buffer holds the copied fixed part and word followed by the source's var data, and the word is current |
| Records.Record.PutVarData | src/RecordInfo.cpp:884-886 | the var data is copied behind the length word, which is marked current; the buffer keeps its size |
| FieldNames.Decimal | src/RecordInfo.cpp:354 | the decimal text of a number is non-empty and has no NUL |
| FieldNames.Sanitize | src/RecordInfo.cpp:266-275 | keeps the length; every character that is not an ASCII letter, digit or '_' becomes '_', the others stay |
| FieldNames.SanitizeTwice | src/RecordInfo.cpp:266-275 | the strict rewrite applied to its own output changes nothing |
| FieldNames.Prepared | src/RecordInfo.cpp:255-275 | the prepared name fits the limit and is non-empty (an empty name becomes Field_<n+1>); strict names are clean; without strict naming it is the name cut to the limit |
| FieldNames.PreparedStable | src/RecordInfo.cpp:255-275 | preparing a prepared name again changes nothing, whatever the field count, NUL characters included |
| FieldNames.Candidate | src/RecordInfo.cpp:353-356 | a generated name is the root cut to leave room for the digits, then the digits; the digits always end it |
| FieldNames.ShortRoot | src/RecordInfo.cpp:353-356 | when root and digits fit the limit the generated name is exactly root + digits |
| FieldNames.PlainSequence | src/RecordInfo.cpp:325-352 | a name not ending in a digit is tried as name2 ... name9, then name9_2, name9_3 and so on |
| FieldNames.DigitSequence | src/RecordInfo.cpp:310-352 | a name ending in one digit d from 2 to 8 continues the count from d+1 up to 9, then root9_2 onwards |
| FieldNames.UnderscoreSequence | src/RecordInfo.cpp:318-352 | any other name ending in a digit is tried as name_2, name_3 and so on |
| FieldNames.Search | src/RecordInfo.cpp:291-357 | a name the duplicate loop returns is free in the map |
| FieldNames.SearchFirstFree | src/RecordInfo.cpp:291-357 | the loop fails exactly when every attempt up to 998 is taken; otherwise it returns the first free attempt |
| FieldNames.SearchFits | src/RecordInfo.cpp:353-356 | with a limit of at least 3, every generated name fits the limit |
| FieldNames.ShortLimitOverflow | src/RecordInfo.cpp:355 | with a limit of 1, limit minus digit count wraps as unsigned, nothing is cut and the generated name "A9_10" is longer than the limit |
| FieldNames.Remember | src/RecordInfo.cpp:277-279 | the original names grow with empty names up to field n, n holds the prepared name, the others are unchanged |
| FieldNames.Validate | src/RecordInfo.cpp:247-367 | a successful call keeps the field count, grows the originals to cover field n, keeps every map entry on a field with an original name, and warns only when asked to |
| FieldNames.ValidateRemembers | src/RecordInfo.cpp:247-367 | after a successful call the original name of field n is the name it asked for, prepared; every other original is kept, or prepared again when the rename chain named that field anew |
| FieldNames.Enter | src/RecordInfo.cpp:365-366 | the name is entered for n and returned as given |
| FieldNames.Generate | src/RecordInfo.cpp:281-366 | the duplicate loop leaves the names alone and enters a name that was free; 998 taken attempts give the could-not-generate error |
| FieldNames.Rename | src/RecordInfo.cpp:293-307 | the rename branch gives n the name it asked for and keeps the field count |
| FieldNames.RenameRemembers | src/RecordInfo.cpp:293-307 | the rename branch leaves n its original name, as the displaced field is another one and a prepared name prepared again is itself; the other originals are kept or prepared again |
| FieldNames.Named | src/RecordInfo.cpp:303-304 | the caller stores the returned name at n; the other names, the originals and the map are unchanged |
| FieldNames.NamedNext | src/RecordInfo.cpp:501 | naming a new last field adds exactly one name and one original name |
| FieldNames.EnterIndexes | src/RecordInfo.cpp:365 | entering a free name for n leaves the map exact: every field found under its own name and every entry naming its field |
| FieldNames.ValidateIndexes | src/RecordInfo.cpp:247-367 | with the rename branch rebinding the name, the map stays exact after naming field n, including every field renamed again on the way |
| FieldNames.RenameIndexes | src/RecordInfo.cpp:293-307 | the corrected rename branch keeps the map exact |
| FieldNames.DistinctNames | src/RecordInfo.cpp:247-367 | when every field is found under its own name, no two field names are equal ignoring case |
| FieldNames.LookupNamesField | src/RecordInfo.cpp:711-720 | with an exact map, a name found in it leads to a field of that name, ignoring case |
| FieldNames.StaleEntryAsWritten | src/RecordInfo.cpp:300 | as written (insert does not overwrite), after the rename branch the name field n was given still maps to the other field |
| FieldNames.KeepsEntries | src/RecordInfo.cpp:300-365 | as written, no entry of the map is ever replaced |
| FieldNames.KeysGrow | src/RecordInfo.cpp:291-366 | as written or corrected, naming a field drops no key of the map and makes the name it returns a key |
| FieldNames.ValidateFits | src/RecordInfo.cpp:264-356 | with a limit of at least 3 the returned name fits the limit |
| FieldNamesExample.SecondSearch | src/RecordInfo.cpp:325-356 | a second field named A is given A2 |
| FieldNamesExample.RenameSearch | src/RecordInfo.cpp:291-357 | with A and A2 taken, the next name generated from A is A3 |
| FieldNamesExample.RenameOne | src/RecordInfo.cpp:293-307 | as written, renaming field 1 again from A yields A3, entered for field 1 beside the stale A2 entry |
| FieldNamesExample.ThreeFieldsAsWritten | src/RecordInfo.cpp:293-307 | as written, fields named A, A, A2 end up named A, A3, A2 while the map sends A2 to field 1 |
| FieldNamesExample.FourFieldsAsWritten | src/RecordInfo.cpp:291-366 | as written, fields added as A, A, A2 and A2 are named A, A4, A2 and A2: two fields share a name |
| RecordInfos.ShapeOf | src/RecordInfo.cpp:371-472 | the size a field's class gives its schema: the width for numbers, the size for fixed strings and decimals, var strings over 250000000 (125000000 wide) capped to the maximum, 10/8/19 for dates and times, MaxFieldLength and scale 0 for blobs |
| RecordInfos.Layout | src/RecordInfo.cpp:371-472 | the field built for a schema keeps its type, name, source and description, starts at 0, and has the raw size and var flag its type and size give |
| RecordInfos.LayoutMatchesClass | src/RecordInfo.cpp:371-472 | the raw size and var-data flag RecordInfo allots a field are the ones the field's class uses |
| RecordInfos.DecimalRefusal | src/RecordInfo.cpp:399-416 | a FixedDecimal schema is accepted exactly when its size is at least 1 and a positive scale leaves room for the sign and the point (scale + 2 <= size) |
| RecordInfos.Refusal | src/RecordInfo.cpp:389-421 | AddField refuses a schema before building a field exactly for a FixedDecimal the size/scale check rejects |
| RecordInfos.Notices | src/RecordInfo.cpp:389-446 | at most one message, sent exactly when an engine is attached and a decimal is over 258 characters or a fixed string over 16384 |
| RecordInfos.PushArranged | src/RecordInfo.cpp:503-517 | a field placed where the fixed part ends keeps the fields arranged, sets the var flag when it has var data, and adds its name last |
| RecordInfos.ChainedSums | src/RecordInfo.cpp:503-515 | each field's offset is the sum of the raw sizes before it, and the fixed size is the sum of all |
| RecordInfos.ChainedOrder | src/RecordInfo.cpp:503-515 | an earlier field ends at or before a later one starts |
| RecordInfos.NoOverlap | src/RecordInfo.cpp:503-515 | no two fields overlap and every field ends within the fixed size |
| RecordInfos.LayoutKeeps | src/RecordInfo.cpp:522-555 | renaming fields keeps their offsets, sizes, the chain, the arrangement and the var flag |
| RecordInfos.HasVarPush | src/RecordInfo.cpp:516-517 | after a push there is var data exactly when there was or the new field has it |
| RecordInfos.GetFieldNum | src/RecordInfo.cpp:711-723 | a name in the map gives its field number (and only then a number >= 0); a missing name throws "is missing" or gives -1 |
| RecordInfos.GetFieldNumFinds | src/RecordInfo.cpp:711-723 | with an exact map GetFieldNum finds field i exactly when field i has the name up to case; with no such field it throws or gives -1 |
| RecordInfos.SchemasAndTypes | src/RecordInfo.cpp:631-669 | equal schemas have equal types; equal types allow more fields; with more fields allowed it is equal types of a prefix; a schema list compares equal to itself |
| RecordInfos.Parts | src/RecordInfo.cpp:86-163 | the attributes of the Field tag come in six ranked slots of at most one attribute each |
| RecordInfos.Attr | src/RecordInfo.cpp:102-161 | an attribute is written exactly when its condition holds |
| RecordInfos.FieldAttributesSorted | src/RecordInfo.cpp:86-163 | the attributes of the tag are in strictly alphabetical order of their names |
| RecordInfos.FieldAttributesPresent | src/RecordInfo.cpp:86-163 | name and type always, description and source exactly when not empty, scale exactly for a FixedDecimal and size exactly for the types that have one; texts escaped |
| RecordInfos.HasWholeRecord | src/RecordInfo.cpp:671-688 | without var data the fixed part must fit; with it the length word must fit, and then the word's var data; a negative word that wraps in size_t passes |
| RecordInfos.GetRecordLen | src/RecordInfo.cpp:834-848 | the fixed size, plus 4 and the length word's count with var data |
| RecordInfos.CopyOut | src/RecordInfo.cpp:861-869 | copies nothing and returns 0 when the room is short; otherwise returns the record length and exactly that many bytes of the record |
| RecordInfos.VersionOf | include/RecordLib/RecordInfo.h:253-271 | the version is 1 exactly when there is var data and the bytes written pass 0x0fffffff; else 0 |
| RecordInfos.ReadAfterWrite | include/RecordLib/RecordInfo.h:253-292 | a record written into a stream is seen whole at its position, with the same length and the same bytes |
| RecordInfos.Begin | src/RecordInfo.cpp:308-331 | the first duplicate's branch sets up the root and counter the generator starts from |
| RecordInfos.Bump | src/RecordInfo.cpp:340-352 | one increment of the counter is one step of the generator |
| RecordInfos.FindFree | src/RecordInfo.cpp:291-357 | the duplicate loop returns what Search gives: the first free generated name, or none after 998 attempts |
| RecordInfos.ConsistentMeaning | src/RecordInfo.cpp:492-520 | in a consistent RecordInfo field names differ up to case, fields do not overlap, the fixed size is the sum of raw sizes, and every map entry names its field |
| RecordInfos.RenamedAgain | src/RecordInfo.cpp:293-307 | the rename branch's state (the displaced field named again, then SetFieldName) is the state of the branch's outcome |
| RecordInfos.SetName | src/RecordInfo.cpp:303-304 | SetFieldName changes only field n's name |
| RecordInfos.PushInfoKeeps | src/RecordInfo.cpp:503-517 | pushing a field after naming keeps the layout arranged and makes the names the naming's plus the new one |
| RecordInfos.PushedLeavesNaming | src/RecordInfo.cpp:494-501 | below the field limit AddField names the field with ValidateFieldName and pushes it; the state it leaves is the one that push leaves |
| RecordInfos.PushNamedGrows | src/RecordInfo.cpp:503-520 | a push under an exact naming grows the RecordInfo as Grown states |
| RecordInfos.PushedKeeps | src/RecordInfo.cpp:492-520 | with the corrected naming, whose rename branch rebinds the name (Findings row 6): the inner AddField on a consistent RecordInfo leaves it consistent: the new field last, at the old fixed size, under a name no other field has, other fields only renamed |
| RecordInfos.NamingReady | src/RecordInfo.cpp:501 | with the corrected naming, whose rename branch rebinds the name (Findings row 6): naming a new field leaves the map exact once the field gets the name |
| RecordInfos.PushedLimits | src/RecordInfo.cpp:494-516 | at 32000 fields AddField throws the limit; a field that takes the fixed size past MaxFieldLength throws "Record too big" |
| RecordInfos.AddedPushed | src/RecordInfo.cpp:369-490 | without a refusal, AddField(schema) sends the notices, sets the var flag for var types, and pushes the laid-out field |
| RecordInfos.AddedKeeps | src/RecordInfo.cpp:369-520 | with the corrected naming, whose rename branch rebinds the name (Findings row 6): AddField keeps the exact-map invariant with the var flag, and the new field has the schema's type and its class's layout |
| RecordInfos.AddedValid | src/RecordInfo.cpp:369-520 | with the corrected naming, whose rename branch rebinds the name (Findings row 6): a successful AddField leaves the map exact and the RecordInfo consistent |
| RecordInfos.AddedRefusals | src/RecordInfo.cpp:399-499 | a FixedDecimal of size 0 or with too large a scale throws that; otherwise at 32000 fields the limit is thrown |
| RecordInfos.Erased | src/RecordInfo.cpp:525 | erasing an entry removes keys and keeps the other entries and everything else |
| RecordInfos.EraseReady | src/RecordInfo.cpp:522-526 | with the corrected naming, whose rename branch rebinds the name (Findings row 6): after erasing field n's entry the map is exact and nothing points at n, so n can be named again |
| RecordInfos.RenameInfo | src/RecordInfo.cpp:526 | naming field n again: the names are the naming's with n's new name, the layout and the var flag kept |
| RecordInfos.NamedAgain | src/RecordInfo.cpp:526 | ValidateFieldName then SetFieldName renames only, keeps the sizes, and returns field n |
| RecordInfos.RenamedFieldKeeps | src/RecordInfo.cpp:522-528 | with the corrected naming, whose rename branch rebinds the name (Findings row 6): RenameField keeps the exact-map invariant and the layout, and field n is found under its new name |
| RecordInfos.RenamedFieldValid | src/RecordInfo.cpp:522-528 | with the corrected naming, whose rename branch rebinds the name (Findings row 6): a successful RenameField leaves the map exact and the RecordInfo consistent |
| RecordInfos.Erasing | src/RecordInfo.cpp:542-548 | the first loop of RenameFields gives a valid field position for each old name and only removes map entries |
| RecordInfos.ErasingFinds | src/RecordInfo.cpp:542-548 | with the corrected naming, whose rename branch rebinds the name (Findings row 6): the first loop succeeds exactly when every old name is in the map and no two are the same up to case; it then finds each name's field and removes just those entries |
| RecordInfos.ErasingStops | src/RecordInfo.cpp:542-548 | once a lookup throws, RenameFields throws that exception |
| RecordInfos.RenamingAll | src/RecordInfo.cpp:550-554 | the second loop only renames fields and keeps the layout |
| RecordInfos.RenamingStops | src/RecordInfo.cpp:550-554 | once a naming throws, the second loop throws that exception |
| RecordInfos.RenamedFieldsKeeps | src/RecordInfo.cpp:535-555 | with the corrected naming, whose rename branch rebinds the name (Findings row 6): RenameFields keeps the exact-map invariant and the layout: only names change and every field is found under its name |
| RecordInfos.RenamedFieldsValid | src/RecordInfo.cpp:535-555 | with the corrected naming, whose rename branch rebinds the name (Findings row 6): a successful RenameFields leaves the map exact and the RecordInfo consistent |
| RecordInfos.SoundNameable | src/RecordInfo.cpp:492-501 | in the invariant the class keeps as written, one more field can be named and every map entry leads to a field |
| RecordInfos.NamingSound | src/RecordInfo.cpp:501 | naming a new field, with or without the rebinding, grows the originals by one, drops no key and makes the name a key; as written every existing entry keeps its field |
| RecordInfos.PushInfoSound | src/RecordInfo.cpp:503-517 | pushing a soundly named field keeps the layout, one original per field and the bounded map, and sets the var flag when the field has var data |
| RecordInfos.PushedSound | src/RecordInfo.cpp:492-520 | the inner AddField, as written or corrected, leaves the new field last and arranged, no key lost, its name a key; as written every old entry keeps its field |
| RecordInfos.PushNamedSound | src/RecordInfo.cpp:503-520 | once the naming is sound, the push leaves the new field last and arranged, no key lost, its name a key |
| RecordInfos.AddedSound | src/RecordInfo.cpp:369-520 | AddField as written keeps the class invariant (layout, var flag, one original per field, every entry leading to a field), adds one field, loses no key, makes the new name a key and keeps every old entry |
| RecordInfos.ValidateKeys | src/RecordInfo.cpp:526 | naming field n again drops no key and makes the name it gives a key; as written every entry keeps its field |
| RecordInfos.NamedAgainSound | src/RecordInfo.cpp:526 | naming field n again and setting its name keeps the class invariant and the layout, makes the new name a key and loses no key; as written every entry keeps its field |
| RecordInfos.RenamedFieldSound | src/RecordInfo.cpp:522-528 | RenameField as written keeps the class invariant and the layout, makes field n's new name a key, and loses no key but the erased one, every other entry keeping its field |
| RecordInfos.RenamedFieldsSound | src/RecordInfo.cpp:535-555 | RenameFields as written keeps the class invariant and the layout: only names change |
| RecordInfos.TooBig | src/RecordInfo.cpp:503-516 | on "Record too big" the field is already named and pushed while the fixed size and var flag are unchanged |
| RecordInfos.RecordInfo.constructor | src/RecordInfo.cpp:920-926 | a new RecordInfo has no fields, an empty map, fixed size 0 and no var data, with the given limit, strictness and engine |
| RecordInfos.RecordInfo.SetGenericEngine | src/RecordInfo.cpp:79-84 | only the engine changes |
| RecordInfos.RecordInfo.ResetForLateRename | src/RecordInfo.cpp:953-957 | only the name limit and strictness change |
| RecordInfos.RecordInfo.ValidateFieldName | src/RecordInfo.cpp:247-367 | returns the name Validate gives as written (or its exception) and leaves the names, originals, map and warning Validate gives |
| RecordInfos.RecordInfo.Duplicate | src/RecordInfo.cpp:291-357 | a taken name, under the naming as written (the insert keeps an existing entry): when its holder was renamed it is taken over as Rename gives it, otherwise a free generated name is found as Generate gives it |
| RecordInfos.RecordInfo.Entered | src/RecordInfo.cpp:359-366 | a free name is entered for n, with the duplicate warning when due and an engine attached |
| RecordInfos.RecordInfo.TakeOver | src/RecordInfo.cpp:293-307 | the rename branch as written, as Rename gives it: the displaced field is named again, n takes the name, and the insert leaves the entry under the name where it was |
| RecordInfos.RecordInfo.NameOther | src/RecordInfo.cpp:302-306 | the displaced field is named again from its original name without warnings, then renamed; the outcome and the state are those Validate gives for it as written |
| RecordInfos.RecordInfo.Insert | src/RecordInfo.cpp:300 | the map insert: the name is entered for n only when it is not a key yet; an existing entry is kept and nothing else changes |
| RecordInfos.RecordInfo.SetFieldName | src/RecordInfo.cpp:303-304 | only field p's name changes |
| RecordInfos.RecordInfo.Generated | src/RecordInfo.cpp:281-366 | the duplicate loop as Generate gives it: the first free generated name entered, or the could-not-generate exception |
| RecordInfos.RecordInfo.Push | src/RecordInfo.cpp:492-520 | the inner AddField as Pushed gives it under the naming as written, leaving the state PushedLeaves gives even when it throws "Record too big" |
| RecordInfos.RecordInfo.NameAndPlace | src/RecordInfo.cpp:501-520 | the field is named with ValidateFieldName as written and placed; the result and the state are the ones PushNamed and PushNamedLeaves give for that naming |
| RecordInfos.RecordInfo.Place | src/RecordInfo.cpp:503-520 | the named field is pushed at the end of the fixed part; past MaxFieldLength it stays pushed and "Record too big" is thrown |
| RecordInfos.RecordInfo.AddField | src/RecordInfo.cpp:369-520 | AddField(schema) as Added gives it under the naming as written; notices and the var flag stay even when it throws; the class invariant (layout, var flag, one original per field, every entry leading to a field) is kept |
| RecordInfos.RecordInfo.Announce | src/RecordInfo.cpp:389-446 | the precision and string-size notices are sent to an attached engine |
| RecordInfos.RecordInfo.MarkVarData | src/RecordInfo.cpp:452-481 | the var flag is set for V_String, V_WString, Blob and SpatialObj and kept otherwise |
| RecordInfos.RecordInfo.AddFieldSized | src/RecordInfo.cpp:564-579 | a negative size throws "is 0 length" and changes nothing; otherwise AddField of the schema |
| RecordInfos.RecordInfo.AddFieldXml | src/RecordInfo.cpp:581-587 | a Field tag that does not parse throws its error and changes nothing; otherwise AddField of the schema it describes |
| RecordInfos.RecordInfo.Erase | src/RecordInfo.cpp:525 | only the entry under the key is removed |
| RecordInfos.RecordInfo.RenameField | src/RecordInfo.cpp:522-528 | RenameField as RenamedField gives it under the naming as written; the class invariant is kept |
| RecordInfos.RecordInfo.NameAgain | src/RecordInfo.cpp:526 | ValidateFieldName as written with warnings, then SetFieldName, as NamedAgain gives it |
| RecordInfos.RecordInfo.RenameFields | src/RecordInfo.cpp:535-555 | RenameFields as RenamedFields gives it, its exception included, under the naming as written; the class invariant is kept |
| RecordInfos.RecordInfo.EraseAll | src/RecordInfo.cpp:542-548 | the first loop as Erasing gives it |
| RecordInfos.RecordInfo.NameAll | src/RecordInfo.cpp:550-554 | the second loop as RenamingAll gives it, each field named as written |
| RecordInfos.RecordInfo.Write | include/RecordLib/RecordInfo.h:252-271 | appends exactly the fixed part, the length word and the var data it counts, and returns the version |
| RecordInfos.RecordInfo.Read | include/RecordLib/RecordInfo.h:273-292 | reads exactly the record's bytes into the record (fixed part, word, var data), the stream advanced past them, the word marked current and the var-data count 0; too big throws after the fixed part |
| RecordInfos.RecordInfo.ReadHead | include/RecordLib/RecordInfo.h:276-281 | the record reset and the fixed part (and word) read in |
| RecordInfos.RecordInfo.Copy | src/RecordInfo.cpp:871-887 | copies exactly the record's bytes into the record, the word marked current and the var-data count 0; too big throws |
| RecordInfos.RecordInfo.CopyHead | src/RecordInfo.cpp:873-878 | the record reset and the fixed part (and word) copied in |
| RecordInfos.RecordInfo.WriteThenRead | include/RecordLib/RecordInfo.h:252-292 | a record written to a stream and read back has the same bytes, unless the room Read asks for is too big |
| RecordCopiers.RawCopyTest | src/RecordCopier.cpp:66-93 | a pair becomes a raw copy exactly when the fields agree in type, raw size and size (and scale for FixedDecimal); a raw copy takes the source's offset and raw size and the destination's offset, var flag and maximum bytes; a conversion takes only the field numbers and the flag, every other member being what the uninitialised local held |
| RecordCopiers.Merged | src/RecordCopier.cpp:108-129 | the merge never makes the plan longer and leaves it empty exactly when it was empty |
| RecordCopiers.Resize | src/RecordCopier.cpp:130 | vector::resize: the first n commands, padded with value-initialised commands |
| RecordCopiers.JoinSteps | src/RecordCopier.cpp:118-123 | joining two raw copies contiguous in both records copies the same bytes in the same order |
| RecordCopiers.MergedSteps | src/RecordCopier.cpp:108-129 | merging keeps what the plan does: the same bytes copied in the same order and the same other commands |
| RecordCopiers.MergedCompact | src/RecordCopier.cpp:108-129 | after merging no two neighbouring raw copies are contiguous in both records |
| RecordCopiers.MergedSorted | src/RecordCopier.cpp:106-129 | merging a plan sorted by source offset leaves it sorted, every source offset one the plan had |
| RecordCopiers.MergedReplay | src/RecordCopier.cpp:108-129 | the merged plan writes exactly the bytes the unmerged plan writes |
| RecordCopiers.BlockReplay | src/RecordCopier.cpp:273-274 | one memcpy of a raw copy is its byte-by-byte copy |
| RecordCopiers.MergedWithin | src/RecordCopier.cpp:108-129 | merging keeps every raw copy within both records, and every other command is one of the plan's |
| RecordCopiers.SwapSeps | src/RecordCopier.cpp:285-298 | ConvertDecimalSep keeps the length |
| RecordCopiers.SwapSepsChars | src/RecordCopier.cpp:285-298 | every '.' becomes ',' and every ',' becomes '.' before the first NUL; every other character is kept |
| RecordCopiers.SwapSepsTwice | src/RecordCopier.cpp:285-298 | exchanging the separators twice gives the text back |
| RecordCopiers.Finished | src/RecordCopier.cpp:106-130 | with no commands DoneAdding leaves one value-initialised command; otherwise the merged plan |
| RecordCopiers.NothingAddedAsWritten | src/RecordCopier.cpp:108-130 | with nothing added, prevIndex stays 0 and resize leaves one command, so IsValid holds; that command copies no bytes |
| RecordCopiers.MergedCount | src/RecordCopier.cpp:108-130 | the merged plan is never longer than the plan, and with commands DoneAdding leaves exactly the merged plan |
| RecordCopiers.CutToMax | src/RecordCopier.cpp:264-268 | a null value stays null; otherwise the first min(max bytes, length) bytes |
| RecordCopiers.Fetched | src/RecordCopier.cpp:150-256 | the value a conversion hands the setter is one the setter accepts |
| RecordCopiers.FetchedFails | src/RecordCopier.cpp:150-256 | a conversion throws exactly when a blob meets a bool or an integer field, or a spatial destination gets no spatial object from the source |
| RecordCopiers.DecimalToStringSwaps | src/RecordCopier.cpp:229-247 | with ',' as the separator a FixedDecimal reaches a string field with '.' and ',' exchanged (a null goes the default way); with '.' a narrow string gets GetAsAString |
| RecordCopiers.Int32Of | src/RecordCopier.cpp:155-159 | the value GetAsInt32 gives is one SetFromInt32 accepts |
| RecordCopiers.Int64Of | src/RecordCopier.cpp:160-162 | the value GetAsInt64 gives is one SetFromInt64 accepts |
| RecordCopiers.OldContentAgrees | src/RecordCopier.cpp:150-256 | a var destination's setter gives the same whatever the field held before |
| RecordCopiers.VarByType | src/RecordCopier.cpp:89-90 | fields of one type are both var fields or neither, so a raw copy between var fields is a var-data copy |
| RecordCopiers.SortAndMerge | src/RecordCopier.cpp:106-130 | the commands are sorted by source offset (a permutation) and the result is what DoneAdding leaves for that order |
| RecordCopiers.SortBySrc | src/RecordCopier.cpp:106 | std::sort by source offset: sorted and a permutation |
| RecordCopiers.MergeInPlace | src/RecordCopier.cpp:108-130 | the in-place merge loop leaves the merged plan in the first prevIndex + 1 places and returns that count (1 for no commands) |
| RecordCopiers.NullField | src/RecordCopier.cpp:281-282 | SetNull writes the field's null, reports nothing, and leaves every other byte of the fixed part |
| RecordCopiers.Report | src/RecordCopier.cpp:150-256 | messages go to an attached engine; a detached sink stays as it is |
| RecordCopiers.SetField | src/RecordCopier.cpp:150-256 | a setter that throws changes nothing; otherwise the messages are reported and the field holds what the setter computed while every other byte of the record's used part stays, except the var-data length word GetRecord brings up to date; or the record is left and "too big" is thrown |
| RecordCopiers.RawStep | src/RecordCopier.cpp:270-275 | a raw copy after a plan writes exactly the block its steps write |
| RecordCopiers.TempText.constructor | include/RecordLib/RecordCopier.h:32 | the scratch text starts empty |
| RecordCopiers.RecordCopier.constructor | src/RecordCopier.cpp:38-48 | a new copier has no deferred pairs and no commands, with the given layouts, suppress flag and separator |
| RecordCopiers.RecordCopier.Add | src/RecordCopier.cpp:56-59 | the pair is appended to the deferred pairs and nothing else changes |
| RecordCopiers.RecordCopier.IsValid | src/RecordCopier.cpp:61-64 | true exactly when a pair is deferred or a command exists |
| RecordCopiers.RecordCopier.CommandsFor | src/RecordCopier.cpp:97-101 | one command per pair, in order, each the one DoAdd makes from what its local held |
| RecordCopiers.RecordCopier.CommandSound | src/RecordCopier.cpp:66-93 | a command DoAdd makes can be run: a raw copy lies within both fixed parts, a var copy names var fields |
| RecordCopiers.RecordCopier.DoAdd | src/RecordCopier.cpp:66-93 | the command for the pair is appended, the members the source leaves unset taken from the given command |
| RecordCopiers.RecordCopier.AddDeferred | src/RecordCopier.cpp:97-102 | the commands for the deferred pairs are appended in order and the pairs cleared |
| RecordCopiers.RecordCopier.AddNext | src/RecordCopier.cpp:97-101 | one turn of AddDeferred's loop: the command for the k-th deferred pair is appended after those for the pairs before it |
| RecordCopiers.RecordCopier.FinishedSound | src/RecordCopier.cpp:106-130 | sorting and merging runnable commands leaves runnable commands |
| RecordCopiers.RecordCopier.DoneAdding | src/RecordCopier.cpp:95-131 | whatever the unset members of the new commands hold, the deferred pairs become commands after the existing ones and the plan is a sorted permutation of them, merged as Finished gives |
| RecordCopiers.RecordCopier.Copy | src/RecordCopier.cpp:133-277 | runs DoneAdding first when pairs are deferred, so the plan is then a sorted permutation of the old commands and the deferred pairs' commands, merged; each command, in order, does to the record the earlier ones left what Ran states for its kind, and the first to fail ends the copy with its error, as Stopped states; a plan of raw copies writes the bytes its steps write; suppressed conversions leave the destination field's engine detached |
| RecordCopiers.RecordCopier.SetDestToNull | src/RecordCopier.cpp:279-283 | every destination field is set null; with non-overlapping fields all of them then read null |
| RecordCopiers.RecordCopier.Run | src/RecordCopier.cpp:140-276 | one command, as Ran states: a raw copy writes the source block at the destination offset and nothing else; a var-data copy leaves the source's value cut to the maximum and the rest of the record's used part as it was, or throws too big with the record unchanged; a conversion does what Converted states; a detached engine stays detached |
| RecordCopiers.RecordCopier.CopyRaw | src/RecordCopier.cpp:270-275 | memcpy: the destination holds the source's block at its offset and nothing else changes |
| RecordCopiers.RecordCopier.CopyVarData | src/RecordCopier.cpp:260-269 | the destination's var data becomes the source's value cut to the maximum bytes, with every other byte of the record's used part kept, or the record is left as it was when it would grow too big |
| RecordCopiers.RecordCopier.ChangeField | src/RecordCopier.cpp:142-259 | the conversion as Converted states (on success only the destination field's bytes and the var-data length word change); in suppress mode the engine is set to NULL and restored to pSaveDestEngine, which is NULL, so it stays detached |
| RecordCopiers.RecordCopier.Convert | src/RecordCopier.cpp:150-256 | a getter or setter that throws leaves the record; otherwise the field holds what the setter computed from the fetched value and the rest of the record's used part stays, except the var-data length word |
| RecordCopiers.RecordCopier.Fetch | src/RecordCopier.cpp:150-256 | the value and messages Fetched gives, reported to the source's engine, the separators exchanged in the scratch text when the conversion asks for it |
| RecordCopiers.RecordCopier.TraceStep | src/RecordCopier.cpp:140-276 | a command run after the traced ones extends the trace by the record it leaves when it succeeds, and otherwise is where the copy stopped, with its error |
| RecordCopiers.RecordCopier.Execute | src/RecordCopier.cpp:140-277 | the loop of Copy: each command, in order, does to the record the earlier ones left what Ran states (its field written, the rest of the used part kept), the trace records every record and its used length on the way, and the first command to fail ends the loop with its error, as Stopped states |
| RecordCopiers.RecordCopier.NullNext | src/RecordCopier.cpp:281-282 | one turn of SetDestToNull's loop: field x is set null and, with non-overlapping fields, the fields before it still read null |
| RecordCopiers.RecordCopier.Next | src/RecordCopier.cpp:140-276 | one turn of Copy's loop: the plan is unchanged, the k-th command does what Ran states, and the raw-plan replay and the detached engines carry over |
| RecordCopiers.RecordCopier.ConvertDecimalSep | src/RecordCopier.cpp:285-298 | the scratch text becomes the input with its separators exchanged up to the first NUL, and is returned |
| Bytes.FromToLE | include/RecordLib/FieldNum.h:72-85 | a number below 256^n stored as n little-endian bytes (memcpy on a little-endian machine) reads back as itself |
| Bytes.ToFromLE | include/RecordLib/FieldNum.h:72-85 | n bytes read as a number and stored again give the same bytes |
| Bytes.SignedRoundTrip | include/RecordLib/FieldNum.h:72-85 | a signed value in n bytes read back through its two's-complement image is itself |
| Bytes.WriteU32 | src/Record.cpp:110-114 | memcpy of an unsigned into four bytes: only those bytes change, and they read back as the value |
| Bytes.Splice | src/Record.cpp:102-105 | memcpy of a block: the block is at its place and every other byte is kept |
| ByteStreams.ByteStream.Write | include/RecordLib/RecordInfo.h:258 | file.Write appends the bytes and leaves the read position |
| ByteStreams.ByteStream.Read | include/RecordLib/RecordInfo.h:281 | file.Read gives the next n bytes and advances past them |

## Left out

- Floating point is not modelled. This covers string-to-double and double-to-string conversion (StringToDouble, SRC_doubleToStringHelper), the Float and Double field classes, `SetFromDouble`/`GetAsDouble` of the integer fields, and FixedDecimal `SetFromDouble` for values that are not whole numbers. FixedDecimal `SetFromBool` and `SetFromInt32` pass a whole number through the double setter; the model takes that number's printed digits exactly (`FieldFixedDecimal.StoreWhole`).
- FieldDispatch.ImplOf: Float and Double have no field class in the model. `AddField` lays out a Float or Double field like any other fixed field, but such a field has no getters or setters here.
- RecordCopiers.RecordCopier.Copy: the field objects of a copy plan are the modelled classes, so a conversion from or to Float or Double is not covered.
- The YXDB file layer (file descriptors, seeking, LZF block compression) is not modelled. `Write`/`Read` are modelled over an in-memory byte stream (`ByteStreams.ByteStream`).
- Hash128 and SpookyV2 (`GetHash`) are not modelled: the hash function is not part of this model.
- GlotKernel's SQLite message lookup, its language globals and ComputeKeyUTF8 are not modelled. `Interp` takes the message text as a parameter.
- StringNoCase compares by ASCII letters only. Unicode case folding depends on a table that is not part of this model.
- The `SCType` character tables are external; the blank test is modelled as C `isspace` (space, tab, newline, vertical tab, form feed, carriage return).
- SmartPointerRefObj reference counting is a memory-management concern and is not modelled; field objects are plain Dafny objects.
- The GeoJSON/SHP spatial codec is not modelled. `GetAsSpatialBlob` on a non-null value always fails, as the `ValidateShpBlob` stub makes it do.
- XML tag lookup (FindXmlTag, GetInnerXml, InitAttributes) is modelled as a map from attribute name to value. `FieldSchema` FromXML and `AddField` from XML take that map.
- FieldXml.CreateFieldXml: the round trip is proved from the attribute list to the attribute map, not back through a parse of the text.
- MiniXml.UnescapeAttribute requires text without NUL, since the source works on C strings.
- Messages are a kind plus the values they quote, not the rendered message text.
- FieldFixedDecimal.WideText: for a wide input, the message about too many digits quotes the input itself. In the source that text comes from a pointer into the scratch string, which by then may be truncated.
- The base class's string `GetAsBool` (src/FieldBase.cpp:79-94) reads the value only when it is null. Every string field overrides it, so it is not modelled.
- RecordInfos.RecordInfo.SetGenericEngine: records only whether an engine is attached. It does not push the engine to the field objects; each field object's sink is set on its own (`FieldDispatch.FieldObj`).
- RecordInfos.RecordInfo.ValidateFieldName: takes a `fuel` bound on the chain of renames of displaced fields, which has no obvious termination measure. When the fuel runs out the model answers `RenameChainTooLong`, an error the source does not have.
- An exception thrown halfway through an operation leaves the source's objects partly updated. The model's error results promise nothing about the state after an error.
- The lock-in flag and `InitFromXml`, `SetLockIn`, `GetRecordXmlMetaData`, `SwapFieldNames`, `CreateRecord`, the by-type lookups (`GetFieldsByType`, `GetFieldAndIndexByType`, `GetNumFieldsByType`, `GetFieldByType`, `GetFieldNumByType`) and `AssertValid` are outside the modelled core.
- FieldDispatch.ImplOf: a FixedDecimal schema with a negative scale gets no class. The source checks the scale against the size only when it is positive and then builds the field, but how its class behaves with a negative scale is not modelled.
- FieldDispatch.SetDecimal: an empty or NUL-led wide text makes the field null, as the corrected `FieldFixedDecimal.WideText` gives. As written the source stores the previous scratch text again (`FieldFixedDecimal.StaleTextAsWritten`); following it would thread the scratch text through every setter.
- RecordInfos.Layout: a String or WString field's raw size is the full byte count plus the flag byte (`Fields.RawSize`). The source narrows it through an int, so a size near 2^32 wraps (`Fields.RawSizeWraps`); such a field is refused as "Record too big" here and accepted with a wrapped size there.
- RecordInfos.LayoutMatchesClass: matches the class raw size without the wrap, as in the line above.
- RecordInfos.RecordInfo.AddField: inherits the unwrapped raw size from `RecordInfos.Layout`.
- RecordInfos.RecordInfo.AddField: requires a schema type other than Unknown. For Unknown the source leaves the field pointer null (src/RecordInfo.cpp:484-485). It still throws the field-limit error when the record is full (src/RecordInfo.cpp:494-499), and otherwise dereferences the null pointer (src/RecordInfo.cpp:501). Neither path is modelled.
- RecordInfos.RecordInfo.AddFieldSized: requires a field type other than Unknown, for the same reason as AddField.
- GlotKernel.Interp: appends through the clamped copy. Once the expansion passes the capacity, the source's next AppendBuf hands memcpy a negative count, which is undefined behaviour; `GlotKernel.AppendBuf` models that call and reports the overrun.
- The test headers under include/RecordLib/test are a gtest harness and are not modelled.

## Findings

| source | as written | input that shows it | evidently intended | confidence | as-written member | corrected member |
|---|---|---|---|---|---|---|
| src/SRC_stringHelper_OpenAlteryx.cpp:89-107 | on overflow the accumulator, which counts downwards from 0, is set to +MAX; the final negation then turns a positive input into -MAX, and a negative input keeps +MAX | "99999999999" parsed as a 32-bit int gives -2147483647, and "-99999999999" gives 2147483647 | an overflow saturates to MAX, or to MIN for a negative input, and sets ERANGE | not executed | StringHelper.OverflowAsWritten | StringHelper.OverflowSaturates |
| src/UTF16Traits.cpp:118-131 | a lone lead surrogate advances the position by two units, even when the second unit is the terminating NUL | units D800, 0, 'a', 0 count two code points and read past the terminator | counting stops at the NUL | not executed | Utf16.LengthPointsSkipsNul | Utf16.CountPointsReachesNul |
| include/SrcLib_Replacement.h:149-162 | after each replacement the search resumes at the old position plus the length of the target, so it rescans the inserted text | in "a", replacing "a" by "ba" never terminates; in "aaaa", replacing "aa" by "" leaves "aa" | the search resumes after the inserted replacement | not executed | SrcLib.ReplaceAsWrittenDefects | SrcLib.Tstr.ReplaceStringResuming |
| src/GlotKernel.cpp:95-100 | once the text written exceeds the capacity, the remaining room is negative and the copy length is not clamped at zero | capacity 1, format "ab@1", argument "x" | nothing is copied once the buffer is full | not executed | GlotKernel.AppendBufOverrun | GlotKernel.AppendBufClamped |
| include/SrcLib_Replacement.h:582-614 | the compare loop stops when either string ends and then reports equality | "ab" and "a" compare as equal | the longer string compares greater | not executed | SrcLib.PrefixComparesEqual | SrcLib.CompareCompactToEnd |
| src/RecordInfo.cpp:300 | the rename branch uses a map insert that does not overwrite an existing key, so the entry of the displaced field stays | fields added as A, A, A2 and A2 are named A, A4, A2 and A2: after the third, A2 still maps to field 1, and the fourth is then given A2 again | the map sends every name to the field that carries it, and no two fields share a name | not executed | FieldNamesExample.FourFieldsAsWritten | FieldNames.ValidateIndexes |
| include/RecordLib/FieldString.h:435-437 | a narrow field's GetAsInt32 parses with a 64-bit strtol and assigns the result to an int | the text of 4294967296 reads as 0 with no message | a value outside the int range reads as null with a report | not executed | FieldString.NarrowWrapsAsWritten | FieldString.GetAsInt32 |
| include/RecordLib/FieldNum.h:101-135 | the end pointer of the parse lies past leading blanks and a sign even when no digit follows, so the text counts as fully consumed | " " or "-" stores 0 with no message | text without digits stores null and is reported as not a number | not executed | FieldNum.NoDigitsAsWritten | FieldNum.SetFromString |
| src/FieldFixedDecimal.cpp:17-33 | GetAsBool scans every byte of the field, past the NUL that ends the value | size 6, set to 123.5 and then to 0.0, reads as true | only the stored value's digits count | not executed | FieldFixedDecimal.StaleDigitsAsWritten | FieldFixedDecimal.FixedDecimalField.GetAsBool |
| src/FieldFixedDecimal.cpp:217-221 | an empty wide text leaves the scratch string as it was, so the previous value is stored again | set to 1.5, then to an empty wide text, the field holds 1.5 | an empty text stores null | not executed | FieldFixedDecimal.StaleTextAsWritten | FieldFixedDecimal.WideText |
| include/RecordLib/FieldString.h:384-392 | the raw size size*sizeof(TChar)+1 is computed as a size_t and narrowed through `const int nRawSize` into the 32-bit raw size | a String of 0xffffffff characters has raw size 0 | the raw size is the full byte count plus the flag byte | not executed | Fields.RawSizeWraps | Fields.RawSize |
| include/RecordLib/FieldString.h:444-448 | a wide field's GetAsInt32 tests the end pointer of sh_strtoi, which lies past leading blanks | a wide field holding " " reads as 0 with no message | blank text reads as null and is reported as not a number | not executed | FieldString.BlankAsWritten | FieldString.BlankRead |
| src/RecordCopier.cpp:108-130 | with no command, prevIndex stays 0 and the final resize to prevIndex + 1 leaves one value-initialised command | DoneAdding on a copier to which no pair was added: IsValid then returns true | with nothing added the plan stays empty and IsValid stays false | not executed | RecordCopiers.NothingAddedAsWritten | RecordCopiers.MergedCount |
